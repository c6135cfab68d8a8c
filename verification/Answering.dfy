/**
 Storing the records of an upstream response, and composing the answers to a query from the
 cache and, where it has none, the host table.
 */
module Answering {
  import opened Bytes
  import opened LruList
  import opened PacketCodec
  import H = HostLines
  import Names
  import UrlCodec

  /** The host table's input; absent when no host file could be read. */
  datatype HostData = HostData(present: bool, lines: seq<H.Line>, loaded: int)

  /** The cache stores and compares types in eight bits. */
  function Narrow(t: u16): byte {
    t % 256
  }

  // ---------------------------------------------------------------- storing

  /** The record made from answer `a` to question `q` at `now`. */
  function RecordOf(q: Quest, a: Answer, now: int): Entry {
    Entry(q.qname, a.rdata, Narrow(a.rtype), a.addition, now + a.ttl)
  }

  /** The cache after storing the answers that have the first question's type. */
  function Store(cap: nat, c: seq<Entry>, q: Quest, ans: seq<Answer>, now: int): (r: seq<Entry>)
    requires 0 < cap && |c| <= cap
    ensures |r| <= cap
  {
    if ans == [] then c
    else
      var before := Store(cap, c, q, ans[..|ans| - 1], now);
      var a := ans[|ans| - 1];
      if a.rtype != q.qtype then before else LruList.Insert(cap, before, RecordOf(q, a, now))
  }

  /** Storing a whole response; one without answers needs no question. */
  function StoreAll(cap: nat, c: seq<Entry>, quests: seq<Quest>, ans: seq<Answer>, now: int): (r: seq<Entry>)
    requires 0 < cap && |c| <= cap && (ans != [] ==> quests != [])
    ensures |r| <= cap
  {
    if ans == [] then c else Store(cap, c, quests[0], ans, now)
  }

  /** Whatever is in the cache after storing was there before, or is an answer of the question's type. */
  lemma {:induction false} StoreMembers(cap: nat, c: seq<Entry>, q: Quest, ans: seq<Answer>, now: int, e: Entry)
    requires 0 < cap && |c| <= cap && e in Store(cap, c, q, ans, now)
    ensures e in c || exists a :: a in ans && a.rtype == q.qtype && e == RecordOf(q, a, now)
  {
    if ans != [] {
      var init, a := ans[..|ans| - 1], ans[|ans| - 1];
      assert ans == init + [a];
      var before := Store(cap, c, q, init, now);
      if e in before {
        StoreMembers(cap, c, q, init, now, e);
      } else {
        assert a in ans;
      }
    }
  }

  /** The records of the answers that have the question's type, the last answer first. */
  function Latest(q: Quest, ans: seq<Answer>, now: int): seq<Entry> {
    if ans == [] then []
    else
      Latest(q, ans[1..], now)
      + if ans[0].rtype == q.qtype
        then [Entry(q.qname, ans[0].rdata, q.qtype % 256, ans[0].addition, now + ans[0].ttl)] else []
  }

  function First(s: seq<Entry>, n: nat): seq<Entry> {
    if |s| <= n then s else s[..n]
  }

  lemma {:induction false} LatestSplits(q: Quest, a: seq<Answer>, b: seq<Answer>, now: int)
    ensures Latest(q, a + b, now) == Latest(q, b, now) + Latest(q, a, now)
  {
    if a == [] {
      assert a + b == b && Latest(q, b, now) + [] == Latest(q, b, now);
    } else {
      var head := if a[0].rtype == q.qtype then [RecordOf(q, a[0], now)] else [];
      LatestSplits(q, a[1..], b, now);
      assert (a + b)[1..] == a[1..] + b;
      assert Latest(q, a, now) == Latest(q, a[1..], now) + head;
      assert Latest(q, a + b, now) == Latest(q, a[1..] + b, now) + head;
      Assoc(Latest(q, b, now), Latest(q, a[1..], now), head, []);
    }
  }

  /**
   After storing, the cache is what fits of the records of all answers of the question's type, the
   last answer first, and behind them what was in it.
   */
  lemma {:induction false} StoreIsLatest(cap: nat, c: seq<Entry>, q: Quest, ans: seq<Answer>, now: int)
    requires 0 < cap && |c| <= cap
    ensures Store(cap, c, q, ans, now) == First(Latest(q, ans, now) + c, cap)
  {
    if ans == [] {
      assert [] + c == c;
    } else {
      var n := |ans| - 1;
      var init, a := ans[..n], ans[n];
      assert ans == init + [a];
      StoreIsLatest(cap, c, q, init, now);
      LatestSplits(q, init, [a], now);
      InsertFirst(cap, c, q, a, Latest(q, init, now), now);
    }
  }

  lemma {:induction false} InsertFirst(cap: nat, c: seq<Entry>, q: Quest, a: Answer, latest: seq<Entry>, now: int)
    requires 0 < cap && |c| <= cap
    ensures var before := First(latest + c, cap);
            |before| <= cap
            && First(Latest(q, [a], now) + latest + c, cap)
            == if a.rtype == q.qtype then LruList.Insert(cap, before, RecordOf(q, a, now)) else before
  {
    assert [a][1..] == [];
    if a.rtype == q.qtype {
      var e := RecordOf(q, a, now);
      assert Latest(q, [a], now) == [] + [e] == [e];
      assert [e] + latest + c == [e] + (latest + c);
    } else {
      assert Latest(q, [a], now) == [] + [] == [];
      assert [] + latest + c == latest + c;
    }
  }

  /** `idx` are the places of the answers of the type, the last first and each once. */
  ghost predicate Places(ans: seq<Answer>, t: u16, idx: seq<nat>) {
    && (forall j, k :: 0 <= j < k < |idx| ==> idx[j] > idx[k])
    && (forall k :: 0 <= k < |idx| ==> idx[k] < |ans|)
    && forall i :: 0 <= i < |ans| ==> (i in idx <==> ans[i].rtype == t)
  }

  /** `r` are the records of the answers at `idx` to the question `q`. */
  ghost predicate AreRecords(r: seq<Entry>, q: Quest, ans: seq<Answer>, idx: seq<nat>, now: int) {
    && |r| == |idx|
    && forall k :: 0 <= k < |idx| ==> idx[k] < |ans| && IsRecord(r[k], q, ans[idx[k]], now)
  }

  ghost predicate IsRecord(e: Entry, q: Quest, a: Answer, now: int) {
    e == Entry(q.qname, a.rdata, a.rtype % 256, a.addition, now + a.ttl)
  }

  /** These records are of exactly the answers of the type, the last first and each once. */
  lemma {:induction false} LatestPlaces(q: Quest, ans: seq<Answer>, now: int) returns (idx: seq<nat>)
    ensures Places(ans, q.qtype, idx) && AreRecords(Latest(q, ans, now), q, ans, idx, now)
  {
    idx := [];
    if ans != [] {
      var n := |ans| - 1;
      var init, a := ans[..n], ans[n];
      var before := LatestPlaces(q, init, now);
      idx := if a.rtype == q.qtype then [n] + before else before;
      PlacesNext(ans, q.qtype, before, idx);
      assert ans == init + [a];
      LatestSplits(q, init, [a], now);
      LatestOne(q, a, now);
      RecordsNext(Latest(q, init, now), Latest(q, ans, now), q, ans, before, idx, now);
    }
  }

  lemma {:induction false} LatestOne(q: Quest, a: Answer, now: int)
    ensures Latest(q, [a], now) == if a.rtype == q.qtype then [RecordOf(q, a, now)] else []
  {
    assert [a][1..] == [];
  }

  lemma {:induction false} PlacesNext(ans: seq<Answer>, t: u16, before: seq<nat>, idx: seq<nat>)
    requires ans != [] && Places(ans[..|ans| - 1], t, before)
    requires idx == if ans[|ans| - 1].rtype == t then [|ans| - 1] + before else before
    ensures Places(ans, t, idx)
  {
    var n := |ans| - 1;
    forall i | 0 <= i < n
      ensures i in idx <==> ans[i].rtype == t
    {
      assert ans[..n][i] == ans[i];
    }
  }

  lemma {:induction false} RecordsNext(r: seq<Entry>, s: seq<Entry>, q: Quest, ans: seq<Answer>, before: seq<nat>,
                                       idx: seq<nat>, now: int)
    requires ans != [] && AreRecords(r, q, ans[..|ans| - 1], before, now)
    requires var n := |ans| - 1;
             if ans[n].rtype == q.qtype then idx == [n] + before && s == [RecordOf(q, ans[n], now)] + r
             else idx == before && s == [] + r
    ensures AreRecords(s, q, ans, idx, now)
  {
    forall k | 0 <= k < |idx|
      ensures idx[k] < |ans| && IsRecord(s[k], q, ans[idx[k]], now)
    {
      var m := |idx| - |before|;
      assert k >= m ==> idx[k] == before[k - m] && IsRecord(r[k - m], q, ans[..|ans| - 1][before[k - m]], now);
    }
  }

  /** An answer of the type is cached if fewer others of it follow than the cache has slots. */
  lemma {:induction false} StoredIsCached(cap: nat, c: seq<Entry>, q: Quest, ans: seq<Answer>, i: nat, now: int)
    requires 0 < cap && |c| <= cap && i < |ans| && ans[i].rtype == q.qtype && |Latest(q, ans[i + 1..], now)| < cap
    ensures RecordOf(q, ans[i], now) in Store(cap, c, q, ans, now)
  {
    var later, e := Latest(q, ans[i + 1..], now), RecordOf(q, ans[i], now);
    StoreIsLatest(cap, c, q, ans, now);
    assert ans == ans[..i] + ans[i..] && ans[i..][1..] == ans[i + 1..];
    LatestSplits(q, ans[..i], ans[i..], now);
    assert Latest(q, ans[i..], now) == later + [e];
    assert (Latest(q, ans, now) + c)[|later|] == e;
    assert First(Latest(q, ans, now) + c, cap)[|later|] == e;
  }

  // ---------------------------------------------------------------- one question

  function HitOf(q: Quest, now: int): Test {
    Hit(q.qname, Narrow(q.qtype), now)
  }

  /** The return value and records for one question. */
  function Search(c: seq<Entry>, hosts: HostData, q: Quest, now: int): (r: (int, seq<Entry>))
    ensures r.0 >= -1 && (r.0 >= 0 ==> r.0 == |r.1|)
  {
    var hits := Keep(HitOf(q, now), c);
    if hits != [] || !hosts.present then (|hits|, hits)
    else H.Answer(H.Listed(hosts.lines, hosts.loaded, q.qname), Narrow(q.qtype), now)
  }

  /** A name is blocked exactly when the host file blocks it and the cache has no address for it. */
  lemma {:induction false} BlockedUnlessCached(c: seq<Entry>, hosts: HostData, q: Quest, now: int)
    ensures Search(c, hosts, q, now).0 == -1
       <==> && Narrow(q.qtype) == TYPE_A && Keep(HitOf(q, now), c) == []
            && hosts.present && exists i :: 0 <= i < |hosts.lines| && hosts.lines[i] == H.Line(H.BLOCKED, q.qname)
  {
    H.BlockedByLine(hosts.lines, hosts.loaded, q.qname, Narrow(q.qtype), now);
  }

  /**
   A stored answer that fewer others of its type follow than the cache has slots is served to exactly
   the questions for the same name, of the same type up to its low byte, until its time is up; so,
   with both types below 256, never for another type.
   */
  lemma {:induction false} StoredIsServed(cap: nat, c: seq<Entry>, q: Quest, ans: seq<Answer>, i: nat, t: int,
                                          hosts: HostData, q': Quest, now: int)
    requires 0 < cap && |c| <= cap && i < |ans| && ans[i].rtype == q.qtype && |Latest(q, ans[i + 1..], t)| < cap
    ensures RecordOf(q, ans[i], t) in Search(Store(cap, c, q, ans, t), hosts, q', now).1
       <==> q'.qname == q.qname && q'.qtype % 256 == ans[i].rtype % 256 && now <= t + ans[i].ttl
    ensures q'.qtype < 256 && ans[i].rtype < 256 ==>
              (q'.qtype % 256 == ans[i].rtype % 256 <==> q'.qtype == ans[i].rtype)
  {
    StoredIsCached(cap, c, q, ans, i, t);
    SearchMembers(Store(cap, c, q, ans, t), hosts, q', now, RecordOf(q, ans[i], t));
  }

  /** A stored record is served exactly when it is live and has the question's name and narrowed type. */
  lemma {:induction false} SearchMembers(c: seq<Entry>, hosts: HostData, q: Quest, now: int, e: Entry)
    requires e in c
    ensures e in Search(c, hosts, q, now).1 <==> Holds(HitOf(q, now), e)
  {
    KeepMembers(HitOf(q, now), c);
    if Keep(HitOf(q, now), c) == [] && hosts.present && e in Search(c, hosts, q, now).1 {
      HostAnswers(hosts, q, e, now);
      assert Holds(HitOf(q, now), e);
    }
  }

  /** A live record of the cache has the question's name and narrowed type. */
  ghost predicate InCache(c: seq<Entry>, q: Quest, now: int) {
    exists e :: e in c && e.name == q.qname && e.rtype == q.qtype % 256 && now <= e.timestamp
  }

  /** The host file has a line for the question. */
  ghost predicate InLines(hosts: HostData, q: Quest) {
    hosts.present && exists i :: 0 <= i < |hosts.lines| && H.Matches(hosts.lines[i], q.qname, q.qtype % 256)
  }

  /** A question finds nothing exactly when neither the cache nor the host file has anything for it. */
  lemma {:induction false} FindsNothing(c: seq<Entry>, hosts: HostData, q: Quest, now: int)
    ensures Search(c, hosts, q, now).0 == 0 <==> !InCache(c, q, now) && !InLines(hosts, q)
  {
    var t := HitOf(q, now);
    KeepMembers(t, c);
    if Keep(t, c) != [] {
      assert Keep(t, c)[0] in Keep(t, c) && Holds(t, Keep(t, c)[0]);
    } else if hosts.present {
      H.BlockedByLine(hosts.lines, hosts.loaded, q.qname, Narrow(q.qtype), now);
      if Search(c, hosts, q, now).0 != -1 {
        var idx := H.EveryLineIsServed(hosts.lines, hosts.loaded, q.qname, Narrow(q.qtype), now);
        assert idx != [] ==> idx[0] in idx;
      } else {
        var i :| 0 <= i < |hosts.lines| && hosts.lines[i] == H.Line([48, 46, 48, 46, 48, 46, 48], q.qname);
        assert H.Matches(hosts.lines[i], q.qname, q.qtype % 256);
      }
    }
  }

  /** A record stored under type A answers a question of type 257, which has the same low byte. */
  lemma {:induction false} TypesConfused(name: Text, a: Answer, now: int)
    requires a.rtype == 1
    ensures var c := Store(1, [], Quest(name, 1, 1), [a], now);
            Search(c, HostData(false, [], 0), Quest(name, 257, 1), now) == (1, [RecordOf(Quest(name, 1, 1), a, now)])
  {
    var e := RecordOf(Quest(name, 1, 1), a, now);
    assert [a][..0] == [];
    assert Store(1, [], Quest(name, 1, 1), [], now) == [];
    assert Store(1, [], Quest(name, 1, 1), [a], now) == [e] + [] == [e];
    assert Keep(HitOf(Quest(name, 257, 1), now), [e][1..]) == [];
  }

  function AnswerOf(i: nat, q: Quest, e: Entry, now: int): Answer {
    Answer(i % 256, 0, q.qtype, q.qclass, 0, (e.timestamp - now) % 0x1_0000_0000, e.addition, e.ip)
  }

  /** The answers loaded for question number `i`; the number is kept in eight bits. */
  function Load(i: nat, q: Quest, found: seq<Entry>, now: int): (ans: seq<Answer>)
    ensures |ans| == |found|
    ensures forall k :: 0 <= k < |ans| ==> ans[k] == AnswerOf(i, q, found[k], now)
  {
    if found == [] then [] else [AnswerOf(i, q, found[0], now)] + Load(i, q, found[1..], now)
  }

  // ---------------------------------------------------------------- all questions

  /** The return value, the answers loaded so far, and the cache with its rotations. */
  datatype Composed = Composed(ret: int, loaded: seq<Answer>, cache: seq<Entry>)

  function Compose(c: seq<Entry>, hosts: HostData, quests: seq<Quest>, i: nat, loaded: seq<Answer>, now: int): Composed
    requires i <= |quests|
    decreases |quests| - i
  {
    if i == |quests| then Composed(|loaded|, loaded, c)
    else
      var q := quests[i];
      var (n, found) := Search(c, hosts, q, now);
      var c' := Touch(c, HitOf(q, now));
      if n <= 0 then Composed(n, loaded, c')
      else Compose(c', hosts, quests, i + 1, loaded + Load(i, q, found, now), now)
  }

  /** What a query does: return value, answers, cache. */
  function Answered(c: seq<Entry>, hosts: HostData, quests: seq<Quest>, now: int): Composed {
    Compose(c, hosts, quests, 0, [], now)
  }

  lemma {:induction false} TouchMembers(c: seq<Entry>, t: Test)
    ensures forall e :: e in Touch(c, t) <==> e in c
    ensures |Touch(c, t)| == |c|
  {
    ReverseMembers(Keep(t, c));
    KeepMembers(t, c);
    KeepMembers(Not(t), c);
    TouchKeepsRecords(c, t);
  }

  // ---------------------------------------------------------------- assembly

  /** Both ask the cache for the same records. */
  predicate SameKey(p: Quest, q: Quest) {
    p.qname == q.qname && Narrow(p.qtype) == Narrow(q.qtype)
  }

  /** An odd number of the first `i` questions ask for the records `q` asks for. */
  predicate AskedOddly(quests: seq<Quest>, i: nat, q: Quest)
    requires i <= |quests|
  {
    i != 0 && AskedOddly(quests, i - 1, q) != SameKey(quests[i - 1], q)
  }

  function Turned(turn: bool, s: seq<Entry>): seq<Entry> {
    if turn then Reverse(s) else s
  }

  /** The cache after the rotations of the first `i` questions. */
  function Touched(c: seq<Entry>, quests: seq<Quest>, i: nat, now: int): seq<Entry>
    requires i <= |quests|
  {
    if i == 0 then c else Touch(Touched(c, quests, i - 1, now), HitOf(quests[i - 1], now))
  }

  /** The records for question `i`, told from the cache as the query found it. */
  function Found(c: seq<Entry>, hosts: HostData, quests: seq<Quest>, i: nat, now: int): seq<Entry>
    requires i < |quests|
  {
    var q := quests[i];
    var hits := Keep(HitOf(q, now), c);
    if hits != [] then Turned(AskedOddly(quests, i, q), hits) else Search(c, hosts, q, now).1
  }

  /** The records for the first `n` questions. */
  function AllFinds(c: seq<Entry>, hosts: HostData, quests: seq<Quest>, n: nat, now: int): (finds: seq<seq<Entry>>)
    requires n <= |quests|
    ensures |finds| == n && forall i :: 0 <= i < n ==> finds[i] == Found(c, hosts, quests, i, now)
  {
    if n == 0 then [] else AllFinds(c, hosts, quests, n - 1, now) + [Found(c, hosts, quests, n - 1, now)]
  }

  /** The answers made from the records for each question, one question after the other. */
  function AnswersFrom(quests: seq<Quest>, finds: seq<seq<Entry>>, now: int): seq<Answer>
    requires |finds| <= |quests|
  {
    if finds == [] then []
    else
      var i := |finds| - 1;
      AnswersFrom(quests, finds[..i], now) + Load(i, quests[i], finds[i], now)
  }

  lemma {:induction false} HitsAfterTouches(c: seq<Entry>, quests: seq<Quest>, i: nat, q: Quest, now: int, t: Test,
                                            touched: seq<Entry>)
    requires i <= |quests| && t == HitOf(q, now) && touched == Touched(c, quests, i, now)
    ensures Keep(t, touched) == Turned(AskedOddly(quests, i, q), Keep(t, c))
  {
    if i != 0 {
      var before := Touched(c, quests, i - 1, now);
      HitsAfterTouches(c, quests, i - 1, q, now, t, before);
      TouchTurns(before, quests[i - 1], q, now, AskedOddly(quests, i - 1, q), Keep(t, c), t, touched);
    }
  }

  lemma {:induction false} TouchTurns(c: seq<Entry>, p: Quest, q: Quest, now: int, turn: bool, hits: seq<Entry>,
                                      t: Test, touched: seq<Entry>)
    requires t == HitOf(q, now) && touched == Touch(c, HitOf(p, now)) && Keep(t, c) == Turned(turn, hits)
    ensures Keep(t, touched) == Turned(turn != SameKey(p, q), hits)
  {
    AnswersAfterTouch(c, p.qname, Narrow(p.qtype), now, q.qname, Narrow(q.qtype));
    assert Reverse(Reverse(hits)) == hits;
  }

  lemma {:induction false} SearchAfterTouches(c: seq<Entry>, hosts: HostData, quests: seq<Quest>, i: nat, now: int)
    requires i < |quests|
    ensures Search(Touched(c, quests, i, now), hosts, quests[i], now)
         == (Search(c, hosts, quests[i], now).0, Found(c, hosts, quests, i, now))
  {
    HitsAfterTouches(c, quests, i, quests[i], now, HitOf(quests[i], now), Touched(c, quests, i, now));
  }

  /** The first question from `i` on that has no answer, or their number. */
  function StopAt(c: seq<Entry>, hosts: HostData, quests: seq<Quest>, i: nat, now: int): (k: nat)
    requires i <= |quests|
    ensures i <= k <= |quests|
    ensures forall j :: i <= j < k ==> Search(c, hosts, quests[j], now).0 > 0
    ensures k < |quests| ==> Search(c, hosts, quests[k], now).0 <= 0
    decreases |quests| - i
  {
    if i == |quests| || Search(c, hosts, quests[i], now).0 <= 0 then i else StopAt(c, hosts, quests, i + 1, now)
  }

  /** The rest of the query from question `i` on, when every earlier one has answers. */
  function Resumed(c: seq<Entry>, hosts: HostData, quests: seq<Quest>, i: nat, now: int): Composed
    requires i <= |quests|
  {
    var loaded := AnswersFrom(quests, AllFinds(c, hosts, quests, i, now), now);
    Compose(Touched(c, quests, i, now), hosts, quests, i, loaded, now)
  }

  lemma {:induction false} ResumedNext(c: seq<Entry>, hosts: HostData, quests: seq<Quest>, i: nat, now: int)
    requires i < |quests|
    ensures Resumed(c, hosts, quests, i, now)
         == if Search(c, hosts, quests[i], now).0 > 0 then Resumed(c, hosts, quests, i + 1, now)
            else Outcome(c, hosts, quests, i, now)
  {
    var loaded := AnswersFrom(quests, AllFinds(c, hosts, quests, i, now), now);
    SearchAfterTouches(c, hosts, quests, i, now);
    ComposeNext(Touched(c, quests, i, now), hosts, quests, i, loaded, now,
                Search(c, hosts, quests[i], now).0, Found(c, hosts, quests, i, now));
    assert AllFinds(c, hosts, quests, i + 1, now)[..i] == AllFinds(c, hosts, quests, i, now);
  }

  lemma {:induction false} ComposeNext(c: seq<Entry>, hosts: HostData, quests: seq<Quest>, i: nat, loaded: seq<Answer>,
                                       now: int,
                                       n: int, found: seq<Entry>)
    requires i < |quests| && Search(c, hosts, quests[i], now) == (n, found)
    ensures var c' := Touch(c, HitOf(quests[i], now));
            Compose(c, hosts, quests, i, loaded, now)
            == if n <= 0 then Composed(n, loaded, c')
               else Compose(c', hosts, quests, i + 1, loaded + Load(i, quests[i], found, now), now)
  {
  }

  lemma {:induction false} ComposeFrom(c: seq<Entry>, hosts: HostData, quests: seq<Quest>, i: nat, now: int)
    requires i <= |quests|
    ensures Resumed(c, hosts, quests, i, now) == Outcome(c, hosts, quests, StopAt(c, hosts, quests, i, now), now)
    decreases |quests| - i
  {
    if i < |quests| {
      ResumedNext(c, hosts, quests, i, now);
      if Search(c, hosts, quests[i], now).0 > 0 {
        ComposeFrom(c, hosts, quests, i + 1, now);
      }
    }
  }

  /** How a query ends that stops at question `k`. */
  function Outcome(c: seq<Entry>, hosts: HostData, quests: seq<Quest>, k: nat, now: int): Composed
    requires k <= |quests|
  {
    var loaded := AnswersFrom(quests, AllFinds(c, hosts, quests, k, now), now);
    if k < |quests| then Composed(Search(c, hosts, quests[k], now).0, loaded, Touched(c, quests, k + 1, now))
    else Composed(|loaded|, loaded, Touched(c, quests, k, now))
  }

  /**
   Answer assembly: the answers are, question by question, the cache's hits or else the host
   table's, as the cache stood before the query; only a repeated question sees its hits turned
   around once per repetition. The first question without an answer decides the return value.
   */
  lemma {:induction false} Assembly(c: seq<Entry>, hosts: HostData, quests: seq<Quest>, now: int)
    ensures var k := StopAt(c, hosts, quests, 0, now);
            && Answered(c, hosts, quests, now) == Outcome(c, hosts, quests, k, now)
            && (Answered(c, hosts, quests, now).ret > 0 <==> k == |quests| > 0)
  {
    var k := StopAt(c, hosts, quests, 0, now);
    ComposeFrom(c, hosts, quests, 0, now);
    if k == |quests| > 0 {
      FoundCounts(c, hosts, quests, k - 1, now);
      AnswersCount(quests, AllFinds(c, hosts, quests, k, now), now);
    }
  }

  function Total(finds: seq<seq<Entry>>): nat {
    if finds == [] then 0 else Total(finds[..|finds| - 1]) + |finds[|finds| - 1]|
  }

  /** The number of answers is the sum of the counts. */
  lemma {:induction false} AnswersCount(quests: seq<Quest>, finds: seq<seq<Entry>>, now: int)
    requires |finds| <= |quests|
    ensures |AnswersFrom(quests, finds, now)| == Total(finds)
  {
    if finds != [] {
      AnswersCount(quests, finds[..|finds| - 1], now);
    }
  }

  lemma {:induction false} FoundCounts(c: seq<Entry>, hosts: HostData, quests: seq<Quest>, i: nat, now: int)
    requires i < |quests| && Search(c, hosts, quests[i], now).0 >= 0
    ensures |Found(c, hosts, quests, i, now)| == Search(c, hosts, quests[i], now).0
  {
  }

  /** Record `e` may answer `q`: a live record of the cache, or a host line's where the cache has none. */
  ghost predicate Answers(c: seq<Entry>, hosts: HostData, q: Quest, e: Entry, now: int) {
    || (e in c && Holds(HitOf(q, now), e))
    || (&& Keep(HitOf(q, now), c) == [] && hosts.present
        && exists l :: l in hosts.lines && FromLine(l, hosts.loaded, q, e, now))
  }

  ghost predicate FromLine(l: H.Line, loaded: int, q: Quest, e: Entry, now: int) {
    && l.domain == q.qname && H.EntryOf(l, loaded).rtype == Narrow(q.qtype)
    && e == H.EntryOf(l, loaded).(timestamp := now + H.HOST_TTL)
  }

  lemma {:induction false} SelectMembers(list: seq<Entry>, rtype: byte, now: int, e: Entry)
    requires e in H.Select(list, rtype, now)
    ensures exists i :: 0 <= i < |list| && list[i].rtype == rtype && e == list[i].(timestamp := now + H.HOST_TTL)
  {
    if e in H.Select(list[1..], rtype, now) {
      SelectMembers(list[1..], rtype, now, e);
      var i :| 0 <= i < |list[1..]| && list[1..][i].rtype == rtype && e == list[1..][i].(timestamp := now + H.HOST_TTL);
      assert list[i + 1] == list[1..][i];
    } else {
      assert list[0].rtype == rtype && e == list[0].(timestamp := now + H.HOST_TTL);
    }
  }

  lemma {:induction false} HostAnswers(hosts: HostData, q: Quest, e: Entry, now: int)
    requires e in H.Answer(H.Listed(hosts.lines, hosts.loaded, q.qname), Narrow(q.qtype), now).1
    ensures exists l :: l in hosts.lines && FromLine(l, hosts.loaded, q, e, now)
  {
    var list := H.Listed(hosts.lines, hosts.loaded, q.qname);
    SelectMembers(list, Narrow(q.qtype), now, e);
    var i :| 0 <= i < |list| && list[i].rtype == Narrow(q.qtype) && e == list[i].(timestamp := now + H.HOST_TTL);
    H.ListedIsLine(hosts.lines, hosts.loaded, q.qname, i);
    var j :| 0 <= j < |hosts.lines| && hosts.lines[j].domain == q.qname
          && list[i] == H.EntryOf(hosts.lines[j], hosts.loaded);
    assert FromLine(hosts.lines[j], hosts.loaded, q, e, now);
  }

  lemma {:induction false} FoundAnswers(c: seq<Entry>, hosts: HostData, quests: seq<Quest>, i: nat, e: Entry, now: int)
    requires i < |quests| && e in Found(c, hosts, quests, i, now)
    ensures Answers(c, hosts, quests[i], e, now)
  {
    var t := HitOf(quests[i], now);
    if Keep(t, c) != [] {
      ReverseMembers(Keep(t, c));
      KeepMembers(t, c);
    } else if hosts.present {
      HostAnswers(hosts, quests[i], e, now);
    }
  }

  /**
   Each answer belongs to one question: it carries that question's number, type and class, comes
   from a record that answers it, and answers stand in the order of their questions.
   */
  lemma {:induction false} AnswerOrigin(c: seq<Entry>, hosts: HostData, quests: seq<Quest>, n: nat, now: int, k: nat)
      returns (i: nat, e: Entry)
    requires n <= |quests| && k < |AnswersFrom(quests, AllFinds(c, hosts, quests, n, now), now)|
    ensures i < n && Answers(c, hosts, quests[i], e, now)
    ensures AnswersFrom(quests, AllFinds(c, hosts, quests, n, now), now)[k] == AnswerOf(i, quests[i], e, now)
  {
    var finds := AllFinds(c, hosts, quests, n, now);
    i, e := AnswerPlace(quests, finds, now, k);
    FoundAnswers(c, hosts, quests, i, e, now);
  }

  lemma {:induction false} AnswerPlace(quests: seq<Quest>, finds: seq<seq<Entry>>, now: int, k: nat)
      returns (i: nat, e: Entry)
    requires |finds| <= |quests| && k < |AnswersFrom(quests, finds, now)|
    ensures i < |finds| && e in finds[i] && AnswersFrom(quests, finds, now)[k] == AnswerOf(i, quests[i], e, now)
    ensures |AnswersFrom(quests, finds[..i], now)| <= k < |AnswersFrom(quests, finds[..i + 1], now)|
  {
    var n := |finds| - 1;
    var init := finds[..n];
    var before := AnswersFrom(quests, init, now);
    assert finds[..n + 1] == finds;
    if k < |before| {
      i, e := AnswerPlace(quests, init, now, k);
      assert init[..i] == finds[..i] && init[..i + 1] == finds[..i + 1];
    } else {
      i, e := n, finds[n][k - |before|];
    }
  }

  lemma {:induction false} AnswersGrow(quests: seq<Quest>, finds: seq<seq<Entry>>, i: nat, n: nat, now: int)
    requires i <= n <= |finds| <= |quests|
    ensures |AnswersFrom(quests, finds[..i], now)| <= |AnswersFrom(quests, finds[..n], now)|
  {
    if i < n {
      AnswersGrow(quests, finds, i, n - 1, now);
      assert finds[..n][..n - 1] == finds[..n - 1];
    }
  }

  /** The answers stand in the order of the questions `i` and `i'` they belong to. */
  lemma {:induction false} QuestionsInOrder(quests: seq<Quest>, finds: seq<seq<Entry>>, now: int, j: nat, k: nat)
      returns (i: nat, i': nat)
    requires |finds| <= |quests| && j <= k < |AnswersFrom(quests, finds, now)|
    ensures i <= i' < |finds|
    ensures AnswersFrom(quests, finds, now)[j].qpos == i % 256 && AnswersFrom(quests, finds, now)[k].qpos == i' % 256
    ensures exists e :: e in finds[i] && AnswersFrom(quests, finds, now)[j] == AnswerOf(i, quests[i], e, now)
    ensures exists e :: e in finds[i'] && AnswersFrom(quests, finds, now)[k] == AnswerOf(i', quests[i'], e, now)
  {
    var e, e';
    i, e := AnswerPlace(quests, finds, now, j);
    i', e' := AnswerPlace(quests, finds, now, k);
    if i > i' {
      AnswersGrow(quests, finds, i' + 1, i, now);
      assert false;
    }
  }

  /** A query keeps the stored records. */
  lemma {:induction false} TouchedMembers(c: seq<Entry>, quests: seq<Quest>, i: nat, now: int)
    requires i <= |quests|
    ensures forall e :: e in Touched(c, quests, i, now) <==> e in c
    ensures |Touched(c, quests, i, now)| == |c|
  {
    if i != 0 {
      TouchedMembers(c, quests, i - 1, now);
      TouchMembers(Touched(c, quests, i - 1, now), HitOf(quests[i - 1], now));
    }
  }

  lemma {:induction false} QueryKeepsRecords(c: seq<Entry>, hosts: HostData, quests: seq<Quest>, now: int)
    ensures var r := Answered(c, hosts, quests, now).cache;
            |r| == |c| && forall e :: e in r <==> e in c
  {
    Assembly(c, hosts, quests, now);
    var k := StopAt(c, hosts, quests, 0, now);
    TouchedMembers(c, quests, if k < |quests| then k + 1 else k, now);
  }

  // ---------------------------------------------------------------- what can be sent

  /** The data can be sent under the type, if any data can: a name must be well-formed and fit. */
  ghost predicate SendableAs(data: Text, t: u16) {
    UrlCodec.NameType(t) ==> Names.ValidName(data) && |data| <= NameRoom(t)
  }

  /** Every record of the cache can be sent in answer to a question of a supported type. */
  ghost predicate Stocked(c: seq<Entry>) {
    forall e :: e in c ==> SendableAs(e.ip, e.rtype)
  }

  /** The answers of a response that are stored can be sent on. */
  ghost predicate Storable(quests: seq<Quest>, ans: seq<Answer>) {
    ans != [] ==>
      quests != [] && forall a :: a in ans && a.rtype == quests[0].qtype ==> SendableAs(a.rdata, Narrow(a.rtype))
  }

  lemma {:induction false} StoreStocks(cap: nat, c: seq<Entry>, quests: seq<Quest>, ans: seq<Answer>, now: int)
    requires 0 < cap && |c| <= cap && Stocked(c) && Storable(quests, ans)
    ensures Stocked(StoreAll(cap, c, quests, ans, now))
  {
    forall e | ans != [] && e in Store(cap, c, quests[0], ans, now)
      ensures SendableAs(e.ip, e.rtype)
    {
      StoreMembers(cap, c, quests[0], ans, now, e);
    }
  }

  /** The query cannot find more answers than a packet counts. */
  ghost predicate Moderate(cap: nat, hosts: HostData, quests: seq<Quest>) {
    && |quests| * cap < 0x1_0000
    && forall i :: 0 <= i < |quests| ==> |quests| * ListedFor(hosts, quests[i]) < 0x1_0000
  }

  /** The number of host lines for the question's name. */
  function ListedFor(hosts: HostData, q: Quest): nat {
    |H.Listed(hosts.lines, hosts.loaded, q.qname)|
  }

  /** The questions fit the receive buffer. */
  ghost predicate Buffered(quests: seq<Quest>) {
    QuestionOffset(quests, |quests|) <= BUFFER_SIZE
  }

  ghost predicate AllSupport(quests: seq<Quest>, n: nat)
    requires n <= |quests|
  {
    forall i :: 0 <= i < n ==> Supports(quests[i].qtype)
  }

  lemma {:induction false} AnswerIsSendable(c: seq<Entry>, hosts: HostData, q: Quest, e: Entry, now: int)
    requires Stocked(c) && Supports(q.qtype) && Answers(c, hosts, q, e, now)
    ensures SendableAs(e.ip, q.qtype)
  {
    assert Narrow(q.qtype) == q.qtype;
  }

  lemma {:induction false} AnswerIsSupported(quests: seq<Quest>, i: nat, e: Entry, now: int)
    requires Buffered(quests) && i < |quests|
    ensures var a := AnswerOf(i, quests[i], e, now);
            a.qpos == i && (Supported(quests, a) <==> Supports(quests[i].qtype) && SendableAs(e.ip, quests[i].qtype))
  {
    BufferBounds(quests, i);
  }

  /** Every record found for a question is loaded as an answer to it. */
  lemma {:induction false} FoundIsLoaded(quests: seq<Quest>, finds: seq<seq<Entry>>, now: int, i: nat, j: nat)
      returns (k: nat)
    requires |finds| <= |quests| && i < |finds| && j < |finds[i]|
    ensures k < |AnswersFrom(quests, finds, now)|
    ensures AnswersFrom(quests, finds, now)[k] == AnswerOf(i, quests[i], finds[i][j], now)
  {
    var n := |finds| - 1;
    if i < n {
      k := FoundIsLoaded(quests, finds[..n], now, i, j);
    } else {
      k := |AnswersFrom(quests, finds[..n], now)| + j;
    }
  }

  /**
   What a query loads from sendable records can be sent exactly when every question before the
   first one without an answer asks for a supported type.
   */
  lemma {:induction false} LoadedIsSupported(c: seq<Entry>, hosts: HostData, quests: seq<Quest>, now: int)
    requires Stocked(c) && Buffered(quests)
    ensures AllSupported(quests, Answered(c, hosts, quests, now).loaded)
       <==> AllSupport(quests, StopAt(c, hosts, quests, 0, now))
  {
    var n := StopAt(c, hosts, quests, 0, now);
    Assembly(c, hosts, quests, now);
    LoadedOrigins(c, hosts, quests, n, now);
    if AllSupported(quests, Answered(c, hosts, quests, now).loaded) {
      LoadedTypes(c, hosts, quests, n, now, AnswersFrom(quests, AllFinds(c, hosts, quests, n, now), now));
    }
  }

  lemma {:induction false} LoadedOrigins(c: seq<Entry>, hosts: HostData, quests: seq<Quest>, n: nat, now: int)
    requires Stocked(c) && Buffered(quests) && n <= |quests|
    ensures AllSupport(quests, n) ==> AllSupported(quests, AnswersFrom(quests, AllFinds(c, hosts, quests, n, now), now))
  {
    var ans := AnswersFrom(quests, AllFinds(c, hosts, quests, n, now), now);
    forall k | AllSupport(quests, n) && 0 <= k < |ans|
      ensures Supported(quests, ans[k])
    {
      var i, e := AnswerOrigin(c, hosts, quests, n, now, k);
      AnswerIsSendable(c, hosts, quests[i], e, now);
      AnswerIsSupported(quests, i, e, now);
    }
  }

  lemma {:induction false} LoadedTypes(c: seq<Entry>, hosts: HostData, quests: seq<Quest>, n: nat, now: int,
                                       ans: seq<Answer>)
    requires Buffered(quests) && n <= |quests| && forall i :: 0 <= i < n ==> Search(c, hosts, quests[i], now).0 > 0
    requires ans == AnswersFrom(quests, AllFinds(c, hosts, quests, n, now), now) && AllSupported(quests, ans)
    ensures AllSupport(quests, n)
  {
    var finds := AllFinds(c, hosts, quests, n, now);
    forall i | 0 <= i < n
      ensures Supports(quests[i].qtype)
    {
      FoundCounts(c, hosts, quests, i, now);
      var k := FoundIsLoaded(quests, finds, now, i, 0);
      assert Supported(quests, ans[k]);
      AnswerIsSupported(quests, i, finds[i][0], now);
    }
  }

  /** What the relay sends of what a query has loaded. */
  function SentOf(r: Composed): seq<Answer> {
    if r.ret > 0 then r.loaded else []
  }

  /** Some question finds nothing, or all ask for supported types. */
  ghost predicate Deliverable(c: seq<Entry>, hosts: HostData, quests: seq<Quest>, now: int) {
    (exists i :: 0 <= i < |quests| && Search(c, hosts, quests[i], now).0 <= 0) || AllSupport(quests, |quests|)
  }

  /** Exactly then what the relay sends in answer to a query can be sent. */
  lemma {:induction false} SentIsSupported(c: seq<Entry>, hosts: HostData, quests: seq<Quest>, now: int)
    requires Stocked(c) && Buffered(quests)
    ensures AllSupported(quests, SentOf(Answered(c, hosts, quests, now))) <==> Deliverable(c, hosts, quests, now)
  {
    Assembly(c, hosts, quests, now);
    LoadedIsSupported(c, hosts, quests, now);
  }

  lemma {:induction false} SelectSize(list: seq<Entry>, rtype: byte, now: int)
    ensures |H.Select(list, rtype, now)| <= |list|
  {
    if list != [] {
      SelectSize(list[1..], rtype, now);
    }
  }

  lemma {:induction false} FoundSize(c: seq<Entry>, hosts: HostData, quests: seq<Quest>, i: nat, now: int)
    requires i < |quests|
    ensures |Found(c, hosts, quests, i, now)| <= |c| || |Found(c, hosts, quests, i, now)| <= ListedFor(hosts, quests[i])
  {
    KeepAll(HitOf(quests[i], now), c);
    SelectSize(H.Listed(hosts.lines, hosts.loaded, quests[i].qname), Narrow(quests[i].qtype), now);
  }

  lemma {:induction false} TotalBound(finds: seq<seq<Entry>>, n: nat, most: nat)
    requires forall i :: 0 <= i < |finds| ==> n * |finds[i]| <= most
    ensures n * Total(finds) <= |finds| * most
  {
    if finds != [] {
      var init, last := finds[..|finds| - 1], |finds[|finds| - 1]|;
      TotalBound(init, n, most);
      assert n * Total(finds) == n * Total(init) + n * last;
      assert |finds| * most == |init| * most + most;
    }
  }

  lemma {:induction false} TimesMonotone(n: nat, a: nat, b: nat)
    requires a <= b
    ensures n * a <= n * b
  {
  }

  /** The answers a query loads fit the packet's count. */
  lemma {:induction false} LoadedFits(cap: nat, c: seq<Entry>, hosts: HostData, quests: seq<Quest>, now: int)
    requires |c| <= cap && Moderate(cap, hosts, quests)
    ensures |Answered(c, hosts, quests, now).loaded| < 0x1_0000
  {
    var k, n := StopAt(c, hosts, quests, 0, now), |quests|;
    var finds := AllFinds(c, hosts, quests, k, now);
    Assembly(c, hosts, quests, now);
    AnswersCount(quests, finds, now);
    forall i | 0 <= i < k
      ensures n * |finds[i]| <= 0xFFFF
    {
      FoundSize(c, hosts, quests, i, now);
      TimesMonotone(n, |finds[i]|, if |finds[i]| <= |c| then cap else ListedFor(hosts, quests[i]));
    }
    TotalBound(finds, n, 0xFFFF);
    if n > 0 && Total(finds) > 0xFFFF {
      TimesMonotone(n, 0x1_0000, Total(finds));
      assert false;
    }
  }
}
