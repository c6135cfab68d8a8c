/**
 The record cache at the level of its slots: which slots are listed, in which order, and what
 they hold. `used[k]` is the time slot `k` was last put at the front, by an insert or by one
 rotation move, counted by `clock`; both are bookkeeping that no operation looks at.
 */
module LruSlots {
  import opened Bytes
  import opened ListLinks
  import opened LruList

  datatype Slots = Slots(order: seq<int>, recs: seq<Entry>, used: seq<nat>, clock: nat)

  ghost predicate InRange(order: seq<int>, n: nat) {
    forall i :: 0 <= i < |order| ==> 0 <= order[i] < n
  }

  ghost predicate Wellformed(s: Slots) {
    && |s.used| == |s.recs| && 0 < |s.recs|
    && Threads(s.order, |s.recs|)
  }

  /** The list is in strictly decreasing order of last use. */
  ghost predicate ByRecency(s: Slots)
    requires Wellformed(s)
  {
    && (forall i :: 0 <= i < |s.order| ==> s.used[s.order[i]] < s.clock)
    && (forall i, j :: 0 <= i < j < |s.order| ==> s.used[s.order[i]] > s.used[s.order[j]])
  }

  ghost predicate Inv(s: Slots) {
    Wellformed(s) && ByRecency(s)
  }

  ghost function Records(order: seq<int>, recs: seq<Entry>): (c: seq<Entry>)
    requires InRange(order, |recs|)
    ensures |c| == |order|
    ensures forall i :: 0 <= i < |order| ==> c[i] == recs[order[i]]
  {
    if order == [] then [] else [recs[order[0]]] + Records(order[1..], recs)
  }

  /** The cached records, most recently used first. */
  ghost function Contents(s: Slots): seq<Entry>
    requires Wellformed(s)
  {
    Records(s.order, s.recs)
  }

  ghost function KeepSlots(t: Test, order: seq<int>, recs: seq<Entry>): (r: seq<int>)
    requires InRange(order, |recs|)
    ensures InRange(r, |recs|)
  {
    if order == [] then []
    else (if Holds(t, recs[order[0]]) then [order[0]] else []) + KeepSlots(t, order[1..], recs)
  }

  /** A scan that has kept `kept` and stands at `rest` goes on with its first slot kept or not. */
  lemma {:induction false} ScanPasses(t: Test, kept: seq<int>, rest: seq<int>, recs: seq<Entry>)
    requires InRange(rest, |recs|) && rest != []
    ensures kept + KeepSlots(t, rest, recs)
         == (if Holds(t, recs[rest[0]]) then kept + [rest[0]] else kept) + KeepSlots(t, rest[1..], recs)
  {
    Assoc(kept, [rest[0]], KeepSlots(t, rest[1..], recs), []);
    assert kept + ([] + KeepSlots(t, rest[1..], recs)) == kept + KeepSlots(t, rest[1..], recs);
  }

  /** The lowest slot from `i` on that is not listed. */
  function FirstFree(order: seq<int>, i: nat, cap: nat): (k: nat)
    requires i <= cap
    ensures i <= k <= cap
    ensures forall j :: i <= j < k ==> j in order
    ensures k < cap ==> k !in order
    decreases cap - i
  {
    if i == cap || i !in order then i else FirstFree(order, i + 1, cap)
  }

  ghost function ToFront(s: Slots, k: int, rest: seq<int>): Slots
    requires 0 <= k < |s.used|
  {
    s.(order := [k] + rest, used := s.used[k := s.clock], clock := s.clock + 1)
  }

  /** A new record takes the lowest free slot, or the slot at the end of a full list. */
  ghost function InsertSlot(s: Slots): (k: int)
    requires Wellformed(s)
    ensures 0 <= k < |s.recs|
  {
    FreeSlotExists(s.order, |s.recs|);
    if |s.order| < |s.recs| then FirstFree(s.order, 0, |s.recs|) else s.order[|s.order| - 1]
  }

  ghost function Insert(s: Slots, e: Entry): Slots
    requires Wellformed(s)
  {
    var k := InsertSlot(s);
    var rest := if |s.order| < |s.recs| then s.order else s.order[..|s.order| - 1];
    ToFront(s.(recs := s.recs[k := e]), k, rest)
  }

  ghost function MoveFront(s: Slots, k: int): Slots
    requires |s.used| == |s.recs|
  {
    if k in s.order && 0 <= k < |s.recs| then ToFront(s, k, Without(s.order, k)) else s
  }

  ghost function Rotate(s: Slots, ks: seq<int>): (r: Slots)
    requires |s.used| == |s.recs|
    ensures r.recs == s.recs && |r.used| == |s.used|
  {
    if ks == [] then s else MoveFront(Rotate(s, ks[..|ks| - 1]), ks[|ks| - 1])
  }

  ghost function Scan(s: Slots, now: int): Slots
    requires Wellformed(s)
  {
    s.(order := KeepSlots(Live(now), s.order, s.recs))
  }

  ghost function Flush(s: Slots): Slots {
    s.(order := [])
  }

  // ---------------------------------------------------------------- slots

  /** Pigeonhole: a list of distinct slots that covers `0..cap` has at least `cap` of them. */
  lemma {:induction false} Covers(order: seq<int>, cap: nat)
    requires forall k :: 0 <= k < cap ==> k in order
    ensures |order| >= cap
  {
    if cap != 0 {
      assert cap - 1 in order;
      var i :| 0 <= i < |order| && order[i] == cap - 1;
      var less := order[..i] + order[i + 1..];
      forall k | 0 <= k < cap - 1
        ensures k in less
      {
        assert k in order;
        var j :| 0 <= j < |order| && order[j] == k;
        assert less[if j < i then j else j - 1] == k;
      }
      Covers(less, cap - 1);
    }
  }

  lemma {:induction false} FreeSlotExists(order: seq<int>, cap: nat)
    ensures |order| < cap ==> FirstFree(order, 0, cap) < cap
  {
    if |order| < cap && FirstFree(order, 0, cap) == cap {
      Covers(order, cap);
    }
  }

  lemma {:induction false} AtMostCapacity(order: seq<int>, cap: nat)
    requires Threads(order, cap)
    ensures |order| <= cap
  {
    if order != [] {
      assert 0 <= order[0] < cap;
      if cap - 1 in order {
        var i :| 0 <= i < |order| && order[i] == cap - 1;
        AtMostCapacity(order[..i] + order[i + 1..], cap - 1);
      } else {
        AtMostCapacity(order, cap - 1);
      }
    }
  }

  /** Two positions of a sublist come from two positions of the list in the same order. */
  lemma {:induction false} SubPair<T>(a: seq<T>, b: seq<T>, i: nat, j: nat) returns (p: nat, q: nat)
    requires Sub(a, b) && i <= j < |a|
    ensures p <= q < |b| && (i < j ==> p < q)
    ensures b[p] == a[i] && b[q] == a[j]
  {
    if a[0] == b[0] && Sub(a[1..], b[1..]) {
      if i == 0 && j == 0 {
        p, q := 0, 0;
      } else if i == 0 {
        p, q := SubPair(a[1..], b[1..], j - 1, j - 1);
        p, q := 0, q + 1;
      } else {
        p, q := SubPair(a[1..], b[1..], i - 1, j - 1);
        p, q := p + 1, q + 1;
      }
    } else {
      p, q := SubPair(a, b[1..], i, j);
      p, q := p + 1, q + 1;
    }
  }

  /** Any part of a listing is a listing, and keeps the recency order. */
  lemma {:induction false} SubListing(s: Slots, order: seq<int>)
    requires Sub(order, s.order)
    ensures Wellformed(s) ==> Wellformed(s.(order := order))
    ensures Inv(s) ==> Inv(s.(order := order))
  {
    forall i, j | 0 <= i <= j < |order|
      ensures exists p, q :: 0 <= p <= q < |s.order| && (i < j ==> p < q)
                          && s.order[p] == order[i] && s.order[q] == order[j]
    {
      var p, q := SubPair(order, s.order, i, j);
    }
  }

  lemma {:induction false} KeepSlotsSub(t: Test, order: seq<int>, recs: seq<Entry>)
    requires InRange(order, |recs|)
    ensures Sub(KeepSlots(t, order, recs), order)
  {
    if order != [] {
      var head := if Holds(t, recs[order[0]]) then [order[0]] else [];
      KeepSlotsSub(t, order[1..], recs);
      SubConcat(head, [order[0]], KeepSlots(t, order[1..], recs), order[1..]);
      assert order == [order[0]] + order[1..];
    }
  }

  lemma {:induction false} KeepSlotsRecords(t: Test, order: seq<int>, recs: seq<Entry>)
    requires InRange(order, |recs|)
    ensures Records(KeepSlots(t, order, recs), recs) == Keep(t, Records(order, recs))
  {
    if order != [] {
      var head := if Holds(t, recs[order[0]]) then [order[0]] else [];
      var tail := KeepSlots(t, order[1..], recs);
      KeepSlotsRecords(t, order[1..], recs);
      RecordsConcat(head, tail, recs);
    }
  }

  /** One more slot is passed by a query that has remembered `slots` and copied their records. */
  lemma {:induction false} QueryPasses(t: Test, order: seq<int>, recs: seq<Entry>, i: nat, slots: seq<int>,
                                       result: seq<Entry>)
    requires InRange(order, |recs|) && i < |order| && InRange(order[..i], |recs|)
    requires slots == KeepSlots(t, order[..i], recs) && result == Records(slots, recs)
    ensures InRange(order[..i + 1], |recs|) && 0 <= order[i] < |recs|
    ensures var e := recs[order[i]];
            && KeepSlots(t, order[..i + 1], recs) == (if Holds(t, e) then slots + [order[i]] else slots)
            && Records(KeepSlots(t, order[..i + 1], recs), recs) == if Holds(t, e) then result + [e] else result
  {
    var p := order[i];
    KeepSlotsNext(t, order, recs, i);
    assert InRange([p], |recs|) && Records([p], recs) == [recs[p]];
    RecordsConcat(slots, [p], recs);
  }

  lemma {:induction false} KeepSlotsNext(t: Test, order: seq<int>, recs: seq<Entry>, i: nat)
    requires InRange(order, |recs|) && i < |order|
    ensures InRange(order[..i], |recs|) && InRange(order[..i + 1], |recs|)
    ensures KeepSlots(t, order[..i + 1], recs)
         == KeepSlots(t, order[..i], recs) + if Holds(t, recs[order[i]]) then [order[i]] else []
  {
    if i != 0 {
      KeepSlotsNext(t, order[1..], recs, i - 1);
      assert order[..i][1..] == order[1..][..i - 1] && order[..i + 1][1..] == order[1..][..i];
    }
  }

  lemma {:induction false} KeepSlotsMembers(t: Test, order: seq<int>, recs: seq<Entry>, k: int)
    requires InRange(order, |recs|)
    ensures k in KeepSlots(t, order, recs) <==> k in order && 0 <= k < |recs| && Holds(t, recs[k])
  {
    if order != [] {
      KeepSlotsMembers(t, order[1..], recs, k);
      assert order == [order[0]] + order[1..];
    }
  }

  // ---------------------------------------------------------------- refinement of the list

  lemma {:induction false} ToFrontKeepsInv(s: Slots, k: int, rest: seq<int>)
    requires Inv(s) && 0 <= k < |s.recs|
    requires Sub(rest, s.order) && k !in rest
    ensures Inv(ToFront(s, k, rest))
  {
    SubListing(s, rest);
  }

  lemma {:induction false} InsertRefines(s: Slots, e: Entry)
    requires Inv(s)
    ensures Inv(Insert(s, e)) && |s.order| <= |s.recs|
    ensures Contents(Insert(s, e)) == LruList.Insert(|s.recs|, Contents(s), e)
  {
    AtMostCapacity(s.order, |s.recs|);
    InsertKeepsInv(s, e);
    InsertPrepends(s, e);
  }

  lemma {:induction false} InsertKeepsInv(s: Slots, e: Entry)
    requires Inv(s)
    ensures Inv(Insert(s, e))
  {
    AtMostCapacity(s.order, |s.recs|);
    FreeSlotExists(s.order, |s.recs|);
    var k := InsertSlot(s);
    var rest := if |s.order| < |s.recs| then s.order else s.order[..|s.order| - 1];
    SubPrefix(s.order, |rest|);
    ToFrontKeepsInv(s.(recs := s.recs[k := e]), k, rest);
  }

  lemma {:induction false} InsertPrepends(s: Slots, e: Entry)
    requires Inv(s) && Inv(Insert(s, e)) && |s.order| <= |s.recs|
    ensures Contents(Insert(s, e)) == LruList.Insert(|s.recs|, Contents(s), e)
  {
    var n := if |s.order| < |s.recs| then |s.order| else |s.order| - 1;
    var r := Insert(s, e);
    assert s.order[..|s.order|] == s.order && r.order == [InsertSlot(s)] + s.order[..n];
    FrontRecord(s.order, n, s.recs, InsertSlot(s), e, r.order);
  }

  lemma {:induction false} FrontRecord(order: seq<int>, n: nat, recs: seq<Entry>, k: int, e: Entry, order': seq<int>)
    requires InRange(order, |recs|) && InRange(order', |recs|) && n <= |order|
    requires 0 <= k < |recs| && order' == [k] + order[..n] && Distinct(order')
    ensures Records(order', recs[k := e]) == [e] + Records(order, recs)[..n]
  {
    forall i | 0 <= i < n
      ensures order'[i + 1] == order[i] != k
    {
      assert order'[0] == k;
    }
  }

  lemma {:induction false} ScanRefines(s: Slots, now: int)
    requires Inv(s)
    ensures Inv(Scan(s, now))
    ensures Contents(Scan(s, now)) == Keep(Live(now), Contents(s))
  {
    KeepSlotsSub(Live(now), s.order, s.recs);
    KeepSlotsRecords(Live(now), s.order, s.recs);
    SubListing(s, Scan(s, now).order);
  }

  lemma {:induction false} SubPrefix<T>(a: seq<T>, n: nat)
    requires n <= |a|
    ensures Sub(a[..n], a) && Sub(a, a)
  {
    if a != [] {
      SubPrefix(a[1..], if n == 0 then 0 else n - 1);
      assert n != 0 ==> a[..n][1..] == a[1..][..n - 1];
    }
  }

  // ---------------------------------------------------------------- rotation

  function Minus(order: seq<int>, ks: seq<int>): seq<int> {
    if order == [] then [] else (if order[0] in ks then [] else [order[0]]) + Minus(order[1..], ks)
  }

  lemma {:induction false} WithoutSub(order: seq<int>, k: int)
    ensures Sub(Without(order, k), order)
    ensures Distinct(order) ==> k !in Without(order, k)
    ensures k in order ==> multiset(order) == multiset(Without(order, k)) + multiset{k}
  {
    if order != [] {
      assert order == [order[0]] + order[1..];
      if order[0] == k {
        SubPrefix(order[1..], 0);
      } else {
        WithoutSub(order[1..], k);
      }
    }
  }

  lemma {:induction false} WithoutConcat(a: seq<int>, b: seq<int>, k: int)
    requires k !in a
    ensures Without(a + b, k) == a + Without(b, k)
  {
    if a == [] {
      assert a + b == b;
    } else {
      assert (a + b)[1..] == a[1..] + b;
      WithoutConcat(a[1..], b, k);
    }
  }

  lemma {:induction false} WithoutMiddle(a: seq<int>, b: seq<int>)
    requires b != [] && Distinct(a + b)
    ensures Without(a + b, b[0]) == a + b[1..]
  {
    assert (a + b)[|a|] == b[0];
    assert forall i :: 0 <= i < |a| ==> (a + b)[i] == a[i];
    WithoutConcat(a, b, b[0]);
  }

  lemma {:induction false} WithoutAbsent(order: seq<int>, k: int)
    requires k !in order
    ensures Without(order, k) == order
  {
    if order != [] {
      WithoutAbsent(order[1..], k);
    }
  }

  lemma {:induction false} MinusMembers(order: seq<int>, ks: seq<int>, k: int)
    ensures k in Minus(order, ks) <==> k in order && k !in ks
  {
    if order != [] {
      MinusMembers(order[1..], ks, k);
      assert order == [order[0]] + order[1..];
    }
  }

  lemma {:induction false} MinusOneMore(order: seq<int>, ks: seq<int>, k: int)
    requires Distinct(order) && k !in ks
    ensures Minus(order, ks + [k]) == Without(Minus(order, ks), k)
  {
    if order != [] {
      var tail := order[1..];
      MinusOneMore(tail, ks, k);
      if order[0] == k {
        assert k !in tail;
        MinusMembers(tail, ks, k);
        WithoutAbsent(Minus(tail, ks), k);
        assert Minus(order, ks) == [k] + Minus(tail, ks);
        assert Minus(order, ks + [k]) == [] + Minus(tail, ks + [k]);
      } else if order[0] in ks {
        assert Minus(order, ks) == [] + Minus(tail, ks) == Minus(tail, ks);
        assert Minus(order, ks + [k]) == [] + Minus(tail, ks + [k]) == Minus(tail, ks + [k]);
      } else {
        assert Minus(order, ks) == [order[0]] + Minus(tail, ks);
        assert Minus(order, ks + [k]) == [order[0]] + Minus(tail, ks + [k]);
      }
    }
  }

  lemma {:induction false} MinusKeeps(t: Test, order: seq<int>, recs: seq<Entry>, ks: seq<int>)
    requires InRange(order, |recs|)
    requires forall i :: 0 <= i < |order| ==> (order[i] in ks <==> Holds(t, recs[order[i]]))
    ensures Minus(order, ks) == KeepSlots(Not(t), order, recs)
  {
    if order != [] {
      MinusKeeps(t, order[1..], recs, ks);
    }
  }

  lemma {:induction false} MinusNothing(order: seq<int>)
    ensures Minus(order, []) == order
  {
    if order != [] {
      MinusNothing(order[1..]);
    }
  }

  lemma {:induction false} RotateOrder(s: Slots, ks: seq<int>)
    requires Wellformed(s) && Distinct(ks) && forall i :: 0 <= i < |ks| ==> ks[i] in s.order
    ensures Rotate(s, ks).order == Reverse(ks) + Minus(s.order, ks)
  {
    if ks == [] {
      MinusNothing(s.order);
    } else {
      var last := |ks| - 1;
      var init, k := ks[..last], ks[last];
      RotateOrder(s, init);
      RotateStep(s, Rotate(s, init), init, k);
      assert ks == init + [k];
    }
  }

  lemma {:induction false} RotateStep(s: Slots, r: Slots, init: seq<int>, k: int)
    requires Wellformed(s) && k in s.order && k !in init
    requires r.recs == s.recs && |r.used| == |s.used| && r.order == Reverse(init) + Minus(s.order, init)
    ensures MoveFront(r, k).order == Reverse(init + [k]) + Minus(s.order, init + [k])
  {
    RotateOnce(s.order, init, k);
  }

  lemma {:induction false} RotateOnce(order: seq<int>, init: seq<int>, k: int)
    requires Distinct(order) && k in order && k !in init
    ensures k in Reverse(init) + Minus(order, init)
    ensures [k] + Without(Reverse(init) + Minus(order, init), k) == Reverse(init + [k]) + Minus(order, init + [k])
  {
    MinusMembers(order, init, k);
    MinusOneMore(order, init, k);
    ReverseConcat(init, [k]);
    ReverseAbsent(init, k);
    WithoutConcat(Reverse(init), Minus(order, init), k);
  }

  lemma {:induction false} ReverseAbsent(ks: seq<int>, k: int)
    requires k !in ks
    ensures k !in Reverse(ks)
  {
    if ks != [] {
      ReverseAbsent(ks[1..], k);
    }
  }

  /** Any rotation, of any remembered slots, keeps the invariant and the stored records. */
  lemma {:induction false} RotateKeeps(s: Slots, ks: seq<int>)
    requires Inv(s)
    ensures Inv(Rotate(s, ks))
    ensures multiset(Rotate(s, ks).order) == multiset(s.order)
    ensures multiset(Contents(Rotate(s, ks))) == multiset(Contents(s))
  {
    if ks != [] {
      RotateKeeps(s, ks[..|ks| - 1]);
      MoveFrontKeeps(Rotate(s, ks[..|ks| - 1]), ks[|ks| - 1]);
    }
  }

  lemma {:induction false} RotateMembers(s: Slots, ks: seq<int>, k: int)
    requires Inv(s)
    ensures k in Rotate(s, ks).order <==> k in s.order
    ensures Rotate(s, ks).order == [] <==> s.order == []
  {
    RotateKeeps(s, ks);
    assert k in multiset(s.order) <==> k in s.order;
    assert |multiset(Rotate(s, ks).order)| == |multiset(s.order)|;
  }

  lemma {:induction false} MoveFrontKeeps(s: Slots, k: int)
    requires Inv(s)
    ensures Inv(MoveFront(s, k))
    ensures multiset(MoveFront(s, k).order) == multiset(s.order)
    ensures multiset(Contents(MoveFront(s, k))) == multiset(Contents(s))
  {
    if k in s.order && 0 <= k < |s.recs| {
      MoveFrontKeepsInv(s, k);
      FrontRecords(s.order, s.recs, k);
    }
  }

  lemma {:induction false} MoveFrontKeepsInv(s: Slots, k: int)
    requires Inv(s) && k in s.order && 0 <= k < |s.recs|
    ensures Inv(MoveFront(s, k))
  {
    WithoutSub(s.order, k);
    ToFrontKeepsInv(s, k, Without(s.order, k));
  }

  lemma {:induction false} FrontRecords(order: seq<int>, recs: seq<Entry>, k: int)
    requires InRange(order, |recs|)
    requires k in order && 0 <= k < |recs|
    ensures InRange([k] + Without(order, k), |recs|)
    ensures multiset([k] + Without(order, k)) == multiset(order)
    ensures multiset(Records([k] + Without(order, k), recs)) == multiset(Records(order, recs))
  {
    WithoutSub(order, k);
    WithoutRecords(order, recs, k);
    RecordsCons(k, Without(order, k), recs);
  }

  lemma {:induction false} WithoutRecords(order: seq<int>, recs: seq<Entry>, k: int)
    requires InRange(order, |recs|)
    requires k in order && 0 <= k < |recs|
    ensures InRange(Without(order, k), |recs|)
    ensures multiset(Records(Without(order, k), recs)) + multiset{recs[k]} == multiset(Records(order, recs))
  {
    var x, tail := order[0], order[1..];
    assert order == [x] + tail;
    RecordsCons(x, tail, recs);
    if x == k {
      assert Without(order, k) == tail;
    } else {
      assert k in tail && Without(order, k) == [x] + Without(tail, k);
      WithoutRecords(tail, recs, k);
      RecordsCons(x, Without(tail, k), recs);
    }
  }

  lemma {:induction false} RecordsCons(x: int, a: seq<int>, recs: seq<Entry>)
    requires InRange(a, |recs|) && 0 <= x < |recs|
    ensures InRange([x] + a, |recs|)
    ensures multiset(Records([x] + a, recs)) == multiset{recs[x]} + multiset(Records(a, recs))
  {
    assert ([x] + a)[1..] == a;
  }

  lemma {:induction false} RecordsConcat(a: seq<int>, b: seq<int>, recs: seq<Entry>)
    requires InRange(a, |recs|)
    requires InRange(b, |recs|)
    ensures InRange(a + b, |recs|)
    ensures Records(a + b, recs) == Records(a, recs) + Records(b, recs)
  {
  }

  /** A query followed by its own rotation: the hits in reverse, then the rest as it was. */
  lemma {:induction false} QueryRefines(s: Slots, t: Test)
    requires Inv(s)
    ensures var ks := KeepSlots(t, s.order, s.recs);
            && Inv(Rotate(s, ks))
            && Contents(Rotate(s, ks)) == Touch(Contents(s), t)
  {
    var ks := KeepSlots(t, s.order, s.recs);
    RotateKeeps(s, ks);
    HitsRotateInOrder(s, t);
    KeepSlotsRecords(t, s.order, s.recs);
    KeepSlotsRecords(Not(t), s.order, s.recs);
    ReverseRecords(ks, s.recs);
    RecordsConcat(Reverse(ks), KeepSlots(Not(t), s.order, s.recs), s.recs);
  }

  lemma {:induction false} ReverseRecords(ks: seq<int>, recs: seq<Entry>)
    requires InRange(ks, |recs|)
    ensures InRange(Reverse(ks), |recs|)
    ensures Records(Reverse(ks), recs) == Reverse(Records(ks, recs))
  {
    if ks != [] {
      ReverseRecords(ks[1..], recs);
      RecordsConcat(Reverse(ks[1..]), [ks[0]], recs);
      assert Records([ks[0]], recs) == [recs[ks[0]]];
      assert Records(ks, recs)[1..] == Records(ks[1..], recs);
    }
  }

  /** The slots a query remembers are all listed, so its own rotation is safe. */
  lemma {:induction false} HitsRotateInOrder(s: Slots, t: Test)
    requires Wellformed(s)
    ensures var ks := KeepSlots(t, s.order, s.recs);
            && (forall i :: 0 <= i < |ks| ==> ks[i] in s.order)
            && Rotate(s, ks).order == Reverse(ks) + KeepSlots(Not(t), s.order, s.recs)
  {
    var ks := KeepSlots(t, s.order, s.recs);
    KeepSlotsSub(t, s.order, s.recs);
    SubListing(s, ks);
    forall i | 0 <= i < |ks|
      ensures ks[i] in s.order
    {
      KeepSlotsMembers(t, s.order, s.recs, ks[i]);
    }
    forall i | 0 <= i < |s.order|
      ensures s.order[i] in ks <==> Holds(t, s.recs[s.order[i]])
    {
      KeepSlotsMembers(t, s.order, s.recs, s.order[i]);
    }
    MinusKeeps(t, s.order, s.recs, ks);
    RotateOrder(s, ks);
  }

  // ---------------------------------------------------------------- eviction

  /** A full insert reuses the slot whose last use is the oldest; every other slot stays listed. */
  lemma {:induction false} EvictsLeastRecentlyUsed(s: Slots, e: Entry)
    requires Inv(s) && |s.order| == |s.recs|
    ensures var k := InsertSlot(s);
            && k in s.order
            && (forall j :: j in s.order && j != k ==> s.used[k] < s.used[j])
            && (forall j :: j in Insert(s, e).order <==> j in s.order)
            && (forall j :: j in s.order && j != k ==> Insert(s, e).recs[j] == s.recs[j])
            && Insert(s, e).recs[k] == e
  {
    var last := |s.order| - 1;
    assert s.order == s.order[..last] + [s.order[last]];
  }

  // ---------------------------------------------------------------- interleavings

  /** The locked regions, as separate steps: a query's rotation comes later, on remembered slots. */
  datatype Act =
    | InsertAct(e: Entry)
    | RotateAct(ks: seq<int>)
    | ScanAct(now: int)
    | FlushAct

  ghost function ActStep(s: Slots, a: Act): (r: Slots)
    requires Inv(s)
    ensures Inv(r) && |r.recs| == |s.recs|
  {
    match a
    case InsertAct(e) => InsertRefines(s, e); Insert(s, e)
    case RotateAct(ks) => RotateKeeps(s, ks); Rotate(s, ks)
    case ScanAct(now) => ScanRefines(s, now); Scan(s, now)
    case FlushAct => Flush(s)
  }

  ghost function ActRun(s: Slots, acts: seq<Act>): (r: Slots)
    requires Inv(s)
    ensures Inv(r) && |r.recs| == |s.recs|
  {
    if acts == [] then s else ActStep(ActRun(s, acts[..|acts| - 1]), acts[|acts| - 1])
  }

  /** The step does not follow a null link. */
  ghost predicate Safe(s: Slots, a: Act) {
    match a
    case RotateAct(ks) => s.order == [] || forall i :: 0 <= i < |ks| ==> ks[i] in s.order
    case FlushAct => forall k :: 0 <= k < |s.order| ==> k in s.order
    case _ => true
  }

  /**
   A remembered slot can only be lost to a scan or a flush, so a rotation that runs late is safe
   after any number of inserts and other rotations.
   */
  lemma {:induction false} LateRotationIsSafe(s: Slots, acts: seq<Act>, ks: seq<int>)
    requires Inv(s) && forall i :: 0 <= i < |ks| ==> ks[i] in s.order
    requires forall i :: 0 <= i < |acts| ==> acts[i].InsertAct? || acts[i].RotateAct?
    ensures forall i :: 0 <= i < |ks| ==> ks[i] in ActRun(s, acts).order
    ensures Safe(ActRun(s, acts), RotateAct(ks))
  {
    if acts != [] {
      var r := ActRun(s, acts[..|acts| - 1]);
      LateRotationIsSafe(s, acts[..|acts| - 1], ks);
      match acts[|acts| - 1] {
        case InsertAct(e) =>
          AtMostCapacity(r.order, |r.recs|);
          if |r.order| == |r.recs| {
            EvictsLeastRecentlyUsed(r, e);
          }
        case RotateAct(other) =>
          RotateKeeps(r, other);
          forall i | 0 <= i < |ks|
            ensures ks[i] in Rotate(r, other).order
          {
            assert ks[i] in multiset(r.order);
          }
      }
    }
  }

  ghost function Initial(cap: nat, blank: Entry): (s: Slots)
    requires 0 < cap
    ensures Inv(s)
  {
    Slots([], seq(cap, _ => blank), seq(cap, _ => 0), 0)
  }

  /** Until a scan leaves a hole, the occupied slots are `0..length` and a flush is safe. */
  lemma {:induction false} FlushIsSafeBeforeScans(s: Slots, acts: seq<Act>)
    requires Inv(s) && Safe(s, FlushAct)
    requires forall i :: 0 <= i < |acts| ==> !acts[i].ScanAct?
    ensures Safe(ActRun(s, acts), FlushAct)
  {
    if acts != [] {
      var r := ActRun(s, acts[..|acts| - 1]);
      FlushIsSafeBeforeScans(s, acts[..|acts| - 1]);
      match acts[|acts| - 1] {
        case InsertAct(e) =>
          AtMostCapacity(r.order, |r.recs|);
          if |r.order| == |r.recs| {
            EvictsLeastRecentlyUsed(r, e);
          } else if InsertSlot(r) != |r.order| {
            FillsInOrder(r);
          }
        case RotateAct(ks) =>
          RotateKeeps(r, ks);
          assert |multiset(Rotate(r, ks).order)| == |multiset(r.order)|;
          forall k | 0 <= k < |r.order|
            ensures k in Rotate(r, ks).order
          {
            RotateMembers(r, ks, k);
          }
        case FlushAct =>
      }
    }
  }

  /** With slots `0..length` occupied, the next free slot is `length`. */
  lemma {:induction false} FillsInOrder(s: Slots)
    requires Inv(s) && Safe(s, FlushAct) && |s.order| < |s.recs|
    ensures InsertSlot(s) == |s.order|
  {
    var k := InsertSlot(s);
    FreeSlotExists(s.order, |s.recs|);
    assert k !in s.order;
    if k > |s.order| {
      Covers(s.order, |s.order| + 1);
    }
  }

  /** Two inserts and a scan that drops the older record: the flush follows a null link in slot 0. */
  lemma {:induction false} FlushAfterScanFails(blank: Entry)
    ensures var acts := [InsertAct(blank.(timestamp := 0)), InsertAct(blank.(timestamp := 9)), ScanAct(5)];
            !Safe(ActRun(Initial(2, blank), acts), FlushAct)
  {
    var a, b := InsertAct(blank.(timestamp := 0)), InsertAct(blank.(timestamp := 9));
    var s0 := Initial(2, blank);
    var s1 := ActStep(s0, a);
    var s2 := ActStep(s1, b);
    assert ActRun(s0, [a, b, ScanAct(5)]) == Scan(s2, 5) by {
      assert [a, b, ScanAct(5)][..2] == [a, b] && [a, b][..1] == [a] && [a][..0] == [];
      assert ActRun(s0, []) == s0;
      assert ActRun(s0, [a]) == s1;
      assert ActRun(s0, [a, b]) == s2;
    }
    OldSlotExpires(s1, blank.(timestamp := 9));
    assert 0 !in Scan(s2, 5).order;
  }

  /**
   After a scan, a rotation that runs late is safe exactly when what it remembers has not expired,
   or nothing is left.
   */
  lemma {:induction false} LateRotationAfterScan(s: Slots, now: int, ks: seq<int>)
    requires Inv(s) && forall i :: 0 <= i < |ks| ==> ks[i] in s.order
    ensures Safe(Scan(s, now), RotateAct(ks))
       <==> Keep(Live(now), Contents(s)) == [] || forall i :: 0 <= i < |ks| ==> Holds(Live(now), s.recs[ks[i]])
  {
    KeepSlotsRecords(Live(now), s.order, s.recs);
    forall i | 0 <= i < |ks|
      ensures ks[i] in Scan(s, now).order <==> Holds(Live(now), s.recs[ks[i]])
    {
      KeepSlotsMembers(Live(now), s.order, s.recs, ks[i]);
    }
  }

  /** After a flush and one insert, it is safe exactly when it remembers no slot but the first. */
  lemma {:induction false} LateRotationAfterFlush(s: Slots, e: Entry, ks: seq<int>)
    requires Inv(s)
    ensures Safe(ActRun(s, [FlushAct, InsertAct(e)]), RotateAct(ks)) <==> forall i :: 0 <= i < |ks| ==> ks[i] == 0
  {
    var acts := [FlushAct, InsertAct(e)];
    assert acts[..1] == [FlushAct] && acts[..1][..0] == [];
    assert ActRun(s, acts[..1]) == Flush(s) && ActRun(s, acts) == Insert(Flush(s), e);
    var none: seq<int> := [];
    assert 0 !in none && FirstFree(none, 0, |s.recs|) == 0;
    assert Insert(Flush(s), e).order == [0];
  }

  lemma {:induction false} OldSlotExpires(s: Slots, e: Entry)
    requires Inv(s) && |s.recs| == 2 && s.order == [0] && s.recs[0].timestamp < 5 <= e.timestamp
    ensures Scan(Insert(s, e), 5).order == [1]
  {
    var r := Insert(s, e);
    assert FirstFree([0], 0, 2) == FirstFree([0], 1, 2) == 1;
    assert r.order == [1] + [0] && r.order[1..] == [0] && [0][1..] == [];
    assert r.recs[1] == e && r.recs[0] == s.recs[0];
    assert KeepSlots(Live(5), [0], r.recs) == [];
  }

  /** One more move of a rotation that has gone well so far. */
  lemma {:induction false} RotateNext(s: Slots, ks: seq<int>, i: nat)
    requires Inv(s) && i < |ks|
    ensures var r := Rotate(s, ks[..i]);
            && Rotate(s, ks[..i + 1]) == MoveFront(r, ks[i])
            && (r.order == [] || ks[i] in r.order <==> s.order == [] || ks[i] in s.order)
    ensures Safe(s, RotateAct(ks[..i + 1])) <==> Safe(s, RotateAct(ks[..i])) && (s.order == [] || ks[i] in s.order)
    ensures Safe(s, RotateAct(ks)) ==> Safe(s, RotateAct(ks[..i + 1]))
  {
    RotateMembers(s, ks[..i], ks[i]);
    assert ks[..i + 1] == ks[..i] + [ks[i]];
  }

  // ---------------------------------------------------------------- runs of whole operations

  ghost function OpStep(s: Slots, op: Op): Slots
    requires Inv(s)
  {
    match op
    case InsertOp(e) => Insert(s, e)
    case QueryOp(name, rtype, now) => Rotate(s, KeepSlots(Hit(name, rtype, now), s.order, s.recs))
    case ScanOp(now) => Scan(s, now)
    case FlushOp => Flush(s)
  }

  /** Every operation on the slots is the list operation on the records. */
  lemma {:induction false} OpStepRefines(s: Slots, op: Op)
    requires Inv(s)
    ensures Inv(OpStep(s, op)) && |OpStep(s, op).recs| == |s.recs|
    ensures |s.order| <= |s.recs|
    ensures Contents(OpStep(s, op)) == Step(|s.recs|, Contents(s), op)
  {
    AtMostCapacity(s.order, |s.recs|);
    match op
    case InsertOp(e) => InsertRefines(s, e);
    case QueryOp(name, rtype, now) => QueryRefines(s, Hit(name, rtype, now));
    case ScanOp(now) => ScanRefines(s, now);
    case FlushOp =>
  }

  /** The slots after a run of whole operations on an empty cache. */
  ghost function OpRun(cap: nat, blank: Entry, ops: seq<Op>): (r: Slots)
    requires 0 < cap
    ensures Inv(r) && |r.recs| == cap
  {
    if ops == [] then Initial(cap, blank)
    else
      var before, op := OpRun(cap, blank, ops[..|ops| - 1]), ops[|ops| - 1];
      OpStepRefines(before, op);
      OpStep(before, op)
  }

  /** Over whole runs, the slots hold the list of records that the run gives. */
  lemma {:induction false} OpRunRefines(cap: nat, blank: Entry, ops: seq<Op>)
    requires 0 < cap
    ensures Contents(OpRun(cap, blank, ops)) == Run(cap, ops)
  {
    if ops != [] {
      var init := ops[..|ops| - 1];
      OpRunRefines(cap, blank, init);
      OpStepRefines(OpRun(cap, blank, init), ops[|ops| - 1]);
    }
  }
}
