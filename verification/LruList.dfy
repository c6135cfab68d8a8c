/**
 The record cache seen as a bounded list of entries, most recently used first, and what holds
 of it over whole runs. The linked implementation refines these operations (module LruCache).
 */
module LruList {
  import opened Bytes

  /** A cache record; `rtype` is the 8-bit type field of the stored record. */
  datatype Entry = Entry(name: Text, ip: Text, rtype: byte, addition: u16, timestamp: int)

  /** The tests the cache applies to an entry while it walks its list. */
  datatype Test =
    | Hit(name: Text, rtype: byte, now: int)
    | Live(now: int)
    | Not(test: Test)

  predicate Holds(t: Test, e: Entry) {
    match t
    case Hit(name, rtype, now) => e.name == name && e.timestamp >= now && e.rtype == rtype
    case Live(now) => e.timestamp >= now
    case Not(u) => !Holds(u, e)
  }

  function Keep(t: Test, c: seq<Entry>): seq<Entry> {
    if c == [] then [] else (if Holds(t, c[0]) then [c[0]] else []) + Keep(t, c[1..])
  }

  function Insert(cap: nat, c: seq<Entry>, e: Entry): seq<Entry>
    requires 0 < cap && |c| <= cap
  {
    [e] + (if |c| < cap then c else c[..|c| - 1])
  }

  /** The list after a query and the rotation it starts. */
  function Touch(c: seq<Entry>, hit: Test): seq<Entry> {
    Reverse(Keep(hit, c)) + Keep(Not(hit), c)
  }

  // ---------------------------------------------------------------- filtering

  lemma {:induction false} KeepSplits(t: Test, a: seq<Entry>, b: seq<Entry>)
    ensures Keep(t, a + b) == Keep(t, a) + Keep(t, b)
  {
    if a == [] {
      assert a + b == b;
    } else {
      var head := if Holds(t, a[0]) then [a[0]] else [];
      assert (a + b)[1..] == a[1..] + b;
      KeepSplits(t, a[1..], b);
      Assoc(head, Keep(t, a[1..]), Keep(t, b), []);
      assert Keep(t, a + b) == head + Keep(t, a[1..] + b);
    }
  }

  lemma {:induction false} KeepPartitions(t: Test, c: seq<Entry>)
    ensures |Keep(t, c)| + |Keep(Not(t), c)| == |c|
    ensures multiset(Keep(t, c)) + multiset(Keep(Not(t), c)) == multiset(c)
  {
    if c != [] {
      KeepPartitions(t, c[1..]);
      assert c == [c[0]] + c[1..];
    }
  }

  lemma {:induction false} KeepAll(t: Test, c: seq<Entry>)
    ensures |Keep(t, c)| <= |c|
    ensures |Keep(t, c)| < |c| <==> exists i :: 0 <= i < |c| && !Holds(t, c[i])
  {
    if c != [] {
      KeepAll(t, c[1..]);
      if i :| 0 <= i < |c| && !Holds(t, c[i]) {
        assert i != 0 ==> !Holds(t, c[1..][i - 1]);
      }
    }
  }

  lemma {:induction false} KeepReverse(t: Test, c: seq<Entry>)
    ensures Keep(t, Reverse(c)) == Reverse(Keep(t, c))
  {
    if c != [] {
      KeepReverse(t, c[1..]);
      KeepSplits(t, Reverse(c[1..]), [c[0]]);
      ReverseConcat(if Holds(t, c[0]) then [c[0]] else [], Keep(t, c[1..]));
    }
  }

  lemma {:induction false} KeepMembers(t: Test, c: seq<Entry>)
    ensures forall e :: e in Keep(t, c) <==> e in c && Holds(t, e)
  {
    if c != [] {
      KeepMembers(t, c[1..]);
    }
  }

  lemma {:induction false} ReverseMembers(c: seq<Entry>)
    ensures multiset(Reverse(c)) == multiset(c)
    ensures forall e :: e in Reverse(c) <==> e in c
  {
    if c != [] {
      ReverseMembers(c[1..]);
      assert c == [c[0]] + c[1..];
    }
  }

  lemma {:induction false} KeepAgain(t: Test, u: Test, c: seq<Entry>)
    ensures (forall e :: Holds(t, e) ==> Holds(u, e)) ==> Keep(t, Keep(u, c)) == Keep(t, c)
    ensures (forall e :: !(Holds(t, e) && Holds(u, e))) ==> Keep(t, Keep(u, c)) == []
  {
    if c != [] {
      KeepAgain(t, u, c[1..]);
      KeepSplits(t, if Holds(u, c[0]) then [c[0]] else [], Keep(u, c[1..]));
    }
  }

  // ---------------------------------------------------------------- single steps

  /** A rotation keeps exactly the stored records. */
  lemma {:induction false} TouchKeepsRecords(c: seq<Entry>, hit: Test)
    ensures multiset(Touch(c, hit)) == multiset(c) && |Touch(c, hit)| == |c|
  {
    KeepPartitions(hit, c);
    ReverseMembers(Keep(hit, c));
  }

  /** An expiry scan changes no answer given at or after its time. */
  lemma {:induction false} ScanIsInvisible(c: seq<Entry>, scan: int, name: Text, rtype: byte, now: int)
    requires scan <= now
    ensures Keep(Hit(name, rtype, now), Keep(Live(scan), c)) == Keep(Hit(name, rtype, now), c)
  {
    KeepAgain(Hit(name, rtype, now), Live(scan), c);
  }

  /** A scan removes exactly the records whose time is up, and keeps the others in their order. */
  lemma {:induction false} ScanIsExact(c: seq<Entry>, now: int)
    ensures forall e :: e in Keep(Live(now), c) <==> e in c && now <= e.timestamp
    ensures Sub(Keep(Live(now), c), c)
  {
    KeepMembers(Live(now), c);
    KeepIsSub(Live(now), c);
  }

  lemma {:induction false} KeepIsSub(t: Test, c: seq<Entry>)
    ensures Sub(Keep(t, c), c)
  {
    if c != [] {
      KeepIsSub(t, c[1..]);
      assert Holds(t, c[0]) ==> Keep(t, c)[1..] == Keep(t, c[1..]);
      assert !Holds(t, c[0]) ==> Keep(t, c) == Keep(t, c[1..]);
    }
  }

  /** After a query, the same question is answered in reverse order and any other as before. */
  lemma {:induction false} AnswersAfterTouch(c: seq<Entry>, name: Text, rtype: byte, now: int, name': Text,
                                             rtype': byte)
    ensures var before := Keep(Hit(name', rtype', now), c);
            Keep(Hit(name', rtype', now), Touch(c, Hit(name, rtype, now)))
            == if name' == name && rtype' == rtype then Reverse(before) else before
  {
    var t, u := Hit(name, rtype, now), Hit(name', rtype', now);
    KeepSplits(u, Reverse(Keep(t, c)), Keep(Not(t), c));
    KeepReverse(u, Keep(t, c));
    KeepAgain(u, t, c);
    KeepAgain(u, Not(t), c);
    if u == t {
      assert forall e :: !(Holds(u, e) && Holds(Not(t), e));
      assert Reverse(Keep(t, c)) + [] == Reverse(Keep(t, c));
    } else {
      assert forall e :: !(Holds(u, e) && Holds(t, e));
      assert forall e :: Holds(u, e) ==> Holds(Not(t), e);
      assert [] + Keep(u, c) == Keep(u, c);
    }
  }

  // ---------------------------------------------------------------- whole runs

  datatype Op =
    | InsertOp(e: Entry)
    | QueryOp(name: Text, rtype: byte, now: int)
    | ScanOp(now: int)
    | FlushOp

  function Step(cap: nat, c: seq<Entry>, op: Op): (r: seq<Entry>)
    requires 0 < cap && |c| <= cap
    ensures |r| <= cap
  {
    match op
    case InsertOp(e) => Insert(cap, c, e)
    case QueryOp(name, rtype, now) =>
      TouchKeepsRecords(c, Hit(name, rtype, now));
      Touch(c, Hit(name, rtype, now))
    case ScanOp(now) =>
      KeepPartitions(Live(now), c);
      Keep(Live(now), c)
    case FlushOp => []
  }

  /** The list after a run that starts with an empty cache. */
  function Run(cap: nat, ops: seq<Op>): (r: seq<Entry>)
    requires 0 < cap
    ensures |r| <= cap
  {
    if ops == [] then [] else Step(cap, Run(cap, ops[..|ops| - 1]), ops[|ops| - 1])
  }

  // ---------------------------------------------------------------- inclusion

  /** `a` can be obtained from `b` by deleting elements. */
  ghost predicate Sub<T>(a: seq<T>, b: seq<T>) {
    a == [] || (b != [] && ((a[0] == b[0] && Sub(a[1..], b[1..])) || Sub(a, b[1..])))
  }

  lemma {:induction false} SubLength<T>(a: seq<T>, b: seq<T>)
    requires Sub(a, b)
    ensures |a| <= |b|
    ensures multiset(a) <= multiset(b)
  {
    if a != [] {
      assert b == [b[0]] + b[1..] && a == [a[0]] + a[1..];
      if a[0] == b[0] && Sub(a[1..], b[1..]) {
        SubLength(a[1..], b[1..]);
      } else {
        SubLength(a, b[1..]);
      }
    }
  }

  lemma {:induction false} SubConcat<T>(a: seq<T>, b: seq<T>, c: seq<T>, d: seq<T>)
    requires Sub(a, b) && Sub(c, d)
    ensures Sub(a + c, b + d)
    decreases |b|
  {
    if b == [] {
      assert a + c == c && b + d == d;
    } else {
      assert (b + d)[1..] == b[1..] + d;
      if a == [] {
        SubConcat(a, b[1..], c, d);
        assert a + c == c;
      } else {
        assert (a + c)[1..] == a[1..] + c;
        if a[0] == b[0] && Sub(a[1..], b[1..]) {
          SubConcat(a[1..], b[1..], c, d);
        } else {
          SubConcat(a, b[1..], c, d);
        }
      }
    }
  }

  lemma {:induction false} SubReverse<T>(a: seq<T>, b: seq<T>)
    requires Sub(a, b)
    ensures Sub(Reverse(a), Reverse(b))
  {
    if a == [] {
    } else if a[0] == b[0] && Sub(a[1..], b[1..]) {
      SubReverse(a[1..], b[1..]);
      SubConcat(Reverse(a[1..]), Reverse(b[1..]), [a[0]], [b[0]]);
    } else {
      SubReverse(a, b[1..]);
      SubConcat(Reverse(a), Reverse(b[1..]), [], [b[0]]);
      assert Reverse(a) + [] == Reverse(a);
    }
  }

  lemma {:induction false} SubKeep(t: Test, a: seq<Entry>, b: seq<Entry>)
    requires Sub(a, b)
    ensures Sub(Keep(t, a), Keep(t, b))
    ensures |Keep(t, b)| - |Keep(t, a)| <= |b| - |a|
  {
    if a == [] {
      KeepPartitions(t, b);
    } else if a[0] == b[0] && Sub(a[1..], b[1..]) {
      SubKeep(t, a[1..], b[1..]);
      var head := if Holds(t, a[0]) then [a[0]] else [];
      SubConcat(head, head, Keep(t, a[1..]), Keep(t, b[1..]));
    } else {
      SubKeep(t, a, b[1..]);
      SubConcat([], if Holds(t, b[0]) then [b[0]] else [], Keep(t, a), Keep(t, b[1..]));
      assert [] + Keep(t, a) == Keep(t, a);
    }
  }

  /** Dropping the last element of both lists, or of the smaller one only, keeps inclusion. */
  lemma {:induction false} SubDropLast<T>(a: seq<T>, b: seq<T>)
    requires Sub(a, b) && a != []
    ensures Sub(a[..|a| - 1], b) && Sub(a[..|a| - 1], b[..|b| - 1])
  {
    if |a| == 1 {
    } else if a[0] == b[0] && Sub(a[1..], b[1..]) {
      SubLength(a[1..], b[1..]);
      SubDropLast(a[1..], b[1..]);
      assert a[..|a| - 1][1..] == a[1..][..|a| - 2] && b[..|b| - 1][1..] == b[1..][..|b| - 2];
    } else {
      SubLength(a, b[1..]);
      SubDropLast(a, b[1..]);
      assert b[..|b| - 1][1..] == b[1..][..|b| - 2];
    }
  }

  lemma {:induction false} InclusionStep(k: nat, m: nat, a: seq<Entry>, b: seq<Entry>, op: Op)
    requires 0 < k <= m && |a| <= k && |b| <= m
    requires Sub(a, b) && |b| - |a| <= m - k
    ensures Sub(Step(k, a, op), Step(m, b, op))
    ensures |Step(m, b, op)| - |Step(k, a, op)| <= m - k
  {
    match op
    case InsertOp(e) =>
      if |a| == k {
        SubDropLast(a, b);
      }
      var a' := if |a| < k then a else a[..|a| - 1];
      var b' := if |b| < m then b else b[..|b| - 1];
      SubConcat([e], [e], a', b');
    case QueryOp(name, rtype, now) =>
      var t := Hit(name, rtype, now);
      SubKeep(t, a, b);
      SubKeep(Not(t), a, b);
      SubReverse(Keep(t, a), Keep(t, b));
      SubConcat(Reverse(Keep(t, a)), Reverse(Keep(t, b)), Keep(Not(t), a), Keep(Not(t), b));
      TouchKeepsRecords(a, t);
      TouchKeepsRecords(b, t);
    case ScanOp(now) =>
      SubKeep(Live(now), a, b);
    case FlushOp =>
  }

  /** LRU inclusion: a larger cache fed the same run holds, and answers, everything a smaller one does. */
  lemma {:induction false} Inclusion(k: nat, m: nat, ops: seq<Op>, t: Test)
    requires 0 < k <= m
    ensures Sub(Run(k, ops), Run(m, ops))
    ensures |Run(m, ops)| - |Run(k, ops)| <= m - k
    ensures Sub(Keep(t, Run(k, ops)), Keep(t, Run(m, ops)))
  {
    if ops != [] {
      var before := ops[..|ops| - 1];
      Inclusion(k, m, before, t);
      InclusionStep(k, m, Run(k, before), Run(m, before), ops[|ops| - 1]);
    }
    SubKeep(t, Run(k, ops), Run(m, ops));
  }

  // ---------------------------------------------------------------- provenance

  /** Every stored record was inserted earlier in the run. */
  lemma {:induction false} Provenance(cap: nat, ops: seq<Op>, e: Entry)
    requires 0 < cap && e in Run(cap, ops)
    ensures InsertOp(e) in ops
  {
    var before, op := ops[..|ops| - 1], ops[|ops| - 1];
    var c := Run(cap, before);
    assert ops == before + [op];
    if op != InsertOp(e) {
      match op {
        case InsertOp(_) =>
        case QueryOp(name, rtype, now) =>
          var t := Hit(name, rtype, now);
          ReverseMembers(Keep(t, c));
          KeepMembers(t, c);
          KeepMembers(Not(t), c);
        case ScanOp(now) =>
          KeepMembers(Live(now), c);
        case FlushOp =>
      }
      assert e in c;
      Provenance(cap, before, e);
    }
  }
}
