/**
 The transaction-ID map: a counter modulo 65535 is split into a slot and a generation; each slot
 holds one outstanding request under a lease of five seconds. A whole call is one atomic step.
 */
module IdMap {
  import opened Bytes

  const MAX_MAP_SIZE := 128
  const CONVERT_TTL := 5
  const BUSY: u16 := 0xFFFF

  datatype Address = Address(ip: u32, port: u16)

  datatype Node = Node(last: u16, origin: u16, from: Address, timeOut: int)

  type Slots = s: seq<Option<Node>> | |s| == MAX_MAP_SIZE witness seq(MAX_MAP_SIZE, _ => None)

  datatype State = State(alloc: u16, slots: Slots)

  function Initial(): State {
    State(0, seq(MAX_MAP_SIZE, _ => None))
  }

  function SlotOf(serial: u16): (c: nat)
    ensures c < MAX_MAP_SIZE
  {
    serial % MAX_MAP_SIZE
  }

  function NextSerial(s: State): u16 {
    (s.alloc + 1) % 0xFFFF
  }

  predicate Leased(s: State, c: nat, now: int)
    requires c < MAX_MAP_SIZE
  {
    s.slots[c].Some? && s.slots[c].value.timeOut > now
  }

  /** The counter advances even when the slot is still leased. */
  function Add(s: State, origin: u16, from: Address, now: int): (State, u16) {
    var serial := NextSerial(s);
    var c := SlotOf(serial);
    if Leased(s, c, now) then (s.(alloc := serial), BUSY)
    else (State(serial, s.slots[c := Some(Node(serial / MAX_MAP_SIZE, origin, from, now + CONVERT_TTL))]), serial)
  }

  function Take(s: State, serial: u16): (State, Option<(u16, Address)>) {
    var c := SlotOf(serial);
    if s.slots[c].None? || s.slots[c].value.last != serial / MAX_MAP_SIZE then (s, None)
    else (s.(slots := s.slots[c := None]), Some((s.slots[c].value.origin, s.slots[c].value.from)))
  }

  /** The global table and counter. */
  class IdMap {
    const table: array<Option<Node>>
    var alloc: u16

    ghost predicate Valid()
      reads this
    {
      table.Length == MAX_MAP_SIZE
    }

    ghost function Abs(): State
      requires Valid()
      reads this, table
    {
      State(alloc, table[..])
    }

    /** While its fields stay as they are, so does the map. */
    twostate lemma Kept()
      requires old(Valid()) && unchanged(this) && unchanged(table)
      ensures Valid() && Abs() == old(Abs())
    {
    }

    constructor ()
      ensures Valid() && fresh(table) && Abs() == Initial()
    {
      table := new Option<Node>[MAX_MAP_SIZE](_ => None);
      alloc := 0;
    }

    method AddToMap(origin: u16, addr: Option<Address>, now: int) returns (serial: u16)
      requires Valid()
      modifies this, table
      ensures Valid()
      ensures addr.None? ==> serial == BUSY && Abs() == old(Abs())
      ensures addr.Some? ==> (Abs(), serial) == Add(old(Abs()), origin, addr.value, now)
    {
      if addr.None? {
        return BUSY;
      }
      alloc := (alloc + 1) % 0xFFFF;
      serial := alloc;
      var converted, current := serial % MAX_MAP_SIZE, serial / MAX_MAP_SIZE;
      if table[converted].Some? && table[converted].value.timeOut > now {
        return BUSY;
      }
      table[converted] := Some(Node(current, origin, addr.value, now + CONVERT_TTL));
    }

    method QueryMap(serial: u16) returns (r: Option<(u16, Address)>)
      requires Valid()
      modifies table
      ensures Valid() && (Abs(), r) == Take(old(Abs()), serial)
    {
      var converted, current := serial % MAX_MAP_SIZE, serial / MAX_MAP_SIZE;
      if table[converted].None? || table[converted].value.last != current {
        return None;
      }
      r := Some((table[converted].value.origin, table[converted].value.from));
      table[converted] := None;
    }
  }

  // ---------------------------------------------------------------- runs

  /** Idle stands for an event of the relay that does not use the map. */
  datatype Event =
    | Request(origin: u16, from: Address, now: int)
    | Reply(serial: u16)
    | Idle

  datatype Outcome =
    | Granted(serial: u16)
    | Refused
    | Forwarded(origin: u16, to: Address)
    | Unknown

  function Step(s: State, e: Event): (State, Outcome) {
    match e
    case Request(origin, from, now) =>
      var (t, serial) := Add(s, origin, from, now);
      (t, if serial == BUSY then Refused else Granted(serial))
    case Reply(serial) =>
      var (t, r) := Take(s, serial);
      (t, if r.None? then Unknown else Forwarded(r.value.0, r.value.1))
    case Idle => (s, Unknown)
  }

  /** The state before event `k` of a run from the empty map. */
  function At(evs: seq<Event>, k: nat): State
    requires k <= |evs|
  {
    if k == 0 then Initial() else Step(At(evs, k - 1), evs[k - 1]).0
  }

  function OutcomeOf(evs: seq<Event>, k: nat): Outcome
    requires k < |evs|
  {
    Step(At(evs, k), evs[k]).1
  }

  lemma {:induction false} AtPrefix(evs: seq<Event>, e: Event, k: nat)
    requires k <= |evs|
    ensures At(evs + [e], k) == At(evs, k)
    ensures k < |evs| ==> OutcomeOf(evs + [e], k) == OutcomeOf(evs, k)
    decreases k
  {
    if k != 0 {
      AtPrefix(evs, e, k - 1);
    }
  }

  function Outcomes(evs: seq<Event>): (outs: seq<Outcome>)
    ensures |outs| == |evs|
  {
    if evs == [] then []
    else
      var init, e := evs[..|evs| - 1], evs[|evs| - 1];
      Outcomes(init) + [Step(At(init, |init|), e).1]
  }

  lemma {:induction false} OutcomesAt(evs: seq<Event>, k: nat)
    requires k < |evs|
    ensures Outcomes(evs)[k] == OutcomeOf(evs, k)
  {
    var init, e := evs[..|evs| - 1], evs[|evs| - 1];
    assert evs == init + [e];
    AtPrefix(init, e, k);
    if k < |init| {
      OutcomesAt(init, k);
    }
  }

  /** A run with one more event. */
  lemma {:induction false} RunAppend(evs: seq<Event>, e: Event)
    ensures var (s, out) := Step(At(evs, |evs|), e);
            At(evs + [e], |evs| + 1) == s && Outcomes(evs + [e]) == Outcomes(evs) + [out]
  {
    assert (evs + [e])[..|evs|] == evs;
    AtPrefix(evs, e, |evs|);
  }

  /** Event `i` answers `serial`. */
  ghost predicate Answers(evs: seq<Event>, i: nat, serial: u16)
    requires i < |evs|
  {
    evs[i] == Reply(serial) && OutcomeOf(evs, i).Forwarded?
  }

  /** Event `i` is granted a serial in the slot of `serial`. */
  ghost predicate Reuses(evs: seq<Event>, i: nat, serial: u16)
    requires i < |evs|
  {
    OutcomeOf(evs, i).Granted? && SlotOf(OutcomeOf(evs, i).serial) == SlotOf(serial)
  }

  /** Before event `k`, request `j` is outstanding under `serial`: granted it, not answered, its slot not reused. */
  ghost predicate Outstanding(evs: seq<Event>, j: nat, k: nat, serial: u16)
    requires k <= |evs|
  {
    && j < k && evs[j].Request? && OutcomeOf(evs, j) == Granted(serial)
    && forall i :: j < i < k ==> !Answers(evs, i, serial) && !Reuses(evs, i, serial)
  }

  ghost function Lease(e: Event, serial: u16): Node
    requires e.Request?
  {
    Node(serial / MAX_MAP_SIZE, e.origin, e.from, e.now + CONVERT_TTL)
  }

  /** An outstanding request is what its slot holds. */
  lemma {:induction false} OutstandingIsHeld(evs: seq<Event>, j: nat, k: nat, serial: u16)
    requires k <= |evs| && Outstanding(evs, j, k, serial)
    ensures At(evs, k).slots[SlotOf(serial)] == Some(Lease(evs[j], serial))
    decreases k
  {
    if j + 1 < k {
      OutstandingIsHeld(evs, j, k - 1, serial);
      assert !Answers(evs, k - 1, serial) && !Reuses(evs, k - 1, serial);
    }
  }

  /** What a slot holds is an outstanding request. */
  lemma {:induction false} HeldIsOutstanding(evs: seq<Event>, k: nat, c: nat) returns (j: nat, serial: u16)
    requires k <= |evs| && c < MAX_MAP_SIZE && At(evs, k).slots[c].Some?
    ensures Outstanding(evs, j, k, serial) && SlotOf(serial) == c
    ensures At(evs, k).slots[c] == Some(Lease(evs[j], serial))
    decreases k
  {
    var before, e := At(evs, k - 1), evs[k - 1];
    if OutcomeOf(evs, k - 1).Granted? && SlotOf(OutcomeOf(evs, k - 1).serial) == c {
      j, serial := k - 1, OutcomeOf(evs, k - 1).serial;
    } else {
      j, serial := HeldIsOutstanding(evs, k - 1, c);
    }
  }

  /**
   A reply is forwarded exactly when a request is outstanding under its serial, and then with that
   request's ID to that request's sender.
   */
  lemma {:induction false} RelaysCorrectly(evs: seq<Event>, k: nat, origin: u16, to: Address)
    requires k < |evs| && evs[k].Reply?
    ensures OutcomeOf(evs, k) == Forwarded(origin, to)
       <==> exists j: nat :: Outstanding(evs, j, k, evs[k].serial) && evs[j].origin == origin && evs[j].from == to
  {
    var serial := evs[k].serial;
    if OutcomeOf(evs, k) == Forwarded(origin, to) {
      var j, serial' := HeldIsOutstanding(evs, k, SlotOf(serial));
      assert serial' == serial;
    }
    if j: nat :| Outstanding(evs, j, k, serial) && evs[j].origin == origin && evs[j].from == to {
      OutstandingIsHeld(evs, j, k, serial);
    }
  }

  /** While its lease runs and no reply to it comes, a granted request stays outstanding, whatever else is allocated. */
  lemma {:induction false} LeaseProtects(evs: seq<Event>, j: nat, k: nat, serial: u16)
    requires j < k <= |evs| && evs[j].Request? && OutcomeOf(evs, j) == Granted(serial)
    requires forall i :: j < i < k && evs[i].Request? ==> evs[i].now < evs[j].now + 5
    requires forall i :: j < i < k ==> evs[i] != Reply(serial)
    ensures Outstanding(evs, j, k, serial)
    ensures k < |evs| && evs[k] == Reply(serial) ==> OutcomeOf(evs, k) == Forwarded(evs[j].origin, evs[j].from)
    decreases k
  {
    if j + 1 < k {
      LeaseProtects(evs, j, k - 1, serial);
      OutstandingIsHeld(evs, j, k - 1, serial);
    }
    OutstandingIsHeld(evs, j, k, serial);
  }

  /** Two requests whose leases overlap while the first is unanswered are in different slots. */
  lemma {:induction false} SerialsAreDistinct(evs: seq<Event>, j: nat, k: nat, s: u16, t: u16)
    requires j < k < |evs| && evs[j].Request? && OutcomeOf(evs, j) == Granted(s) && OutcomeOf(evs, k) == Granted(t)
    requires forall i :: j < i <= k && evs[i].Request? ==> evs[i].now < evs[j].now + CONVERT_TTL
    requires forall i :: j < i < k ==> evs[i] != Reply(s)
    ensures s != t && SlotOf(s) != SlotOf(t)
  {
    LeaseProtects(evs, j, k, s);
    OutstandingIsHeld(evs, j, k, s);
  }

  // ---------------------------------------------------------------- the counter

  function Requests(evs: seq<Event>, from: nat, to: nat): nat
    requires from <= to <= |evs|
  {
    if from == to then 0 else Requests(evs, from, to - 1) + if evs[to - 1].Request? then 1 else 0
  }

  lemma {:induction false} CounterStep(s: State, e: Event, n: nat)
    requires s.alloc == n % 0xFFFF
    ensures Step(s, e).0.alloc == (n + if e.Request? then 1 else 0) % 0xFFFF
  {
  }

  lemma {:induction false} CounterCounts(evs: seq<Event>, k: nat)
    requires k <= |evs|
    ensures At(evs, k).alloc == Requests(evs, 0, k) % 0xFFFF
    decreases k
  {
    if k != 0 {
      CounterCounts(evs, k - 1);
      CounterStep(At(evs, k - 1), evs[k - 1], Requests(evs, 0, k - 1));
    }
  }

  lemma {:induction false} RequestsSplit(evs: seq<Event>, a: nat, b: nat, c: nat)
    requires a <= b <= c <= |evs|
    ensures Requests(evs, a, c) == Requests(evs, a, b) + Requests(evs, b, c)
    decreases c
  {
    if b < c {
      RequestsSplit(evs, a, b, c - 1);
    }
  }

  /** The same serial is granted again only after a positive multiple of 65535 calls; 65535 itself never is. */
  lemma {:induction false} SerialsWrap(evs: seq<Event>, j: nat, k: nat, serial: u16)
    requires j < k < |evs| && OutcomeOf(evs, j) == Granted(serial) && OutcomeOf(evs, k) == Granted(serial)
    ensures var calls := Requests(evs, j + 1, k + 1);
            calls >= 0xFFFF && calls % 0xFFFF == 0
    ensures serial != BUSY
  {
    GrantedSerial(evs, j, serial);
    GrantedSerial(evs, k, serial);
    CallsBetween(evs, j, k);
    SameRemainder(Requests(evs, 0, j), Requests(evs, j + 1, k + 1));
  }

  /** A granted serial is the number of calls so far, this one included, modulo 65535. */
  lemma {:induction false} GrantedSerial(evs: seq<Event>, k: nat, serial: u16)
    requires k < |evs| && OutcomeOf(evs, k) == Granted(serial)
    ensures evs[k].Request? && serial == (Requests(evs, 0, k) + 1) % 0xFFFF
  {
    CounterCounts(evs, k);
    GrantedNext(At(evs, k), evs[k], serial, Requests(evs, 0, k));
  }

  lemma {:induction false} CallsBetween(evs: seq<Event>, j: nat, k: nat)
    requires j < k < |evs| && evs[j].Request? && evs[k].Request?
    ensures Requests(evs, 0, k) == Requests(evs, 0, j) + Requests(evs, j + 1, k + 1)
    ensures Requests(evs, j + 1, k + 1) >= 1
  {
    RequestsSplit(evs, 0, j + 1, k + 1);
  }

  lemma {:induction false} GrantedNext(s: State, e: Event, serial: u16, n: nat)
    requires Step(s, e).1 == Granted(serial) && s.alloc == n % 0xFFFF
    ensures e.Request? && serial == (n + 1) % 0xFFFF
  {
  }

  lemma {:induction false} SameRemainder(a: nat, b: nat)
    requires (a + 1) % 0xFFFF == (a + b + 1) % 0xFFFF
    ensures b % 0xFFFF == 0
  {
  }

  /**
   The scenario the source describes: an unanswered request's lease runs out, the counter goes
   once around, and its late reply is forwarded to the client that now has the serial.
   */
  lemma {:induction false} LateReplyReachesAnother(a: Event, b: Event, evs: seq<Event>)
    requires a.Request? && b.Request? && b.now == a.now + CONVERT_TTL
    requires |evs| == 0xFFFF + 2 && evs[0xFFFF] == b && evs[0xFFFF + 1] == Reply(1)
    requires forall i :: 0 <= i < 0xFFFF ==> evs[i] == a
    ensures OutcomeOf(evs, 0) == Granted(1)
    ensures OutcomeOf(evs, 0xFFFF + 1) == Forwarded(b.origin, b.from)
  {
    CounterCounts(evs, 0xFFFF);
    AllRequests(evs, 0xFFFF);
    LeaseProtects(evs, 0, 0xFFFF, 1);
    OutstandingIsHeld(evs, 0, 0xFFFF, 1);
    assert OutcomeOf(evs, 0xFFFF) == Granted(1);
    LeaseProtects(evs, 0xFFFF, 0xFFFF + 1, 1);
  }

  lemma {:induction false} AllRequests(evs: seq<Event>, k: nat)
    requires k <= |evs| && forall i :: 0 <= i < k ==> evs[i].Request?
    ensures Requests(evs, 0, k) == k
    decreases k
  {
    if k != 0 {
      AllRequests(evs, k - 1);
    }
  }

  // ---------------------------------------------------------------- refusals

  /** The request is number `c_j`, and `c_k` the later one, of all calls; both get the same of 128 slots. */
  predicate SameSlot(c_j: nat, c_k: nat) {
    c_j % 65535 % 128 == c_k % 65535 % 128
  }

  /** Request `j` stands in the way of request `k`: it is outstanding, not five seconds old, and in the same slot. */
  ghost predicate Blocks(evs: seq<Event>, j: nat, k: nat, serial: u16)
    requires k < |evs| && evs[k].Request?
  {
    && Outstanding(evs, j, k, serial) && evs[k].now < evs[j].now + 5
    && SameSlot(Requests(evs, 0, j + 1), Requests(evs, 0, k + 1))
  }

  /** A request is refused exactly when an earlier one stands in its way. */
  lemma {:induction false} RefusedOnlyIfBlocked(evs: seq<Event>, k: nat)
    requires k < |evs| && evs[k].Request?
    ensures OutcomeOf(evs, k) == Refused <==> exists j: nat, serial :: Blocks(evs, j, k, serial)
    ensures OutcomeOf(evs, k) == Refused || OutcomeOf(evs, k) == Granted(Requests(evs, 0, k + 1) % 65535)
  {
    var s := At(evs, k);
    CounterCounts(evs, k);
    NextCount(s.alloc, Requests(evs, 0, k));
    var c := SlotOf(NextSerial(s));
    if Leased(s, c, evs[k].now) {
      var j, serial := HeldIsOutstanding(evs, k, c);
      GrantedSlot(evs, j, serial);
      assert Blocks(evs, j, k, serial);
    }
    forall j: nat, serial | Blocks(evs, j, k, serial)
      ensures Leased(s, c, evs[k].now)
    {
      OutstandingIsHeld(evs, j, k, serial);
      GrantedSlot(evs, j, serial);
    }
  }

  lemma {:induction false} NextCount(alloc: nat, n: nat)
    requires alloc == n % 65535
    ensures (alloc + 1) % 65535 == (n + 1) % 65535
  {
  }

  lemma {:induction false} GrantedSlot(evs: seq<Event>, j: nat, serial: u16)
    requires j < |evs| && OutcomeOf(evs, j) == Granted(serial)
    ensures serial == Requests(evs, 0, j + 1) % 65535 && SlotOf(serial) == Requests(evs, 0, j + 1) % 65535 % 128
  {
    GrantedSerial(evs, j, serial);
  }

  /** Requests in the same slot are at least 127 calls apart, and until the counter wraps a multiple of 128. */
  lemma {:induction false} SlotsApart(c_j: nat, c_k: nat)
    requires c_j < c_k && SameSlot(c_j, c_k)
    ensures c_k - c_j >= 127
    ensures c_k < 65535 ==> (c_k - c_j) % 128 == 0
  {
    var q_j, q_k := c_j / 65535, c_k / 65535;
    var r_j, r_k := c_j % 65535, c_k % 65535;
    assert c_j == q_j * 65535 + r_j && c_k == q_k * 65535 + r_k;
    if q_j == q_k {
      SameRemainderApart(r_j, r_k);
    } else if q_k == q_j + 1 && c_k - c_j < 127 {
      WrapApart(r_j, r_k);
    }
  }

  lemma {:induction false} SameRemainderApart(a: nat, b: nat)
    requires a < b && a % 128 == b % 128
    ensures b - a >= 128 && (b - a) % 128 == 0
  {
  }

  lemma {:induction false} WrapApart(a: nat, b: nat)
    requires a < 65535 && a % 128 == b % 128 && b < a
    ensures b + 65535 - a >= 127
  {
  }

  /** Every request not five seconds old is at most `n` calls before request `k`. */
  ghost predicate NoneBeyond(evs: seq<Event>, k: nat, n: nat)
    requires k < |evs| && evs[k].Request?
  {
    forall j :: 0 <= j < k && evs[j].Request? && evs[k].now < evs[j].now + 5 ==> Requests(evs, j + 1, k + 1) <= n
  }

  /** Up to 126 requests in five seconds are never refused, and the first 128 of all never either. */
  lemma {:induction false} FewAreGranted(evs: seq<Event>, k: nat)
    requires k < |evs| && evs[k].Request?
    requires Requests(evs, 0, k + 1) <= 128 || NoneBeyond(evs, k, 126)
    ensures OutcomeOf(evs, k) == Granted(Requests(evs, 0, k + 1) % 65535)
  {
    RefusedOnlyIfBlocked(evs, k);
    if j: nat, serial :| Blocks(evs, j, k, serial) {
      RequestsSplit(evs, 0, j + 1, k + 1);
      RequestsGrow(evs, j, k);
      SlotsApart(Requests(evs, 0, j + 1), Requests(evs, 0, k + 1));
      assert false;
    }
  }

  lemma {:induction false} RequestsGrow(evs: seq<Event>, j: nat, k: nat)
    requires j < k < |evs| && evs[j].Request? && evs[k].Request?
    ensures 1 <= Requests(evs, 0, j + 1) < Requests(evs, 0, k + 1)
  {
    CallsBetween(evs, j, k);
  }

  /** Until the counter wraps, the request in the way is a positive multiple of 128 calls earlier. */
  lemma {:induction false} RefusedAfter128(evs: seq<Event>, k: nat)
    requires k < |evs| && evs[k].Request? && Requests(evs, 0, k + 1) < 65535
    ensures OutcomeOf(evs, k) == Refused
       <==> exists j: nat, serial ::
              && Outstanding(evs, j, k, serial) && evs[k].now < evs[j].now + 5
              && Requests(evs, j + 1, k + 1) > 0 && Requests(evs, j + 1, k + 1) % 128 == 0
  {
    RefusedOnlyIfBlocked(evs, k);
    forall j: nat, serial | Outstanding(evs, j, k, serial)
      ensures Blocks(evs, j, k, serial)
         <==> && evs[k].now < evs[j].now + 5
              && Requests(evs, j + 1, k + 1) > 0 && Requests(evs, j + 1, k + 1) % 128 == 0
    {
      RequestsSplit(evs, 0, j + 1, k + 1);
      RequestsGrow(evs, j, k);
      SlotsUnwrapped(Requests(evs, 0, j + 1), Requests(evs, 0, k + 1));
    }
  }

  lemma {:induction false} SlotsUnwrapped(c_j: nat, c_k: nat)
    requires c_j < c_k < 65535
    ensures SameSlot(c_j, c_k) <==> (c_k - c_j) % 128 == 0
  {
  }

  // ---------------------------------------------------------------- a refusal across the wrap

  /** The `i`-th pair of events from `start` on: the request `a`, and a reply under serial `first + i`. */
  ghost predicate PairIs(evs: seq<Event>, start: nat, first: nat, a: Event, i: nat) {
    && start + 2 * i + 1 < |evs| && evs[start + 2 * i] == a && first + i < 65535
    && evs[start + 2 * i + 1] == Reply(first + i)
  }

  /** `n` such pairs stand one behind the other, and their slots are free in `s`. */
  ghost predicate Pairs(evs: seq<Event>, start: nat, s: State, first: nat, a: Event, n: nat) {
    && (forall i :: 0 <= i < n ==> PairIs(evs, start, first, a, i))
    && forall i :: 0 <= i < n ==> FreeAt(s, first, i)
  }

  /** The slot of serial `first + i` is free. */
  ghost predicate FreeAt(s: State, first: nat, i: nat) {
    first + i < 65535 && s.slots[SlotOf(first + i)].None?
  }

  /** A request in a free slot and its reply change nothing but the counter. */
  lemma {:induction false} PairPasses(s: State, a: Event)
    requires a.Request? && s.slots[SlotOf(NextSerial(s))].None?
    ensures Step(Step(s, a).0, Reply(NextSerial(s))).0 == s.(alloc := NextSerial(s))
  {
    var t := Step(s, a).0;
    assert t.slots[SlotOf(NextSerial(s)) := None] == s.slots;
  }

  lemma {:induction false} PairPassesAt(evs: seq<Event>, p: nat, s: State, a: Event)
    requires p + 2 <= |evs| && At(evs, p) == s && a.Request? && evs[p] == a && evs[p + 1] == Reply(NextSerial(s))
    requires s.slots[SlotOf(NextSerial(s))].None?
    ensures At(evs, p + 2) == s.(alloc := NextSerial(s))
  {
    PairPasses(s, a);
    assert At(evs, p + 1) == Step(s, a).0;
  }

  lemma {:induction false} PairsPass(evs: seq<Event>, start: nat, s: State, a: Event, first: nat, n: nat, end: nat)
    requires end == start + 2 * n <= |evs| && At(evs, start) == s && a.Request? && NextSerial(s) == first
    requires Pairs(evs, start, s, first, a, n)
    ensures n > 0 ==> first + n <= 65535 && At(evs, end) == s.(alloc := first + n - 1)
    decreases n
  {
    if n > 0 {
      assert PairIs(evs, start, first, a, n - 1) && FreeAt(s, first, n - 1);
      var p: nat := end - 2;
      PairsPass(evs, start, s, a, first, n - 1, p);
      var t := NextOf(s, first, n);
      PairPassesAt(evs, p, t, a);
    }
  }

  lemma {:induction false} NextOf(s: State, first: nat, n: nat) returns (t: State)
    requires n > 0 && NextSerial(s) == first && first + n <= 65535
    ensures t == (if n == 1 then s else s.(alloc := first + n - 2)) && NextSerial(t) == first + n - 1
  {
    t := if n == 1 then s else s.(alloc := first + n - 2);
  }

  /** Told by the place `p` of the request that is not answered. */
  lemma {:induction false} WrapRefusesAt(evs: seq<Event>, a: Event, p: nat, q: nat)
    requires a.Request? && p == 131066 && q == p + 1 && |evs| == p + 254
    requires forall i :: 0 <= i < 65533 ==> PairIs(evs, 0, 1, a, i)
    requires evs[p] == a && forall i :: 0 <= i < 126 ==> PairIs(evs, q, 0, a, i)
    requires evs[p + 253] == a
    ensures OutcomeOf(evs, p) == Granted(65534) && OutcomeOf(evs, p + 253) == Refused
  {
    PairsPass(evs, 0, Initial(), a, 1, 65533, p);
    var s := Initial().(alloc := 65533);
    var t := Step(s, a).0;
    assert At(evs, p) == s && At(evs, q) == t && NextSerial(t) == 0;
    PairsPass(evs, q, t, a, 0, 126, p + 253);
    BlockedAt126(t.(alloc := 125), a);
  }

  /**
   Across the wrap 127 calls are enough: in a run whose requests are all answered at once but for
   number 65534, that one blocks number 65661, with only 126 requests between them.
   */
  lemma {:induction false} WrapRefuses(evs: seq<Event>, a: Event)
    requires a.Request? && |evs| == 131320
    requires forall i :: 0 <= i < 65533 ==> PairIs(evs, 0, 1, a, i)
    requires evs[131066] == a && forall i :: 0 <= i < 126 ==> PairIs(evs, 131067, 0, a, i)
    requires evs[131319] == a
    ensures OutcomeOf(evs, 131066) == Granted(65534) && OutcomeOf(evs, 131319) == Refused
  {
    WrapRefusesAt(evs, a, 131066, 131067);
  }

  lemma {:induction false} BlockedAt126(s: State, a: Event)
    requires a.Request? && s.alloc == 125 && s.slots[126].Some? && s.slots[126].value.timeOut > a.now
    ensures Step(s, a).1 == Refused
  {
  }
}
