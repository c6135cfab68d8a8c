/**
 The relay as a state machine: every received packet, expiry scan and flush is one step on the
 cache and the ID map. What it sends over a whole run is told from what it received.
 */
module Relay {
  import opened Bytes
  import opened LruList
  import opened PacketCodec
  import opened Answering
  import UrlCodec
  import H = HostLines
  import I = IdMap

  /** A packet as it was parsed from its buffer. A response with answers has a question. */
  type Parcel = p: Message | |p.buf| >= 12 && (p.ans != [] ==> p.quests != [])
    witness Message([0, 0, 0, 0, 0, 0, 0, 0, 0, 0, 0, 0], 0, 0, 0, 0, [], [])

  datatype Config = Config(cap: nat, hosts: HostData)

  datatype State = State(cache: seq<Entry>, ids: I.State)

  datatype Event =
    | Datagram(p: Parcel, from: I.Address, now: int)
    | Expire(now: int)
    | Empty

  /** What is sent: a query to the upstream server, a reply to a client, or an answer of the relay's own. */
  datatype Output =
    | Silent
    | Upstream(bytes: seq<byte>)
    | Client(to: I.Address, bytes: seq<byte>)
    | Respond(to: I.Address, query: Parcel, ans: seq<Answer>)

  predicate IsResponse(p: Message) {
    p.flags / 0x8000 == 1
  }

  /** The packet's first two bytes are overwritten by the ID as it lies in memory. */
  function WithId(buf: seq<byte>, id: u16): (r: seq<byte>)
    requires |buf| >= 2
    ensures |r| == |buf| && RawU16(r, 0) == id && r[2..] == buf[2..]
  {
    [id % 256, id / 256] + buf[2..]
  }

  ghost predicate Fits(cfg: Config, s: State) {
    0 < cfg.cap && |s.cache| <= cfg.cap
  }

  function OnResponse(cap: nat, s: State, p: Parcel, now: int): (State, Output)
    requires 0 < cap && |s.cache| <= cap
  {
    var cache := StoreAll(cap, s.cache, p.quests, p.ans, now);
    var (ids, r) := I.Take(s.ids, p.id);
    (State(cache, ids), if r.None? then Silent else Client(r.value.1, WithId(p.buf, r.value.0)))
  }

  /** A query for which the lookup has given `r`. */
  function OnFound(s: State, p: Parcel, from: I.Address, now: int, r: Composed): (State, Output) {
    if r.ret != 0 then (State(r.cache, s.ids), Respond(from, p, if r.ret > 0 then r.loaded else []))
    else
      var (ids, serial) := I.Add(s.ids, p.id, from, now);
      (State(r.cache, ids), if serial == I.BUSY then Silent else Upstream(WithId(p.buf, serial)))
  }

  function OnQuery(hosts: HostData, s: State, p: Parcel, from: I.Address, now: int): (State, Output) {
    OnFound(s, p, from, now, Answered(s.cache, hosts, p.quests, now))
  }

  function Step(cfg: Config, s: State, e: Event): (r: (State, Output))
    requires Fits(cfg, s)
    ensures Fits(cfg, r.0)
  {
    match e
    case Datagram(p, from, now) =>
      QueryKeepsRecords(s.cache, cfg.hosts, p.quests, now);
      if IsResponse(p) then OnResponse(cfg.cap, s, p, now) else OnQuery(cfg.hosts, s, p, from, now)
    case Expire(now) =>
      KeepAll(Live(now), s.cache);
      (s.(cache := Keep(Live(now), s.cache)), Silent)
    case Empty => (s.(cache := []), Silent)
  }

  // ---------------------------------------------------------------- runs

  /** One step of a run: the state before it, the event, what was sent, and the state after it. */
  datatype Moment = Moment(before: State, event: Event, out: Output, after: State)

  function Start(): State {
    State([], I.Initial())
  }

  ghost predicate IsMoment(cfg: Config, m: Moment) {
    Fits(cfg, m.before) && Step(cfg, m.before, m.event) == (m.after, m.out)
  }

  /** The same state but for the order of the cached records, which rotations that run late may change. */
  ghost predicate Reordered(s: State, t: State) {
    s.ids == t.ids && multiset(s.cache) == multiset(t.cache)
  }

  lemma {:induction false} ReorderedMembers(s: State, t: State)
    requires Reordered(s, t)
    ensures forall e :: e in s.cache <==> e in t.cache
  {
    forall e
      ensures e in s.cache <==> e in t.cache
    {
      assert e in s.cache <==> e in multiset(s.cache);
      assert e in t.cache <==> e in multiset(t.cache);
    }
  }

  /** The state that the first `k` steps leave. */
  ghost function StateAt(run: seq<Moment>, k: nat): State
    requires k <= |run|
  {
    if k == 0 then Start() else run[k - 1].after
  }

  /** A run of the relay from its start. Between two steps, any rotations may run. */
  ghost predicate IsRun(cfg: Config, run: seq<Moment>) {
    var n := |run|;
    n > 0 ==>
      && IsRun(cfg, run[..n - 1]) && IsMoment(cfg, run[n - 1])
      && Reordered(StateAt(run, n - 1), run[n - 1].before)
  }

  lemma {:induction false} MomentOf(cfg: Config, run: seq<Moment>, k: nat)
    requires IsRun(cfg, run) && k < |run|
    ensures IsMoment(cfg, run[k]) && Reordered(StateAt(run, k), run[k].before)
    ensures forall e :: e in StateAt(run, k).cache <==> e in run[k].before.cache
  {
    if k < |run| - 1 {
      MomentOf(cfg, run[..|run| - 1], k);
      assert StateAt(run[..|run| - 1], k) == StateAt(run, k);
    }
    ReorderedMembers(StateAt(run, k), run[k].before);
  }

  predicate TakesReply(m: Moment) {
    m.event.Datagram? && IsResponse(m.event.p)
  }

  predicate TakesQuery(m: Moment) {
    m.event.Datagram? && !IsResponse(m.event.p)
  }

  // ---------------------------------------------------------------- the ID map within a run

  /** The step is the ID map's event `ask` with the result `outcome`. */
  ghost predicate Agrees(m: Moment, ask: I.Event, outcome: I.Outcome) {
    && (ask.Reply? <==> TakesReply(m)) && (ask.Reply? ==> ask.serial == m.event.p.id)
    && (ask.Request? ==> TakesQuery(m) && ask == I.Request(m.event.p.id, m.event.from, m.event.now))
    && (m.out.Client? <==> outcome.Forwarded?) && (m.out.Upstream? <==> outcome.Granted?)
    && (m.out.Client? ==> TakesReply(m) && m.out == Client(outcome.to, WithId(m.event.p.buf, outcome.origin)))
    && (m.out.Upstream? ==> ask.Request? && m.out == Upstream(WithId(m.event.p.buf, outcome.serial)))
  }

  /** What an event asks of the ID map. */
  function Asks(cfg: Config, s: State, e: Event): I.Event {
    if !e.Datagram? then I.Idle
    else if IsResponse(e.p) then I.Reply(e.p.id)
    else if Answered(s.cache, cfg.hosts, e.p.quests, e.now).ret != 0 then I.Idle
    else I.Request(e.p.id, e.from, e.now)
  }

  lemma {:induction false} MomentAgrees(cfg: Config, m: Moment)
    requires IsMoment(cfg, m)
    ensures var (ids, outcome) := I.Step(m.before.ids, Asks(cfg, m.before, m.event));
            m.after.ids == ids && Agrees(m, Asks(cfg, m.before, m.event), outcome)
  {
  }

  /** Step by step, the run makes the events `asks` of the ID map, with the results `outs`. */
  ghost predicate Projects(run: seq<Moment>, asks: seq<I.Event>, outs: seq<I.Outcome>) {
    var n := |run|;
    && |asks| == |outs| == n
    && (n > 0 ==> Projects(run[..n - 1], asks[..n - 1], outs[..n - 1]) && Agrees(run[n - 1], asks[n - 1], outs[n - 1]))
  }

  lemma {:induction false} ProjectsAt(run: seq<Moment>, asks: seq<I.Event>, outs: seq<I.Outcome>, i: nat)
    requires Projects(run, asks, outs) && i < |run|
    ensures |asks| == |outs| == |run| && Agrees(run[i], asks[i], outs[i])
  {
    var n := |run| - 1;
    if i < n {
      ProjectsAt(run[..n], asks[..n], outs[..n], i);
    }
  }

  /** Seen through the ID map, a run of the relay is a run of the map. */
  lemma {:induction false} RunProjects(cfg: Config, run: seq<Moment>) returns (asks: seq<I.Event>)
    requires IsRun(cfg, run)
    ensures Projects(run, asks, I.Outcomes(asks))
    ensures (if run == [] then Start() else run[|run| - 1].after).ids == I.At(asks, |run|)
  {
    asks := [];
    if run != [] {
      var init, m := run[..|run| - 1], run[|run| - 1];
      var before := RunProjects(cfg, init);
      asks := RunProjectsNext(cfg, run, init, before, m);
    }
  }

  lemma {:induction false} RunProjectsNext(cfg: Config, run: seq<Moment>, init: seq<Moment>, before: seq<I.Event>,
                                           m: Moment)
      returns (asks: seq<I.Event>)
    requires Projects(init, before, I.Outcomes(before)) && m.before.ids == I.At(before, |init|) && IsMoment(cfg, m)
    requires run == init + [m]
    ensures Projects(run, asks, I.Outcomes(asks)) && m.after.ids == I.At(asks, |init| + 1)
  {
    var ask := Asks(cfg, m.before, m.event);
    asks := before + [ask];
    MomentAgrees(cfg, m);
    I.RunAppend(before, ask);
    ProjectsNext(init, before, I.Outcomes(before), m, ask, I.Step(m.before.ids, ask).1);
  }

  lemma {:induction false} ProjectsNext(init: seq<Moment>, asks: seq<I.Event>, outs: seq<I.Outcome>, m: Moment,
                                        ask: I.Event, out: I.Outcome)
    requires Projects(init, asks, outs) && Agrees(m, ask, out)
    ensures Projects(init + [m], asks + [ask], outs + [out])
  {
    assert (init + [m])[..|init|] == init && (asks + [ask])[..|asks|] == asks && (outs + [out])[..|outs|] == outs;
  }

  // ---------------------------------------------------------------- replies reach their clients

  /** The query of step `j` was sent upstream under `serial`. */
  ghost predicate SentUnder(m: Moment, serial: u16) {
    TakesQuery(m) && m.out == Upstream(WithId(m.event.p.buf, serial))
  }

  /** Step `m` answers the query that is out under `serial`, or sends another one in its slot. */
  ghost predicate Ends(m: Moment, serial: u16) {
    || (m.out.Client? && TakesReply(m) && m.event.p.id == serial)
    || exists other: u16 :: SentUnder(m, other) && I.SlotOf(other) == I.SlotOf(serial)
  }

  /** Before step `k`, the query of step `j` is out under `serial` and has not been answered. */
  ghost predicate Pending(run: seq<Moment>, j: nat, k: nat, serial: u16)
    requires k <= |run|
  {
    j < k && SentUnder(run[j], serial) && forall i :: j < i < k ==> !Ends(run[i], serial)
  }

  lemma {:induction false} EndsAgree(m: Moment, ask: I.Event, outcome: I.Outcome, serial: u16)
    requires Agrees(m, ask, outcome)
    ensures SentUnder(m, serial) <==> outcome == I.Granted(serial)
    ensures Ends(m, serial)
       <==> || (ask == I.Reply(serial) && outcome.Forwarded?)
            || (outcome.Granted? && I.SlotOf(outcome.serial) == I.SlotOf(serial))
  {
    if outcome.Granted? {
      assert SentUnder(m, outcome.serial);
    }
  }

  lemma {:induction false} PendingIsOutstanding(run: seq<Moment>, asks: seq<I.Event>, j: nat, k: nat, serial: u16)
    requires Projects(run, asks, I.Outcomes(asks)) && k <= |run|
    ensures Pending(run, j, k, serial) <==> I.Outstanding(asks, j, k, serial)
  {
    forall i | 0 <= i < k
      ensures SentUnder(run[i], serial) <==> I.OutcomeOf(asks, i) == I.Granted(serial)
      ensures I.OutcomeOf(asks, i) == I.Granted(serial) ==> asks[i].Request?
      ensures Ends(run[i], serial) <==> I.Answers(asks, i, serial) || I.Reuses(asks, i, serial)
    {
      ProjectsAt(run, asks, I.Outcomes(asks), i);
      I.OutcomesAt(asks, i);
      EndsAgree(run[i], asks[i], I.OutcomeOf(asks, i), serial);
    }
  }

  /** `to` and `bytes` are what reply `m` must be sent as when it answers the query of `m'`. */
  ghost predicate AnswersTo(m: Moment, m': Moment, to: I.Address, bytes: seq<byte>) {
    m.event.Datagram? && m'.event.Datagram? && to == m'.event.from && bytes == WithId(m.event.p.buf, m'.event.p.id)
  }

  /**
   Relay correctness: a received response is sent on exactly when a query is pending under its ID;
   it then goes to that query's sender, with that query's ID and otherwise unchanged.
   */
  lemma {:induction false} RepliesReachTheirClients(cfg: Config, run: seq<Moment>, k: nat, to: I.Address,
                                                    bytes: seq<byte>)
    requires IsRun(cfg, run) && k < |run| && TakesReply(run[k])
    ensures run[k].out == Client(to, bytes)
       <==> exists j: nat :: Pending(run, j, k, run[k].event.p.id) && AnswersTo(run[k], run[j], to, bytes)
  {
    var asks := RunProjects(cfg, run);
    if run[k].out == Client(to, bytes) {
      var j := ReplyHasQuery(run, asks, k);
    }
    if j: nat :| Pending(run, j, k, run[k].event.p.id) && AnswersTo(run[k], run[j], to, bytes) {
      PendingIsAnswered(run, asks, j, k);
    }
  }

  lemma {:induction false} ReplyHasQuery(run: seq<Moment>, asks: seq<I.Event>, k: nat) returns (j: nat)
    requires Projects(run, asks, I.Outcomes(asks)) && k < |run| && run[k].out.Client?
    ensures TakesReply(run[k]) && Pending(run, j, k, run[k].event.p.id)
    ensures AnswersTo(run[k], run[j], run[k].out.to, run[k].out.bytes)
  {
    ProjectsAt(run, asks, I.Outcomes(asks), k);
    I.OutcomesAt(asks, k);
    var out, serial := I.OutcomeOf(asks, k), run[k].event.p.id;
    I.RelaysCorrectly(asks, k, out.origin, out.to);
    j :| I.Outstanding(asks, j, k, serial) && asks[j].origin == out.origin && asks[j].from == out.to;
    PendingIsOutstanding(run, asks, j, k, serial);
    ProjectsAt(run, asks, I.Outcomes(asks), j);
  }

  lemma {:induction false} PendingIsAnswered(run: seq<Moment>, asks: seq<I.Event>, j: nat, k: nat)
    requires Projects(run, asks, I.Outcomes(asks)) && k < |run| && TakesReply(run[k])
    requires Pending(run, j, k, run[k].event.p.id)
    ensures run[k].out.Client? && AnswersTo(run[k], run[j], run[k].out.to, run[k].out.bytes)
  {
    var serial := run[k].event.p.id;
    PendingIsOutstanding(run, asks, j, k, serial);
    ProjectsAt(run, asks, I.Outcomes(asks), k);
    I.OutcomesAt(asks, k);
    ProjectsAt(run, asks, I.Outcomes(asks), j);
    I.RelaysCorrectly(asks, k, asks[j].origin, asks[j].from);
  }

  /**
   Until its lease ends and a reply under its ID comes, a query sent upstream stays pending; that
   reply reaches its sender.
   */
  lemma {:induction false} LeaseHolds(cfg: Config, run: seq<Moment>, j: nat, k: nat, serial: u16)
    requires IsRun(cfg, run) && j < k <= |run| && SentUnder(run[j], serial)
    requires forall i :: j < i < k && TakesQuery(run[i]) ==> run[i].event.now < run[j].event.now + 5
    requires forall i :: j < i < k && TakesReply(run[i]) ==> run[i].event.p.id != serial
    ensures Pending(run, j, k, serial)
    ensures k < |run| && TakesReply(run[k]) && run[k].event.p.id == serial ==>
              run[k].out.Client? && AnswersTo(run[k], run[j], run[k].out.to, run[k].out.bytes)
  {
    var asks := RunProjects(cfg, run);
    forall i | j <= i < k
      ensures asks[i].Request? ==> TakesQuery(run[i]) && asks[i].now == run[i].event.now
      ensures asks[i].Reply? ==> TakesReply(run[i]) && asks[i].serial == run[i].event.p.id
    {
      ProjectsAt(run, asks, I.Outcomes(asks), i);
    }
    ProjectsAt(run, asks, I.Outcomes(asks), j);
    I.OutcomesAt(asks, j);
    EndsAgree(run[j], asks[j], I.OutcomeOf(asks, j), serial);
    I.LeaseProtects(asks, j, k, serial);
    PendingIsOutstanding(run, asks, j, k, serial);
    if k < |run| && TakesReply(run[k]) && run[k].event.p.id == serial {
      PendingIsAnswered(run, asks, j, k);
    }
  }

  /** What a client gets starts with the two bytes its query started with, and goes on like the reply. */
  lemma {:induction false} ReplyKeepsIdBytes(net: Net, reply: Moment, query: Moment, to: I.Address, bytes: seq<byte>)
    requires AnswersTo(reply, query, to, bytes) && Parsed(net, query.event.p.buf) == Some(query.event.p)
    ensures |bytes| == |reply.event.p.buf| && bytes[2..] == reply.event.p.buf[2..]
    ensures bytes[0] == query.event.p.buf[0] && bytes[1] == query.event.p.buf[1]
  {
    HeaderLayout(net, query.event.p.buf, query.event.p);
  }

  /** A reply that starts with the two bytes sent upstream has the serial as its ID. */
  lemma {:induction false} EchoHasSerial(net: Net, buf: seq<byte>, serial: u16, p: Message)
    requires |buf| >= 2 && Parsed(net, p.buf) == Some(p) && 2 <= |p.buf|
    requires p.buf[0] == WithId(buf, serial)[0] && p.buf[1] == WithId(buf, serial)[1]
    ensures p.id == serial
  {
    HeaderLayout(net, p.buf, p);
  }

  // ---------------------------------------------------------------- provenance

  /** Step `m` stored answer `a` as the record `e`. */
  ghost predicate Stores(m: Moment, a: Answer, e: Entry) {
    && TakesReply(m) && a in m.event.p.ans && a.rtype == m.event.p.quests[0].qtype
    && e == RecordOf(m.event.p.quests[0], a, m.event.now)
  }

  lemma {:induction false} StepKeepsOrStores(cfg: Config, m: Moment, e: Entry)
    requires IsMoment(cfg, m) && e in m.after.cache
    ensures e in m.before.cache || exists a :: Stores(m, a, e)
  {
    var c := m.before.cache;
    match m.event
    case Datagram(p, from, now) =>
      if IsResponse(p) {
        if p.ans != [] {
          StoreMembers(cfg.cap, c, p.quests[0], p.ans, now, e);
          if a :| a in p.ans && a.rtype == p.quests[0].qtype && e == RecordOf(p.quests[0], a, now) {
            assert Stores(m, a, e);
          }
        }
      } else {
        QueryKeepsRecords(c, cfg.hosts, p.quests, now);
      }
    case Expire(now) => KeepMembers(Live(now), c);
    case Empty =>
  }

  /** Every cached record is an answer of an earlier response to a question of its type. */
  lemma {:induction false} CachedWasReceived(cfg: Config, run: seq<Moment>, k: nat, e: Entry)
      returns (j: nat, a: Answer)
    requires IsRun(cfg, run) && k <= |run| && e in StateAt(run, k).cache
    ensures j < k && Stores(run[j], a, e)
  {
    MomentOf(cfg, run, k - 1);
    var m := run[k - 1];
    if e in m.before.cache {
      j, a := CachedWasReceived(cfg, run, k - 1, e);
    } else {
      StepKeepsOrStores(cfg, m, e);
      j := k - 1;
      a :| Stores(m, a, e);
    }
  }

  /**
   Answer `s`, served at `now` to question `q`, is `a` as step `m` received it, with the time since
   then taken off its TTL.
   */
  ghost predicate Decayed(m: Moment, a: Answer, q: Quest, s: Answer, now: int) {
    && TakesReply(m) && a in m.event.p.ans
    && q.qname == m.event.p.quests[0].qname && a.rtype == m.event.p.quests[0].qtype
    && Narrow(q.qtype) == Narrow(a.rtype)
    && s.rdata == a.rdata && s.addition == a.addition
    && s.ttl == m.event.now + a.ttl - now && s.ttl <= a.ttl
  }

  /** Answer `s` comes from a host line of the question's name and type, the cache `c` having no live record for it. */
  ghost predicate Hosted(hosts: HostData, c: seq<Entry>, q: Quest, s: Answer, now: int) {
    && hosts.present && Keep(HitOf(q, now), c) == []
    && exists l :: l in hosts.lines && IsLine(l, hosts.loaded, q, s)
  }

  ghost predicate IsLine(l: H.Line, loaded: int, q: Quest, s: Answer) {
    && l.domain == q.qname && H.EntryOf(l, loaded).rtype == Narrow(q.qtype)
    && s.rdata == l.ip && s.ttl == H.HOST_TTL && s.addition == 0
  }

  lemma {:induction false} ServesDecayed(m: Moment, a: Answer, e: Entry, q: Quest, i: nat, now: int)
    requires Stores(m, a, e) && Holds(HitOf(q, now), e) && m.event.now <= now
    ensures Decayed(m, a, q, AnswerOf(i, q, e, now), now)
  {
  }

  /** The relay's own answers belong to its query's questions. */
  lemma {:induction false} RespondsWith(cfg: Config, m: Moment, i: nat) returns (n: nat, e: Entry)
    requires IsMoment(cfg, m) && m.out.Respond? && i < |m.out.ans|
    ensures TakesQuery(m) && m.out.to == m.event.from && m.out.query == m.event.p
    ensures n < |m.event.p.quests| && m.out.ans[i] == AnswerOf(n, m.event.p.quests[n], e, m.event.now)
    ensures Answers(m.before.cache, cfg.hosts, m.event.p.quests[n], e, m.event.now)
  {
    var c, quests, now := m.before.cache, m.event.p.quests, m.event.now;
    Assembly(c, cfg.hosts, quests, now);
    n, e := AnswerOrigin(c, cfg.hosts, quests, StopAt(c, cfg.hosts, quests, 0, now), now, i);
  }

  /** Before step `k`, answer `s` to question `q` has its source in an earlier response or in a host line. */
  ghost predicate Sourced(hosts: HostData, run: seq<Moment>, k: nat, q: Quest, s: Answer, now: int)
    requires k <= |run|
  {
    (exists j: nat, a :: j < k && Decayed(run[j], a, q, s, now)) || Hosted(hosts, StateAt(run, k).cache, q, s, now)
  }

  lemma {:induction false} NothingKept(t: Test, c: seq<Entry>)
    requires forall e :: e in c ==> !Holds(t, e)
    ensures Keep(t, c) == []
  {
    if c != [] {
      NothingKept(t, c[1..]);
    }
  }

  lemma {:induction false} SourceOf(cfg: Config, run: seq<Moment>, k: nat, c: seq<Entry>, q: Quest, e: Entry, n: nat,
                                    now: int)
    requires IsRun(cfg, run) && k <= |run|
    requires forall j :: 0 <= j < k && TakesReply(run[j]) ==> run[j].event.now <= now
    requires Answers(c, cfg.hosts, q, e, now) && forall f :: f in StateAt(run, k).cache <==> f in c
    ensures Sourced(cfg.hosts, run, k, q, AnswerOf(n, q, e, now), now)
  {
    if e in c && Holds(HitOf(q, now), e) {
      var j, a := CachedWasReceived(cfg, run, k, e);
      ServesDecayed(run[j], a, e, q, n, now);
    } else {
      KeepMembers(HitOf(q, now), c);
      NothingKept(HitOf(q, now), StateAt(run, k).cache);
      ServesLine(cfg.hosts, StateAt(run, k).cache, q, e, n, now);
    }
  }

  lemma {:induction false} ServesLine(hosts: HostData, c: seq<Entry>, q: Quest, e: Entry, n: nat, now: int)
    requires hosts.present && Keep(HitOf(q, now), c) == []
    requires exists l :: l in hosts.lines && FromLine(l, hosts.loaded, q, e, now)
    ensures Hosted(hosts, c, q, AnswerOf(n, q, e, now), now)
  {
    var l :| l in hosts.lines && FromLine(l, hosts.loaded, q, e, now);
    assert IsLine(l, hosts.loaded, q, AnswerOf(n, q, e, now));
  }

  /** Answer `s` of step `k` belongs to question `n`, and has its source in what was received or in a host line. */
  ghost predicate Served(hosts: HostData, run: seq<Moment>, k: nat, n: nat, s: Answer)
    requires k < |run|
  {
    && TakesQuery(run[k]) && n < |run[k].event.p.quests|
    && ServedAs(hosts, run, k, n, run[k].event.p.quests[n], s, run[k].event.now)
  }

  ghost predicate ServedAs(hosts: HostData, run: seq<Moment>, k: nat, n: nat, q: Quest, s: Answer, now: int)
    requires k <= |run|
  {
    s.qpos == n % 256 && s.rtype == q.qtype && s.class_ == q.qclass && Sourced(hosts, run, k, q, s, now)
  }

  /**
   Provenance: every answer the relay gives of its own is a record of an earlier response to a
   question of the same name and (low byte of the) type, its TTL decayed to what is left of it,
   or comes from a host line of that name and type, when the cache had nothing for the question.
   */
  lemma {:induction false} AnswersHaveSources(cfg: Config, run: seq<Moment>, k: nat, i: nat) returns (n: nat)
    requires IsRun(cfg, run) && k < |run| && run[k].out.Respond? && i < |run[k].out.ans|
    requires forall j :: 0 <= j < k && TakesReply(run[j]) && TakesQuery(run[k]) ==> run[j].event.now <= run[k].event.now
    ensures Served(cfg.hosts, run, k, n, run[k].out.ans[i])
  {
    var e;
    MomentOf(cfg, run, k);
    n, e := RespondsWith(cfg, run[k], i);
    SourceOf(cfg, run, k, run[k].before.cache, run[k].event.p.quests[n], e, n, run[k].event.now);
  }

  // ---------------------------------------------------------------- on the wire

  /**
   What becomes of a query is decided by its first question without an answer: with none, the
   query is answered; if its name is blocked, the response has no answers; if it is merely
   unknown, the query goes nowhere while the next serial's slot is leased, and upstream otherwise.
   */
  lemma {:induction false} QueryIsDecided(cfg: Config, m: Moment)
    requires IsMoment(cfg, m) && TakesQuery(m)
    ensures var quests := m.event.p.quests;
            var k := StopAt(m.before.cache, cfg.hosts, quests, 0, m.event.now);
            var serial := I.NextSerial(m.before.ids);
            && (m.out.Respond? && m.out.ans != [] <==> k == |quests| > 0)
            && (m.out.Respond? && m.out.ans == []
                <==> k < |quests| && Search(m.before.cache, cfg.hosts, quests[k], m.event.now).0 == -1)
            && (!m.out.Respond? ==> if I.Leased(m.before.ids, I.SlotOf(serial), m.event.now) then m.out == Silent
                                    else SentUnder(m, serial))
  {
    Assembly(m.before.cache, cfg.hosts, m.event.p.quests, m.event.now);
  }

  /** What a client must read in a response: its own ID, flags and questions, and the answers in order. */
  ghost predicate Conveys(r: Message, query: Message, ans: seq<Answer>) {
    && r.id == query.id && r.quests == query.quests && Marked(r.flags, query.flags, |ans|) && |r.ans| == |ans|
    && forall i :: 0 <= i < |ans| ==> SameAnswer(r.ans[i], ans[i])
  }

  ghost predicate SameAnswer(r: Answer, a: Answer) {
    && r.rtype == a.rtype && r.class_ == a.class_ && r.ttl == a.ttl && r.rdata == a.rdata
    && (a.rtype == TYPE_MX ==> r.addition == a.addition)
  }

  /**
   `m` is the response to a parsed query, with answers that can be sent. Where the query ends with
   its questions, its pointers are decided; what else stands behind them is read under a high type.
   */
  ghost predicate Carries(net: Net, query: Parcel, ans: seq<Answer>, m: seq<byte>) {
    && net.Lawful() && Parsed(net, query.buf) == Some(query) && Poses(query.buf, query.quests)
    && AllSupported(query.quests, ans) && |ans| < 0x1_0000
    && ((IsQuery(query.buf, query.quests) && AllDecided(query.quests, ans)) || Trailed(query.buf, query.quests))
    && m == Response(net, query.buf, query.flags, query.quests, ans)
  }

  /**
   The bytes sent for a query are read by its client as the answers they were made from exactly
   when each is restorable and placed and, with any answers, the query ends with its questions.
   */
  lemma {:induction false} ClientReads(net: Net, query: Parcel, ans: seq<Answer>, m: seq<byte>)
    requires Carries(net, query, ans, m)
    ensures Parsed(net, m).Some? && Conveys(Parsed(net, m).value, query, ans)
       <==> && AllRestorable(net, query.quests, ans) && AllPlaced(query.quests, ans)
            && (IsQuery(query.buf, query.quests) || ans == [])
  {
    if !IsQuery(query.buf, query.quests) && ans != [] {
      TrailedIsNotRead(net, query, ans, m);
    } else {
      if AllRestorable(net, query.quests, ans) && AllPlaced(query.quests, ans) {
        RestorableIsRead(net, query, ans, m);
      }
      if Parsed(net, m).Some? && Conveys(Parsed(net, m).value, query, ans) {
        ReadIsRestorable(net, query, ans, m, Parsed(net, m).value);
      }
    }
  }

  lemma {:induction false} TrailedIsNotRead(net: Net, query: Parcel, ans: seq<Answer>, m: seq<byte>)
    requires Carries(net, query, ans, m) && !IsQuery(query.buf, query.quests) && ans != []
    ensures !(Parsed(net, m).Some? && Conveys(Parsed(net, m).value, query, ans))
  {
    TrailedIsMisread(net, query.buf, query.flags, query.quests, ans, m);
    if Parsed(net, m).Some? {
      assert !SameAnswer(Parsed(net, m).value.ans[0], ans[0]);
    }
  }

  lemma {:induction false} RestorableIsRead(net: Net, query: Parcel, ans: seq<Answer>, m: seq<byte>)
    requires Carries(net, query, ans, m) && (IsQuery(query.buf, query.quests) || ans == [])
    requires AllRestorable(net, query.quests, ans) && AllPlaced(query.quests, ans)
    ensures Parsed(net, m).Some? && Conveys(Parsed(net, m).value, query, ans)
  {
    if ans == [] {
      EmptyIsRead(net, query.buf, query.flags, query.quests, m);
    } else {
      MessageRoundTrip(net, query.buf, query.flags, query.quests, ans, m);
    }
    ResponseIsMarked(query.flags, |ans|);
    forall i | 0 <= i < |ans|
      ensures SameAnswer(AllRestored(net, query.quests, ans)[i], ans[i])
    {
      AnswerListsAt(net, query.quests, ans, i);
    }
  }

  lemma {:induction false} ReadIsRestorable(net: Net, query: Parcel, ans: seq<Answer>, m: seq<byte>, r: Message)
    requires Carries(net, query, ans, m) && (IsQuery(query.buf, query.quests) || ans == [])
    requires Parsed(net, m) == Some(r) && Conveys(r, query, ans)
    ensures AllRestorable(net, query.quests, ans) && AllPlaced(query.quests, ans)
  {
    if ans != [] {
      var req, quests := query.buf, query.quests;
      ResponseHead(net, req, query.flags, quests, ans, m);
      QuestionsRoundTrip(m, 12, quests, |quests|, |req|);
      forall i | 0 <= i < |ans|
        ensures Restorable(net, quests, ans[i]) && Placed(quests, ans[i])
      {
        assert SameAnswer(r.ans[i], ans[i]);
        var end := ReadAll(AnswerReader(net, m), |req|, |ans|).value.next;
        ReadBackIsRestorable(net, m, |req|, quests, ans, r.ans, end, i);
      }
    }
  }

  /** The answer is an address, in the text the platform prints for it. */
  ghost predicate Addressed(net: Net, quests: seq<Quest>, a: Answer) {
    && a.qpos < |quests|
    && ((a.rtype == TYPE_A && exists b :: |b| == 4 && a.rdata == net.ntop4(b))
        || (a.rtype == TYPE_AAAA && exists b :: |b| == 16 && a.rdata == net.ntop6(b)))
  }

  /** Any addresses, in answer to any questions, reach the client. */
  lemma {:induction false} AddressesAreConveyed(net: Net, id: u16, flags: u16, quests: seq<Quest>, ans: seq<Answer>,
                                                query: Parcel)
    requires net.Lawful() && Askable(quests) && |quests| < 0x1_0000 && |ans| < 0x1_0000
    requires forall i :: 0 <= i < |ans| ==> Addressed(net, quests, ans[i])
    requires query == Message(QueryFor(id, flags, quests), id, flags, |quests|, 0, quests, [])
    ensures AllSupported(quests, ans)
    ensures var r := Parsed(net, Response(net, query.buf, flags, quests, ans));
            r.Some? && Conveys(r.value, query, ans)
  {
    QueryRoundTrip(net, id, flags, quests, query.buf);
    ClientReads(net, query, ans, Response(net, query.buf, flags, quests, ans));
  }

  // ---------------------------------------------------------------- packets the relay can serve

  lemma {:induction false} StepStocks(cfg: Config, m: Moment)
    requires IsMoment(cfg, m) && Stocked(m.before.cache)
    requires TakesReply(m) ==> Storable(m.event.p.quests, m.event.p.ans)
    ensures Stocked(m.after.cache)
  {
    if TakesReply(m) {
      StoreStocks(cfg.cap, m.before.cache, m.event.p.quests, m.event.p.ans, m.event.now);
    } else {
      forall e | e in m.after.cache
        ensures e in m.before.cache
      {
        StepKeepsOrStores(cfg, m, e);
      }
    }
  }

  /** After responses whose stored answers can be sent on, every cached record can be sent. */
  lemma {:induction false} RunStocks(cfg: Config, run: seq<Moment>, k: nat)
    requires IsRun(cfg, run) && k <= |run|
    requires forall j :: 0 <= j < k && TakesReply(run[j]) ==> Storable(run[j].event.p.quests, run[j].event.p.ans)
    ensures Stocked(StateAt(run, k).cache)
  {
    if k > 0 {
      RunStocks(cfg, run, k - 1);
      MomentOf(cfg, run, k - 1);
      StepStocks(cfg, run[k - 1]);
    }
  }

  /** The response `p` stores an answer to `q`, as far as the cache can tell. */
  ghost predicate Heard(p: Message, q: Quest) {
    && IsResponse(p) && p.quests != [] && p.quests[0].qname == q.qname
    && exists a :: a in p.ans && a.rtype == p.quests[0].qtype && Narrow(a.rtype) == Narrow(q.qtype)
  }

  /** The host file has a line for `q`. */
  ghost predicate InFile(hosts: HostData, q: Quest) {
    && hosts.present
    && exists l :: l in hosts.lines && l.domain == q.qname && H.EntryOf(l, hosts.loaded).rtype == Narrow(q.qtype)
  }

  /** Before step `k`, the host file or a response has given an answer to `q`. */
  ghost predicate Known(hosts: HostData, run: seq<Moment>, k: nat, q: Quest)
    requires k <= |run|
  {
    InFile(hosts, q) || exists j :: 0 <= j < k && run[j].event.Datagram? && Heard(run[j].event.p, q)
  }

  /** A question for which none has been given finds nothing. */
  lemma {:induction false} UnknownIsNotFound(cfg: Config, run: seq<Moment>, k: nat, c: seq<Entry>, q: Quest, now: int)
    requires IsRun(cfg, run) && k <= |run| && !Known(cfg.hosts, run, k, q)
    requires forall e :: e in c <==> e in StateAt(run, k).cache
    ensures Search(c, cfg.hosts, q, now).0 <= 0
  {
    var t := HitOf(q, now);
    KeepMembers(t, c);
    if Keep(t, c) != [] {
      var e := Keep(t, c)[0];
      assert e in Keep(t, c);
      var j, a := CachedWasReceived(cfg, run, k, e);
      assert Heard(run[j].event.p, q);
    } else if Search(c, cfg.hosts, q, now).0 > 0 {
      var e := Search(c, cfg.hosts, q, now).1[0];
      HostAnswers(cfg.hosts, q, e, now);
    }
  }

  /** A question with a host line, and no line that blocks it, finds something, whatever the cache holds. */
  lemma {:induction false} LineIsFound(c: seq<Entry>, hosts: HostData, q: Quest, now: int)
    requires InFile(hosts, q)
    requires q.qtype % 256 == 1 ==> H.Line([48, 46, 48, 46, 48, 46, 48], q.qname) !in hosts.lines
    ensures Search(c, hosts, q, now).0 > 0
  {
    var l :| l in hosts.lines && l.domain == q.qname && H.EntryOf(l, hosts.loaded).rtype == Narrow(q.qtype);
    var i :| 0 <= i < |hosts.lines| && hosts.lines[i] == l;
    assert H.Matches(hosts.lines[i], q.qname, q.qtype % 256);
    FindsNothing(c, hosts, q, now);
    H.BlockedByLine(hosts.lines, hosts.loaded, q.qname, Narrow(q.qtype), now);
  }

  /**
   After a response, each of its answers of the first question's type is cached, with its time to
   live counted from now, unless as many of them as the cache has slots come behind it.
   */
  lemma {:induction false} ReceivedIsCached(cfg: Config, m: Moment, i: nat)
    requires IsMoment(cfg, m) && TakesReply(m) && i < |m.event.p.ans|
    requires var p := m.event.p;
             p.ans[i].rtype == p.quests[0].qtype && |Latest(p.quests[0], p.ans[i + 1..], m.event.now)| < cfg.cap
    ensures var q, a := m.event.p.quests[0], m.event.p.ans[i];
            Entry(q.qname, a.rdata, a.rtype % 256, a.addition, m.event.now + a.ttl) in m.after.cache
  {
    StoredIsCached(cfg.cap, m.before.cache, m.event.p.quests[0], m.event.p.ans, i, m.event.now);
  }

  /** Some question has not been given an answer yet, or all ask for supported types. */
  ghost predicate Fair(hosts: HostData, run: seq<Moment>, k: nat, quests: seq<Quest>)
    requires k <= |run|
  {
    (exists i :: 0 <= i < |quests| && !Known(hosts, run, k, quests[i])) || AllSupport(quests, |quests|)
  }

  lemma {:induction false} FairIsDeliverable(cfg: Config, run: seq<Moment>, k: nat, c: seq<Entry>, quests: seq<Quest>,
                                             now: int)
    requires IsRun(cfg, run) && k <= |run| && Fair(cfg.hosts, run, k, quests)
    requires forall e :: e in c <==> e in StateAt(run, k).cache
    ensures Deliverable(c, cfg.hosts, quests, now)
  {
    if i :| 0 <= i < |quests| && !Known(cfg.hosts, run, k, quests[i]) {
      UnknownIsNotFound(cfg, run, k, c, quests[i], now);
    }
  }

  /**
   Over whole runs, what the relay answers can be sent exactly when it is nothing or all types
   asked for are supported, whatever its cache and host table hold: it is enough that each response
   it received met its condition. No query that is fair asks for more.
   */
  lemma {:induction false} AnswersCanBeSent(cfg: Config, run: seq<Moment>, k: nat)
    requires IsRun(cfg, run) && k < |run| && TakesQuery(run[k]) && run[k].out.Respond?
    requires forall j :: 0 <= j < k && TakesReply(run[j]) ==> Storable(run[j].event.p.quests, run[j].event.p.ans)
    requires Buffered(run[k].event.p.quests) && Moderate(cfg.cap, cfg.hosts, run[k].event.p.quests)
    ensures |run[k].out.ans| < 0x1_0000
    ensures var quests, ans := run[k].event.p.quests, run[k].out.ans;
            && (AllSupported(quests, ans) <==> ans == [] || AllSupport(quests, |quests|))
            && (Fair(cfg.hosts, run, k, quests) ==> AllSupported(quests, ans))
  {
    var c, quests, now := run[k].before.cache, run[k].event.p.quests, run[k].event.now;
    MomentOf(cfg, run, k);
    RunStocks(cfg, run, k);
    Assembly(c, cfg.hosts, quests, now);
    SentIsSupported(c, cfg.hosts, quests, now);
    LoadedFits(cfg.cap, c, cfg.hosts, quests, now);
    if Fair(cfg.hosts, run, k, quests) {
      FairIsDeliverable(cfg, run, k, c, quests, now);
    }
  }

  /** The line's address is written as the platform prints it. */
  ghost predicate Printed(net: Net, l: H.Line) {
    if H.COLON in l.ip then exists b :: |b| == 16 && l.ip == net.ntop6(b)
    else exists b :: |b| == 4 && l.ip == net.ntop4(b)
  }

  /** No supported type has the same low byte, unless it is this one. */
  predicate Clear(t: u16) {
    Supports(t) || !Supports(Narrow(t))
  }

  /** The response's stored answers can be sent on, and its stored names read back under the question's name. */
  ghost predicate Passable(quests: seq<Quest>, ans: seq<Answer>) {
    && Storable(quests, ans)
    && forall a :: a in ans && a.rtype == quests[0].qtype ==>
         Clear(a.rtype) && (UrlCodec.NameType(a.rtype) ==> NameRestorable(a.rdata, a.rtype, quests[0].qname))
  }

  ghost predicate Relayable(net: Net, p: Parcel) {
    Parsed(net, p.buf) == Some(p) && Passable(p.quests, p.ans)
  }

  /** No question from number `n` on asks for names. */
  ghost predicate NamesBefore(quests: seq<Quest>, n: nat) {
    forall i :: n <= i < |quests| ==> !UrlCodec.NameType(quests[i].qtype)
  }

  /**
   The query fits the receive buffer and finds no more answers than a packet counts. It asks for
   names in its first question only or, over bytes below 192, in its first three, unless anything
   stands behind its questions.
   */
  ghost predicate Answerable(net: Net, cfg: Config, p: Parcel) {
    && Parsed(net, p.buf) == Some(p) && |p.buf| <= 1024 && Poses(p.buf, p.quests)
    && Moderate(cfg.cap, cfg.hosts, p.quests)
    && ((IsQuery(p.buf, p.quests) && Near(p.quests)) || Trailed(p.buf, p.quests))
  }

  ghost predicate Near(quests: seq<Quest>)
    requires Askable(quests)
  {
    NamesBefore(quests, 1) || (NamesBefore(quests, 3) && Low(quests))
  }

  ghost predicate AllPrinted(net: Net, hosts: HostData) {
    forall l :: l in hosts.lines ==> Printed(net, l)
  }

  /** An answer from the cache reads back exactly when the one it was stored from would, and an address always. */
  lemma {:induction false} CachedIsRestorable(net: Net, m: Moment, a: Answer, quests: seq<Quest>, n: nat, s: Answer,
                                              now: int)
    requires n < |quests| && Decayed(m, a, quests[n], s, now) && Parsed(net, m.event.p.buf) == Some(m.event.p)
    requires s.qpos == n && s.rtype == quests[n].qtype == a.rtype && Supported(quests, s)
    ensures Restorable(net, quests, s)
       <==> UrlCodec.NameType(a.rtype) ==> NameRestorable(a.rdata, a.rtype, m.event.p.quests[0].qname)
  {
    ParsedIsWellRead(net, m.event.p.buf, m.event.p, a);
  }

  lemma {:induction false} HostedIsRestorable(net: Net, hosts: HostData, c: seq<Entry>, quests: seq<Quest>, n: nat,
                                              s: Answer, now: int)
    requires n < |quests| && Hosted(hosts, c, quests[n], s, now) && AllPrinted(net, hosts)
    requires s.rtype == quests[n].qtype && Supported(quests, s)
    ensures Restorable(net, quests, s)
  {
    var l :| l in hosts.lines && IsLine(l, hosts.loaded, quests[n], s);
    assert Printed(net, l);
  }

  /** Before step `k`, every response met its conditions and was received no later than `now`. */
  ghost predicate Fed(net: Net, run: seq<Moment>, k: nat, now: int)
    requires k <= |run|
  {
    forall j :: 0 <= j < k && TakesReply(run[j]) ==> Relayable(net, run[j].event.p) && run[j].event.now <= now
  }

  /** A supported answer of a cached record's type has the type the record was received with. */
  lemma {:induction false} SameType(received: u16, served: u16)
    requires Clear(received) && Supports(served) && Narrow(served) == Narrow(received)
    ensures served == received
  {
  }

  lemma {:induction false} DecayedIsRestorable(net: Net, m: Moment, a: Answer, quests: seq<Quest>, n: nat, s: Answer,
                                               now: int)
    requires n < |quests| && Decayed(m, a, quests[n], s, now) && Relayable(net, m.event.p)
    requires s.qpos == n && s.rtype == quests[n].qtype && Supported(quests, s)
    ensures Restorable(net, quests, s)
  {
    SameType(a.rtype, s.rtype);
    CachedIsRestorable(net, m, a, quests, n, s, now);
  }

  lemma {:induction false} SourcedIsRestorable(net: Net, cfg: Config, run: seq<Moment>, k: nat, quests: seq<Quest>,
                                               n: nat, s: Answer, now: int)
    requires k <= |run| && Fed(net, run, k, now) && n < |quests| && Sourced(cfg.hosts, run, k, quests[n], s, now)
    requires AllPrinted(net, cfg.hosts)
    requires s.qpos == n && s.rtype == quests[n].qtype && Supported(quests, s)
    ensures Restorable(net, quests, s)
  {
    if j: nat, a :| j < k && Decayed(run[j], a, quests[n], s, now) {
      DecayedIsRestorable(net, run[j], a, quests, n, s, now);
    } else {
      HostedIsRestorable(net, cfg.hosts, StateAt(run, k).cache, quests, n, s, now);
    }
  }

  lemma {:induction false} AnswerReadsBack(net: Net, cfg: Config, run: seq<Moment>, k: nat, quests: seq<Quest>, n: nat,
                                           s: Answer, now: int)
    requires k <= |run| && Fed(net, run, k, now) && AllPrinted(net, cfg.hosts)
    requires n < |quests| && ServedAs(cfg.hosts, run, k, n, quests[n], s, now) && Supported(quests, s)
    requires Buffered(quests) && Askable(quests)
    ensures Restorable(net, quests, s)
    ensures NamesBefore(quests, 1) ==> Placed(quests, s)
    ensures Near(quests) ==> Decided(quests, s)
  {
    BufferBounds(quests, n);
    SourcedIsRestorable(net, cfg, run, k, quests, n, s, now);
    NearIsDecided(quests, s);
  }

  lemma {:induction false} NearIsDecided(quests: seq<Quest>, s: Answer)
    requires Askable(quests) && Supported(quests, s) && s.rtype == quests[s.qpos].qtype
    ensures NamesBefore(quests, 1) ==> Placed(quests, s)
    ensures Near(quests) ==> Decided(quests, s)
  {
    if s.qpos == 0 {
      FirstIsPlaced(quests, s);
    } else if Compressed(quests, s) {
      var k, r, t := SuffixIsThere(quests, s.qpos, s.rdata, UrlCodec.CutOf(s.rdata, quests[s.qpos].qname));
    }
  }

  ghost predicate HasSource(hosts: HostData, run: seq<Moment>, k: nat, s: Answer)
    requires k < |run|
  {
    exists n: nat :: Served(hosts, run, k, n, s)
  }

  /** Step `k` answers the query `p` with `ans`, and the packets and host lines behind it meet their conditions. */
  ghost predicate Proper(net: Net, cfg: Config, run: seq<Moment>, k: nat, p: Parcel, ans: seq<Answer>)
    requires k < |run|
  {
    && TakesQuery(run[k]) && p == run[k].event.p && run[k].out == Respond(run[k].event.from, p, ans)
    && Fed(net, run, k, run[k].event.now) && Answerable(net, cfg, p) && AllPrinted(net, cfg.hosts)
    && Fair(cfg.hosts, run, k, p.quests)
  }

  lemma {:induction false} AnswersReadBack(net: Net, cfg: Config, run: seq<Moment>, k: nat, p: Parcel, ans: seq<Answer>)
    requires IsRun(cfg, run) && k < |run|
    requires Proper(net, cfg, run, k, p, ans) && AllSupported(p.quests, ans)
    ensures AllRestorable(net, p.quests, ans)
    ensures (NamesBefore(p.quests, 1) ==> AllPlaced(p.quests, ans)) && (Near(p.quests) ==> AllDecided(p.quests, ans))
    ensures forall i :: 0 <= i < |ans| ==> HasSource(cfg.hosts, run, k, ans[i])
  {
    ParsedBounds(net, p.buf, p);
    forall i | 0 <= i < |ans|
      ensures Restorable(net, p.quests, ans[i]) && HasSource(cfg.hosts, run, k, ans[i])
      ensures NamesBefore(p.quests, 1) ==> Placed(p.quests, ans[i])
      ensures Near(p.quests) ==> Decided(p.quests, ans[i])
    {
      var n := AnswersHaveSources(cfg, run, k, i);
      AnswerReadsBack(net, cfg, run, k, p.quests, n, ans[i], run[k].event.now);
    }
  }

  lemma {:induction false} FedIsStorable(net: Net, run: seq<Moment>, k: nat, now: int)
    requires k <= |run| && Fed(net, run, k, now)
    ensures forall j :: 0 <= j < k && TakesReply(run[j]) ==> Storable(run[j].event.p.quests, run[j].event.p.ans)
  {
  }

  lemma {:induction false} ProperIsSent(net: Net, cfg: Config, run: seq<Moment>, k: nat, p: Parcel, ans: seq<Answer>)
    requires IsRun(cfg, run) && k < |run| && Proper(net, cfg, run, k, p, ans)
    ensures AllSupported(p.quests, ans) && |ans| < 0x1_0000
  {
    FedIsStorable(net, run, k, run[k].event.now);
    ParsedBounds(net, p.buf, p);
    AnswersCanBeSent(cfg, run, k);
  }

  /**
   From end to end, over whole runs and from conditions on packets and host lines alone: what the
   relay answers can be sent; the client reads exactly these answers in its bytes if and only if the
   pointers of compressed names lead to their suffixes, as they do for the first question, and the
   query ends with its questions or has no answer; and each answer has its source in what the relay
   received, or in a host line.
   */
  lemma {:induction false} ClientReadsSourced(net: Net, cfg: Config, run: seq<Moment>, k: nat, p: Parcel,
                                              ans: seq<Answer>)
    requires net.Lawful() && IsRun(cfg, run) && k < |run|
    requires Proper(net, cfg, run, k, p, ans)
    ensures AllSupported(p.quests, ans) && |ans| < 0x1_0000
    ensures var r := Parsed(net, Response(net, p.buf, p.flags, p.quests, ans));
            r.Some? && Conveys(r.value, p, ans) <==> AllPlaced(p.quests, ans) && (IsQuery(p.buf, p.quests) || ans == [])
    ensures NamesBefore(p.quests, 1) ==> AllPlaced(p.quests, ans)
    ensures forall i :: 0 <= i < |ans| ==> HasSource(cfg.hosts, run, k, ans[i])
  {
    ProperIsSent(net, cfg, run, k, p, ans);
    AnswersReadBack(net, cfg, run, k, p, ans);
    ClientReads(net, p, ans, Response(net, p.buf, p.flags, p.quests, ans));
  }

  // ---------------------------------------------------------------- a run that meets the conditions

  /** A response that carries the address `b`. */
  lemma {:induction false} ReceivedAddress(net: Net, q: Quest, b: seq<byte>, ttl: u32, id: u16)
      returns (p: Parcel, a: Answer)
    requires net.Lawful() && Askable([q]) && q.qtype == TYPE_A && |b| == 4
    ensures Relayable(net, p) && IsResponse(p) && p.quests == [q] && p.ans == [a]
    ensures a.rtype == TYPE_A && a.rdata == net.ntop4(b) && a.ttl == ttl
  {
    a := Answer(0, 0, TYPE_A, 1, 0, ttl, 0, net.ntop4(b));
    var req := QueryFor(id, 0, [q]);
    var query := Message(req, id, 0, 1, 0, [q], []);
    assert Addressed(net, [q], a);
    AddressesAreConveyed(net, id, 0, [q], [a], query);
    var m := Response(net, req, 0, [q], [a]);
    p := Parsed(net, m).value;
    a := AddressIsRelayable(net, m, p, query, a);
  }

  lemma {:induction false} AddressIsRelayable(net: Net, m: seq<byte>, p: Message, query: Message, a: Answer)
      returns (r: Answer)
    requires Parsed(net, m) == Some(p) && Conveys(p, query, [a]) && |query.quests| == 1 && a.rtype == TYPE_A
    ensures |p.buf| >= 12 && Relayable(net, p) && p.ans == [r] && SameAnswer(r, a)
  {
    r := p.ans[0];
    assert SameAnswer(r, [a][0]);
    assert p.ans == [r];
    AddressIsPassable(p.quests, r);
  }

  lemma {:induction false} AddressIsPassable(quests: seq<Quest>, a: Answer)
    requires quests != [] && a.rtype == TYPE_A
    ensures Passable(quests, [a])
  {
    assert forall b :: b in [a] ==> b == a;
  }

  /** Stored in an empty cache, it is the one answer to its question until its time is up. */
  lemma {:induction false} StoredIsAnswered(cap: nat, hosts: HostData, q: Quest, a: Answer, t0: int, t1: int)
    requires 0 < cap && a.rtype == q.qtype && t0 <= t1 <= t0 + a.ttl
    ensures var e := RecordOf(q, a, t0);
            && StoreAll(cap, [], [q], [a], t0) == [e]
            && Answered([e], hosts, [q], t1) == Composed(1, [AnswerOf(0, q, e, t1)], [e])
  {
    var e, t := RecordOf(q, a, t0), HitOf(q, t1);
    var none: seq<Answer>, empty: seq<Entry> := [], [];
    assert [a][..0] == none && [e][1..] == empty;
    assert Store(cap, [], q, none, t0) == empty;
    assert Keep(t, [e]) == [e] && Keep(Not(t), [e]) == empty;
    assert Touch([e], t) == [e];
    var s := [AnswerOf(0, q, e, t1)];
    assert [e][1..] == empty && Load(0, q, [e], t1) == s && none + s == s;
    assert Search([e], hosts, q, t1) == (1, [e]);
    assert Compose([e], hosts, [q], 1, s, t1) == Composed(1, s, [e]);
    assert Compose([e], hosts, [q], 0, none, t1) == Compose([e], hosts, [q], 1, s, t1);
  }

  /**
   The conditions of the end-to-end theorem can be met: an address received in one packet is served
   to the next one that asks for it, with what is left of its time.
   */
  lemma {:induction false} ServesAddress(net: Net, cfg: Config, q: Quest, b: seq<byte>, ttl: u32, id: u16,
                                         from: I.Address, t0: int, t1: int)
      returns (run: seq<Moment>, p: Parcel, s: Answer)
    requires net.Lawful() && 0 < cfg.cap < 0x1_0000 && AllPrinted(net, cfg.hosts) && ListedFor(cfg.hosts, q) < 0x1_0000
    requires Askable([q]) && q.qtype == TYPE_A && |b| == 4 && t0 <= t1 <= t0 + ttl
    ensures IsRun(cfg, run) && |run| == 2 && Proper(net, cfg, run, 1, p, [s])
    ensures p.quests == [q] && s.rdata == net.ntop4(b) && s.ttl == t0 + ttl - t1
  {
    var p0, a := ReceivedAddress(net, q, b, ttl, id);
    p := AskingFor(net, cfg, q, id);
    var e := RecordOf(q, a, t0);
    s := AnswerOf(0, q, e, t1);
    TimeLeft(q, a, t0, t1);
    run := StoresThenServes(net, cfg, p0, p, q, a, e, s, from, t0, t1);
  }

  lemma {:induction false} TimeLeft(q: Quest, a: Answer, t0: int, t1: int)
    requires t0 <= t1 <= t0 + a.ttl
    ensures var s := AnswerOf(0, q, RecordOf(q, a, t0), t1);
            s.rdata == a.rdata && s.ttl == t0 + a.ttl - t1
  {
  }

  lemma {:induction false} StoresThenServes(net: Net, cfg: Config, p0: Parcel, p: Parcel, q: Quest, a: Answer, e: Entry,
                                            s: Answer, from: I.Address, t0: int, t1: int) returns (run: seq<Moment>)
    requires 0 < cfg.cap && Relayable(net, p0) && IsResponse(p0) && p0.quests == [q] && p0.ans == [a]
    requires a.rtype == q.qtype
    requires Answerable(net, cfg, p) && !IsResponse(p) && p.quests == [q] && AllPrinted(net, cfg.hosts)
    requires Supports(q.qtype)
    requires t0 <= t1 <= t0 + a.ttl && e == RecordOf(q, a, t0) && s == AnswerOf(0, q, e, t1)
    ensures IsRun(cfg, run) && |run| == 2 && Proper(net, cfg, run, 1, p, [s])
  {
    StoredIsAnswered(cfg.cap, cfg.hosts, q, a, t0, t1);
    var held := State([e], I.Initial());
    var first := Moment(Start(), Datagram(p0, from, t0), Silent, held);
    var second := Moment(held, Datagram(p, from, t1), Respond(from, p, [s]), held);
    StoresFirst(cfg, first, p0, from, t0);
    ServesThen(cfg, second, p, from, t1, s);
    TwoSteps(cfg, first, second);
    run := [first, second];
    TwoAreProper(net, cfg, run, p0, p, [s], from, t0, t1);
  }

  lemma {:induction false} TwoAreProper(net: Net, cfg: Config, run: seq<Moment>, p0: Parcel, p: Parcel,
                                        ans: seq<Answer>,
                                        from: I.Address, t0: int, t1: int)
    requires |run| == 2 && run[0].event == Datagram(p0, from, t0) && run[1].event == Datagram(p, from, t1) && t0 <= t1
    requires run[1].out == Respond(from, p, ans) && Relayable(net, p0)
    requires Answerable(net, cfg, p) && !IsResponse(p) && AllPrinted(net, cfg.hosts) && AllSupport(p.quests, |p.quests|)
    ensures Proper(net, cfg, run, 1, p, ans)
  {
    FedByOne(net, run, p0, from, t0, t1);
    assert Fair(cfg.hosts, run, 1, p.quests);
  }

  lemma {:induction false} FedByOne(net: Net, run: seq<Moment>, p: Parcel, from: I.Address, now: int, later: int)
    requires run != [] && run[0].event == Datagram(p, from, now) && now <= later && Relayable(net, p)
    ensures Fed(net, run, 1, later)
  {
    forall j | 0 <= j < 1 && TakesReply(run[j])
      ensures Relayable(net, run[j].event.p) && run[j].event.now <= later
    {
      assert run[j].event.p == p;
    }
  }

  lemma {:induction false} StoresFirst(cfg: Config, m: Moment, p: Parcel, from: I.Address, now: int)
    requires 0 < cfg.cap && IsResponse(p) && m.before == Start() && m.event == Datagram(p, from, now) && m.out == Silent
    requires m.after == State(StoreAll(cfg.cap, [], p.quests, p.ans, now), I.Initial())
    ensures IsMoment(cfg, m)
  {
    assert I.Take(I.Initial(), p.id) == (I.Initial(), None);
  }

  lemma {:induction false} ServesThen(cfg: Config, m: Moment, p: Parcel, from: I.Address, now: int, s: Answer)
    requires Fits(cfg, m.before) && !IsResponse(p) && m.event == Datagram(p, from, now) && m.after == m.before
    requires Answered(m.before.cache, cfg.hosts, p.quests, now) == Composed(1, [s], m.before.cache)
    requires m.out == Respond(from, p, [s])
    ensures IsMoment(cfg, m)
  {
  }

  lemma {:induction false} AskingFor(net: Net, cfg: Config, q: Quest, id: u16) returns (p: Parcel)
    requires 0 < cfg.cap < 0x1_0000 && ListedFor(cfg.hosts, q) < 0x1_0000
    requires Askable([q]) && q.qtype == TYPE_A
    ensures Answerable(net, cfg, p) && !IsResponse(p) && p.quests == [q]
  {
    var req := QueryFor(id, 0, [q]);
    QueryRoundTrip(net, id, 0, [q], req);
    p := Message(req, id, 0, 1, 0, [q], []);
    QuestionRoundTrip(QuestionBytes(q), 0, q);
    assert QuestionPieces([q]) == [QuestionBytes(q)] + [];
    assert Join(QuestionPieces([q])) == QuestionBytes(q) + Join([]);
  }

  lemma {:induction false} TwoSteps(cfg: Config, first: Moment, second: Moment)
    requires IsMoment(cfg, first) && IsMoment(cfg, second) && first.before == Start() && second.before == first.after
    ensures IsRun(cfg, [first, second])
  {
    var none: seq<Moment> := [];
    assert [first, second][..1] == [first] && [first][..0] == none;
    assert IsRun(cfg, none);
    assert IsRun(cfg, [first]);
  }
}
