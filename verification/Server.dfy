/** The server: one received packet, handled as one atomic step of module Relay. */
module Server {
  import opened Bytes
  import opened LruList
  import opened PacketCodec
  import opened Packet
  import opened Answering
  import R = Relay
  import I = IdMap
  import Q = Query
  import H = HostLines
  import C = LruCache
  import T = HostTable

  /**
   The memory from the text of an answer on. What stands behind the text is left over from earlier
   use; the loop over it ends in the scratch buffer.
   */
  type Heap = (nat, Answer) -> seq<byte>

  ghost predicate Settled(heap: Heap) {
    forall i: nat, a: Answer :: SendableAs(a.rdata, a.rtype) ==> Held(a, heap(i, a))
  }

  function Texts(heap: Heap, ans: seq<Answer>): (mems: seq<seq<byte>>)
    ensures |mems| == |ans| && forall i :: 0 <= i < |ans| ==> mems[i] == heap(i, ans[i])
  {
    if ans == [] then [] else Texts(heap, ans[..|ans| - 1]) + [heap(|ans| - 1, ans[|ans| - 1])]
  }

  lemma {:induction false} TextsAreHeld(heap: Heap, quests: seq<Quest>, ans: seq<Answer>)
    requires Settled(heap) && AllSupported(quests, ans)
    ensures AllHeld(ans, Texts(heap, ans))
  {
    forall i | 0 <= i < |ans|
      ensures Held(ans[i], Texts(heap, ans)[i])
    {
      assert Supported(quests, ans[i]);
    }
  }

  /** What is put on the wire. */
  datatype Sent = Nothing | ToUpstream(bytes: seq<byte>) | ToClient(to: I.Address, bytes: seq<byte>)

  /** What step `out` puts on the wire. */
  ghost predicate Puts(net: Net, out: R.Output, sent: Sent)
    requires net.Lawful()
  {
    match out
    case Silent => sent == Nothing
    case Upstream(bytes) => sent == ToUpstream(bytes)
    case Client(to, bytes) => sent == ToClient(to, bytes)
    case Respond(to, query, ans) =>
      && AllSupported(query.quests, ans) && |ans| < 0x1_0000
      && sent == ToClient(to, Response(net, query.buf, query.flags, query.quests, ans))
  }

  lemma {:induction false} ReadAllCounts<T>(read: nat -> Option<Read<T>>, p: nat, n: nat)
    requires ReadAll(read, p, n).Some?
    ensures |ReadAll(read, p, n).value.value| == n
    decreases n
  {
    if n != 0 {
      ReadAllCounts(read, read(p).value.next, n - 1);
    }
  }

  lemma {:induction false} ReadNames(read: nat -> Option<Read<Quest>>, p: nat, n: nat, i: nat)
    requires forall q :: read(q).Some? ==> 0 !in read(q).value.value.qname
    requires ReadAll(read, p, n).Some? && i < |ReadAll(read, p, n).value.value|
    ensures 0 !in ReadAll(read, p, n).value.value[i].qname
    decreases n
  {
    if i > 0 {
      ReadNames(read, read(p).value.next, n - 1, i - 1);
    }
  }

  /** A parsed packet has as many answers as it counts, and its names are C strings. */
  lemma {:induction false} ParsedShape(net: Net, m: seq<byte>, p: Message)
    requires Parsed(net, m) == Some(p)
    ensures |p.buf| >= 12 && p.ancount == |p.ans| && Named(p.quests)
  {
    var read := QuestionReader(m);
    var pos := ReadAll(read, 12, p.qdcount).value.next;
    ReadAllCounts(AnswerReader(net, m), pos, p.ancount);
    forall i | 0 <= i < |p.quests|
      ensures 0 !in p.quests[i].qname
    {
      ReadNames(read, 12, p.qdcount, i);
    }
  }

  ghost predicate Named(quests: seq<Quest>) {
    forall i :: 0 <= i < |quests| ==> 0 !in quests[i].qname
  }

  /** A packet as the receive loop gets it, with the memory its handling meets. */
  datatype Received = Received(buf: seq<byte>, from: I.Address, now: int, heap: Heap)

  /**
   The conditions on one packet: what a response stores can be sent on, a query finds no more than a
   packet counts.
   */
  ghost predicate Receivable(net: Net, cfg: R.Config, r: Received) {
    && |r.buf| <= 1024 && Parsed(net, r.buf).Some? && Settled(r.heap)
    && var p := Parsed(net, r.buf).value;
       && (p.ans != [] ==> p.quests != [])
       && if R.IsResponse(p) then Storable(p.quests, p.ans) else Moderate(cfg.cap, cfg.hosts, p.quests)
  }

  ghost predicate AllReceivable(net: Net, cfg: R.Config, packets: seq<Received>) {
    forall i :: 0 <= i < |packets| ==> Receivable(net, cfg, packets[i])
  }

  /** The packet gives an answer to `q`. */
  ghost predicate Tells(net: Net, r: Received, q: Quest) {
    Parsed(net, r.buf).Some? && R.Heard(Parsed(net, r.buf).value, q)
  }

  /** Before packet `i`, the host file, the run so far or an earlier packet has given an answer to `q`. */
  ghost predicate Told(net: Net, hosts: HostData, before: seq<R.Moment>, packets: seq<Received>, i: nat, q: Quest)
    requires i <= |packets|
  {
    R.Known(hosts, before, |before|, q) || exists j :: 0 <= j < i && Tells(net, packets[j], q)
  }

  /** Packet `i` is no query, or has a question for which no answer has been given, or asks for supported types only. */
  ghost predicate FairPacket(net: Net, hosts: HostData, before: seq<R.Moment>, packets: seq<Received>, i: nat)
    requires i < |packets|
  {
    Parsed(net, packets[i].buf).Some? && !R.IsResponse(Parsed(net, packets[i].buf).value) ==>
      var quests := Parsed(net, packets[i].buf).value.quests;
      || (exists n :: 0 <= n < |quests| && !Told(net, hosts, before, packets, i, quests[n]))
      || AllSupport(quests, |quests|)
  }

  ghost predicate AllFair(net: Net, hosts: HostData, before: seq<R.Moment>, packets: seq<Received>) {
    forall i :: 0 <= i < |packets| ==> FairPacket(net, hosts, before, packets, i)
  }

  /** Every response of the run met its condition. */
  ghost predicate AllStorable(run: seq<R.Moment>) {
    forall j :: 0 <= j < |run| && R.TakesReply(run[j]) ==> Storable(run[j].event.p.quests, run[j].event.p.ans)
  }

  /** The step takes the packet, and `sent` is what it puts on the wire. */
  ghost predicate Handles(net: Net, m: R.Moment, r: Received, sent: Sent) {
    && net.Lawful() && m.event.Datagram? && Parsed(net, r.buf) == Some(m.event.p)
    && m.event.from == r.from && m.event.now == r.now && Puts(net, m.out, sent)
  }

  /** `run` is a run to the state `s`, up to rotations, and every response in it met its condition. */
  ghost predicate Ran(cfg: R.Config, run: seq<R.Moment>, s: R.State) {
    R.IsRun(cfg, run) && AllStorable(run) && R.Reordered(R.StateAt(run, |run|), s)
  }

  lemma {:induction false} RunGrows(cfg: R.Config, run: seq<R.Moment>, m: R.Moment)
    requires Ran(cfg, run, m.before) && R.IsMoment(cfg, m)
    requires R.TakesReply(m) ==> Storable(m.event.p.quests, m.event.p.ans)
    ensures Ran(cfg, run + [m], m.after)
  {
    assert (run + [m])[..|run|] == run;
  }

  lemma {:induction false} RunScans(cfg: R.Config, run: seq<R.Moment>, s: R.State, now: int, t: R.State)
    requires R.Fits(cfg, s) && Ran(cfg, run, s) && t == R.State(Keep(Live(now), s.cache), s.ids)
    ensures Ran(cfg, run + [R.Moment(s, R.Expire(now), R.Silent, t)], t)
  {
    RunGrows(cfg, run, R.Moment(s, R.Expire(now), R.Silent, t));
  }

  /** After a run whose responses met their condition, a fair query can be answered. */
  lemma {:induction false} CanHandle(cfg: R.Config, run: seq<R.Moment>, s: R.State, p: Message, now: int)
    requires Ran(cfg, run, s)
    ensures Stocked(s.cache)
    ensures R.Fair(cfg.hosts, run, |run|, p.quests) ==> Deliverable(s.cache, cfg.hosts, p.quests, now)
  {
    R.RunStocks(cfg, run, |run|);
    R.ReorderedMembers(R.StateAt(run, |run|), s);
    if R.Fair(cfg.hosts, run, |run|, p.quests) {
      R.FairIsDeliverable(cfg, run, |run|, s.cache, p.quests, now);
    }
  }

  /** `run` goes on from `before` with one step for each packet handled. */
  ghost predicate Continues(net: Net, before: seq<R.Moment>, run: seq<R.Moment>, packets: seq<Received>,
                            sents: seq<Sent>) {
    && |run| == |before| + |sents| && run[..|before|] == before && |sents| <= |packets|
    && forall i :: 0 <= i < |sents| ==> Handles(net, run[|before| + i], packets[i], sents[i])
  }

  lemma {:induction false} ContinuesNext(net: Net, before: seq<R.Moment>, was: seq<R.Moment>, run: seq<R.Moment>,
                                         packets: seq<Received>, sents: seq<Sent>, sent: Sent)
    requires Continues(net, before, was, packets, sents) && |run| == |was| + 1 && run[..|was|] == was
    requires |sents| < |packets| && Handles(net, run[|was|], packets[|sents|], sent)
    ensures Continues(net, before, run, packets, sents + [sent])
  {
    forall i | 0 <= i <= |sents|
      ensures Handles(net, run[|before| + i], packets[i], (sents + [sent])[i])
    {
      assert i < |sents| ==> run[|before| + i] == was[|before| + i];
    }
    assert run[..|before|] == run[..|was|][..|before|];
  }

  lemma {:induction false} UntoldIsUnknown(net: Net, hosts: HostData, before: seq<R.Moment>, run: seq<R.Moment>,
                                           packets: seq<Received>, sents: seq<Sent>, q: Quest)
    requires Continues(net, before, run, packets, sents) && !Told(net, hosts, before, packets, |sents|, q)
    ensures !R.Known(hosts, run, |run|, q)
  {
    forall j | 0 <= j < |run| && run[j].event.Datagram?
      ensures !R.Heard(run[j].event.p, q)
    {
      if j < |before| {
        assert run[j] == before[j];
      } else {
        assert Handles(net, run[|before| + (j - |before|)], packets[j - |before|], sents[j - |before|]);
        assert !Tells(net, packets[j - |before|], q);
      }
    }
  }

  lemma {:induction false} FairNext(net: Net, hosts: HostData, before: seq<R.Moment>, run: seq<R.Moment>,
                                    packets: seq<Received>, sents: seq<Sent>)
    requires Continues(net, before, run, packets, sents) && |sents| < |packets| && AllFair(net, hosts, before, packets)
    requires Parsed(net, packets[|sents|].buf).Some?
    ensures var p := Parsed(net, packets[|sents|].buf).value;
            !R.IsResponse(p) ==> R.Fair(hosts, run, |run|, p.quests)
  {
    var p := Parsed(net, packets[|sents|].buf).value;
    assert FairPacket(net, hosts, before, packets, |sents|);
    if n :| !R.IsResponse(p) && 0 <= n < |p.quests| && !Told(net, hosts, before, packets, |sents|, p.quests[n]) {
      UntoldIsUnknown(net, hosts, before, run, packets, sents, p.quests[n]);
    }
  }

  class Server {
    const net: Net
    const resolver: Q.Resolver
    const ids: I.IdMap

    ghost predicate Valid()
      reads resolver.cache, resolver.cache.list, resolver.cache.ring, resolver.cache.ring.next
      reads resolver.cache.ring.prev, resolver.cache.occupied
      reads resolver.hosts, resolver.hosts.table, resolver.hosts.table.bks, resolver.hosts.table.nodes
      reads resolver.hosts.lists
      reads ids
    {
      net.Lawful() && resolver.Valid() && ids.Valid()
    }

    ghost function View(): R.State
      requires resolver.cache.Valid() && ids.Valid()
      reads resolver.cache, resolver.cache.list, resolver.cache.ring, resolver.cache.ring.next
      reads resolver.cache.ring.prev, resolver.cache.occupied, ids, ids.table
    {
      R.State(resolver.cache.Contents(), ids.Abs())
    }

    constructor (net: Net, resolver: Q.Resolver, ids: I.IdMap)
      ensures this.net == net && this.resolver == resolver && this.ids == ids
    {
      this.net, this.resolver, this.ids := net, resolver, ids;
    }

    method StoreRecords(p: Packet, ghost parcel: R.Parcel, now: int)
      requires Valid() && p.View() == parcel && p.ancount == |p.ans|
      modifies resolver.cache, resolver.cache.list, resolver.cache.occupied
      modifies resolver.cache.ring, resolver.cache.ring.next, resolver.cache.ring.prev
      ensures Valid() && resolver.Data() == old(resolver.Data())
      ensures p.View() == parcel
      ensures resolver.cache.Contents()
           == StoreAll(resolver.cache.cap, old(resolver.cache.Contents()), parcel.quests, parcel.ans, now)
    {
      resolver.UrlStore(p, now);
    }

    /** A response: its records are stored, and it goes to the client whose query it answers. */
    method HandleResponse(p: Packet, ghost parcel: R.Parcel, now: int) returns (sent: Sent)
      requires Valid() && p.View() == parcel && p.ancount == |p.ans|
      modifies resolver.cache, resolver.cache.list, resolver.cache.occupied
      modifies resolver.cache.ring, resolver.cache.ring.next, resolver.cache.ring.prev, ids.table
      ensures Valid() && resolver.Data() == old(resolver.Data())
      ensures var (s, out) := R.OnResponse(resolver.cache.cap, old(View()), parcel, now);
              View() == s && Puts(net, out, sent)
    {
      StoreRecords(p, parcel, now);
      ids.Kept();
      sent := PassOn(p.buf, p.id);
    }

    /** The response goes to the client that holds its ID, under that client's own ID. */
    method PassOn(buf: seq<byte>, id: u16) returns (sent: Sent)
      requires Valid() && |buf| >= 2
      modifies ids.table
      ensures Valid() && resolver.Data() == old(resolver.Data())
      ensures resolver.cache.Contents() == old(resolver.cache.Contents())
      ensures var (t, r) := I.Take(old(ids.Abs()), id);
              ids.Abs() == t && sent == if r.Some? then ToClient(r.value.1, R.WithId(buf, r.value.0)) else Nothing
    {
      var r := ids.QueryMap(id);
      sent := if r.Some? then ToClient(r.value.1, R.WithId(buf, r.value.0)) else Nothing;
    }

    /** The lookup, with the answers left in the packet. */
    method LookUp(p: Packet, ghost parcel: R.Parcel, now: int, ghost r: Composed) returns (ret: int)
      requires Valid() && p.View() == parcel
      requires r == Answered(resolver.cache.Contents(), resolver.Data(), parcel.quests, now) && |r.loaded| < 0x1_0000
      modifies p`ans, p`ancount, resolver.cache, resolver.cache.ring, resolver.cache.ring.next, resolver.cache.ring.prev
      ensures Valid() && resolver.Data() == old(resolver.Data())
      ensures resolver.cache.Contents() == r.cache && ret == r.ret && Loaded(p, parcel, r)
    {
      ret := resolver.UrlQuery(p, now);
    }

    /** The query goes upstream under a new ID, unless the map is busy. */
    method AskUpstream(buf: seq<byte>, id: u16, from: I.Address, now: int) returns (sent: Sent)
      requires Valid() && |buf| >= 2
      modifies ids, ids.table
      ensures Valid() && resolver.Data() == old(resolver.Data())
      ensures resolver.cache.Contents() == old(resolver.cache.Contents())
      ensures var (t, serial) := I.Add(old(ids.Abs()), id, from, now);
              ids.Abs() == t && sent == if serial == I.BUSY then Nothing else ToUpstream(R.WithId(buf, serial))
    {
      var serial := ids.AddToMap(id, Some(from), now);
      sent := if serial == I.BUSY then Nothing else ToUpstream(R.WithId(buf, serial));
    }

    /** The relay's own response to a query. */
    method Reply(p: Packet, heap: Heap, to: I.Address, ghost query: R.Parcel, ghost ans: seq<Answer>)
        returns (sent: Sent)
      requires Valid() && Settled(heap) && p.Sendable() && p.ans[..p.ancount] == ans
      requires p.buf == query.buf && p.flags == query.flags && p.quests == query.quests
      modifies p`ans
      ensures Valid() && resolver.Data() == old(resolver.Data())
      ensures resolver.cache.Contents() == old(resolver.cache.Contents()) && ids.Abs() == old(ids.Abs())
      ensures Puts(net, R.Respond(to, query, ans), sent)
    {
      var sending := p.ans[..p.ancount];
      TextsAreHeld(heap, p.quests, sending);
      var dest, len := ResponseFormat(net, p, Texts(heap, sending));
      sent := ToClient(to, dest[..len]);
    }

    /** What follows the lookup `r` of a query that the relay received in state `s`. */
    method Conclude(p: Packet, heap: Heap, ghost parcel: R.Parcel, from: I.Address, now: int, ret: int,
                    ghost s: R.State, ghost r: Composed)
      returns (sent: Sent)
      requires Valid()
      requires Loaded(p, parcel, r) && AllSupported(parcel.quests, SentOf(r)) && Named(parcel.quests) && Settled(heap)
      requires ret == r.ret && View() == R.State(r.cache, s.ids)
      modifies p`ans, ids, ids.table
      ensures Valid() && resolver.Data() == old(resolver.Data())
      ensures var (t, out) := R.OnFound(s, parcel, from, now, r);
              View() == t && Puts(net, out, sent)
    {
      if ret == 0 {
        sent := AskUpstream(p.buf, p.id, from, now);
      } else {
        sent := Reply(p, heap, from, parcel, SentOf(r));
      }
    }

    /** A query: answered from the cache or the host table, or else sent upstream under a new ID. */
    method HandleQuery(p: Packet, heap: Heap, ghost parcel: R.Parcel, from: I.Address, now: int, ghost r: Composed)
        returns (sent: Sent)
      requires Valid() && p.View() == parcel
      requires r == Answered(resolver.cache.Contents(), resolver.Data(), p.quests, now)
      requires |r.loaded| < 0x1_0000 && AllSupported(parcel.quests, SentOf(r)) && Named(parcel.quests) && Settled(heap)
      modifies p`ans, p`ancount, resolver.cache, resolver.cache.ring, resolver.cache.ring.next, resolver.cache.ring.prev
      modifies ids, ids.table
      ensures Valid() && resolver.Data() == old(resolver.Data())
      ensures var (s, out) := R.OnFound(old(View()), parcel, from, now, r);
              View() == s && Puts(net, out, sent)
    {
      ghost var s := View();
      var ret := LookUp(p, parcel, now, r);
      ids.Kept();
      sent := Conclude(p, heap, parcel, from, now, ret, s, r);
    }

    method Receive(buf: seq<byte>) returns (p: Packet, ghost parcel: Message)
      requires Parsed(net, buf).Some?
      ensures fresh(p) && p.View() == parcel && Parsed(net, buf) == Some(parcel)
      ensures |p.buf| >= 12 && p.ancount == |p.ans| && Named(p.quests)
    {
      p := PacketParse(net, buf);
      parcel := p.View();
      ParsedShape(net, buf, parcel);
    }

    /**
     One received packet. What a query finds must be sendable and no more than a packet counts; the
     cache stays one whose records can be sent as long as responses meet their condition.
     */
    method ConnectHandle(buf: seq<byte>, heap: Heap, from: I.Address, now: int) returns (sent: Sent)
      requires Valid() && |buf| <= 1024 && Parsed(net, buf).Some? && Settled(heap)
      requires Accepts(Parsed(net, buf).value, now)
      modifies resolver.cache, resolver.cache.list, resolver.cache.occupied
      modifies resolver.cache.ring, resolver.cache.ring.next, resolver.cache.ring.prev, ids, ids.table
      ensures Valid() && resolver.Data() == old(resolver.Data())
      ensures var (s, out) := R.Step(Config(), old(View()), R.Datagram(Parsed(net, buf).value, from, now));
              View() == s && Puts(net, out, sent)
    {
      var p, parcel := Receive(buf);
      if p.flags / 0x8000 == 1 {
        sent := HandleResponse(p, parcel, now);
      } else {
        ghost var r := Answered(resolver.cache.Contents(), resolver.Data(), parcel.quests, now);
        LoadedCanBeSent(resolver.cache.cap, net, buf, parcel, resolver.cache.Contents(), resolver.Data(), now);
        sent := HandleQuery(p, heap, parcel, from, now, r);
      }
    }

    /** The receive loop, resumed after the run `before`: the packets are handled one after the other. */
    method Serve(packets: seq<Received>, ghost cfg: R.Config, ghost before: seq<R.Moment>)
      returns (sents: seq<Sent>, ghost run: seq<R.Moment>)
      requires Valid() && cfg == Config() && Ran(cfg, before, View())
      requires AllReceivable(net, cfg, packets) && AllFair(net, cfg.hosts, before, packets)
      modifies resolver.cache, resolver.cache.list, resolver.cache.occupied
      modifies resolver.cache.ring, resolver.cache.ring.next, resolver.cache.ring.prev, ids, ids.table
      ensures Valid() && cfg == Config() && Ran(cfg, run, View())
      ensures |sents| == |packets| && Continues(net, before, run, packets, sents)
    {
      sents, run := [], before;
      for i := 0 to |packets|
        invariant Valid() && cfg == Config() && Ran(cfg, run, View())
        invariant |sents| == i && Continues(net, before, run, packets, sents)
      {
        ghost var was := run;
        FairNext(net, cfg.hosts, before, was, packets, sents);
        var sent;
        sent, run := ServeNext(packets[i], cfg, was);
        ContinuesNext(net, before, was, run, packets, sents, sent);
        sents := sents + [sent];
      }
    }

    method ServeNext(r: Received, ghost cfg: R.Config, ghost was: seq<R.Moment>)
        returns (sent: Sent, ghost run: seq<R.Moment>)
      requires Valid() && cfg == Config() && Ran(cfg, was, View()) && Receivable(net, cfg, r)
      requires var p := Parsed(net, r.buf).value; !R.IsResponse(p) ==> R.Fair(cfg.hosts, was, |was|, p.quests)
      modifies resolver.cache, resolver.cache.list, resolver.cache.occupied
      modifies resolver.cache.ring, resolver.cache.ring.next, resolver.cache.ring.prev, ids, ids.table
      ensures Valid() && cfg == Config() && Ran(cfg, run, View())
      ensures |run| == |was| + 1 && run[..|was|] == was && Handles(net, run[|was|], r, sent)
    {
      ghost var s, e := View(), R.Datagram(Parsed(net, r.buf).value, r.from, r.now);
      CanHandle(cfg, was, s, e.p, r.now);
      sent := ConnectHandle(r.buf, r.heap, r.from, r.now);
      ghost var m := R.Moment(s, e, R.Step(cfg, s, e).1, View());
      RunGrows(cfg, was, m);
      run := was + [m];
    }

    method ScanRecords(now: int) returns (flag: bool)
      requires Valid()
      modifies resolver.cache, resolver.cache.list, resolver.cache.occupied
      modifies resolver.cache.ring, resolver.cache.ring.next, resolver.cache.ring.prev
      ensures Valid() && Config() == old(Config())
      ensures resolver.cache.Contents() == Keep(Live(now), old(resolver.cache.Contents()))
    {
      flag := resolver.Scan(now);
    }

    method FlushRecords() returns (ok: bool)
      requires Valid()
      modifies resolver.cache, resolver.cache.list, resolver.cache.occupied
      modifies resolver.cache.ring, resolver.cache.ring.next, resolver.cache.ring.prev
      ensures ok ==> Valid() && Config() == old(Config()) && resolver.cache.Contents() == []
    {
      ok := resolver.Flush();
    }

    method RotateRecords(slots: seq<int>) returns (ok: bool)
      requires Valid() && forall i :: 0 <= i < |slots| ==> 0 <= slots[i] < resolver.cache.cap
      modifies resolver.cache, resolver.cache.ring, resolver.cache.ring.next, resolver.cache.ring.prev
      ensures ok ==> Valid() && Config() == old(Config())
      ensures ok ==> multiset(resolver.cache.Contents()) == multiset(old(resolver.cache.Contents()))
    {
      ok := resolver.Rotate(slots);
    }

    /** A rotation that runs late, between two steps of the run; without `ok` it has followed a null link. */
    method RotateLate(slots: seq<int>, ghost cfg: R.Config, ghost run: seq<R.Moment>) returns (ok: bool)
      requires Valid() && cfg == Config() && Ran(cfg, run, View())
      requires forall i :: 0 <= i < |slots| ==> 0 <= slots[i] < resolver.cache.cap
      modifies resolver.cache, resolver.cache.ring, resolver.cache.ring.next, resolver.cache.ring.prev
      ensures ok ==> Valid() && cfg == Config() && Ran(cfg, run, View())
    {
      ghost var s := View();
      ok := RotateRecords(slots);
      if ok {
        ids.Kept();
        assert R.Reordered(s, View());
      }
    }

    /** The scan thread's round, as one step of the run. */
    method ScanCache(now: int, ghost cfg: R.Config, ghost was: seq<R.Moment>)
        returns (flag: bool, ghost run: seq<R.Moment>)
      requires Valid() && cfg == Config() && Ran(cfg, was, View())
      modifies resolver.cache, resolver.cache.list, resolver.cache.occupied
      modifies resolver.cache.ring, resolver.cache.ring.next, resolver.cache.ring.prev
      ensures Valid() && cfg == Config() && Ran(cfg, run, View())
      ensures run == was + [R.Moment(old(View()), R.Expire(now), R.Silent, View())]
    {
      ghost var s := View();
      flag := ScanRecords(now);
      ids.Kept();
      run := was + [R.Moment(s, R.Expire(now), R.Silent, View())];
      RunScans(cfg, was, s, now, View());
    }

    /** The console's flush, as one step of the run; without `ok` it has followed a null link. */
    method FlushCache(ghost cfg: R.Config, ghost was: seq<R.Moment>) returns (ok: bool, ghost run: seq<R.Moment>)
      requires Valid() && cfg == Config() && Ran(cfg, was, View())
      modifies resolver.cache, resolver.cache.list, resolver.cache.occupied
      modifies resolver.cache.ring, resolver.cache.ring.next, resolver.cache.ring.prev
      ensures ok ==> Valid() && cfg == Config() && Ran(cfg, run, View())
      ensures ok ==> run == was + [R.Moment(old(View()), R.Empty, R.Silent, View())]
    {
      ghost var s := View();
      run := was;
      ok := FlushRecords();
      if ok {
        ids.Kept();
        assert View() == R.State([], s.ids);
        ghost var m := R.Moment(s, R.Empty, R.Silent, View());
        RunGrows(cfg, was, m);
        run := was + [m];
      }
    }

    ghost function Config(): R.Config
      reads resolver.hosts
    {
      R.Config(resolver.cache.cap, resolver.Data())
    }

    /**
     A response with answers has a question; a query finds records that can be sent, or nothing, and
     not too many of them.
     */
    ghost predicate Accepts(p: Message, now: int)
      requires resolver.cache.Valid()
      reads resolver.cache, resolver.cache.list, resolver.cache.ring, resolver.cache.ring.next
      reads resolver.cache.ring.prev, resolver.cache.occupied, resolver.hosts
    {
      && |p.buf| >= 12 && (p.ans != [] ==> p.quests != [])
      && (!R.IsResponse(p) ==>
            && Stocked(resolver.cache.Contents()) && Moderate(resolver.cache.cap, resolver.Data(), p.quests)
            && Deliverable(resolver.cache.Contents(), resolver.Data(), p.quests, now))
    }
  }

  lemma {:induction false} LoadedCanBeSent(cap: nat, net: Net, buf: seq<byte>, p: Message, c: seq<Entry>,
                                           hosts: HostData, now: int)
    requires Parsed(net, buf) == Some(p) && |buf| <= 1024 && |c| <= cap && Stocked(c)
    requires Moderate(cap, hosts, p.quests) && Deliverable(c, hosts, p.quests, now)
    ensures var r := Answered(c, hosts, p.quests, now);
            |r.loaded| < 0x1_0000 && AllSupported(p.quests, SentOf(r))
  {
    ParsedBounds(net, buf, p);
    SentIsSupported(c, hosts, p.quests, now);
    LoadedFits(cap, c, hosts, p.quests, now);
  }

  /** The packet after its lookup. */
  ghost predicate Loaded(p: Packet, parcel: R.Parcel, r: Composed)
    reads p
  {
    |r.loaded| < 0x1_0000 && p.View() == parcel.(ans := r.loaded, ancount := if r.ret > 0 then |r.loaded| else 0)
  }

  /** The host table is loaded, and the empty cache laid beside it. */
  method Open(cap: nat, exist: bool, input: seq<H.Line>, blank: Entry, now: int) returns (r: Q.Resolver)
    requires 0 < cap
    ensures r.Valid() && r.cache.Contents() == [] && r.cache.cap == cap && r.Data() == HostData(exist, input, now)
  {
    var hosts := new T.Hosts(now);
    hosts.Load(input);
    var cache := new C.LruCache(cap, blank);
    r := new Q.Resolver(cache, hosts, exist);
  }

  /** The server as it starts: an empty cache and ID map, and the lines of the host file. */
  method Launch(net: Net, cap: nat, exist: bool, input: seq<H.Line>, blank: Entry, now: int) returns (s: Server)
    requires net.Lawful() && 0 < cap
    ensures s.Valid() && s.net == net
    ensures s.View() == R.Start() && s.Config() == R.Config(cap, HostData(exist, input, now))
  {
    var resolver := Open(cap, exist, input, blank, now);
    var ids := new I.IdMap();
    s := new Server(net, resolver, ids);
  }

  /**
   The bytes put on the wire for a query go to its sender, who reads the answers of the run's step in
   them exactly when their pointers lead to their suffixes and no answer stands behind anything but
   the questions.
   */
  lemma {:induction false} SentIsRead(net: Net, cfg: R.Config, run: seq<R.Moment>, k: nat, p: R.Parcel,
                                      ans: seq<Answer>, sent: Sent)
    requires net.Lawful() && R.IsRun(cfg, run) && k < |run| && R.Proper(net, cfg, run, k, p, ans)
    requires Puts(net, R.Respond(run[k].event.from, p, ans), sent)
    ensures sent.ToClient? && sent.to == run[k].event.from && AllSupported(p.quests, ans)
    ensures Parsed(net, sent.bytes).Some? && R.Conveys(Parsed(net, sent.bytes).value, p, ans)
       <==> AllPlaced(p.quests, ans) && (IsQuery(p.buf, p.quests) || ans == [])
    ensures forall i :: 0 <= i < |ans| ==> R.HasSource(cfg.hosts, run, k, ans[i])
  {
    R.ClientReadsSourced(net, cfg, run, k, p, ans);
  }
}
