/** The resolver: storing responses and answering queries from the cache and the host table. */
module Query {
  import opened Bytes
  import opened LruList
  import opened PacketCodec
  import opened Packet
  import opened Answering
  import C = LruCache
  import H = HostTable

  /** The cache, the host table, and whether a host file was read. */
  class Resolver {
    const cache: C.LruCache
    const hosts: H.Hosts
    const hostExist: bool

    ghost predicate Valid()
      reads cache, cache.list, cache.ring, cache.ring.next, cache.ring.prev, cache.occupied
      reads hosts, hosts.table, hosts.table.bks, hosts.table.nodes, hosts.lists
    {
      cache.Valid() && hosts.Valid()
    }

    ghost function Data(): HostData
      reads hosts
    {
      HostData(hostExist, hosts.lines, hosts.loaded)
    }

    constructor (cache: C.LruCache, hosts: H.Hosts, hostExist: bool)
      ensures this.cache == cache && this.hosts == hosts && this.hostExist == hostExist
    {
      this.cache, this.hosts, this.hostExist := cache, hosts, hostExist;
    }

    /** The expiry scan of the cache. */
    method Scan(now: int) returns (flag: bool)
      requires Valid()
      modifies cache, cache.list, cache.ring, cache.ring.next, cache.ring.prev, cache.occupied
      ensures Valid() && Data() == old(Data())
      ensures cache.Contents() == Keep(Live(now), old(cache.Contents()))
    {
      flag := cache.Scan(now);
      assert hosts.Valid();
    }

    /** A rotation of remembered slots; without `ok` it has followed a null link. */
    method Rotate(slots: seq<int>) returns (ok: bool)
      requires Valid() && forall i :: 0 <= i < |slots| ==> 0 <= slots[i] < cache.cap
      modifies cache, cache.ring, cache.ring.next, cache.ring.prev
      ensures ok ==> Valid() && Data() == old(Data()) && multiset(cache.Contents()) == multiset(old(cache.Contents()))
    {
      ok := cache.RotateKeeping(slots);
      assert hosts.Valid();
    }

    /** The flush of the cache; without `ok` it has followed a null link. */
    method Flush() returns (ok: bool)
      requires Valid()
      modifies cache, cache.list, cache.ring, cache.ring.next, cache.ring.prev, cache.occupied
      ensures ok ==> Valid() && Data() == old(Data()) && cache.Contents() == []
    {
      ok := cache.Flush();
      assert hosts.Valid();
    }

    /** One round of the storing loop. */
    method StoreAnswer(q: Quest, a: Answer, now: int)
      requires Valid()
      modifies cache, cache.list, cache.ring, cache.ring.next, cache.ring.prev, cache.occupied
      ensures Valid() && Data() == old(Data())
      ensures cache.Contents()
           == if a.rtype != q.qtype then old(cache.Contents())
              else LruList.Insert(cache.cap, old(cache.Contents()), RecordOf(q, a, now))
    {
      if a.rtype != q.qtype {
        return;
      }
      cache.Insert(RecordOf(q, a, now));
      assert hosts.Valid();
    }

    /** Stores the answers of an upstream response that have its first question's type. */
    method UrlStore(p: Packet, now: int)
      requires Valid() && p.ancount == |p.ans| && (p.ans != [] ==> p.quests != [])
      modifies cache, cache.list, cache.ring, cache.ring.next, cache.ring.prev, cache.occupied
      ensures Valid() && Data() == old(Data())
      ensures cache.Contents() == StoreAll(cache.cap, old(cache.Contents()), p.quests, p.ans, now)
      ensures p.ans != [] ==>
                cache.Contents() == First(Latest(p.quests[0], p.ans, now) + old(cache.Contents()), cache.cap)
    {
      var ans := p.ans;
      if ans != [] {
        StoreIsLatest(cache.cap, cache.Contents(), p.quests[0], ans, now);
        StoreAnswers(p.quests[0], ans, now);
      }
    }

    method StoreAnswers(q: Quest, ans: seq<Answer>, now: int)
      requires Valid()
      modifies cache, cache.list, cache.ring, cache.ring.next, cache.ring.prev, cache.occupied
      ensures Valid() && Data() == old(Data())
      ensures cache.Contents() == Store(cache.cap, old(cache.Contents()), q, ans, now)
    {
      ghost var c := cache.Contents();
      for i := 0 to |ans|
        invariant Valid() && Data() == old(Data())
        invariant cache.Contents() == Store(cache.cap, c, q, ans[..i], now)
      {
        assert ans[..i + 1][..i] == ans[..i];
        StoreAnswer(q, ans[i], now);
      }
      assert ans[..|ans|] == ans;
    }

    method LookUp(name: Text, rtype: byte, now: int) returns (found: seq<Entry>)
      requires Valid()
      modifies cache, cache.ring, cache.ring.next, cache.ring.prev
      ensures Valid() && Data() == old(Data())
      ensures found == Keep(Hit(name, rtype, now), old(cache.Contents()))
      ensures cache.Contents() == Touch(old(cache.Contents()), Hit(name, rtype, now))
    {
      found := cache.Lookup(name, rtype, now);
      assert hosts.Valid();
    }

    /** One question: the cache first, the host table when it has nothing. */
    method QnameSearch(qname: Text, qtype: u16, ghost qclass: u16, now: int) returns (ret: int, found: seq<Entry>)
      requires Valid()
      modifies cache, cache.ring, cache.ring.next, cache.ring.prev
      ensures Valid() && Data() == old(Data())
      ensures (ret, found) == Search(old(cache.Contents()), Data(), Quest(qname, qtype, qclass), now)
      ensures cache.Contents() == Touch(old(cache.Contents()), HitOf(Quest(qname, qtype, qclass), now))
    {
      found := LookUp(qname, Narrow(qtype), now);
      ret := |found|;
      if ret == 0 && hostExist {
        ret, found := hosts.Query(qname, Narrow(qtype), now);
      }
    }

    /** One question of a query: its records are loaded behind the answers so far. */
    method QueryNext(i: nat, q: Quest, loaded: seq<Answer>, now: int) returns (n: int, ans: seq<Answer>)
      requires Valid()
      modifies cache, cache.ring, cache.ring.next, cache.ring.prev
      ensures Valid() && Data() == old(Data())
      ensures var (m, found) := Search(old(cache.Contents()), Data(), q, now);
              n == m && ans == if n <= 0 then loaded else loaded + Load(i, q, found, now)
      ensures cache.Contents() == Touch(old(cache.Contents()), HitOf(q, now))
    {
      var found;
      n, found := QnameSearch(q.qname, q.qtype, q.qclass, now);
      ans := loaded;
      if n > 0 {
        var more := LoadAll(i, q, found, now);
        ans := ans + more;
      }
    }

    /** The loop over the questions. */
    method QueryAll(quests: seq<Quest>, now: int) returns (ret: int, ans: seq<Answer>)
      requires Valid()
      modifies cache, cache.ring, cache.ring.next, cache.ring.prev
      ensures Valid() && Data() == old(Data())
      ensures Composed(ret, ans, cache.Contents()) == Answered(old(cache.Contents()), Data(), quests, now)
    {
      ghost var all := Answered(cache.Contents(), Data(), quests, now);
      ans := [];
      for i := 0 to |quests|
        invariant Valid() && Data() == old(Data())
        invariant Compose(cache.Contents(), Data(), quests, i, ans, now) == all
      {
        var n;
        n, ans := QueryNext(i, quests[i], ans, now);
        if n <= 0 {
          return n, ans;
        }
      }
      ret := |ans|;
    }

    /** Answers a query: loads the answers into the packet; a miss or a blocked name leaves the count 0. */
    method UrlQuery(p: Packet, now: int) returns (ret: int)
      requires Valid() && |Answered(cache.Contents(), Data(), p.quests, now).loaded| < 0x1_0000
      modifies p`ans, p`ancount, cache, cache.ring, cache.ring.next, cache.ring.prev
      ensures Valid() && Data() == old(Data())
      ensures var r := Answered(old(cache.Contents()), Data(), p.quests, now);
              && ret == r.ret && cache.Contents() == r.cache
              && p.View() == old(p.View()).(ans := r.loaded, ancount := if ret > 0 then |r.loaded| else 0)
    {
      var quests, ans := p.quests, [];
      ret, ans := QueryAll(quests, now);
      p.SetAnswers(ans, if ret > 0 then |ans| else 0);
    }
  }

  /** The inner loop: one answer per record. */
  method LoadAll(i: nat, q: Quest, found: seq<Entry>, now: int) returns (ans: seq<Answer>)
    ensures ans == Load(i, q, found, now)
  {
    ans := [];
    for j := 0 to |found|
      invariant ans == Load(i, q, found, now)[..j]
    {
      ans := ans + [AnswerOf(i, q, found[j], now)];
    }
  }
}
