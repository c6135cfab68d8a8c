/**
 The record cache as it is stored: a slot array threaded by a circular list, an occupancy array
 and a counter. Each method is one locked region; its contract equates the new state with the
 slot-level operation of module LruSlots. A method that returns `ok == false` has followed a
 null link.
 */
module LruCache {
  import opened Bytes
  import opened ListLinks
  import opened LruList
  import LS = LruSlots

  class LruCache {
    const cap: nat
    const list: array<Entry>
    const ring: Ring
    const occupied: array<bool>
    var length: int
    /** Last-use times, for specification only. */
    ghost var used: seq<nat>
    ghost var clock: nat

    ghost function Abs(): LS.Slots
      reads this, list, ring
    {
      LS.Slots(ring.order, list[..], used, clock)
    }

    ghost predicate Shape()
      reads this, list, ring, ring.next, ring.prev, occupied
    {
      && ring.Valid() && ring.n == cap
      && list.Length == occupied.Length == cap
    }

    ghost predicate Valid()
      reads this, list, ring, ring.next, ring.prev, occupied
    {
      && Shape()
      && (forall k :: 0 <= k < cap ==> (occupied[k] <==> k in ring.order))
      && length == |ring.order|
      && LS.Inv(Abs())
    }

    /** The records, most recently used first. */
    ghost function Contents(): (c: seq<Entry>)
      requires Valid()
      reads this, list, ring, ring.next, ring.prev, occupied
      ensures |c| == length <= cap && 0 < cap
    {
      LS.AtMostCapacity(ring.order, cap);
      LS.Contents(Abs())
    }

    constructor (cap: nat, blank: Entry)
      requires 0 < cap
      ensures Valid() && this.cap == cap && Contents() == []
      ensures fresh(list) && fresh(ring) && fresh(ring.next) && fresh(ring.prev) && fresh(occupied)
    {
      this.cap := cap;
      list := new Entry[cap](_ => blank);
      ring := new Ring(cap);
      occupied := new bool[cap](_ => false);
      length := 0;
      used := seq(cap, _ => 0);
      clock := 0;
    }

    method FindFree() returns (i: nat)
      requires Valid() && length < cap
      ensures i < cap && i !in ring.order
      ensures i == LS.FirstFree(ring.order, 0, cap)
    {
      i := 0;
      LS.FreeSlotExists(ring.order, cap);
      while i < cap
        invariant i <= cap
        invariant LS.FirstFree(ring.order, 0, cap) == LS.FirstFree(ring.order, i, cap)
      {
        if !occupied[i] {
          break;
        }
        i := i + 1;
      }
    }

    method ListAdd(e: Entry, k: nat)
      requires Shape() && k < cap && k !in ring.order
      modifies list, ring, ring.next, ring.prev
      ensures Shape() && ring.order == [k] + old(ring.order)
      ensures list[..] == old(list[..])[k := e]
    {
      list[k] := e;
      ring.AddHead(k);
    }

    method ListDel(k: nat) returns (ok: bool)
      requires Shape() && k < cap
      modifies ring, ring.next, ring.prev
      ensures Shape()
      ensures ok <==> k in old(ring.order)
      ensures ring.order == if ok then Without(old(ring.order), k) else old(ring.order)
    {
      ok := ring.Del(k);
    }

    method Insert(e: Entry)
      requires Valid()
      modifies this, list, ring, ring.next, ring.prev, occupied
      ensures Valid()
      ensures Abs() == LS.Insert(old(Abs()), e)
      ensures Contents() == LruList.Insert(cap, old(Contents()), e)
    {
      ghost var after := LS.Insert(Abs(), e);
      LS.InsertRefines(Abs(), e);
      Place(e);
      used, clock := after.used, after.clock;
    }

    /** The record goes to a free slot, or to the slot of the record it evicts. */
    method Place(e: Entry)
      requires Valid()
      modifies list, ring, ring.next, ring.prev, occupied, `length
      ensures Shape() && length == |ring.order|
      ensures ring.order == LS.Insert(old(Abs()), e).order && list[..] == LS.Insert(old(Abs()), e).recs
      ensures forall k :: 0 <= k < cap ==> (occupied[k] <==> k in ring.order)
    {
      LS.AtMostCapacity(ring.order, cap);
      if length < cap {
        InsertFree(e);
      } else {
        InsertFull(e);
      }
    }

    /** The branch that takes a free slot. */
    method InsertFree(e: Entry)
      requires Valid() && length < cap
      modifies list, ring, ring.next, ring.prev, occupied, `length
      ensures Shape() && length == old(length) + 1
      ensures var k := LS.InsertSlot(old(Abs()));
              && ring.order == [k] + old(ring.order)
              && list[..] == old(list[..])[k := e]
      ensures forall k :: 0 <= k < cap ==> (occupied[k] <==> k in ring.order)
    {
      var i := FindFree();
      ListAdd(e, i);
      occupied[i] := true;
      length := length + 1;
    }

    /** The slot that a full insert reuses ends the list. */
    lemma {:induction false} TailIsReused()
      requires Valid() && length >= cap
      ensures ring.order != [] && |ring.order| == cap && LS.InsertSlot(Abs()) == ring.prev[cap] == ring.order[cap - 1]
      ensures Without(ring.order, ring.order[cap - 1]) == ring.order[..cap - 1]
    {
      LS.AtMostCapacity(ring.order, cap);
      ring.LinkAt(cap);
      WithoutSplit(ring.order, cap - 1);
      assert ring.order[..cap - 1] + ring.order[cap..] == ring.order[..cap - 1];
    }

    /** The branch that evicts the record at the end of the list. */
    method InsertFull(e: Entry)
      requires Valid() && length >= cap
      modifies list, ring, ring.next, ring.prev
      ensures Shape()
      ensures var k := LS.InsertSlot(old(Abs()));
              && ring.order == [k] + old(ring.order)[..cap - 1]
              && list[..] == old(list[..])[k := e]
      ensures forall k :: 0 <= k < cap ==> (occupied[k] <==> k in ring.order)
    {
      ghost var before := ring.order;
      TailIsReused();
      var tail := ring.prev[cap];
      var last := ring.IsLast(tail);
      if last {
        assert before == before[..cap - 1] + [tail];
        var _ := ListDel(tail);
        ListAdd(e, tail);
      }
    }

    /** Copies out the unexpired records of a name and type, and remembers their slots. */
    method Query(name: Text, rtype: byte, now: int) returns (result: seq<Entry>, slots: seq<int>)
      requires Valid()
      ensures result == Keep(Hit(name, rtype, now), Contents())
      ensures slots == LS.KeepSlots(Hit(name, rtype, now), ring.order, list[..])
    {
      ghost var t, order, recs := Hit(name, rtype, now), ring.order, list[..];
      result, slots := [], [];
      var p := ring.next[cap];
      ring.LinkAt(0);
      ghost var i := 0;
      while p != cap
        invariant i <= |order| && p == At(order, cap, i + 1)
        invariant LS.InRange(order[..i], cap)
        invariant slots == LS.KeepSlots(t, order[..i], recs)
        invariant result == LS.Records(slots, recs)
        decreases |order| - i
      {
        var entry := list[p];
        LS.QueryPasses(t, order, recs, i, slots, result);
        if entry.name == name {
          if entry.timestamp >= now && entry.rtype == rtype {
            result := result + [entry];
            slots := slots + [p];
          }
        }
        ring.LinkAt(i + 1);
        p := ring.next[p];
        i := i + 1;
      }
      assert order[..i] == order;
      LS.KeepSlotsRecords(t, order, recs);
    }

    /** One rotation move. */
    method MoveFront(k: nat) returns (ok: bool)
      requires Valid() && k < cap
      modifies this, ring, ring.next, ring.prev
      ensures Valid()
      ensures ok <==> old(ring.order) == [] || k in old(ring.order)
      ensures Abs() == LS.MoveFront(old(Abs()), k)
    {
      ghost var after := LS.MoveFront(Abs(), k);
      LS.MoveFrontKeeps(Abs(), k);
      WithoutMembers(ring.order, k);
      ok := ring.RotateNodeHead(k);
      used, clock := after.used, after.clock;
      assert Abs() == after;
    }

    /** The detached half of a query: moves the remembered slots to the front, one by one. */
    method Rotate(slots: seq<int>) returns (ok: bool)
      requires Valid() && LS.InRange(slots, cap)
      modifies this, ring, ring.next, ring.prev
      ensures ok <==> LS.Safe(old(Abs()), LS.RotateAct(slots))
      ensures ok ==> Valid() && Abs() == LS.Rotate(old(Abs()), slots)
    {
      ghost var before := Abs();
      var i := 0;
      while i < |slots|
        invariant 0 <= i <= |slots| && Valid()
        invariant Abs() == LS.Rotate(before, slots[..i])
        invariant LS.Safe(before, LS.RotateAct(slots[..i]))
        modifies this, ring, ring.next, ring.prev
      {
        LS.RotateNext(before, slots, i);
        ok := MoveFront(slots[i]);
        if !ok {
          return false;
        }
        i := i + 1;
      }
      assert slots[..i] == slots;
      return true;
    }

    /** A rotation at any time keeps the stored records. */
    method RotateKeeping(slots: seq<int>) returns (ok: bool)
      requires Valid() && LS.InRange(slots, cap)
      modifies this, ring, ring.next, ring.prev
      ensures ok ==> Valid() && multiset(Contents()) == multiset(old(Contents()))
    {
      LS.RotateKeeps(Abs(), slots);
      ok := Rotate(slots);
    }

    /** A query whose rotation runs before anything else: it never follows a null link. */
    method Lookup(name: Text, rtype: byte, now: int) returns (result: seq<Entry>)
      requires Valid()
      modifies this, ring, ring.next, ring.prev
      ensures Valid()
      ensures result == Keep(Hit(name, rtype, now), old(Contents()))
      ensures Contents() == Touch(old(Contents()), Hit(name, rtype, now))
    {
      ghost var t, before := Hit(name, rtype, now), Abs();
      LS.HitsRotateInOrder(before, t);
      var slots;
      result, slots := Query(name, rtype, now);
      var ok := Rotate(slots);
      assert ok && Abs() == LS.Rotate(before, slots);
      LS.QueryRefines(before, t);
    }

    /** Unlinks one record and frees its slot. */
    method Drop(k: nat)
      requires Shape() && k < cap && k in ring.order
      requires forall j :: 0 <= j < cap ==> (occupied[j] <==> j in ring.order)
      modifies ring, ring.next, ring.prev, occupied, `length
      ensures Shape() && ring.order == Without(old(ring.order), k) && length == old(length) - 1
      ensures |ring.order| == |old(ring.order)| - 1
      ensures forall j :: 0 <= j < cap ==> (occupied[j] <==> j in ring.order)
    {
      WithoutMembers(ring.order, k);
      var _ := ListDel(k);
      occupied[k] := false;
      length := length - 1;
    }

    /** Deletes every expired record; `flag` says whether there was one. */
    method Scan(now: int) returns (flag: bool)
      requires Valid()
      modifies this, list, ring, ring.next, ring.prev, occupied
      ensures Valid()
      ensures Abs() == LS.Scan(old(Abs()), now)
      ensures Contents() == Keep(Live(now), old(Contents()))
      ensures flag <==> exists i :: 0 <= i < |old(Contents())| && old(Contents())[i].timestamp < now
    {
      ghost var c := Contents();
      LS.ScanRefines(Abs(), now);
      KeepAll(Live(now), c);
      flag := ScanList(now);
      assert Abs() == LS.Scan(old(Abs()), now);
      assert |Contents()| == length;
    }

    /** The scan has kept the slots `kept` and stands at `p`, the first of `rest`; in the end `all` will be listed. */
    ghost predicate Scanning(now: int, p: int, kept: seq<int>, rest: seq<int>, all: seq<int>)
      reads this, list, ring, ring.next, ring.prev, occupied
    {
      && Shape() && length == |ring.order| && ring.order == kept + rest && LS.InRange(rest, cap)
      && p == At(ring.order, cap, |kept| + 1)
      && all == kept + LS.KeepSlots(Live(now), rest, list[..])
      && forall k :: 0 <= k < cap ==> (occupied[k] <==> k in ring.order)
    }

    lemma {:induction false} ScanEnds(now: int, kept: seq<int>, rest: seq<int>, all: seq<int>)
      requires Scanning(now, cap, kept, rest, all)
      ensures ring.order == all
    {
      assert |ring.order| < |kept| + 1 && rest == [];
      assert kept + [] == kept;
    }

    /** The scan's loop over the list. */
    method ScanList(now: int) returns (flag: bool)
      requires Valid()
      modifies ring, ring.next, ring.prev, occupied, `length
      ensures Shape() && ring.order == LS.KeepSlots(Live(now), old(ring.order), list[..])
      ensures length == |ring.order| <= old(length) && (flag <==> length < old(length))
      ensures forall k :: 0 <= k < cap ==> (occupied[k] <==> k in ring.order)
    {
      ghost var all := LS.KeepSlots(Live(now), ring.order, list[..]);
      flag := false;
      var p := ring.next[cap];
      ring.LinkAt(0);
      ghost var kept: seq<int>, rest := [], ring.order;
      assert [] + all == all && [] + rest == rest;
      while p != cap
        invariant Scanning(now, p, kept, rest, all)
        invariant length <= old(length) && (flag <==> length < old(length))
        decreases |rest|
      {
        p, kept, rest, flag := ScanEntry(p, now, flag, kept, rest, all);
      }
      ScanEnds(now, kept, rest, all);
    }

    /** The body of the scan's loop. */
    method ScanEntry(p0: nat, now: int, flag0: bool, ghost kept0: seq<int>, ghost rest0: seq<int>, ghost all: seq<int>)
      returns (p: int, ghost kept: seq<int>, ghost rest: seq<int>, flag: bool)
      requires p0 < cap && Scanning(now, p0, kept0, rest0, all)
      modifies ring, ring.next, ring.prev, occupied, `length
      ensures Scanning(now, p, kept, rest, all) && rest0 != [] && rest == rest0[1..]
      ensures length <= old(length) && (flag <==> flag0 || length < old(length))
    {
      p, flag, rest := p0, flag0, rest0[1..];
      ScanStands(now, p, kept0, rest0, all);
      if list[p].timestamp < now {
        kept := kept0;
        p := ring.prev[p];
        DropEntry(p0, now, kept0, rest0, all);
        flag := true;
        ring.LinkAt(|kept|);
      } else {
        kept := kept0 + [p];
        assert kept + rest == kept0 + rest0;
      }
      p := ring.next[p];
    }

    lemma {:induction false} ScanStands(now: int, p: nat, kept: seq<int>, rest: seq<int>, all: seq<int>)
      requires p < cap && Scanning(now, p, kept, rest, all)
      ensures rest != [] && rest == [p] + rest[1..] && LS.InRange(rest[1..], cap)
      ensures ring.prev[p] == At(ring.order, cap, |kept|) && ring.next[p] == At(ring.order, cap, |kept| + 2)
      ensures var next := if list[p].timestamp < now then kept else kept + [p];
              all == next + LS.KeepSlots(Live(now), rest[1..], list[..])
    {
      ring.LinkAt(|kept|);
      ring.LinkAt(|kept| + 1);
      assert rest[0] == p && rest == [p] + rest[1..];
      LS.ScanPasses(Live(now), kept, rest, list[..]);
    }

    /** Deletes the entry at which the scan stands. */
    method DropEntry(p: nat, now: int, ghost kept: seq<int>, ghost rest: seq<int>, ghost all: seq<int>)
      requires p < cap && Scanning(now, p, kept, rest, all) && list[p].timestamp < now && rest != []
      modifies ring, ring.next, ring.prev, occupied, `length
      ensures Shape() && ring.order == kept + rest[1..] && length == old(length) - 1 == |ring.order|
      ensures forall k :: 0 <= k < cap ==> (occupied[k] <==> k in ring.order)
    {
      ScanStands(now, p, kept, rest, all);
      LS.WithoutMiddle(kept, rest);
      Drop(p);
    }

    /** The flush's loop: unlinks the slots `0..length`. */
    method UnlinkPrefix() returns (ok: bool)
      requires Valid()
      modifies ring, ring.next, ring.prev
      ensures ok <==> LS.Safe(old(Abs()), LS.FlushAct)
      ensures ok ==> Shape() && ring.order == []
    {
      ghost var before := ring.order;
      LS.AtMostCapacity(before, cap);
      var i := 0;
      while i < length
        invariant 0 <= i <= length == |before| <= cap && Shape()
        invariant forall k :: k in ring.order <==> k in before && k >= i
        invariant forall k :: 0 <= k < i ==> k in before
      {
        WithoutMembers(ring.order, i);
        ok := ListDel(i);
        if !ok {
          return false;
        }
        i := i + 1;
      }
      if ring.order != [] {
        WithoutMembers(before, ring.order[0]);
        LS.Covers(Without(before, ring.order[0]), length);
      }
      return true;
    }

    /**
     Empties the cache by unlinking slots `0..length`. It survives exactly when those are the
     occupied slots.
     */
    method Flush() returns (ok: bool)
      requires Valid()
      modifies this, list, ring, ring.next, ring.prev, occupied
      ensures ok <==> LS.Safe(old(Abs()), LS.FlushAct)
      ensures ok ==> Valid() && Abs() == LS.Flush(old(Abs()))
    {
      ok := UnlinkPrefix();
      if ok {
        forall k | 0 <= k < cap {
          occupied[k] := false;
        }
        ring.InitHead();
        length := 0;
      }
    }
  }
}
