/**
 The string hash table: a fixed array of buckets, each a singly linked list of nodes with a tail
 pointer and a counter. It refines a finite map.
 */
module HashTable {
  import opened Bytes

  const BUCKET_SIZE := 1024
  const FNV_PRIME := 16777619
  const OFFSET_BASIS: u32 := 2166136261

  /** Bitwise exclusive or. */
  function Xor(a: nat, b: nat): nat
    decreases a + b
  {
    if a == 0 && b == 0 then 0 else 2 * Xor(a / 2, b / 2) + (a + b) % 2
  }

  /** One round on 32-bit words: the byte is mixed in, then everything is multiplied. */
  function FnvRound(hash: u32, b: byte): u32 {
    Xor(hash, b) * FNV_PRIME % 0x1_0000_0000
  }

  function Fnv(s: seq<byte>): u32 {
    if s == [] then OFFSET_BASIS else FnvRound(Fnv(s[..|s| - 1]), s[|s| - 1])
  }

  /** The low ten bits of the hash. */
  function BucketOf(key: seq<byte>): (i: nat)
    ensures i < BUCKET_SIZE
  {
    Fnv(key) % BUCKET_SIZE
  }

  method Fnv32(s: seq<byte>) returns (hash: u32)
    ensures hash == Fnv(s)
  {
    hash := OFFSET_BASIS;
    for i := 0 to |s|
      invariant hash == Fnv(s[..i])
    {
      assert s[..i + 1][..i] == s[..i];
      hash := FnvRound(hash, s[i]);
    }
    assert s[..|s|] == s;
  }

  /** Mixing in twice undoes it. */
  lemma {:induction false} XorTwice(a: nat, b: nat)
    ensures Xor(Xor(a, b), b) == a
    decreases a + b
  {
    if a != 0 || b != 0 {
      var x, bit := Xor(a / 2, b / 2), (a + b) % 2;
      XorTwice(a / 2, b / 2);
      XorNext(x, b, bit);
      Parity(a, b);
    }
  }

  lemma {:induction false} Parity(a: nat, b: nat)
    ensures ((a + b) % 2 + b) % 2 == a % 2
  {
  }

  lemma {:induction false} XorZero(a: nat)
    ensures Xor(a, 0) == a
  {
    if a != 0 {
      XorZero(a / 2);
    }
  }

  lemma {:induction false} XorNext(x: nat, b: nat, bit: nat)
    requires bit < 2
    ensures Xor(2 * x + bit, b) == 2 * Xor(x, b / 2) + (bit + b) % 2
  {
    assert (2 * x + bit) / 2 == x;
  }

  lemma {:induction false} XorSwaps(a: nat, b: nat)
    ensures Xor(a, b) == Xor(b, a)
    decreases a + b
  {
    if a != 0 || b != 0 {
      XorSwaps(a / 2, b / 2);
    }
  }

  function Power(n: nat): nat {
    if n == 0 then 1 else 2 * Power(n - 1)
  }

  lemma {:induction false} XorBelow(a: nat, b: nat, n: nat)
    requires a < Power(n) && b < Power(n)
    ensures Xor(a, b) < Power(n)
  {
    if n > 0 {
      XorBelow(a / 2, b / 2, n - 1);
    }
  }

  lemma {:induction false} WordXor(h: u32, b: byte)
    ensures Xor(h, b) < 0x1_0000_0000
  {
    assert Power(8) == 0x100;
    assert Power(16) == 0x1_0000 by {
      assert Power(12) == 0x1000;
    }
    assert Power(24) == 0x100_0000 by {
      assert Power(20) == 0x10_0000;
    }
    assert Power(32) == 0x1_0000_0000 by {
      assert Power(28) == 0x1000_0000;
    }
    XorBelow(h, b, 32);
  }

  /** The multiplication can be undone modulo 2^32: 16777619 * 899433627 is 1 there. */
  lemma {:induction false} MultiplyBack(x: u32, y: u32)
    ensures x * 16777619 % 0x1_0000_0000 == y * 16777619 % 0x1_0000_0000 ==> x == y
  {
    Undone(x);
    Undone(y);
  }

  lemma {:induction false} Undone(n: u32)
    ensures n * 16777619 % 0x1_0000_0000 * 899433627 % 0x1_0000_0000 == n
  {
    var x: nat := n;
    var q, r := x * 16777619 / 0x1_0000_0000, x * 16777619 % 0x1_0000_0000;
    assert r == x * 16777619 - q * 0x1_0000_0000;
    assert r * 899433627 == x + (x * 3513497 - q * 899433627) * 0x1_0000_0000;
  }

  /** A round loses nothing of the hash, and nothing of the byte. */
  lemma {:induction false} RoundIsInjective(g: u32, h: u32, a: byte, b: byte)
    ensures FnvRound(g, a) == FnvRound(h, a) ==> g == h
    ensures FnvRound(h, a) == FnvRound(h, b) ==> a == b
  {
    WordXor(g, a);
    WordXor(h, a);
    WordXor(h, b);
    MultiplyBack(Xor(g, a), Xor(h, a));
    MultiplyBack(Xor(h, a), Xor(h, b));
    XorTwice(g, a);
    XorTwice(h, a);
    XorSwaps(h, a);
    XorSwaps(h, b);
    XorTwice(a, h);
    XorTwice(b, h);
  }

  /** Strings that differ in one byte never have the same hash. */
  lemma {:induction false} OneByteTells(s: seq<byte>, a: byte, b: byte, t: seq<byte>)
    ensures Fnv(s + [a] + t) == Fnv(s + [b] + t) ==> a == b
  {
    if t == [] {
      assert (s + [a] + t)[..|s|] == s && (s + [b] + t)[..|s|] == s;
      RoundIsInjective(Fnv(s), Fnv(s), a, b);
    } else {
      var n := |t| - 1;
      OneByteTells(s, a, b, t[..n]);
      assert (s + [a] + t)[..|s| + 1 + n] == s + [a] + t[..n];
      assert (s + [b] + t)[..|s| + 1 + n] == s + [b] + t[..n];
      RoundIsInjective(Fnv(s + [a] + t[..n]), Fnv(s + [b] + t[..n]), t[n], t[n]);
    }
  }

  /** Two published values of the 32-bit FNV-1a hash: of the empty string and of "a". */
  lemma {:induction false} FnvValues()
    ensures Fnv([]) == 0x811C_9DC5 && Fnv([97]) == 0xE40C_292C
  {
    XorZero(0x102393B);
    assert Xor(0x2047277, 1) == 0x2047276;
    assert Xor(0x408E4EE, 3) == 0x408E4ED;
    assert Xor(0x811C9DC, 6) == 0x811C9DA;
    assert Xor(0x102393B8, 12) == 0x102393B4;
    assert Xor(0x20472771, 24) == 0x20472769;
    assert Xor(0x408E4EE2, 48) == 0x408E4ED2;
    assert Xor(0x811C9DC5, 97) == 0x811C9DA4;
    assert [97][..0] == [];
  }

  class Node<V> {
    const key: seq<byte>
    var value: V
    var next: Node?<V>

    constructor (key: seq<byte>, value: V)
      ensures this.key == key && this.value == value && next == null
    {
      this.key, this.value := key, value;
      next := null;
    }
  }

  // ---------------------------------------------------------------- lists of pairs as maps

  ghost predicate UniqueKeys<V>(items: seq<(seq<byte>, V)>) {
    forall i, j :: 0 <= i < j < |items| ==> items[i].0 != items[j].0
  }

  ghost function DictOf<V>(items: seq<(seq<byte>, V)>): map<seq<byte>, V> {
    if items == [] then map[] else DictOf(items[1..])[items[0].0 := items[0].1]
  }

  /** The index of a key, or the length. */
  ghost function IndexOf<V>(items: seq<(seq<byte>, V)>, key: seq<byte>): (i: nat)
    ensures i <= |items| && (i < |items| ==> items[i].0 == key)
  {
    if items == [] || items[0].0 == key then 0 else 1 + IndexOf(items[1..], key)
  }

  lemma {:induction false} DictHas<V>(items: seq<(seq<byte>, V)>, key: seq<byte>)
    ensures key in DictOf(items) <==> IndexOf(items, key) < |items|
    ensures key in DictOf(items) ==> DictOf(items)[key] == items[IndexOf(items, key)].1
  {
    if items != [] {
      DictHas(items[1..], key);
    }
  }

  lemma {:induction false} IndexIs<V>(items: seq<(seq<byte>, V)>, key: seq<byte>, i: nat)
    requires i <= |items| && (i < |items| ==> items[i].0 == key)
    requires forall j :: 0 <= j < i ==> items[j].0 != key
    ensures IndexOf(items, key) == i
  {
    if i != 0 {
      IndexIs(items[1..], key, i - 1);
    }
  }

  lemma {:induction false} DictAppend<V>(items: seq<(seq<byte>, V)>, key: seq<byte>, v: V)
    requires key !in DictOf(items)
    ensures DictOf(items + [(key, v)]) == DictOf(items)[key := v]
  {
    if items == [] {
      assert DictOf<V>([(key, v)][1..]) == map[];
      assert items + [(key, v)] == [(key, v)];
    } else {
      DictAppend(items[1..], key, v);
      assert (items + [(key, v)])[1..] == items[1..] + [(key, v)];
    }
  }

  lemma {:induction false} DictUpdate<V>(items: seq<(seq<byte>, V)>, i: nat, v: V)
    requires UniqueKeys(items) && i < |items|
    ensures DictOf(items[i := (items[i].0, v)]) == DictOf(items)[items[i].0 := v]
  {
    if i == 0 {
      assert items[0 := (items[0].0, v)][1..] == items[1..];
    } else {
      DictUpdate(items[1..], i - 1, v);
      assert items[i := (items[i].0, v)][1..] == items[1..][i - 1 := (items[i].0, v)];
      assert items[0].0 != items[i].0;
    }
  }

  ghost function Drop<T>(s: seq<T>, i: nat): (r: seq<T>)
    requires i < |s|
    ensures |r| == |s| - 1
    ensures forall j :: 0 <= j < |r| ==> r[j] == s[if j < i then j else j + 1]
  {
    s[..i] + s[i + 1..]
  }

  lemma {:induction false} DictRemove<V>(items: seq<(seq<byte>, V)>, i: nat)
    requires UniqueKeys(items) && i < |items|
    ensures UniqueKeys(Drop(items, i))
    ensures DictOf(Drop(items, i)) == DictOf(items) - {items[i].0}
  {
    DictDrop(items, i, Drop(items, i), items[i].0);
  }

  lemma {:induction false} DictDrop<V>(items: seq<(seq<byte>, V)>, i: nat, less: seq<(seq<byte>, V)>, key: seq<byte>)
    requires UniqueKeys(items) && i < |items| && less == Drop(items, i) && key == items[i].0
    ensures DictOf(less) == DictOf(items) - {key}
  {
    var x, tail := items[0], items[1..];
    if i == 0 {
      assert less == tail;
      IndexIs(tail, key, |tail|);
      DictHas(tail, key);
    } else {
      assert items == [x] + tail && less == [x] + Drop(tail, i - 1);
      DictDrop(tail, i - 1, Drop(tail, i - 1), key);
      DictRemoveLater(x, tail, Drop(tail, i - 1), key);
    }
  }

  lemma {:induction false} DictRemoveLater<V>(x: (seq<byte>, V), tail: seq<(seq<byte>, V)>, less: seq<(seq<byte>, V)>,
                                              key: seq<byte>)
    requires DictOf(less) == DictOf(tail) - {key} && x.0 != key
    ensures DictOf([x] + less) == DictOf([x] + tail) - {key}
  {
    DictCons(x, tail);
    DictCons(x, less);
  }

  lemma {:induction false} DictCons<V>(x: (seq<byte>, V), tail: seq<(seq<byte>, V)>)
    ensures DictOf([x] + tail) == DictOf(tail)[x.0 := x.1]
  {
    assert ([x] + tail)[1..] == tail;
  }

  /** How a bucket operation ends; Crash is reading through a null head. */
  datatype Status = Success | Failure | Crash

  class Bucket<V> {
    var head: Node?<V>
    var tail: Node?<V>
    var size: nat
    /** The nodes in list order, and the pairs they hold. */
    ghost var nodes: seq<Node<V>>
    ghost var items: seq<(seq<byte>, V)>

    ghost predicate Linked()
      reads this, nodes
    {
      && Distinct(nodes)
      && head == (if nodes == [] then null else nodes[0])
      && tail == (if nodes == [] then null else nodes[|nodes| - 1])
      && (nodes != [] ==> nodes[|nodes| - 1].next == null)
      && forall i {:trigger nodes[i].next} :: 0 <= i < |nodes| - 1 ==> nodes[i].next == nodes[i + 1]
    }

    ghost predicate Holds()
      reads this, nodes
    {
      && |items| == |nodes|
      && forall i :: 0 <= i < |nodes| ==> nodes[i].key == items[i].0 && nodes[i].value == items[i].1
    }

    ghost predicate Valid()
      reads this, nodes
    {
      Linked() && Holds() && size == |nodes| && UniqueKeys(items)
    }

    ghost function Dict(): map<seq<byte>, V>
      reads this
    {
      DictOf(items)
    }

    constructor ()
      ensures Valid() && nodes == [] && items == []
    {
      head, tail, size := null, null, 0;
      nodes, items := [], [];
    }

    /** Walks the list to the node with the key, with its predecessor. */
    method Find(key: seq<byte>) returns (prev: Node?<V>, now: Node?<V>, ghost i: nat)
      requires Valid()
      ensures i == IndexOf(items, key)
      ensures now == (if IndexOf(items, key) < |nodes| then nodes[IndexOf(items, key)] else null)
      ensures prev == (if IndexOf(items, key) > 0 then nodes[IndexOf(items, key) - 1] else null)
    {
      prev, now, i := null, head, 0;
      while now != null
        invariant i <= |nodes| && now == (if i < |nodes| then nodes[i] else null)
        invariant prev == (if i > 0 then nodes[i - 1] else null)
        invariant forall j :: 0 <= j < i ==> items[j].0 != key
        decreases |nodes| - i
      {
        if now.key == key {
          break;
        }
        prev, now, i := now, now.next, i + 1;
      }
      IndexIs(items, key, i);
    }

    method Insert(node: Node<V>) returns (r: Status)
      requires Valid() && node !in nodes && node.next == null
      modifies this, nodes
      ensures Valid()
      ensures r == if node.key in old(Dict()) then Failure else Success
      ensures nodes == if r.Success? then old(nodes) + [node] else old(nodes)
      ensures Dict() == if r.Success? then old(Dict())[node.key := node.value] else old(Dict())
    {
      DictHas(items, node.key);
      if head == null {
        head, tail, size := node, node, 1;
      } else {
        var _, now, i := Find(node.key);
        if now != null {
          return Failure;
        }
        tail.next := node;
        tail := node;
        size := size + 1;
      }
      DictAppend(items, node.key, node.value);
      KeyIsNew(items, node.key, node.value);
      nodes, items := nodes + [node], items + [(node.key, node.value)];
      return Success;
    }

    method Remove(key: seq<byte>) returns (r: Status)
      requires Valid()
      modifies this, nodes
      ensures Valid()
      ensures r == if old(nodes) == [] then Crash else if key in old(Dict()) then Success else Failure
      ensures Dict() == old(Dict()) - {key}
      ensures forall x :: x in nodes ==> x in old(nodes)
    {
      DictHas(items, key);
      if head == null {
        return Crash;
      }
      if head.key == key {
        RemoveHead();
        return Success;
      }
      r := RemoveLater(key);
    }

    /** The search behind the first node. */
    method RemoveLater(key: seq<byte>) returns (r: Status)
      requires Valid() && head != null && head.key != key
      modifies this, nodes
      ensures Valid() && forall x :: x in nodes ==> x in old(nodes)
      ensures r == if key in old(Dict()) then Success else Failure
      ensures Dict() == old(Dict()) - {key}
    {
      DictHas(items, key);
      var prev, now, i := Find(key);
      if now == null {
        return Failure;
      }
      DictRemove(items, i);
      RemoveAfter(prev, now, i);
      return Success;
    }

    method RemoveHead()
      requires Valid() && head != null
      modifies this
      ensures Valid() && nodes == Drop(old(nodes), 0)
      ensures Dict() == old(Dict()) - {old(items)[0].0}
    {
      DictRemove(items, 0);
      UnlinkHead(size == 1);
      size := size - 1;
      items := Drop(items, 0);
    }

    method UnlinkHead(only: bool)
      requires Linked() && head != null && (only <==> |nodes| == 1)
      modifies `head, `tail, `nodes
      ensures Linked() && nodes == Drop(old(nodes), 0)
    {
      assert nodes[0].next == if |nodes| > 1 then nodes[1] else null;
      head := head.next;
      if only {
        tail := null;
      }
      ghost var was := nodes;
      nodes := Drop(nodes, 0);
      assert forall j {:trigger nodes[j].next} :: 0 <= j < |nodes| ==> nodes[j].next == was[j + 1].next;
    }

    method RemoveAfter(prev: Node<V>, now: Node<V>, ghost i: nat)
      requires Valid() && 0 < i < |nodes| && prev == nodes[i - 1] && now == nodes[i]
      modifies this, prev
      ensures Valid() && nodes == Drop(old(nodes), i) && items == Drop(old(items), i)
    {
      UnlinkAfter(prev, now, i);
      Forget(i);
      size := size - 1;
    }

    /** The pairs without the one whose node has just been unlinked. */
    ghost method Forget(i: nat)
      requires |items| == |nodes| + 1 && i <= |nodes|
      requires forall j :: 0 <= j < |nodes| ==>
        var k := if j < i then j else j + 1;
        nodes[j].key == items[k].0 && nodes[j].value == items[k].1
      modifies `items
      ensures items == Drop(old(items), i) && Holds()
    {
      items := Drop(items, i);
    }

    method UnlinkAfter(prev: Node<V>, now: Node<V>, ghost i: nat)
      requires Linked() && 0 < i < |nodes| && prev == nodes[i - 1] && now == nodes[i]
      modifies `tail, `nodes, prev`next
      ensures Linked() && nodes == Drop(old(nodes), i)
    {
      ghost var was := nodes;
      assert was[i].next == if i + 1 < |was| then was[i + 1] else null;
      prev.next := now.next;
      if tail == now {
        tail := prev;
      }
      nodes := Drop(was, i);
      assert forall j {:trigger nodes[j].next} :: 0 <= j < |nodes| && j != i - 1 ==>
        nodes[j].next == old(was[if j < i then j else j + 1].next);
    }

    method Query(key: seq<byte>) returns (r: Option<V>)
      requires Valid()
      ensures r == if key in Dict() then Some(Dict()[key]) else None
    {
      var _, now, i := Find(key);
      DictHas(items, key);
      r := if now == null then None else Some(now.value);
    }

    method Modify(key: seq<byte>, value: V) returns (r: Status)
      requires Valid()
      modifies this, nodes
      ensures Valid() && nodes == old(nodes)
      ensures r == if key in old(Dict()) then Success else Failure
      ensures Dict() == if r.Success? then old(Dict())[key := value] else old(Dict())
    {
      var _, now, i := Find(key);
      DictHas(items, key);
      if now == null {
        return Failure;
      }
      DictUpdate(items, i, value);
      now.value := value;
      items := items[i := (key, value)];
      assert forall j {:trigger nodes[j].next} :: 0 <= j < |nodes| ==> nodes[j].next == old(nodes[j].next);
      return Success;
    }
  }

  /** The bytes a string is stored and hashed under: its text and its terminator. */
  function KeyOf(t: Text): seq<byte> {
    t + [0]
  }

  /** The key of a string and its bucket. */
  method Locate(t: Text) returns (key: seq<byte>, i: nat)
    ensures key == KeyOf(t) && i == BucketOf(key)
  {
    key := KeyOf(t);
    var hash := Fnv32(key);
    i := hash % BUCKET_SIZE;
  }

  /** The map cut into its buckets' parts. */
  ghost predicate Parts<V>(dict: map<seq<byte>, V>, parts: seq<map<seq<byte>, V>>) {
    && |parts| == BUCKET_SIZE
    && (forall k :: k in dict ==> k in parts[BucketOf(k)] && parts[BucketOf(k)][k] == dict[k])
    && (forall i, k :: 0 <= i < |parts| && k in parts[i] ==> k in dict && BucketOf(k) == i)
  }

  lemma {:induction false} PartsChange<V>(dict: map<seq<byte>, V>, parts: seq<map<seq<byte>, V>>, key: seq<byte>, v: V)
    requires Parts(dict, parts)
    ensures var i := BucketOf(key);
            && (key in dict <==> key in parts[i]) && (key in dict ==> dict[key] == parts[i][key])
            && Parts(dict[key := v], parts[i := parts[i][key := v]])
  {
  }

  lemma {:induction false} PartsShrink<V>(dict: map<seq<byte>, V>, parts: seq<map<seq<byte>, V>>, key: seq<byte>)
    requires Parts(dict, parts)
    ensures var i := BucketOf(key);
            && (key in dict <==> key in parts[i])
            && Parts(dict - {key}, parts[i := parts[i] - {key}])
  {
  }

  class StringHash<V> {
    const bks: seq<Bucket<V>>
    /** The map the table stands for, and all nodes. */
    ghost var dict: map<seq<byte>, V>
    ghost var nodes: set<Node<V>>

    ghost predicate Apart()
      reads `nodes, bks
    {
      && (forall i, j :: 0 <= i < j < |bks| ==> bks[i] != bks[j])
      && (forall i, j, x :: 0 <= i < j < |bks| && x in bks[i].nodes ==> x !in bks[j].nodes)
      && (forall i, x :: 0 <= i < |bks| && x in bks[i].nodes ==> x in nodes)
    }

    ghost predicate Sound()
      reads `nodes, bks, nodes
    {
      |bks| == BUCKET_SIZE && Apart() && forall i :: 0 <= i < |bks| ==> bks[i].Valid()
    }

    ghost function Dicts(): (d: seq<map<seq<byte>, V>>)
      reads bks
      ensures |d| == |bks| && forall i :: 0 <= i < |bks| ==> d[i] == bks[i].Dict()
    {
      seq(|bks|, i requires 0 <= i < |bks| reads bks => bks[i].Dict())
    }

    /** Every bucket is a list of distinct keys that hash to it, and holds its part of the map. */
    ghost predicate Valid()
      reads this, bks, nodes
    {
      ValidUpTo(BUCKET_SIZE)
    }

    ghost predicate ValidUpTo(n: nat)
      reads this, bks, nodes
      ensures ValidUpTo(n) ==> Apart() && n <= |bks|
    {
      if n == 0 then |bks| == BUCKET_SIZE && Apart() && Parts(dict, Dicts())
      else ValidUpTo(n - 1) && n <= |bks| && bks[n - 1].Valid()
    }

    lemma {:induction false} ValidUpToIs(n: nat)
      ensures ValidUpTo(n) <==> n <= |bks| == BUCKET_SIZE && Apart() && Parts(dict, Dicts())
                                && forall i :: 0 <= i < n ==> bks[i].Valid()
    {
      if n != 0 {
        ValidUpToIs(n - 1);
      }
    }

    lemma {:induction false} ValidIs()
      ensures Valid() <==> Sound() && Parts(dict, Dicts())
    {
      ValidUpToIs(BUCKET_SIZE);
    }

    constructor ()
      ensures Valid() && dict == map[] && nodes == {}
      ensures forall i :: 0 <= i < |bks| ==> fresh(bks[i])
    {
      var buckets: seq<Bucket<V>> := [];
      while |buckets| < BUCKET_SIZE
        invariant |buckets| <= BUCKET_SIZE
        invariant forall i :: 0 <= i < |buckets| ==> fresh(buckets[i])
        invariant forall i :: 0 <= i < |buckets| ==> buckets[i].Valid()
        invariant forall i :: 0 <= i < |buckets| ==> buckets[i].nodes == [] && buckets[i].items == []
        invariant forall i, j :: 0 <= i < j < |buckets| ==> buckets[i] != buckets[j]
        decreases BUCKET_SIZE - |buckets|
      {
        var b := new Bucket<V>();
        buckets := buckets + [b];
      }
      bks := buckets;
      dict := map[];
      nodes := {};
      new;
      ValidIs();
    }

    twostate lemma KeepsValid(j: nat)
      requires j < |bks| && old(bks[j].Valid()) && unchanged(bks[j])
      requires forall x :: x in old(bks[j].nodes) ==> x.value == old(x.value) && x.next == old(x.next)
      ensures bks[j].Valid()
    {
      assert forall k :: 0 <= k < |bks[j].nodes| ==> bks[j].nodes[k] in old(bks[j].nodes);
    }

    /** A bucket none of whose objects has changed is as valid as before. */
    twostate lemma OthersKept(i: nat)
      requires old(Sound()) && i < |bks|
      requires forall j :: 0 <= j < |bks| && j != i ==> unchanged(bks[j])
      requires forall x :: x in old(nodes) && x !in old(bks[i].nodes) ==> unchanged(x)
      ensures forall j :: 0 <= j < |bks| && j != i ==> bks[j].Valid()
    {
      forall j | 0 <= j < |bks| && j != i
        ensures bks[j].Valid()
      {
        assert unchanged(bks[j]) && old(bks[j].Valid());
        assert bks[j].nodes == old(bks[j].nodes);
        forall x | x in old(bks[j].nodes)
          ensures x.value == old(x.value) && x.next == old(x.next)
        {
          assert x in old(nodes) && x !in old(bks[i].nodes);
        }
        KeepsValid(j);
      }
    }

    /** With its bucket `i` valid again, and no node in it that another bucket has, the table is sound. */
    twostate lemma SoundAgain(i: nat)
      requires old(Sound()) && i < |bks| && bks[i].Valid() && old(nodes) <= nodes
      requires forall j :: 0 <= j < |bks| && j != i ==> unchanged(bks[j])
      requires forall x :: x in old(nodes) && x !in old(bks[i].nodes) ==> unchanged(x)
      requires forall x :: x in bks[i].nodes ==> x in nodes && (x in old(bks[i].nodes) || x !in old(nodes))
      ensures Sound()
    {
      OthersKept(i);
      forall j, x | 0 <= j < |bks| && j != i && x in bks[j].nodes
        ensures x in nodes && x !in bks[i].nodes
      {
        assert x in old(bks[j].nodes);
      }
    }

    twostate lemma DictsChange(i: nat)
      requires i < |bks| && forall j :: 0 <= j < |bks| && j != i ==> unchanged(bks[j])
      ensures Dicts() == old(Dicts())[i := bks[i].Dict()]
    {
    }

    /** What the table stands for, changed beside its buckets. */
    ghost method Record(after: map<seq<byte>, V>)
      requires Sound() && Parts(after, Dicts())
      modifies `dict
      ensures Sound() && dict == after && Parts(dict, Dicts())
    {
      ghost var parts := Dicts();
      dict := after;
      assert Dicts() == parts;
    }

    method LinkAt(i: nat, node: Node<V>) returns (r: Status)
      requires Sound() && i < |bks| && node.next == null && node !in nodes
      modifies bks[i], bks[i].nodes, `nodes
      ensures Sound() && nodes == (if r.Success? then old(nodes) + {node} else old(nodes))
      ensures r == if node.key in old(bks[i].Dict()) then Failure else Success
      ensures var d := old(Dicts());
              Dicts() == if r.Success? then d[i := d[i][node.key := node.value]] else d
    {
      r := bks[i].Insert(node);
      if r.Success? {
        nodes := nodes + {node};
      }
      SoundAgain(i);
      DictsChange(i);
    }

    method InsertAt(i: nat, key: seq<byte>, value: V) returns (r: Status)
      requires Sound() && i < |bks|
      modifies bks[i], bks[i].nodes, `nodes
      ensures Sound() && fresh(nodes - old(nodes))
      ensures r == if key in old(bks[i].Dict()) then Failure else Success
      ensures var d := old(Dicts());
              Dicts() == if r.Success? then d[i := d[i][key := value]] else d
    {
      var node := new Node(key, value);
      r := LinkAt(i, node);
    }

    method InsertKey(i: nat, key: seq<byte>, value: V, ghost d: map<seq<byte>, V>, ghost parts: seq<map<seq<byte>, V>>)
      returns (r: Status)
      requires Sound() && d == dict && parts == Dicts() && Parts(d, parts) && i == BucketOf(key)
      modifies bks[i], bks[i].nodes, `nodes, `dict
      ensures Sound() && fresh(nodes - old(nodes))
      ensures r == if key in d then Failure else Success
      ensures dict == (if r.Success? then d[key := value] else d) && Parts(dict, Dicts())
    {
      PartsChange(d, parts, key, value);
      r := InsertAt(i, key, value);
      Record(if r.Success? then d[key := value] else d);
    }

    method Insert(t: Text, value: V) returns (r: Status)
      requires Valid()
      modifies this, bks, nodes
      ensures Valid() && fresh(nodes - old(nodes))
      ensures r == if KeyOf(t) in old(dict) then Failure else Success
      ensures dict == if r.Success? then old(dict)[KeyOf(t) := value] else old(dict)
    {
      ValidIs();
      var key, i := Locate(t);
      r := InsertKey(i, key, value, dict, Dicts());
      ValidIs();
    }

    method RemoveAt(i: nat, key: seq<byte>) returns (r: Status)
      requires Sound() && i < |bks|
      modifies bks[i], bks[i].nodes
      ensures Sound()
      ensures r == if old(bks[i].nodes) == [] then Crash else if key in old(bks[i].Dict()) then Success else Failure
      ensures var d := old(Dicts());
              Dicts() == d[i := d[i] - {key}]
    {
      r := bks[i].Remove(key);
      OthersKept(i);
    }

    method RemoveKey(i: nat, key: seq<byte>, ghost d: map<seq<byte>, V>, ghost parts: seq<map<seq<byte>, V>>)
      returns (r: Status)
      requires Sound() && d == dict && parts == Dicts() && Parts(d, parts) && i == BucketOf(key)
      modifies bks[i], bks[i].nodes, `dict
      ensures Sound()
      ensures r == if old(bks[i].nodes) == [] then Crash else if key in d then Success else Failure
      ensures r.Crash? ==> key !in d
      ensures dict == d - {key} && Parts(dict, Dicts())
    {
      PartsShrink(d, parts, key);
      r := RemoveAt(i, key);
      Record(d - {key});
    }

    /** Reads through a null head, and so ends the program, exactly when the key's bucket is empty. */
    method Remove(t: Text) returns (r: Status)
      requires Valid()
      modifies this, bks, nodes
      ensures Valid() && nodes == old(nodes)
      ensures r.Crash? <==> old(bks[BucketOf(KeyOf(t))].nodes) == []
      ensures r.Success? <==> KeyOf(t) in old(dict)
      ensures dict == old(dict) - {KeyOf(t)}
    {
      ValidIs();
      var key, i := Locate(t);
      r := RemoveKey(i, key, dict, Dicts());
      ValidIs();
    }

    method Query(t: Text) returns (r: Option<V>)
      requires Valid()
      ensures r == if KeyOf(t) in dict then Some(dict[KeyOf(t)]) else None
    {
      ValidIs();
      var key, i := Locate(t);
      r := bks[i].Query(key);
    }

    method ModifyAt(i: nat, key: seq<byte>, value: V) returns (r: Status)
      requires Sound() && i < |bks|
      modifies bks[i], bks[i].nodes
      ensures Sound()
      ensures r == if key in old(bks[i].Dict()) then Success else Failure
      ensures var d := old(Dicts());
              Dicts() == if r.Success? then d[i := d[i][key := value]] else d
    {
      r := bks[i].Modify(key, value);
      OthersKept(i);
    }

    method ModifyKey(i: nat, key: seq<byte>, value: V, ghost d: map<seq<byte>, V>, ghost parts: seq<map<seq<byte>, V>>)
      returns (r: Status)
      requires Sound() && d == dict && parts == Dicts() && Parts(d, parts) && i == BucketOf(key)
      modifies bks[i], bks[i].nodes, `dict
      ensures Sound()
      ensures r == if key in d then Success else Failure
      ensures dict == (if r.Success? then d[key := value] else d) && Parts(dict, Dicts())
    {
      PartsChange(d, parts, key, value);
      r := ModifyAt(i, key, value);
      Record(if r.Success? then d[key := value] else d);
    }

    method Modify(t: Text, value: V) returns (r: Status)
      requires Valid()
      modifies this, bks, nodes
      ensures Valid() && nodes == old(nodes)
      ensures r == if KeyOf(t) in old(dict) then Success else Failure
      ensures dict == if r.Success? then old(dict)[KeyOf(t) := value] else old(dict)
    {
      ValidIs();
      var key, i := Locate(t);
      r := ModifyKey(i, key, value, dict, Dicts());
      ValidIs();
    }
  }

  lemma {:induction false} KeyIsNew<V>(items: seq<(seq<byte>, V)>, key: seq<byte>, v: V)
    requires UniqueKeys(items) && key !in DictOf(items)
    ensures UniqueKeys(items + [(key, v)])
  {
    DictHas(items, key);
    forall i | 0 <= i < |items|
      ensures items[i].0 != key
    {
      if items[i].0 == key {
        IndexLeast(items, key, i);
      }
    }
  }

  lemma {:induction false} IndexLeast<V>(items: seq<(seq<byte>, V)>, key: seq<byte>, i: nat)
    requires i < |items| && items[i].0 == key
    ensures IndexOf(items, key) <= i
  {
    if i != 0 {
      IndexLeast(items[1..], key, i - 1);
    }
  }
}
