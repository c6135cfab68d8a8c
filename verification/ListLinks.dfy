/**
 The intrusive circular doubly linked list. All nodes live in one array, so a link is an index:
 `0..n` are the nodes, `n` is the list head (the sentinel) and NIL is a null link.
 A method whose result `ok` is false has followed a null link, which ends the program.
 */
module ListLinks {
  import opened Bytes

  const NIL := -1

  /** The `i`-th node of the cycle: the head at both ends, the listed nodes between. */
  ghost function At(order: seq<int>, n: int, i: int): int {
    if 1 <= i <= |order| then order[i - 1] else n
  }

  ghost predicate Threads(order: seq<int>, n: nat) {
    Distinct(order) && forall i :: 0 <= i < |order| ==> 0 <= order[i] < n
  }

  function Without(order: seq<int>, k: int): seq<int> {
    if order == [] then [] else if order[0] == k then order[1..] else [order[0]] + Without(order[1..], k)
  }

  lemma {:induction false} WithoutSplit(order: seq<int>, i: nat)
    requires Distinct(order) && i < |order|
    ensures Without(order, order[i]) == order[..i] + order[i + 1..]
  {
    var k := order[i];
    if i != 0 {
      var tail := order[1..];
      WithoutSplit(tail, i - 1);
      assert [order[0]] + tail[..i - 1] == order[..i] && tail[i..] == order[i + 1..];
    }
  }

  lemma {:induction false} AtShift(order: seq<int>, n: int, i: int, j: int)
    requires 0 <= i < |order| && 0 <= j <= |order|
    ensures At(order[..i] + order[i + 1..], n, j) == At(order, n, if j <= i then j else j + 1)
  {
  }

  /** The links of the cycle. */
  ghost predicate Chained(order: seq<int>, n: nat, next: seq<int>, prev: seq<int>) {
    && |next| == |prev| == n + 1 && Threads(order, n)
    && forall i :: 0 <= i <= |order| ==>
         next[At(order, n, i)] == At(order, n, i + 1) && prev[At(order, n, i + 1)] == At(order, n, i)
  }

  lemma {:induction false} AtDiffers(order: seq<int>, n: nat, i: nat, j: nat)
    requires Threads(order, n) && i <= |order| && j <= |order| && i != j
    ensures At(order, n, i) != At(order, n, j) && At(order, n, i + 1) != At(order, n, j + 1)
  {
  }

  /** Joining the neighbours of the `i`-th node leaves the cycle of the others. */
  lemma {:induction false} Spliced(order: seq<int>, n: nat, next: seq<int>, prev: seq<int>, i: nat, j: nat)
    requires Chained(order, n, next, prev) && i < |order| && j < |order|
    ensures var rest, p, q := order[..i] + order[i + 1..], At(order, n, i), At(order, n, i + 2);
            && next[p := q][At(rest, n, j)] == At(rest, n, j + 1)
            && prev[q := p][At(rest, n, j + 1)] == At(rest, n, j)
  {
    AtShift(order, n, i, j);
    AtShift(order, n, i, j + 1);
    if j < i {
      AtDiffers(order, n, i, j);
      AtDiffers(order, n, i + 1, j);
    } else if j > i {
      AtDiffers(order, n, i, j + 1);
      AtDiffers(order, n, i + 1, j + 1);
    }
  }

  lemma {:induction false} WithoutMembers(order: seq<int>, k: int)
    requires Distinct(order)
    ensures forall j :: j in Without(order, k) <==> j in order && j != k
    ensures |Without(order, k)| == if k in order then |order| - 1 else |order|
  {
    if order != [] {
      WithoutMembers(order[1..], k);
      assert order == [order[0]] + order[1..];
    }
  }

  class Ring {
    const n: nat
    const next: array<int>
    const prev: array<int>
    /** The nodes on the list, first to last. */
    ghost var order: seq<int>

    ghost predicate Linked()
      reads this, next, prev
    {
      && next != prev && next.Length == prev.Length == n + 1
      && Threads(order, n)
      && forall i :: 0 <= i <= |order| ==>
           next[At(order, n, i)] == At(order, n, i + 1) && prev[At(order, n, i + 1)] == At(order, n, i)
    }

    ghost predicate Cleared(except: int)
      requires next.Length == prev.Length == n + 1
      reads this, next, prev
    {
      forall k :: 0 <= k < n && k !in order && k != except ==> next[k] == NIL && prev[k] == NIL
    }

    ghost predicate Valid()
      reads this, next, prev
    {
      Linked() && Cleared(n)
    }

    lemma {:induction false} LinkAt(i: int)
      requires Linked() && 0 <= i <= |order|
      ensures 0 <= At(order, n, i) <= n && 0 <= At(order, n, i + 1) <= n
      ensures next[At(order, n, i)] == At(order, n, i + 1) && prev[At(order, n, i + 1)] == At(order, n, i)
    {
    }

    /** A listed node has no null link. */
    lemma {:induction false} NullLink(k: int)
      requires Valid() && 0 <= k < n
      ensures k in order <==> next[k] != NIL
      ensures k in order <==> prev[k] != NIL
    {
      if k in order {
        var i :| 0 <= i < |order| && order[i] == k;
        LinkAt(i);
        LinkAt(i + 1);
      }
    }

    constructor (n: nat)
      ensures Valid() && this.n == n && order == [] && fresh(next) && fresh(prev)
    {
      this.n := n;
      next := new int[n + 1](_ => NIL);
      prev := new int[n + 1](_ => NIL);
      order := [];
      new;
      InitHead();
    }

    /** Whatever the head held, it points to itself; with no other node linked, this is the empty list. */
    method InitHead()
      requires next != prev && next.Length == prev.Length == n + 1
      requires forall k :: 0 <= k < n ==> next[k] == NIL && prev[k] == NIL
      modifies this, next, prev
      ensures Valid() && order == [] && next[n] == prev[n] == n
    {
      next[n], prev[n] := n, n;
      order := [];
    }

    method Empty() returns (b: bool)
      requires Valid()
      ensures b <==> order == []
    {
      assert At(order, n, 0) == n && At(order, n, |order| + 1) == n;
      assert order != [] ==> At(order, n, 1) == order[0];
      b := next[n] == n && next[n] == prev[n];
    }

    method IsLast(k: nat) returns (b: bool)
      requires Valid() && k < n && k in order
      ensures b <==> k == order[|order| - 1]
    {
      ghost var i :| 0 <= i < |order| && order[i] == k;
      LinkAt(i + 1);
      b := next[k] == n;
    }

    method AddHead(k: nat)
      requires Linked() && Cleared(k) && k < n && k !in order
      modifies this, next, prev
      ensures Valid() && order == [k] + old(order)
    {
      var first := next[n];
      LinkAt(0);
      prev[first] := k;
      next[k] := first;
      prev[k] := n;
      next[n] := k;
      order := [k] + order;
      assert forall i :: 1 <= i < |order| + 2 ==> At(order, n, i) == (if i == 1 then k else At(old(order), n, i - 1));
    }

    /** The two writes that join the neighbours of the `i`-th listed node `k`. */
    method Join(k: nat, ghost i: nat, ghost rest: seq<int>)
      requires Linked() && i < |order| && order[i] == k && rest == order[..i] + order[i + 1..]
      modifies next, prev
      ensures forall j :: 0 <= j < |order| ==>
                next[At(rest, n, j)] == At(rest, n, j + 1) && prev[At(rest, n, j + 1)] == At(rest, n, j)
      ensures forall x :: 0 <= x < n && x !in order ==> next[x] == old(next[x]) && prev[x] == old(prev[x])
    {
      LinkAt(i);
      LinkAt(i + 1);
      ghost var nexts, prevs := next[..], prev[..];
      var p, q := prev[k], next[k];
      prev[q] := p;
      next[p] := q;
      forall j | 0 <= j < |order|
        ensures next[At(rest, n, j)] == At(rest, n, j + 1) && prev[At(rest, n, j + 1)] == At(rest, n, j)
      {
        Spliced(order, n, nexts, prevs, i, j);
      }
    }

    /** Joins the neighbours of `k`, whose own links stay as they were. */
    method Unlink(k: nat)
      requires Valid() && k < n && k in order
      modifies this, next, prev
      ensures Linked() && Cleared(k) && k !in order
      ensures order == Without(old(order), k)
    {
      ghost var i :| 0 <= i < |order| && order[i] == k;
      WithoutSplit(order, i);
      WithoutMembers(order, k);
      Join(k, i, Without(order, k));
      order := Without(order, k);
    }

    /** Unlinks `k` and clears its links. */
    method Del(k: nat) returns (ok: bool)
      requires Valid() && k < n
      modifies this, next, prev
      ensures Valid()
      ensures ok <==> k in old(order)
      ensures order == if ok then Without(old(order), k) else old(order)
    {
      if next[k] == NIL || prev[k] == NIL {
        NullLink(k);
        return false;
      }
      Unlink(k);
      next[k] := NIL;
      prev[k] := NIL;
      return true;
    }

    /** Moves `k` to the front of a non-empty list. */
    method RotateNodeHead(k: nat) returns (ok: bool)
      requires Valid() && k < n
      modifies this, next, prev
      ensures Valid()
      ensures ok <==> old(order) == [] || k in old(order)
      ensures order == if k in old(order) then [k] + Without(old(order), k) else old(order)
    {
      var empty := Empty();
      if empty {
        return true;
      }
      if next[k] == NIL || prev[k] == NIL {
        NullLink(k);
        return false;
      }
      Unlink(k);
      AddHead(k);
      return true;
    }
  }
}
