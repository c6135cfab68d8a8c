/**
 Domain names as dotted text and as length-prefixed labels (section 3.1 of RFC 1035), and the
 two conversion loops between them. A C string is a byte sequence up to its first zero byte.
 */
module Names {
  import opened Bytes

  type Label = seq<byte>

  /** Labels the wire form can carry. */
  ghost predicate Carried(ls: seq<Label>) {
    forall i :: 0 <= i < |ls| ==> 1 <= |ls[i]| <= 63
  }

  /** Labels that dotted text can carry as well. */
  ghost predicate Textual(ls: seq<Label>) {
    forall i :: 0 <= i < |ls| ==> 0 !in ls[i] && DOT !in ls[i]
  }

  /** Length-prefixed labels, without the terminating zero byte. */
  function Wire(ls: seq<Label>): (w: seq<byte>)
    requires Carried(ls)
  {
    if ls == [] then [] else [|ls[0]|] + ls[0] + Wire(ls[1..])
  }

  function Dotted(ls: seq<Label>): Text {
    if ls == [] then [] else if |ls| == 1 then ls[0] else ls[0] + [DOT] + Dotted(ls[1..])
  }

  function FirstDot(t: Text): (k: nat)
    ensures k <= |t| && DOT !in t[..k]
    ensures k < |t| ==> t[k] == DOT
  {
    if t == [] || t[0] == DOT then 0
    else
      var k := 1 + FirstDot(t[1..]);
      assert t[..k] == [t[0]] + t[1..][..k - 1];
      k
  }

  function Split(t: Text): (ls: seq<Label>)
    ensures ls != []
  {
    var k := FirstDot(t);
    if k == |t| then [t] else [t[..k]] + Split(t[k + 1..])
  }

  /** A dotted name of non-empty labels of at most 63 bytes. */
  ghost predicate ValidName(t: Text) {
    Carried(Split(t)) && 0 !in t
  }

  // ---------------------------------------------------------------- text and labels

  lemma {:induction false} SplitDotted(ls: seq<Label>)
    requires ls != [] && Textual(ls)
    ensures Split(Dotted(ls)) == ls
    ensures 0 !in Dotted(ls)
  {
    if |ls| == 1 {
      FirstDotAt(ls[0], []);
      assert ls[0] + [] == ls[0];
    } else {
      var rest := Dotted(ls[1..]);
      SplitDotted(ls[1..]);
      FirstDotAt(ls[0], [DOT] + rest);
      assert Dotted(ls) == ls[0] + ([DOT] + rest);
      assert Dotted(ls)[|ls[0]| + 1..] == rest;
    }
  }

  lemma {:induction false} FirstDotAt(l: Label, rest: Text)
    requires DOT !in l && (rest == [] || rest[0] == DOT)
    ensures FirstDot(l + rest) == |l|
  {
    if l == [] {
      assert l + rest == rest;
    } else {
      assert (l + rest)[1..] == l[1..] + rest;
      FirstDotAt(l[1..], rest);
    }
  }

  lemma {:induction false} DottedSplit(t: Text)
    ensures Dotted(Split(t)) == t
    ensures 0 !in t ==> Textual(Split(t))
  {
    var k := FirstDot(t);
    if k < |t| {
      DottedSplit(t[k + 1..]);
      assert t == t[..k] + [DOT] + t[k + 1..];
    }
  }

  // ---------------------------------------------------------------- label positions

  lemma {:induction false} WireConcat(a: seq<Label>, b: seq<Label>)
    requires Carried(a) && Carried(b)
    ensures Carried(a + b) && Wire(a + b) == Wire(a) + Wire(b)
  {
    if a == [] {
      assert a + b == b;
    } else {
      assert (a + b)[1..] == a[1..] + b;
      WireConcat(a[1..], b);
      Assoc([|a[0]|] + a[0], Wire(a[1..]), Wire(b), []);
    }
  }

  lemma {:induction false} DottedConcat(a: seq<Label>, b: seq<Label>)
    requires a != [] && b != []
    ensures Dotted(a + b) == Dotted(a) + [DOT] + Dotted(b)
  {
    assert (a + b)[1..] == a[1..] + b;
    if |a| > 1 {
      DottedConcat(a[1..], b);
    } else {
      assert a[1..] + b == b;
    }
  }

  lemma {:induction false} WireLength(ls: seq<Label>)
    requires Carried(ls) && ls != []
    ensures |Wire(ls)| == |Dotted(ls)| + 1
  {
    if |ls| > 1 {
      WireLength(ls[1..]);
    }
  }

  /** In a name `a.b`, the wire form of `b` starts at the index at which its text starts. */
  lemma {:induction false} LabelPositions(a: seq<Label>, b: seq<Label>)
    requires Carried(a) && Carried(b) && a != [] && b != []
    ensures Carried(a + b) && Wire(a + b) == Wire(a) + Wire(b)
    ensures Dotted(a + b) == Dotted(a) + [DOT] + Dotted(b)
    ensures |Wire(a)| == |Dotted(a)| + 1 && Wire(a + b)[|Dotted(a)| + 1] == |b[0]|
  {
    WireConcat(a, b);
    DottedConcat(a, b);
    WireLength(a);
  }

  // ---------------------------------------------------------------- reading the wire form

  /** The bytes `w` stand in `m` at index `p`. */
  ghost predicate Stands(m: seq<byte>, p: nat, w: seq<byte>) {
    p + |w| <= |m| && forall i :: 0 <= i < |w| ==> w[i] == m[p + i]
  }

  lemma {:induction false} StandsConcat(m: seq<byte>, p: nat, a: seq<byte>, b: seq<byte>)
    ensures Stands(m, p, a + b) <==> Stands(m, p, a) && Stands(m, p + |a|, b)
  {
    if Stands(m, p, a + b) {
      forall i | 0 <= i < |a|
        ensures a[i] == m[p + i]
      {
        assert (a + b)[i] == m[p + i];
      }
      forall i | 0 <= i < |b|
        ensures b[i] == m[p + |a| + i]
      {
        assert (a + b)[|a| + i] == m[p + |a| + i];
      }
    }
  }

  lemma {:induction false} StandsSlice(m: seq<byte>, p: nat, w: seq<byte>)
    requires p + |w| <= |m|
    ensures Stands(m, p, w) <==> m[p..p + |w|] == w
  {
    var s := m[p..p + |w|];
    assert forall i :: 0 <= i < |s| ==> s[i] == m[p + i];
  }

  lemma {:induction false} StandsByte(m: seq<byte>, p: nat, x: byte)
    ensures Stands(m, p, [x]) <==> p < |m| && m[p] == x
  {
    if Stands(m, p, [x]) {
      assert [x][0] == m[p + 0];
    }
  }

  /** The labels of an uncompressed name at index `p`, up to its zero byte. */
  function LabelsAt(m: seq<byte>, p: nat): (r: Option<seq<Label>>)
    ensures r.Some? ==> Carried(r.value)
    decreases |m| - p
  {
    if p >= |m| then None
    else if m[p] == 0 then Some([])
    else if m[p] > 63 || p + m[p] >= |m| then None
    else
      var rest := LabelsAt(m, p + 1 + m[p]);
      if rest.None? then None else Some([m[p + 1..p + 1 + m[p]]] + rest.value)
  }

  /** The two directions between a name's wire form and its labels. */
  lemma {:induction false} LabelsOfWire(m: seq<byte>, p: nat, ls: seq<Label>)
    requires Carried(ls)
    ensures Stands(m, p, Wire(ls) + [0]) <==> LabelsAt(m, p) == Some(ls)
    decreases |ls|
  {
    if ls == [] {
      assert Wire(ls) + [0] == [0];
      StandsByte(m, p, 0);
    } else {
      LabelsOfWire(m, p + 1 + |ls[0]|, ls[1..]);
      WireSplits(m, p, ls);
      LabelsStep(m, p, ls);
    }
  }

  lemma {:induction false} WireSplits(m: seq<byte>, p: nat, ls: seq<Label>)
    requires Carried(ls) && ls != []
    ensures var l := ls[0];
            Stands(m, p, Wire(ls) + [0])
            <==> p < |m| && m[p] == |l| && Stands(m, p + 1, l) && Stands(m, p + 1 + |l|, Wire(ls[1..]) + [0])
  {
    var l, rest := ls[0], Wire(ls[1..]) + [0];
    Assoc([|l|], l, Wire(ls[1..]), [0]);
    StandsConcat(m, p, [|l|], l + rest);
    StandsConcat(m, p + 1, l, rest);
    StandsByte(m, p, |l|);
  }

  lemma {:induction false} LabelsStep(m: seq<byte>, p: nat, ls: seq<Label>)
    requires Carried(ls) && ls != []
    ensures var l := ls[0];
            LabelsAt(m, p) == Some(ls)
            <==> p < |m| && m[p] == |l| && Stands(m, p + 1, l) && LabelsAt(m, p + 1 + |l|) == Some(ls[1..])
  {
    var l := ls[0];
    assert [l] + ls[1..] == ls;
    if p + 1 + |l| <= |m| {
      StandsSlice(m, p + 1, l);
    }
    if LabelsAt(m, p) == Some(ls) {
      assert ls[1..] == LabelsAt(m, p + 1 + m[p]).value;
    }
  }

  // ---------------------------------------------------------------- the formatting loop

  /** The index of the first zero byte from `s` on: where `strlen` stops. */
  function ZeroAt(m: seq<byte>, s: nat): (e: nat)
    requires s <= |m|
    ensures s <= e <= |m| && forall i :: s <= i < e ==> m[i] != 0
    ensures e < |m| ==> m[e] == 0
    decreases |m| - s
  {
    if s == |m| || m[s] == 0 then s else ZeroAt(m, s + 1)
  }

  lemma {:induction false} ZeroAtIs(m: seq<byte>, s: nat, e: nat)
    requires s <= e < |m| && m[e] == 0 && forall i :: s <= i < e ==> m[i] != 0
    ensures ZeroAt(m, s) == e
    decreases e - s
  {
    if s < e {
      ZeroAtIs(m, s + 1, e);
    }
  }

  /** The C string at the start of `m`. */
  function CText(m: seq<byte>): (t: Text)
    ensures 0 !in t
  {
    var t := m[..ZeroAt(m, 0)];
    assert forall i :: 0 <= i < |t| ==> t[i] == m[i];
    t
  }

  /** A text is the C string of any memory that holds it with its terminator. */
  lemma {:induction false} CTextOf(m: seq<byte>, t: Text)
    ensures Stands(m, 0, t + [0]) ==> CText(m) == CText(t)
    ensures 0 !in t ==> CText(t) == t
  {
    var z := ZeroAt(t, 0);
    assert z < |t| ==> 0 in t;
    if Stands(m, 0, t + [0]) {
      StandsConcat(m, 0, t, [0]);
      StandsByte(m, |t|, 0);
      assert forall i :: 0 <= i < |t| ==> m[i] == t[i];
      ZeroAtIs(m, 0, z);
    }
  }

  /** Reads the C string out of a buffer. */
  method TextIn(a: array<byte>, ghost t: Text) returns (r: Text)
    requires |t| < a.Length && a[..|t| + 1] == t + [0]
    ensures r == CText(t)
  {
    ghost var m := a[..];
    assert Stands(m, 0, t + [0]) by {
      assert forall i :: 0 <= i < |t| + 1 ==> (t + [0])[i] == m[i];
    }
    CTextOf(m, t);
    StandsConcat(m, 0, t, [0]);
    StandsByte(m, |t|, 0);
    var n := 0;
    while a[n] != 0
      invariant 0 <= n <= |t| && ZeroAt(m, 0) == ZeroAt(m, n)
      decreases |t| - n
    {
      n := n + 1;
    }
    r := a[..n];
  }

  /** The index of the dot or zero byte that ends the segment starting at `s`. */
  function SegEnd(m: seq<byte>, s: nat): (e: nat)
    requires s <= |m|
    ensures s <= e <= |m| && forall i :: s <= i < e ==> m[i] != 0 && m[i] != DOT
    ensures e < |m| ==> m[e] == 0 || m[e] == DOT
    decreases |m| - s
  {
    if s == |m| || m[s] == 0 || m[s] == DOT then s else SegEnd(m, s + 1)
  }

  function Prepend(w: seq<byte>, r: Option<seq<byte>>): Option<seq<byte>> {
    if r.None? then None else Some(w + r.value)
  }

  lemma {:induction false} PrependTwice(a: seq<byte>, b: seq<byte>, r: Option<seq<byte>>)
    ensures Prepend(a, Prepend(b, r)) == Prepend(a + b, r)
    ensures Prepend([], r) == r
  {
    if r.Some? {
      assert a + (b + r.value) == a + b + r.value;
      assert [] + r.value == r.value;
    }
  }

  lemma {:induction false} PrependChain(a: seq<byte>, b: seq<byte>, r: Option<seq<byte>>, s: Option<seq<byte>>,
                                        t: Option<seq<byte>>)
    requires r == Prepend(a, s) && s == Prepend(b, t)
    ensures r == Prepend(a + b, t)
  {
    PrependTwice(a, b, t);
  }

  /** A segment behind its length byte; the length counter is one byte wide. */
  function Segment(m: seq<byte>, s: nat, e: nat): (w: seq<byte>)
    requires s <= e <= |m|
  {
    [(e - s) % 256] + m[s..e]
  }

  /**
   What the loop writes from the moment its source pointer stands at index `s`. It steps over
   every segment's end, also over the terminator of the text, and only stops on a zero byte at
   a segment's start; None when that runs out of `m`.
   */
  function Formatted(m: seq<byte>, s: nat): (w: Option<seq<byte>>)
    requires s <= |m|
    ensures w.Some? ==> 1 <= |w.value| <= |m| - s
    decreases |m| - s
  {
    if s == |m| then None
    else if m[s] == 0 then Some([0])
    else
      var e := SegEnd(m, s);
      if e == |m| then None else Prepend(Segment(m, s, e), Formatted(m, e + 1))
  }

  lemma {:induction false} SegEndIs(m: seq<byte>, s: nat, e: nat)
    requires s <= e < |m| && (m[e] == 0 || m[e] == DOT)
    requires forall i :: s <= i < e ==> m[i] != 0 && m[i] != DOT
    ensures SegEnd(m, s) == e
    decreases e - s
  {
    if s < e {
      SegEndIs(m, s + 1, e);
    }
  }

  lemma {:induction false} FormattedLabel(m: seq<byte>, p: nat, l: Label)
    requires 1 <= |l| <= 63 && 0 !in l && DOT !in l
    requires Stands(m, p, l) && p + |l| < |m| && (m[p + |l|] == 0 || m[p + |l|] == DOT)
    ensures Formatted(m, p) == Prepend([|l|] + l, Formatted(m, p + |l| + 1))
  {
    StandsSlice(m, p, l);
    assert forall i :: p <= i < p + |l| ==> m[i] == l[i - p];
    SegEndIs(m, p, p + |l|);
  }

  /** The loop's output on a name: its labels, then whatever it makes of the bytes after the terminator. */
  lemma {:induction false} FormattedName(m: seq<byte>, p: nat, ls: seq<Label>, end: nat)
    requires ls != [] && Carried(ls) && Textual(ls)
    requires Stands(m, p, Dotted(ls) + [0]) && end == p + |Dotted(ls)| + 1
    ensures Formatted(m, p) == Prepend(Wire(ls), Formatted(m, end))
    decreases |ls|
  {
    var l := ls[0];
    var head: seq<byte> := [|l|] + l;
    DottedSplits(m, p, ls);
    FormattedLabel(m, p, l);
    if |ls| == 1 {
      assert Wire(ls[1..]) == [] && Wire(ls) == head;
    } else {
      var next := p + |l| + 1;
      FormattedName(m, next, ls[1..], end);
      PrependChain(head, Wire(ls[1..]), Formatted(m, p), Formatted(m, next), Formatted(m, end));
    }
  }

  lemma {:induction false} DottedSplits(m: seq<byte>, p: nat, ls: seq<Label>)
    requires ls != [] && Stands(m, p, Dotted(ls) + [0])
    ensures var l := ls[0];
            && Stands(m, p, l) && p + |l| < |m|
            && m[p + |l|] == (if |ls| == 1 then 0 else DOT)
            && (|ls| > 1 ==> Stands(m, p + |l| + 1, Dotted(ls[1..]) + [0]))
  {
    var l := ls[0];
    if |ls| == 1 {
      StandsConcat(m, p, l, [0]);
      StandsByte(m, p + |l|, 0);
    } else {
      var rest := Dotted(ls[1..]) + [0];
      Assoc(l, [DOT], Dotted(ls[1..]), [0]);
      StandsConcat(m, p, l, [DOT] + rest);
      StandsConcat(m, p + |l|, [DOT], rest);
      StandsByte(m, p + |l|, DOT);
    }
  }

  /**
   Exactly the wire form with its terminator is written, if and only if the byte after the text's
   terminator is zero.
   */
  lemma {:induction false} FormattedExactly(m: seq<byte>, t: Text)
    requires ValidName(t) && Stands(m, 0, t + [0]) && |t| + 1 < |m|
    ensures Formatted(m, 0) == Some(Wire(Split(t)) + [0]) <==> m[|t| + 1] == 0
  {
    DottedSplit(t);
    FormattedName(m, 0, Split(t), |t| + 1);
    var rest := Formatted(m, |t| + 1);
    if m[|t| + 1] != 0 && rest.Some? {
      assert |rest.value| >= 2;
      assert |Wire(Split(t)) + rest.value| > |Wire(Split(t)) + [0]|;
    }
  }

  lemma {:induction false} CountsOn(n: nat)
    ensures (n % 256 + 1) % 256 == (n + 1) % 256
  {
  }

  /** The inner loop: copies a segment to `dest[at..]`, counting its bytes in one byte. */
  method CopySegment(src: seq<byte>, start: nat, dest: array<byte>, at: nat) returns (ok: bool, s: nat, len: byte)
    requires start < |src| && at + |src| - start <= dest.Length + 1
    modifies dest
    ensures s == SegEnd(src, start) && (ok <==> s < |src|)
    ensures ok ==> len == (s - start) % 256 && at + s - start <= dest.Length
    ensures ok ==> forall i :: start <= i < s ==> src[i] == dest[at + i - start]
    ensures forall i :: 0 <= i < at || at + s - start <= i < dest.Length ==> dest[i] == old(dest[i])
  {
    s, len := start, 0;
    while src[s] != DOT && src[s] != 0
      invariant start <= s < |src| && len == (s - start) % 256
      invariant SegEnd(src, start) == SegEnd(src, s)
      invariant forall i :: start <= i < s ==> src[i] == dest[at + i - start]
      invariant forall i :: 0 <= i < at || at + s - start <= i < dest.Length ==> dest[i] == old(dest[i])
      decreases |src| - s
    {
      if s + 1 >= |src| {
        return false, s + 1, len;
      }
      CountsOn(s - start);
      len := (len + 1) % 256;
      dest[at + s - start] := src[s];
      s := s + 1;
    }
    ok := true;
  }

  /** One pass of the outer loop: copies a segment behind its length byte at `lenPos`. */
  method WriteSegment(src: seq<byte>, start: nat, dest: array<byte>, lenPos: nat) returns (ok: bool, s: nat)
    requires start < |src| && lenPos + |src| - start <= dest.Length
    modifies dest
    ensures s == SegEnd(src, start) && (ok <==> s < |src|)
    ensures ok ==> dest[lenPos..lenPos + 1 + s - start] == Segment(src, start, s)
    ensures forall i :: 0 <= i < lenPos || lenPos + 1 + s - start <= i < dest.Length ==> dest[i] == old(dest[i])
  {
    var len;
    ok, s, len := CopySegment(src, start, dest, lenPos + 1);
    if ok {
      dest[lenPos] := len;
    }
  }

  lemma {:induction false} SliceJoin(a: array<byte>, i: nat, j: nat, k: nat)
    requires i <= j <= k <= a.Length
    ensures a[i..k] == a[i..j] + a[j..k]
  {
  }

  /** The loop stands at segment start `s` and has put `written`, the first part of `total`, at `dest[at..]`. */
  ghost predicate HasWritten(src: seq<byte>, dest: array<byte>, at: nat, s: nat, written: seq<byte>,
                             total: Option<seq<byte>>)
    reads dest
  {
    && s <= |src| && |written| == s && at + |src| <= dest.Length
    && dest[at..at + s] == written
    && total == Prepend(written, Formatted(src, s))
  }

  lemma {:induction false} FormattedNext(src: seq<byte>, s: nat, before: seq<byte>, total: Option<seq<byte>>)
    requires s < |src| && src[s] != 0 && total == Prepend(before, Formatted(src, s))
    ensures var e := SegEnd(src, s);
            total == if e == |src| then None else Prepend(before + Segment(src, s, e), Formatted(src, e + 1))
  {
    var e := SegEnd(src, s);
    if e < |src| {
      PrependTwice(before, Segment(src, s, e), Formatted(src, e + 1));
    }
  }

  method FormatSegment(src: seq<byte>, dest: array<byte>, at: nat, start: nat,
                       ghost before: seq<byte>, ghost total: Option<seq<byte>>)
    returns (ok: bool, s: nat, ghost written: seq<byte>)
    requires HasWritten(src, dest, at, start, before, total) && start < |src| && src[start] != 0
    modifies dest
    ensures ok ==> start < s && HasWritten(src, dest, at, s, written, total)
    ensures !ok ==> total.None?
    ensures ok ==> forall i :: 0 <= i < at || at + s <= i < dest.Length ==> dest[i] == old(dest[i])
  {
    FormattedNext(src, start, before, total);
    var e;
    ok, e := WriteSegment(src, start, dest, at + start);
    s, written := e + 1, before;
    if ok {
      ghost var w := Segment(src, start, e);
      written := before + w;
      assert dest[at..at + e + 1] == written by {
        assert dest[at..at + start] == before;
        SliceJoin(dest, at, at + start, at + e + 1);
      }
    }
  }

  /**
   Text to wire. `src` is the memory from the source pointer on; `ok` is false when the loop runs
   out of it. The bytes go to `dest` from index `at` on.
   */
  method InetFormat(src: seq<byte>, dest: array<byte>, at: nat) returns (ok: bool, ret: nat)
    requires at + |src| <= dest.Length
    modifies dest
    ensures ok <==> Formatted(src, 0).Some?
    ensures ok ==> var w := Formatted(src, 0).value;
                   && dest[at..at + |w|] == w
                   && forall i :: 0 <= i < at || at + |w| <= i < dest.Length ==> dest[i] == old(dest[i])
    ensures ok ==> ret == ZeroAt(src, 0) + 1
  {
    ghost var written: seq<byte> := [];
    var s := 0;
    PrependTwice([], [], Formatted(src, 0));
    while s < |src| && src[s] != 0
      invariant HasWritten(src, dest, at, s, written, Formatted(src, 0))
      invariant forall i :: 0 <= i < at || at + s <= i < dest.Length ==> dest[i] == old(dest[i])
      decreases |src| - s
    {
      ok, s, written := FormatSegment(src, dest, at, s, written, Formatted(src, 0));
      if !ok {
        return false, 0;
      }
    }
    if s >= |src| {
      return false, 0;
    }
    dest[at + s] := 0;
    SliceJoin(dest, at, at + s, at + s + 1);
    ok, ret := true, ZeroAt(src, 0) + 1;
  }

  // ---------------------------------------------------------------- the parsing loop

  /** Every label followed by a dot. */
  function Trail(ls: seq<Label>): Text {
    if ls == [] then [] else ls[0] + [DOT] + Trail(ls[1..])
  }

  lemma {:induction false} TrailIsDotted(ls: seq<Label>)
    ensures ls != [] ==> Trail(ls) == Dotted(ls) + [DOT]
  {
    if |ls| > 1 {
      TrailIsDotted(ls[1..]);
    } else if ls != [] {
      assert Trail(ls[1..]) == [];
    }
  }

  lemma {:induction false} TrailNext(done: seq<Label>, l: Label)
    ensures Trail(done + [l]) == Trail(done) + l + [DOT]
  {
    if done == [] {
      assert Trail([l][1..]) == [];
      assert done + [l] == [l];
    } else {
      assert (done + [l])[1..] == done[1..] + [l];
      TrailNext(done[1..], l);
    }
  }

  /** The bytes a `char` holds when it is signed. */
  function Signed(b: byte): int {
    if b < 128 then b else b - 256
  }

  lemma {:induction false} FirstLabel(m: seq<byte>, p: nat)
    requires LabelsAt(m, p).Some? && m[p] != 0
    ensures var ls, n := LabelsAt(m, p).value, m[p];
            && ls != [] && 1 <= n <= 63 && p + n < |m|
            && ls[0] == m[p + 1..p + 1 + n] && LabelsAt(m, p + 1 + n) == Some(ls[1..])
  {
  }

  /** One label: copied behind `dest[..pos]` with a dot after it. */
  method ParseLabel(src: seq<byte>, p: nat, dest: array<byte>, pos: nat, ghost rest: seq<Label>) returns (next: nat)
    requires LabelsAt(src, p + pos) == Some(rest) && src[p + pos] != 0
    requires rest != [] ==> pos + |rest[0]| < dest.Length
    modifies dest
    ensures rest != [] && next == pos + |rest[0]| + 1 && LabelsAt(src, p + next) == Some(rest[1..])
    ensures dest[..next] == old(dest[..pos]) + (rest[0] + [DOT])
    ensures forall i :: next <= i < dest.Length ==> dest[i] == old(dest[i])
  {
    FirstLabel(src, p + pos);
    var len := Signed(src[p + pos]);
    len := if len > 64 then 64 else len;
    for i := 0 to len
      invariant dest[..pos + i] == old(dest[..pos]) + rest[0][..i]
      invariant forall j :: pos + i <= j < dest.Length ==> dest[j] == old(dest[j])
    {
      dest[pos + i] := src[p + pos + i + 1];
    }
    dest[pos + len] := DOT;
    next := pos + len + 1;
  }

  lemma {:induction false} TrailStep(done: seq<Label>, rest: seq<Label>)
    requires rest != []
    ensures Trail(done + [rest[0]]) == Trail(done) + (rest[0] + [DOT])
    ensures |Trail(rest)| == |rest[0]| + 1 + |Trail(rest[1..])|
    ensures done + [rest[0]] + rest[1..] == done + rest
  {
    TrailNext(done, rest[0]);
    Assoc(Trail(done), rest[0], [DOT], []);
  }

  /** Wire to text: the labels of the name at `src[p..]`, joined by dots and terminated. */
  method InetParse(src: seq<byte>, p: nat, dest: array<byte>)
    requires LabelsAt(src, p).Some? && LabelsAt(src, p).value != []
    requires |Dotted(LabelsAt(src, p).value)| < dest.Length
    modifies dest
    ensures var t := Dotted(LabelsAt(src, p).value);
            && dest[..|t| + 1] == t + [0]
            && forall i :: |t| < i < dest.Length ==> dest[i] == old(dest[i])
  {
    ghost var ls := LabelsAt(src, p).value;
    ghost var done, rest: seq<Label> := [], ls;
    TrailIsDotted(ls);
    var pos: nat := 0;
    while src[p + pos] != 0
      invariant LabelsAt(src, p + pos) == Some(rest)
      invariant done + rest == ls && pos + |Trail(rest)| == |Trail(ls)| <= dest.Length
      invariant dest[..pos] == Trail(done)
      invariant forall i :: pos <= i < dest.Length ==> dest[i] == old(dest[i])
      decreases |rest|
    {
      if rest != [] {
        TrailStep(done, rest);
      }
      pos := ParseLabel(src, p, dest, pos, rest);
      done, rest := done + [rest[0]], rest[1..];
    }
    assert rest == [] && done + [] == done;
    dest[pos - 1] := 0;
    assert dest[..pos] == Trail(ls)[..pos - 1] + [0];
  }

  lemma {:induction false} WireHasNoZero(ls: seq<Label>)
    requires Carried(ls) && Textual(ls)
    ensures 0 !in Wire(ls)
  {
    if ls != [] {
      WireHasNoZero(ls[1..]);
    }
  }

  /** Memory that holds the text, and on which the loop stops within `room` bytes. */
  ghost predicate InMemory(mem: seq<byte>, t: Text, room: nat) {
    Stands(mem, 0, t + [0]) && Formatted(mem, 0).Some? && |mem| <= room
  }

  /** Whatever stands behind the terminator, the name's wire form is written first, and at least one byte behind it. */
  lemma {:induction false} FormatsName(mem: seq<byte>, t: Text)
    requires ValidName(t) && InMemory(mem, t, |mem|)
    ensures |Wire(Split(t))| == |t| + 1 && ZeroAt(mem, 0) == |t|
    ensures var w, rest := Formatted(mem, 0).value, Formatted(mem, |t| + 1);
            rest.Some? && w == Wire(Split(t)) + rest.value && |t| + 2 <= |w| <= |mem|
  {
    DottedSplit(t);
    StandsConcat(mem, 0, t, [0]);
    StandsByte(mem, |t|, 0);
    forall i | 0 <= i < |t|
      ensures mem[i] != 0
    {
      assert t[i] == mem[0 + i] && t[i] in t;
    }
    ZeroAtIs(mem, 0, |t|);
    FormattedName(mem, 0, Split(t), |t| + 1);
    WireLength(Split(t));
  }

  /** The first byte behind the name is the length of the segment the loop finds there. */
  lemma {:induction false} FirstBehind(mem: seq<byte>, s: nat)
    requires s <= |mem| && Formatted(mem, s).Some?
    ensures Formatted(mem, s).value[0] == (SegEnd(mem, s) - s) % 256
  {
  }

  /**
   Formatting a name and parsing what was written gives the name back exactly when the segment
   behind the terminator has length 0 in one byte: a zero byte, a dot, or 256 bytes.
   */
  lemma {:induction false} NameRoundTrip(mem: seq<byte>, t: Text)
    requires ValidName(t) && InMemory(mem, t, |mem|)
    ensures Dotted(Split(t)) == t && |t| + 1 <= |mem|
    ensures LabelsAt(Formatted(mem, 0).value, 0) == Some(Split(t)) <==> (SegEnd(mem, |t| + 1) - (|t| + 1)) % 256 == 0
  {
    var wire, rest := Wire(Split(t)), Formatted(mem, |t| + 1);
    var w := Formatted(mem, 0).value;
    DottedSplit(t);
    FormatsName(mem, t);
    FirstBehind(mem, |t| + 1);
    LabelsOfWire(w, 0, Split(t));
    StandsConcat(w, 0, wire, [0]);
    StandsByte(w, |wire|, 0);
    assert forall i :: 0 <= i < |wire| ==> wire[i] == w[0 + i];
    assert w[|wire|] == rest.value[0];
  }

  /**
   Parsing a wire name of textual labels and formatting the text gives the wire name back exactly
   when the byte behind the text's terminator is zero.
   */
  lemma {:induction false} WireRoundTrip(m: seq<byte>, p: nat, mem: seq<byte>)
    requires LabelsAt(m, p).Some? && LabelsAt(m, p).value != [] && Textual(LabelsAt(m, p).value)
    requires Stands(mem, 0, Dotted(LabelsAt(m, p).value) + [0]) && |Dotted(LabelsAt(m, p).value)| + 1 < |mem|
    ensures var ls := LabelsAt(m, p).value;
            && Stands(m, p, Wire(ls) + [0])
            && (Formatted(mem, 0) == Some(Wire(ls) + [0]) <==> mem[|Dotted(ls)| + 1] == 0)
  {
    var ls := LabelsAt(m, p).value;
    SplitDotted(ls);
    LabelsOfWire(m, p, ls);
    FormattedExactly(mem, Dotted(ls));
  }
}
