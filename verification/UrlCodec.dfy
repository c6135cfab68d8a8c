/**
 Record data that holds a domain name: suffix compression against the question name when a
 response is built, and pointer expansion when one is read (section 4.1.4 of RFC 1035).
 */
module UrlCodec {
  import opened Bytes
  import opened Names

  predicate NameType(t: u16) {
    t == TYPE_CNAME || t == TYPE_MX || t == TYPE_NS
  }

  /** The two top bits that mark a pointer. */
  predicate PointerLike(b: byte) {
    b >= 192
  }

  function Target(m: seq<byte>, p: nat): nat
    requires p + 2 <= |m|
  {
    U16At(m, p) % 0x4000
  }

  // ---------------------------------------------------------------- what a name means

  /**
   The labels of the name at `p`, as section 4.1.4 of RFC 1035 defines them, where every pointer
   must lead strictly below the start `run` of the label run it ends.
   */
  function Expand(m: seq<byte>, run: nat, p: nat): (r: Option<seq<Label>>)
    ensures r.Some? ==> Carried(r.value)
    decreases run, |m| - p
  {
    if p >= |m| then None
    else if m[p] == 0 then Some([])
    else if m[p] <= 63 then
      if p + m[p] >= |m| then None
      else
        var rest := Expand(m, run, p + 1 + m[p]);
        if rest.None? then None else Some([m[p + 1..p + 1 + m[p]]] + rest.value)
    else if !PointerLike(m[p]) || p + 2 > |m| || Target(m, p) >= run then None
    else Expand(m, Target(m, p), Target(m, p))
  }

  /**
   What the expansion loop copies when it stands at `p`. A pointer met here is followed only if
   the two bytes behind it look like a pointer as well; otherwise the copy ends there.
   */
  function Chase(m: seq<byte>, run: nat, p: nat): (r: Option<seq<byte>>)
    decreases run, |m| - p
  {
    if p >= |m| then None
    else if m[p] == 0 then Some([])
    else if p + 2 > |m| then None
    else if !PointerLike(m[p]) then
      if p + m[p] >= |m| then None else Prepend(m[p..p + 1 + m[p]], Chase(m, run, p + 1 + m[p]))
    else if p + 4 > |m| then None
    else if !PointerLike(m[p + 2]) then Some([])
    else if Target(m, p) >= run then None
    else Chase(m, Target(m, p), Target(m, p))
  }

  /**
   Every pointer met on the way is followed by two pointer-like bytes, except that one which
   leads to the empty name may be followed by anything.
   */
  predicate LooksAhead(m: seq<byte>, run: nat, p: nat)
    requires Expand(m, run, p).Some?
    decreases run, |m| - p
  {
    if m[p] == 0 then true
    else if m[p] <= 63 then LooksAhead(m, run, p + 1 + m[p])
    else
      var t := Target(m, p);
      && p + 4 <= |m|
      && if PointerLike(m[p + 2]) then LooksAhead(m, t, t) else Expand(m, t, t).value == []
  }

  /** The loop copies the name's labels exactly when the look-ahead test never stops it early. */
  lemma {:induction false} ChaseExpands(m: seq<byte>, run: nat, p: nat)
    requires Expand(m, run, p).Some?
    ensures Chase(m, run, p) == Some(Wire(Expand(m, run, p).value)) <==> LooksAhead(m, run, p)
    decreases run, |m| - p
  {
    var ls := Expand(m, run, p).value;
    if m[p] == 0 {
    } else if m[p] <= 63 {
      var q := p + 1 + m[p];
      ChaseExpands(m, run, q);
      var rest := Expand(m, run, q).value;
      assert ls[1..] == rest && ls[0] == m[p + 1..q];
      assert m[p..q] == [m[p]] + m[p + 1..q];
      var head, tail := m[p..q], Wire(rest);
      assert Wire(ls) == head + tail;
      if Chase(m, run, q).Some? {
        SamePrefix(head, Chase(m, run, q).value, tail);
      }
    } else if p + 4 <= |m| {
      var t := Target(m, p);
      ChaseExpands(m, t, t);
      if ls != [] {
        assert |Wire(ls)| > 0;
      }
    }
  }

  /**
   A pointer behind a label is not followed when the second byte pair behind it is no pointer: the
   name ends there.
   */
  lemma {:induction false} ChainedPointerIsCut(m: seq<byte>, run: nat, p: nat, l: Label)
    requires 1 <= |l| <= 63 && p + |l| + 5 <= |m| && m[p] == |l| && Stands(m, p + 1, l)
    requires m[p + |l| + 1] >= 192 && m[p + |l| + 3] < 192
    ensures Chase(m, run, p) == Some([|l|] + l)
  {
    var q := p + 1 + |l|;
    StandsSlice(m, p + 1, l);
    assert m[p..q] == [m[p]] + m[p + 1..q];
    assert Chase(m, run, q) == Some([]);
    assert m[p..q] + [] == m[p..q];
  }

  lemma {:induction false} SamePrefix(a: seq<byte>, b: seq<byte>, c: seq<byte>)
    ensures a + b == a + c <==> b == c
  {
    if a + b == a + c {
      assert (a + b)[|a|..] == b && (a + c)[|a|..] == c;
    }
  }

  // ---------------------------------------------------------------- reading record data

  /** The wire form that reading `len` bytes of record data at `at` puts into the scratch buffer. */
  function ScratchName(m: seq<byte>, at: nat, len: nat): Option<seq<byte>>
    requires 2 <= len && at + len <= |m|
  {
    var last := at + len - 2;
    if !PointerLike(m[last]) then Some(m[at..at + len])
    else if Target(m, last) >= at then None
    else
      var rest := Chase(m, Target(m, last), Target(m, last));
      if rest.None? then None else Some(m[at..last] + rest.value + [0])
  }

  /** The index of the byte that ends the label run at `p`: a zero byte or the start of a pointer. */
  function RunEnd(m: seq<byte>, p: nat): (q: Option<nat>)
    ensures q.Some? ==> p <= q.value < |m| && (m[q.value] == 0 || PointerLike(m[q.value]))
    decreases |m| - p
  {
    if p >= |m| then None
    else if m[p] == 0 || PointerLike(m[p]) then Some(p)
    else if m[p] <= 63 then RunEnd(m, p + 1 + m[p])
    else None
  }

  /** A name is stored in the `len` bytes at `at`: labels, then a zero byte or a pointer. */
  predicate Stored(m: seq<byte>, at: nat, len: nat) {
    var q := RunEnd(m, at);
    q.Some? && at + len == q.value + (if m[q.value] == 0 then 1 else 2) && at + len <= |m|
  }

  lemma {:induction false} RunLabels(m: seq<byte>, run: nat, p: nat)
    requires Expand(m, run, p).Some?
    ensures RunEnd(m, p).Some?
    ensures var q := RunEnd(m, p).value;
            && Expand(m, run, q).Some?
            && Wire(Expand(m, run, p).value) == m[p..q] + Wire(Expand(m, run, q).value)
    decreases |m| - p
  {
    if 0 < m[p] <= 63 {
      var next := p + 1 + m[p];
      RunLabels(m, run, next);
      var q, rest := RunEnd(m, next).value, Expand(m, run, next).value;
      RunGrows(m, p, next, q, Expand(m, run, p).value, rest, Wire(Expand(m, run, q).value));
    } else {
      assert m[p..p] == [];
    }
  }

  lemma {:induction false} RunGrows(m: seq<byte>, p: nat, next: nat, q: nat, ls: seq<Label>, rest: seq<Label>,
                                    end: seq<byte>)
    requires p < next <= q <= |m| && next == p + 1 + m[p] && Carried(ls) && Carried(rest)
    requires ls == [m[p + 1..next]] + rest && Wire(rest) == m[next..q] + end
    ensures Wire(ls) == m[p..q] + end
  {
    assert ls[1..] == rest;
    SlicesJoin(m, p, p + 1, next);
    SlicesJoin(m, p, next, q);
    Assoc(m[p..next], m[next..q], end, []);
  }

  lemma {:induction false} SlicesJoin(m: seq<byte>, p: nat, k: nat, q: nat)
    requires p <= k <= q <= |m|
    ensures m[p..q] == m[p..k] + m[k..q]
  {
  }

  /** What the expansion loop copies never starts like a pointer. */
  lemma {:induction false} ChaseStarts(m: seq<byte>, run: nat, p: nat)
    requires Chase(m, run, p).Some? && Chase(m, run, p).value != []
    ensures !PointerLike(Chase(m, run, p).value[0])
    decreases run, |m| - p
  {
    if PointerLike(m[p]) {
      ChaseStarts(m, Target(m, p), Target(m, p));
    }
  }

  /** Data whose last but one byte looks like a pointer is read with another byte in its place. */
  lemma {:induction false} LosesByte(m: seq<byte>, at: nat, len: nat)
    requires 2 <= len && at + len <= |m| && PointerLike(m[at + len - 2]) && ScratchName(m, at, len).Some?
    ensures var w := ScratchName(m, at, len).value;
            len - 2 < |w| && !PointerLike(w[len - 2])
  {
    var t := Target(m, at + len - 2);
    if Chase(m, t, t).value != [] {
      ChaseStarts(m, t, t);
    }
  }

  /** An uncompressed name reads as it is exactly when its last text byte does not look like a pointer. */
  lemma {:induction false} ReadsPlainName(m: seq<byte>, at: nat, len: nat)
    requires Stored(m, at, len) && len >= 2 && Expand(m, at, at).Some?
    requires m[RunEnd(m, at).value] == 0
    ensures ScratchName(m, at, len) == Some(Wire(Expand(m, at, at).value) + [0])
       <==> !PointerLike(m[RunEnd(m, at).value - 1])
  {
    var q := RunEnd(m, at).value;
    var w := Wire(Expand(m, at, at).value) + [0];
    RunLabels(m, at, at);
    assert m[at..q] + [] == m[at..q];
    assert w == m[at..at + len] && w[len - 2] == m[q - 1];
    if PointerLike(m[q - 1]) && ScratchName(m, at, len).Some? {
      LosesByte(m, at, len);
    }
  }

  /** A compressed name reads as the name it means exactly when the look-ahead test holds along its pointers. */
  lemma {:induction false} ReadsCompressedName(m: seq<byte>, at: nat, len: nat)
    requires Stored(m, at, len) && len >= 2 && Expand(m, at, at).Some?
    requires m[RunEnd(m, at).value] != 0
    ensures var t := Target(m, RunEnd(m, at).value);
            && Expand(m, t, t).Some?
            && (ScratchName(m, at, len) == Some(Wire(Expand(m, at, at).value) + [0]) <==> LooksAhead(m, t, t))
  {
    var q := RunEnd(m, at).value;
    var t := Target(m, q);
    RunLabels(m, at, at);
    ChaseExpands(m, t, t);
    ScratchIs(m, at, len, q, t, Wire(Expand(m, t, t).value));
  }

  lemma {:induction false} ScratchIs(m: seq<byte>, at: nat, len: nat, q: nat, t: nat, w: seq<byte>)
    requires 2 <= len && at <= q == at + len - 2 && at + len <= |m| && PointerLike(m[q]) && t == Target(m, q) < at
    ensures ScratchName(m, at, len) == Some(m[at..q] + w + [0]) <==> Chase(m, t, t) == Some(w)
  {
    if Chase(m, t, t).Some? {
      SameMiddle(m[at..q], Chase(m, t, t).value, w, [0]);
    }
  }

  lemma {:induction false} SameMiddle(a: seq<byte>, b: seq<byte>, c: seq<byte>, d: seq<byte>)
    ensures a + b + d == a + c + d <==> b == c
  {
    if a + b + d == a + c + d {
      assert (a + b + d)[|a|..|a| + |b|] == b && (a + c + d)[|a|..|a| + |c|] == c;
    }
  }

  /** The text that reading `len` bytes of record data yields, if the scratch buffers can hold it. */
  function ReadText(m: seq<byte>, at: nat, len: nat): Option<Text> {
    if len < 2 || at + len > |m| || ScratchName(m, at, len).None? then None
    else
      var w := ScratchName(m, at, len).value;
      var ls := LabelsAt(w, 0);
      if ls.None? || ls.value == [] || |w| > 255 || len > 255 then None else Some(Dotted(ls.value))
  }

  /** Reading `len` bytes of record data at `at` leaves the C string `url`. */
  predicate ReadsBack(m: seq<byte>, at: nat, len: nat, url: Text) {
    ReadText(m, at, len).Some? && CText(ReadText(m, at, len).value) == url
  }

  /** A byte of the text is the wire byte one further on, or the dot that stands for a length. */
  lemma {:induction false} TextOfWire(ls: seq<Label>, i: nat)
    requires Carried(ls) && i < |Dotted(ls)|
    ensures i + 1 < |Wire(ls)|
    ensures Dotted(ls)[i] == Wire(ls)[i + 1] || (Dotted(ls)[i] == DOT && 1 <= Wire(ls)[i + 1] <= 63)
  {
    var n := |ls[0]|;
    if i > n {
      TextOfWire(ls[1..], i - n - 1);
    } else if i == n {
      assert Wire(ls)[n + 1] == Wire(ls[1..])[0];
    }
  }

  /** What is read is no longer than the scratch name allows, and comes from its bytes. */
  lemma {:induction false} ReadBytes(m: seq<byte>, at: nat, len: nat, i: nat)
    requires ReadText(m, at, len).Some? && i < |ReadText(m, at, len).value|
    ensures var w, t := ScratchName(m, at, len).value, ReadText(m, at, len).value;
            && |t| + 2 <= |w| && (t[i] == w[i + 1] || t[i] == DOT)
  {
    var w := ScratchName(m, at, len).value;
    var ls := LabelsAt(w, 0).value;
    LabelsOfWire(w, 0, ls);
    StandsConcat(w, 0, Wire(ls), [0]);
    WireLength(ls);
    TextOfWire(ls, i);
    assert Wire(ls)[i + 1] == w[0 + (i + 1)];
  }

  /** A text byte that looks like a pointer is lost when it is the last but one byte of the data. */
  lemma {:induction false} LosesText(m: seq<byte>, at: nat, len: nat, url: Text)
    requires 3 <= len && at + len <= |m| && len - 3 < |url|
    requires m[at + len - 2] == url[len - 3] && PointerLike(url[len - 3])
    ensures !ReadsBack(m, at, len, url)
  {
    if ReadsBack(m, at, len, url) {
      var t := ReadText(m, at, len).value;
      assert t[len - 3] == url[len - 3];
      ReadBytes(m, at, len, len - 3);
      LosesByte(m, at, len);
    }
  }

  method CopyBytes(m: seq<byte>, z: nat, n: nat, temp: array<byte>, pos: nat)
    requires z + n <= |m| && pos + n <= temp.Length
    modifies temp
    ensures temp[..pos + n] == old(temp[..pos]) + m[z..z + n]
  {
    for i := 0 to n
      invariant temp[..pos + i] == old(temp[..pos]) + m[z..z + i]
    {
      temp[pos + i] := m[z + i];
    }
  }

  /**
   The inner copying loop from offset `off`, appending to `temp[..pos0]`. It ends with another
   pointer to follow in `ptr`, or with the scratch name `total` complete and terminated.
   */
  method CopyRun(m: seq<byte>, off: nat, temp: array<byte>, pos0: nat, ghost total: seq<byte>)
      returns (pos: nat, ptr: u16)
    requires Chase(m, off, off).Some? && pos0 <= temp.Length && |total| <= temp.Length
    requires temp[..pos0] + Chase(m, off, off).value + [0] == total
    modifies temp
    ensures pos <= temp.Length
    ensures if ptr < 0xC000 then temp[..|total|] == total
            else var t := ptr % 0x4000;
                 t < off && Chase(m, t, t).Some? && temp[..pos] + Chase(m, t, t).value + [0] == total
  {
    pos := pos0;
    var z := off;
    while true
      invariant Chase(m, off, z).Some? && pos <= temp.Length
      invariant temp[..pos] + Chase(m, off, z).value + [0] == total
      decreases |m| - z
    {
      if m[z] == 0 {
        temp[pos] := 0;
        ptr := 0;
        break;
      }
      var test1 := U16At(m, z);
      if test1 < 0xC000 {
        var n: nat := m[z];
        ghost var before, rest := temp[..pos], Chase(m, off, z + n + 1).value;
        assert Chase(m, off, z).value == m[z..z + n + 1] + rest;
        CopyBytes(m, z, n + 1, temp, pos);
        Assoc(before, m[z..z + n + 1], rest, []);
        pos, z := pos + n + 1, z + n + 1;
      } else {
        var test2 := U16At(m, z + 2);
        if test2 >= 0xC000 {
          ptr := test1;
        } else {
          ptr := 0;
          temp[pos] := 0;
        }
        break;
      }
    }
  }

  /** Reads a name out of record data: the branch of `urlParse` for CNAME, NS and (past its preference) MX. */
  method ParseName(m: seq<byte>, at: nat, len: nat, dest: array<byte>)
    requires ReadText(m, at, len).Some? && |ReadText(m, at, len).value| < dest.Length
    modifies dest
    ensures var t := ReadText(m, at, len).value;
            dest[..|t| + 1] == t + [0]
  {
    ghost var total := ScratchName(m, at, len).value;
    var temp := new byte[255](_ => 0);
    CopyBytes(m, at, len, temp, 0);
    var pos: nat, ptr: u16 := len - 2, U16At(m, at + len - 2);
    assert temp[..len] == m[at..at + len];
    assert temp[..pos] == temp[..len][..pos] == m[at..at + len - 2];
    while ptr >= 0xC000
      invariant pos <= 255
      invariant if ptr < 0xC000 then temp[..|total|] == total
                else var t := ptr % 0x4000;
                     Chase(m, t, t).Some? && temp[..pos] + Chase(m, t, t).value + [0] == total
      decreases if ptr < 0xC000 then 0 else 1 + ptr % 0x4000
    {
      pos, ptr := CopyRun(m, ptr % 0x4000, temp, pos, total);
    }
    ghost var ls := LabelsAt(total, 0).value;
    SameLabels(total, temp[..], ls);
    InetParse(temp[..], 0, dest);
  }

  lemma {:induction false} SameLabels(total: seq<byte>, m: seq<byte>, ls: seq<Label>)
    requires LabelsAt(total, 0) == Some(ls) && |total| <= |m| && m[..|total|] == total
    ensures LabelsAt(m, 0) == Some(ls)
  {
    LabelsOfWire(total, 0, ls);
    assert forall i :: 0 <= i < |total| ==> total[i] == m[i];
    LabelsOfWire(m, 0, ls);
  }

  // ---------------------------------------------------------------- suffix compression

  /**
   The text of `name` from `k` on also ends `url`, and `k` is 0 or a dot stands before it in both.
   (For `k == 0` the source does not look at the byte before the match in `url`.)
   */
  ghost predicate IsCut(url: Text, name: Text, k: int) {
    && 0 <= k <= |name| && name != [] && |name| - k <= |url|
    && url[|url| - (|name| - k)..] == name[k..]
    && (k > 0 ==> name[k - 1] == DOT && |name| - k < |url| && url[|url| - (|name| - k) - 1] == DOT)
  }

  /** The comparison has matched `url[i..]` and `name[j..]`: whether a cut starts right behind `name[j]`, or at 0. */
  lemma {:induction false} CutHere(url: Text, name: Text, i: int, j: int)
    requires 0 <= i < |url| && 0 <= j < |name| && |url| - i == |name| - j
    requires url[i..] == name[j..]
    ensures IsCut(url, name, j + 1) <==> name[j] == DOT
    ensures j == 0 ==> IsCut(url, name, 0)
  {
    assert url[i] == url[i..][0] == name[j..][0] == name[j];
    assert url[i + 1..] == url[i..][1..] == name[j..][1..] == name[j + 1..];
    assert |url| - (|name| - (j + 1)) == i + 1;
  }

  /** The least cut from `from` on, or -1. */
  ghost predicate CutsFrom(url: Text, name: Text, pos: int, from: int) {
    if pos == -1 then forall k :: from <= k ==> !IsCut(url, name, k)
    else from <= pos && IsCut(url, name, pos) && forall k :: from <= k < pos ==> !IsCut(url, name, k)
  }

  /** The longest repeated suffix, as its start in `name`; -1 when there is none. */
  ghost predicate Cuts(url: Text, name: Text, pos: int) {
    CutsFrom(url, name, pos, 0)
  }

  ghost function CutFrom(url: Text, name: Text, k: nat): (pos: int)
    ensures pos == -1 || (k <= pos <= |name| && IsCut(url, name, pos))
    decreases |name| + 1 - k
  {
    if k > |name| then -1 else if IsCut(url, name, k) then k else CutFrom(url, name, k + 1)
  }

  ghost function CutOf(url: Text, name: Text): int {
    CutFrom(url, name, 0)
  }

  lemma {:induction false} CutFromCuts(url: Text, name: Text, k: nat)
    requires forall j :: j < k ==> !IsCut(url, name, j)
    ensures Cuts(url, name, CutFrom(url, name, k))
    decreases |name| + 1 - k
  {
    if k <= |name| && !IsCut(url, name, k) {
      CutFromCuts(url, name, k + 1);
    }
  }

  lemma {:induction false} CutIsUnique(url: Text, name: Text, pos: int)
    ensures Cuts(url, name, pos) <==> pos == CutOf(url, name)
  {
    CutFromCuts(url, name, 0);
  }

  /** The comparison stopped, at a difference or at the start of `url`: no cut starts further left. */
  lemma {:induction false} NoCutLeft(url: Text, name: Text, i: int, j: int, k: int)
    requires -1 <= i < |url| && 0 <= j < |name| && |url| - i == |name| - j
    requires i >= 0 ==> url[i] != name[j]
    requires k <= j + 1
    ensures !IsCut(url, name, k)
  {
    if i >= 0 && 0 <= k <= j && |name| - k <= |url| {
      var tail, other := url[|url| - (|name| - k)..], name[k..];
      assert tail[j - k] == url[i] && other[j - k] == name[j];
    }
  }

  lemma {:induction false} CutsStep(url: Text, name: Text, i: int, j: int, pos: int)
    requires 0 <= i < |url| && 0 <= j < |name| && |url| - i == |name| - j
    requires url[i] == name[j] && url[i + 1..] == name[j + 1..] && CutsFrom(url, name, pos, j + 2)
    ensures url[i..] == name[j..]
    ensures if j == 0 then Cuts(url, name, 0) else CutsFrom(url, name, if name[j] == DOT then j + 1 else pos, j + 1)
  {
    assert url[i..] == [url[i]] + url[i + 1..] == name[j..];
    CutHere(url, name, i, j);
  }

  lemma {:induction false} CutsStop(url: Text, name: Text, i: int, j: int, pos: int)
    requires -1 <= i < |url| && 0 <= j < |name| && |url| - i == |name| - j
    requires i >= 0 ==> url[i] != name[j]
    requires CutsFrom(url, name, pos, j + 2)
    ensures Cuts(url, name, pos)
  {
    forall k | k <= j + 1
      ensures !IsCut(url, name, k)
    {
      NoCutLeft(url, name, i, j, k);
    }
  }

  /** The backwards comparison of the two texts. */
  method FindCut(url: Text, name: Text) returns (pos: int)
    ensures Cuts(url, name, pos)
  {
    pos := -1;
    var i, j := |url| - 1, |name| - 1;
    while i >= 0 && j >= 0
      invariant -1 <= i < |url| && -1 <= j < |name| && |url| - i == |name| - j
      invariant url[i + 1..] == name[j + 1..]
      invariant CutsFrom(url, name, pos, if j == -1 then 0 else j + 2)
    {
      if url[i] != name[j] {
        break;
      }
      CutsStep(url, name, i, j, pos);
      pos := if j == 0 then 0 else if name[j] == DOT then j + 1 else pos;
      i, j := i - 1, j - 1;
    }
    if j >= 0 {
      CutsStop(url, name, i, j, pos);
    }
  }

  /** The record data laid down for a name: all of it, whatever length is then reported. */
  ghost function NameData(url: Text, name: Text, pointer: u16): (b: seq<byte>)
    requires ValidName(url) && pointer + |name| < 0x1_0000
  {
    var w, pos := Wire(Split(url)) + [0], CutOf(url, name);
    if pos == -1 then w
    else
      WireLength(Split(url));
      DottedSplit(url);
      w[..|url| - (|name| - pos)] + Be16(pointer + pos)
  }

  ghost function RecordData(url: Text, mode: u16, name: Text, pointer: u16, addition: u16): seq<byte>
    requires ValidName(url) && pointer + |name| < 0x1_0000
  {
    (if mode == TYPE_MX then Be16(addition) else []) + NameData(url, name, pointer)
  }

  /** The length reported for it. */
  ghost function RecordLength(url: Text, mode: u16, name: Text): int {
    var pos := CutOf(url, name);
    if pos == -1 then |url| + 2 else |url| - (|name| - pos) + 2 + if mode == TYPE_MX then 2 else 0
  }

  /** The reported length covers the record data except for an MX name that shares no suffix with the question. */
  lemma {:induction false} ReportsLength(url: Text, mode: u16, name: Text, pointer: u16, addition: u16)
    requires ValidName(url) && pointer + |name| < 0x1_0000
    ensures var d, n := RecordData(url, mode, name, pointer, addition), RecordLength(url, mode, name);
            && (n == |d| <==> !(mode == TYPE_MX && CutOf(url, name) == -1))
            && (n != |d| ==> n == |d| - 2)
  {
    WireLength(Split(url));
    DottedSplit(url);
    CutIsUnique(url, name, CutOf(url, name));
  }

  /** Overwrites `dest[at..]` with `bytes`. */
  method Copy(dest: array<byte>, at: nat, bytes: seq<byte>)
    requires at + |bytes| <= dest.Length
    modifies dest
    ensures dest[at..at + |bytes|] == bytes
    ensures forall i :: 0 <= i < at || at + |bytes| <= i < dest.Length ==> dest[i] == old(dest[i])
  {
    for i := 0 to |bytes|
      invariant dest[at..at + i] == bytes[..i]
      invariant forall j :: 0 <= j < at || at + i <= j < dest.Length ==> dest[j] == old(dest[j])
    {
      dest[at + i] := bytes[i];
      assert dest[at..at + i + 1] == dest[at..at + i] + [bytes[i]];
    }
    assert bytes[..|bytes|] == bytes;
  }

  /** What stands in front of the name: the two bytes of an MX preference. */
  function PreferenceSize(mode: u16): nat {
    if mode == TYPE_MX then 2 else 0
  }

  /**
   The branch of `urlFormat` for CNAME, NS and MX. `mem` is the memory from the text on; what
   stands behind the text's terminator does not matter.
   */
  method FormatName(url: Text, mem: seq<byte>, dest: array<byte>, mode: u16, name: Text, pointer: u16, addition: u16)
    returns (ret: int)
    requires NameType(mode) && ValidName(url) && pointer + |name| < 0x1_0000
    requires PreferenceSize(mode) <= dest.Length && InMemory(mem, url, dest.Length - PreferenceSize(mode))
    modifies dest
    ensures ret == RecordLength(url, mode, name)
    ensures var d := RecordData(url, mode, name, pointer, addition);
            |d| <= dest.Length && dest[..|d|] == d
  {
    var start: nat := 0;
    if mode == TYPE_MX {
      Copy(dest, 0, Be16(addition));
      start := 2;
    }
    var pos;
    ReportsLength(url, mode, name, pointer, addition);
    ret, pos := FormatAt(url, mem, dest, start, name, pointer);
    SliceJoin(dest, 0, start, start + |NameData(url, name, pointer)|);
    if pos != -1 && mode == TYPE_MX {
      ret := ret + 2;
    }
  }

  /** Formats the text at `dest[start..]` and puts the pointer over its repeated suffix, or the terminator behind it. */
  method FormatAt(url: Text, mem: seq<byte>, dest: array<byte>, start: nat, name: Text, pointer: u16)
      returns (ret: int, pos: int)
    requires ValidName(url) && pointer + |name| < 0x1_0000
    requires start <= dest.Length && InMemory(mem, url, dest.Length - start)
    modifies dest
    ensures var d := NameData(url, name, pointer);
            ret == |d| <= |url| + 2 && start + |d| <= dest.Length && dest[start..start + |d|] == d
    ensures dest[..start] == old(dest[..start]) && pos == CutOf(url, name)
  {
    pos := FindCut(url, name);
    CutIsUnique(url, name, pos);
    var resLen := PreFormat(url, mem, dest, start);
    ghost var w, d := Wire(Split(url)), NameData(url, name, pointer);
    NameDataFacts(url, name, pointer, pos);
    if pos == -1 {
      WriteEnd(dest, start, w, start + resLen, d);
      return resLen + 1, pos;
    }
    var cmpLen := |name| - pos;
    ret := resLen - cmpLen + 1;
    WritePointer(dest, start, w, resLen - 1 - cmpLen, pointer + pos, d);
  }

  lemma {:induction false} NameDataFacts(url: Text, name: Text, pointer: u16, pos: int)
    requires ValidName(url) && pointer + |name| < 0x1_0000 && pos == CutOf(url, name)
    ensures var w, k := Wire(Split(url)), |url| - (|name| - pos);
            && |w| == |url| + 1 && (pos == -1 || (0 <= k <= |url| && pos <= |name|))
            && NameData(url, name, pointer) == if pos == -1 then w + [0] else w[..k] + Be16(pointer + pos)
  {
    WireLength(Split(url));
    DottedSplit(url);
    if pos != -1 {
      TakeOfConcat(Wire(Split(url)), [0], |url| - (|name| - pos));
    }
  }

  lemma {:induction false} TakeOfConcat(a: seq<byte>, b: seq<byte>, k: nat)
    requires k <= |a|
    ensures (a + b)[..k] == a[..k]
  {
  }

  method PreFormat(url: Text, mem: seq<byte>, dest: array<byte>, start: nat) returns (resLen: nat)
    requires ValidName(url) && start <= dest.Length && InMemory(mem, url, dest.Length - start)
    modifies dest
    ensures resLen == |url| + 1 == |Wire(Split(url))| && start + resLen < dest.Length
    ensures dest[start..start + resLen] == Wire(Split(url)) && dest[..start] == old(dest[..start])
  {
    FormatsName(mem, url);
    var ok;
    ok, resLen := InetFormat(mem, dest, start);
    ghost var w, wire := Formatted(mem, 0).value, Wire(Split(url));
    TakeOfConcat(wire, Formatted(mem, |url| + 1).value, resLen);
    assert w[..resLen] == wire;
    assert dest[start..start + resLen] == dest[start..start + |w|][..resLen];
  }

  method WriteEnd(dest: array<byte>, ghost start: nat, ghost w: seq<byte>, at: nat, ghost d: seq<byte>)
    requires at == start + |w| < dest.Length && dest[start..start + |w|] == w && d == w + [0]
    modifies dest
    ensures dest[start..start + |d|] == d
    ensures dest[..start] == old(dest[..start])
  {
    dest[at] := 0;
    assert dest[start..start + |w|] == w;
  }

  method WritePointer(dest: array<byte>, start: nat, ghost w: seq<byte>, k: nat, x: u16, ghost d: seq<byte>)
    requires start + |w| < dest.Length && dest[start..start + |w|] == w && k < |w| && d == w[..k] + Be16(x)
    modifies dest
    ensures dest[start..start + |d|] == d
    ensures dest[..start] == old(dest[..start])
  {
    assert dest[start..start + k] == dest[start..start + |w|][..k];
    ghost var head := dest[start..start + k];
    Copy(dest, start + k, Be16(x));
    assert dest[start..start + k] == head;
    SliceJoin(dest, start, start + k, start + k + 2);
  }

  lemma {:induction false} SplitCons(l: Label, t: Text)
    requires DOT !in l
    ensures Split(l) == [l] && Split(l + [DOT] + t) == [l] + Split(t)
  {
    var u := l + [DOT] + t;
    FirstDotAt(l, []);
    assert l + [] == l;
    Assoc(l, [DOT], t, []);
    FirstDotAt(l, [DOT] + t);
    assert u[..|l|] == l && u[|l| + 1..] == t;
  }

  lemma {:induction false} SplitConcat(a: Text, b: Text)
    ensures Split(a + [DOT] + b) == Split(a) + Split(b)
  {
    var k := FirstDot(a);
    if k == |a| {
      SplitCons(a, b);
    } else {
      var l, rest := a[..k], a[k + 1..];
      AroundDot(a, k + 1);
      SplitConcat(rest, b);
      SplitCons(l, rest);
      SplitCons(l, rest + [DOT] + b);
      Assoc(l + [DOT], rest, [DOT], b);
      Assoc(rest, [DOT], b, []);
      Assoc([l], Split(rest), Split(b), []);
    }
  }

  /** The text `q + r` split: the last label of `q` runs on into `r`. */
  lemma {:induction false} SplitAcross(q: Text, r: Text)
    requires FirstDot(q) == |q|
    ensures Split(q + r) == [q + Split(r)[0]] + Split(r)[1..]
  {
    var j := FirstDot(r);
    if j < |r| {
      var l, t := r[..j], r[j + 1..];
      assert r == l + [DOT] + t;
      assert q + r == q + l + [DOT] + t;
      SplitCons(l, t);
      SplitCons(q + l, t);
      assert Split(r)[0] == l && Split(r)[1..] == Split(t);
    } else {
      SplitCons(q + r, []);
      assert Split(r)[1..] == [];
    }
  }

  lemma {:induction false} SplitLater(q: Text, r: Text)
    requires FirstDot(q) < |q|
    ensures var k := FirstDot(q);
            Split(q + r) == [q[..k]] + Split(q[k + 1..] + r)
  {
    var l, t := q[..FirstDot(q)], q[FirstDot(q) + 1..];
    assert q == l + [DOT] + t;
    Assoc(l, [DOT], t, r);
    Assoc(l, [DOT], t + r, []);
    SplitCons(l, t + r);
  }

  /** Keeping the first `k` bytes of `w` and going on with `rest` changes only the byte at `k`, to `d`. */
  ghost predicate Patches(w: seq<byte>, k: nat, rest: seq<byte>, d: byte) {
    k < |w| && w[..k] + rest == w[k := d]
  }

  lemma {:induction false} PatchHead(q: seq<byte>, ls: seq<Label>, rs: seq<Label>)
    requires q != [] && rs != [] && ls == [q + rs[0]] + rs[1..] && Carried(ls) && Carried(rs)
    ensures Patches(Wire(ls), |q|, Wire(rs), |rs[0]|)
  {
    var w, d := Wire(rs[1..]), rs[0];
    assert ls[1..] == rs[1..];
    assert Wire(ls) == [|ls[0]|] + (q + d) + w && Wire(rs) == [|d|] + d + w;
  }

  lemma {:induction false} FirstLength(rs: seq<Label>)
    requires Carried(rs) && rs != []
    ensures Patches(Wire(rs), 0, Wire(rs), |rs[0]|)
  {
  }

  lemma {:induction false} CarriedTail(l: Label, tail: seq<Label>)
    requires Carried([l] + tail)
    ensures Carried(tail)
  {
    assert forall i :: 0 <= i < |tail| ==> tail[i] == ([l] + tail)[i + 1];
  }

  lemma {:induction false} PatchTail(l: Label, tail: seq<Label>, i: nat, rest: seq<byte>, d: byte)
    requires Carried([l] + tail) && Carried(tail)
    requires Patches(Wire(tail), i, rest, d)
    ensures Patches(Wire([l] + tail), |l| + 1 + i, rest, d)
  {
    var h: seq<byte>, w := [|l|] + l, Wire(tail);
    assert ([l] + tail)[1..] == tail;
    assert (h + w)[..|h| + i] + rest == h + (w[..i] + rest);
    assert (h + w)[|h| + i := d] == h + w[i := d];
  }

  /**
   Keeping the first `|q|` wire bytes of `q + r` and going on with the wire form of `r` changes
   one byte: the one at `|q|` becomes the length of the first label of `r`.
   */
  lemma {:induction false} CutWire(q: Text, r: Text)
    requires r != [] && Carried(Split(q + r)) && Carried(Split(r))
    ensures Patches(Wire(Split(q + r)), |q|, Wire(Split(r)), |Split(r)[0]|)
    decreases |q|
  {
    var k, rs := FirstDot(q), Split(r);
    if q == [] {
      assert q + r == r;
      FirstLength(rs);
    } else if k == |q| {
      SplitAcross(q, r);
      PatchHead(q, Split(q + r), rs);
    } else {
      var q' := q[k + 1..];
      SplitLater(q, r);
      CarriedTail(q[..k], Split(q' + r));
      CutWire(q', r);
      PatchTail(q[..k], Split(q' + r), |q'|, Wire(rs), |rs[0]|);
    }
  }

  /** Overwriting a wire byte that carries text overwrites that byte of the text. */
  lemma {:induction false} TextByte(ls: seq<Label>, i: nat, x: byte) returns (ls': seq<Label>)
    requires ls != [] && Carried(ls) && 0 < i < |Wire(ls)| && |Wire(ls)| == |Dotted(ls)| + 1
    requires Dotted(ls)[i - 1] != DOT && Textual(ls)
    ensures Carried(ls') && ls' != [] && Wire(ls') == Wire(ls)[i := x]
    ensures Dotted(ls') == Dotted(ls)[i - 1 := x]
  {
    var n := |ls[0]| + 1;
    if i < n {
      ls' := [ls[0][i - 1 := x]] + ls[1..];
      HeadByte(ls, i, x, ls');
    } else {
      assert |ls| > 1 && i != n;
      WireLength(ls[1..]);
      var rest := TextByte(ls[1..], i - n, x);
      ls' := [ls[0]] + rest;
      TailByte(ls, i, x, rest, ls');
    }
  }

  lemma {:induction false} TailByte(ls: seq<Label>, i: nat, x: byte, rest: seq<Label>, ls': seq<Label>)
    requires |ls| > 1 && Carried(ls) && Carried(rest) && rest != [] && ls' == [ls[0]] + rest
    requires |ls[0]| + 1 < i < |Wire(ls)| && |Wire(ls)| == |Dotted(ls)| + 1
    requires Wire(rest) == Wire(ls[1..])[i - |ls[0]| - 1 := x] && Dotted(rest) == Dotted(ls[1..])[i - |ls[0]| - 2 := x]
    ensures Carried(ls') && Wire(ls') == Wire(ls)[i := x] && Dotted(ls') == Dotted(ls)[i - 1 := x]
  {
    var l := ls[0];
    assert ls'[1..] == rest;
    UpdateConcat([|l|] + l, Wire(ls[1..]), i, x);
    UpdateConcat(l + [DOT], Dotted(ls[1..]), i - 1, x);
  }

  lemma {:induction false} HeadByte(ls: seq<Label>, i: nat, x: byte, ls': seq<Label>)
    requires ls != [] && Carried(ls) && 0 < i <= |ls[0]| && ls' == [ls[0][i - 1 := x]] + ls[1..]
    ensures Carried(ls') && Wire(ls') == Wire(ls)[i := x] && Dotted(ls') == Dotted(ls)[i - 1 := x]
  {
    var l := ls[0];
    var h: seq<byte> := [|l|] + l;
    assert ls'[1..] == ls[1..] && h[i := x] == [|l|] + l[i - 1 := x];
    UpdateConcat(h, Wire(ls[1..]), i, x);
    if |ls| > 1 {
      UpdateConcat(l, [DOT] + Dotted(ls[1..]), i - 1, x);
      Assoc(l, [DOT], Dotted(ls[1..]), []);
      Assoc(l[i - 1 := x], [DOT], Dotted(ls[1..]), []);
    }
  }

  lemma {:induction false} UpdateConcat(a: seq<byte>, b: seq<byte>, i: nat, x: byte)
    requires i < |a| + |b|
    ensures (a + b)[i := x] == if i < |a| then a[i := x] + b else a + b[i - |a| := x]
  {
  }

  /** An uncompressed name is copied whole. */
  lemma {:induction false} ChasePlain(m: seq<byte>, run: nat, p: nat, ls: seq<Label>)
    requires Carried(ls) && Stands(m, p, Wire(ls) + [0])
    ensures Chase(m, run, p) == Some(Wire(ls))
    decreases |ls|
  {
    if ls == [] {
      assert Wire(ls) + [0] == [0];
      StandsByte(m, p, 0);
    } else {
      var l := ls[0];
      var q := p + 1 + |l|;
      WireSplits(m, p, ls);
      ChasePlain(m, run, q, ls[1..]);
      StandsSlice(m, p + 1, l);
      assert m[p..q] == [|l|] + m[p + 1..q];
    }
  }

  lemma {:induction false} SplitWire(a: Text, b: Text)
    requires Carried(Split(a + [DOT] + b))
    ensures Carried(Split(a)) && Carried(Split(b))
    ensures Wire(Split(a + [DOT] + b)) == Wire(Split(a)) + Wire(Split(b)) && |Wire(Split(a))| == |a| + 1
  {
    var sa, sb, s := Split(a), Split(b), Split(a + [DOT] + b);
    SplitConcat(a, b);
    assert forall i :: 0 <= i < |sa| ==> sa[i] == s[i];
    assert forall i :: 0 <= i < |sb| ==> sb[i] == s[|sa| + i];
    WireConcat(sa, sb);
    WireLength(sa);
    DottedSplit(a);
  }

  lemma {:induction false} SuffixStands(m: seq<byte>, p: nat, a: Text, r: Text)
    requires Carried(Split(a + [DOT] + r)) && Stands(m, p, Wire(Split(a + [DOT] + r)) + [0])
    ensures Carried(Split(r)) && Stands(m, p + |a| + 1, Wire(Split(r)) + [0])
  {
    SplitWire(a, r);
    var wa, wr: seq<byte> := Wire(Split(a)), Wire(Split(r));
    Assoc(wa, wr, [0], []);
    StandsConcat(m, p, wa, wr + [0]);
  }

  /** The text from a cut on, inside the question name's wire form, starts at the same index. */
  lemma {:induction false} CutStands(m: seq<byte>, p: nat, name: Text, pos: nat)
    requires ValidName(name) && Stands(m, p, Wire(Split(name)) + [0])
    requires pos < |name| && (pos > 0 ==> name[pos - 1] == DOT)
    ensures ValidName(name[pos..]) && Stands(m, p + pos, Wire(Split(name[pos..])) + [0])
  {
    if pos == 0 {
      assert name[0..] == name;
    } else {
      AroundDot(name, pos);
      SuffixStands(m, p, name[..pos - 1], name[pos..]);
    }
  }

  lemma {:induction false} AroundDot(t: Text, k: nat)
    requires 0 < k <= |t| && t[k - 1] == DOT
    ensures t == t[..k - 1] + [DOT] + t[k..]
  {
  }

  /**
   When `name` ends `url`, a dot must stand before it there. (A byte equal to the length of the
   first label of `name` does no harm either: it is what a reader puts in its place.)
   */
  predicate CleanEnd(url: Text, name: Text) {
    |name| < |url| && url[|url| - |name|..] == name ==>
      var before := url[|url| - |name| - 1];
      before == DOT || before == |Split(name)[0]|
  }

  /** The text a reader gets for `url` when the part from `k` on was made a pointer. */
  ghost function Patched(url: Text, k: nat): Text
    requires k <= |url|
  {
    var n := |Split(url[k..])[0]|;
    if k == 0 || url[k - 1] == DOT || n > 255 then url else url[k - 1 := n]
  }

  /** The labels a reader finds in the first `k` wire bytes of `url` followed by the wire form of `url[k..]`. */
  lemma {:induction false} PatchedLabels(url: Text, k: nat, r: Text) returns (ls: seq<Label>)
    requires ValidName(url) && ValidName(r) && k < |url| && r == url[k..]
    ensures |Wire(Split(url))| == |url| + 1
    ensures Carried(ls) && ls != [] && Dotted(ls) == Patched(url, k)
    ensures Wire(Split(url))[..k] + Wire(Split(r)) == Wire(ls)
  {
    ls := Split(url);
    DottedSplit(url);
    WireLength(ls);
    if k == 0 {
      assert r == url;
      assert Wire(ls)[..0] + Wire(ls) == Wire(ls);
    } else {
      var q := url[..k];
      assert url == q + r;
      CutWire(q, r);
      if url[k - 1] == DOT {
        AroundDot(url, k);
        SplitWire(url[..k - 1], r);
        assert Wire(ls)[k] == |Split(r)[0]|;
      } else {
        ls := TextByte(ls, k, |Split(r)[0]|);
      }
    }
  }

  lemma {:induction false} PatchedReads(url: Text, k: nat, r: Text, w: seq<byte>)
    requires ValidName(url) && ValidName(r) && k < |url| && r == url[k..]
    requires |Wire(Split(url))| == |url| + 1 && w == Wire(Split(url))[..k] + Wire(Split(r)) + [0]
    ensures var ls := LabelsAt(w, 0);
            && |w| == |url| + 2 && ls.Some? && ls.value != [] && Dotted(ls.value) == Patched(url, k)
  {
    var ls := PatchedLabels(url, k, r);
    LabelsOfWire(w, 0, ls);
    WireLength(ls);
  }

  /** A name ends in the last byte of its last label, as text and on the wire. */
  lemma {:induction false} LastByte(t: Text)
    requires Carried(Split(t))
    ensures t != [] && t[|t| - 1] != DOT
    ensures |Wire(Split(t))| == |t| + 1 && Wire(Split(t))[|t|] == t[|t| - 1]
  {
    var k, ls := FirstDot(t), Split(t);
    WireLength(ls);
    DottedSplit(t);
    if k == |t| {
      WireOfOne(t, ls);
    } else {
      var rest := t[k + 1..];
      LastByte(rest);
      WireLast(t[..k], Split(rest), ls, |t|);
    }
  }

  lemma {:induction false} WireOfOne(l: Label, ls: seq<Label>)
    requires ls == [l] && Carried(ls)
    ensures l == ls[0] && 1 <= |l| && Wire(ls) == [|l|] + l
  {
    assert Wire(ls[1..]) == [] && Wire(ls) == [|l|] + l + [];
  }

  lemma {:induction false} WireLast(l: Label, rest: seq<Label>, ls: seq<Label>, i: nat)
    requires Carried(rest) && Carried(ls) && ls == [l] + rest && |l| < i <= |l| + |Wire(rest)|
    ensures |Wire(ls)| == |l| + 1 + |Wire(rest)| && Wire(ls)[i] == Wire(rest)[i - |l| - 1]
  {
    assert ls[1..] == rest;
  }

  lemma {:induction false} ReadsPlainData(m: seq<byte>, at: nat, url: Text)
    requires ValidName(url) && |url| + 2 <= 255 && Stands(m, at, Wire(Split(url)) + [0])
    ensures |Wire(Split(url)) + [0]| == |url| + 2 && url != []
    ensures ReadsBack(m, at, |url| + 2, url) <==> !PointerLike(url[|url| - 1])
  {
    var w := Wire(Split(url)) + [0];
    LastByte(url);
    DottedSplit(url);
    assert w[|url|] == m[at + |url|];
    if PointerLike(url[|url| - 1]) {
      LosesText(m, at, |url| + 2, url);
    } else {
      ReadsCleanData(m, at, url, Split(url), w);
    }
  }

  lemma {:induction false} ReadsCleanData(m: seq<byte>, at: nat, url: Text, ls: seq<Label>, w: seq<byte>)
    requires Carried(ls) && ls != [] && url == Dotted(ls) && 0 !in url
    requires w == Wire(ls) + [0] && |w| == |url| + 2 <= 255 && Stands(m, at, w) && !PointerLike(m[at + |url|])
    ensures ReadsBack(m, at, |url| + 2, url)
  {
    StandsSlice(m, at, w);
    LabelsOfWire(w, 0, ls);
    ReadsScratch(m, at, |url| + 2, w, ls);
    CTextOf([], url);
  }

  /** The data of a name sent two bytes short never reads back. */
  lemma {:induction false} ShortDataFails(m: seq<byte>, at: nat, url: Text)
    requires ValidName(url) && |url| <= |Wire(Split(url))| && Stands(m, at, Wire(Split(url))[..|url|])
    ensures !ReadsBack(m, at, |url|, url)
  {
    var w, n := Wire(Split(url)), |url|;
    if ReadsBack(m, at, n, url) {
      assert m[at + (n - 2)] == w[..n][n - 2];
      DottedSplit(url);
      WireLength(Split(url));
      if PointerLike(w[n - 2]) {
        ShortDataLoses(m, at, url, Split(url), n);
      } else {
        ReadBytes(m, at, n, 0);
      }
    }
  }

  lemma {:induction false} ShortDataLoses(m: seq<byte>, at: nat, url: Text, ls: seq<Label>, n: nat)
    requires Carried(ls) && ls != [] && url == Dotted(ls) && 2 <= n == |url| < |Wire(ls)| && at + n <= |m|
    requires m[at + n - 2] == Wire(ls)[n - 2] && PointerLike(Wire(ls)[n - 2])
    ensures !ReadsBack(m, at, n, url)
  {
    assert Wire(ls)[0] == |ls[0]|;
    TextOfWire(ls, n - 3);
    LosesText(m, at, n, url);
  }

  lemma {:induction false} ReadsScratch(m: seq<byte>, at: nat, len: nat, w: seq<byte>, ls: seq<Label>)
    requires 2 <= len <= 255 && at + len <= |m| && ScratchName(m, at, len) == Some(w)
    requires LabelsAt(w, 0) == Some(ls) && ls != [] && |w| <= 255
    ensures ReadText(m, at, len) == Some(Dotted(ls))
  {
  }

  lemma {:induction false} CutSplits(url: Text, name: Text, pos: int) returns (k: nat, r: Text)
    requires ValidName(name) && IsCut(url, name, pos)
    ensures 0 <= pos < |name| && k == |url| - (|name| - pos) && k < |url|
    ensures r == name[pos..] == url[k..]
    ensures pos > 0 ==> k > 0 && url[k - 1] == DOT
  {
    LastByte(name);
    k, r := |url| - (|name| - pos), name[pos..];
  }

  /** Reading labels followed by a pointer to an uncompressed name. */
  lemma {:induction false} ScratchOfCut(m: seq<byte>, at: nat, head: seq<byte>, ls: seq<Label>, p: nat)
    requires Carried(ls) && Stands(m, p, Wire(ls) + [0]) && p < at && p < 0x4000
    requires Stands(m, at, head) && Stands(m, at + |head|, Be16(0xC000 + p))
    ensures ScratchName(m, at, |head| + 2) == Some(head + Wire(ls) + [0])
  {
    var last, ptr := at + |head|, Be16(0xC000 + p);
    assert ptr[0] == m[last + 0] && ptr[1] == m[last + 1];
    assert U16At(m, last) == 0xC000 + p;
    ChasePlain(m, p, p, ls);
    StandsSlice(m, at, head);
  }

  /** `d` stands at `at`: the first `k` wire bytes of `url` and a pointer to the name `r == url[k..]` at `p`. */
  ghost predicate CutData(m: seq<byte>, at: nat, url: Text, k: nat, r: Text, p: nat, d: seq<byte>) {
    && ValidName(url) && ValidName(r) && k < |url| && r == url[k..] && |url| + 2 <= 255
    && Stands(m, p, Wire(Split(r)) + [0]) && p < at && p < 0x4000
    && |Wire(Split(url))| == |url| + 1
    && d == Wire(Split(url))[..k] + Be16(0xC000 + p) && Stands(m, at, d)
  }

  lemma {:induction false} ReadsCutData(m: seq<byte>, at: nat, url: Text, k: nat, r: Text, p: nat, d: seq<byte>)
    requires CutData(m, at, url, k, r, p, d)
    ensures |d| == k + 2 && ReadText(m, at, k + 2) == Some(Patched(url, k))
  {
    var head := Wire(Split(url))[..k];
    StandsConcat(m, at, head, Be16(0xC000 + p));
    ScratchOfCut(m, at, head, Split(r), p);
    PatchedReads(url, k, r, head + Wire(Split(r)) + [0]);
  }

  lemma {:induction false} NameDataIsCut(m: seq<byte>, at: nat, url: Text, name: Text, p: nat, d: seq<byte>)
      returns (k: nat, r: Text, t: nat)
    requires ValidName(url) && ValidName(name) && CutOf(url, name) != -1 && |url| + 2 <= 255
    requires Stands(m, p, Wire(Split(name)) + [0]) && p + |name| + 2 <= at && p + |name| < 0x4000
    requires d == NameData(url, name, 0xC000 + p) && Stands(m, at, d)
    ensures k == |url| - (|name| - CutOf(url, name)) && CutData(m, at, url, k, r, t, d)
  {
    var pos := CutOf(url, name);
    k, r := CutPlace(m, url, name, p, pos);
    t := p + pos;
    CutBytes(url, name, 0xC000 + p, pos, k, t);
  }

  lemma {:induction false} CutBytes(url: Text, name: Text, pointer: u16, pos: int, k: nat, t: nat)
    requires ValidName(url) && pointer + |name| < 0x1_0000 && pos == CutOf(url, name) && 0 <= pos <= |name|
    requires k == |url| - (|name| - pos) && 0xC000 + t == pointer + pos
    ensures |Wire(Split(url))| == |url| + 1 && t < 0x4000
    ensures NameData(url, name, pointer) == Wire(Split(url))[..k] + Be16(0xC000 + t)
  {
    assert pos != -1;
    NameDataFacts(url, name, pointer, pos);
  }

  /** The shared suffix `r` of `url`, which starts at its index `k`, and where its wire form stands. */
  lemma {:induction false} CutPlace(m: seq<byte>, url: Text, name: Text, p: nat, pos: int) returns (k: nat, r: Text)
    requires ValidName(name) && Stands(m, p, Wire(Split(name)) + [0]) && pos == CutOf(url, name) != -1
    ensures 0 <= pos < |name| && IsCut(url, name, pos) && k == |url| - (|name| - pos) < |url| && r == url[k..]
    ensures ValidName(r) && Stands(m, p + pos, Wire(Split(r)) + [0])
  {
    CutIsUnique(url, name, pos);
    k, r := CutSplits(url, name, pos);
    CutStands(m, p, name, pos);
  }

  /**
   Record data laid down for `url` and placed after the question name it may point to reads back
   as `url` exactly when `url` ends cleanly and, sent whole, does not end in a pointer-like byte.
   */
  lemma {:induction false} CompressionRoundTrip(m: seq<byte>, at: nat, url: Text, name: Text, p: nat, d: seq<byte>)
    requires ValidName(url) && ValidName(name) && |url| + 2 <= 255
    requires Stands(m, p, Wire(Split(name)) + [0]) && p + |name| + 2 <= at && p + |name| < 0x4000
    requires d == NameData(url, name, 0xC000 + p) && Stands(m, at, d)
    ensures url != []
    ensures ReadsBack(m, at, |d|, url)
       <==> CleanEnd(url, name) && (CutOf(url, name) == -1 ==> !PointerLike(url[|url| - 1]))
  {
    LastByte(url);
    if CutOf(url, name) == -1 {
      PlainRoundTrip(m, at, url, name, d);
    } else {
      var k, r, t := NameDataIsCut(m, at, url, name, p, d);
      CutRoundTrip(m, at, url, name, k, r, t, d);
    }
  }

  lemma {:induction false} CutRoundTrip(m: seq<byte>, at: nat, url: Text, name: Text, k: nat, r: Text, t: nat,
                                        d: seq<byte>)
    requires CutData(m, at, url, k, r, t, d) && ValidName(name)
    requires CutOf(url, name) != -1 && k == |url| - (|name| - CutOf(url, name))
    ensures ReadsBack(m, at, |d|, url) <==> CleanEnd(url, name)
  {
    ReadsCutData(m, at, url, k, r, t, d);
    PatchedText(url, k, r);
    PatchedIsClean(url, name);
  }

  // ---------------------------------------------------------------- pointers that fall short

  /** While no byte looks like a pointer, the expansion loop copies the memory it stands on, up to a zero byte. */
  lemma {:induction false} ChaseCopies(m: seq<byte>, run: nat, p: nat, e: nat)
    requires Chase(m, run, p).Some? && e <= |m| && forall i :: p <= i < e ==> !PointerLike(m[i])
    ensures var w := Chase(m, run, p).value;
            && (forall i :: 0 <= i < |w| && p + i < e ==> w[i] == m[p + i])
            && (p + |w| < e ==> m[p + |w|] == 0)
    decreases run, |m| - p
  {
    if p < e && m[p] != 0 {
      var q := p + 1 + m[p];
      ChaseCopies(m, run, q, e);
      var w, rest := Chase(m, run, p).value, Chase(m, run, q).value;
      assert w == m[p..q] + rest;
      assert forall i :: q - p <= i < |w| ==> w[i] == rest[i - (q - p)];
    }
  }

  /** What reads back as `url` has a zero byte behind the bytes of `url`. */
  lemma {:induction false} ScratchEnds(m: seq<byte>, at: nat, len: nat, url: Text)
    requires ReadsBack(m, at, len, url)
    ensures var w := ScratchName(m, at, len).value;
            |url| + 1 < |w| && w[|url| + 1] == 0
  {
    var w, t := ScratchName(m, at, len).value, ReadText(m, at, len).value;
    var ls := LabelsAt(w, 0).value;
    LabelsOfWire(w, 0, ls);
    StandsConcat(w, 0, Wire(ls), [0]);
    StandsByte(w, |Wire(ls)|, 0);
    WireLength(ls);
    if |url| < |t| {
      assert t[|url|] == 0;
      ReadBytes(m, at, len, |url|);
    }
  }

  /** Data that points to `p` reads back only if a zero byte stands where the rest of `url` would end. */
  lemma {:induction false} PointsToEnd(m: seq<byte>, at: nat, url: Text, k: nat, p: nat, x: nat)
    requires k < |url| && at + k + 2 <= |m| && U16At(m, at + k) == 0xC000 + p && x == p + |url| - k + 1 < |m|
    requires forall i :: p <= i <= x ==> !PointerLike(m[i])
    requires ReadsBack(m, at, k + 2, url)
    ensures m[x] == 0
  {
    var w := Chased(m, at, k, p);
    ScratchEnds(m, at, k + 2, url);
    ChaseCopies(m, p, p, x + 1);
    InMiddle(m[at..at + k], w, [0], |url| + 1 - k);
  }

  lemma {:induction false} Chased(m: seq<byte>, at: nat, k: nat, p: nat) returns (w: seq<byte>)
    requires at + k + 2 <= |m| && U16At(m, at + k) == 0xC000 + p && ScratchName(m, at, k + 2).Some?
    ensures Chase(m, p, p) == Some(w) && ScratchName(m, at, k + 2).value == m[at..at + k] + w + [0]
  {
    assert PointerLike(m[at + k]) && Target(m, at + k) == p;
    w := Chase(m, p, p).value;
  }

  lemma {:induction false} InMiddle(a: seq<byte>, b: seq<byte>, c: seq<byte>, i: nat)
    requires i < |b| + |c|
    ensures (a + b + c)[|a| + i] == if i < |b| then b[i] else c[i - |b|]
  {
  }

  /**
   A pointer that falls at most the length of the suffix `r` and one byte short of its wire form
   never leads to a name that reads back, as long as no byte on the way looks like a pointer.
   */
  lemma {:induction false} ShortPointerFails(m: seq<byte>, at: nat, url: Text, k: nat, r: Text, t: nat, n: nat,
                                             d: seq<byte>)
    requires ValidName(url) && ValidName(r) && k < |url| && r == url[k..]
    requires Stands(m, t, Wire(Split(r)) + [0]) && 1 <= n <= |r| + 1 && n <= t && t - n < 0x4000
    requires |Wire(Split(url))| == |url| + 1
    requires d == Wire(Split(url))[..k] + Be16(0xC000 + (t - n)) && Stands(m, at, d)
    requires forall i :: t - n <= i < t + |r| + 2 - n && i < |m| ==> !PointerLike(m[i])
    ensures !ReadsBack(m, at, |d|, url)
  {
    var w, x := Wire(Split(r)), t + |r| + 1 - n;
    LastByte(r);
    DottedSplit(r);
    WireHasNoZero(Split(r));
    StandsConcat(m, t, w, [0]);
    assert w[x - t] == m[t + (x - t)] && w[x - t] in w;
    assert d[k] == m[at + k] && d[k + 1] == m[at + (k + 1)];
    if ReadsBack(m, at, k + 2, url) {
      PointsToEnd(m, at, url, k, t - n, x);
    }
  }

  lemma {:induction false} PatchedText(url: Text, k: nat, r: Text)
    requires ValidName(url) && ValidName(r) && k < |url| && r == url[k..]
    ensures CText(Patched(url, k)) == Patched(url, k)
  {
    assert |Split(r)[0]| >= 1;
    assert 0 !in Patched(url, k);
    CTextOf([], Patched(url, k));
  }

  /**
   Without a shared suffix the name is sent whole; it reads back exactly when its last byte does not
   look like a pointer.
   */
  lemma {:induction false} PlainRoundTrip(m: seq<byte>, at: nat, url: Text, name: Text, d: seq<byte>)
    requires ValidName(url) && ValidName(name) && CutOf(url, name) == -1 && |url| + 2 <= 255
    requires d == Wire(Split(url)) + [0] && Stands(m, at, d)
    ensures url != [] && CleanEnd(url, name)
    ensures ReadsBack(m, at, |d|, url) <==> !PointerLike(url[|url| - 1])
  {
    ReadsPlainData(m, at, url);
    LastByte(name);
    CutIsUnique(url, name, -1);
    assert !IsCut(url, name, 0);
  }

  lemma {:induction false} PatchedIsClean(url: Text, name: Text)
    requires ValidName(url) && ValidName(name) && CutOf(url, name) != -1
    ensures var k := |url| - (|name| - CutOf(url, name));
            0 <= k <= |url| && (Patched(url, k) == url <==> CleanEnd(url, name))
  {
    var pos := CutOf(url, name);
    CutIsUnique(url, name, pos);
    var k, r := CutSplits(url, name, pos);
    if pos == 0 {
      assert r == name;
    } else {
      assert !IsCut(url, name, 0);
    }
  }
}
