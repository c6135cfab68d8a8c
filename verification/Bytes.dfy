/** Machine integers, byte strings and the plain sequence operations the model is built from. */
module Bytes {
  type byte = x: int | 0 <= x < 0x100
  type u16 = x: int | 0 <= x < 0x1_0000
  type u32 = x: int | 0 <= x < 0x1_0000_0000

  /** A C string without its terminator. */
  type Text = seq<byte>

  const DOT: byte := 46

  /** The record types with data of their own (section 3.2.2 of RFC 1035 and section 2.1 of RFC 3596). */
  const TYPE_A: byte := 1
  const TYPE_NS: byte := 2
  const TYPE_CNAME: byte := 5
  const TYPE_MX: byte := 15
  const TYPE_AAAA: byte := 28

  datatype Option<+T> = None | Some(value: T)

  /** Big-endian (network order) encodings. */
  function Be16(x: u16): (b: seq<byte>)
    ensures |b| == 2
  {
    [x / 256, x % 256]
  }

  function Be32(x: u32): (b: seq<byte>)
    ensures |b| == 4
  {
    Be16(x / 0x1_0000) + Be16(x % 0x1_0000)
  }

  function U16At(m: seq<byte>, p: nat): u16
    requires p + 2 <= |m|
  {
    var high: int := m[p];
    high * 256 + m[p + 1]
  }

  function U32At(m: seq<byte>, p: nat): u32
    requires p + 4 <= |m|
  {
    var high: int := U16At(m, p);
    high * 0x1_0000 + U16At(m, p + 2)
  }

  lemma {:induction false} TwoBytes(m: seq<byte>, p: nat, x: u16)
    requires p + 2 <= |m|
    ensures m[p..p + 2] == Be16(x) <==> U16At(m, p) == x
  {
    var s := m[p..p + 2];
    assert s[0] == m[p] && s[1] == m[p + 1];
  }

  /** The numbers that two and four bytes stand for, the most significant byte first. */
  function Pair(a: nat, b: nat): nat {
    a * 0x100 + b
  }

  function Quad(a: nat, b: nat, c: nat, d: nat): nat {
    a * 0x100_0000 + b * 0x1_0000 + c * 0x100 + d
  }

  /** Network order, whatever is read or written. */
  lemma {:induction false} NetworkOrder(m: seq<byte>, p: nat, x: u16, y: u32)
    ensures p + 2 <= |m| ==> U16At(m, p) == Pair(m[p], m[p + 1])
    ensures p + 4 <= |m| ==> U32At(m, p) == Quad(m[p], m[p + 1], m[p + 2], m[p + 3])
    ensures Be16(x) == [x / 0x100, x % 0x100]
    ensures Be32(y) == [y / 0x100_0000, y / 0x1_0000 % 0x100, y / 0x100 % 0x100, y % 0x100]
  {
    Quotients(y);
  }

  lemma {:induction false} Quotients(y: u32)
    ensures y / 0x1_0000 / 0x100 == y / 0x100_0000
    ensures y % 0x1_0000 / 0x100 == y / 0x100 % 0x100 && y % 0x1_0000 % 0x100 == y % 0x100
  {
  }

  /** Reading back what was written: both directions of the two integer encodings. */
  lemma {:induction false} BigEndianRoundTrip(m: seq<byte>, p: nat, x: u16, y: u32)
    ensures p + 2 <= |m| ==> (m[p..p + 2] == Be16(x) <==> U16At(m, p) == x)
    ensures p + 4 <= |m| ==> (m[p..p + 4] == Be32(y) <==> U32At(m, p) == y)
  {
    if p + 2 <= |m| {
      TwoBytes(m, p, x);
    }
    if p + 4 <= |m| {
      var high, low := y / 0x1_0000, y % 0x1_0000;
      TwoBytes(m, p, high);
      TwoBytes(m, p + 2, low);
      assert m[p..p + 4] == m[p..p + 2] + m[p + 2..p + 4];
      assert Be32(y)[..2] == Be16(high) && Be32(y)[2..] == Be16(low);
    }
  }

  function Reverse<T>(s: seq<T>): (r: seq<T>)
    ensures |r| == |s|
    ensures forall i :: 0 <= i < |s| ==> r[i] == s[|s| - 1 - i]
  {
    if s == [] then [] else Reverse(s[1..]) + [s[0]]
  }

  lemma {:induction false} ReverseConcat<T>(a: seq<T>, b: seq<T>)
    ensures Reverse(a + b) == Reverse(b) + Reverse(a)
  {
  }

  lemma {:induction false} Assoc<T>(a: seq<T>, b: seq<T>, c: seq<T>, d: seq<T>)
    ensures a + b + c + d == a + (b + (c + d))
    ensures a + b + c == a + (b + c)
  {
  }

  ghost predicate Distinct<T>(s: seq<T>) {
    forall i, j :: 0 <= i < j < |s| ==> s[i] != s[j]
  }
}
