/**
 Whole messages (section 4.1 of RFC 1035): reading a packet, and building the response to a query
 from the query's own bytes and a list of answers.
 */
module PacketCodec {
  import opened Bytes
  import opened Names
  import opened UrlCodec

  /** The platform's conversions between addresses and their text. */
  datatype Net = Net(
    ntop4: seq<byte> -> Text,
    pton4: Text -> Option<seq<byte>>,
    ntop6: seq<byte> -> Text,
    pton6: Text -> Option<seq<byte>>)
  {
    ghost predicate Lawful() {
      && (forall b :: |b| == 4 ==> pton4(ntop4(b)) == Some(b))
      && (forall b :: |b| == 16 ==> pton6(ntop6(b)) == Some(b))
      && (forall t :: pton4(t).Some? ==> |pton4(t).value| == 4)
      && (forall t :: pton6(t).Some? ==> |pton6(t).value| == 16)
    }
  }

  datatype Quest = Quest(qname: Text, qtype: u16, qclass: u16)

  datatype Answer = Answer(
    qpos: byte, name: u16, rtype: u16, class_: u16, rdlen: u16, ttl: u32, addition: u16, rdata: seq<byte>)

  /** What was read, and the index behind it. */
  datatype Read<+T> = Read(value: T, next: nat)

  // ---------------------------------------------------------------- reading

  /** Two bytes taken as they lie in (little-endian) memory. */
  function RawU16(m: seq<byte>, p: nat): u16
    requires p + 2 <= |m|
  {
    var high: int := m[p + 1];
    high * 256 + m[p]
  }

  /** The largest question name the parser has room for. */
  const QNAME_MAX := 64

  function QuestionAt(m: seq<byte>, p: nat): (r: Option<Read<Quest>>)
    ensures r.Some? ==> 0 !in r.value.value.qname
  {
    var ls := LabelsAt(m, p);
    if ls.None? || ls.value == [] || |Dotted(ls.value)| > QNAME_MAX then None
    else
      var z := ZeroAt(m, p);
      if z + 5 > |m| then None
      else Some(Read(Quest(CText(Dotted(ls.value)), U16At(m, z + 1), U16At(m, z + 3)), z + 5))
  }

  /** `n` items, read one after the other. */
  function ReadAll<T>(read: nat -> Option<Read<T>>, p: nat, n: nat): Option<Read<seq<T>>>
    decreases n
  {
    if n == 0 then Some(Read([], p))
    else
      var first := read(p);
      if first.None? then None
      else
        var rest := ReadAll(read, first.value.next, n - 1);
        if rest.None? then None else Some(Read([first.value.value] + rest.value.value, rest.value.next))
  }

  function QuestionReader(m: seq<byte>): nat -> Option<Read<Quest>> {
    (p: nat) => QuestionAt(m, p)
  }

  /** Record data as text, with the MX preference (0 for the other types, which leave it unset). */
  function RdataAt(net: Net, m: seq<byte>, p: nat, t: u16, len: nat): Option<(Text, u16)>
    requires p + len <= |m|
  {
    if t == TYPE_A then if p + 4 > |m| then None else Some((net.ntop4(m[p..p + 4]), 0))
    else if t == TYPE_AAAA then if p + 16 > |m| then None else Some((net.ntop6(m[p..p + 16]), 0))
    else if t == TYPE_MX then
      if len < 2 || ReadText(m, p + 2, len - 2).None? then None
      else Some((CText(ReadText(m, p + 2, len - 2).value), U16At(m, p)))
    else if NameType(t) then if ReadText(m, p, len).None? then None else Some((CText(ReadText(m, p, len).value), 0))
    else Some(([], 0))
  }

  function AnswerAt(net: Net, m: seq<byte>, p: nat): Option<Read<Answer>> {
    if p + 12 > |m| then None
    else
      var t, len := U16At(m, p + 2), U16At(m, p + 10);
      if p + 12 + len > |m| then None
      else
        var rd := RdataAt(net, m, p + 12, t, len);
        if rd.None? then None
        else
          var a := Answer(0, RawU16(m, p), t, U16At(m, p + 4), len, U32At(m, p + 6), rd.value.1, rd.value.0);
          Some(Read(a, p + 12 + len))
  }

  function AnswerReader(net: Net, m: seq<byte>): nat -> Option<Read<Answer>> {
    (p: nat) => AnswerAt(net, m, p)
  }

  /** A packet with everything that is read from it. The ID is kept in the byte order it arrives in. */
  datatype Message = Message(
    buf: seq<byte>, id: u16, flags: u16, qdcount: u16, ancount: u16, quests: seq<Quest>, ans: seq<Answer>)

  /** The packet in `m`; None when it is truncated or malformed. */
  function Parsed(net: Net, m: seq<byte>): Option<Message> {
    if |m| < 12 then None
    else
      var qd, an := U16At(m, 4), U16At(m, 6);
      var qs := ReadAll(QuestionReader(m), 12, qd);
      if qs.None? then None
      else
        var ans := ReadAll(AnswerReader(net, m), qs.value.next, an);
        if ans.None? then None
        else Some(Message(m, RawU16(m, 0), U16At(m, 2), qd, an, qs.value.value, ans.value.value))
  }

  // ---------------------------------------------------------------- building a response

  /** The lengths the response builder adds up for the questions before number `n`. */
  function NameSum(quests: seq<Quest>, n: nat): nat
    requires n <= |quests|
  {
    if n == 0 then 0 else NameSum(quests, n - 1) + |quests[n - 1].qname| + 5
  }

  /** The NAME field of an answer to question `n`. */
  function NamePointer(quests: seq<Quest>, n: nat): u16
    requires n <= |quests|
  {
    (0xC00C + NameSum(quests, n)) % 0x1_0000
  }

  /** The types whose record data can be put on the wire. */
  predicate Supports(t: u16) {
    t == TYPE_A || t == TYPE_AAAA || NameType(t)
  }

  /** The longest name whose record data the scratch buffer holds; an MX preference stands in front of it. */
  function NameRoom(t: u16): nat {
    if t == TYPE_MX then 251 else 253
  }

  ghost predicate Supported(quests: seq<Quest>, a: Answer) {
    && a.qpos < |quests|
    && (a.rtype == TYPE_A || a.rtype == TYPE_AAAA
        || (NameType(a.rtype) && ValidName(a.rdata) && |a.rdata| <= NameRoom(a.rtype)
            && NamePointer(quests, a.qpos) + |quests[a.qpos].qname| < 0x1_0000))
  }

  /** The record data sent for an answer; an address that does not convert is sent empty. */
  ghost function Rdata(net: Net, quests: seq<Quest>, a: Answer): (d: seq<byte>)
    requires Supported(quests, a)
  {
    if a.rtype == TYPE_A then if net.pton4(a.rdata).Some? then net.pton4(a.rdata).value else []
    else if a.rtype == TYPE_AAAA then if net.pton6(a.rdata).Some? then net.pton6(a.rdata).value else []
    else
      var name := quests[a.qpos].qname;
      var d := RecordData(a.rdata, a.rtype, name, NamePointer(quests, a.qpos), a.addition);
      ReportsLength(a.rdata, a.rtype, name, NamePointer(quests, a.qpos), a.addition);
      d[..RecordLength(a.rdata, a.rtype, name)]
  }

  function SetBit(flags: u16, bit: u16): u16
    requires bit == 0x8000 || bit == 0x400 || bit == 0x100
  {
    if (flags / bit) % 2 == 1 then flags else flags + bit
  }

  /** QR and RD are set; with no answer (or the count 65535) also AA and the name-error code. */
  function ResponseFlags(flags: u16, ancount: u16): u16 {
    var f := SetBit(SetBit(flags, 0x8000), 0x100);
    if ancount == 0 || ancount == 0xFFFF then
      var g := SetBit(f, 0x400);
      g - g % 16 + 3
    else f - f % 16
  }

  ghost function RecordHead(quests: seq<Quest>, a: Answer, len: u16): (h: seq<byte>)
    requires a.qpos <= |quests|
    ensures |h| == 12
  {
    Be16(NamePointer(quests, a.qpos)) + Be16(a.rtype) + Be16(a.class_) + Be32(a.ttl) + Be16(len)
  }

  ghost predicate AllSupported(quests: seq<Quest>, ans: seq<Answer>) {
    forall i :: 0 <= i < |ans| ==> Supported(quests, ans[i])
  }

  lemma {:induction false} RdataLength(net: Net, quests: seq<Quest>, a: Answer)
    requires net.Lawful() && Supported(quests, a)
    ensures |Rdata(net, quests, a)| <= 255
  {
    if NameType(a.rtype) {
      var name := quests[a.qpos].qname;
      ReportsLength(a.rdata, a.rtype, name, NamePointer(quests, a.qpos), a.addition);
      CutIsUnique(a.rdata, name, CutOf(a.rdata, name));
    }
  }

  ghost function Record(net: Net, quests: seq<Quest>, a: Answer): seq<byte>
    requires net.Lawful() && Supported(quests, a)
  {
    RdataLength(net, quests, a);
    var d := Rdata(net, quests, a);
    RecordHead(quests, a, |d|) + d
  }

  ghost function Join(pieces: seq<seq<byte>>): seq<byte> {
    if pieces == [] then [] else pieces[0] + Join(pieces[1..])
  }

  ghost function Records(net: Net, quests: seq<Quest>, ans: seq<Answer>): (pieces: seq<seq<byte>>)
    requires net.Lawful() && AllSupported(quests, ans)
    ensures |pieces| == |ans|
  {
    if ans == [] then [] else [Record(net, quests, ans[0])] + Records(net, quests, ans[1..])
  }

  /** The response to the query `req`: its header with flags and count replaced, its questions, the answers. */
  ghost function Response(net: Net, req: seq<byte>, flags: u16, quests: seq<Quest>, ans: seq<Answer>): seq<byte>
    requires net.Lawful() && AllSupported(quests, ans) && |req| >= 12 && |ans| < 0x1_0000
  {
    req[..2] + Be16(ResponseFlags(flags, |ans|)) + req[4..6] + Be16(|ans|) + req[8..] + Join(Records(net, quests, ans))
  }

  // ---------------------------------------------------------------- the flags, bit by bit

  /** What two flag words have in common, from bit 14 down to bit 4, but for AA and RD. */
  ghost predicate SameFields(r: nat, flags: nat) {
    && r / 0x800 % 0x10 == flags / 0x800 % 0x10
    && r / 0x200 % 2 == flags / 0x200 % 2
    && r / 0x10 % 0x10 == flags / 0x10 % 0x10
  }

  /**
   The flags `r` of a response with `n` answers to a query with the flags `flags`: QR and RD are set;
   AA is set, and the code is a name error, when there are no answers or 65535 of them, and otherwise
   AA is the query's and the code 0; opcode, TC, RA, Z, AD and CD are the query's.
   */
  ghost predicate Marked(r: nat, flags: nat, n: nat) {
    && r / 0x8000 == 1 && r / 0x100 % 2 == 1 && SameFields(r, flags)
    && if n == 0 || n == 0xFFFF then r / 0x400 % 2 == 1 && r % 0x10 == 3
       else r / 0x400 % 2 == flags / 0x400 % 2 && r % 0x10 == 0
  }

  /** The fields of a flag word; `rest` are RA, Z, AD and CD. */
  datatype Fields = Fields(qr: nat, opcode: nat, aa: nat, tc: nat, rd: nat, rest: nat, code: nat)

  ghost predicate Fit(w: Fields) {
    w.qr < 2 && w.opcode < 0x10 && w.aa < 2 && w.tc < 2 && w.rd < 2 && w.rest < 0x10 && w.code < 0x10
  }

  ghost function Word(w: Fields): nat {
    w.qr * 0x8000 + w.opcode * 0x800 + w.aa * 0x400 + w.tc * 0x200 + w.rd * 0x100 + w.rest * 0x10 + w.code
  }

  lemma {:induction false} FieldsOf(f: u16) returns (w: Fields)
    ensures Fit(w) && Word(w) == f
  {
    var low := f / 0x100;
    w := Fields(low / 0x80, low / 8 % 0x10, low / 4 % 2, low / 2 % 2, low % 2, f % 0x100 / 0x10, f % 0x10);
    HighByte(low);
  }

  lemma {:induction false} HighByte(h: nat)
    requires h < 0x100
    ensures h == h / 0x80 * 0x80 + h / 8 % 0x10 * 8 + h / 4 % 2 * 4 + h / 2 % 2 * 2 + h % 2
  {
    assert h / 8 == h / 0x80 * 0x10 + h / 8 % 0x10;
    assert h / 4 == h / 8 * 2 + h / 4 % 2;
    assert h / 2 == h / 4 * 2 + h / 2 % 2;
  }

  lemma {:induction false} WordIs(w: Fields)
    requires Fit(w)
    ensures var f := Word(w);
            && f < 0x1_0000 && f / 0x8000 == w.qr && f / 0x800 % 0x10 == w.opcode && f / 0x400 % 2 == w.aa
            && f / 0x200 % 2 == w.tc && f / 0x100 % 2 == w.rd && f / 0x10 % 0x10 == w.rest && f % 0x10 == w.code
  {
    var f := Word(w);
    assert f / 0x800 == w.qr * 0x10 + w.opcode;
    assert f / 0x400 == (w.qr * 0x10 + w.opcode) * 2 + w.aa;
    assert f / 0x200 == ((w.qr * 0x10 + w.opcode) * 2 + w.aa) * 2 + w.tc;
    assert f / 0x100 == (((w.qr * 0x10 + w.opcode) * 2 + w.aa) * 2 + w.tc) * 2 + w.rd;
    assert f / 0x10 == ((((w.qr * 0x10 + w.opcode) * 2 + w.aa) * 2 + w.tc) * 2 + w.rd) * 0x10 + w.rest;
  }

  lemma {:induction false} SetFields(w: Fields)
    requires Fit(w)
    ensures Word(w) < 0x1_0000 && SetBit(Word(w), 0x8000) == Word(w.(qr := 1))
    ensures SetBit(Word(w), 0x100) == Word(w.(rd := 1)) && SetBit(Word(w), 0x400) == Word(w.(aa := 1))
  {
    WordIs(w);
  }

  /** The fields of a response's flags. */
  ghost function MarkedFields(w: Fields, n: u16): (r: Fields)
    requires Fit(w)
    ensures Fit(r)
  {
    var none := n == 0 || n == 0xFFFF;
    w.(qr := 1, rd := 1, aa := if none then 1 else w.aa, code := if none then 3 else 0)
  }

  lemma {:induction false} ResponseFields(w: Fields, n: u16)
    requires Fit(w)
    ensures Word(w) < 0x1_0000 && ResponseFlags(Word(w), n) == Word(MarkedFields(w, n))
  {
    SetFields(w);
    SetFields(w.(qr := 1));
    var r := w.(qr := 1, rd := 1);
    SetFields(r);
    CodeIs(r);
    CodeIs(r.(aa := 1));
  }

  lemma {:induction false} CodeIs(w: Fields)
    requires Fit(w)
    ensures Word(w) % 0x10 == w.code
  {
    WordIs(w);
  }

  lemma {:induction false} ResponseIsMarked(flags: u16, n: u16)
    ensures Marked(ResponseFlags(flags, n), flags, n)
  {
    var w := FieldsOf(flags);
    WordIs(w);
    ResponseFields(w, n);
    WordIs(MarkedFields(w, n));
  }

  // ---------------------------------------------------------------- the layout, byte by byte

  /** The header: ID as it lies in memory, flags, and the counts of questions and answers. */
  lemma {:induction false} HeaderLayout(net: Net, m: seq<byte>, p: Message)
    requires Parsed(net, m) == Some(p)
    ensures 12 <= |m| && p.id == Pair(m[1], m[0]) && p.flags == Pair(m[2], m[3])
    ensures p.qdcount == Pair(m[4], m[5]) && p.ancount == Pair(m[6], m[7])
  {
  }

  /** A question: type and class behind the zero byte of its name. */
  lemma {:induction false} QuestionLayout(m: seq<byte>, p: nat, q: Quest, next: nat)
    requires QuestionAt(m, p) == Some(Read(q, next))
    ensures p + 5 <= next <= |m| && m[next - 5] == 0 && forall i :: p <= i < next - 5 ==> m[i] != 0
    ensures q.qtype == Pair(m[next - 4], m[next - 3]) && q.qclass == Pair(m[next - 2], m[next - 1])
    ensures LabelsAt(m, p).Some? && q.qname == CText(Dotted(LabelsAt(m, p).value))
  {
    var z := ZeroAt(m, p);
    assert next == z + 5;
  }

  /** An answer: name, type, class, time to live, length and data. */
  lemma {:induction false} AnswerLayout(net: Net, m: seq<byte>, p: nat, a: Answer, next: nat)
    requires AnswerAt(net, m, p) == Some(Read(a, next))
    ensures p + 12 <= |m| && a.name == Pair(m[p + 1], m[p])
    ensures a.rtype == Pair(m[p + 2], m[p + 3]) && a.class_ == Pair(m[p + 4], m[p + 5])
    ensures a.ttl == Quad(m[p + 6], m[p + 7], m[p + 8], m[p + 9])
    ensures a.rdlen == Pair(m[p + 10], m[p + 11]) && next == p + 12 + a.rdlen <= |m|
    ensures a.rtype == 1 ==> p + 16 <= |m| && a.rdata == net.ntop4(m[p + 12..p + 16])
    ensures a.rtype == 28 ==> p + 28 <= |m| && a.rdata == net.ntop6(m[p + 12..p + 28])
    ensures a.rtype == 2 || a.rtype == 5 ==> ReadsBack(m, p + 12, a.rdlen, a.rdata)
    ensures a.rtype == 15 ==>
              2 <= a.rdlen && ReadsBack(m, p + 14, a.rdlen - 2, a.rdata) && a.addition == Pair(m[p + 12], m[p + 13])
  {
    NetworkOrder(m, p + 6, 0, 0);
  }

  /** The twelve bytes in front of an answer's data. */
  lemma {:induction false} RecordLayout(quests: seq<Quest>, a: Answer, len: u16)
    requires a.qpos <= |quests|
    ensures var n := NamePointer(quests, a.qpos);
            RecordHead(quests, a, len) ==
            [n / 0x100, n % 0x100, a.rtype / 0x100, a.rtype % 0x100, a.class_ / 0x100, a.class_ % 0x100,
             a.ttl / 0x100_0000, a.ttl / 0x1_0000 % 0x100, a.ttl / 0x100 % 0x100, a.ttl % 0x100,
             len / 0x100, len % 0x100]
  {
    NetworkOrder([], 0, 0, a.ttl);
  }

  /** The data of a printed address is that address, byte by byte. */
  lemma {:induction false} AddressLayout(net: Net, quests: seq<Quest>, a: Answer, b: seq<byte>)
    requires net.Lawful() && a.qpos < |quests|
    requires || (a.rtype == 1 && |b| == 4 && a.rdata == net.ntop4(b))
             || (a.rtype == 28 && |b| == 16 && a.rdata == net.ntop6(b))
    ensures Supported(quests, a) && Rdata(net, quests, a) == b
    ensures Record(net, quests, a) == RecordHead(quests, a, |b|) + b
  {
  }

  /** The response: the query's bytes but for flags and answer count, then the records. */
  lemma {:induction false} ResponseLayout(net: Net, req: seq<byte>, flags: u16, quests: seq<Quest>, ans: seq<Answer>,
                                          m: seq<byte>)
    requires net.Lawful() && AllSupported(quests, ans) && |req| >= 12 && |ans| < 0x1_0000
    requires m == Response(net, req, flags, quests, ans)
    ensures |m| == |req| + |Join(Records(net, quests, ans))|
    ensures forall i :: 0 <= i < |req| && i != 2 && i != 3 && i != 6 && i != 7 ==> m[i] == req[i]
    ensures Pair(m[2], m[3]) == ResponseFlags(flags, |ans|) && Pair(m[6], m[7]) == |ans|
  {
    var f, n := Be16(ResponseFlags(flags, |ans|)), Be16(|ans|);
    PatchedRequest(m, req, f, n, Join(Records(net, quests, ans)));
    assert f[0] == m[2 + 0] && f[1] == m[2 + 1] && n[0] == m[6 + 0] && n[1] == m[6 + 1];
  }

  // ---------------------------------------------------------------- the name field

  /** Where question `n` really starts in the packet. */
  function QuestionOffset(quests: seq<Quest>, n: nat): nat
    requires n <= |quests|
  {
    if n == 0 then 12 else QuestionOffset(quests, n - 1) + |quests[n - 1].qname| + 6
  }

  /** The NAME field falls short of its question by one byte per earlier question. */
  lemma {:induction false} NamePointerFallsShort(quests: seq<Quest>, n: nat)
    requires n <= |quests|
    ensures 0xC00C + NameSum(quests, n) == 0xC000 + QuestionOffset(quests, n) - n
    ensures NamePointer(quests, n) == (0xC000 + QuestionOffset(quests, n) - n) % 0x1_0000
  {
    if n != 0 {
      NamePointerFallsShort(quests, n - 1);
    }
  }

  lemma {:induction false} SubtractsNothing(x: nat, n: nat)
    requires n < 0x1_0000 && n <= x
    ensures (x - n) % 0x1_0000 == x % 0x1_0000 <==> n == 0
  {
  }

  /** It points at its question, as far as 16 bits can tell, exactly for answers to the first question. */
  lemma {:induction false} NamePointerIsExact(quests: seq<Quest>, n: nat)
    requires n <= |quests| && n < 0x1_0000
    ensures NamePointer(quests, n) == (0xC000 + QuestionOffset(quests, n)) % 0x1_0000 <==> n == 0
  {
    NamePointerFallsShort(quests, n);
    SubtractsNothing(0xC000 + QuestionOffset(quests, n), n);
  }

  // ---------------------------------------------------------------- the round trip

  ghost function QuestionBytes(q: Quest): seq<byte>
    requires ValidName(q.qname)
  {
    Wire(Split(q.qname)) + [0] + Be16(q.qtype) + Be16(q.qclass)
  }

  ghost predicate Askable(quests: seq<Quest>) {
    forall i :: 0 <= i < |quests| ==> ValidName(quests[i].qname) && |quests[i].qname| <= QNAME_MAX
  }

  ghost function QuestionPieces(quests: seq<Quest>): (pieces: seq<seq<byte>>)
    requires Askable(quests)
    ensures |pieces| == |quests|
  {
    if quests == [] then [] else [QuestionBytes(quests[0])] + QuestionPieces(quests[1..])
  }

  /** The question section. */
  ghost function Section(quests: seq<Quest>): seq<byte>
    requires Askable(quests)
  {
    Join(QuestionPieces(quests))
  }

  /** A header that counts the questions, and the questions behind it. */
  ghost predicate Poses(req: seq<byte>, quests: seq<Quest>) {
    Askable(quests) && |req| >= 12 && U16At(req, 4) == |quests| && Stands(req, 12, Section(quests))
  }

  /** A query with nothing behind its questions. */
  ghost predicate IsQuery(req: seq<byte>, quests: seq<Quest>) {
    Poses(req, quests) && |req| == 12 + |Section(quests)|
  }

  /** Reading `rdata` back: an address some address prints as, or a name the compressor handles. */
  ghost predicate Restorable(net: Net, quests: seq<Quest>, a: Answer)
    requires Supported(quests, a)
  {
    var name := quests[a.qpos].qname;
    if a.rtype == TYPE_A then exists b :: |b| == 4 && a.rdata == net.ntop4(b)
    else if a.rtype == TYPE_AAAA then exists b :: |b| == 16 && a.rdata == net.ntop6(b)
    else NameRestorable(a.rdata, a.rtype, name)
  }

  ghost predicate NameRestorable(url: Text, t: u16, name: Text) {
    if CutOf(url, name) == -1 then t != TYPE_MX && url != [] && !PointerLike(url[|url| - 1]) else CleanEnd(url, name)
  }

  /** The answer is a name that is sent compressed. */
  ghost predicate Compressed(quests: seq<Quest>, a: Answer)
    requires Supported(quests, a)
  {
    NameType(a.rtype) && CutOf(a.rdata, quests[a.qpos].qname) != -1
  }

  /**
   The suffix that `url` shares with the question name stands in the question section where the
   pointer to it leads.
   */
  ghost predicate Leads(section: seq<byte>, pointer: nat, url: Text, name: Text) {
    var pos := CutOf(url, name);
    pos != -1 ==>
      && ValidName(name[pos..]) && 0xC00C <= pointer + pos
      && Stands(section, pointer + pos - 0xC00C, Wire(Split(name[pos..])) + [0])
  }

  /** The pointer of a compressed name leads to its suffix. */
  ghost predicate Placed(quests: seq<Quest>, a: Answer)
    requires Askable(quests) && Supported(quests, a)
  {
    NameType(a.rtype) ==> Leads(Section(quests), NamePointer(quests, a.qpos), a.rdata, quests[a.qpos].qname)
  }

  /** No byte of the question section looks like a pointer. */
  ghost predicate Low(quests: seq<Quest>)
    requires Askable(quests)
  {
    forall i :: 0 <= i < |Section(quests)| ==> !PointerLike(Section(quests)[i])
  }

  /**
   A pointer that misses its suffix does so by at most the length of the suffix and one byte, over
   bytes below 192.
   */
  ghost predicate Decided(quests: seq<Quest>, a: Answer)
    requires Askable(quests) && Supported(quests, a)
  {
    Compressed(quests, a) && !Placed(quests, a) ==>
      var name := quests[a.qpos].qname;
      a.qpos <= |name| - CutOf(a.rdata, name) + 1 && Low(quests)
  }

  /** What reading an answer's record must give: all of the answer but its question number. */
  ghost function Restored(net: Net, quests: seq<Quest>, a: Answer): (r: Answer)
    requires net.Lawful() && Supported(quests, a)
    ensures r.rtype == a.rtype && r.class_ == a.class_ && r.ttl == a.ttl && r.rdata == a.rdata
    ensures a.rtype == TYPE_MX ==> r.addition == a.addition
  {
    RdataLength(net, quests, a);
    var pointer := NamePointer(quests, a.qpos);
    Answer(0, pointer % 256 * 256 + pointer / 256, a.rtype, a.class_, |Rdata(net, quests, a)|, a.ttl,
           if a.rtype == TYPE_MX then a.addition else 0, a.rdata)
  }

  ghost function AllRestored(net: Net, quests: seq<Quest>, ans: seq<Answer>): (rs: seq<Answer>)
    requires net.Lawful() && AllSupported(quests, ans)
    ensures |rs| == |ans|
  {
    if ans == [] then [] else [Restored(net, quests, ans[0])] + AllRestored(net, quests, ans[1..])
  }

  /** At `p` an item is read up to `end`, and exactly if `ok` as `val`. */
  ghost predicate ReadsAs<T>(read: nat -> Option<Read<T>>, p: nat, end: nat, val: T, ok: bool) {
    && (read(p) == Some(Read(val, end)) <==> ok)
    && (read(p).Some? ==> read(p).value.next == end)
  }

  /** Where piece `i` starts when the pieces stand one behind the other from `p` on. */
  ghost function Place(p: nat, pieces: seq<seq<byte>>, i: nat): nat
    requires i <= |pieces|
    decreases i
  {
    if i == 0 then p else Place(p + |pieces[0]|, pieces[1..], i - 1)
  }

  /** Every piece is read to its end, and exactly if its `oks` says so as its `vals`. */
  ghost predicate AllRead<T>(read: nat -> Option<Read<T>>, p: nat, pieces: seq<seq<byte>>, vals: seq<T>, oks: seq<bool>)
    requires |pieces| == |vals| == |oks|
  {
    forall i :: 0 <= i < |pieces| ==> ReadsAs(read, Place(p, pieces, i), Place(p, pieces, i + 1), vals[i], oks[i])
  }

  lemma {:induction false} AllReadTail<T>(read: nat -> Option<Read<T>>, p: nat, pieces: seq<seq<byte>>, vals: seq<T>,
                                          oks: seq<bool>)
    requires |pieces| == |vals| == |oks| > 0 && AllRead(read, p, pieces, vals, oks)
    ensures ReadsAs(read, p, p + |pieces[0]|, vals[0], oks[0])
    ensures AllRead(read, p + |pieces[0]|, pieces[1..], vals[1..], oks[1..])
  {
    assert Place(p, pieces, 0) == p && Place(p, pieces, 1) == p + |pieces[0]|;
    forall i | 0 <= i < |pieces| - 1
      ensures ReadsAs(read, Place(p + |pieces[0]|, pieces[1..], i), Place(p + |pieces[0]|, pieces[1..], i + 1),
                      vals[1..][i], oks[1..][i])
    {
      assert ReadsAs(read, Place(p, pieces, i + 1), Place(p, pieces, i + 2), vals[i + 1], oks[i + 1]);
    }
  }

  lemma {:induction false} JoinStands(m: seq<byte>, p: nat, pieces: seq<seq<byte>>, i: nat)
    requires Stands(m, p, Join(pieces)) && i < |pieces|
    ensures p <= Place(p, pieces, i) && Stands(m, Place(p, pieces, i), pieces[i])
    ensures Place(p, pieces, i + 1) == Place(p, pieces, i) + |pieces[i]|
    decreases i
  {
    StandsConcat(m, p, pieces[0], Join(pieces[1..]));
    if i > 0 {
      JoinStands(m, p + |pieces[0]|, pieces[1..], i - 1);
    }
  }

  ghost predicate AllTrue(oks: seq<bool>) {
    oks == [] || (oks[0] && AllTrue(oks[1..]))
  }

  /** Items one behind the other are read as their values exactly when each of them is. */
  lemma {:induction false} ReadsJoined<T>(read: nat -> Option<Read<T>>, p: nat,
                                          pieces: seq<seq<byte>>, vals: seq<T>, oks: seq<bool>, n: nat, end: nat)
    requires |pieces| == |vals| == |oks| == n && end == p + |Join(pieces)|
    requires AllRead(read, p, pieces, vals, oks)
    ensures ReadAll(read, p, n) == Some(Read(vals, end)) <==> AllTrue(oks)
    ensures ReadAll(read, p, n).Some? ==> ReadAll(read, p, n).value.next == end
    decreases n
  {
    if n != 0 {
      var next := p + |pieces[0]|;
      AllReadTail(read, p, pieces, vals, oks);
      ReadsJoined(read, next, pieces[1..], vals[1..], oks[1..], n - 1, end);
      ReadsOneMore(read, p, vals, n, end, next, oks[0]);
    }
  }

  lemma {:induction false} ReadsOneMore<T>(read: nat -> Option<Read<T>>, p: nat, vals: seq<T>, n: nat, end: nat,
                                           next: nat, ok: bool)
    requires |vals| == n > 0 && ReadsAs(read, p, next, vals[0], ok)
    ensures ReadAll(read, p, n) == Some(Read(vals, end))
       <==> ok && ReadAll(read, next, n - 1) == Some(Read(vals[1..], end))
  {
    assert [vals[0]] + vals[1..] == vals;
    if ReadAll(read, p, n) == Some(Read(vals, end)) {
      var rest := ReadAll(read, next, n - 1).value.value;
      assert vals[0] == read(p).value.value && vals[1..] == rest;
    }
  }

  lemma {:induction false} StandsBe16(m: seq<byte>, p: nat, x: u16)
    requires Stands(m, p, Be16(x))
    ensures p + 2 <= |m| && U16At(m, p) == x
  {
    StandsSlice(m, p, Be16(x));
    BigEndianRoundTrip(m, p, x, 0);
  }

  lemma {:induction false} StandsBe32(m: seq<byte>, p: nat, x: u32)
    requires Stands(m, p, Be32(x))
    ensures p + 4 <= |m| && U32At(m, p) == x
  {
    StandsSlice(m, p, Be32(x));
    BigEndianRoundTrip(m, p, 0, x);
  }

  lemma {:induction false} HeadStands(m: seq<byte>, p: nat, quests: seq<Quest>, a: Answer, len: u16, d: seq<byte>)
    requires a.qpos <= |quests| && Stands(m, p, RecordHead(quests, a, len) + d)
    ensures p + 12 + |d| <= |m| && Stands(m, p + 12, d)
    ensures RawU16(m, p) == NamePointer(quests, a.qpos) % 256 * 256 + NamePointer(quests, a.qpos) / 256
    ensures U16At(m, p + 2) == a.rtype && U16At(m, p + 4) == a.class_
    ensures U32At(m, p + 6) == a.ttl && U16At(m, p + 10) == len
  {
    var n, t, c, l := Be16(NamePointer(quests, a.qpos)), Be16(a.rtype), Be16(a.class_), Be32(a.ttl);
    StandsConcat(m, p, RecordHead(quests, a, len), d);
    StandsConcat(m, p, n + t + c + l, Be16(len));
    StandsConcat(m, p, n + t + c, l);
    StandsConcat(m, p, n + t, c);
    StandsConcat(m, p, n, t);
    assert n[0] == m[p + 0] && n[1] == m[p + 1];
    StandsBe16(m, p + 2, a.rtype);
    StandsBe16(m, p + 4, a.class_);
    StandsBe32(m, p + 6, a.ttl);
    StandsBe16(m, p + 10, len);
  }

  /** The parts of a question where its bytes stand. */
  lemma {:induction false} QuestionParts(m: seq<byte>, p: nat, q: Quest, w: seq<byte>)
    requires ValidName(q.qname) && w == Wire(Split(q.qname)) && Stands(m, p, QuestionBytes(q))
    ensures Stands(m, p, w + [0]) && Stands(m, p, w) && p + |w| + 5 <= |m| && m[p + |w|] == 0
    ensures U16At(m, p + |w| + 1) == q.qtype && U16At(m, p + |w| + 3) == q.qclass
  {
    StandsConcat(m, p, w + [0] + Be16(q.qtype), Be16(q.qclass));
    StandsConcat(m, p, w + [0], Be16(q.qtype));
    StandsConcat(m, p, w, [0]);
    StandsByte(m, p + |w|, 0);
    StandsBe16(m, p + |w| + 1, q.qtype);
    StandsBe16(m, p + |w| + 3, q.qclass);
  }

  lemma {:induction false} QuestionRoundTrip(m: seq<byte>, p: nat, q: Quest)
    requires ValidName(q.qname) && |q.qname| <= 64 && Stands(m, p, QuestionBytes(q))
    ensures |QuestionBytes(q)| == |q.qname| + 6
    ensures QuestionAt(m, p) == Some(Read(q, p + |q.qname| + 6))
  {
    var ls := Split(q.qname);
    var w := Wire(ls);
    DottedSplit(q.qname);
    CTextOf([], q.qname);
    WireLength(ls);
    WireHasNoZero(ls);
    QuestionParts(m, p, q, w);
    LabelsOfWire(m, p, ls);
    assert ZeroAt(m, p) == p + |w| by {
      assert forall i :: p <= i < p + |w| ==> m[i] == w[i - p];
      ZeroAtIs(m, p, p + |w|);
    }
  }

  ghost function Yes(n: nat): (oks: seq<bool>)
    ensures |oks| == n && AllTrue(oks) && forall i :: 0 <= i < n ==> oks[i]
  {
    if n == 0 then [] else [true] + Yes(n - 1)
  }

  lemma {:induction false} QuestionPieceAt(qs: seq<Quest>, i: nat)
    requires Askable(qs) && i < |qs|
    ensures QuestionPieces(qs)[i] == QuestionBytes(qs[i])
  {
    if i > 0 {
      QuestionPieceAt(qs[1..], i - 1);
    }
  }

  lemma {:induction false} QuestionReads(m: seq<byte>, p: nat, qs: seq<Quest>, pieces: seq<seq<byte>>, i: nat)
    requires Askable(qs) && pieces == QuestionPieces(qs) && Stands(m, p, Join(pieces)) && i < |qs|
    ensures ReadsAs(QuestionReader(m), Place(p, pieces, i), Place(p, pieces, i + 1), qs[i], true)
  {
    JoinStands(m, p, pieces, i);
    QuestionPieceAt(qs, i);
    PieceReads(m, Place(p, pieces, i), qs[i], pieces[i], Place(p, pieces, i + 1));
  }

  lemma {:induction false} PieceReads(m: seq<byte>, p: nat, q: Quest, piece: seq<byte>, end: nat)
    requires ValidName(q.qname) && |q.qname| <= QNAME_MAX && piece == QuestionBytes(q)
    requires Stands(m, p, piece) && end == p + |piece|
    ensures ReadsAs(QuestionReader(m), p, end, q, true)
  {
    QuestionRoundTrip(m, p, q);
  }

  lemma {:induction false} QuestionsRoundTrip(m: seq<byte>, p: nat, qs: seq<Quest>, n: nat, end: nat)
    requires Askable(qs) && Stands(m, p, Section(qs))
    requires n == |qs| && end == p + |Section(qs)|
    ensures ReadAll(QuestionReader(m), p, n) == Some(Read(qs, end))
  {
    var pieces := QuestionPieces(qs);
    forall i | 0 <= i < n
      ensures ReadsAs(QuestionReader(m), Place(p, pieces, i), Place(p, pieces, i + 1), qs[i], Yes(n)[i])
    {
      QuestionReads(m, p, qs, pieces, i);
    }
    ReadsJoined(QuestionReader(m), p, pieces, qs, Yes(n), n, end);
  }

  // ---------------------------------------------------------------- where pointers lead

  lemma {:induction false} StandsIn(m: seq<byte>, p: nat, s: seq<byte>, i: nat, w: seq<byte>)
    requires Stands(m, p, s) && Stands(s, i, w)
    ensures Stands(m, p + i, w)
  {
    forall j | 0 <= j < |w|
      ensures w[j] == m[p + i + j]
    {
      assert s[i + j] == m[p + (i + j)];
    }
  }

  lemma {:induction false} PlaceIsOffset(p: nat, quests: seq<Quest>, n: nat)
    requires Askable(quests) && n <= |quests|
    ensures Place(p, QuestionPieces(quests), n) + 12 == p + QuestionOffset(quests, n)
    decreases n
  {
    if n > 0 {
      QuestionLength(quests[0]);
      PlaceIsOffset(p + |quests[0].qname| + 6, quests[1..], n - 1);
      OffsetTail(quests, n);
    }
  }

  lemma {:induction false} QuestionLength(q: Quest)
    requires ValidName(q.qname)
    ensures |QuestionBytes(q)| == |q.qname| + 6
  {
    WireLength(Split(q.qname));
    DottedSplit(q.qname);
  }

  lemma {:induction false} NameOfQuestion(m: seq<byte>, p: nat, q: Quest)
    requires ValidName(q.qname) && Stands(m, p, QuestionBytes(q))
    ensures Stands(m, p, Wire(Split(q.qname)) + [0])
  {
    var w := Wire(Split(q.qname)) + [0];
    StandsConcat(m, p, w + Be16(q.qtype), Be16(q.qclass));
    StandsConcat(m, p, w, Be16(q.qtype));
  }

  /** Question `n`'s name stands where it really starts. */
  lemma {:induction false} NameStands(quests: seq<Quest>, n: nat)
    requires Askable(quests) && n < |quests|
    ensures 12 + 6 * n <= QuestionOffset(quests, n)
    ensures Stands(Section(quests), QuestionOffset(quests, n) - 12, Wire(Split(quests[n].qname)) + [0])
  {
    var section := Section(quests);
    assert Stands(section, 0, section);
    JoinStands(section, 0, QuestionPieces(quests), n);
    QuestionPieceAt(quests, n);
    PlaceIsOffset(0, quests, n);
    OffsetGrows(quests, 0, n);
    NameOfQuestion(section, QuestionOffset(quests, n) - 12, quests[n]);
  }

  lemma {:induction false} NameSumBound(quests: seq<Quest>, n: nat)
    requires Askable(quests) && n <= |quests|
    ensures NameSum(quests, n) <= 69 * n
  {
    if n > 0 {
      NameSumBound(quests, n - 1);
    }
  }

  /** The suffix of a compressed name, `pos` into its question's name, stands as far into the section. */
  lemma {:induction false} SuffixIsThere(quests: seq<Quest>, n: nat, url: Text, pos: int)
      returns (k: nat, r: Text, t: nat)
    requires Askable(quests) && n < |quests| && pos == CutOf(url, quests[n].qname) != -1
    ensures 0 <= pos < |quests[n].qname| && r == quests[n].qname[pos..]
    ensures k == |url| - |r| && k < |url| && r == url[k..]
    ensures t == QuestionOffset(quests, n) + pos && 12 + 6 * n <= t
    ensures ValidName(r) && Stands(Section(quests), t - 12, Wire(Split(r)) + [0])
    ensures t + |r| + 2 <= 12 + |Section(quests)|
  {
    var name := quests[n].qname;
    NameStands(quests, n);
    CutIsUnique(url, name, pos);
    k, r := CutSplits(url, name, pos);
    t := QuestionOffset(quests, n) + pos;
    CutStands(Section(quests), QuestionOffset(quests, n) - 12, name, pos);
    LastByte(r);
  }

  lemma {:induction false} LeadsTo(quests: seq<Quest>, i: nat, url: Text, name: Text, pos: int)
    requires Askable(quests) && i < |quests| && name == quests[i].qname && pos == CutOf(url, name)
    ensures Leads(Section(quests), 0xC000 + QuestionOffset(quests, i), url, name)
  {
    if pos != -1 {
      var k, r, t := SuffixIsThere(quests, i, url, pos);
    }
  }

  /** A compressed answer to the first question is placed. */
  lemma {:induction false} FirstIsPlaced(quests: seq<Quest>, a: Answer)
    requires Askable(quests) && Supported(quests, a) && a.qpos == 0
    ensures Placed(quests, a)
  {
    LeadsTo(quests, 0, a.rdata, quests[0].qname, CutOf(a.rdata, quests[0].qname));
    assert NamePointer(quests, 0) == 0xC00C;
  }

  /** So is one whose pointer falls short onto an earlier question for the same name. */
  lemma {:induction false} RepeatedIsPlaced(quests: seq<Quest>, a: Answer, i: nat)
    requires Askable(quests) && Supported(quests, a) && i < a.qpos && quests[i].qname == quests[a.qpos].qname
    requires QuestionOffset(quests, a.qpos) == QuestionOffset(quests, i) + a.qpos && QuestionOffset(quests, i) < 0x4000
    ensures Placed(quests, a)
  {
    var name := quests[i].qname;
    NamePointerFallsShort(quests, a.qpos);
    assert NamePointer(quests, a.qpos) == 0xC000 + QuestionOffset(quests, i);
    LeadsTo(quests, i, a.rdata, name, CutOf(a.rdata, name));
  }

  /** The questions stand behind the header, and end before `p`. */
  ghost predicate QuestionsBefore(m: seq<byte>, quests: seq<Quest>, p: nat) {
    Askable(quests) && Stands(m, 12, Section(quests)) && 12 + |Section(quests)| <= p
  }

  lemma {:induction false} PlacedReads(m: seq<byte>, at: nat, quests: seq<Quest>, url: Text, name: Text, pointer: nat,
                                       d: seq<byte>)
    requires QuestionsBefore(m, quests, at) && ValidName(url) && ValidName(name) && |url| + 2 <= 255
    requires CutOf(url, name) != -1
    requires pointer < 0x1_0000 - |name| && Leads(Section(quests), pointer, url, name)
    requires d == NameData(url, name, pointer) && Stands(m, at, d)
    ensures ReadsBack(m, at, |d|, url) <==> CleanEnd(url, name)
  {
    var pos := CutOf(url, name);
    CutIsUnique(url, name, pos);
    var k, r := CutSplits(url, name, pos);
    var t: nat := pointer + pos - 0xC000;
    CutBytes(url, name, pointer, pos, k, t);
    StandsIn(m, 12, Section(quests), t - 12, Wire(Split(r)) + [0]);
    CutRoundTrip(m, at, url, name, k, r, t, d);
  }

  lemma {:induction false} MissedFails(m: seq<byte>, at: nat, quests: seq<Quest>, n: nat, url: Text, name: Text,
                                       pointer: nat, pos: int, d: seq<byte>)
    requires QuestionsBefore(m, quests, at) && n < |quests| && name == quests[n].qname
    requires pointer == NamePointer(quests, n)
    requires ValidName(url) && pos == CutOf(url, name) != -1 && Low(quests) && 0 < n <= |name| - pos + 1
    requires pointer + |name| < 0x1_0000 && d == NameData(url, name, pointer) && Stands(m, at, d)
    ensures !ReadsBack(m, at, |d|, url)
  {
    var k, r, t := MissedSuffix(quests, n, url, name, pointer, pos);
    StandsIn(m, 12, Section(quests), t - 12, Wire(Split(r)) + [0]);
    LowAround(m, quests, t - n, t + |r| + 2 - n);
    ShortPointerFails(m, at, url, k, r, t, n, d);
  }

  lemma {:induction false} MissedSuffix(quests: seq<Quest>, n: nat, url: Text, name: Text, pointer: nat, pos: int)
      returns (k: nat, r: Text, t: nat)
    requires Askable(quests) && n < |quests| && name == quests[n].qname && pointer == NamePointer(quests, n)
    requires ValidName(url) && pos == CutOf(url, name) != -1 && n <= |name| + 1 && pointer + |name| < 0x1_0000
    ensures k < |url| && r == url[k..] && |r| == |name| - pos && ValidName(r)
    ensures 12 + n <= t && t - n < 0x4000 && t + |r| + 2 <= 12 + |Section(quests)|
    ensures Stands(Section(quests), t - 12, Wire(Split(r)) + [0])
    ensures |Wire(Split(url))| == |url| + 1
    ensures NameData(url, name, pointer) == Wire(Split(url))[..k] + Be16(0xC000 + (t - n))
  {
    k, r, t := SuffixIsThere(quests, n, url, pos);
    MissesBy(quests, n, pos, t);
    CutBytes(url, name, pointer, pos, k, t - n);
  }

  lemma {:induction false} MissesBy(quests: seq<Quest>, n: nat, pos: nat, t: nat)
    requires Askable(quests) && n < |quests| && n <= |quests[n].qname| + 1 && pos <= |quests[n].qname|
    requires t == QuestionOffset(quests, n) + pos && 12 + n <= t
    ensures NamePointer(quests, n) + pos == 0xC000 + (t - n) && t - n < 0x4000
  {
    NamePointerFallsShort(quests, n);
    NameSumBound(quests, n);
  }

  lemma {:induction false} LowAround(m: seq<byte>, quests: seq<Quest>, from: nat, end: nat)
    requires Askable(quests) && Stands(m, 12, Section(quests)) && Low(quests) && 12 <= from
    requires end <= 12 + |Section(quests)|
    ensures forall i :: from <= i < end && i < |m| ==> !PointerLike(m[i])
  {
    forall i | from <= i < end && i < |m|
      ensures !PointerLike(m[i])
    {
      assert Section(quests)[i - 12] == m[12 + (i - 12)];
    }
  }

  /** A compressed name reads back exactly when it ends cleanly and its pointer leads to its suffix. */
  lemma {:induction false} CutReads(m: seq<byte>, at: nat, quests: seq<Quest>, a: Answer, d: seq<byte>)
    requires QuestionsBefore(m, quests, at) && Supported(quests, a) && Compressed(quests, a) && Decided(quests, a)
    requires d == NameData(a.rdata, quests[a.qpos].qname, NamePointer(quests, a.qpos)) && Stands(m, at, d)
    ensures ReadsBack(m, at, |d|, a.rdata) <==> CleanEnd(a.rdata, quests[a.qpos].qname) && Placed(quests, a)
  {
    if Placed(quests, a) {
      PlacedReads(m, at, quests, a.rdata, quests[a.qpos].qname, NamePointer(quests, a.qpos), d);
    } else {
      if a.qpos == 0 {
        FirstIsPlaced(quests, a);
      }
      var name := quests[a.qpos].qname;
      MissedFails(m, at, quests, a.qpos, a.rdata, name, NamePointer(quests, a.qpos), CutOf(a.rdata, name), d);
    }
  }

  // ---------------------------------------------------------------- record data

  lemma {:induction false} NameRoundTrip(net: Net, m: seq<byte>, at: nat, quests: seq<Quest>, a: Answer, d: seq<byte>)
    requires QuestionsBefore(m, quests, at) && Supported(quests, a) && Decided(quests, a)
    requires NameType(a.rtype) && a.rtype != TYPE_MX
    requires d == NameData(a.rdata, quests[a.qpos].qname, NamePointer(quests, a.qpos)) && Stands(m, at, d)
    ensures ReadsBack(m, at, |d|, a.rdata) <==> Restorable(net, quests, a) && Placed(quests, a)
  {
    if Compressed(quests, a) {
      CutReads(m, at, quests, a, d);
    } else {
      PlainRoundTrip(m, at, a.rdata, quests[a.qpos].qname, d);
    }
  }

  lemma {:induction false} MxRoundTrip(net: Net, m: seq<byte>, p: nat, quests: seq<Quest>, a: Answer, d: seq<byte>)
    requires QuestionsBefore(m, quests, p) && Supported(quests, a) && Decided(quests, a) && a.rtype == TYPE_MX
    requires d == Rdata(net, quests, a) && Stands(m, p, d)
    ensures RdataAt(net, m, p, TYPE_MX, |d|) == Some((a.rdata, a.addition))
       <==> Restorable(net, quests, a) && Placed(quests, a)
  {
    var name := quests[a.qpos].qname;
    MxData(a.rdata, name, NamePointer(quests, a.qpos), a.addition);
    if Compressed(quests, a) {
      var nd := NameData(a.rdata, name, NamePointer(quests, a.qpos));
      MxReads(net, m, p, nd, d, a.rdata, a.addition);
      CutReads(m, p + 2, quests, a, nd);
    } else {
      MxPlainFails(net, m, p, a.rdata, a.addition, d);
    }
  }

  lemma {:induction false} MxStands(m: seq<byte>, p: nat, addition: u16, nd: seq<byte>, d: seq<byte>)
    requires d == Be16(addition) + nd && Stands(m, p, d)
    ensures p + 2 + |nd| <= |m| && |d| == |nd| + 2 && U16At(m, p) == addition && Stands(m, p + 2, nd)
  {
    StandsConcat(m, p, Be16(addition), nd);
    StandsBe16(m, p, addition);
  }

  /** MX data is read as it was sent exactly when the name in it is. */
  lemma {:induction false} MxReads(net: Net, m: seq<byte>, p: nat, nd: seq<byte>, d: seq<byte>, url: Text,
                                   addition: u16)
    requires d == Be16(addition) + nd && Stands(m, p, d)
    ensures Stands(m, p + 2, nd)
    ensures RdataAt(net, m, p, TYPE_MX, |d|) == Some((url, addition)) <==> ReadsBack(m, p + 2, |nd|, url)
  {
    MxStands(m, p, addition, nd, d);
  }

  /** What is sent of an MX record: all of it, or without a shared suffix all but two bytes. */
  lemma {:induction false} MxData(url: Text, name: Text, pointer: u16, addition: u16)
    requires ValidName(url) && pointer + |name| < 0x1_0000
    ensures |url| <= |Wire(Split(url))|
    ensures RecordLength(url, TYPE_MX, name) <= |RecordData(url, TYPE_MX, name, pointer, addition)|
    ensures RecordData(url, TYPE_MX, name, pointer, addition)[..RecordLength(url, TYPE_MX, name)]
         == Be16(addition) + if CutOf(url, name) == -1 then Wire(Split(url))[..|url|] else NameData(url, name, pointer)
  {
    var nd, w := NameData(url, name, pointer), Wire(Split(url));
    LastByte(url);
    ReportsLength(url, TYPE_MX, name, pointer, addition);
    if CutOf(url, name) == -1 {
      assert (Be16(addition) + (w + [0]))[..|url| + 2] == Be16(addition) + w[..|url|];
    } else {
      assert (Be16(addition) + nd)[..2 + |nd|] == Be16(addition) + nd;
    }
  }

  /** The MX record of a name without a shared suffix is sent two bytes short and never reads back. */
  lemma {:induction false} MxPlainFails(net: Net, m: seq<byte>, p: nat, url: Text, addition: u16, d: seq<byte>)
    requires ValidName(url) && |url| <= |Wire(Split(url))|
    requires d == Be16(addition) + Wire(Split(url))[..|url|] && Stands(m, p, d)
    ensures RdataAt(net, m, p, TYPE_MX, |d|) != Some((url, addition))
  {
    StandsConcat(m, p, Be16(addition), Wire(Split(url))[..|url|]);
    ShortDataFails(m, p + 2, url);
  }

  lemma {:induction false} AddressRoundTrip(net: Net, m: seq<byte>, p: nat, quests: seq<Quest>, a: Answer, d: seq<byte>)
    requires net.Lawful() && Supported(quests, a) && !NameType(a.rtype)
    requires d == Rdata(net, quests, a) && Stands(m, p, d)
    ensures RdataAt(net, m, p, a.rtype, |d|) == Some((a.rdata, 0)) <==> Restorable(net, quests, a)
  {
    StandsSlice(m, p, d);
  }

  lemma {:induction false} RdataRoundTrip(net: Net, m: seq<byte>, p: nat, quests: seq<Quest>, a: Answer, d: seq<byte>)
    requires net.Lawful() && QuestionsBefore(m, quests, p) && Supported(quests, a) && Decided(quests, a)
    requires d == Rdata(net, quests, a) && Stands(m, p, d)
    ensures RdataAt(net, m, p, a.rtype, |d|) == Some((a.rdata, if a.rtype == TYPE_MX then a.addition else 0))
       <==> Restorable(net, quests, a) && Placed(quests, a)
  {
    if a.rtype == TYPE_MX {
      MxRoundTrip(net, m, p, quests, a, d);
    } else if NameType(a.rtype) {
      ReportsLength(a.rdata, a.rtype, quests[a.qpos].qname, NamePointer(quests, a.qpos), a.addition);
      NameRoundTrip(net, m, p, quests, a, d);
    } else {
      AddressRoundTrip(net, m, p, quests, a, d);
    }
  }

  /** Where the fixed fields of a record stand, the record is read as `a` exactly when its data is. */
  lemma {:induction false} AnswerIs(net: Net, m: seq<byte>, p: nat, a: Answer, end: nat)
    requires end == p + 12 + a.rdlen <= |m| && a.qpos == 0 && RawU16(m, p) == a.name
    requires U16At(m, p + 2) == a.rtype && U16At(m, p + 4) == a.class_ && U32At(m, p + 6) == a.ttl
    requires U16At(m, p + 10) == a.rdlen
    ensures AnswerAt(net, m, p) == Some(Read(a, end))
       <==> RdataAt(net, m, p + 12, a.rtype, a.rdlen) == Some((a.rdata, a.addition))
    ensures AnswerAt(net, m, p).Some? ==> AnswerAt(net, m, p).value.next == end
  {
  }

  /**
   The record written for an answer is read to its end, and as that answer exactly when it is
   restorable and, compressed, its pointer leads to its suffix.
   */
  lemma {:induction false} AnswerRoundTrip(net: Net, m: seq<byte>, p: nat, quests: seq<Quest>, a: Answer,
                                           rec: seq<byte>, end: nat)
    requires net.Lawful() && QuestionsBefore(m, quests, p) && Supported(quests, a) && Decided(quests, a)
    requires rec == Record(net, quests, a) && Stands(m, p, rec) && end == p + |rec|
    ensures AnswerAt(net, m, p) == Some(Read(Restored(net, quests, a), end))
       <==> Restorable(net, quests, a) && Placed(quests, a)
    ensures AnswerAt(net, m, p).Some? ==> AnswerAt(net, m, p).value.next == end
  {
    RdataLength(net, quests, a);
    var read := AnswerReadsAs(net, m, p, quests, a, Rdata(net, quests, a), end, Restored(net, quests, a));
  }

  lemma {:induction false} AnswerReadsAs(net: Net, m: seq<byte>, p: nat, quests: seq<Quest>, a: Answer, d: seq<byte>,
                                         end: nat, r: Answer) returns (read: bool)
    requires net.Lawful() && QuestionsBefore(m, quests, p) && Supported(quests, a) && Decided(quests, a)
    requires d == Rdata(net, quests, a) && |d| < 0x1_0000 && Stands(m, p, RecordHead(quests, a, |d|) + d)
    requires end == p + 12 + |d| && r.addition == if a.rtype == TYPE_MX then a.addition else 0
    requires var pointer := NamePointer(quests, a.qpos);
             r == Answer(0, pointer % 256 * 256 + pointer / 256, a.rtype, a.class_, |d|, a.ttl, r.addition, a.rdata)
    ensures read <==> AnswerAt(net, m, p) == Some(Read(r, end))
    ensures read <==> Restorable(net, quests, a) && Placed(quests, a)
    ensures AnswerAt(net, m, p).Some? ==> AnswerAt(net, m, p).value.next == end
  {
    read := RecordIs(net, m, p, quests, a, d, r, end);
    DataReads(net, m, p, p + 12, quests, a, d, r.addition, read);
  }

  lemma {:induction false} DataReads(net: Net, m: seq<byte>, start: nat, p: nat, quests: seq<Quest>, a: Answer,
                                     d: seq<byte>, addition: u16, read: bool)
    requires net.Lawful() && QuestionsBefore(m, quests, start) && start <= p && Supported(quests, a)
    requires Decided(quests, a)
    requires d == Rdata(net, quests, a) && Stands(m, p, d) && addition == if a.rtype == TYPE_MX then a.addition else 0
    requires read <==> RdataAt(net, m, p, a.rtype, |d|) == Some((a.rdata, addition))
    ensures read <==> Restorable(net, quests, a) && Placed(quests, a)
  {
    RdataRoundTrip(net, m, p, quests, a, d);
  }

  lemma {:induction false} RecordIs(net: Net, m: seq<byte>, p: nat, quests: seq<Quest>, a: Answer, d: seq<byte>,
                                    r: Answer, end: nat) returns (read: bool)
    requires a.qpos <= |quests| && |d| < 0x1_0000 && Stands(m, p, RecordHead(quests, a, |d|) + d) && end == p + 12 + |d|
    requires var pointer := NamePointer(quests, a.qpos);
             r == Answer(0, pointer % 256 * 256 + pointer / 256, a.rtype, a.class_, |d|, a.ttl, r.addition, a.rdata)
    ensures Stands(m, p + 12, d)
    ensures read <==> AnswerAt(net, m, p) == Some(Read(r, end))
    ensures read <==> RdataAt(net, m, p + 12, a.rtype, |d|) == Some((a.rdata, r.addition))
    ensures AnswerAt(net, m, p).Some? ==> AnswerAt(net, m, p).value.next == end
  {
    HeadStands(m, p, quests, a, |d|, d);
    AnswerIs(net, m, p, r, end);
    read := AnswerAt(net, m, p) == Some(Read(r, end));
  }

  ghost predicate AllRestorable(net: Net, quests: seq<Quest>, ans: seq<Answer>)
    requires AllSupported(quests, ans)
  {
    forall i :: 0 <= i < |ans| ==> Restorable(net, quests, ans[i])
  }

  ghost predicate AllPlaced(quests: seq<Quest>, ans: seq<Answer>)
    requires Askable(quests) && AllSupported(quests, ans)
  {
    forall i :: 0 <= i < |ans| ==> Placed(quests, ans[i])
  }

  ghost predicate AllDecided(quests: seq<Quest>, ans: seq<Answer>)
    requires Askable(quests) && AllSupported(quests, ans)
  {
    forall i :: 0 <= i < |ans| ==> Decided(quests, ans[i])
  }

  /** Which of the answers are restorable and placed. */
  ghost function Oks(net: Net, quests: seq<Quest>, ans: seq<Answer>): (oks: seq<bool>)
    requires Askable(quests) && AllSupported(quests, ans)
    ensures |oks| == |ans|
  {
    if ans == [] then []
    else [Restorable(net, quests, ans[0]) && Placed(quests, ans[0])] + Oks(net, quests, ans[1..])
  }

  lemma {:induction false} OksAre(net: Net, quests: seq<Quest>, ans: seq<Answer>)
    requires Askable(quests) && AllSupported(quests, ans)
    ensures AllTrue(Oks(net, quests, ans)) <==> AllRestorable(net, quests, ans) && AllPlaced(quests, ans)
  {
    if ans != [] {
      var rest := ans[1..];
      OksAre(net, quests, rest);
      assert ans == [ans[0]] + rest;
      assert Oks(net, quests, ans)[1..] == Oks(net, quests, rest);
    }
  }

  lemma {:induction false} AnswerListsAt(net: Net, quests: seq<Quest>, ans: seq<Answer>, i: nat)
    requires net.Lawful() && Askable(quests) && AllSupported(quests, ans) && i < |ans|
    ensures Records(net, quests, ans)[i] == Record(net, quests, ans[i])
    ensures AllRestored(net, quests, ans)[i] == Restored(net, quests, ans[i])
    ensures Oks(net, quests, ans)[i] == (Restorable(net, quests, ans[i]) && Placed(quests, ans[i]))
  {
    if i > 0 {
      AnswerListsAt(net, quests, ans[1..], i - 1);
    }
  }

  lemma {:induction false} AnswerReads(net: Net, m: seq<byte>, p: nat, quests: seq<Quest>, a: Answer,
                                       rec: seq<byte>, val: Answer, ok: bool, end: nat)
    requires net.Lawful() && QuestionsBefore(m, quests, p) && Supported(quests, a) && Decided(quests, a)
    requires rec == Record(net, quests, a) && Stands(m, p, rec) && end == p + |rec|
    requires val == Restored(net, quests, a) && ok == (Restorable(net, quests, a) && Placed(quests, a))
    ensures ReadsAs(AnswerReader(net, m), p, end, val, ok)
  {
    AnswerRoundTrip(net, m, p, quests, a, rec, end);
  }

  lemma {:induction false} AnswersRead(net: Net, m: seq<byte>, p: nat, quests: seq<Quest>, ans: seq<Answer>,
                                       pieces: seq<seq<byte>>, vals: seq<Answer>, oks: seq<bool>)
    requires net.Lawful() && QuestionsBefore(m, quests, p) && AllSupported(quests, ans) && AllDecided(quests, ans)
    requires Stands(m, p, Join(pieces)) && pieces == Records(net, quests, ans)
    requires vals == AllRestored(net, quests, ans) && oks == Oks(net, quests, ans)
    ensures AllRead(AnswerReader(net, m), p, pieces, vals, oks)
  {
    forall i | 0 <= i < |ans|
      ensures ReadsAs(AnswerReader(net, m), Place(p, pieces, i), Place(p, pieces, i + 1), vals[i], oks[i])
    {
      JoinStands(m, p, pieces, i);
      AnswerListsAt(net, quests, ans, i);
      AnswerReads(net, m, Place(p, pieces, i), quests, ans[i], pieces[i], vals[i], oks[i], Place(p, pieces, i + 1));
    }
  }

  lemma {:induction false} AnswersRoundTrip(net: Net, m: seq<byte>, p: nat, quests: seq<Quest>, ans: seq<Answer>,
                                            n: nat, end: nat)
    requires net.Lawful() && QuestionsBefore(m, quests, p) && AllSupported(quests, ans) && AllDecided(quests, ans)
    requires Stands(m, p, Join(Records(net, quests, ans)))
    requires n == |ans| && end == p + |Join(Records(net, quests, ans))|
    ensures ReadAll(AnswerReader(net, m), p, n) == Some(Read(AllRestored(net, quests, ans), end))
       <==> AllRestorable(net, quests, ans) && AllPlaced(quests, ans)
    ensures ReadAll(AnswerReader(net, m), p, n).Some? ==> ReadAll(AnswerReader(net, m), p, n).value.next == end
  {
    var pieces, vals, oks := Records(net, quests, ans), AllRestored(net, quests, ans), Oks(net, quests, ans);
    AnswersRead(net, m, p, quests, ans, pieces, vals, oks);
    OksAre(net, quests, ans);
    ReadsJoined(AnswerReader(net, m), p, pieces, vals, oks, n, end);
  }

  lemma {:induction false} ReadAllAt<T>(read: nat -> Option<Read<T>>, p: nat, pieces: seq<seq<byte>>, vals: seq<T>,
                                        oks: seq<bool>,
                                        vs: seq<T>, end: nat, i: nat)
    requires |pieces| == |vals| == |oks| && AllRead(read, p, pieces, vals, oks) && i < |pieces|
    requires ReadAll(read, p, |pieces|) == Some(Read(vs, end))
    ensures i < |vs| && read(Place(p, pieces, i)).Some? && read(Place(p, pieces, i)).value.value == vs[i]
    decreases i
  {
    AllReadTail(read, p, pieces, vals, oks);
    ReadAllNext(read, p, |pieces|, vs, end);
    if i > 0 {
      ReadAllAt(read, p + |pieces[0]|, pieces[1..], vals[1..], oks[1..], vs[1..], end, i - 1);
    }
  }

  /** An answer that is read where a record stands has the record's fixed fields. */
  lemma {:induction false} ReadIsRestored(net: Net, m: seq<byte>, p: nat, quests: seq<Quest>, a: Answer,
                                          rec: seq<byte>, r: Answer)
    requires net.Lawful() && Supported(quests, a) && rec == Record(net, quests, a) && Stands(m, p, rec)
    requires AnswerAt(net, m, p).Some? && r == AnswerAt(net, m, p).value.value
    requires r.rdata == a.rdata && (a.rtype == TYPE_MX ==> r.addition == a.addition)
    ensures r == Restored(net, quests, a)
  {
    var d := Rdata(net, quests, a);
    RdataLength(net, quests, a);
    HeadStands(m, p, quests, a, |d|, d);
  }

  /** An answer that reads back, among the others, as it was sent is restorable and placed. */
  lemma {:induction false} ReadBackIsRestorable(net: Net, m: seq<byte>, p: nat, quests: seq<Quest>, ans: seq<Answer>,
                                                vs: seq<Answer>, end: nat, i: nat)
    requires net.Lawful() && QuestionsBefore(m, quests, p) && AllSupported(quests, ans) && AllDecided(quests, ans)
    requires Stands(m, p, Join(Records(net, quests, ans))) && i < |ans| == |vs|
    requires ReadAll(AnswerReader(net, m), p, |ans|) == Some(Read(vs, end))
    requires vs[i].rdata == ans[i].rdata && (ans[i].rtype == TYPE_MX ==> vs[i].addition == ans[i].addition)
    ensures Restorable(net, quests, ans[i]) && Placed(quests, ans[i])
  {
    var pieces, vals, oks := Records(net, quests, ans), AllRestored(net, quests, ans), Oks(net, quests, ans);
    AnswersRead(net, m, p, quests, ans, pieces, vals, oks);
    ReadAllAt(AnswerReader(net, m), p, pieces, vals, oks, vs, end, i);
    JoinStands(m, p, pieces, i);
    AnswerListsAt(net, quests, ans, i);
    ReadIsRestored(net, m, Place(p, pieces, i), quests, ans[i], pieces[i], vs[i]);
    assert ReadsAs(AnswerReader(net, m), Place(p, pieces, i), Place(p, pieces, i + 1), vals[i], oks[i]);
  }

  lemma {:induction false} PatchedRequest(m: seq<byte>, req: seq<byte>, f: seq<byte>, n: seq<byte>, r: seq<byte>)
    requires |req| >= 12 && |f| == |n| == 2 && m == req[..2] + f + req[4..6] + n + req[8..] + r
    ensures |m| == |req| + |r| && m[0] == req[0] && m[1] == req[1] && m[4] == req[4] && m[5] == req[5]
    ensures Stands(m, 2, f) && Stands(m, 6, n) && Stands(m, |req|, r)
    ensures forall i :: 8 <= i < |req| ==> m[i] == req[i]
  {
  }

  /** The parts of a response that do not depend on its answers; what stood behind the questions is still there. */
  lemma {:induction false} ResponseHead(net: Net, req: seq<byte>, flags: u16, quests: seq<Quest>, ans: seq<Answer>,
                                        m: seq<byte>)
    requires net.Lawful() && AllSupported(quests, ans) && |ans| < 0x1_0000 && Poses(req, quests)
    requires m == Response(net, req, flags, quests, ans)
    ensures |m| == |req| + |Join(Records(net, quests, ans))|
    ensures RawU16(m, 0) == RawU16(req, 0) && U16At(m, 2) == ResponseFlags(flags, |ans|)
    ensures U16At(m, 4) == |quests| && U16At(m, 6) == |ans|
    ensures Stands(m, |req|, Join(Records(net, quests, ans))) && QuestionsBefore(m, quests, |req|)
    ensures forall i :: 8 <= i < |req| ==> m[i] == req[i]
  {
    var f, n := ResponseFlags(flags, |ans|), |ans|;
    PatchedRequest(m, req, Be16(f), Be16(n), Join(Records(net, quests, ans)));
    StandsBe16(m, 2, f);
    StandsBe16(m, 6, n);
    StillStands(req, m, Section(quests));
  }

  lemma {:induction false} StillStands(req: seq<byte>, m: seq<byte>, w: seq<byte>)
    requires Stands(req, 12, w) && |req| <= |m| && forall i :: 12 <= i < |req| ==> m[i] == req[i]
    ensures Stands(m, 12, w)
  {
    forall i | 0 <= i < |w|
      ensures w[i] == m[12 + i]
    {
      assert w[i] == req[12 + i];
    }
  }

  /**
   The question section ends where the query ended; the answers are read back, and end where the
   response ends, exactly when each of them is restorable and placed.
   */
  lemma {:induction false} ResponseReads(net: Net, req: seq<byte>, flags: u16, quests: seq<Quest>, ans: seq<Answer>,
                                         m: seq<byte>)
    requires net.Lawful() && AllSupported(quests, ans) && |ans| < 0x1_0000 && IsQuery(req, quests)
    requires AllDecided(quests, ans) && m == Response(net, req, flags, quests, ans)
    ensures ReadAll(QuestionReader(m), 12, |quests|) == Some(Read(quests, |req|))
    ensures ReadAll(AnswerReader(net, m), |req|, |ans|) == Some(Read(AllRestored(net, quests, ans), |m|))
       <==> AllRestorable(net, quests, ans) && AllPlaced(quests, ans)
    ensures var r := ReadAll(AnswerReader(net, m), |req|, |ans|); r.Some? ==> r.value.next == |m|
  {
    ResponseHead(net, req, flags, quests, ans, m);
    QuestionsRoundTrip(m, 12, quests, |quests|, |req|);
    AnswersRoundTrip(net, m, |req|, quests, ans, |ans|, |m|);
  }

  /** The message that reading the response `m` to a query must give. */
  ghost function Expected(net: Net, req: seq<byte>, flags: u16, quests: seq<Quest>, ans: seq<Answer>,
                          m: seq<byte>): Message
    requires net.Lawful() && AllSupported(quests, ans) && |ans| < 0x1_0000 && |req| >= 12 && |quests| < 0x1_0000
  {
    Message(m, RawU16(req, 0), ResponseFlags(flags, |ans|), |quests|, |ans|, quests, AllRestored(net, quests, ans))
  }

  /**
   The message round trip: parsing the response built for a query gives back its ID, its questions
   and, in order, every answer, exactly when every answer is restorable and placed.
   */
  lemma {:induction false} MessageRoundTrip(net: Net, req: seq<byte>, flags: u16, quests: seq<Quest>, ans: seq<Answer>,
                                            m: seq<byte>)
    requires net.Lawful() && AllSupported(quests, ans) && |ans| < 0x1_0000 && IsQuery(req, quests)
    requires AllDecided(quests, ans) && m == Response(net, req, flags, quests, ans)
    ensures Parsed(net, m) == Some(Expected(net, req, flags, quests, ans, m))
       <==> AllRestorable(net, quests, ans) && AllPlaced(quests, ans)
  {
    ResponseHead(net, req, flags, quests, ans, m);
    ResponseReads(net, req, flags, quests, ans, m);
  }

  /**
   Something stands behind the questions, and a record read there would have a type of at least
   256: an OPT record, for one, with its root name in one byte.
   */
  ghost predicate Trailed(req: seq<byte>, quests: seq<Quest>)
    requires Askable(quests)
  {
    var end := 12 + |Section(quests)|;
    end + 3 <= |req| && req[end + 2] != 0
  }

  /**
   The answers are appended behind whatever follows the questions, but are read right behind the
   questions: no first answer to such a query is read under its type.
   */
  lemma {:induction false} TrailedIsMisread(net: Net, req: seq<byte>, flags: u16, quests: seq<Quest>, ans: seq<Answer>,
                                            m: seq<byte>)
    requires net.Lawful() && AllSupported(quests, ans) && 0 < |ans| < 0x1_0000 && Poses(req, quests)
    requires Trailed(req, quests)
    requires m == Response(net, req, flags, quests, ans)
    ensures Parsed(net, m).Some? ==> Parsed(net, m).value.ans != [] && Parsed(net, m).value.ans[0].rtype != ans[0].rtype
  {
    var end := 12 + |Section(quests)|;
    ResponseHead(net, req, flags, quests, ans, m);
    assert m[end + 2] == req[end + 2];
    HighTypeIsParsed(net, m, quests, |ans|, end);
    assert Supported(quests, ans[0]);
  }

  lemma {:induction false} HighTypeIsParsed(net: Net, m: seq<byte>, quests: seq<Quest>, n: nat, end: nat)
    requires Askable(quests) && Stands(m, 12, Section(quests)) && end == 12 + |Section(quests)| && end + 3 <= |m|
    requires m[end + 2] != 0
    requires U16At(m, 4) == |quests| && U16At(m, 6) == n > 0
    ensures Parsed(net, m).Some? ==> Parsed(net, m).value.ans != [] && Parsed(net, m).value.ans[0].rtype >= 256
  {
    QuestionsRoundTrip(m, 12, quests, |quests|, end);
    if ReadAll(AnswerReader(net, m), end, n).Some? {
      HighTypeIsRead(net, m, end, n);
    }
  }

  lemma {:induction false} HighTypeIsRead(net: Net, m: seq<byte>, p: nat, n: nat)
    requires n > 0 && ReadAll(AnswerReader(net, m), p, n).Some? && p + 3 <= |m| && m[p + 2] != 0
    ensures var ans := ReadAll(AnswerReader(net, m), p, n).value.value;
            ans != [] && ans[0].rtype >= 256
  {
    var r := ReadAll(AnswerReader(net, m), p, n).value;
    ReadAllNext(AnswerReader(net, m), p, n, r.value, r.next);
    assert AnswerAt(net, m, p).value.value.rtype == U16At(m, p + 2);
  }

  /** Without answers, whatever follows the questions does no harm. */
  lemma {:induction false} EmptyIsRead(net: Net, req: seq<byte>, flags: u16, quests: seq<Quest>, m: seq<byte>)
    requires net.Lawful() && Poses(req, quests) && AllSupported(quests, [])
    requires m == Response(net, req, flags, quests, [])
    ensures Parsed(net, m) == Some(Expected(net, req, flags, quests, [], m))
  {
    ResponseHead(net, req, flags, quests, [], m);
    QuestionsRoundTrip(m, 12, quests, |quests|, 12 + |Section(quests)|);
  }

  // ---------------------------------------------------------------- queries

  /** The packet that asks the questions, with nothing behind them. */
  ghost function QueryFor(id: u16, flags: u16, quests: seq<Quest>): (req: seq<byte>)
    requires Askable(quests) && |quests| < 0x1_0000
  {
    [id % 256, id / 256] + Be16(flags) + Be16(|quests|) + [0, 0, 0, 0, 0, 0] + Section(quests)
  }

  lemma {:induction false} QueryHead(id: u16, flags: u16, n: u16, rest: seq<byte>, req: seq<byte>)
    requires req == [id % 256, id / 256] + Be16(flags) + Be16(n) + [0, 0, 0, 0, 0, 0] + rest
    ensures |req| >= 12 && req[12..] == rest
    ensures RawU16(req, 0) == id && U16At(req, 2) == flags && U16At(req, 4) == n && U16At(req, 6) == 0
  {
    assert req[2..4] == Be16(flags) && req[4..6] == Be16(n);
    BigEndianRoundTrip(req, 2, flags, 0);
    BigEndianRoundTrip(req, 4, n, 0);
  }

  /** Every list of questions has a query, which is parsed into exactly these questions. */
  lemma {:induction false} QueryRoundTrip(net: Net, id: u16, flags: u16, quests: seq<Quest>, req: seq<byte>)
    requires Askable(quests) && |quests| < 0x1_0000 && req == QueryFor(id, flags, quests)
    ensures IsQuery(req, quests)
    ensures Parsed(net, req) == Some(Message(req, id, flags, |quests|, 0, quests, []))
  {
    var body := Section(quests);
    QueryHead(id, flags, |quests|, body, req);
    StandsSlice(req, 12, body);
    QuestionsRoundTrip(req, 12, quests, |quests|, |req|);
  }

  // ---------------------------------------------------------------- bounds of parsed packets

  /** The receive buffer. */
  const BUFFER_SIZE := 1024

  /** The text of a name is never longer than its bytes up to the first zero byte allow. */
  lemma {:induction false} NameSize(m: seq<byte>, p: nat, ls: seq<Label>, z: nat)
    requires Carried(ls) && ls != [] && Stands(m, p, Wire(ls) + [0]) && p <= |m| && z == ZeroAt(m, p)
    ensures p + |CText(Dotted(ls))| + 1 <= z < |m|
  {
    var w, t := Wire(ls), Dotted(ls);
    StandsConcat(m, p, w, [0]);
    StandsByte(m, p + |w|, 0);
    WireLength(ls);
    ZeroBefore(m, p, p + |w|);
    assert w[0] == m[p + 0] && w[0] == |ls[0]|;
    if z < p + |w| {
      TextOfWire(ls, z - p - 1);
      assert w[z - p] == m[p + (z - p)] == 0;
      CTextStops(t, z - p - 1);
    }
  }

  /** The text read for a question, with its four fixed bytes, is never longer than the bytes it was read from. */
  lemma {:induction false} QuestionSize(m: seq<byte>, p: nat)
    requires QuestionAt(m, p).Some?
    ensures var r := QuestionAt(m, p).value;
            p + |r.value.qname| + 6 <= r.next <= |m|
  {
    var ls := LabelsAt(m, p).value;
    LabelsOfWire(m, p, ls);
    NameSize(m, p, ls, ZeroAt(m, p));
  }

  lemma {:induction false} ZeroBefore(m: seq<byte>, s: nat, e: nat)
    requires s <= e < |m| && m[e] == 0
    ensures ZeroAt(m, s) <= e
    decreases e - s
  {
    if m[s] != 0 {
      ZeroBefore(m, s + 1, e);
    }
  }

  lemma {:induction false} CTextStops(t: Text, i: nat)
    requires i < |t| && t[i] == 0
    ensures |CText(t)| <= i
  {
    ZeroBefore(t, 0, i);
  }

  lemma {:induction false} OffsetTail(quests: seq<Quest>, n: nat)
    requires 0 < n <= |quests|
    ensures QuestionOffset(quests, n) == |quests[0].qname| + 6 + QuestionOffset(quests[1..], n - 1)
  {
    if n > 1 {
      OffsetTail(quests, n - 1);
      assert quests[n - 1] == quests[1..][n - 2];
    }
  }

  lemma {:induction false} ReadAllNext<T>(read: nat -> Option<Read<T>>, p: nat, n: nat, vals: seq<T>, end: nat)
    requires n > 0 && ReadAll(read, p, n) == Some(Read(vals, end))
    ensures vals != [] && read(p).Some? && read(p).value.value == vals[0]
    ensures ReadAll(read, read(p).value.next, n - 1) == Some(Read(vals[1..], end))
  {
    var rest := ReadAll(read, read(p).value.next, n - 1).value;
    assert vals == [read(p).value.value] + rest.value;
    assert vals[1..] == rest.value;
  }

  /** Every item read takes at least the bytes of its text and six more, and ends before `size`. */
  ghost predicate Sized(read: nat -> Option<Read<Quest>>, size: nat) {
    forall p: nat :: read(p).Some? ==> p + |read(p).value.value.qname| + 6 <= read(p).value.next <= size
  }

  lemma {:induction false} QuestionsSize(read: nat -> Option<Read<Quest>>, size: nat, p: nat, n: nat, qs: seq<Quest>,
                                         end: nat)
    requires Sized(read, size) && ReadAll(read, p, n) == Some(Read(qs, end)) && p <= size
    ensures |qs| == n && p + QuestionOffset(qs, n) - 12 <= end <= size
    decreases n
  {
    if n != 0 {
      ReadAllNext(read, p, n, qs, end);
      QuestionsSize(read, size, read(p).value.next, n - 1, qs[1..], end);
      OffsetTail(qs, n);
    }
  }

  lemma {:induction false} ReaderSized(m: seq<byte>)
    ensures Sized(QuestionReader(m), |m|)
  {
    forall p: nat | QuestionReader(m)(p).Some?
      ensures var r := QuestionReader(m)(p).value; p + |r.value.qname| + 6 <= r.next <= |m|
    {
      QuestionSize(m, p);
    }
  }

  lemma {:induction false} OffsetGrows(quests: seq<Quest>, i: nat, n: nat)
    requires i <= n <= |quests|
    ensures QuestionOffset(quests, i) + 6 * (n - i) <= QuestionOffset(quests, n)
    ensures i < n ==> QuestionOffset(quests, i) + |quests[i].qname| + 6 <= QuestionOffset(quests, n)
    decreases n
  {
    if i < n {
      OffsetGrows(quests, i, n - 1);
    }
  }

  /** The questions of a packet take no more room than the packet. */
  lemma {:induction false} ParsedBounds(net: Net, m: seq<byte>, p: Message)
    requires Parsed(net, m) == Some(p)
    ensures |p.quests| == p.qdcount && QuestionOffset(p.quests, |p.quests|) <= |m|
  {
    ReaderSized(m);
    var end := ReadAll(QuestionReader(m), 12, p.qdcount).value.next;
    QuestionsSize(QuestionReader(m), |m|, 12, p.qdcount, p.quests, end);
  }

  /**
   A packet that fits the receive buffer has at most 168 questions, all of them within reach of a
   pointer, and no NAME field wraps around.
   */
  lemma {:induction false} BufferBounds(quests: seq<Quest>, i: nat)
    requires QuestionOffset(quests, |quests|) <= BUFFER_SIZE && i < |quests|
    ensures |quests| <= 168 && QuestionOffset(quests, i) < 0x4000
    ensures NamePointer(quests, i) == 0xC00C + NameSum(quests, i)
    ensures NamePointer(quests, i) + |quests[i].qname| < 0x1_0000
  {
    OffsetGrows(quests, i, |quests|);
    OffsetGrows(quests, 0, |quests|);
    NamePointerFallsShort(quests, i);
  }

  // ---------------------------------------------------------------- answers of parsed packets

  /** A parsed answer belongs to question 0; its address is one the platform prints. */
  ghost predicate WellRead(net: Net, a: Answer) {
    && a.qpos == 0
    && (a.rtype == TYPE_A ==> exists b :: |b| == 4 && a.rdata == net.ntop4(b))
    && (a.rtype == TYPE_AAAA ==> exists b :: |b| == 16 && a.rdata == net.ntop6(b))
  }

  lemma {:induction false} AnswerIsWellRead(net: Net, m: seq<byte>, p: nat)
    requires AnswerAt(net, m, p).Some?
    ensures WellRead(net, AnswerAt(net, m, p).value.value)
  {
    var q := p + 12;
    if U16At(m, p + 2) == TYPE_A {
      assert |m[q..q + 4]| == 4;
    } else if U16At(m, p + 2) == TYPE_AAAA {
      assert |m[q..q + 16]| == 16;
    }
  }

  lemma {:induction false} AnswersAreWellRead(net: Net, m: seq<byte>, p: nat, n: nat, ans: seq<Answer>, end: nat,
                                              i: nat)
    requires ReadAll(AnswerReader(net, m), p, n) == Some(Read(ans, end)) && i < |ans|
    ensures WellRead(net, ans[i])
    decreases n
  {
    ReadAllNext(AnswerReader(net, m), p, n, ans, end);
    if i == 0 {
      AnswerIsWellRead(net, m, p);
    } else {
      AnswersAreWellRead(net, m, AnswerAt(net, m, p).value.next, n - 1, ans[1..], end, i - 1);
    }
  }

  lemma {:induction false} ParsedIsWellRead(net: Net, m: seq<byte>, p: Message, a: Answer)
    requires Parsed(net, m) == Some(p) && a in p.ans
    ensures WellRead(net, a)
  {
    var i :| 0 <= i < |p.ans| && p.ans[i] == a;
    var start := ReadAll(QuestionReader(m), 12, p.qdcount).value.next;
    AnswersAreWellRead(net, m, start, p.ancount, p.ans, ReadAll(AnswerReader(net, m), start, p.ancount).value.next, i);
  }

  // ---------------------------------------------------------------- a misread answer

  /** Questions for the names "a" and "b", of a class whose low byte is zero. */
  ghost function TwoQuestions(): seq<Quest> {
    [Quest([97], TYPE_NS, 256), Quest([98], TYPE_NS, 256)]
  }

  /** The name server "x.b", in answer to the second question. */
  ghost function LaterAnswer(ttl: u32): Answer {
    Answer(1, 0, TYPE_NS, 256, 0, ttl, 0, [120, 46, 98])
  }

  lemma {:induction false} OneLabel(c: byte)
    requires c != DOT && c != 0
    ensures Split([c]) == [[c]] && Wire([[c]]) == [1, c] && ValidName([c])
  {
    assert FirstDot([c]) == 1 by {
      assert [c][1..] == [];
    }
    assert [[c]][1..] == [];
    assert Wire([[c]]) == [1] + [c] + [];
  }

  /** The second name is compressed down to its first label and a pointer. */
  lemma {:induction false} LaterData(pointer: u16)
    requires pointer < 0xFFFF
    ensures ValidName([120, 46, 98]) && CutOf([120, 46, 98], [98]) == 0
    ensures NameData([120, 46, 98], [98], pointer) == [1, 120] + Be16(pointer)
  {
    var url: Text, x: Text, b: Text := [120, 46, 98], [120], [98];
    OneLabel(120);
    OneLabel(98);
    assert url == x + [DOT] + b;
    SplitConcat(x, b);
    WireConcat([x], [b]);
    assert url[2..] == b && IsCut(url, b, 0);
    NameDataFacts(url, b, pointer, 0);
    assert Wire(Split(url))[..2] == [1, 120];
  }

  lemma {:induction false} LaterQuery()
    ensures Askable(TwoQuestions())
    ensures var body := Section(TwoQuestions()); |body| == 14 && body[6] == 0
  {
    var qs := TwoQuestions();
    OneLabel(97);
    OneLabel(98);
    var first, second := QuestionBytes(qs[0]), QuestionBytes(qs[1]);
    assert first == [1, 97, 0, 0, 2, 1, 0] && |second| == 7;
    assert qs[1..] == [qs[1]] && [qs[1]][1..] == [];
    assert QuestionPieces(qs) == [first] + ([second] + []);
    var rest: seq<seq<byte>> := [];
    assert [second][1..] == rest && Join([second]) == second + [];
    assert QuestionPieces(qs)[1..] == [second];
  }

  /** The pointer leads to the zero byte in front of the second question, so the reader finds only the first label. */
  lemma {:induction false} LaterText(m: seq<byte>, at: nat, d: seq<byte>)
    requires d == [1, 120] + Be16(0xC012) && Stands(m, at, d) && at > 18 && m[18] == 0
    ensures ReadText(m, at, 4) == Some([120])
  {
    assert d[0] == m[at + 0] && d[1] == m[at + 1] && d[2] == m[at + 2] && d[3] == m[at + 3];
    var w: seq<byte>, l: Label := [1, 120, 0], [120];
    assert m[at..at + 2] + [] + [0] == w;
    assert ScratchName(m, at, 4) == Some(w);
    OneLabel(120);
    assert Wire([l]) + [0] == w && Stands(w, 0, w);
    LabelsOfWire(w, 0, [l]);
  }

  /**
   An answer to a later question whose name is compressed: "x.b", sent in answer to the second of
   the questions "a" and "b", is read as "x".
   */
  lemma {:induction false} LaterQuestionMisread(net: Net, id: u16, flags: u16, ttl: u32)
    requires net.Lawful()
    ensures Askable(TwoQuestions()) && AllSupported(TwoQuestions(), [LaterAnswer(ttl)])
    ensures var quests := TwoQuestions();
            var r := Parsed(net, Response(net, QueryFor(id, flags, quests), flags, quests, [LaterAnswer(ttl)]));
            r.Some? && |r.value.ans| == 1 && r.value.ans[0].rdata == [120] != LaterAnswer(ttl).rdata
  {
    var qs, a := TwoQuestions(), LaterAnswer(ttl);
    LaterQuery();
    LaterIsSupported(ttl);
    var req := QueryFor(id, flags, qs);
    QueryRoundTrip(net, id, flags, qs, req);
    LaterResponse(net, req, flags, a, Response(net, req, flags, qs, [a]));
  }

  lemma {:induction false} LaterResponse(net: Net, req: seq<byte>, flags: u16, a: Answer, m: seq<byte>)
    requires net.Lawful() && AllSupported(TwoQuestions(), [a]) && a == LaterAnswer(a.ttl)
    requires IsQuery(req, TwoQuestions()) && m == Response(net, req, flags, TwoQuestions(), [a])
    ensures Parsed(net, m).Some? && |Parsed(net, m).value.ans| == 1
    ensures Parsed(net, m).value.ans[0].rdata == [120]
  {
    var body, recs := Section(TwoQuestions()), Join(Records(net, TwoQuestions(), [a]));
    LaterQuery();
    ResponseHead(net, req, flags, TwoQuestions(), [a], m);
    QuestionsRoundTrip(m, 12, TwoQuestions(), 2, 26);
    assert body[6] == m[12 + 6];
    LaterRecord(net, m, a);
    LaterParsed(net, m);
  }

  lemma {:induction false} LaterParsed(net: Net, m: seq<byte>)
    requires |m| >= 12 && U16At(m, 4) == 2 && U16At(m, 6) == 1
    requires ReadAll(QuestionReader(m), 12, 2) == Some(Read(TwoQuestions(), 26))
    requires var r := ReadAll(AnswerReader(net, m), 26, 1);
             r.Some? && |r.value.value| == 1 && r.value.value[0].rdata == [120]
    ensures Parsed(net, m).Some? && |Parsed(net, m).value.ans| == 1
    ensures Parsed(net, m).value.ans[0].rdata == [120]
  {
  }

  lemma {:induction false} LaterIsSupported(ttl: u32)
    ensures AllSupported(TwoQuestions(), [LaterAnswer(ttl)])
    ensures NamePointer(TwoQuestions(), 1) == 0xC012
  {
    LaterData(0xC012);
    assert NameSum(TwoQuestions(), 1) == NameSum(TwoQuestions(), 0) + 6;
  }

  lemma {:induction false} LaterRecord(net: Net, m: seq<byte>, a: Answer)
    requires net.Lawful() && AllSupported(TwoQuestions(), [a]) && a == LaterAnswer(a.ttl)
    requires |m| >= 26 && m[18] == 0 && Stands(m, 26, Join(Records(net, TwoQuestions(), [a])))
    ensures var r := ReadAll(AnswerReader(net, m), 26, 1);
            r.Some? && |r.value.value| == 1 && r.value.value[0].rdata == [120]
  {
    var qs, d, rec := TwoQuestions(), Rdata(net, TwoQuestions(), a), Record(net, TwoQuestions(), a);
    LaterSent(net, a, d, rec);
    JoinOne(net, qs, a, rec);
    LaterReads(net, m, a, d);
  }

  lemma {:induction false} JoinOne(net: Net, quests: seq<Quest>, a: Answer, rec: seq<byte>)
    requires net.Lawful() && AllSupported(quests, [a]) && Supported(quests, a) && rec == Record(net, quests, a)
    ensures Join(Records(net, quests, [a])) == rec
  {
    var none: seq<seq<byte>> := [];
    assert Records(net, quests, [a]) == [rec] && [rec][1..] == none;
    assert Join([rec]) == rec + [] == rec;
  }

  lemma {:induction false} LaterSent(net: Net, a: Answer, d: seq<byte>, rec: seq<byte>)
    requires net.Lawful() && AllSupported(TwoQuestions(), [a]) && a == LaterAnswer(a.ttl)
    requires Supported(TwoQuestions(), a) && d == Rdata(net, TwoQuestions(), a) && rec == Record(net, TwoQuestions(), a)
    ensures d == [1, 120] + Be16(0xC012) && rec == RecordHead(TwoQuestions(), a, 4) + d
  {
    LaterIsSupported(a.ttl);
    LaterData(0xC012);
    ReportsLength(a.rdata, TYPE_NS, [98], 0xC012, 0);
  }

  lemma {:induction false} LaterReads(net: Net, m: seq<byte>, a: Answer, d: seq<byte>)
    requires a == LaterAnswer(a.ttl) && |m| > 18 && m[18] == 0 && d == [1, 120] + Be16(0xC012)
    requires Stands(m, 26, RecordHead(TwoQuestions(), a, 4) + d)
    ensures var r := ReadAll(AnswerReader(net, m), 26, 1);
            r.Some? && |r.value.value| == 1 && r.value.value[0].rdata == [120]
  {
    HeadStands(m, 26, TwoQuestions(), a, 4, d);
    LaterText(m, 38, d);
    CTextOf([], [120]);
    assert AnswerReader(net, m)(26) == AnswerAt(net, m, 26);
  }
}
