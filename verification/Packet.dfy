/**
 The packet structure and the two loops over it: parsing a buffer into it, and formatting the
 response from it. Module PacketCodec says what they read and write.
 */
module Packet {
  import opened Bytes
  import opened Names
  import opened UrlCodec
  import opened PacketCodec

  class Packet {
    var buf: seq<byte>
    var id: u16
    var flags: u16
    var qdcount: u16
    var ancount: u16
    var quests: seq<Quest>
    var ans: seq<Answer>

    ghost function View(): Message
      reads this
    {
      Message(buf, id, flags, qdcount, ancount, quests, ans)
    }

    /** The answers that are sent: `ancount` can be smaller than the number of loaded answers. */
    ghost predicate Sendable()
      reads this
    {
      && |buf| >= 12 && ancount <= |ans| && AllSupported(quests, ans[..ancount])
      && forall i :: 0 <= i < |quests| ==> 0 !in quests[i].qname
    }

    constructor (buf: seq<byte>)
      ensures View() == Message(buf, 0, 0, 0, 0, [], [])
    {
      this.buf := buf;
      id, flags, qdcount, ancount := 0, 0, 0, 0;
      quests, ans := [], [];
    }

    method SetAnswers(ans: seq<Answer>, n: u16)
      modifies `ans, `ancount
      ensures View() == old(View()).(ans := ans, ancount := n)
    {
      this.ans, ancount := ans, n;
    }
  }

  // ---------------------------------------------------------------- parsing

  method ParseQuestion(m: seq<byte>, p: nat) returns (q: Quest, next: nat)
    requires QuestionAt(m, p).Some?
    ensures QuestionAt(m, p) == Some(Read(q, next))
    ensures p + 5 <= next <= |m| && m[next - 5] == 0 && forall i :: p <= i < next - 5 ==> m[i] != 0
    ensures q.qtype == Pair(m[next - 4], m[next - 3]) && q.qclass == Pair(m[next - 2], m[next - 1])
  {
    ghost var name := Dotted(LabelsAt(m, p).value);
    var qLen := 0;
    while m[p + qLen] != 0
      invariant p + qLen <= ZeroAt(m, p) && ZeroAt(m, p) == ZeroAt(m, p + qLen)
      decreases |m| - qLen
    {
      qLen := qLen + 1;
    }
    var qname := new byte[QNAME_MAX + 1](_ => 0);
    InetParse(m, p, qname);
    var text := TextIn(qname, name);
    next := p + qLen + 1;
    q := Quest(text, U16At(m, next), U16At(m, next + 2));
    next := next + 4;
    QuestionLayout(m, p, q, next);
  }

  /** `urlParse` for an answer's record data. */
  method ParseRdata(net: Net, m: seq<byte>, p: nat, t: u16, len: nat) returns (rdata: Text, addition: u16)
    requires p + len <= |m| && RdataAt(net, m, p, t, len).Some?
    ensures RdataAt(net, m, p, t, len) == Some((rdata, addition))
  {
    if t == TYPE_A {
      return net.ntop4(m[p..p + 4]), 0;
    }
    if t == TYPE_AAAA {
      return net.ntop6(m[p..p + 16]), 0;
    }
    var at, n := p, len;
    addition := 0;
    if t == TYPE_MX {
      addition := U16At(m, p);
      at, n := p + 2, len - 2;
    }
    if NameType(t) {
      ghost var name := ReadText(m, at, n).value;
      ReadTextFits(m, at, n);
      var dest := new byte[255](_ => 0);
      ParseName(m, at, n, dest);
      rdata := TextIn(dest, name);
    } else {
      rdata := [];
    }
  }

  lemma {:induction false} ReadTextFits(m: seq<byte>, at: nat, len: nat)
    requires ReadText(m, at, len).Some?
    ensures |ReadText(m, at, len).value| <= 253
  {
    var w := ScratchName(m, at, len).value;
    var ls := LabelsAt(w, 0).value;
    LabelsOfWire(w, 0, ls);
    WireLength(ls);
  }

  method ParseAnswer(net: Net, m: seq<byte>, p: nat) returns (a: Answer, next: nat)
    requires AnswerAt(net, m, p).Some?
    ensures AnswerAt(net, m, p) == Some(Read(a, next))
    ensures p + 12 <= |m| && a.rtype == Pair(m[p + 2], m[p + 3]) && a.class_ == Pair(m[p + 4], m[p + 5])
    ensures a.ttl == Quad(m[p + 6], m[p + 7], m[p + 8], m[p + 9]) && next == p + 12 + Pair(m[p + 10], m[p + 11])
  {
    var t, len := U16At(m, p + 2), U16At(m, p + 10);
    var rdata, addition := ParseRdata(net, m, p + 12, t, len);
    a := Answer(0, RawU16(m, p), t, U16At(m, p + 4), len, U32At(m, p + 6), addition, rdata);
    next := p + 12 + len;
    AnswerLayout(net, m, p, a, next);
  }

  /** `n` items were asked for from `p`; `done` are read, the next one starts at `pos`. */
  ghost predicate Reading<T>(read: nat -> Option<Read<T>>, p: nat, n: nat, done: seq<T>, pos: nat)
    requires |done| <= n
  {
    var all, rest := ReadAll(read, p, n), ReadAll(read, pos, n - |done|);
    all.Some? && rest.Some? && all.value == Read(done + rest.value.value, rest.value.next)
  }

  lemma {:induction false} ReadingStarts<T>(read: nat -> Option<Read<T>>, p: nat, n: nat)
    requires ReadAll(read, p, n).Some?
    ensures Reading(read, p, n, [], p)
  {
    var all := ReadAll(read, p, n).value;
    assert [] + all.value == all.value;
  }

  lemma {:induction false} ReadingNext<T>(read: nat -> Option<Read<T>>, p: nat, n: nat, done: seq<T>, pos: nat)
    requires |done| < n && Reading(read, p, n, done, pos)
    ensures read(pos).Some? && Reading(read, p, n, done + [read(pos).value.value], read(pos).value.next)
  {
    var item := read(pos).value;
    var rest := ReadAll(read, item.next, n - |done| - 1).value;
    Assoc(done, [item.value], rest.value, []);
  }

  lemma {:induction false} ReadingEnds<T>(read: nat -> Option<Read<T>>, p: nat, n: nat, done: seq<T>, pos: nat)
    requires |done| == n && Reading(read, p, n, done, pos)
    ensures ReadAll(read, p, n) == Some(Read(done, pos))
  {
    assert done + [] == done;
  }

  /** Parses a well-formed packet. */
  method PacketParse(net: Net, buf: seq<byte>) returns (p: Packet)
    requires Parsed(net, buf).Some?
    ensures fresh(p) && Parsed(net, buf) == Some(p.View())
  {
    p := new Packet(buf);
    p.id, p.flags := RawU16(buf, 0), U16At(buf, 2);
    p.qdcount, p.ancount := U16At(buf, 4), U16At(buf, 6);
    var quests, ans;
    var pos;
    quests, pos := ParseQuestions(buf, p.qdcount);
    p.quests := quests;
    if p.ancount == 0 {
      return;
    }
    ans := ParseAnswers(net, buf, pos, p.ancount);
    p.ans := ans;
  }

  method ParseQuestions(buf: seq<byte>, n: nat) returns (quests: seq<Quest>, pos: nat)
    requires ReadAll(QuestionReader(buf), 12, n).Some?
    ensures ReadAll(QuestionReader(buf), 12, n) == Some(Read(quests, pos))
  {
    ghost var read := QuestionReader(buf);
    quests, pos := [], 12;
    ReadingStarts(read, 12, n);
    for i := 0 to n
      invariant |quests| == i && Reading(read, 12, n, quests, pos)
    {
      ReadingNext(read, 12, n, quests, pos);
      var q;
      q, pos := ParseQuestion(buf, pos);
      quests := quests + [q];
    }
    ReadingEnds(read, 12, n, quests, pos);
  }

  method ParseAnswers(net: Net, buf: seq<byte>, start: nat, n: nat) returns (ans: seq<Answer>)
    requires ReadAll(AnswerReader(net, buf), start, n).Some?
    ensures ans == ReadAll(AnswerReader(net, buf), start, n).value.value
  {
    ghost var read := AnswerReader(net, buf);
    var pos := start;
    ans := [];
    ReadingStarts(read, start, n);
    for i := 0 to n
      invariant |ans| == i && Reading(read, start, n, ans, pos)
    {
      ReadingNext(read, start, n, ans, pos);
      var a;
      a, pos := ParseAnswer(net, buf, pos);
      ans := ans + [a];
    }
    ReadingEnds(read, start, n, ans, pos);
  }

  // ---------------------------------------------------------------- formatting

  lemma {:induction false} AddWraps(a: nat, b: nat)
    ensures (a % 0x1_0000 + b) % 0x1_0000 == (a + b) % 0x1_0000
  {
  }

  /** The NAME fields: a 16-bit sum over the earlier questions' text lengths. */
  method NameFields(quests: seq<Quest>, ans: seq<Answer>) returns (names: seq<u16>)
    requires forall i :: 0 <= i < |ans| ==> ans[i].qpos < |quests|
    ensures |names| == |ans| && forall i :: 0 <= i < |ans| ==> names[i] == NamePointer(quests, ans[i].qpos)
  {
    names := [];
    for i := 0 to |ans|
      invariant |names| == i && forall k :: 0 <= k < i ==> names[k] == NamePointer(quests, ans[k].qpos)
    {
      var name: u16 := 0xC00C;
      for j := 0 to ans[i].qpos
        invariant j <= |quests| && name == NamePointer(quests, j)
      {
        AddWraps(0xC00C + NameSum(quests, j), |quests[j].qname| + 5);
        name := (name + |quests[j].qname| + 1 + 4) % 0x1_0000;
      }
      names := names + [name];
    }
  }

  /**
   `mem` is the memory from the answer's text on; whatever stands behind a name, the loop over it
   ends in the scratch buffer.
   */
  ghost predicate Held(a: Answer, mem: seq<byte>) {
    NameType(a.rtype) ==> InMemory(mem, a.rdata, 255 - PreferenceSize(a.rtype))
  }

  ghost predicate AllHeld(ans: seq<Answer>, mems: seq<seq<byte>>) {
    |mems| == |ans| && forall i :: 0 <= i < |ans| ==> Held(ans[i], mems[i])
  }

  /**
   `urlFormat`: the record data goes to the scratch buffer and its reported length is returned; for a
   type that is not supported, -1.
   */
  method UrlFormat(net: Net, quests: seq<Quest>, a: Answer, mem: seq<byte>, name: u16, dest: array<byte>)
      returns (ret: int)
    requires net.Lawful() && dest.Length == 255 && a.qpos < |quests| && name == NamePointer(quests, a.qpos)
    requires Supports(a.rtype) ==> Supported(quests, a) && Held(a, mem)
    modifies dest
    ensures Supports(a.rtype) ==> ret == |Rdata(net, quests, a)| <= 255 && dest[..ret] == Rdata(net, quests, a)
    ensures !Supports(a.rtype) ==> ret == -1 && dest[..] == old(dest[..])
  {
    if !Supports(a.rtype) {
      return -1;
    }
    if a.rtype == TYPE_A || a.rtype == TYPE_AAAA {
      ret := FormatAddress(net, quests, a, dest);
    } else {
      ret := FormatNameOf(net, quests, a, mem, name, dest);
    }
  }

  method FormatAddress(net: Net, quests: seq<Quest>, a: Answer, dest: array<byte>) returns (ret: nat)
    requires net.Lawful() && dest.Length == 255 && Supported(quests, a) && !NameType(a.rtype)
    modifies dest
    ensures ret == |Rdata(net, quests, a)| <= 255 && dest[..ret] == Rdata(net, quests, a)
  {
    var b := if a.rtype == TYPE_A then net.pton4(a.rdata) else net.pton6(a.rdata);
    if b.None? {
      assert dest[..0] == [];
      return 0;
    }
    Copy(dest, 0, b.value);
    ret := |b.value|;
  }

  method FormatNameOf(net: Net, quests: seq<Quest>, a: Answer, mem: seq<byte>, name: u16, dest: array<byte>)
      returns (ret: nat)
    requires net.Lawful() && dest.Length == 255 && Supported(quests, a) && NameType(a.rtype) && Held(a, mem)
    requires name == NamePointer(quests, a.qpos)
    modifies dest
    ensures ret == |Rdata(net, quests, a)| <= 255 && dest[..ret] == Rdata(net, quests, a)
  {
    ghost var d := RecordData(a.rdata, a.rtype, quests[a.qpos].qname, name, a.addition);
    ReportsLength(a.rdata, a.rtype, quests[a.qpos].qname, name, a.addition);
    RdataLength(net, quests, a);
    ret := FormatName(a.rdata, mem, dest, a.rtype, quests[a.qpos].qname, name, a.addition);
    assert dest[..ret] == dest[..|d|][..ret];
  }

  /** An answer after its record data has been put into wire form. */
  ghost function Formed(net: Net, quests: seq<Quest>, a: Answer): Answer
    requires net.Lawful() && Supported(quests, a)
  {
    RdataLength(net, quests, a);
    a.(rdlen := |Rdata(net, quests, a)|, rdata := Rdata(net, quests, a))
  }

  method FormAnswer(net: Net, quests: seq<Quest>, a: Answer, mem: seq<byte>, name: u16, scratch: array<byte>)
      returns (r: Answer)
    requires net.Lawful() && Supported(quests, a) && Held(a, mem) && name == NamePointer(quests, a.qpos)
    requires scratch.Length == 255
    modifies scratch
    ensures r == Formed(net, quests, a)
  {
    var len := UrlFormat(net, quests, a, mem, name, scratch);
    r := a.(rdlen := len, rdata := scratch[..len]);
  }

  /** One answer record at `dest[at..]`: twelve bytes, then the data. */
  method WriteRecord(dest: array<byte>, at: nat, ghost quests: seq<Quest>, a: Answer, name: u16)
    requires a.qpos <= |quests| && name == NamePointer(quests, a.qpos)
    requires |a.rdata| == a.rdlen && at + 12 + |a.rdata| <= dest.Length
    modifies dest
    ensures dest[at..at + 12 + |a.rdata|] == RecordHead(quests, a, a.rdlen) + a.rdata
    ensures dest[at..at + 12] ==
            [name / 0x100, name % 0x100, a.rtype / 0x100, a.rtype % 0x100, a.class_ / 0x100, a.class_ % 0x100,
             a.ttl / 0x100_0000, a.ttl / 0x1_0000 % 0x100, a.ttl / 0x100 % 0x100, a.ttl % 0x100,
             a.rdlen / 0x100, a.rdlen % 0x100]
    ensures dest[..at] == old(dest[..at])
  {
    WriteFields(dest, at, quests, a, name);
    RecordLayout(quests, a, a.rdlen);
    assert dest[at..at + 12] == dest[at..at + 12 + |a.rdata|][..12];
  }

  /** Field by field; the data is copied before its length field is set. */
  method WriteFields(dest: array<byte>, at: nat, ghost quests: seq<Quest>, a: Answer, name: u16)
    requires a.qpos <= |quests| && name == NamePointer(quests, a.qpos)
    requires |a.rdata| == a.rdlen && at + 12 + |a.rdata| <= dest.Length
    modifies dest
    ensures dest[at..at + 12 + |a.rdata|] == RecordHead(quests, a, a.rdlen) + a.rdata
    ensures dest[..at] == old(dest[..at])
  {
    Copy(dest, at, Be16(name));
    Copy(dest, at + 2, Be16(a.rtype));
    Copy(dest, at + 4, Be16(a.class_));
    Copy(dest, at + 6, Be32(a.ttl));
    Copy(dest, at + 12, a.rdata);
    Copy(dest, at + 10, Be16(a.rdlen));
    assert dest[at..at + 2] == Be16(name) && dest[at + 2..at + 4] == Be16(a.rtype);
    assert dest[at + 4..at + 6] == Be16(a.class_) && dest[at + 6..at + 10] == Be32(a.ttl);
    assert dest[at + 10..at + 12] == Be16(a.rdlen) && dest[at + 12..at + 12 + |a.rdata|] == a.rdata;
    SliceJoin(dest, at, at + 2, at + 4);
    SliceJoin(dest, at, at + 4, at + 6);
    SliceJoin(dest, at, at + 6, at + 10);
    SliceJoin(dest, at, at + 10, at + 12);
    SliceJoin(dest, at, at + 12, at + 12 + |a.rdata|);
  }

  ghost function FormedAll(net: Net, quests: seq<Quest>, ans: seq<Answer>): (fs: seq<Answer>)
    requires net.Lawful() && AllSupported(quests, ans)
    ensures |fs| == |ans|
  {
    if ans == [] then [] else [Formed(net, quests, ans[0])] + FormedAll(net, quests, ans[1..])
  }

  ghost predicate InQuestions(quests: seq<Quest>, fs: seq<Answer>) {
    forall i :: 0 <= i < |fs| ==> fs[i].qpos < |quests| && |fs[i].rdata| == fs[i].rdlen
  }

  /** The records of formed answers. */
  ghost function Written(quests: seq<Quest>, fs: seq<Answer>): seq<byte>
    requires InQuestions(quests, fs)
  {
    if fs == [] then [] else RecordHead(quests, fs[0], fs[0].rdlen) + fs[0].rdata + Written(quests, fs[1..])
  }

  /** What the length loop adds up. */
  ghost function Lengths(fs: seq<Answer>): nat {
    if fs == [] then 0 else fs[0].rdlen + 12 + Lengths(fs[1..])
  }

  lemma {:induction false} FormedRecords(net: Net, quests: seq<Quest>, ans: seq<Answer>)
    requires net.Lawful() && AllSupported(quests, ans)
    ensures var fs := FormedAll(net, quests, ans);
            && InQuestions(quests, fs)
            && Written(quests, fs) == Join(Records(net, quests, ans))
            && Lengths(fs) == |Join(Records(net, quests, ans))|
            && forall i :: 0 <= i < |ans| ==> fs[i].qpos == ans[i].qpos
  {
    if ans != [] {
      var fs, rest := FormedAll(net, quests, ans), FormedAll(net, quests, ans[1..]);
      FormedRecords(net, quests, ans[1..]);
      assert fs[1..] == rest;
      assert Records(net, quests, ans)[1..] == Records(net, quests, ans[1..]);
      forall i | 0 <= i < |ans|
        ensures fs[i].qpos == ans[i].qpos < |quests| && |fs[i].rdata| == fs[i].rdlen
      {
        assert i > 0 ==> fs[i] == rest[i - 1] && ans[i] == ans[1..][i - 1];
      }
    }
  }

  lemma {:induction false} FormedAt(net: Net, quests: seq<Quest>, ans: seq<Answer>, i: nat)
    requires net.Lawful() && AllSupported(quests, ans) && i < |ans|
    ensures FormedAll(net, quests, ans)[i] == Formed(net, quests, ans[i])
  {
    if i > 0 {
      FormedAt(net, quests, ans[1..], i - 1);
    }
  }

  lemma {:induction false} FormedNext(net: Net, quests: seq<Quest>, ans: seq<Answer>, i: nat, all: seq<Answer>)
    requires net.Lawful() && AllSupported(quests, ans) && i < |ans| && all == FormedAll(net, quests, ans)
    ensures all[..i + 1] == all[..i] + [Formed(net, quests, ans[i])]
  {
    FormedAt(net, quests, ans, i);
    TakeNext(all, i);
  }

  lemma {:induction false} TakeNext<T>(s: seq<T>, i: nat)
    requires i < |s|
    ensures s[..i + 1] == s[..i] + [s[i]]
  {
  }

  lemma {:induction false} LengthsAppend(fs: seq<Answer>, a: Answer)
    ensures Lengths(fs + [a]) == Lengths(fs) + a.rdlen + 12
  {
    if fs == [] {
      assert Lengths([a][1..]) == 0;
      assert fs + [a] == [a];
    } else {
      assert (fs + [a])[1..] == fs[1..] + [a];
      LengthsAppend(fs[1..], a);
    }
  }

  /** The second loop: every answer's record data in wire form, and the packet's length with it. */
  method FormAnswers(net: Net, quests: seq<Quest>, ans: seq<Answer>, mems: seq<seq<byte>>, names: seq<u16>, start: nat)
    returns (fs: seq<Answer>, len: nat)
    requires net.Lawful() && AllSupported(quests, ans) && AllHeld(ans, mems) && |names| == |ans|
    requires forall i :: 0 <= i < |ans| ==> names[i] == NamePointer(quests, ans[i].qpos)
    ensures fs == FormedAll(net, quests, ans) && len == start + Lengths(fs)
  {
    ghost var all := FormedAll(net, quests, ans);
    var scratch := new byte[255](_ => 0);
    fs, len := [], start;
    for i := 0 to |ans|
      invariant fs == all[..i] && len == start + Lengths(fs)
    {
      var a := FormAnswer(net, quests, ans[i], mems[i], names[i], scratch);
      FormedNext(net, quests, ans, i, all);
      LengthsAppend(fs, a);
      fs := fs + [a];
      len := len + a.rdlen + 12;
    }
    assert all[..|ans|] == all;
  }

  lemma {:induction false} WrittenNext(quests: seq<Quest>, fs: seq<Answer>, i: nat)
    requires InQuestions(quests, fs) && i < |fs|
    ensures InQuestions(quests, fs[i..]) && InQuestions(quests, fs[i + 1..])
    ensures Written(quests, fs[i..])
         == RecordHead(quests, fs[i], fs[i].rdlen) + fs[i].rdata + Written(quests, fs[i + 1..])
  {
    assert fs[i..][1..] == fs[i + 1..];
  }

  /** The third loop: the records, one behind the other from `start` on. */
  method WriteRecords(quests: seq<Quest>, fs: seq<Answer>, names: seq<u16>, dest: array<byte>, start: nat)
    requires InQuestions(quests, fs) && |fs| == |names|
    requires forall i :: 0 <= i < |fs| ==> names[i] == NamePointer(quests, fs[i].qpos)
    requires start + |Written(quests, fs)| <= dest.Length
    modifies dest
    ensures dest[..start + |Written(quests, fs)|] == old(dest[..start]) + Written(quests, fs)
  {
    ghost var head, r := dest[..start], Written(quests, fs);
    var at := start;
    ghost var done: seq<byte> := [];
    assert fs[0..] == fs;
    for i := 0 to |fs|
      invariant InQuestions(quests, fs[i..]) && done + Written(quests, fs[i..]) == r
      invariant at == start + |done| && at <= dest.Length && dest[..at] == head + done
    {
      WrittenNext(quests, fs, i);
      ghost var rec := RecordHead(quests, fs[i], fs[i].rdlen) + fs[i].rdata;
      Assoc(done, rec, Written(quests, fs[i + 1..]), []);
      WriteRecord(dest, at, quests, fs[i], names[i]);
      SliceJoin(dest, 0, at, at + |rec|);
      Assoc(head, done, rec, []);
      done := done + rec;
      at := at + fs[i].rdlen + 12;
    }
    assert done + [] == done;
  }

  /** Builds the response. Its record data replaces the text in the packet's sent answers, which stand in `mems`. */
  method ResponseFormat(net: Net, p: Packet, mems: seq<seq<byte>>) returns (dest: array<byte>, len: nat)
    requires net.Lawful() && p.Sendable() && AllHeld(p.ans[..p.ancount], mems)
    modifies p`ans
    ensures fresh(dest) && dest.Length == len + 1
    ensures dest[..len] == Response(net, p.buf, p.flags, p.quests, old(p.ans[..p.ancount]))
    ensures p.ans == FormedAll(net, p.quests, old(p.ans[..p.ancount])) + old(p.ans[p.ancount..])
    ensures 12 <= len && Marked(Pair(dest[2], dest[3]), p.flags, p.ancount) && Pair(dest[6], dest[7]) == p.ancount
  {
    var flag, sent, buf := ResponseFlags(p.flags, p.ancount), p.ans[..p.ancount], p.buf;
    var names := NameFields(p.quests, sent);
    var fs;
    fs, len := FormAnswers(net, p.quests, sent, mems, names, |buf|);
    p.ans := fs + p.ans[p.ancount..];
    FormedRecords(net, p.quests, sent);
    dest := Assemble(buf, flag, p.ancount, p.quests, fs, names, len);
    ResponseLayout(net, buf, p.flags, p.quests, sent, dest[..len]);
    ResponseIsMarked(p.flags, p.ancount);
  }

  /** The buffer of a response: the query's bytes, the header fields replaced, the records appended. */
  method Assemble(buf: seq<byte>, flag: u16, n: u16, quests: seq<Quest>, fs: seq<Answer>, names: seq<u16>, len: nat)
    returns (dest: array<byte>)
    requires |buf| >= 12 && InQuestions(quests, fs) && |fs| == |names| && len == |buf| + |Written(quests, fs)|
    requires forall i :: 0 <= i < |fs| ==> names[i] == NamePointer(quests, fs[i].qpos)
    ensures fresh(dest) && dest.Length == len + 1
    ensures dest[..len] == buf[..2] + Be16(flag) + buf[4..6] + Be16(n) + buf[8..] + Written(quests, fs)
  {
    dest := new byte[len + 1](_ => 0);
    Copy(dest, 0, buf);
    assert dest[..|buf|] == buf;
    WriteHeader(dest, buf, flag, n);
    WriteRecords(quests, fs, names, dest, |buf|);
  }

  method WriteHeader(dest: array<byte>, req: seq<byte>, flag: u16, n: u16)
    requires 12 <= |req| <= dest.Length && dest[..|req|] == req
    modifies dest
    ensures dest[..|req|] == req[..2] + Be16(flag) + req[4..6] + Be16(n) + req[8..]
  {
    ghost var was := dest[..];
    assert forall i :: 0 <= i < |req| ==> was[i] == req[i];
    Copy(dest, 2, Be16(flag));
    assert dest[2..4] == Be16(flag);
    Copy(dest, 6, Be16(n));
    assert dest[6..8] == Be16(n) && dest[2..4] == Be16(flag);
    assert dest[..2] == req[..2] && dest[4..6] == req[4..6] && dest[8..|req|] == req[8..];
    SliceJoin(dest, 0, 2, 4);
    SliceJoin(dest, 0, 4, 6);
    SliceJoin(dest, 0, 6, 8);
    SliceJoin(dest, 0, 8, |req|);
  }
}
