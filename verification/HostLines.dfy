/** The lines of the host file, and what a query of them must give. */
module HostLines {
  import opened Bytes
  import opened LruList

  const COLON: byte := 58
  /** The text "0.0.0.0". */
  const BLOCKED: Text := [48, 46, 48, 46, 48, 46, 48]
  const HOST_TTL := 0x80

  /** One line of the host file, split at its first space. */
  datatype Line = Line(ip: Text, domain: Text)

  function EntryOf(line: Line, now: int): Entry {
    Entry(line.domain, line.ip, if COLON in line.ip then TYPE_AAAA else TYPE_A, 0, now)
  }

  /** A domain's entries, latest line first. */
  function Listed(lines: seq<Line>, now: int, domain: Text): seq<Entry> {
    if lines == [] then []
    else
      var init, last := lines[..|lines| - 1], lines[|lines| - 1];
      (if last.domain == domain then [EntryOf(last, now)] else []) + Listed(init, now, domain)
  }

  /** A domain's entries in the order of the file. */
  function InFileOrder(lines: seq<Line>, now: int, domain: Text): seq<Entry> {
    if lines == [] then []
    else (if lines[0].domain == domain then [EntryOf(lines[0], now)] else []) + InFileOrder(lines[1..], now, domain)
  }

  lemma {:induction false} LatestFirst(lines: seq<Line>, now: int, domain: Text)
    ensures Listed(lines, now, domain) == Reverse(InFileOrder(lines, now, domain))
  {
    if lines != [] {
      var init, last := lines[..|lines| - 1], lines[|lines| - 1];
      LatestFirst(init, now, domain);
      var end := if last.domain == domain then [EntryOf(last, now)] else [];
      InFileOrderEnd(lines, now, domain);
      ReverseConcat(InFileOrder(init, now, domain), end);
    }
  }

  lemma {:induction false} InFileOrderEnd(lines: seq<Line>, now: int, domain: Text)
    requires lines != []
    ensures var init, last := lines[..|lines| - 1], lines[|lines| - 1];
            InFileOrder(lines, now, domain)
            == InFileOrder(init, now, domain) + if last.domain == domain then [EntryOf(last, now)] else []
  {
    var init, last := lines[..|lines| - 1], lines[|lines| - 1];
    if |lines| == 1 {
      assert InFileOrder(lines[1..], now, domain) == [];
    } else {
      var first := if lines[0].domain == domain then [EntryOf(lines[0], now)] else [];
      var end := if last.domain == domain then [EntryOf(last, now)] else [];
      InFileOrderEnd(lines[1..], now, domain);
      assert lines[1..][..|lines| - 2] == init[1..];
      Assoc(first, InFileOrder(init[1..], now, domain), end, []);
    }
  }

  /** The domain is listed with the address that blocks it. */
  predicate Blocks(list: seq<Entry>, rtype: byte) {
    rtype == TYPE_A && exists i :: 0 <= i < |list| && list[i].ip == BLOCKED
  }

  /** The entries of a type, with a fresh expiry. */
  function Select(list: seq<Entry>, rtype: byte, now: int): seq<Entry> {
    if list == [] then []
    else
      (if list[0].rtype == rtype then [list[0].(timestamp := now + HOST_TTL)] else []) + Select(list[1..], rtype, now)
  }

  /** The return value and the records of a host query. */
  function Answer(list: seq<Entry>, rtype: byte, now: int): (int, seq<Entry>) {
    if Blocks(list, rtype) then (-1, []) else (|Select(list, rtype, now)|, Select(list, rtype, now))
  }

  /** A query is blocked exactly when the file has a line for that domain with address 0.0.0.0. */
  lemma {:induction false} BlockedByLine(lines: seq<Line>, loaded: int, domain: Text, rtype: byte, now: int)
    ensures Answer(Listed(lines, loaded, domain), rtype, now).0 == -1
       <==> rtype == 1 && exists i :: 0 <= i < |lines| && lines[i] == Line([48, 46, 48, 46, 48, 46, 48], domain)
  {
    if i :| 0 <= i < |lines| && lines[i] == Line(BLOCKED, domain) {
      LineIsListed(lines, loaded, domain, i);
    }
    var list := Listed(lines, loaded, domain);
    if i :| 0 <= i < |list| && list[i].ip == BLOCKED {
      ListedIsLine(lines, loaded, domain, i);
    }
  }

  lemma {:induction false} LineIsListed(lines: seq<Line>, loaded: int, domain: Text, i: nat)
    requires i < |lines| && lines[i].domain == domain
    ensures EntryOf(lines[i], loaded) in Listed(lines, loaded, domain)
    decreases |lines|
  {
    if i < |lines| - 1 {
      LineIsListed(lines[..|lines| - 1], loaded, domain, i);
    }
  }

  lemma {:induction false} ListedIsLine(lines: seq<Line>, loaded: int, domain: Text, i: nat)
    requires i < |Listed(lines, loaded, domain)|
    ensures exists j :: 0 <= j < |lines| && lines[j].domain == domain
                     && Listed(lines, loaded, domain)[i] == EntryOf(lines[j], loaded)
    decreases |lines|
  {
    var init, last := lines[..|lines| - 1], lines[|lines| - 1];
    if last.domain == domain && i == 0 {
      assert lines[|lines| - 1] == last;
    } else {
      ListedIsLine(init, loaded, domain, if last.domain == domain then i - 1 else i);
      assert forall j :: 0 <= j < |init| ==> init[j] == lines[j];
    }
  }

  /** The line is for the domain, with an address of the type; an IPv6 address is told by its colon. */
  predicate Matches(line: Line, domain: Text, rtype: byte) {
    line.domain == domain && rtype == if 58 in line.ip then 28 else 1
  }

  /** `idx` are the places of the matching lines, latest first and each once. */
  ghost predicate Places(lines: seq<Line>, domain: Text, rtype: byte, idx: seq<nat>) {
    && (forall j, k :: 0 <= j < k < |idx| ==> idx[j] > idx[k])
    && (forall k :: 0 <= k < |idx| ==> idx[k] < |lines|)
    && forall i :: 0 <= i < |lines| ==> (i in idx <==> Matches(lines[i], domain, rtype))
  }

  /** `r` are the records of the lines at `idx`, with a fresh expiry. */
  ghost predicate ServesLines(r: seq<Entry>, lines: seq<Line>, domain: Text, rtype: byte, idx: seq<nat>, now: int) {
    && |r| == |idx|
    && forall k :: 0 <= k < |idx| ==> idx[k] < |lines| && r[k] == Entry(domain, lines[idx[k]].ip, rtype, 0, now + 128)
  }

  lemma {:induction false} SelectPlaces(lines: seq<Line>, loaded: int, domain: Text, rtype: byte, now: int)
      returns (idx: seq<nat>)
    ensures Places(lines, domain, rtype, idx)
    ensures ServesLines(Select(Listed(lines, loaded, domain), rtype, now), lines, domain, rtype, idx, now)
  {
    idx := [];
    if lines != [] {
      var n := |lines| - 1;
      var init, last := lines[..n], lines[n];
      var before := SelectPlaces(init, loaded, domain, rtype, now);
      idx := if Matches(last, domain, rtype) then [n] + before else before;
      SelectNext(lines, loaded, domain, rtype, now);
      PlacesNext(lines, domain, rtype, before, idx);
      ServesNext(Select(Listed(init, loaded, domain), rtype, now), Select(Listed(lines, loaded, domain), rtype, now),
                 lines, domain, rtype, before, idx, now);
    }
  }

  lemma {:induction false} PlacesNext(lines: seq<Line>, domain: Text, rtype: byte, before: seq<nat>, idx: seq<nat>)
    requires lines != [] && Places(lines[..|lines| - 1], domain, rtype, before)
    requires idx == if Matches(lines[|lines| - 1], domain, rtype) then [|lines| - 1] + before else before
    ensures Places(lines, domain, rtype, idx)
  {
    var n := |lines| - 1;
    forall i | 0 <= i < n
      ensures i in idx <==> Matches(lines[i], domain, rtype)
    {
      assert lines[..n][i] == lines[i];
    }
  }

  lemma {:induction false} ServesNext(r: seq<Entry>, s: seq<Entry>, lines: seq<Line>, domain: Text, rtype: byte,
                                      before: seq<nat>, idx: seq<nat>, now: int)
    requires lines != [] && ServesLines(r, lines[..|lines| - 1], domain, rtype, before, now)
    requires var n := |lines| - 1;
             if Matches(lines[n], domain, rtype)
             then idx == [n] + before && s == [Entry(domain, lines[n].ip, rtype, 0, now + 128)] + r
             else idx == before && s == [] + r
    ensures ServesLines(s, lines, domain, rtype, idx, now)
  {
  }

  lemma {:induction false} SelectNext(lines: seq<Line>, loaded: int, domain: Text, rtype: byte, now: int)
    requires lines != []
    ensures var init, last := lines[..|lines| - 1], lines[|lines| - 1];
            var first := if Matches(last, domain, rtype) then [Entry(domain, last.ip, rtype, 0, now + 128)] else [];
            Select(Listed(lines, loaded, domain), rtype, now)
            == first + Select(Listed(init, loaded, domain), rtype, now)
  {
    var init, last := lines[..|lines| - 1], lines[|lines| - 1];
    var rest := Listed(init, loaded, domain);
    if last.domain == domain {
      assert Listed(lines, loaded, domain) == [EntryOf(last, loaded)] + rest;
      assert ([EntryOf(last, loaded)] + rest)[1..] == rest;
    } else {
      assert Listed(lines, loaded, domain) == [] + rest == rest;
      assert [] + Select(rest, rtype, now) == Select(rest, rtype, now);
    }
  }

  /** A query that is not blocked is answered with exactly the matching lines, latest first and each once. */
  lemma {:induction false} EveryLineIsServed(lines: seq<Line>, loaded: int, domain: Text, rtype: byte, now: int)
      returns (idx: seq<nat>)
    requires Answer(Listed(lines, loaded, domain), rtype, now).0 != -1
    ensures Places(lines, domain, rtype, idx)
    ensures var (n, r) := Answer(Listed(lines, loaded, domain), rtype, now);
            n == |r| && ServesLines(r, lines, domain, rtype, idx, now)
  {
    idx := SelectPlaces(lines, loaded, domain, rtype, now);
  }
}
