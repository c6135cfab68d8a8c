/** The local host table: the lines of the host file, kept per domain in the string hash table. */
module HostTable {
  import opened Bytes
  import opened LruList
  import opened HashTable
  import opened HostLines

  /** One domain's list. */
  class HostList {
    var entries: seq<Entry>

    constructor ()
      ensures entries == []
    {
      entries := [];
    }

    method AddHead(e: Entry)
      modifies this
      ensures entries == [e] + old(entries)
    {
      entries := [e] + entries;
    }
  }

  /** The loop over a domain's list. */
  method Collect(list: seq<Entry>, rtype: byte, now: int) returns (num: int, result: seq<Entry>)
    ensures (num, result) == Answer(list, rtype, now)
  {
    num, result := 0, [];
    for i := 0 to |list|
      invariant num == |result| && result + Select(list[i..], rtype, now) == Select(list, rtype, now)
      invariant rtype == TYPE_A ==> forall j :: 0 <= j < i ==> list[j].ip != BLOCKED
    {
      if rtype == TYPE_A && list[i].ip == BLOCKED {
        return -1, [];
      }
      assert list[i..] == [list[i]] + list[i + 1..];
      if list[i].rtype == rtype {
        result := result + [list[i].(timestamp := now + HOST_TTL)];
        num := num + 1;
      }
    }
    assert result + [] == result;
  }

  lemma {:induction false} KeysDiffer(a: Text, b: Text)
    ensures KeyOf(a) == KeyOf(b) <==> a == b
  {
    assert KeyOf(a)[..|a|] == a && KeyOf(b)[..|b|] == b;
  }

  lemma {:induction false} ListedNext(lines: seq<Line>, line: Line, now: int, domain: Text)
    ensures Listed(lines + [line], now, domain)
         == (if line.domain == domain then [EntryOf(line, now)] else []) + Listed(lines, now, domain)
  {
    assert (lines + [line])[..|lines|] == lines;
  }

  /** The lists stand for the lines: each listed domain has its entries, the others have no list. */
  ghost predicate Files(contents: map<seq<byte>, seq<Entry>>, lines: seq<Line>, loaded: int) {
    forall d :: EntriesIn(contents, d) == Listed(lines, loaded, d)
  }

  ghost function EntriesIn(contents: map<seq<byte>, seq<Entry>>, d: Text): seq<Entry> {
    if KeyOf(d) in contents then contents[KeyOf(d)] else []
  }

  lemma {:induction false} FilesNext(contents: map<seq<byte>, seq<Entry>>, lines: seq<Line>, line: Line, loaded: int)
    requires Files(contents, lines, loaded)
    ensures var e := EntryOf(line, loaded);
            Files(contents[KeyOf(line.domain) := [e] + EntriesIn(contents, line.domain)], lines + [line], loaded)
  {
    var after := contents[KeyOf(line.domain) := [EntryOf(line, loaded)] + EntriesIn(contents, line.domain)];
    forall d
      ensures EntriesIn(after, d) == Listed(lines + [line], loaded, d)
    {
      assert EntriesIn(contents, d) == Listed(lines, loaded, d);
      KeysDiffer(d, line.domain);
      ListedNext(lines, line, loaded, d);
      assert [] + Listed(lines, loaded, d) == Listed(lines, loaded, d);
    }
  }

  /** Every key has a list of its own, which holds what it should. */
  ghost predicate LinkedMaps(dict: map<seq<byte>, HostList>, contents: map<seq<byte>, seq<Entry>>, lists: set<HostList>)
    reads lists
  {
    && dict.Keys == contents.Keys
    && (forall k :: k in dict ==> dict[k] in lists && dict[k].entries == contents[k])
    && (forall k, l :: k in dict && l in dict && k != l ==> dict[k] != dict[l])
  }

  lemma {:induction false} LinkedGrows(dict: map<seq<byte>, HostList>, contents: map<seq<byte>, seq<Entry>>,
                                       lists: set<HostList>,
                                       key: seq<byte>, head: HostList)
    requires LinkedMaps(dict, contents, lists) && key !in dict && head !in lists
    ensures LinkedMaps(dict[key := head], contents[key := head.entries], lists + {head})
  {
  }

  class Hosts {
    const table: StringHash<HostList>
    const loaded: int
    ghost var lines: seq<Line>
    ghost var lists: set<HostList>
    /** What the lists hold, by key. */
    ghost var contents: map<seq<byte>, seq<Entry>>

    ghost predicate Linked()
      reads `lists, `contents, table`dict, lists
    {
      LinkedMaps(table.dict, contents, lists)
    }

    /** The table holds, for each domain of the lines, that domain's entries. */
    ghost predicate Valid()
      reads this, table, table.bks, table.nodes, lists
    {
      table.Valid() && Linked() && Files(contents, lines, loaded)
    }

    constructor (now: int)
      ensures Valid() && lines == [] && loaded == now && fresh(table) && table.nodes == {} && lists == {}
      ensures forall i :: 0 <= i < |table.bks| ==> fresh(table.bks[i])
    {
      table := new StringHash<HostList>();
      lines, loaded, lists, contents := [], now, {}, map[];
    }

    /** A further entry for a key that has a list. */
    method Prepend(key: seq<byte>, head: HostList, e: Entry)
      requires Linked() && key in table.dict && head == table.dict[key]
      modifies `contents, head
      ensures Linked() && contents == old(contents)[key := [e] + old(contents)[key]]
    {
      head.AddHead(e);
      contents := contents[key := [e] + contents[key]];
    }

    /** The first entry of a domain: a new list in the table. */
    method AddList(domain: Text, e: Entry)
      requires table.Valid() && Linked() && KeyOf(domain) !in table.dict
      modifies `lists, `contents, table, table.bks, table.nodes
      ensures table.Valid() && Linked() && contents == old(contents)[KeyOf(domain) := [e]]
      ensures fresh(table.nodes - old(table.nodes)) && fresh(lists - old(lists))
    {
      var head := new HostList();
      head.AddHead(e);
      InsertList(domain, head, [e]);
    }

    method InsertList(domain: Text, head: HostList, ghost entries: seq<Entry>)
      requires table.Valid() && Linked() && KeyOf(domain) !in table.dict && head !in lists && head.entries == entries
      modifies `lists, `contents, table, table.bks, table.nodes
      ensures table.Valid() && Linked() && contents == old(contents)[KeyOf(domain) := entries]
      ensures fresh(table.nodes - old(table.nodes)) && lists == old(lists) + {head}
    {
      ghost var key := KeyOf(domain);
      LinkedGrows(table.dict, contents, lists, key, head);
      var _ := table.Insert(domain, head);
      lists, contents := lists + {head}, contents[key := entries];
      assert table.Valid();
    }

    /** One line of the host file. */
    method AddLine(line: Line)
      requires Valid()
      modifies this, table, table.bks, table.nodes, lists
      ensures Valid() && lines == old(lines) + [line]
      ensures fresh(table.nodes - old(table.nodes)) && fresh(lists - old(lists))
    {
      FilesNext(contents, lines, line, loaded);
      lines := lines + [line];
      File(line.domain, EntryOf(line, loaded));
    }

    method File(domain: Text, e: Entry)
      requires table.Valid() && Linked()
      modifies `lists, `contents, table, table.bks, table.nodes, lists
      ensures table.Valid() && Linked()
      ensures contents == old(contents)[KeyOf(domain) := [e] + EntriesIn(old(contents), domain)]
      ensures fresh(table.nodes - old(table.nodes)) && fresh(lists - old(lists))
    {
      var head := table.Query(domain);
      if head.Some? {
        Prepend(KeyOf(domain), head.value, e);
      } else {
        assert [e] + [] == [e];
        AddList(domain, e);
      }
    }

    /** Loads the lines of the host file. */
    method Load(input: seq<Line>)
      requires Valid() && lines == []
      modifies this, table, table.bks, table.nodes, lists
      ensures Valid() && lines == input
      ensures fresh(table.nodes - old(table.nodes)) && fresh(lists - old(lists))
    {
      for i := 0 to |input|
        invariant Valid() && lines == input[..i]
        invariant fresh(table.nodes - old(table.nodes)) && fresh(lists - old(lists))
      {
        AddLine(input[i]);
      }
      assert input[..|input|] == input;
    }

    /** Answers a query from the table. */
    method Query(name: Text, rtype: byte, now: int) returns (num: int, result: seq<Entry>)
      requires Valid()
      ensures (num, result) == Answer(Listed(lines, loaded, name), rtype, now)
      ensures num == -1 || (num == |result| && exists idx ::
                Places(lines, name, rtype, idx) && ServesLines(result, lines, name, rtype, idx, now))
    {
      var res := table.Query(name);
      assert EntriesIn(contents, name) == Listed(lines, loaded, name);
      if res.None? {
        num, result := 0, [];
      } else {
        num, result := Collect(res.value.entries, rtype, now);
      }
      if num != -1 {
        ghost var idx := EveryLineIsServed(lines, loaded, name, rtype, now);
      }
    }
  }
}
