/** The whole run of `main`: load the route list into one ordered table and
    the hosts file into another, copy the gateways' names into the routes,
    and print the report. The route list arrives already decoded and the
    hosts file as its text. */
module Program {
  import opened Wrappers
  import opened Decimal
  import opened Text
  import opened Ip
  import opened Hna
  import opened Hosts
  import opened Merge
  import opened Report

  /** The route table after loading the records and merging the names. */
  function Joined(records: seq<HnaRecord>, names: map<Ipv4, string>): map<Ipv4, HnaData> {
    Merged(InsertAll(map[], records), names)
  }

  /** The lines `main` prints, or the address token on which it stops
      because the hosts file names an address that does not parse. */
  method Run(records: seq<HnaRecord>, hostsText: string) returns (result: Result<seq<string>, string>)
    ensures LoadLines(map[], Lines(hostsText)).Err? ==>
      result == Err(LoadLines(map[], Lines(hostsText)).error)
    ensures LoadLines(map[], Lines(hostsText)).Ok? ==>
      result == Ok(ReportLines(Joined(records, LoadLines(map[], Lines(hostsText)).value)))
  {
    var hnaTree := new HnaTree();
    var nameTree := new NameTree();
    hnaTree.InsertRecords(records);
    var loaded := nameTree.LoadHosts(hostsText);
    if loaded.Err? {
      return Err(loaded.error);
    }
    MergeHostNames(hnaTree, nameTree);
    var lines := PrintReport(hnaTree);
    return Ok(lines);
  }

  /** Every destination of the list is one key of the joined table. */
  lemma JoinedKeys(records: seq<HnaRecord>, names: map<Ipv4, string>)
    ensures Joined(records, names).Keys == Destinations(records)
  {
    InsertAllKeys(map[], records);
  }

  /** The report has the two header lines and one row per distinct
      destination in the list. */
  lemma ReportRowCount(records: seq<HnaRecord>, names: map<Ipv4, string>)
    ensures |ReportLines(Joined(records, names))| == 2 + |Destinations(records)|
  {
    JoinedKeys(records, names);
    var m := Joined(records, names);
    assert |m| == |m.Keys|;
    ReportLength(m);
  }

  /** The record kept for a destination comes from the last list entry that
      names it, with the gateway's hostname when the hosts file has one and
      an empty hostname otherwise. */
  lemma JoinedRecord(records: seq<HnaRecord>, names: map<Ipv4, string>, i: nat)
    requires i < |records|
    requires forall j | i < j < |records| :: records[j].destination != records[i].destination
    ensures records[i].destination in Joined(records, names)
    ensures var r := records[i];
      Joined(records, names)[r.destination] ==
        HnaData(r.gateway, CidrAddr(r.destination, r.genmask), r.validityTime,
                if r.gateway in names then names[r.gateway] else "")
  {
    InsertAllLastWins(map[], records, i);
    MergedFields(InsertAll(map[], records), names, records[i].destination);
  }

  /** The last entry of the list for a destination is printed as the row
      whose rank is the number of smaller destinations, and splitting that
      row at whitespace gives the network, the gateway, the whole seconds of
      validity and the hostname when there is one. */
  lemma ReportShowsRecord(records: seq<HnaRecord>, names: map<Ipv4, string>, i: nat)
    requires i < |records|
    requires forall j | i < j < |records| :: records[j].destination != records[i].destination
    requires forall k | k in names :: NoWhitespace(names[k])
    ensures var r := records[i];
      var rank := |Smaller(Destinations(records), r.destination)|;
      var name := if r.gateway in names then names[r.gateway] else "";
      && 2 + rank < |ReportLines(Joined(records, names))|
      && Tokens(ReportLines(Joined(records, names))[2 + rank]) ==
        [CidrText(CidrAddr(r.destination, r.genmask)), Format(r.gateway), Show(r.validityTime as nat / 1000)]
        + (if name == [] then [] else [name])
  {
    var r := records[i];
    var m := Joined(records, names);
    JoinedRecord(records, names, i);
    JoinedKeys(records, names);
    ReportRowOf(m, r.destination);
    RowColumns(m[r.destination]);
  }

  /** The text form of the gateway in the example below. */
  lemma GatewayText()
    ensures Format(Ipv4(10, 0, 0, 1)) == "10.0.0.1"
  {
    assert Show(10) == "10" by {
      assert Show(1) == "1";
    }
  }

  /** The text form of the network in the example below. */
  lemma NetworkText()
    ensures CidrText(CidrAddr(Ipv4(192, 168, 1, 0), 24)) == "192.168.1.0/24"
  {
    assert Format(Ipv4(192, 168, 1, 0)) == "192.168.1.0" by {
      assert Show(192) == "192" && Show(168) == "168" by {
        assert Show(19) == "19" && Show(16) == "16";
      }
    }
    assert Show(24) == "24";
  }

  /** The validity of the example below in whole seconds. */
  lemma SecondsText()
    ensures Show(3000 / 1000) == "3"
  {
  }

  /** The hostname of the example below is one word. */
  lemma NodeAlphaIsWord()
    ensures "node-alpha" != [] && NoWhitespace("node-alpha")
  {
    GraphicIsWord("node-alpha");
  }

  /** A hosts line holding an address, one space and a name binds the
      address to the name. */
  lemma AddressNameLine(gw: Ipv4, name: string)
    requires name != [] && NoWhitespace(name)
    ensures ReadLine(Format(gw) + " " + name) == Bind(gw, name)
  {
    EntryLineBinds([], gw, " ", name, []);
    assert [] + Format(gw) + " " + name + [] == Format(gw) + " " + name;
  }

  /** The hosts file of the example below has the one line. */
  lemma ExampleHostsLines(text: string)
    requires text == "10.0.0.1 node-alpha\n"
    ensures Lines(text) == [Format(Ipv4(10, 0, 0, 1)) + " " + "node-alpha"]
  {
    var line := Format(Ipv4(10, 0, 0, 1)) + " " + "node-alpha";
    GatewayText();
    assert text == Unlines([line]);
    LinesOfUnlines([line]);
  }

  /** A hosts file with the single line "10.0.0.1 node-alpha" names
      10.0.0.1 "node-alpha". */
  lemma ExampleHosts(text: string)
    requires text == "10.0.0.1 node-alpha\n"
    ensures LoadLines(map[], Lines(text)) == Ok(map[Ipv4(10, 0, 0, 1) := "node-alpha"])
  {
    var gw := Ipv4(10, 0, 0, 1);
    var line := Format(gw) + " " + "node-alpha";
    NodeAlphaIsWord();
    AddressNameLine(gw, "node-alpha");
    ExampleHostsLines(text);
    var rs := ReadLines([line]);
    assert rs == [Bind(gw, "node-alpha")];
    assert Apply(map[], rs) == Step(Apply(map[], rs[..0]), rs[0]);
    assert rs[..0] == [];
    assert map[][gw := "node-alpha"] == map[gw := "node-alpha"];
  }

  /** A hosts line holding an IPv6 address, one space and a name is an IPv6
      entry for the name. */
  lemma Ipv6NameLine(word: string, name: string)
    requires IsIpv6Text(word) && NoWhitespace(word)
    requires name != [] && NoWhitespace(name)
    ensures ReadLine(word + " " + name) == Ipv6Entry(word, name)
  {
    Ipv6LineKept([], word, " ", name, []);
    assert [] + word + " " + name + [] == word + " " + name;
  }

  /** A file holding one line ending in a newline has that one line. */
  lemma OneLineFile(line: string)
    requires '\n' !in line && (line == [] || line[|line| - 1] != '\r')
    ensures Lines(line + "\n") == [line]
  {
    assert line + "\n" == Unlines([line]);
    LinesOfUnlines([line]);
  }

  /** Two words joined by a space hold no line break and do not end in '\r'. */
  lemma SpacedPairIsOneLine(word: string, name: string)
    requires NoWhitespace(word)
    requires name != [] && NoWhitespace(name)
    ensures var line := word + " " + name;
      '\n' !in line && line[|line| - 1] != '\r'
  {
    var line := word + " " + name;
    assert line[|line| - 1] == name[|name| - 1];
    forall i | 0 <= i < |line|
      ensures line[i] != '\n'
    {
      if i < |word| {
        assert line[i] == word[i];
      } else if i > |word| {
        assert line[i] == name[i - |word| - 1];
      }
    }
  }

  /** Loading a single line into the empty table is one step. */
  lemma LoadOneLine(line: string)
    ensures LoadLines(map[], [line]) == Step(Ok(map[]), ReadLine(line))
  {
    var rs := ReadLines([line]);
    assert rs == [ReadLine(line)];
    assert Apply(map[], rs) == Step(Apply(map[], rs[..0]), rs[0]);
    assert rs[..0] == [];
  }

  /** A hosts file whose one line is an IPv6 address and a name loads
      without error and names no IPv4 address. */
  lemma Ipv6OnlyHosts(word: string, name: string)
    requires IsIpv6Text(word) && NoWhitespace(word)
    requires name != [] && NoWhitespace(name)
    ensures LoadLines(map[], Lines(word + " " + name + "\n")) == Ok(map[])
  {
    var line := word + " " + name;
    Ipv6NameLine(word, name);
    SpacedPairIsOneLine(word, name);
    OneLineFile(line);
    LoadOneLine(line);
  }

  /** The hosts file "::1 localhost" loads without error and names no IPv4
      address, so the report is printed. */
  lemma LoopbackHosts(word: string, name: string)
    requires word == "::1" && name == "localhost"
    ensures LoadLines(map[], Lines(word + " " + name + "\n")) == Ok(map[])
  {
    LoopbackIsIpv6(word);
    GraphicIsWord(word);
    GraphicIsWord(name);
    Ipv6OnlyHosts(word, name);
  }

  /** The row of the example below, in terms of the text forms. */
  lemma ExampleRow(gw: Ipv4, net: Ipv4, name: string)
    requires name != [] && NoWhitespace(name)
    ensures var joined := Joined([HnaRecord(gw, net, 24, 3000)], map[gw := name]);
      && |ReportLines(joined)| == 3
      && Tokens(ReportLines(joined)[2]) ==
        [CidrText(CidrAddr(net, 24)), Format(gw), Show(3000 / 1000), name]
  {
    var record := HnaRecord(gw, net, 24, 3000);
    var dests := Destinations([record]);
    assert dests == {net} by {
      assert [record][0].destination == net;
    }
    assert Smaller(dests, net) == {};
    ReportShowsRecord([record], map[gw := name], 0);
    ReportRowCount([record], map[gw := name]);
  }

  /** The route 192.168.1.0/24 through 10.0.0.1, valid for 3000 ms, with the
      hosts line "10.0.0.1 node-alpha", prints the row whose columns are
      "192.168.1.0/24", "10.0.0.1", "3" and "node-alpha". */
  lemma NodeAlphaExample(record: HnaRecord, hosts: string)
    requires record == HnaRecord(Ipv4(10, 0, 0, 1), Ipv4(192, 168, 1, 0), 24, 3000)
    requires hosts == "10.0.0.1 node-alpha\n"
    ensures LoadLines(map[], Lines(hosts)) == Ok(map[record.gateway := "node-alpha"])
    ensures var report := ReportLines(Joined([record], LoadLines(map[], Lines(hosts)).value));
      && |report| == 3
      && Tokens(report[2]) == ["192.168.1.0/24", "10.0.0.1", "3", "node-alpha"]
  {
    NodeAlphaIsWord();
    ExampleRow(record.gateway, record.destination, "node-alpha");
    SecondsText();
    ExampleHosts(hosts);
    GatewayText();
    NetworkText();
  }
}
