/** The printed report: two header lines, then one row per route record in
    ascending order of destination address. Each line stands for one
    `println!`, so the output text is each line followed by '\n'. */
module Report {
  import opened Decimal
  import opened Text
  import opened Ip
  import opened Hna

  const Header1: string := "Announced network      OLSR gateway      Validity Time      OLSR Hostname"
  const Header2: string := "=================      ============      =============      ============="

  /** The validity in whole seconds, `ttl / 1000` on unsigned integers. */
  function ValiditySeconds(ttl: u32): (s: nat)
    ensures s * 1000 <= ttl as nat < (s + 1) * 1000
  {
    ttl as nat / 1000
  }

  /** The arguments of one row's `"{:<22} {:<20} {:<15} {:<25}"`: the
      network, the gateway, the validity in seconds and the hostname. */
  function RowCells(d: HnaData): seq<Cell> {
    [ Cell(CidrText(d.hna), 22),
      Cell(Format(d.gateway), 20),
      Cell(Show(ValiditySeconds(d.ttl)), 15),
      Cell(d.hostName, 25) ]
  }

  /** One row of the report. */
  function Row(d: HnaData): string {
    Cells(RowCells(d))
  }

  /** The rows of the records under keys ks, in the order of ks. */
  function Rows(m: map<Ipv4, HnaData>, ks: seq<Ipv4>): (rows: seq<string>)
    requires forall i | 0 <= i < |ks| :: ks[i] in m
    ensures |rows| == |ks|
    decreases |ks|
  {
    if ks == [] then [] else Rows(m, ks[..|ks| - 1]) + [Row(m[ks[|ks| - 1]])]
  }

  /** Row i of Rows(m, ks) is the row of the record under ks[i]. */
  lemma {:induction false} RowsAt(m: map<Ipv4, HnaData>, ks: seq<Ipv4>, i: nat)
    requires forall j | 0 <= j < |ks| :: ks[j] in m
    requires i < |ks|
    ensures Rows(m, ks)[i] == Row(m[ks[i]])
    decreases |ks|
  {
    if i < |ks| - 1 {
      RowsAt(m, ks[..|ks| - 1], i);
    }
  }

  /** Printing the row of the next key extends the printed prefix of the
      walk over ks by one key. */
  lemma PrintNext(m: map<Ipv4, HnaData>, ks: seq<Ipv4>, i: nat)
    requires forall j | 0 <= j < |ks| :: ks[j] in m
    requires i < |ks|
    ensures [Header1, Header2] + Rows(m, ks[..i + 1]) ==
      [Header1, Header2] + Rows(m, ks[..i]) + [Row(m[ks[i]])]
  {
    assert ks[..i + 1][..i] == ks[..i];
  }

  /** The report for a route table. */
  function ReportLines(m: map<Ipv4, HnaData>): seq<string> {
    AscendingIn(m.Keys);
    [Header1, Header2] + Rows(m, Ascending(m.Keys))
  }

  /** The report has the two header lines and one row per key. */
  lemma ReportLength(m: map<Ipv4, HnaData>)
    ensures |ReportLines(m)| == 2 + |m|
    ensures ReportLines(m)[0] == Header1 && ReportLines(m)[1] == Header2
  {
    assert |m| == |m.Keys|;
    AscendingSpec(m.Keys);
  }

  /** The report is the walk over the keys in strictly ascending order,
      whichever way that enumeration is obtained. */
  lemma ReportIsAscendingWalk(m: map<Ipv4, HnaData>, ks: seq<Ipv4>)
    requires StrictlyAscending(ks)
    requires forall k :: k in ks <==> k in m
    ensures forall i | 0 <= i < |ks| :: ks[i] in m
    ensures ReportLines(m) == [Header1, Header2] + Rows(m, ks)
  {
    AscendingIsUnique(ks, m.Keys);
  }

  function Smaller(s: set<Ipv4>, k: Ipv4): set<Ipv4> {
    set x | x in s && Below(x, k)
  }

  lemma {:induction false} DistinctCount(ks: seq<Ipv4>)
    requires StrictlyAscending(ks)
    ensures |set x | x in ks| == |ks|
  {
    if ks != [] {
      var init := ks[..|ks| - 1];
      DistinctCount(init);
      var last := ks[|ks| - 1];
      assert (set x | x in ks) == (set x | x in init) + {last};
      assert last !in init;
    }
  }

  /** In a strictly ascending enumeration of s, the addresses of s below
      the j-th are exactly the first j. */
  lemma SmallerArePrefix(ks: seq<Ipv4>, s: set<Ipv4>, j: nat)
    requires StrictlyAscending(ks) && j < |ks|
    requires forall k :: k in ks <==> k in s
    ensures Smaller(s, ks[j]) == set x | x in ks[..j]
  {
    var k := ks[j];
    forall x | x in s && Below(x, k)
      ensures x in ks[..j]
    {
      var l :| 0 <= l < |ks| && ks[l] == x;
      if l >= j {
        BelowIsStrictTotalOrder(k, x, k);
      }
    }
  }

  /** In a strictly ascending enumeration of s, the j-th address has
      exactly j smaller addresses in s. */
  lemma RankInAscending(ks: seq<Ipv4>, s: set<Ipv4>, j: nat)
    requires StrictlyAscending(ks) && j < |ks|
    requires forall k :: k in ks <==> k in s
    ensures |Smaller(s, ks[j])| == j
  {
    SmallerArePrefix(ks, s, j);
    var prefix := ks[..j];
    assert StrictlyAscending(prefix) by {
      forall a, b | 0 <= a < b < |prefix|
        ensures Below(prefix[a], prefix[b])
      {
        assert prefix[a] == ks[a] && prefix[b] == ks[b];
      }
    }
    DistinctCount(prefix);
  }

  /** Row j of the report is the row of the j-th key in ascending order. */
  lemma ReportRowAt(m: map<Ipv4, HnaData>, j: nat)
    requires j < |m|
    ensures |Ascending(m.Keys)| == |m|
    ensures Ascending(m.Keys)[j] in m
    ensures ReportLines(m)[2 + j] == Row(m[Ascending(m.Keys)[j]])
  {
    var ks := Ascending(m.Keys);
    assert |m| == |m.Keys|;
    AscendingSpec(m.Keys);
    assert ReportLines(m) == [Header1, Header2] + Rows(m, ks);
    RowsAt(m, ks, j);
  }

  /** Row j of the report belongs to the record whose address has exactly j
      smaller addresses in the table. */
  lemma ReportRowRank(m: map<Ipv4, HnaData>, j: nat)
    requires j < |m|
    ensures |Ascending(m.Keys)| == |m|
    ensures var k := Ascending(m.Keys)[j];
      && k in m
      && ReportLines(m)[2 + j] == Row(m[k])
      && |Smaller(m.Keys, k)| == j
  {
    ReportRowAt(m, j);
    AscendingSpec(m.Keys);
    RankInAscending(Ascending(m.Keys), m.Keys, j);
  }

  /** The record under k is printed on the row whose rank is the number of
      smaller addresses in the table. */
  lemma ReportRowOf(m: map<Ipv4, HnaData>, k: Ipv4)
    requires k in m
    ensures 2 + |Smaller(m.Keys, k)| < |ReportLines(m)|
    ensures ReportLines(m)[2 + |Smaller(m.Keys, k)|] == Row(m[k])
  {
    var ks := Ascending(m.Keys);
    AscendingSpec(m.Keys);
    assert |m| == |m.Keys|;
    var j :| 0 <= j < |ks| && ks[j] == k;
    ReportRowRank(m, j);
  }

  lemma NumeralHasNoWhitespace(s: string)
    requires AllDigits(s)
    ensures NoWhitespace(s)
  {
  }

  /** Four padded columns split back into their texts, the last one only
      when it is not empty. */
  lemma TokensOfFourColumns(cs: seq<Cell>)
    requires |cs| == 4
    requires forall i | 0 <= i < 3 :: cs[i].text != []
    requires forall i | 0 <= i < 4 :: NoWhitespace(cs[i].text)
    ensures Tokens(Cells(cs)) ==
      [cs[0].text, cs[1].text, cs[2].text] + (if cs[3].text == [] then [] else [cs[3].text])
  {
    TokensOfCells(cs);
    assert cs[1..][1..][1..] == [cs[3]];
    assert NonEmptyTexts(cs[1..][1..]) == [cs[2].text] + NonEmptyTexts([cs[3]]);
    assert NonEmptyTexts([cs[3]][1..]) == [];
  }

  /** Splitting a row at whitespace gives back its columns: the network, the
      gateway, the seconds, and the hostname unless it is empty. */
  lemma RowColumns(d: HnaData)
    requires NoWhitespace(d.hostName)
    ensures Tokens(Row(d)) ==
      [CidrText(d.hna), Format(d.gateway), Show(ValiditySeconds(d.ttl))]
      + (if d.hostName == [] then [] else [d.hostName])
  {
    var cs := RowCells(d);
    ShowIsCanonical(ValiditySeconds(d.ttl));
    NumeralHasNoWhitespace(cs[2].text);
    CidrTextIsWord(d.hna);
    FormatChars(d.gateway);
    TokensOfFourColumns(cs);
  }

  /** The columns start at fixed offsets 0, 23, 44 and 60, each padded to
      its width and followed by one space. */
  lemma RowLayout(d: HnaData)
    ensures |Row(d)| >= 85
    ensures Row(d)[..22] == PadRight(CidrText(d.hna), 22) && Row(d)[22] == ' '
    ensures Row(d)[23..43] == PadRight(Format(d.gateway), 20) && Row(d)[43] == ' '
    ensures Row(d)[44..59] == PadRight(Show(ValiditySeconds(d.ttl)), 15) && Row(d)[59] == ' '
    ensures Row(d)[60..] == PadRight(d.hostName, 25)
  {
    ShowLength(ValiditySeconds(d.ttl), 7);
    var cs := RowCells(d);
    var p1, p2, p3, p4 := PadRight(cs[0].text, 22), PadRight(cs[1].text, 20),
      PadRight(cs[2].text, 15), PadRight(cs[3].text, 25);
    assert |p1| == 22 && |p2| == 20 && |p3| == 15;
    assert cs[1..][1..][1..] == [cs[3]];
    var r3 := p3 + " " + p4;
    assert Cells(cs[1..][1..]) == r3;
    var r2 := p2 + " " + r3;
    assert Cells(cs[1..]) == r2;
    assert Row(d) == p1 + " " + r2;
  }

  /** The print loop: the header, then one row per record in key order. */
  method PrintReport(tree: HnaTree) returns (lines: seq<string>)
    ensures lines == ReportLines(tree.entries)
  {
    var table := tree.entries;
    var keys := Ascending(table.Keys);
    AscendingIn(table.Keys);
    lines := [Header1, Header2];
    for i := 0 to |keys|
      invariant lines == [Header1, Header2] + Rows(table, keys[..i])
    {
      PrintNext(table, keys, i);
      lines := lines + [Row(table[keys[i]])];
    }
    assert keys[..|keys|] == keys;
  }
}
