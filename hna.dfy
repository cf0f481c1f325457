/** The route records and the table `read_hna_to_tree` builds from them. */
module Hna {
  import opened Decimal
  import opened Text
  import opened Ip

  newtype u32 = x: int | 0 <= x < 0x1_0000_0000

  /** One entry of the daemon's `hna` list, after deserialization
      (`HNAjson`). */
  datatype HnaRecord = HnaRecord(gateway: Ipv4, destination: Ipv4, genmask: byte, validityTime: u32)

  /** A network as address and prefix length (`CidrAddr`). */
  datatype CidrAddr = CidrAddr(netaddr: Ipv4, netmask: byte)

  /** A merged route record (`HNAData`); ttl is in milliseconds. */
  datatype HnaData = HnaData(gateway: Ipv4, hna: CidrAddr, ttl: u32, hostName: string)

  /** `Display for CidrAddr`: the address, '/', the prefix length in decimal. */
  function CidrText(c: CidrAddr): (s: string)
    ensures 9 <= |s| <= 19
  {
    ShowLength(c.netmask as nat, 3);
    Format(c.netaddr) + "/" + Show(c.netmask as nat)
  }

  /** The printed network is one word: digits, dots and a slash. */
  lemma CidrTextIsWord(c: CidrAddr)
    ensures NoWhitespace(CidrText(c))
  {
    FormatChars(c.netaddr);
    ShowIsCanonical(c.netmask as nat);
    var s := CidrText(c);
    assert forall i | 0 <= i < |s| :: IsDigit(s[i]) || s[i] == '.' || s[i] == '/';
  }

  /** Distinct networks print differently: the address and the prefix
      length can be read back from the text. */
  lemma CidrTextInjective(x: CidrAddr, y: CidrAddr)
    requires CidrText(x) == CidrText(y)
    ensures x == y
  {
    forall c: CidrAddr
      ensures Split(CidrText(c), '/') == [Format(c.netaddr), Show(c.netmask as nat)]
    {
      var f, m := Format(c.netaddr), Show(c.netmask as nat);
      FormatChars(c.netaddr);
      ShowIsCanonical(c.netmask as nat);
      assert '/' !in f && '/' !in m;
      assert [f, m][1..] == [m];
      SplitOfJoin([f, m], '/');
    }
    FormatInjective(x.netaddr, y.netaddr);
    ShowInjective(x.netmask as nat, y.netmask as nat);
  }

  /** The record `read_hna_to_tree` stores for one list entry; the hostname
      starts empty. */
  function FromRecord(r: HnaRecord): HnaData {
    HnaData(r.gateway, CidrAddr(r.destination, r.genmask), r.validityTime, "")
  }

  /** The table after inserting the records in list order into m, keyed by
      destination only. */
  function InsertAll(m: map<Ipv4, HnaData>, rs: seq<HnaRecord>): map<Ipv4, HnaData>
    decreases |rs|
  {
    if rs == [] then m
    else
      var last := rs[|rs| - 1];
      InsertAll(m, rs[..|rs| - 1])[last.destination := FromRecord(last)]
  }

  function Destinations(rs: seq<HnaRecord>): set<Ipv4> {
    set i | 0 <= i < |rs| :: rs[i].destination
  }

  /** Every record is stored under its own network address. */
  predicate KeyedByNetwork(m: map<Ipv4, HnaData>) {
    forall k | k in m :: m[k].hna.netaddr == k
  }

  /** The key set grows by exactly the destinations of the list. */
  lemma {:induction false} InsertAllKeys(m: map<Ipv4, HnaData>, rs: seq<HnaRecord>)
    ensures InsertAll(m, rs).Keys == m.Keys + Destinations(rs)
    decreases |rs|
  {
    if rs != [] {
      var init := rs[..|rs| - 1];
      InsertAllKeys(m, init);
      assert Destinations(rs) == Destinations(init) + {rs[|rs| - 1].destination} by {
        forall k | k in Destinations(rs)
          ensures k in Destinations(init) + {rs[|rs| - 1].destination}
        {
          var i :| 0 <= i < |rs| && rs[i].destination == k;
          if i < |rs| - 1 {
            assert init[i] == rs[i];
          }
        }
        forall k | k in Destinations(init)
          ensures k in Destinations(rs)
        {
          var i :| 0 <= i < |init| && init[i].destination == k;
          assert rs[i] == init[i];
        }
      }
    }
  }

  /** A destination maps to the last record that names it, with that
      record's gateway, network, prefix length and validity and an empty
      hostname. */
  lemma {:induction false} InsertAllLastWins(m: map<Ipv4, HnaData>, rs: seq<HnaRecord>, i: nat)
    requires i < |rs|
    requires forall j | i < j < |rs| :: rs[j].destination != rs[i].destination
    ensures rs[i].destination in InsertAll(m, rs)
    ensures var d := InsertAll(m, rs)[rs[i].destination];
      && d.gateway == rs[i].gateway
      && d.hna.netaddr == rs[i].destination
      && d.hna.netmask == rs[i].genmask
      && d.ttl == rs[i].validityTime
      && d.hostName == ""
    decreases |rs|
  {
    if i < |rs| - 1 {
      var init := rs[..|rs| - 1];
      InsertAllLastWins(m, init, i);
    }
  }

  /** Addresses that no record names keep what they had. */
  lemma {:induction false} InsertAllKeepsOthers(m: map<Ipv4, HnaData>, rs: seq<HnaRecord>, k: Ipv4)
    requires k !in Destinations(rs)
    ensures k in InsertAll(m, rs) <==> k in m
    ensures k in m ==> InsertAll(m, rs)[k] == m[k]
    decreases |rs|
  {
    if rs != [] {
      var init := rs[..|rs| - 1];
      assert k !in Destinations(init);
      InsertAllKeepsOthers(m, init, k);
      assert rs[|rs| - 1].destination in Destinations(rs);
    }
  }

  /** Building the table keeps every record under its own network address. */
  lemma {:induction false} InsertAllKeyedByNetwork(m: map<Ipv4, HnaData>, rs: seq<HnaRecord>)
    requires KeyedByNetwork(m)
    ensures KeyedByNetwork(InsertAll(m, rs))
    decreases |rs|
  {
    if rs != [] {
      InsertAllKeyedByNetwork(m, rs[..|rs| - 1]);
    }
  }

  /** The ordered map that `read_hna_to_tree` fills. */
  class HnaTree {
    var entries: map<Ipv4, HnaData>

    constructor ()
      ensures entries == map[]
    {
      entries := map[];
    }

    /** Inserts one record per list entry under its destination; a later
        entry for the same destination replaces an earlier one. */
    method InsertRecords(records: seq<HnaRecord>)
      modifies this
      ensures entries == InsertAll(old(entries), records)
    {
      for i := 0 to |records|
        invariant entries == InsertAll(old(entries), records[..i])
      {
        var record := records[i];
        assert records[..i + 1][..i] == records[..i];
        entries := entries[record.destination := FromRecord(record)];
      }
      assert records[..|records|] == records;
    }
  }
}
