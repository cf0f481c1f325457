/** The loop in `main` that copies each gateway's hostname into the route
    records. */
module Merge {
  import opened Ip
  import opened Hna
  import opened Hosts

  /** A record after the merge: the gateway's name when the hostname table
      has one; otherwise the record unchanged. */
  function WithHostName(d: HnaData, names: map<Ipv4, string>): HnaData {
    if d.gateway in names then d.(hostName := names[d.gateway]) else d
  }

  /** The route table after the merge. */
  function Merged(m: map<Ipv4, HnaData>, names: map<Ipv4, string>): map<Ipv4, HnaData> {
    map k | k in m :: WithHostName(m[k], names)
  }

  /** The merge keeps the key set and the gateway, network and validity of
      every record, and sets the hostname exactly where the gateway is known. */
  lemma MergedFields(m: map<Ipv4, HnaData>, names: map<Ipv4, string>, k: Ipv4)
    ensures Merged(m, names).Keys == m.Keys
    ensures k in m ==>
      var d, e := m[k], Merged(m, names)[k];
      && e.gateway == d.gateway && e.hna == d.hna && e.ttl == d.ttl
      && e.hostName == if d.gateway in names then names[d.gateway] else d.hostName
  {
  }

  /** The merge keeps every record under its own network address. */
  lemma MergeKeepsKeyedByNetwork(m: map<Ipv4, HnaData>, names: map<Ipv4, string>)
    requires KeyedByNetwork(m)
    ensures KeyedByNetwork(Merged(m, names))
  {
  }

  /** The route table with the records under the addresses in done merged
      and the others as they were. */
  ghost function MergedOn(m: map<Ipv4, HnaData>, names: map<Ipv4, string>, done: set<Ipv4>): map<Ipv4, HnaData> {
    map k | k in m :: if k in done then WithHostName(m[k], names) else m[k]
  }

  /** Merging one more record, even one merged before, extends the merged part. */
  lemma MergeOneMore(m: map<Ipv4, HnaData>, names: map<Ipv4, string>, done: set<Ipv4>, key: Ipv4)
    requires key in m
    ensures key in MergedOn(m, names, done)
    ensures MergedOn(m, names, done)[key := WithHostName(MergedOn(m, names, done)[key], names)]
      == MergedOn(m, names, done + {key})
  {
  }

  lemma MergedOnAll(m: map<Ipv4, HnaData>, names: map<Ipv4, string>, done: set<Ipv4>)
    requires m.Keys <= done
    ensures MergedOn(m, names, done) == Merged(m, names)
  {
  }

  /** Walks the route table in key order and overwrites `host_name` of each
      record whose gateway is in the hostname table; the hostname table is
      only read. */
  method MergeHostNames(tree: HnaTree, names: NameTree)
    modifies tree
    ensures tree.entries == Merged(old(tree.entries), names.entries)
  {
    ghost var before := tree.entries;
    ghost var done: set<Ipv4> := {};
    var table := names.entries;
    var keys := Ascending(tree.entries.Keys);
    AscendingMembers(before.Keys);
    for i := 0 to |keys|
      invariant forall j | 0 <= j < i :: keys[j] in done
      invariant tree.entries == MergedOn(before, table, done)
    {
      var key := keys[i];
      MergeOneMore(before, table, done, key);
      var item := tree.entries[key];
      if item.gateway in table {
        tree.entries := tree.entries[key := item.(hostName := table[item.gateway])];
      }
      assert tree.entries == MergedOn(before, table, done)[key := WithHostName(item, table)];
      done := done + {key};
    }
    assert before.Keys <= done by {
      forall k | k in before
        ensures k in done
      {
        var j :| 0 <= j < |keys| && keys[j] == k;
      }
    }
    MergedOnAll(before, table, done);
  }
}
