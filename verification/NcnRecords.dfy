/**
  The check of the host records that ncn-data makes before it writes anything. The comparison of
  addresses in allocate-ips compares a string with an object and never finds anything, so passing
  allocate-ips does not mean passing this check; here is exactly when it does.
 */
module NcnRecords {
  import opened NcnIps
  import IpamRuns
  import NcnRoundTrip
  import Text

  function ExpectedAliases(node: Node, e: Entry): seq<string> {
    [node.ncnAlias + "." + Text.Lower(e.net)] + (if e.net == "NMN" then [node.ncnAlias] else [])
  }

  /** A node on the NMN may have the record of the installation host. */
  function AlternateAliases(e: Entry): seq<string> {
    if e.net == "NMN" then ["pit", "pit.nmn"] else []
  }

  predicate EntryPasses(node: Node, e: Entry, r: HostRecord) {
    && (e.ip == r.ip ==> r.aliases == ExpectedAliases(node, e) || r.aliases == AlternateAliases(e))
    && (ExpectedAliases(node, e)[0] in r.aliases ==> e.ip == r.ip)
  }

  predicate BmcPasses(node: Node, bmcIp: nat, r: HostRecord) {
    && (bmcIp == r.ip ==> r.aliases == [node.BmcAlias()])
    && (node.BmcAlias() in r.aliases ==> bmcIp == r.ip)
  }

  predicate EntriesPass(node: Node, entries: seq<Entry>, r: HostRecord) {
    forall e :: e in entries && !e.vip ==> EntryPasses(node, e, r)
  }

  predicate RecordsPass(records: seq<HostRecord>, node: Node, entries: seq<Entry>, bmcIp: nat) {
    forall r :: r in records ==> BmcPasses(node, bmcIp, r) && EntriesPass(node, entries, r)
  }

  lemma OneEntryMore(node: Node, entries: seq<Entry>, i: nat, r: HostRecord)
    requires i < |entries|
    ensures EntriesPass(node, entries[..i + 1], r) <==>
              EntriesPass(node, entries[..i], r) && (entries[i].vip || EntryPasses(node, entries[i], r))
  {
    assert forall e :: e in entries[..i + 1] <==> e in entries[..i] || e == entries[i] by {
      assert entries[..i + 1] == entries[..i] + [entries[i]];
    }
  }

  lemma OneRecordMore(records: seq<HostRecord>, i: nat, node: Node, entries: seq<Entry>, bmcIp: nat)
    requires i < |records|
    ensures RecordsPass(records[..i + 1], node, entries, bmcIp) <==>
              && RecordsPass(records[..i], node, entries, bmcIp)
              && BmcPasses(node, bmcIp, records[i]) && EntriesPass(node, entries, records[i])
  {
    assert forall r :: r in records[..i + 1] <==> r in records[..i] || r == records[i] by {
      assert records[..i + 1] == records[..i] + [records[i]];
    }
  }

  method ValidateHostRecords(records: seq<HostRecord>, node: Node, entries: seq<Entry>, bmcIp: nat) returns (ok: bool)
    ensures ok == RecordsPass(records, node, entries, bmcIp)
  {
    var fail := false;
    for i := 0 to |records|
      invariant fail == !RecordsPass(records[..i], node, entries, bmcIp)
    {
      var r := records[i];
      ghost var before := fail;
      for j := 0 to |entries|
        invariant fail == (before || !EntriesPass(node, entries[..j], r))
      {
        OneEntryMore(node, entries, j, r);
        if !entries[j].vip && !EntryPasses(node, entries[j], r) {
          fail := true;
        }
      }
      assert entries[..|entries|] == entries;
      if !BmcPasses(node, bmcIp, r) {
        fail := true;
      }
      OneRecordMore(records, i, node, entries, bmcIp);
    }
    assert records[..|records|] == records;
    ok := !fail;
  }

  /** An older record holds none of the new addresses, but for the installation host's. */
  predicate Bystander(r: HostRecord, entries: seq<Entry>, bmcIp: nat) {
    r.ip != bmcIp && forall e :: e in entries && !e.vip && e.ip == r.ip ==> r.aliases == AlternateAliases(e)
  }

  /** No address is chosen twice, not even in different networks. */
  predicate AllApart(entries: seq<Entry>, bmcIp: nat) {
    && (forall e :: e in entries ==> e.ip != bmcIp)
    && forall e, f :: e in entries && f in entries && !e.vip && e != f ==> e.ip != f.ip
  }

  /** The node's record of one network is never taken for that of another, or for the BMC's. */
  lemma NewRecordsApart(node: Node, e: Entry, f: Entry)
    requires NcnRoundTrip.ValidAlias(node.ncnAlias) && !e.vip && Text.IsUpperName(e.net) && Text.IsUpperName(f.net)
    ensures var r := EntryRecord(node, f);
            && (r.aliases == ExpectedAliases(node, e) <==> !f.vip && f.net == e.net)
            && r.aliases != AlternateAliases(e)
            && (ExpectedAliases(node, e)[0] in r.aliases <==> !f.vip && f.net == e.net)
            && r.aliases != [node.BmcAlias()] && node.BmcAlias() !in r.aliases
  {
    var r := EntryRecord(node, f);
    NcnRoundTrip.AliasFacts(node);
    Text.UpperOfLower(e.net);
    Text.UpperOfLower(f.net);
    var expected := ExpectedAliases(node, e)[0];
    assert node.ncnAlias <= expected && node.ncnAlias <= node.BmcAlias();
    assert expected != node.ncnAlias && node.BmcAlias() != node.ncnAlias;
    if f.vip {
      assert forall a :: a in r.aliases ==> !(node.ncnAlias <= a);
      assert node.BmcAlias() in [node.BmcAlias()];
    } else {
      var name := node.ncnAlias + "." + Text.Lower(f.net);
      assert name[|node.ncnAlias|] == '.' && node.BmcAlias()[|node.ncnAlias|] == '-';
      assert name[|node.ncnAlias| + 1..] == Text.Lower(f.net) && expected[|node.ncnAlias| + 1..] == Text.Lower(e.net);
      assert |name| > 3;
      assert r.aliases[0] == name;
      assert |r.aliases| == 2 ==> name != "pit";
    }
  }

  /** ncn-data lets the host records pass if and only if no older record, and no second network, has one
      of the addresses that allocate-ips chose. */
  lemma NcnDataPassesIff(records: seq<HostRecord>, node: Node, entries: seq<Entry>, bmcIp: nat)
    requires NcnRoundTrip.ValidAlias(node.ncnAlias) && IpamRuns.NotInHostRecords(records, node.ncnAlias)
    requires IpamRuns.VipsLast(entries) && forall e :: e in entries ==> e.net in NETWORKS
    ensures RecordsPass(records + NewRecords(node, entries, bmcIp), node, entries, bmcIp)
       <==> (forall r :: r in records ==> Bystander(r, entries, bmcIp)) && AllApart(entries, bmcIp)
  {
    NcnRoundTrip.NetworksAreUpper();
    var added := NewRecords(node, entries, bmcIp);
    var all := records + added;
    assert forall r :: r in all <==> r in records || r in added;
    assert RecordsPass(all, node, entries, bmcIp) <==>
             RecordsPass(records, node, entries, bmcIp) && RecordsPass(added, node, entries, bmcIp);
    forall r | r in records
      ensures Bystander(r, entries, bmcIp) <==>
                BmcPasses(node, bmcIp, r) && forall e :: e in entries && !e.vip ==> EntryPasses(node, e, r)
    {
      OldRecord(node, r, entries, bmcIp);
    }
    NewRecordsPassIff(node, entries, bmcIp);
  }

  lemma OldRecord(node: Node, r: HostRecord, entries: seq<Entry>, bmcIp: nat)
    requires forall a :: a in r.aliases ==> !(node.ncnAlias <= a)
    ensures Bystander(r, entries, bmcIp) <==>
              BmcPasses(node, bmcIp, r) && forall e :: e in entries && !e.vip ==> EntryPasses(node, e, r)
  {
    assert node.ncnAlias <= node.BmcAlias();
    assert node.BmcAlias() in [node.BmcAlias()];
    forall e
      ensures ExpectedAliases(node, e)[0] !in r.aliases && r.aliases != ExpectedAliases(node, e)
    {
      assert node.ncnAlias <= ExpectedAliases(node, e)[0];
      assert ExpectedAliases(node, e)[0] in ExpectedAliases(node, e);
    }
  }

  lemma NewRecordsPassIff(node: Node, entries: seq<Entry>, bmcIp: nat)
    requires NcnRoundTrip.ValidAlias(node.ncnAlias) && IpamRuns.VipsLast(entries)
    requires forall e :: e in entries ==> Text.IsUpperName(e.net)
    ensures RecordsPass(NewRecords(node, entries, bmcIp), node, entries, bmcIp) <==> AllApart(entries, bmcIp)
  {
    var added := NewRecords(node, entries, bmcIp);
    var bmc := HostRecord([node.BmcAlias()], bmcIp);
    assert added[|entries|] == bmc;
    forall f | f in entries
      ensures EntryRecord(node, f) in added
      ensures BmcPasses(node, bmcIp, EntryRecord(node, f)) <==> f.ip != bmcIp
      ensures forall e :: e in entries && !e.vip ==>
                  (EntryPasses(node, e, EntryRecord(node, f)) <==> e == f || e.ip != f.ip)
    {
      var i :| 0 <= i < |entries| && entries[i] == f;
      assert added[i] == EntryRecord(node, f);
      forall e | e in entries && !e.vip
        ensures EntryPasses(node, e, EntryRecord(node, f)) <==> e == f || e.ip != f.ip
        ensures BmcPasses(node, bmcIp, EntryRecord(node, f)) <==> f.ip != bmcIp
      {
        NewRecordsApart(node, e, f);
        SameKeySameEntry(entries, e, f);
      }
      BmcApart(node, f, bmcIp);
    }
    forall e | e in entries && !e.vip
      ensures EntryPasses(node, e, bmc) <==> e.ip != bmcIp
    {
      BmcRecordApart(node, e);
    }
    forall r | r in added
      ensures r == bmc || exists f :: f in entries && r == EntryRecord(node, f)
    {
      var i :| 0 <= i < |added| && added[i] == r;
      if i < |entries| {
        assert entries[i] in entries;
      }
    }
  }

  lemma SameKeySameEntry(entries: seq<Entry>, e: Entry, f: Entry)
    requires IpamRuns.VipsLast(entries) && e in entries && f in entries
    ensures e.net == f.net && e.vip == f.vip ==> e == f
  {
    var i :| 0 <= i < |entries| && entries[i] == e;
    var j :| 0 <= j < |entries| && entries[j] == f;
  }

  lemma BmcApart(node: Node, f: Entry, bmcIp: nat)
    requires NcnRoundTrip.ValidAlias(node.ncnAlias) && Text.IsUpperName(f.net)
    ensures BmcPasses(node, bmcIp, EntryRecord(node, f)) <==> f.ip != bmcIp
  {
    NewRecordsApart(node, Entry("NMN", false, 0), f);
  }

  lemma BmcRecordApart(node: Node, e: Entry)
    requires !e.vip
    ensures forall bmcIp :: EntryPasses(node, e, HostRecord([node.BmcAlias()], bmcIp)) <==> e.ip != bmcIp
  {
    var expected := ExpectedAliases(node, e)[0];
    assert expected[|node.ncnAlias|] == '.' && node.BmcAlias()[|node.ncnAlias|] == '-';
    assert [node.BmcAlias()][0] != ExpectedAliases(node, e)[0];
  }

  /** An older record with the address that is chosen for the node: allocate-ips does not see it, ncn-data does. */
  lemma OlderRecordExample()
    ensures var node := Node("x3000c0s9b0n0", "ncn-w004", "x3000c0s9b0", false);
            var records, entries := [HostRecord(["uan01.hmn"], 12)], [Entry("HMN", false, 12)];
            && IpamRuns.NotInHostRecords(records, node.ncnAlias)
            && !RecordsPass(records + NewRecords(node, entries, 11), node, entries, 11)
  {
    var node := Node("x3000c0s9b0n0", "ncn-w004", "x3000c0s9b0", false);
    var older, e := HostRecord(["uan01.hmn"], 12), Entry("HMN", false, 12);
    assert node.ncnAlias[0] == 'n' && "uan01.hmn"[0] == 'u';
    var all := [older] + NewRecords(node, [e], 11);
    assert all[0] == older && older in all;
    assert e in [e];
    assert ExpectedAliases(node, e)[0][0] == 'n';
    assert !EntryPasses(node, e, older);
  }
}
