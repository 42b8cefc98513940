/**
  The same round trip for the nodes that keep their addresses: allocate-ips itself reads them back
  from the host records, writes their reservations to SLS and leaves the host records alone.
 */
module NcnKeptRoundTrip {
  import opened Outcomes
  import opened Ipam
  import opened NcnIps
  import opened NcnEffects
  import opened NcnRoundTrip
  import IpamRuns

  /** No virtual IPs, and no network twice. */
  ghost predicate PlainEntries(entries: seq<Entry>) {
    DistinctNets(entries) && forall e :: e in entries ==> !e.vip
  }

  /** SLS after the entries have been written: what reading back looks for is there. */
  ghost predicate Rewritten(networks: Networks, node: Node, entries: seq<Entry>, bmcIp: nat) {
    && (forall e :: e in entries ==> HoldsEntry(networks, node, e))
    && "HMN" in networks && networks["HMN"].bootstrap.Some?
    && var reservations := networks["HMN"].bootstrap.value.reservations;
       if HasNet(entries, "HMN") then
         node.bmcXname in reservations && reservations[node.bmcXname] == BmcReservation(node, bmcIp)
       else
         bmcIp in Ips(reservations)
  }

  /** What reading back leaves of the local copy. */
  function Local(networks: Networks, node: Node, entries: seq<Entry>, bmcIp: nat): Networks
    requires "HMN" in networks && networks["HMN"].bootstrap.Some?
  {
    var dropped := WithoutEntries(networks, node, entries);
    var s := dropped["HMN"].bootstrap.value;
    PutBootstrap(dropped, "HMN", s.(reservations := DropIp(s.reservations, bmcIp)))
  }

  lemma RetrieveFinds(networks: Networks, records: seq<HostRecord>, node: Node, entries: seq<Entry>, bmcIp: nat)
    requires ScanRecords(Found(None, []), node, records) == Success(Found(Some(bmcIp), entries))
    requires GoodNames(node) && PlainEntries(entries) && Rewritten(networks, node, entries, bmcIp)
    ensures Retrieve(networks, records, node) == Success(Choice(bmcIp, entries, Local(networks, node, entries, bmcIp)))
  {
    DropEntriesIs(networks, node, entries);
    var dropped := WithoutEntries(networks, node, entries);
    var s := dropped["HMN"].bootstrap.value;
    assert bmcIp in Ips(s.reservations) by {
      if HasNet(entries, "HMN") {
        assert s.reservations[node.bmcXname].ip == bmcIp;
      }
    }
  }

  lemma LocalRestores(networks: Networks, node: Node, entries: seq<Entry>, bmcIp: nat, e: Entry)
    requires GoodNames(node) && PlainEntries(entries) && Rewritten(networks, node, entries, bmcIp) && e in entries
    ensures Restores(Local(networks, node, entries, bmcIp), networks, node, e, bmcIp)
  {
    assert HoldsEntry(networks, node, e);
    assert HasNet(entries, e.net);
    var s := networks[e.net].bootstrap.value;
    var dropped := WithoutEntries(networks, node, entries)[e.net].bootstrap.value;
    assert dropped == Without(s, node.ncnAlias);
    if e.net == "HMN" {
      assert DistinctIps(dropped.reservations) && dropped.reservations[node.bmcXname].ip == bmcIp;
      DropIpIsWithout(dropped.reservations, node.bmcXname);
    }
    EntryRestores(s, node, e, bmcIp);
    SameBootstrap(networks[e.net], s);
  }

  lemma RetrievedFacts(networks: Networks, records: seq<HostRecord>, node: Node)
    requires Retrieve(networks, records, node).Success?
    ensures var c := Retrieve(networks, records, node).value;
            && ScanRecords(Found(None, []), node, records) == Success(Found(Some(c.bmcIp), c.entries))
            && PlainEntries(c.entries)
            && c.local.Keys == networks.Keys
            && "HMN" in networks && networks["HMN"].bootstrap.Some?
            && c.bmcIp in Ips(networks["HMN"].bootstrap.value.reservations)
  {
    var c := Retrieve(networks, records, node).value;
    ScanRecordsIsPlain(Found(None, []), node, records);
    ScanRecordsKeepsDistinct(Found(None, []), node, records);
    IpamRuns.DropEntriesThins(networks, c.entries);
    var dropped := DropEntries(networks, c.entries).value;
    IpamRuns.DropEntryThins(dropped, "HMN", c.bmcIp);
    var s, t := networks["HMN"].bootstrap.value, dropped["HMN"].bootstrap.value;
    assert IpamRuns.SubnetThinned(s, t);
    var name :| name in t.reservations && t.reservations[name].ip == c.bmcIp;
    assert s.reservations[name].ip == c.bmcIp;
  }

  lemma PutRewrites(local: Networks, server: Networks, node: Node, entries: seq<Entry>, bmcIp: nat)
    requires AllBootstrapped(local, entries) && local.Keys == server.Keys
    requires GoodNames(node) && PlainEntries(entries)
    requires "HMN" in server && server["HMN"].bootstrap.Some?
                && bmcIp in Ips(server["HMN"].bootstrap.value.reservations)
    requires AllDistinct(PutEntries(local, server, entries, node, bmcIp, |entries|))
    ensures Rewritten(PutEntries(local, server, entries, node, bmcIp, |entries|), node, entries, bmcIp)
  {
    var after := PutEntries(local, server, entries, node, bmcIp, |entries|);
    forall e | e in entries
      ensures HoldsEntry(after, node, e)
      ensures e.net == "HMN" ==>
                && node.bmcXname in after["HMN"].bootstrap.value.reservations
                && after["HMN"].bootstrap.value.reservations[node.bmcXname] == BmcReservation(node, bmcIp)
    {
      PutEntriesAddsAll(local, server, node, entries, bmcIp, e.net);
      AdditionsAre(node, entries, bmcIp, e.net);
      assert HasNet(entries, e.net);
    }
    PutEntriesKeepsOthers(local, server, node, entries, bmcIp);
  }

  /** Once allocate-ips has gone through for a node that keeps its addresses, ncn-data finds the same addresses, and
      whatever happens to its PUT requests SLS and the host records are as they were; so does allocate-ips again. */
  lemma KeptRoundTrip(sys: IpamRuns.System, node: Node, isFmn: bool, allowed: set<string>, check: Checks, puts: nat,
                      inDhcp: set<string>)
    requires SafeNetworks(sys.networks, inDhcp) && allowed <= inDhcp
    requires GoodNames(node) && IpamRuns.KeepsIps(node.ncnAlias)
    requires var choice := IpamRuns.Choose(sys, node, isFmn, allowed, check);
             choice.Success? && AllBootstrapped(choice.value.local, choice.value.entries)
                 && |choice.value.entries| <= puts
    ensures var c := IpamRuns.Choose(sys, node, isFmn, allowed, check).value;
            var after := IpamRuns.Step(sys, IpamRuns.AllocateIps(node, isFmn, allowed, check, true, puts));
            && after.records == sys.records
            && "HMN" in after.networks && after.networks["HMN"].bootstrap.Some?
            && Retrieve(after.networks, after.records, node)
               == Success(Choice(c.bmcIp, c.entries, Local(after.networks, node, c.entries, c.bmcIp)))
            && (forall agrees, puts' :: IpamRuns.Step(after, IpamRuns.NcnData(node, agrees, puts')) == after)
            && forall agrees, puts' ::
                IpamRuns.Step(after, IpamRuns.AllocateIps(node, isFmn, allowed, check, agrees, puts')) == after
  {
    var c := IpamRuns.Choose(sys, node, isFmn, allowed, check).value;
    var after := IpamRuns.Step(sys, IpamRuns.AllocateIps(node, isFmn, allowed, check, true, puts));
    RetrievedFacts(sys.networks, sys.records, node);
    EnoughPuts(c.local, sys.networks, c.entries, node, c.bmcIp, puts);
    IpamRuns.StepIsSafe(sys, IpamRuns.AllocateIps(node, isFmn, allowed, check, true, puts), inDhcp);
    PutRewrites(c.local, sys.networks, node, c.entries, c.bmcIp);
    RetrieveFinds(after.networks, after.records, node, c.entries, c.bmcIp);
    var local := Local(after.networks, node, c.entries, c.bmcIp);
    forall puts'
      ensures PutEntries(local, after.networks, c.entries, node, c.bmcIp, puts') == after.networks
    {
      LocalStays(after.networks, node, c.entries, c.bmcIp, puts');
    }
  }

  lemma LocalStays(networks: Networks, node: Node, entries: seq<Entry>, bmcIp: nat, puts: nat)
    requires GoodNames(node) && PlainEntries(entries) && Rewritten(networks, node, entries, bmcIp)
    ensures PutEntries(Local(networks, node, entries, bmcIp), networks, entries, node, bmcIp, puts) == networks
  {
    forall e | e in entries
      ensures Restores(Local(networks, node, entries, bmcIp), networks, node, e, bmcIp)
    {
      LocalRestores(networks, node, entries, bmcIp, e);
    }
    PutRestores(Local(networks, node, entries, bmcIp), networks, node, entries, bmcIp, puts);
  }
}
