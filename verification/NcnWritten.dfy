/** What a run of allocate-ips that goes all the way leaves in SLS and in the host records, spelled out by network. */
module NcnWritten {
  import opened Outcomes
  import opened Ipam
  import opened NcnIps
  import opened NcnEffects
  import opened NcnRuns
  import NcnRecords
  import Text

  /** The name of the network in aliases. */
  function Suffix(net: string): string {
    match net
    case "NMN" => "nmn"
    case "CAN" => "can"
    case "CMN" => "cmn"
    case "MTL" => "mtl"
    case "HMN" => "hmn"
    case _ => "chn"
  }

  lemma SuffixIs(net: string)
    requires net in NETWORKS
    ensures Text.Lower(net) == Suffix(net)
  {
  }

  /** What stands in SLS for the address of a node, a virtual IP, and the BMC. */
  lemma ReservationsAre(node: Node, net: string, ip: nat)
    requires net in NETWORKS
    ensures EntryReservation(node, Entry(net, true, ip))
         == Reservation("fmn-vip", ip, "fmn-virtual-ip", ["fmn-vip.local"])
    ensures BmcReservation(node, ip) == Reservation(node.bmcXname, ip, node.bmcXname, [node.ncnAlias + "-mgmt"])
    ensures var r := EntryReservation(node, Entry(net, false, ip));
            && r.name == node.ncnAlias && r.ip == ip && r.comment == node.xname
            && 3 <= |r.aliases| && r.aliases[0] == node.ncnAlias + "-" + Suffix(net)
            && r.aliases[1] == "time-" + Suffix(net) && r.aliases[2] == "time-" + Suffix(net) + ".local"
            && r.aliases[3..] ==
                 match net
                 case "NMN" => [node.xname, node.ncnAlias + ".local"]
                 case "HMN" => if node.storage then ["rgw-vip.hmn"] else []
                 case _ => []
  {
    SuffixIs(net);
  }

  /** What stands in the host records. */
  lemma RecordsAre(node: Node, net: string, ip: nat)
    requires net in NETWORKS
    ensures EntryRecord(node, Entry(net, false, ip)).ip == ip && EntryRecord(node, Entry(net, true, ip)).ip == ip
    ensures EntryRecord(node, Entry(net, false, ip)).aliases
         == if net == "NMN" then [node.ncnAlias + ".nmn", node.ncnAlias] else [node.ncnAlias + "." + Suffix(net)]
    ensures EntryRecord(node, Entry(net, true, ip)).aliases
         == if net == "NMN" then ["fmn-vip.nmn", "fmn-vip"] else ["fmn-vip." + Suffix(net)]
  {
    SuffixIs(net);
    assert "fmn-vip." + "nmn" == "fmn-vip.nmn";
    assert node.ncnAlias + "." + "nmn" == node.ncnAlias + ".nmn";
  }

  /** The records come in the order of the entries, with that of the BMC behind them. */
  lemma NewRecordsAre(node: Node, entries: seq<Entry>, bmcIp: nat)
    ensures var records := NewRecords(node, entries, bmcIp);
            && |records| == |entries| + 1
            && (forall i :: 0 <= i < |entries| ==> records[i] == EntryRecord(node, entries[i]))
            && records[|entries|] == HostRecord([node.ncnAlias + "-mgmt"], bmcIp)
  {
  }

  /** After a complete run every network of the six that SLS has holds the node's address under its alias, the HMN the
      BMC's under its xname, and the NMN and the HMN the virtual IP where one was chosen. */
  lemma CompleteRunWrites(networks: Networks, node: Node, isFmn: bool, allowed: set<string>, check: Checks, e: Entry)
    requires AllocateNcn(networks, node, isFmn, allowed, check).Success? && GoodNames(node)
    requires e in AllocateNcn(networks, node, isFmn, allowed, check).value.entries
    ensures var c := AllocateNcn(networks, node, isFmn, allowed, check).value;
            var after := PutEntries(c.local, networks, c.entries, node, c.bmcIp, |c.entries|);
            && e.net in NETWORKS && e.net in after && after[e.net].bootstrap.Some?
            && var reservations := after[e.net].bootstrap.value.reservations;
               && (if e.vip then "fmn-vip" in reservations && reservations["fmn-vip"] == EntryReservation(node, e)
                   else node.ncnAlias in reservations && reservations[node.ncnAlias] == EntryReservation(node, e))
               && (e.net == "HMN" ==>
                     node.bmcXname in reservations && reservations[node.bmcXname] == BmcReservation(node, c.bmcIp))
  {
    var c := AllocateNcn(networks, node, isFmn, allowed, check).value;
    var chosen := ChooseFor(WithBmc(networks, node, c.bmcIp), NETWORKS, isFmn, allowed, false).value;
    ChosenAreBootstrapped(networks, node, isFmn, allowed, c.bmcIp, chosen);
    PutEntriesAddsAll(c.local, networks, node, c.entries, c.bmcIp, e.net);
    AdditionsAre(node, c.entries, c.bmcIp, e.net);
  }

  /** The reservations of a network after a complete run, in one piece. */
  lemma WrittenTo(networks: Networks, node: Node, isFmn: bool, allowed: set<string>, check: Checks, net: string)
    requires AllocateNcn(networks, node, isFmn, allowed, check).Success?
    requires net in networks && networks[net].bootstrap.Some?
    ensures var c := AllocateNcn(networks, node, isFmn, allowed, check).value;
            var after := PutEntries(c.local, networks, c.entries, node, c.bmcIp, |c.entries|);
            && net in after && after[net].bootstrap.Some? && net in c.local && c.local[net].bootstrap.Some?
            && after[net].bootstrap.value.reservations ==
                 if HasNet(c.entries, net) then
                   c.local[net].bootstrap.value.reservations + Additions(node, c.entries, c.bmcIp, net)
                 else networks[net].bootstrap.value.reservations
    ensures var before := networks[net].bootstrap.value.reservations;
            var c := AllocateNcn(networks, node, isFmn, allowed, check).value;
            var local := c.local[net].bootstrap.value.reservations;
            forall key :: key in local ==> key in before && local[key] == before[key]
  {
    var c := AllocateNcn(networks, node, isFmn, allowed, check).value;
    var chosen := ChooseFor(WithBmc(networks, node, c.bmcIp), NETWORKS, isFmn, allowed, false).value;
    ChosenAreBootstrapped(networks, node, isFmn, allowed, c.bmcIp, chosen);
    PutEntriesAddsAll(c.local, networks, node, c.entries, c.bmcIp, net);
  }

  lemma AdditionsOf(networks: Networks, node: Node, isFmn: bool, allowed: set<string>, check: Checks, net: string,
                    key: string)
    requires AllocateNcn(networks, node, isFmn, allowed, check).Success? && GoodNames(node)
    requires var c := AllocateNcn(networks, node, isFmn, allowed, check).value;
             key in Additions(node, c.entries, c.bmcIp, net)
    ensures var c := AllocateNcn(networks, node, isFmn, allowed, check).value;
            var r := Additions(node, c.entries, c.bmcIp, net)[key];
            || (net == "HMN" && key == node.bmcXname && r == BmcReservation(node, c.bmcIp))
            || exists e :: e in c.entries && e.net == net && r == EntryReservation(node, e)
                           && key == if e.vip then "fmn-vip" else node.ncnAlias
  {
    var c := AllocateNcn(networks, node, isFmn, allowed, check).value;
    var chosen := ChooseFor(WithBmc(networks, node, c.bmcIp), NETWORKS, isFmn, allowed, false).value;
    ChosenAreBootstrapped(networks, node, isFmn, allowed, c.bmcIp, chosen);
    AdditionsAre(node, c.entries, c.bmcIp, net);
    assert IsAddition(node, c.entries, c.bmcIp, net, key, Additions(node, c.entries, c.bmcIp, net)[key]);
  }

  /** Nothing else is written: a reservation that a network has after a complete run and did not have in the local
      copy is that of an entry of the network, or on the HMN the BMC's. */
  lemma NothingElseIsWritten(networks: Networks, node: Node, isFmn: bool, allowed: set<string>, check: Checks,
                             net: string, key: string)
    requires AllocateNcn(networks, node, isFmn, allowed, check).Success? && GoodNames(node)
    requires net in networks && networks[net].bootstrap.Some?
    ensures var c := AllocateNcn(networks, node, isFmn, allowed, check).value;
            var after := PutEntries(c.local, networks, c.entries, node, c.bmcIp, |c.entries|);
            && net in after && after[net].bootstrap.Some? && net in c.local && c.local[net].bootstrap.Some?
            && var before, reservations := networks[net].bootstrap.value.reservations,
                   after[net].bootstrap.value.reservations;
               key in reservations ==>
                 || (key in before && reservations[key] == before[key])
                 || (net == "HMN" && key == node.bmcXname && reservations[key] == BmcReservation(node, c.bmcIp))
                 || exists e :: e in c.entries && e.net == net && reservations[key] == EntryReservation(node, e)
                                && key == if e.vip then "fmn-vip" else node.ncnAlias
  {
    var c := AllocateNcn(networks, node, isFmn, allowed, check).value;
    WrittenTo(networks, node, isFmn, allowed, check, net);
    var more := Additions(node, c.entries, c.bmcIp, net);
    if key in more {
      AdditionsOf(networks, node, isFmn, allowed, check, net, key);
    }
  }

  /** Each network of the six that SLS has gets an ordinary address; the NMN and the HMN get a virtual IP in a run of a
      fabric manager, unless they have one, or it is the HMN and the NMN has one. */
  lemma EntriesAre(networks: Networks, node: Node, isFmn: bool, allowed: set<string>, check: Checks, net: string)
    requires AllocateNcn(networks, node, isFmn, allowed, check).Success? && node.bmcXname != "fmn-vip"
    ensures var entries := AllocateNcn(networks, node, isFmn, allowed, check).value.entries;
            && ((exists e :: e in entries && e.net == net && !e.vip) <==>
                  net in networks && net in ["NMN", "CAN", "CMN", "MTL", "HMN", "CHN"])
            && ((exists e :: e in entries && e.net == net && e.vip) <==>
                  && isFmn && net in networks && (net == "NMN" || net == "HMN") && !Reserves(networks, net)
                  && (net == "HMN" ==> !Reserves(networks, "NMN")))
  {
    var c := AllocateNcn(networks, node, isFmn, allowed, check).value;
    var withBmc := WithBmc(networks, node, c.bmcIp);
    ChooseForAsks(withBmc, NETWORKS, isFmn, allowed, false);
    VipInLoopIs(withBmc, isFmn, net);
    assert HasEntry(c.entries, net, false) <==> exists e :: e in c.entries && e.net == net && !e.vip;
    assert HasEntry(c.entries, net, true) <==> exists e :: e in c.entries && e.net == net && e.vip;
    assert HasVip(withBmc, "HMN") == Reserves(networks, "HMN") && HasVip(withBmc, "NMN") == Reserves(networks, "NMN");
  }

  /** The bootstrap_dhcp subnet of the network has a virtual IP for fabric managers. */
  predicate Reserves(networks: Networks, net: string) {
    net in networks && networks[net].bootstrap.Some? && "fmn-vip" in networks[net].bootstrap.value.reservations
  }

  /** The aliases that the record of an address has. */
  function RecordAliases(node: Node, net: string): seq<string> {
    if net == "NMN" then [node.ncnAlias + ".nmn", node.ncnAlias] else [node.ncnAlias + "." + Suffix(net)]
  }

  /** What ncn-data asks of the host records: one with the address of the node in a network has just the node's
      aliases for that network, or on the NMN those of the installation host, and one with the node's alias for a
      network has the address; and likewise for the BMC. */
  lemma RecordPassesIff(node: Node, entries: seq<Entry>, bmcIp: nat, r: HostRecord)
    requires forall e :: e in entries ==> e.net in NETWORKS
    ensures NcnRecords.RecordsPass([r], node, entries, bmcIp) <==>
              && (forall e :: e in entries && !e.vip && e.ip == r.ip ==>
                    r.aliases == RecordAliases(node, e.net) || (e.net == "NMN" && r.aliases == ["pit", "pit.nmn"])
                    || (e.net != "NMN" && r.aliases == []))
              && (forall e :: e in entries && !e.vip && node.ncnAlias + "." + Suffix(e.net) in r.aliases ==>
                    e.ip == r.ip)
              && (r.ip == bmcIp ==> r.aliases == [node.ncnAlias + "-mgmt"])
              && (node.ncnAlias + "-mgmt" in r.aliases ==> r.ip == bmcIp)
  {
    forall e | e in entries
      ensures NcnRecords.ExpectedAliases(node, e) == RecordAliases(node, e.net)
      ensures RecordAliases(node, e.net)[0] == node.ncnAlias + "." + Suffix(e.net)
    {
      SuffixIs(e.net);
      assert "." + "nmn" == ".nmn";
      assert node.ncnAlias + "." + "nmn" == node.ncnAlias + ".nmn";
    }
    assert r in [r];
  }

  // ---------------------------------------------------------------------------------------------
  // Reading back
  // ---------------------------------------------------------------------------------------------

  /** A network that no entry names, or without bootstrap_dhcp, stays as it was. */
  lemma {:induction false} DropEntriesElsewhere(networks: Networks, entries: seq<Entry>, net: string)
    requires DropEntries(networks, entries).Success? && net in networks
    requires networks[net].bootstrap.None? || forall e :: e in entries ==> e.net != net
    ensures net in DropEntries(networks, entries).value
    ensures DropEntries(networks, entries).value[net] == networks[net]
    decreases |entries|
  {
    if entries != [] {
      assert entries == [entries[0]] + entries[1..];
      DropEntriesElsewhere(DropEntry(networks, entries[0].net, entries[0].ip).value, entries[1..], net);
    }
  }

  /** One that an entry names loses the address of the entry. */
  lemma {:induction false} DropEntriesHere(networks: Networks, entries: seq<Entry>, i: nat)
    requires DistinctNets(entries) && DropEntries(networks, entries).Success?
    requires i < |entries| && entries[i].net in networks && networks[entries[i].net].bootstrap.Some?
    ensures var e, after := entries[i], DropEntries(networks, entries).value;
            && e.net in after && after[e.net].bootstrap.Some?
            && after[e.net].bootstrap.value.reservations == DropIp(networks[e.net].bootstrap.value.reservations, e.ip)
    decreases |entries|
  {
    var next := DropEntry(networks, entries[0].net, entries[0].ip).value;
    if i == 0 {
      OthersDiffer(entries, 0);
      DropEntriesElsewhere(next, entries[1..], entries[0].net);
    } else {
      assert next[entries[i].net] == networks[entries[i].net];
      DropEntriesHere(next, entries[1..], i - 1);
    }
  }

  /** Some reservation of the bootstrap_dhcp subnet has the address. */
  predicate Holds(networks: Networks, net: string, ip: nat) {
    net in networks && networks[net].bootstrap.Some?
    && exists key :: key in networks[net].bootstrap.value.reservations
                     && networks[net].bootstrap.value.reservations[key].ip == ip
  }

  /** Whether the HMN still has the BMC's address when the entries' addresses have been taken out. */
  lemma HmnAfterwards(networks: Networks, entries: seq<Entry>, bmcIp: nat)
    requires DistinctNets(entries) && DropEntries(networks, entries).Success?
    ensures Holds(DropEntries(networks, entries).value, "HMN", bmcIp) <==>
              Holds(networks, "HMN", bmcIp) && !exists e :: e in entries && e.net == "HMN" && e.ip == bmcIp
  {
    DropEntriesKeys(networks, entries);
    if e :| e in entries && e.net == "HMN" && "HMN" in networks && networks["HMN"].bootstrap.Some? {
      var i :| 0 <= i < |entries| && entries[i] == e;
      DropEntriesHere(networks, entries, i);
      assert forall f :: f in entries && f.net == "HMN" ==> f == e;
      var reservations := networks["HMN"].bootstrap.value.reservations;
      var rest := DropIp(reservations, e.ip);
      if key :| key in reservations && reservations[key].ip == bmcIp && bmcIp != e.ip {
        assert key in rest && rest[key].ip == bmcIp;
      }
    } else if "HMN" in networks {
      DropEntriesElsewhere(networks, entries, "HMN");
    }
  }

  /** Reading back succeeds if and only if the host records name the BMC, each address they name is reserved in its
      network, which may also have no bootstrap_dhcp subnet, and the BMC's is reserved in the HMN for itself. */
  lemma RetrieveSucceedsIff(networks: Networks, records: seq<HostRecord>, node: Node, found: Found)
    requires ScanRecords(Found(None, []), node, records) == Success(found)
    ensures Retrieve(networks, records, node).Success? <==>
              && found.bmcIp.Some? && Holds(networks, "HMN", found.bmcIp.value)
              && (forall e :: e in found.entries ==>
                    e.net in networks && (networks[e.net].bootstrap.Some? ==> Holds(networks, e.net, e.ip)))
              && !exists e :: e in found.entries && e.net == "HMN" && e.ip == found.bmcIp.value
    ensures Retrieve(networks, records, node).Success? ==>
              var c := Retrieve(networks, records, node).value;
              c.entries == found.entries && found.bmcIp == Some(c.bmcIp)
  {
    ScanRecordsKeepsDistinct(Found(None, []), node, records);
    DropEntriesIff(networks, found.entries);
    if found.bmcIp.Some? && DropEntries(networks, found.entries).Success? {
      HmnAfterwards(networks, found.entries, found.bmcIp.value);
    }
    forall e
      ensures Droppable(networks, e) <==>
                e.net in networks && (networks[e.net].bootstrap.Some? ==> Holds(networks, e.net, e.ip))
    {
    }
  }

  lemma {:induction false} DropEntriesKeys(networks: Networks, entries: seq<Entry>)
    requires DropEntries(networks, entries).Success?
    ensures DropEntries(networks, entries).value.Keys == networks.Keys
    decreases |entries|
  {
    if entries != [] {
      DropEntriesKeys(DropEntry(networks, entries[0].net, entries[0].ip).value, entries[1..]);
    }
  }

  /** What reading back asks of SLS, reservation by reservation, also where several have one address: the BMC's has to
      be there once more if the HMN's entry has it too. */
  lemma RetrievableIff(networks: Networks, entries: seq<Entry>, bmcIp: nat)
    ensures Retrievable(networks, entries, bmcIp) <==>
              && (forall e :: e in entries ==>
                    e.net in networks && (networks[e.net].bootstrap.Some? ==> Holds(networks, e.net, e.ip)))
              && Holds(networks, "HMN", bmcIp)
              && (Entry("HMN", false, bmcIp) in entries ==>
                    exists a, b :: a != b && HoldsUnder(networks, "HMN", a, bmcIp)
                                   && HoldsUnder(networks, "HMN", b, bmcIp))
  {
    forall e
      ensures Droppable(networks, e) <==>
                e.net in networks && (networks[e.net].bootstrap.Some? ==> Holds(networks, e.net, e.ip))
    {
    }
    if "HMN" in networks && networks["HMN"].bootstrap.Some? {
      var reservations := networks["HMN"].bootstrap.value.reservations;
      if a, b :| a in reservations && b in reservations && a != b && reservations[a].ip == reservations[b].ip == bmcIp {
        assert HoldsUnder(networks, "HMN", a, bmcIp) && HoldsUnder(networks, "HMN", b, bmcIp);
      }
      if a, b :| a != b && HoldsUnder(networks, "HMN", a, bmcIp) && HoldsUnder(networks, "HMN", b, bmcIp) {
        assert reservations[a].ip == reservations[b].ip == bmcIp;
      }
    }
  }

  predicate HoldsUnder(networks: Networks, net: string, key: string, ip: nat) {
    net in networks && networks[net].bootstrap.Some? && key in networks[net].bootstrap.value.reservations
    && networks[net].bootstrap.value.reservations[key].ip == ip
  }

  /** However many nodes are added, networks other than the six stay as they are. */
  lemma {:induction false} OtherNetworksStay(networks: Networks, nodes: seq<Node>, isFmn: bool, allowed: set<string>,
                                             check: Checks, name: string)
    requires AddNodes(networks, nodes, isFmn, allowed, check).Success?
    requires name in networks && name !in ["NMN", "CAN", "CMN", "MTL", "HMN", "CHN"]
    ensures name in AddNodes(networks, nodes, isFmn, allowed, check).value
    ensures AddNodes(networks, nodes, isFmn, allowed, check).value[name] == networks[name]
    decreases |nodes|
  {
    if nodes != [] {
      var c := AllocateNcn(networks, nodes[0], isFmn, allowed, check).value;
      var chosen := ChooseFor(WithBmc(networks, nodes[0], c.bmcIp), NETWORKS, isFmn, allowed, false).value;
      ChosenAreBootstrapped(networks, nodes[0], isFmn, allowed, c.bmcIp, chosen);
      PutEntriesKeepsOther(c.local, networks, nodes[0], c.entries, c.bmcIp, name);
      OtherNetworksStay(AddNode(networks, nodes[0], isFmn, allowed, check).value, nodes[1..], isFmn, allowed, check,
                        name);
    }
  }
}
