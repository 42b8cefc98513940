/** What stands in a state file that add_liquid_cooled_cabinet.py writes, and that a series of runs loses nothing. */
module CabinetFiles {
  import opened Outcomes
  import opened CabinetSubnets
  import opened Cabinets
  import opened CabinetScript

  /** The hardware of the new cabinet comes to what was there, under xnames that were not. Compute nodes have different
      IDs. */
  lemma WrittenHardware(before: SlsState, a: Arguments, after: SlsState)
    requires Writes(before, a, after)
    ensures ChassisOf(a.cabinetType).Some?
    ensures var items := CabinetItems(a.cabinet, ChassisOf(a.cabinetType).value, a.startingNid);
            && (forall x :: x in before.hardware ==> x in after.hardware && after.hardware[x] == before.hardware[x])
            && (forall item :: item in items ==>
                  item.xname !in before.hardware && item.xname in after.hardware
                  && after.hardware[item.xname] == item.hardware)
            && (forall x :: x in after.hardware ==>
                  x in before.hardware || exists item :: item in items && item.xname == x)
    ensures forall x, y :: x in after.hardware && y in after.hardware && x != y
                           && after.hardware[x].Node? && after.hardware[x].role == "Compute"
                           && after.hardware[y].Node? && after.hardware[y].role == "Compute" ==>
              after.hardware[x].nid != after.hardware[y].nid
  {
    var items := CabinetItems(a.cabinet, ChassisOf(a.cabinetType).value, a.startingNid);
    InsertAdds(before.hardware, items);
    forall x | x in after.hardware && x !in before.hardware
      ensures exists item :: item in items && item.xname == x
    {
      var i :| 0 <= i < |items| && items[i].xname == x;
      assert items[i] in items;
    }
    assert forall x :: x in after.hardware && after.hardware[x].Node? && after.hardware[x].role == "Compute" ==>
        IsCompute(after.hardware[x]);
  }

  /** The network that a cabinet network starts from, by its first address. */
  predicate StartsFrom(networks: Networks, name: string, n: Network, first: nat) {
    if name in networks then n == networks[name] else n == Network(Cidr(first, 17), [])
  }

  /** `n` with the subnet of the cabinet behind the others: 1024 addresses, of which the first after the network's is
      the gateway, and the pool goes from the tenth to the last but one. */
  predicate HasCabinet(n: Network, m: Network, cabinet: string, vlan: int)
    requires cabinet != ""
  {
    && m.cidr == n.cidr && |m.subnets| == |n.subnets| + 1 && m.subnets[..|n.subnets|] == n.subnets
    && var s := m.subnets[|n.subnets|];
       && s.name == "cabinet_" + cabinet[1..] && s.vlan == vlan && s.cidr.prefix == 22
       && s.gateway == s.cidr.base + 1 && s.dhcpStart == s.cidr.base + 10 && s.dhcpEnd == s.cidr.base + 1022
  }

  lemma GainedSubnet(n: Network, m: Network, cabinet: string, vlan: int)
    requires cabinet != "" && GainsSubnet(n, m, cabinet, vlan)
    ensures HasCabinet(n, m, cabinet, vlan)
  {
    var k :| IsNext(n.cidr, Cidrs(n.subnets), k)
             && m == n.(subnets := n.subnets + [SubnetFor(cabinet, Nth(n.cidr, k), vlan)]);
    BlockSize();
    assert Nth(n.cidr, k).Size() == 1024;
  }

  /** The two cabinet networks, at 10.104.0.0/17 and 10.100.0.0/17 if they are new, have one subnet more each; other
      networks are as they were, and no VLAN is used twice. */
  lemma WrittenNetworks(before: SlsState, a: Arguments, after: SlsState)
    requires Writes(before, a, after)
    ensures a.cabinet != "" && "HMN_MTN" in after.networks && "NMN_MTN" in after.networks
    ensures forall name :: name in after.networks <==> name in before.networks || name == "HMN_MTN" || name == "NMN_MTN"
    ensures forall name :: name in before.networks && name != "HMN_MTN" && name != "NMN_MTN" ==>
              after.networks[name] == before.networks[name]
    ensures exists n :: StartsFrom(before.networks, "HMN_MTN", n, ((10 * 256 + 104) * 256) * 256)
                        && HasCabinet(n, after.networks["HMN_MTN"], a.cabinet, a.vlanHmn)
    ensures exists n :: StartsFrom(before.networks, "NMN_MTN", n, ((10 * 256 + 100) * 256) * 256)
                        && HasCabinet(n, after.networks["NMN_MTN"], a.cabinet, a.vlanNmn)
    ensures var all := after.networks["HMN_MTN"].subnets + after.networks["NMN_MTN"].subnets;
            forall i, j :: 0 <= i < j < |all| ==> all[i].vlan != all[j].vlan
  {
    assert "HMN_MTN"[0] != "NMN_MTN"[0];
    var hmn, nmn := NetworkOr(before.networks, HMN_MTN), NetworkOr(before.networks, NMN_MTN);
    GainedSubnet(hmn, after.networks[HMN_MTN], a.cabinet, a.vlanHmn);
    GainedSubnet(nmn, after.networks[NMN_MTN], a.cabinet, a.vlanNmn);
    assert StartsFrom(before.networks, "HMN_MTN", hmn, ((10 * 256 + 104) * 256) * 256);
    assert StartsFrom(before.networks, "NMN_MTN", nmn, ((10 * 256 + 100) * 256) * 256);
  }

  /** However many cabinets are added, hardware stays as it was, and networks keep their range and their subnets. */
  lemma {:induction false} NothingIsLost(before: SlsState, runs: seq<Arguments>, after: SlsState)
    requires WritesAll(before, runs, after)
    ensures forall x :: x in before.hardware ==> x in after.hardware && after.hardware[x] == before.hardware[x]
    ensures forall name :: name in before.networks ==>
              && name in after.networks
              && after.networks[name].cidr == before.networks[name].cidr
              && before.networks[name].subnets <= after.networks[name].subnets
    decreases |runs|
  {
    if runs != [] {
      var mid :| (mid == before || Writes(before, runs[0], mid)) && WritesAll(mid, runs[1..], after);
      if mid != before {
        WrittenHardware(before, runs[0], mid);
        WrittenNetworks(before, runs[0], mid);
      }
      NothingIsLost(mid, runs[1..], after);
    }
  }

  /** However many cabinets are added, no two subnets of a cabinet network share an address, if that was so before and
      the subnets were aligned blocks of at least 1024 addresses. */
  lemma SubnetsStayApart(before: SlsState, runs: seq<Arguments>, after: SlsState, name: string, i: nat, j: nat)
    requires WritesAll(before, runs, after) && (name == "HMN_MTN" || name == "NMN_MTN") && name in after.networks
    requires GoodNetworks(before.networks)
    requires i < j < |after.networks[name].subnets|
    ensures var x, y := after.networks[name].subnets[i].cidr, after.networks[name].subnets[j].cidr;
            x.base + x.Size() <= y.base || y.base + y.Size() <= x.base
  {
    EveryFileIsSound(before, runs, after);
    var cidrs := Cidrs(after.networks[name].subnets);
    assert Disjoint(cidrs[i], cidrs[j]);
  }

  /** What is asked of the file at the start. */
  lemma GoodNetworksIff(networks: Networks)
    ensures GoodNetworks(networks) <==>
              forall name :: (name == "HMN_MTN" || name == "NMN_MTN") && name in networks ==>
                var n := networks[name];
                && n.cidr.Valid()
                && (forall i :: 0 <= i < |n.subnets| ==> n.subnets[i].cidr.Valid() && n.subnets[i].cidr.prefix <= 22)
                && forall i, j :: 0 <= i < j < |n.subnets| ==>
                     var x, y := n.subnets[i].cidr, n.subnets[j].cidr;
                     x.base + x.Size() <= y.base || y.base + y.Size() <= x.base
  {
    forall name | name in networks
      ensures GoodNetwork(networks[name]) <==>
                var n := networks[name];
                && n.cidr.Valid()
                && (forall i :: 0 <= i < |n.subnets| ==> n.subnets[i].cidr.Valid() && n.subnets[i].cidr.prefix <= 22)
                && forall i, j :: 0 <= i < j < |n.subnets| ==>
                     var x, y := n.subnets[i].cidr, n.subnets[j].cidr;
                     x.base + x.Size() <= y.base || y.base + y.Size() <= x.base
    {
      GoodNetworkIff(networks[name]);
    }
  }

  lemma GoodNetworkIff(n: Network)
    ensures GoodNetwork(n) <==>
              && n.cidr.Valid()
              && (forall i :: 0 <= i < |n.subnets| ==> n.subnets[i].cidr.Valid() && n.subnets[i].cidr.prefix <= 22)
              && forall i, j :: 0 <= i < j < |n.subnets| ==>
                   var x, y := n.subnets[i].cidr, n.subnets[j].cidr;
                   x.base + x.Size() <= y.base || y.base + y.Size() <= x.base
  {
    var cidrs := Cidrs(n.subnets);
    assert forall i :: 0 <= i < |cidrs| ==> cidrs[i] == n.subnets[i].cidr && cidrs[i] in cidrs;
    if PairwiseDisjoint(cidrs) {
      forall i, j | 0 <= i < j < |n.subnets|
        ensures Disjoint(n.subnets[i].cidr, n.subnets[j].cidr)
      {
        assert Disjoint(cidrs[i], cidrs[j]);
      }
    }
  }

  /** What the check for duplicate IDs looks at. */
  lemma NidsUniqueIff(all: Inventory)
    ensures NidsUnique(all) <==>
              forall x, y :: x in all && y in all && x != y && all[x].Node? && all[x].role == "Compute"
                             && all[y].Node? && all[y].role == "Compute" ==>
                all[x].nid != all[y].nid
  {
    assert forall h: Hardware :: IsCompute(h) <==> h.Node? && h.role == "Compute";
  }

  /** Any of the runs may have stopped early, and then the file is as it was. */
  lemma {:induction false} StoppedRuns(before: SlsState, runs: seq<Arguments>, i: nat, after: SlsState)
    requires i <= |runs| && WritesAll(before, runs[i..], after)
    ensures WritesAll(before, runs, after)
    decreases i
  {
    if i == 0 {
      assert runs[0..] == runs;
    } else {
      assert runs[1..][i - 1..] == runs[i..];
      StoppedRuns(before, runs[1..], i - 1, after);
    }
  }
}
