/** add_liquid_cooled_cabinet.py as a whole, and what every state file it writes keeps. */
module CabinetScript {
  import opened Outcomes
  import opened CabinetSubnets
  import opened Cabinets

  type Inventory = map<string, Hardware>

  datatype CabinetSubnet = CabinetSubnet(name: string, cidr: Cidr, vlan: int, gateway: nat, dhcpStart: nat,
                                         dhcpEnd: int)

  datatype Network = Network(cidr: Cidr, subnets: seq<CabinetSubnet>)

  type Networks = map<string, Network>

  datatype Arguments = Arguments(cabinet: string, cabinetType: CabinetType, vlanHmn: int, vlanNmn: int,
                                 startingNid: int)

  const HMN_MTN := "HMN_MTN"
  const NMN_MTN := "NMN_MTN"

  // ---------------------------------------------------------------------------------------------
  // Hardware
  // ---------------------------------------------------------------------------------------------

  /** The inventory with the items added, unless one of the xnames is there already. */
  function Insert(all: Inventory, items: seq<Item>): Option<Inventory>
    decreases |items|
  {
    if items == [] then Some(all)
    else if items[0].xname in all then None
    else Insert(all[items[0].xname := items[0].hardware], items[1..])
  }

  predicate IsCompute(h: Hardware) {
    h.Node? && h.role == "Compute"
  }

  /** No two compute nodes have the same node ID. */
  ghost predicate NidsUnique(all: Inventory) {
    forall x, y :: x in all && y in all && x != y && IsCompute(all[x]) && IsCompute(all[y]) ==> all[x].nid != all[y].nid
  }

  method AddHardware(all: Inventory, items: seq<Item>) returns (r: Option<Inventory>)
    ensures r == Insert(all, items)
  {
    var added := all;
    for i := 0 to |items|
      invariant Insert(all, items) == Insert(added, items[i..])
    {
      if items[i].xname in added {
        return None;
      }
      added := added[items[i].xname := items[i].hardware];
    }
    r := Some(added);
  }

  method CheckNids(all: Inventory) returns (ok: bool)
    ensures ok == NidsUnique(all)
  {
    var duplicate := false;
    var nids: set<int> := {};
    var left := all.Keys;
    while left != {}
      invariant left <= all.Keys
      invariant forall nid :: nid in nids <==>
          exists x :: x in all.Keys - left && IsCompute(all[x]) && all[x].nid == nid
      invariant duplicate <==> exists x, y :: x in all.Keys - left && y in all.Keys - left && x != y
                                              && IsCompute(all[x]) && IsCompute(all[y]) && all[x].nid == all[y].nid
    {
      var x :| x in left;
      if IsCompute(all[x]) {
        if all[x].nid in nids {
          duplicate := true;
        }
        nids := nids + {all[x].nid};
      }
      left := left - {x};
    }
    ok := !duplicate;
  }

  /** Inserting succeeds only with new and different xnames, and adds just these items. */
  lemma {:induction false} InsertAdds(all: Inventory, items: seq<Item>)
    requires Insert(all, items).Some?
    ensures var after := Insert(all, items).value;
            && (forall x :: x in all ==> x in after && after[x] == all[x])
            && (forall i :: 0 <= i < |items| ==>
                  items[i].xname !in all && items[i].xname in after && after[items[i].xname] == items[i].hardware)
            && (forall x :: x in after && x !in all ==> exists i :: 0 <= i < |items| && items[i].xname == x)
    decreases |items|
  {
    if items != [] {
      var all' := all[items[0].xname := items[0].hardware];
      InsertAdds(all', items[1..]);
      var after := Insert(all, items).value;
      forall i | 0 <= i < |items|
        ensures items[i].xname !in all && items[i].xname in after && after[items[i].xname] == items[i].hardware
      {
        if i > 0 {
          assert items[i] == items[1..][i - 1];
        }
      }
      forall x | x in after && x !in all
        ensures exists i :: 0 <= i < |items| && items[i].xname == x
      {
        if x in all' {
          assert items[0].xname == x;
        } else {
          var i :| 0 <= i < |items[1..]| && items[1..][i].xname == x;
          assert items[i + 1].xname == x;
        }
      }
    }
  }

  /** What the new hardware contributes: different IDs, all in the range of the cabinet. */
  lemma NewNids(all: Inventory, cabinet: string, chassisList: seq<string>, start: int, x: string)
    requires Insert(all, CabinetItems(cabinet, chassisList, start)).Some?
    requires var after := Insert(all, CabinetItems(cabinet, chassisList, start)).value;
             x in after && x !in all && IsCompute(after[x])
    ensures var items := CabinetItems(cabinet, chassisList, start);
            var after := Insert(all, items).value;
            && start <= after[x].nid < start + 32 * |chassisList|
            && exists i: nat :: HasNid(items, i, after[x].nid) && items[i].xname == x
  {
    var items := CabinetItems(cabinet, chassisList, start);
    var after := Insert(all, items).value;
    InsertAdds(all, items);
    var i :| 0 <= i < |items| && items[i].xname == x;
    assert HasNid(items, i, after[x].nid);
    PlaceOfNid(cabinet, chassisList, start, i, after[x].nid);
  }

  lemma NewNidsDiffer(all: Inventory, cabinet: string, chassisList: seq<string>, start: int, x: string, y: string)
    requires Insert(all, CabinetItems(cabinet, chassisList, start)).Some?
    requires var after := Insert(all, CabinetItems(cabinet, chassisList, start)).value;
             && x in after && x !in all && IsCompute(after[x]) && y in after && y !in all && IsCompute(after[y])
             && after[x].nid == after[y].nid
    ensures x == y
  {
    NewNids(all, cabinet, chassisList, start, x);
    NewNids(all, cabinet, chassisList, start, y);
    NidsFillTheRange(cabinet, chassisList, start, Insert(all, CabinetItems(cabinet, chassisList, start)).value[x].nid);
  }

  /** An ID of the range that was there before is there twice afterwards. */
  lemma OldNidInRange(all: Inventory, cabinet: string, chassisList: seq<string>, start: int, x: string)
    requires Insert(all, CabinetItems(cabinet, chassisList, start)).Some?
    requires x in all && IsCompute(all[x]) && start <= all[x].nid < start + 32 * |chassisList|
    ensures !NidsUnique(Insert(all, CabinetItems(cabinet, chassisList, start)).value)
  {
    var items := CabinetItems(cabinet, chassisList, start);
    var after := Insert(all, items).value;
    InsertAdds(all, items);
    NidAtPlace(cabinet, chassisList, start, all[x].nid);
    var i := NodePlace((all[x].nid - start) / 32, (all[x].nid - start) % 32);
    NodeIsCompute(cabinet, chassisList, start, i);
    assert after[items[i].xname] == items[i].hardware;
  }

  /** The check for duplicate IDs passes exactly when the IDs were unique before and none of them lies
      in the range of the new cabinet. */
  lemma NidCheckPassesIff(all: Inventory, cabinet: string, chassisList: seq<string>, start: int)
    requires Insert(all, CabinetItems(cabinet, chassisList, start)).Some?
    ensures NidsUnique(Insert(all, CabinetItems(cabinet, chassisList, start)).value)
       <==> NidsUnique(all) && forall x :: x in all && IsCompute(all[x]) ==>
           !(start <= all[x].nid < start + 32 * |chassisList|)
  {
    var items := CabinetItems(cabinet, chassisList, start);
    var after := Insert(all, items).value;
    InsertAdds(all, items);
    forall x | x in after && x !in all && IsCompute(after[x])
      ensures start <= after[x].nid < start + 32 * |chassisList|
    {
      NewNids(all, cabinet, chassisList, start, x);
    }
    forall x, y | x in after && y in after && x !in all && y !in all && IsCompute(after[x]) && IsCompute(after[y])
                  && after[x].nid == after[y].nid
      ensures x == y
    {
      NewNidsDiffer(all, cabinet, chassisList, start, x, y);
    }
    forall x | x in all && IsCompute(all[x]) && start <= all[x].nid < start + 32 * |chassisList|
      ensures !NidsUnique(after)
    {
      OldNidInRange(all, cabinet, chassisList, start, x);
    }
  }

  lemma NodeIsCompute(cabinet: string, chassisList: seq<string>, start: int, i: nat)
    requires i < |CabinetItems(cabinet, chassisList, start)|
    ensures var h := CabinetItems(cabinet, chassisList, start)[i].hardware;
            h.Node? ==> IsCompute(h)
  {
    if i > 0 {
      NodesOnly(cabinet, chassisList, start, i - 1);
    }
  }

  // ---------------------------------------------------------------------------------------------
  // Networks
  // ---------------------------------------------------------------------------------------------

  function Cidrs(subnets: seq<CabinetSubnet>): (cidrs: seq<Cidr>)
    ensures |cidrs| == |subnets|
  {
    seq(|subnets|, i requires 0 <= i < |subnets| => subnets[i].cidr)
  }

  /** 10.104.0.0/17 and 10.100.0.0/17 */
  function DefaultCidr(name: string): Cidr {
    Cidr(10 * 0x100_0000 + (if name == HMN_MTN then 104 else 100) * 0x1_0000, 17)
  }

  function NetworkOr(networks: Networks, name: string): Network {
    if name in networks then networks[name] else Network(DefaultCidr(name), [])
  }

  function SubnetFor(cabinet: string, block: Cidr, vlan: int): CabinetSubnet
    requires cabinet != ""
  {
    CabinetSubnet("cabinet_" + cabinet[1..], block, vlan, block.base + 1, block.base + 10,
                  block.base + block.Size() - 2)
  }

  method AddCabinetSubnet(network: Network, cabinet: string, vlan: int) returns (r: Option<Network>)
    requires cabinet != ""
    ensures r.Some? ==> exists k :: IsNext(network.cidr, Cidrs(network.subnets), k)
                                    && r.value == network.(subnets := network.subnets
                                                           + [SubnetFor(cabinet, Nth(network.cidr, k), vlan)])
    ensures r.None? ==> forall k :: !IsNext(network.cidr, Cidrs(network.subnets), k)
  {
    var block := FindNextAvailableSubnet(network.cidr, Cidrs(network.subnets));
    if block.None? {
      return None;
    }
    r := Some(network.(subnets := network.subnets + [SubnetFor(cabinet, block.value, vlan)]));
  }

  ghost predicate VlansUnique(subnets: seq<CabinetSubnet>) {
    forall i, j :: 0 <= i < j < |subnets| ==> subnets[i].vlan != subnets[j].vlan
  }

  method CheckVlans(subnets: seq<CabinetSubnet>) returns (ok: bool)
    ensures ok == VlansUnique(subnets)
  {
    var vlans: set<int> := {};
    var duplicate := false;
    for i := 0 to |subnets|
      invariant vlans == set k | 0 <= k < i :: subnets[k].vlan
      invariant duplicate <==> exists k, j :: 0 <= k < j < i && subnets[k].vlan == subnets[j].vlan
    {
      if subnets[i].vlan in vlans {
        duplicate := true;
      }
      vlans := vlans + {subnets[i].vlan};
    }
    ok := !duplicate;
  }

  // ---------------------------------------------------------------------------------------------
  // The script
  // ---------------------------------------------------------------------------------------------

  datatype SlsState = SlsState(hardware: Inventory, networks: Networks)

  ghost predicate GainsSubnet(before: Network, after: Network, cabinet: string, vlan: int)
    requires cabinet != ""
  {
    exists k :: IsNext(before.cidr, Cidrs(before.subnets), k)
                && after == before.(subnets := before.subnets + [SubnetFor(cabinet, Nth(before.cidr, k), vlan)])
  }

  /** There is only one next block. */
  lemma GainIsOne(before: Network, x: Network, y: Network, cabinet: string, vlan: int)
    requires cabinet != "" && GainsSubnet(before, x, cabinet, vlan) && GainsSubnet(before, y, cabinet, vlan)
    ensures x == y
  {
  }

  /** `after` is the state file that the script writes. */
  ghost predicate Writes(before: SlsState, a: Arguments, after: SlsState) {
    && a.cabinet != ""
    && ChassisOf(a.cabinetType).Some?
    && Insert(before.hardware, CabinetItems(a.cabinet, ChassisOf(a.cabinetType).value, a.startingNid))
      == Some(after.hardware)
    && NidsUnique(after.hardware)
    && after.networks.Keys == before.networks.Keys + {HMN_MTN, NMN_MTN}
    && (forall n :: n in before.networks && n !in {HMN_MTN, NMN_MTN} ==> after.networks[n] == before.networks[n])
    && GainsSubnet(NetworkOr(before.networks, HMN_MTN), after.networks[HMN_MTN], a.cabinet, a.vlanHmn)
    && GainsSubnet(NetworkOr(before.networks, NMN_MTN), after.networks[NMN_MTN], a.cabinet, a.vlanNmn)
    && VlansUnique(after.networks[HMN_MTN].subnets + after.networks[NMN_MTN].subnets)
  }

  /** The state file. A run that stops early leaves it as it was. */
  class StateFile {
    var state: SlsState

    constructor (state: SlsState)
      ensures this.state == state
    {
      this.state := state;
    }

    /** The script writes a file whenever there is one that it may write. */
    method AddCabinet(a: Arguments) returns (ok: bool)
      requires a.cabinet != ""
      modifies this
      ensures ok ==> Writes(old(state), a, state)
      ensures !ok ==> state == old(state) && forall after :: !Writes(old(state), a, after)
    {
      var chassisList := ChassisOf(a.cabinetType);
      if chassisList.None? {
        return false;
      }
      var items, next := GenerateHardware(a.cabinet, chassisList.value, a.startingNid);
      var hardware := AddHardware(state.hardware, items);
      if hardware.None? {
        return false;
      }
      var unique := CheckNids(hardware.value);
      if !unique {
        return false;
      }
      var hmn := AddCabinetSubnet(NetworkOr(state.networks, HMN_MTN), a.cabinet, a.vlanHmn);
      var nmn := AddCabinetSubnet(NetworkOr(state.networks, NMN_MTN), a.cabinet, a.vlanNmn);
      if hmn.None? || nmn.None? {
        return false;
      }
      var networks := state.networks[HMN_MTN := hmn.value][NMN_MTN := nmn.value];
      var vlans := CheckVlans(hmn.value.subnets + nmn.value.subnets);
      forall after | Writes(state, a, after)
        ensures after.networks[HMN_MTN] == hmn.value && after.networks[NMN_MTN] == nmn.value
      {
        GainIsOne(NetworkOr(state.networks, HMN_MTN), hmn.value, after.networks[HMN_MTN], a.cabinet, a.vlanHmn);
        GainIsOne(NetworkOr(state.networks, NMN_MTN), nmn.value, after.networks[NMN_MTN], a.cabinet, a.vlanNmn);
      }
      if !vlans {
        return false;
      }
      assert HMN_MTN[0] != NMN_MTN[0];
      state := SlsState(hardware.value, networks);
      return true;
    }
  }

  ghost predicate GoodNetwork(n: Network) {
    n.cidr.Valid() && Large(Cidrs(n.subnets)) && PairwiseDisjoint(Cidrs(n.subnets))
  }

  /** What the cabinet networks of a state file must satisfy from the start. */
  ghost predicate GoodNetworks(networks: Networks) {
    (HMN_MTN in networks ==> GoodNetwork(networks[HMN_MTN])) && (NMN_MTN in networks ==> GoodNetwork(networks[NMN_MTN]))
  }

  lemma DefaultIsGood(networks: Networks, name: string)
    requires GoodNetworks(networks) && name in {HMN_MTN, NMN_MTN}
    ensures GoodNetwork(NetworkOr(networks, name))
  {
    if name !in networks {
      BlockSize();
      Pow2Divides(10, 15);
      assert Pow2(5) == 32;
      assert DefaultCidr(name).Size() == 32768;
    }
  }

  lemma GainKeepsGood(before: Network, after: Network, cabinet: string, vlan: int)
    requires cabinet != "" && GoodNetwork(before) && GainsSubnet(before, after, cabinet, vlan)
    ensures GoodNetwork(after)
  {
    var k :| IsNext(before.cidr, Cidrs(before.subnets), k)
             && after == before.(subnets := before.subnets + [SubnetFor(cabinet, Nth(before.cidr, k), vlan)]);
    NextKeepsDisjoint(before.cidr, Cidrs(before.subnets), k);
    assert Cidrs(after.subnets) == Cidrs(before.subnets) + [Nth(before.cidr, k)];
  }

  /** `after` is what a series of runs has made of the state file; some of them may have stopped early. */
  ghost predicate WritesAll(before: SlsState, runs: seq<Arguments>, after: SlsState)
    decreases |runs|
  {
    if runs == [] then after == before
    else exists mid :: (mid == before || Writes(before, runs[0], mid)) && WritesAll(mid, runs[1..], after)
  }

  /** However many cabinets are added, the file keeps the node IDs of compute nodes unique and the
      subnets of the cabinet networks apart. */
  lemma {:induction false} EveryFileIsSound(before: SlsState, runs: seq<Arguments>, after: SlsState)
    requires GoodNetworks(before.networks) && WritesAll(before, runs, after)
    ensures GoodNetworks(after.networks)
    ensures after == before || NidsUnique(after.hardware)
    ensures NidsUnique(before.hardware) ==> NidsUnique(after.hardware)
    decreases |runs|
  {
    if runs != [] {
      var mid :| (mid == before || Writes(before, runs[0], mid)) && WritesAll(mid, runs[1..], after);
      if mid != before {
        DefaultIsGood(before.networks, HMN_MTN);
        DefaultIsGood(before.networks, NMN_MTN);
        GainKeepsGood(NetworkOr(before.networks, HMN_MTN), mid.networks[HMN_MTN], runs[0].cabinet, runs[0].vlanHmn);
        GainKeepsGood(NetworkOr(before.networks, NMN_MTN), mid.networks[NMN_MTN], runs[0].cabinet, runs[0].vlanNmn);
      }
      EveryFileIsSound(mid, runs[1..], after);
    }
  }
}
