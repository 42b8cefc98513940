/**
  Runs of allocate-ips that go all the way: when one succeeds, which addresses it takes, and what a
  whole series of them needs.
 */
module NcnRuns {
  import opened Outcomes
  import opened Ipam
  import opened NcnIps
  import opened NcnPreReq
  import opened NcnEffects
  import IpamRuns
  import NcnVipCheck

  // ---------------------------------------------------------------------------------------------
  // Runs of allocate-ips that go all the way
  // ---------------------------------------------------------------------------------------------

  ghost function AddNode(networks: Networks, node: Node, isFmn: bool, allowed: set<string>,
                         check: Checks): Result<Networks, NcnError> {
    var c :- AllocateNcn(networks, node, isFmn, allowed, check);
    Success(PutEntries(c.local, networks, c.entries, node, c.bmcIp, |c.entries|))
  }

  ghost function AddNodes(networks: Networks, nodes: seq<Node>, isFmn: bool,
                          allowed: set<string>, check: Checks): Result<Networks, NcnError>
    decreases |nodes|
  {
    if nodes == [] then Success(networks)
    else
      var networks' :- AddNode(networks, nodes[0], isFmn, allowed, check);
      AddNodes(networks', nodes[1..], isFmn, allowed, check)
  }

  /** The networks a node gets addresses in. */
  predicate Used(networks: Networks, name: string) {
    name in NETWORKS && name in networks
  }

  function BootstrapOf(networks: Networks, name: string): Subnet
    requires name in networks && networks[name].bootstrap.Some?
  {
    networks[name].bootstrap.value
  }

  /** How many addresses `count` runs take in network `name`. */
  function Demand(networks: Networks, name: string, count: nat, isFmn: bool): nat {
    (if name == "HMN" then 2 * count else count) + if count > 0 && GetsVip(networks, name, isFmn) then 1 else 0
  }

  /** How many of the next addresses may not lie in the pool. In a network that may use the pool it is none, but for the
      HMN, where those up to the last BMC's may not. */
  function Static(networks: Networks, name: string, count: nat, isFmn: bool, allowed: set<string>): nat {
    if name !in allowed then Demand(networks, name, count, isFmn)
    else if name != "HMN" || count == 0 then 0
    else if count == 1 then 1
    else Demand(networks, name, count, isFmn) - 1
  }

  /** The `count` addresses after the highest one in use can be given out, the first `below` of them below the pool. */
  ghost predicate Room(s: Subnet, count: nat, below: nat) {
    && (count > 0 ==> s.SearchBlock().Usable(Highest(s) + 1) && s.SearchBlock().Usable(Highest(s) + count))
    && (below > 0 && s.dhcpStart.Some? ==> Highest(s) + below < s.dhcpStart.value)
  }

  /** The network has the room for `count` runs. */
  ghost predicate RoomAt(networks: Networks, name: string, count: nat, isFmn: bool, allowed: set<string>)
    requires name in networks && networks[name].bootstrap.Some?
  {
    Room(BootstrapOf(networks, name), Demand(networks, name, count, isFmn),
         Static(networks, name, count, isFmn, allowed))
  }

  ghost predicate RoomEverywhere(networks: Networks, count: nat, isFmn: bool, allowed: set<string>) {
    forall name :: Used(networks, name) && networks[name].bootstrap.Some? ==>
      RoomAt(networks, name, count, isFmn, allowed)
  }

  /** The shape of SLS that the scripts take for granted. */
  ghost predicate WellFormed(networks: Networks) {
    && "HMN" in networks
    && forall name :: Used(networks, name) ==>
         && networks[name].bootstrap.Some?
         && BootstrapOf(networks, name).reservations != map[]
  }

  predicate KnowsNode(networks: Networks, node: Node) {
    exists name :: name in networks && NetworkKnows(networks[name], node)
  }

  predicate NetworkKnows(n: Network, node: Node) {
    || (exists r :: r in AllReservations(n) && (r.name == node.ncnAlias || r.name == node.bmcXname))
    || (n.bootstrap.Some?
        && (node.ncnAlias in n.bootstrap.value.reservations || node.bmcXname in n.bootstrap.value.reservations))
  }

  ghost predicate NewNodes(networks: Networks, nodes: seq<Node>) {
    && (forall node :: node in nodes ==> GoodNames(node) && !KnowsNode(networks, node))
    && forall i, j :: 0 <= i < j < |nodes| ==>
         {nodes[i].ncnAlias, nodes[i].bmcXname} !! {nodes[j].ncnAlias, nodes[j].bmcXname}
  }

  /** No other subnet of a network reserves an address that will be given out. */
  ghost predicate OthersClear(networks: Networks, count: nat, isFmn: bool) {
    forall name, r :: Used(networks, name) && networks[name].bootstrap.Some? && r in networks[name].others ==>
      r.ip !in Above(Highest(BootstrapOf(networks, name)), Demand(networks, name, count, isFmn))
  }

  /** The check as its comment describes it, or a run for which that makes no difference. */
  predicate SoundCheck(isFmn: bool, check: Checks) {
    isFmn || check.vips.FmnOnly?
  }

  // ---------------------------------------------------------------------------------------------
  // One run
  // ---------------------------------------------------------------------------------------------

  lemma WithBmcFacts(networks: Networks, node: Node, name: string)
    requires WellFormed(networks) && GoodNames(node) && !KnowsNode(networks, node) && Used(networks, name)
    requires AllocateIn(networks, "HMN", {}, false).Success?
    ensures var withBmc := WithBmc(networks, node, AllocateIn(networks, "HMN", {}, false).value);
            var s, t := BootstrapOf(networks, name), BootstrapOf(withBmc, name);
            && withBmc.Keys == networks.Keys
            && HasVip(withBmc, name) == HasVip(networks, name)
            && t == s.(reservations := t.reservations)
            && t.reservations != map[]
            && Highest(t) == Highest(s) + if name == "HMN" then 1 else 0
  {
    var bmcIp := AllocateIn(networks, "HMN", {}, false).value;
    assert NetworkKnows(networks["HMN"], node) ==> KnowsNode(networks, node);
    WithReservationIps(BootstrapOf(networks, "HMN"), BmcReservation(node, bmcIp));
    assert BmcReservation(node, bmcIp).name in WithReservation(BootstrapOf(networks, "HMN"),
                                                               BmcReservation(node, bmcIp)).reservations;
  }

  lemma GrantingIff(networks: Networks, name: string, allowed: set<string>, vip: bool)
    requires name in networks && networks[name].bootstrap.Some? && BootstrapOf(networks, name).reservations != map[]
    ensures var s := BootstrapOf(networks, name);
            var ip := Highest(s) + Skip(vip);
            && (Granting(networks, allowed, name, vip) <==> Free(s, ip, name in allowed))
            && (Granting(networks, allowed, name, vip) ==> AllocateIn(networks, name, allowed, vip) == Success(ip))
  {
  }

  ghost predicate BmcAndAllGranted(networks: Networks, node: Node, isFmn: bool, allowed: set<string>) {
    && AllocateIn(networks, "HMN", {}, false).Success?
    && AllGranted(WithBmc(networks, node, AllocateIn(networks, "HMN", {}, false).value), NETWORKS, isFmn, allowed,
                  false)
  }

  lemma VipWithBmc(networks: Networks, node: Node, isFmn: bool, name: string)
    requires WellFormed(networks) && GoodNames(node) && !KnowsNode(networks, node) && Used(networks, name)
    requires AllocateIn(networks, "HMN", {}, false).Success?
    ensures var withBmc := WithBmc(networks, node, AllocateIn(networks, "HMN", {}, false).value);
            VipInLoop(withBmc, NETWORKS, isFmn, false, name) <==> GetsVip(networks, name, isFmn)
  {
    var withBmc := WithBmc(networks, node, AllocateIn(networks, "HMN", {}, false).value);
    VipInLoopIs(withBmc, isFmn, name);
    WithBmcFacts(networks, node, name);
    assert "NMN" in NETWORKS by { assert NETWORKS[0] == "NMN"; }
    if "NMN" in networks {
      WithBmcFacts(networks, node, "NMN");
    }
  }

  lemma HmnIsFree(networks: Networks)
    requires WellFormed(networks) && AllocateIn(networks, "HMN", {}, false).Success?
    ensures Free(BootstrapOf(networks, "HMN"), Highest(BootstrapOf(networks, "HMN")) + 1, false)
  {
    assert NETWORKS[4] == "HMN";
    assert Used(networks, "HMN");
    GrantingIff(networks, "HMN", {}, false);
  }

  lemma GrantsWithBmc(networks: Networks, node: Node, name: string, allowed: set<string>) returns (t: Subnet)
    requires WellFormed(networks) && GoodNames(node) && !KnowsNode(networks, node) && Used(networks, name)
    requires AllocateIn(networks, "HMN", {}, false).Success?
    ensures var withBmc := WithBmc(networks, node, AllocateIn(networks, "HMN", {}, false).value);
            var s := BootstrapOf(networks, name);
            && t == s.(reservations := t.reservations)
            && Highest(t) == Highest(s) + (if name == "HMN" then 1 else 0)
            && (Granting(withBmc, allowed, name, false) <==> Free(t, Highest(t) + Skip(false), name in allowed))
            && (Granting(withBmc, allowed, name, true) <==> Free(t, Highest(t) + Skip(true), name in allowed))
  {
    var withBmc := WithBmc(networks, node, AllocateIn(networks, "HMN", {}, false).value);
    WithBmcFacts(networks, node, name);
    GrantingIff(withBmc, name, allowed, false);
    GrantingIff(withBmc, name, allowed, true);
    t := BootstrapOf(withBmc, name);
  }

  lemma BothGranted(networks: Networks, node: Node, name: string, allowed: set<string>, vip: bool)
    requires WellFormed(networks) && GoodNames(node) && !KnowsNode(networks, node) && Used(networks, name)
    requires AllocateIn(networks, "HMN", {}, false).Success?
    ensures var withBmc := WithBmc(networks, node, AllocateIn(networks, "HMN", {}, false).value);
            Room(BootstrapOf(networks, name), (if name == "HMN" then 2 else 1) + (if vip then 1 else 0),
                 OneRunStatic(name, allowed, vip)) <==>
              Granting(withBmc, allowed, name, false) && (vip ==> Granting(withBmc, allowed, name, true))
  {
    var t := GrantsWithBmc(networks, node, name, allowed);
    HmnIsFree(networks);
    RoomByHighest(BootstrapOf(networks, name), t, name, allowed, vip);
  }

  lemma GrantedIffRoomAt(networks: Networks, node: Node, isFmn: bool, allowed: set<string>, name: string)
    requires WellFormed(networks) && GoodNames(node) && !KnowsNode(networks, node) && Used(networks, name)
    requires AllocateIn(networks, "HMN", {}, false).Success?
    ensures var withBmc := WithBmc(networks, node, AllocateIn(networks, "HMN", {}, false).value);
            RoomAt(networks, name, 1, isFmn, allowed) <==>
              && Granting(withBmc, allowed, name, false)
              && (VipInLoop(withBmc, NETWORKS, isFmn, false, name) ==> Granting(withBmc, allowed, name, true))
  {
    VipWithBmc(networks, node, isFmn, name);
    OneRunTakes(networks, name, isFmn, allowed);
    BothGranted(networks, node, name, allowed, GetsVip(networks, name, isFmn));
  }

  /** What Static is for one run. */
  function OneRunStatic(name: string, allowed: set<string>, vip: bool): nat {
    if name !in allowed then (if name == "HMN" then 2 else 1) + (if vip then 1 else 0)
    else if name == "HMN" then 1 else 0
  }

  lemma OneRunTakes(networks: Networks, name: string, isFmn: bool, allowed: set<string>)
    ensures Demand(networks, name, 1, isFmn)
         == (if name == "HMN" then 2 else 1) + if GetsVip(networks, name, isFmn) then 1 else 0
    ensures Static(networks, name, 1, isFmn, allowed) == OneRunStatic(name, allowed, GetsVip(networks, name, isFmn))
  {
  }

  /** The address `ip` is usable, and outside the pool unless that does not matter. */
  ghost predicate Free(s: Subnet, ip: nat, inDhcp: bool) {
    s.SearchBlock().Usable(ip) && (s.dhcpStart.Some? && !inDhcp ==> ip < s.dhcpStart.value)
  }

  lemma RoomByHighest(s: Subnet, t: Subnet, name: string, allowed: set<string>, vip: bool)
    requires t == s.(reservations := t.reservations) && Highest(t) == Highest(s) + if name == "HMN" then 1 else 0
    requires name == "HMN" ==> Free(s, Highest(s) + 1, false)
    ensures Room(s, (if name == "HMN" then 2 else 1) + (if vip then 1 else 0), OneRunStatic(name, allowed, vip)) <==>
              && Free(t, Highest(t) + Skip(false), name in allowed)
              && (vip ==> Free(t, Highest(t) + Skip(true), name in allowed))
  {
  }

  /** Every address of one run is granted exactly when every network has the room. */
  lemma GrantedIffRoom(networks: Networks, node: Node, isFmn: bool, allowed: set<string>)
    requires WellFormed(networks) && GoodNames(node) && !KnowsNode(networks, node)
    ensures BmcAndAllGranted(networks, node, isFmn, allowed) <==> RoomEverywhere(networks, 1, isFmn, allowed)
  {
    assert NETWORKS[4] == "HMN";
    assert Used(networks, "HMN");
    GrantingIff(networks, "HMN", {}, false);
    if AllocateIn(networks, "HMN", {}, false).Success? {
      forall name | Used(networks, name)
        ensures var withBmc := WithBmc(networks, node, AllocateIn(networks, "HMN", {}, false).value);
                RoomAt(networks, name, 1, isFmn, allowed) <==>
                  && Granting(withBmc, allowed, name, false)
                  && (VipInLoop(withBmc, NETWORKS, isFmn, false, name) ==> Granting(withBmc, allowed, name, true))
      {
        GrantedIffRoomAt(networks, node, isFmn, allowed, name);
      }
      var withBmc := WithBmc(networks, node, AllocateIn(networks, "HMN", {}, false).value);
      assert forall name :: Used(networks, name) <==> name in NETWORKS && name in withBmc;
    } else {
      assert !RoomAt(networks, "HMN", 1, isFmn, allowed);
    }
  }

  /** The pieces of a run whose addresses have all been granted. */
  ghost predicate Chose(networks: Networks, node: Node, isFmn: bool, allowed: set<string>, bmcIp: nat, chosen: Chosen) {
    && AllocateIn(networks, "HMN", {}, false) == Success(bmcIp)
    && ChooseFor(WithBmc(networks, node, bmcIp), NETWORKS, isFmn, allowed, false) == Success(chosen)
  }

  /** Where an entry's address lies: right after the addresses in use and, on the HMN, the BMC's. */
  lemma EntryIps(networks: Networks, node: Node, isFmn: bool, allowed: set<string>, bmcIp: nat, chosen: Chosen)
    requires WellFormed(networks) && GoodNames(node) && !KnowsNode(networks, node)
    requires Chose(networks, node, isFmn, allowed, bmcIp, chosen)
    ensures bmcIp == Highest(BootstrapOf(networks, "HMN")) + 1
    ensures IpamRuns.VipsLast(chosen.entries)
    ensures forall name :: HasEntry(chosen.entries, name, false) <==> Used(networks, name)
    ensures forall name :: HasEntry(chosen.entries, name, true) <==> GetsVip(networks, name, isFmn)
    ensures forall e :: e in chosen.entries ==>
              && Used(networks, e.net)
              && e.ip == Highest(BootstrapOf(networks, e.net)) + (if e.net == "HMN" then 1 else 0) + Skip(e.vip)
  {
    var withBmc := WithBmc(networks, node, bmcIp);
    ChooseForAsks(withBmc, NETWORKS, isFmn, allowed, false);
    IpamRuns.ChosenAreGranted(withBmc, NETWORKS, isFmn, allowed, false);
    assert NETWORKS[4] == "HMN";
    assert Used(networks, "HMN");
    GrantingIff(networks, "HMN", {}, false);
    forall e | e in chosen.entries
      ensures Used(networks, e.net)
      ensures e.ip == Highest(BootstrapOf(networks, e.net)) + (if e.net == "HMN" then 1 else 0) + Skip(e.vip)
    {
      WithBmcFacts(networks, node, e.net);
      GrantingIff(withBmc, e.net, allowed, e.vip);
    }
    forall name
      ensures HasEntry(chosen.entries, name, true) <==> GetsVip(networks, name, isFmn)
    {
      if VipInLoop(withBmc, NETWORKS, isFmn, false, name) {
        OnlyTakersGetVip(withBmc, NETWORKS, isFmn, false, name);
      }
      assert NETWORKS[0] == "NMN";
      if Used(networks, name) {
        VipWithBmc(networks, node, isFmn, name);
      }
    }
  }

  lemma EntryIpsAbove(networks: Networks, node: Node, isFmn: bool, allowed: set<string>, bmcIp: nat, chosen: Chosen,
                      e: Entry)
    requires WellFormed(networks) && GoodNames(node) && !KnowsNode(networks, node)
    requires Chose(networks, node, isFmn, allowed, bmcIp, chosen) && e in chosen.entries
    ensures Used(networks, e.net)
    ensures e.ip in Above(Highest(BootstrapOf(networks, e.net)), Demand(networks, e.net, 1, isFmn))
  {
    EntryIps(networks, node, isFmn, allowed, bmcIp, chosen);
    assert e.vip ==> HasEntry(chosen.entries, e.net, true);
  }

  lemma NoClash(networks: Networks, node: Node, isFmn: bool, allowed: set<string>, check: Checks, bmcIp: nat,
                chosen: Chosen)
    requires WellFormed(networks) && GoodNames(node) && !KnowsNode(networks, node)
    requires OthersClear(networks, 1, isFmn) && Chose(networks, node, isFmn, allowed, bmcIp, chosen)
    ensures !AnyClash(WithoutBmc(networks, node), node, chosen, bmcIp, isFmn, check)
  {
    var local := WithoutBmc(networks, node);
    EntryIps(networks, node, isFmn, allowed, bmcIp, chosen);
    forall name, r | name in local && r in AllReservations(local[name])
      ensures !Clashes(node, name, r, chosen, bmcIp, isFmn, check)
    {
      assert r in AllReservations(networks[name]);
      assert !NetworkKnows(networks[name], node);
      forall e | e in chosen.entries && e.net == name
        ensures e.ip != r.ip
      {
        EntryIpsAbove(networks, node, isFmn, allowed, bmcIp, chosen, e);
        InUseOrClear(networks, isFmn, name, r, e.ip);
      }
      if name == "HMN" {
        assert NETWORKS[4] == "HMN";
        InUseOrClear(networks, isFmn, name, r, bmcIp);
      }
    }
  }

  /** An address that will be given out is in no reservation of the network. */
  lemma InUseOrClear(networks: Networks, isFmn: bool, name: string, r: Reservation, ip: nat)
    requires WellFormed(networks) && OthersClear(networks, 1, isFmn) && Used(networks, name)
    requires r in AllReservations(networks[name])
    requires ip in Above(Highest(BootstrapOf(networks, name)), Demand(networks, name, 1, isFmn))
    ensures r.ip != ip
  {
    var s := BootstrapOf(networks, name);
    if r in s.reservations.Values {
      var key :| key in s.reservations && s.reservations[key] == r;
      assert r.ip in Existing(s);
    }
  }

  lemma NoVipKeyError(networks: Networks, node: Node, isFmn: bool, allowed: set<string>, check: Checks, bmcIp: nat,
                      chosen: Chosen)
    requires WellFormed(networks) && GoodNames(node) && !KnowsNode(networks, node)
    requires SoundCheck(isFmn, check) && Chose(networks, node, isFmn, allowed, bmcIp, chosen)
    ensures !VipKeyError(WithoutBmc(networks, node), chosen, isFmn, check)
  {
    var withBmc := WithBmc(networks, node, bmcIp);
    ChooseForAsks(withBmc, NETWORKS, isFmn, allowed, false);
    forall name | name in networks
      ensures !LacksVip(name, chosen, isFmn, check)
    {
      if HasEntry(chosen.entries, name, false) && ChecksVip(name, isFmn, chosen.vipSeen, check) {
        FlagUnset(withBmc, NETWORKS, allowed, false, name);
      }
    }
  }

  /** Once every address is granted, the checks pass. */
  lemma ChosenIsAllocated(networks: Networks, node: Node, isFmn: bool, allowed: set<string>, check: Checks,
                          bmcIp: nat, chosen: Chosen)
    requires WellFormed(networks) && GoodNames(node) && !KnowsNode(networks, node)
    requires SoundCheck(isFmn, check) && OthersClear(networks, 1, isFmn)
    requires Chose(networks, node, isFmn, allowed, bmcIp, chosen)
    ensures AllocateNcn(networks, node, isFmn, allowed, check)
         == Success(Choice(bmcIp, chosen.entries, WithoutBmc(networks, node)))
  {
    NoClash(networks, node, isFmn, allowed, check, bmcIp, chosen);
    NoVipKeyError(networks, node, isFmn, allowed, check, bmcIp, chosen);
  }

  lemma ChoosesIffGranted(networks: Networks, node: Node, isFmn: bool, allowed: set<string>)
    ensures (exists bmcIp: nat, chosen: Chosen :: Chose(networks, node, isFmn, allowed, bmcIp, chosen)) <==>
                BmcAndAllGranted(networks, node, isFmn, allowed)
  {
    if AllocateIn(networks, "HMN", {}, false).Success? {
      var bmcIp := AllocateIn(networks, "HMN", {}, false).value;
      var r := ChooseFor(WithBmc(networks, node, bmcIp), NETWORKS, isFmn, allowed, false);
      ChooseForSucceedsIff(WithBmc(networks, node, bmcIp), NETWORKS, isFmn, allowed, false);
      if r.Success? {
        assert Chose(networks, node, isFmn, allowed, bmcIp, r.value);
      }
    }
  }

  lemma AllocatedChose(networks: Networks, node: Node, isFmn: bool, allowed: set<string>, check: Checks)
    requires AllocateNcn(networks, node, isFmn, allowed, check).Success?
    ensures exists bmcIp: nat, chosen: Chosen :: Chose(networks, node, isFmn, allowed, bmcIp, chosen)
  {
    var bmcIp := AllocateIn(networks, "HMN", {}, false).value;
    var chosen := ChooseFor(WithBmc(networks, node, bmcIp), NETWORKS, isFmn, allowed, false).value;
    assert Chose(networks, node, isFmn, allowed, bmcIp, chosen);
  }

  /** As written, the check stops every run for an ordinary node: the HMN always reserves something. */
  lemma UnsoundCheckFails(networks: Networks, node: Node, isFmn: bool, allowed: set<string>, check: Checks)
    requires WellFormed(networks) && !KnowsNode(networks, node) && !SoundCheck(isFmn, check)
    ensures AllocateNcn(networks, node, isFmn, allowed, check).Failure?
  {
    HmnReserves(networks, node);
    NcnVipCheck.AsWrittenStopsOrdinaryNodesIff(networks, node, allowed, check.addresses);
  }

  lemma HmnReserves(networks: Networks, node: Node)
    requires WellFormed(networks) && !KnowsNode(networks, node)
    ensures networks["HMN"].bootstrap.Some? && NcnVipCheck.VipNetworksReserve(networks, node)
  {
    assert NETWORKS[4] == "HMN";
    assert Used(networks, "HMN");
    WithoutBmcIsSame(networks, node);
    var s := BootstrapOf(networks, "HMN");
    var key :| key in s.reservations;
    assert s.reservations[key] in AllReservations(networks["HMN"]);
    assert TakesVip("HMN");
  }

  /** One run succeeds exactly when the check lets it and every network has the room for it. */
  lemma AddNodeSucceedsIff(networks: Networks, node: Node, isFmn: bool, allowed: set<string>, check: Checks)
    requires WellFormed(networks) && GoodNames(node) && !KnowsNode(networks, node)
    requires OthersClear(networks, 1, isFmn)
    ensures AddNode(networks, node, isFmn, allowed, check).Success? <==>
                SoundCheck(isFmn, check) && RoomEverywhere(networks, 1, isFmn, allowed)
    ensures AddNode(networks, node, isFmn, allowed, check).Success? ==>
              exists bmcIp: nat, chosen: Chosen ::
                && AllocateNcn(networks, node, isFmn, allowed, check)
                  == Success(Choice(bmcIp, chosen.entries, WithoutBmc(networks, node)))
                && Chose(networks, node, isFmn, allowed, bmcIp, chosen)
  {
    GrantedIffRoom(networks, node, isFmn, allowed);
    ChoosesIffGranted(networks, node, isFmn, allowed);
    if !SoundCheck(isFmn, check) {
      UnsoundCheckFails(networks, node, isFmn, allowed, check);
    } else if bmcIp: nat, chosen: Chosen :| Chose(networks, node, isFmn, allowed, bmcIp, chosen) {
      ChosenIsAllocated(networks, node, isFmn, allowed, check, bmcIp, chosen);
    } else if AllocateNcn(networks, node, isFmn, allowed, check).Success? {
      AllocatedChose(networks, node, isFmn, allowed, check);
    }
  }

  // ---------------------------------------------------------------------------------------------
  // What a run leaves behind
  // ---------------------------------------------------------------------------------------------

  /** `after` is `before` with exactly the next `count` addresses reserved as well. */
  ghost predicate Grown(before: Subnet, after: Subnet, count: nat) {
    && after == before.(reservations := after.reservations)
    && after.reservations.Keys >= before.reservations.Keys
    && Ips(after.reservations) == Ips(before.reservations) + Above(Highest(before), count)
  }

  lemma GrownHighest(before: Subnet, after: Subnet, count: nat)
    requires Grown(before, after, count)
    ensures Highest(after) == Highest(before) + count
  {
    var top := Highest(before) + count;
    assert count > 0 ==> top in Above(Highest(before), count);
    assert Existing(after) == Existing(before) + Above(Highest(before), count);
    GreatestIs(Existing(after), top);
  }

  /** Every addition is one of the next addresses, under one of the node's names. */
  lemma AdditionIsNext(networks: Networks, node: Node, isFmn: bool, allowed: set<string>, bmcIp: nat, chosen: Chosen,
                       name: string, key: string)
    requires WellFormed(networks) && GoodNames(node) && !KnowsNode(networks, node) && Used(networks, name)
    requires Chose(networks, node, isFmn, allowed, bmcIp, chosen) && key in Additions(node, chosen.entries, bmcIp, name)
    ensures var r := Additions(node, chosen.entries, bmcIp, name)[key];
            && r.ip in Above(Highest(BootstrapOf(networks, name)), Demand(networks, name, 1, isFmn))
            && r.name == key
            && key in {node.ncnAlias, node.bmcXname, FMN_VIP}
            && (key == FMN_VIP ==> GetsVip(networks, name, isFmn))
  {
    EntryIps(networks, node, isFmn, allowed, bmcIp, chosen);
    AdditionsAre(node, chosen.entries, bmcIp, name);
    var r := Additions(node, chosen.entries, bmcIp, name)[key];
    assert IsAddition(node, chosen.entries, bmcIp, name, key, r);
    if !(name == "HMN" && key == node.bmcXname && r == BmcReservation(node, bmcIp)) {
      var e :| e in chosen.entries && e.net == name && key == EntryName(node, e) && r == EntryReservation(node, e);
      EntryIpsAbove(networks, node, isFmn, allowed, bmcIp, chosen, e);
      assert HasEntry(chosen.entries, name, e.vip);
    }
  }

  lemma EntryOf(networks: Networks, node: Node, isFmn: bool, allowed: set<string>, bmcIp: nat, chosen: Chosen,
                name: string, vip: bool)
    returns (e: Entry)
    requires WellFormed(networks) && GoodNames(node) && !KnowsNode(networks, node) && Used(networks, name)
    requires Chose(networks, node, isFmn, allowed, bmcIp, chosen)
    requires vip ==> GetsVip(networks, name, isFmn)
    ensures IpamRuns.VipsLast(chosen.entries)
    ensures e in chosen.entries && e.net == name && e.vip == vip
    ensures e.ip == Highest(BootstrapOf(networks, name)) + (if name == "HMN" then 1 else 0) + Skip(vip)
    ensures name == "HMN" ==> bmcIp == Highest(BootstrapOf(networks, name)) + 1
  {
    EntryIps(networks, node, isFmn, allowed, bmcIp, chosen);
    assert HasEntry(chosen.entries, name, vip);
    e :| e in chosen.entries && e.net == name && e.vip == vip;
  }

  lemma AdditionOf(node: Node, entries: seq<Entry>, bmcIp: nat, e: Entry)
    requires GoodNames(node) && IpamRuns.VipsLast(entries) && e in entries
    ensures var more := Additions(node, entries, bmcIp, e.net);
            && e.ip in Ips(more)
            && EntryName(node, e) in more
            && (e.net == "HMN" ==> bmcIp in Ips(more))
  {
    AdditionsAre(node, entries, bmcIp, e.net);
    var more := Additions(node, entries, bmcIp, e.net);
    assert more[EntryName(node, e)].ip == e.ip;
    assert HasNet(entries, e.net);
    assert e.net == "HMN" ==> more[node.bmcXname].ip == bmcIp;
  }

  lemma Covers(ips: set<nat>, top: nat, plain: nat, hmn: bool, vip: bool)
    requires plain == top + if hmn then 2 else 1
    requires plain in ips
    requires hmn ==> top + 1 in ips
    requires vip ==> plain + 1 in ips
    ensures Above(top, (if hmn then 2 else 1) + if vip then 1 else 0) <= ips
  {
  }

  /** The address of an entry, and on the HMN that of the BMC, is taken by an addition. */
  lemma EntryIsAdded(networks: Networks, node: Node, isFmn: bool, allowed: set<string>, bmcIp: nat, chosen: Chosen,
                     name: string, vip: bool, ip: nat)
    requires WellFormed(networks) && GoodNames(node) && !KnowsNode(networks, node) && Used(networks, name)
    requires Chose(networks, node, isFmn, allowed, bmcIp, chosen) && (vip ==> GetsVip(networks, name, isFmn))
    requires ip == Highest(BootstrapOf(networks, name)) + (if name == "HMN" then 1 else 0) + Skip(vip)
    ensures var more := Additions(node, chosen.entries, bmcIp, name);
            && ip in Ips(more)
            && (name == "HMN" ==> Highest(BootstrapOf(networks, name)) + 1 in Ips(more))
            && (vip ==> FMN_VIP in more)
  {
    var e := EntryOf(networks, node, isFmn, allowed, bmcIp, chosen, name, vip);
    AdditionOf(node, chosen.entries, bmcIp, e);
  }

  lemma NextAreIn(networks: Networks, name: string, isFmn: bool, ips: set<nat>, plain: nat)
    requires name in networks && networks[name].bootstrap.Some?
    requires var top := Highest(BootstrapOf(networks, name));
             && plain == top + (if name == "HMN" then 2 else 1)
             && plain in ips && (name == "HMN" ==> top + 1 in ips)
    requires GetsVip(networks, name, isFmn) ==> plain + 1 in ips
    ensures Above(Highest(BootstrapOf(networks, name)), Demand(networks, name, 1, isFmn)) <= ips
  {
    OneRunTakes(networks, name, isFmn, {});
    Covers(ips, Highest(BootstrapOf(networks, name)), plain, name == "HMN", GetsVip(networks, name, isFmn));
  }

  lemma VipIsAdded(networks: Networks, node: Node, isFmn: bool, allowed: set<string>, bmcIp: nat, chosen: Chosen,
                   name: string, ip: nat)
    requires WellFormed(networks) && GoodNames(node) && !KnowsNode(networks, node) && Used(networks, name)
    requires Chose(networks, node, isFmn, allowed, bmcIp, chosen)
    requires ip == Highest(BootstrapOf(networks, name)) + if name == "HMN" then 3 else 2
    ensures GetsVip(networks, name, isFmn) ==>
              ip in Ips(Additions(node, chosen.entries, bmcIp, name))
                  && FMN_VIP in Additions(node, chosen.entries, bmcIp, name)
  {
    if GetsVip(networks, name, isFmn) {
      EntryIsAdded(networks, node, isFmn, allowed, bmcIp, chosen, name, true, ip);
    }
  }

  /** Every next address is taken by an addition. */
  lemma NextAreAdditions(networks: Networks, node: Node, isFmn: bool, allowed: set<string>, bmcIp: nat,
                         chosen: Chosen, name: string)
    requires WellFormed(networks) && GoodNames(node) && !KnowsNode(networks, node) && Used(networks, name)
    requires Chose(networks, node, isFmn, allowed, bmcIp, chosen)
    ensures var more := Additions(node, chosen.entries, bmcIp, name);
            && Above(Highest(BootstrapOf(networks, name)), Demand(networks, name, 1, isFmn)) <= Ips(more)
            && (GetsVip(networks, name, isFmn) ==> FMN_VIP in more)
  {
    var plain := Highest(BootstrapOf(networks, name)) + if name == "HMN" then 2 else 1;
    EntryIsAdded(networks, node, isFmn, allowed, bmcIp, chosen, name, false, plain);
    VipIsAdded(networks, node, isFmn, allowed, bmcIp, chosen, name, plain + 1);
    NextAreIn(networks, name, isFmn, Ips(Additions(node, chosen.entries, bmcIp, name)), plain);
  }

  /** The addresses of the additions are the next ones, one after the other. */
  lemma AdditionIps(networks: Networks, node: Node, isFmn: bool, allowed: set<string>, bmcIp: nat, chosen: Chosen,
                    name: string)
    requires WellFormed(networks) && GoodNames(node) && !KnowsNode(networks, node) && Used(networks, name)
    requires Chose(networks, node, isFmn, allowed, bmcIp, chosen)
    ensures var more := Additions(node, chosen.entries, bmcIp, name);
            && Ips(more) == Above(Highest(BootstrapOf(networks, name)), Demand(networks, name, 1, isFmn))
            && more.Keys <= {node.ncnAlias, node.bmcXname, FMN_VIP}
            && (FMN_VIP in more <==> GetsVip(networks, name, isFmn))
            && forall key :: key in more ==> more[key].name == key
  {
    var more := Additions(node, chosen.entries, bmcIp, name);
    var top, count := Highest(BootstrapOf(networks, name)), Demand(networks, name, 1, isFmn);
    forall key | key in more
      ensures more[key].ip in Above(top, count) && key in {node.ncnAlias, node.bmcXname, FMN_VIP}
                  && more[key].name == key
      ensures key == FMN_VIP ==> GetsVip(networks, name, isFmn)
    {
      AdditionIsNext(networks, node, isFmn, allowed, bmcIp, chosen, name, key);
    }
    NextAreAdditions(networks, node, isFmn, allowed, bmcIp, chosen, name);
  }

  lemma IpsOfUnion(a: map<string, Reservation>, b: map<string, Reservation>)
    requires a.Keys !! b.Keys
    ensures Ips(a + b) == Ips(a) + Ips(b)
  {
    forall ip | ip in Ips(a) + Ips(b)
      ensures ip in Ips(a + b)
    {
      if ip in Ips(a) {
        var name :| name in a && a[name].ip == ip;
        assert (a + b)[name].ip == ip;
      } else {
        var name :| name in b && b[name].ip == ip;
        assert (a + b)[name].ip == ip;
      }
    }
  }

  /** No addition takes the place of a reservation: FMN_VIP is only added if new. */
  lemma AdditionsAreNew(networks: Networks, node: Node, isFmn: bool, allowed: set<string>, bmcIp: nat,
                        chosen: Chosen, name: string)
    requires WellFormed(networks) && GoodNames(node) && !KnowsNode(networks, node) && Used(networks, name)
    requires Chose(networks, node, isFmn, allowed, bmcIp, chosen)
    ensures BootstrapOf(networks, name).reservations.Keys !! Additions(node, chosen.entries, bmcIp, name).Keys
  {
    var more := Additions(node, chosen.entries, bmcIp, name);
    forall key | key in more
      ensures key !in BootstrapOf(networks, name).reservations
    {
      AdditionIsNext(networks, node, isFmn, allowed, bmcIp, chosen, name, key);
      assert !NetworkKnows(networks[name], node);
    }
  }

  lemma GrownByMore(s: Subnet, more: map<string, Reservation>, count: nat)
    requires s.reservations.Keys !! more.Keys && Ips(more) == Above(Highest(s), count)
    ensures Grown(s, Plus(s, more), count)
  {
    IpsOfUnion(s.reservations, more);
  }

  lemma GrownByAdditions(networks: Networks, node: Node, isFmn: bool, allowed: set<string>, bmcIp: nat,
                         chosen: Chosen, name: string)
    requires WellFormed(networks) && GoodNames(node) && !KnowsNode(networks, node) && Used(networks, name)
    requires Chose(networks, node, isFmn, allowed, bmcIp, chosen)
    ensures var s := BootstrapOf(networks, name);
            Grown(s, Plus(s, Additions(node, chosen.entries, bmcIp, name)), Demand(networks, name, 1, isFmn))
  {
    AdditionIps(networks, node, isFmn, allowed, bmcIp, chosen, name);
    AdditionsAreNew(networks, node, isFmn, allowed, bmcIp, chosen, name);
    GrownByMore(BootstrapOf(networks, name), Additions(node, chosen.entries, bmcIp, name),
                Demand(networks, name, 1, isFmn));
  }

  /** `after` is SLS after `count` runs from `before`. */
  ghost predicate AfterRuns(before: Networks, after: Networks, count: nat, isFmn: bool) {
    && after.Keys == before.Keys
    && (forall name :: name in before && !Used(before, name) ==> after[name] == before[name])
    && forall name :: Used(before, name) && before[name].bootstrap.Some? ==> RunsAt(before, after, name, count, isFmn)
  }

  ghost predicate RunsAt(before: Networks, after: Networks, name: string, count: nat, isFmn: bool)
    requires name in before && before[name].bootstrap.Some?
  {
    && name in after
    && after[name].bootstrap.Some?
    && after[name].others == before[name].others
    && Grown(BootstrapOf(before, name), BootstrapOf(after, name), Demand(before, name, count, isFmn))
    && (HasVip(after, name) <==> HasVip(before, name) || (count > 0 && GetsVip(before, name, isFmn)))
  }

  lemma WithoutBmcIsSame(networks: Networks, node: Node)
    requires WellFormed(networks) && !KnowsNode(networks, node) && Used(networks, "HMN")
    ensures WithoutBmc(networks, node) == networks
  {
    var s := BootstrapOf(networks, "HMN");
    assert !NetworkKnows(networks["HMN"], node);
    assert s.reservations - {node.bmcXname} == s.reservations;
    assert Without(s, node.bmcXname) == s;
    assert networks["HMN"].(bootstrap := Some(s)) == networks["HMN"];
  }

  /** SLS after one run, network by network. */
  ghost predicate Ran(before: Networks, after: Networks, node: Node, bmcIp: nat, chosen: Chosen) {
    && after.Keys == before.Keys
    && (forall name :: name in before && !Used(before, name) ==> after[name] == before[name])
    && forall name :: Used(before, name) && before[name].bootstrap.Some? ==>
         after[name]
           == before[name].(bootstrap := Some(Plus(BootstrapOf(before, name),
                                                   Additions(node, chosen.entries, bmcIp, name))))
  }

  lemma AddNodeRan(networks: Networks, node: Node, isFmn: bool, allowed: set<string>, check: Checks)
    requires WellFormed(networks) && GoodNames(node) && !KnowsNode(networks, node)
    requires OthersClear(networks, 1, isFmn)
    requires AddNode(networks, node, isFmn, allowed, check).Success?
    ensures exists bmcIp, chosen :: Chose(networks, node, isFmn, allowed, bmcIp, chosen)
                                    && Ran(networks, AddNode(networks, node, isFmn, allowed, check).value, node,
                                           bmcIp, chosen)
  {
    AddNodeSucceedsIff(networks, node, isFmn, allowed, check);
    var c := AllocateNcn(networks, node, isFmn, allowed, check).value;
    var chosen: Chosen :| chosen.entries == c.entries && Chose(networks, node, isFmn, allowed, c.bmcIp, chosen);
    assert NETWORKS[4] == "HMN";
    WithoutBmcIsSame(networks, node);
    RanIfPut(networks, node, isFmn, allowed, c.bmcIp, chosen);
  }

  lemma RanIfPut(networks: Networks, node: Node, isFmn: bool, allowed: set<string>, bmcIp: nat, chosen: Chosen)
    requires WellFormed(networks) && GoodNames(node) && !KnowsNode(networks, node)
    requires Chose(networks, node, isFmn, allowed, bmcIp, chosen)
    ensures Ran(networks, PutEntries(networks, networks, chosen.entries, node, bmcIp, |chosen.entries|), node, bmcIp,
                chosen)
  {
    EntryIps(networks, node, isFmn, allowed, bmcIp, chosen);
    PutEntriesKeepsOthers(networks, networks, node, chosen.entries, bmcIp);
    forall name | Used(networks, name)
      ensures PutEntries(networks, networks, chosen.entries, node, bmcIp, |chosen.entries|)[name]
           == networks[name].(bootstrap := Some(Plus(BootstrapOf(networks, name),
                                                     Additions(node, chosen.entries, bmcIp, name))))
    {
      PutEntriesAddsAll(networks, networks, node, chosen.entries, bmcIp, name);
      assert HasEntry(chosen.entries, name, false);
      assert HasNet(chosen.entries, name);
    }
  }

  lemma RanGrows(networks: Networks, after: Networks, node: Node, isFmn: bool, allowed: set<string>, bmcIp: nat,
                 chosen: Chosen)
    requires WellFormed(networks) && GoodNames(node) && !KnowsNode(networks, node)
    requires Chose(networks, node, isFmn, allowed, bmcIp, chosen) && Ran(networks, after, node, bmcIp, chosen)
    ensures AfterRuns(networks, after, 1, isFmn)
  {
    forall name | Used(networks, name)
      ensures Grown(BootstrapOf(networks, name), BootstrapOf(after, name), Demand(networks, name, 1, isFmn))
      ensures HasVip(after, name) <==> HasVip(networks, name) || GetsVip(networks, name, isFmn)
    {
      GrownByAdditions(networks, node, isFmn, allowed, bmcIp, chosen, name);
      AdditionIps(networks, node, isFmn, allowed, bmcIp, chosen, name);
    }
  }

  /** A run adds only the node's own names, so it does not make another new node known. */
  lemma RanKeepsNew(networks: Networks, after: Networks, node: Node, isFmn: bool, allowed: set<string>, bmcIp: nat,
                    chosen: Chosen, other: Node)
    requires WellFormed(networks) && GoodNames(node) && !KnowsNode(networks, node)
    requires Chose(networks, node, isFmn, allowed, bmcIp, chosen) && Ran(networks, after, node, bmcIp, chosen)
    requires GoodNames(other) && !KnowsNode(networks, other)
    requires {node.ncnAlias, node.bmcXname} !! {other.ncnAlias, other.bmcXname}
    ensures !KnowsNode(after, other)
  {
    forall name | name in after
      ensures !NetworkKnows(after[name], other)
    {
      assert !NetworkKnows(networks[name], other);
      if Used(networks, name) {
        AdditionIps(networks, node, isFmn, allowed, bmcIp, chosen, name);
        AdditionsKeepNew(networks[name], node, Additions(node, chosen.entries, bmcIp, name), other);
      }
    }
  }

  lemma AdditionsKeepNew(n: Network, node: Node, more: map<string, Reservation>, other: Node)
    requires n.bootstrap.Some? && !NetworkKnows(n, other) && GoodNames(other)
    requires more.Keys <= {node.ncnAlias, node.bmcXname, FMN_VIP} && forall key :: key in more ==> more[key].name == key
    requires {node.ncnAlias, node.bmcXname} !! {other.ncnAlias, other.bmcXname}
    ensures !NetworkKnows(n.(bootstrap := Some(Plus(n.bootstrap.value, more))), other)
  {
    var s := Plus(n.bootstrap.value, more);
    forall key | key in s.reservations
      ensures s.reservations[key].name != other.ncnAlias && s.reservations[key].name != other.bmcXname
    {
      if key !in more {
        assert n.bootstrap.value.reservations[key] in AllReservations(n);
      }
    }
  }

  // ---------------------------------------------------------------------------------------------
  // All the runs
  // ---------------------------------------------------------------------------------------------

  /** After one run of a kind, no further run of that kind gets a virtual IP. */
  lemma NoMoreVips(networks: Networks, after: Networks, name: string, isFmn: bool)
    requires AfterRuns(networks, after, 1, isFmn) && Used(networks, name) && networks[name].bootstrap.Some?
    ensures GetsVip(networks, name, isFmn) || HasVip(networks, name) ==> HasVip(after, name)
  {
    assert RunsAt(networks, after, name, 1, isFmn);
  }

  lemma VipsGone(networks: Networks, after: Networks, name: string, isFmn: bool)
    requires name in networks && (GetsVip(networks, name, isFmn) || HasVip(networks, name) ==> HasVip(after, name))
    requires HasVip(networks, "NMN") ==> HasVip(after, "NMN")
    ensures !GetsVip(after, name, isFmn)
  {
  }

  lemma DemandLeft(networks: Networks, after: Networks, name: string, count: nat, isFmn: bool)
    requires !GetsVip(after, name, isFmn)
    ensures Demand(networks, name, count + 1, isFmn)
         == Demand(networks, name, 1, isFmn) + Demand(after, name, count, isFmn)
  {
  }

  lemma DemandSplits(networks: Networks, after: Networks, name: string, count: nat, isFmn: bool)
    requires WellFormed(networks) && AfterRuns(networks, after, 1, isFmn) && Used(networks, name)
    ensures Demand(networks, name, count + 1, isFmn)
         == Demand(networks, name, 1, isFmn) + Demand(after, name, count, isFmn)
    ensures !GetsVip(after, name, isFmn)
  {
    NoMoreVips(networks, after, name, isFmn);
    assert NETWORKS[0] == "NMN";
    if "NMN" in networks {
      NoMoreVips(networks, after, "NMN", isFmn);
    }
    VipsGone(networks, after, name, isFmn);
    DemandLeft(networks, after, name, count, isFmn);
  }

  lemma RoomSplits(before: Subnet, after: Subnet, first: nat, more: nat, below: nat, later: nat)
    requires Grown(before, after, first) && first > 0 && below <= first && later <= more
    ensures Room(before, first + more, if later > 0 then first + later else below) <==>
              Room(before, first, below) && Room(after, more, later)
  {
    GrownHighest(before, after, first);
  }

  lemma GrownTwice(a: Subnet, b: Subnet, c: Subnet, first: nat, more: nat)
    requires Grown(a, b, first) && Grown(b, c, more)
    ensures Grown(a, c, first + more)
  {
    GrownHighest(a, b, first);
    assert Above(Highest(a), first) + Above(Highest(b), more) == Above(Highest(a), first + more);
  }

  lemma AfterOneRun(networks: Networks, nodes: seq<Node>, isFmn: bool, allowed: set<string>, check: Checks)
    requires nodes != [] && WellFormed(networks) && NewNodes(networks, nodes)
    requires OthersClear(networks, 1, isFmn)
    requires AddNode(networks, nodes[0], isFmn, allowed, check).Success?
    ensures var after := AddNode(networks, nodes[0], isFmn, allowed, check).value;
            AfterRuns(networks, after, 1, isFmn) && WellFormed(after) && NewNodes(after, nodes[1..])
  {
    var node := nodes[0];
    assert node in nodes;
    var after := AddNode(networks, node, isFmn, allowed, check).value;
    AddNodeRan(networks, node, isFmn, allowed, check);
    var bmcIp: nat, chosen: Chosen :| Chose(networks, node, isFmn, allowed, bmcIp, chosen)
        && Ran(networks, after, node, bmcIp, chosen);
    RanGrows(networks, after, node, isFmn, allowed, bmcIp, chosen);
    AfterIsWellFormed(networks, after, isFmn);
    RestIsNew(networks, after, nodes, isFmn, allowed, bmcIp, chosen);
  }

  lemma RestIsNew(networks: Networks, after: Networks, nodes: seq<Node>, isFmn: bool, allowed: set<string>,
                  bmcIp: nat, chosen: Chosen)
    requires nodes != [] && WellFormed(networks) && NewNodes(networks, nodes)
    requires Chose(networks, nodes[0], isFmn, allowed, bmcIp, chosen) && Ran(networks, after, nodes[0], bmcIp, chosen)
    ensures NewNodes(after, nodes[1..])
  {
    assert nodes[0] in nodes;
    forall other | other in nodes[1..]
      ensures GoodNames(other) && !KnowsNode(after, other)
    {
      var j :| 0 <= j < |nodes[1..]| && nodes[1..][j] == other;
      assert nodes[j + 1] == other;
      assert other in nodes;
      RanKeepsNew(networks, after, nodes[0], isFmn, allowed, bmcIp, chosen, other);
    }
  }

  lemma AfterIsWellFormed(networks: Networks, after: Networks, isFmn: bool)
    requires WellFormed(networks) && AfterRuns(networks, after, 1, isFmn)
    ensures WellFormed(after)
  {
    forall name | Used(after, name)
      ensures after[name].bootstrap.Some? && BootstrapOf(after, name).reservations != map[]
    {
      assert Used(networks, name);
      var key :| key in BootstrapOf(networks, name).reservations;
      assert key in BootstrapOf(after, name).reservations;
    }
  }

  lemma ClearSplits(networks: Networks, after: Networks, name: string, count: nat, isFmn: bool, ip: nat)
    requires name in networks && networks[name].bootstrap.Some? && RunsAt(networks, after, name, 1, isFmn)
    requires Demand(networks, name, count + 1, isFmn)
          == Demand(networks, name, 1, isFmn) + Demand(after, name, count, isFmn)
    requires ip !in Above(Highest(BootstrapOf(networks, name)), Demand(networks, name, count + 1, isFmn))
    ensures ip !in Above(Highest(BootstrapOf(after, name)), Demand(after, name, count, isFmn))
  {
    GrownHighest(BootstrapOf(networks, name), BootstrapOf(after, name), Demand(networks, name, 1, isFmn));
  }

  lemma OthersStayClear(networks: Networks, after: Networks, rest: nat, all: nat, isFmn: bool)
    requires WellFormed(networks) && AfterRuns(networks, after, 1, isFmn)
    requires all == rest + 1 && OthersClear(networks, all, isFmn)
    ensures OthersClear(after, rest, isFmn)
  {
    forall name, r | Used(after, name) && after[name].bootstrap.Some? && r in after[name].others
      ensures r.ip !in Above(Highest(BootstrapOf(after, name)), Demand(after, name, rest, isFmn))
    {
      assert Used(networks, name);
      assert RunsAt(networks, after, name, 1, isFmn);
      DemandSplits(networks, after, name, rest, isFmn);
      ClearSplits(networks, after, name, rest, isFmn, r.ip);
    }
  }

  lemma OneRunClear(networks: Networks, count: nat, isFmn: bool)
    requires WellFormed(networks) && OthersClear(networks, count, isFmn) && count > 0
    ensures OthersClear(networks, 1, isFmn)
  {
    forall name, r | Used(networks, name) && r in networks[name].others
      ensures r.ip !in Above(Highest(BootstrapOf(networks, name)), Demand(networks, name, 1, isFmn))
    {
      assert r.ip !in Above(Highest(BootstrapOf(networks, name)), Demand(networks, name, count, isFmn));
      assert Demand(networks, name, 1, isFmn) <= Demand(networks, name, count, isFmn);
    }
  }

  lemma StaticSplits(networks: Networks, after: Networks, name: string, count: nat, isFmn: bool, allowed: set<string>)
    requires Demand(networks, name, count + 1, isFmn)
          == Demand(networks, name, 1, isFmn) + Demand(after, name, count, isFmn)
    requires !GetsVip(after, name, isFmn)
    ensures var later := Static(after, name, count, isFmn, allowed);
            && Static(networks, name, 1, isFmn, allowed) <= Demand(networks, name, 1, isFmn)
            && later <= Demand(after, name, count, isFmn)
            && Static(networks, name, count + 1, isFmn, allowed)
               == if later > 0 then Demand(networks, name, 1, isFmn) + later
                  else Static(networks, name, 1, isFmn, allowed)
  {
  }

  lemma RoomSplitsAt(networks: Networks, after: Networks, name: string, count: nat, isFmn: bool, allowed: set<string>)
    requires name in networks && networks[name].bootstrap.Some? && RunsAt(networks, after, name, 1, isFmn)
    requires Demand(networks, name, count + 1, isFmn)
          == Demand(networks, name, 1, isFmn) + Demand(after, name, count, isFmn)
    requires !GetsVip(after, name, isFmn)
    ensures RoomAt(networks, name, count + 1, isFmn, allowed) <==>
              RoomAt(networks, name, 1, isFmn, allowed) && RoomAt(after, name, count, isFmn, allowed)
  {
    StaticSplits(networks, after, name, count, isFmn, allowed);
    RoomSplits(BootstrapOf(networks, name), BootstrapOf(after, name), Demand(networks, name, 1, isFmn),
               Demand(after, name, count, isFmn), Static(networks, name, 1, isFmn, allowed),
               Static(after, name, count, isFmn, allowed));
  }

  lemma RoomForAllSplits(networks: Networks, after: Networks, count: nat, isFmn: bool, allowed: set<string>)
    requires WellFormed(networks) && AfterRuns(networks, after, 1, isFmn)
    ensures RoomEverywhere(networks, count + 1, isFmn, allowed) <==>
                RoomEverywhere(networks, 1, isFmn, allowed) && RoomEverywhere(after, count, isFmn, allowed)
  {
    forall name | Used(networks, name)
      ensures RoomAt(networks, name, count + 1, isFmn, allowed) <==>
                && RoomAt(networks, name, 1, isFmn, allowed)
                && RoomAt(after, name, count, isFmn, allowed)
    {
      DemandSplits(networks, after, name, count, isFmn);
      RoomSplitsAt(networks, after, name, count, isFmn, allowed);
    }
    assert forall name :: Used(networks, name) <==> Used(after, name);
    assert forall name :: Used(networks, name) ==> networks[name].bootstrap.Some? && after[name].bootstrap.Some?;
  }

  lemma RunsComposeAt(a: Networks, b: Networks, c: Networks, name: string, count: nat, isFmn: bool)
    requires name in a && a[name].bootstrap.Some? && RunsAt(a, b, name, 1, isFmn) && RunsAt(b, c, name, count, isFmn)
    requires Demand(a, name, count + 1, isFmn) == Demand(a, name, 1, isFmn) + Demand(b, name, count, isFmn)
    requires !GetsVip(b, name, isFmn)
    ensures RunsAt(a, c, name, count + 1, isFmn)
  {
    GrownTwice(BootstrapOf(a, name), BootstrapOf(b, name), BootstrapOf(c, name), Demand(a, name, 1, isFmn),
               Demand(b, name, count, isFmn));
  }

  lemma RunsCompose(a: Networks, b: Networks, c: Networks, count: nat, isFmn: bool)
    requires WellFormed(a) && AfterRuns(a, b, 1, isFmn) && AfterRuns(b, c, count, isFmn)
    ensures AfterRuns(a, c, count + 1, isFmn)
  {
    forall name | Used(a, name) && a[name].bootstrap.Some?
      ensures RunsAt(a, c, name, count + 1, isFmn)
    {
      assert RunsAt(a, b, name, 1, isFmn);
      assert Used(b, name);
      DemandSplits(a, b, name, count, isFmn);
      RunsComposeAt(a, b, c, name, count, isFmn);
    }
  }

  lemma NoRuns(networks: Networks, isFmn: bool, allowed: set<string>)
    requires WellFormed(networks)
    ensures RoomEverywhere(networks, 0, isFmn, allowed) && AfterRuns(networks, networks, 0, isFmn)
  {
    forall name | Used(networks, name)
      ensures Grown(BootstrapOf(networks, name), BootstrapOf(networks, name), 0)
    {
      assert Ips(BootstrapOf(networks, name).reservations) + {} == Ips(BootstrapOf(networks, name).reservations);
    }
  }

  /** What the first run does, and where it leaves the others. */
  lemma FirstRun(networks: Networks, nodes: seq<Node>, isFmn: bool, allowed: set<string>, check: Checks)
    requires WellFormed(networks) && NewNodes(networks, nodes) && nodes != []
    requires SoundCheck(isFmn, check) && OthersClear(networks, |nodes|, isFmn)
    ensures var first := AddNode(networks, nodes[0], isFmn, allowed, check);
            && (first.Failure? ==> !RoomEverywhere(networks, |nodes|, isFmn, allowed))
            && (first.Success? ==>
                  && RoomEverywhere(networks, 1, isFmn, allowed) && AfterRuns(networks, first.value, 1, isFmn)
                  && WellFormed(first.value) && NewNodes(first.value, nodes[1..])
                  && OthersClear(first.value, |nodes| - 1, isFmn))
  {
    assert nodes[0] in nodes;
    OneRunClear(networks, |nodes|, isFmn);
    AddNodeSucceedsIff(networks, nodes[0], isFmn, allowed, check);
    RoomForOne(networks, |nodes|, isFmn, allowed);
    if AddNode(networks, nodes[0], isFmn, allowed, check).Success? {
      AfterOneRun(networks, nodes, isFmn, allowed, check);
      OthersStayClear(networks, AddNode(networks, nodes[0], isFmn, allowed, check).value, |nodes| - 1, |nodes|, isFmn);
    }
  }

  /** The same, without a word about how a run works. */
  lemma TakeFirst(networks: Networks, nodes: seq<Node>, isFmn: bool, allowed: set<string>, check: Checks)
    returns (first: Result<Networks, NcnError>, rest: seq<Node>)
    requires WellFormed(networks) && NewNodes(networks, nodes) && nodes != []
    requires SoundCheck(isFmn, check) && OthersClear(networks, |nodes|, isFmn)
    ensures first.Failure? ==>
              AddNodes(networks, nodes, isFmn, allowed, check).Failure?
                  && !RoomEverywhere(networks, |nodes|, isFmn, allowed)
    ensures first.Success? ==>
              && |rest| < |nodes| == |rest| + 1
              && AddNodes(networks, nodes, isFmn, allowed, check) == AddNodes(first.value, rest, isFmn, allowed, check)
              && RoomEverywhere(networks, 1, isFmn, allowed) && AfterRuns(networks, first.value, 1, isFmn)
              && WellFormed(first.value) && NewNodes(first.value, rest)
              && OthersClear(first.value, |rest|, isFmn)
  {
    first := AddNode(networks, nodes[0], isFmn, allowed, check);
    rest := nodes[1..];
    FirstRun(networks, nodes, isFmn, allowed, check);
  }

  /** The step of the induction: what holds of the rest holds of the whole. */
  lemma FirstAndRest(networks: Networks, after: Networks, later: Result<Networks, NcnError>, rest: nat, all: nat,
                     isFmn: bool, allowed: set<string>)
    requires WellFormed(networks) && RoomEverywhere(networks, 1, isFmn, allowed) && AfterRuns(networks, after, 1, isFmn)
    requires all == rest + 1
    requires later.Success? <==> RoomEverywhere(after, rest, isFmn, allowed)
    requires later.Success? ==> AfterRuns(after, later.value, rest, isFmn)
    ensures later.Success? <==> RoomEverywhere(networks, all, isFmn, allowed)
    ensures later.Success? ==> AfterRuns(networks, later.value, all, isFmn)
  {
    RoomForAllSplits(networks, after, rest, isFmn, allowed);
    if later.Success? {
      RunsCompose(networks, after, later.value, rest, isFmn);
    }
  }

  lemma {:induction false} RunsNeedRoom(networks: Networks, nodes: seq<Node>, isFmn: bool, allowed: set<string>,
                                        check: Checks)
    requires WellFormed(networks) && NewNodes(networks, nodes)
    requires SoundCheck(isFmn, check) && OthersClear(networks, |nodes|, isFmn)
    ensures AddNodes(networks, nodes, isFmn, allowed, check).Success? <==>
                RoomEverywhere(networks, |nodes|, isFmn, allowed)
    ensures AddNodes(networks, nodes, isFmn, allowed, check).Success? ==>
              AfterRuns(networks, AddNodes(networks, nodes, isFmn, allowed, check).value, |nodes|, isFmn)
    decreases |nodes|
  {
    if nodes == [] {
      NoRuns(networks, isFmn, allowed);
    } else {
      var first, rest := TakeFirst(networks, nodes, isFmn, allowed, check);
      if first.Success? {
        RunsNeedRoom(first.value, rest, isFmn, allowed, check);
        FirstAndRest(networks, first.value, AddNodes(first.value, rest, isFmn, allowed, check), |rest|, |nodes|,
                     isFmn, allowed);
      }
    }
  }

  lemma UnsoundRunsFail(networks: Networks, nodes: seq<Node>, isFmn: bool, allowed: set<string>, check: Checks)
    requires WellFormed(networks) && NewNodes(networks, nodes) && nodes != [] && !SoundCheck(isFmn, check)
    ensures AddNodes(networks, nodes, isFmn, allowed, check).Failure?
  {
    assert nodes[0] in nodes;
    UnsoundCheckFails(networks, nodes[0], isFmn, allowed, check);
  }

  /** The runs for all the nodes succeed exactly when the check lets them and every network has the room, and then
      each network reserves exactly the next addresses. */
  lemma AddNodesSucceedIff(networks: Networks, nodes: seq<Node>, isFmn: bool, allowed: set<string>, check: Checks)
    requires WellFormed(networks) && NewNodes(networks, nodes) && OthersClear(networks, |nodes|, isFmn)
    ensures AddNodes(networks, nodes, isFmn, allowed, check).Success?
       <==> (nodes == [] || SoundCheck(isFmn, check)) && RoomEverywhere(networks, |nodes|, isFmn, allowed)
    ensures AddNodes(networks, nodes, isFmn, allowed, check).Success? ==>
              AfterRuns(networks, AddNodes(networks, nodes, isFmn, allowed, check).value, |nodes|, isFmn)
  {
    if nodes == [] {
      NoRuns(networks, isFmn, allowed);
    } else if SoundCheck(isFmn, check) {
      RunsNeedRoom(networks, nodes, isFmn, allowed, check);
    } else {
      UnsoundRunsFail(networks, nodes, isFmn, allowed, check);
    }
  }

  lemma RoomForOne(networks: Networks, count: nat, isFmn: bool, allowed: set<string>)
    requires WellFormed(networks) && count > 0
    ensures RoomEverywhere(networks, count, isFmn, allowed) ==> RoomEverywhere(networks, 1, isFmn, allowed)
  {
    forall name | Used(networks, name) && RoomEverywhere(networks, count, isFmn, allowed)
      ensures RoomAt(networks, name, 1, isFmn, allowed)
    {
      assert RoomAt(networks, name, count, isFmn, allowed);
      assert 0 < Demand(networks, name, 1, isFmn) <= Demand(networks, name, count, isFmn);
    }
  }
}
