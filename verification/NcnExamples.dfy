/** Concrete networks for which making room is not enough, or counts are not exact. */
module NcnExamples {
  import opened Outcomes
  import opened Ipam
  import opened NcnIps
  import opened NcnPreReq
  import opened NcnRuns
  import opened NcnSufficiency

  const NODE := Node("x3000c0s9b0n0", "ncn-w004", "x3000c0s9b0", false)
  const FMN_NODE := Node("x3000c0s9b0n0", "fmn001", "x3000c0s9b0", false)

  function NodeOf(isFmn: bool): Node {
    if isFmn then FMN_NODE else NODE
  }

  /** One reservation at 10, and a pool that starts at 12. */
  function Bootstrap(gateway: nat, name: string, aliases: seq<string>): Subnet {
    Subnet(Block(0, 256), None, gateway, Some(12), 200, map[name := Reservation(name, 10, "", aliases)])
  }

  function OnlyHmn(gateway: nat, aliases: seq<string>): Networks {
    map["HMN" := Network(Some(Bootstrap(gateway, "rgw-vip", aliases)), {})]
  }

  /** What the pre-req script counts for one node: the BMC, the node, and a virtual IP unless it finds one. */
  function Counted(aliases: seq<string>, isFmn: bool): nat {
    if isFmn && FMN_VIP !in aliases then 3 else 2
  }

  lemma OnlyHmnFacts(gateway: nat, aliases: seq<string>, isFmn: bool)
    ensures var networks := OnlyHmn(gateway, aliases);
            var counted := Counted(aliases, isFmn);
            && WellFormed(networks) && NewNodes(networks, [NodeOf(isFmn)]) && OthersClear(networks, 1, isFmn)
            && IpsNeeded("HMN", networks["HMN"].bootstrap.value, 1, isFmn) == counted
            && PlanFor("HMN", networks["HMN"].bootstrap.value, 1, isFmn)
               == Success(Plan(11 + counted, Above(10, counted)))
            && PlanAll(networks, 1, isFmn).Some?
            && Used(networks, "HMN")
  {
    var networks := OnlyHmn(gateway, aliases);
    var s := networks["HMN"].bootstrap.value;
    OneReservation(gateway, aliases);
    assert NETWORKS[4] == "HMN";
    assert "rgw-vip"[0] == 'r' && FMN_VIP[0] == 'f';
    assert s.reservations["rgw-vip"].aliases == aliases && s.reservations["rgw-vip"].name == "rgw-vip";
    assert MentionsVip(s) <==> FMN_VIP in aliases;
    assert PlanIn(networks, "HMN", 1, isFmn).Success?;
    assert forall n :: n in Bootstrapped(networks) ==> n == "HMN";
    NodeIsNew(gateway, aliases, isFmn);
  }

  lemma OneReservation(gateway: nat, aliases: seq<string>)
    ensures Ips(Bootstrap(gateway, "rgw-vip", aliases).reservations) == {10} && Greatest({10}) == 10
  {
    var reservations := Bootstrap(gateway, "rgw-vip", aliases).reservations;
    assert "rgw-vip" in reservations && reservations["rgw-vip"].ip == 10;
  }

  lemma OneValue(key: string, r: Reservation)
    ensures map[key := r].Values == {r}
  {
    assert key in map[key := r];
  }

  lemma NodeIsNew(gateway: nat, aliases: seq<string>, isFmn: bool)
    ensures NewNodes(OnlyHmn(gateway, aliases), [NodeOf(isFmn)])
  {
    var n, node := OnlyHmn(gateway, aliases)["HMN"], NodeOf(isFmn);
    assert node.ncnAlias[3] != FMN_VIP[3] || node.ncnAlias[0] != FMN_VIP[0];
    assert node.ncnAlias[0] != 'x' && node.bmcXname[0] == 'x' && FMN_VIP[0] == 'f' && "rgw-vip"[0] == 'r';
    assert node.ncnAlias[0] != 'r';
    assert AllReservations(n) == {Reservation("rgw-vip", 10, "", aliases)} by {
      OneValue("rgw-vip", Reservation("rgw-vip", 10, "", aliases));
    }
    assert !NetworkKnows(n, node);
  }

  /** The gateway at 11: the pool moves to 14, a fabric manager wants 12 to 14. */
  lemma GatewayAboveExample(check: Checks)
    ensures AddNodes(PreReq(OnlyHmn(11, []), 1, true, {"HMN"}), [FMN_NODE], true, {}, check).Failure?
  {
    var networks := OnlyHmn(11, []);
    OnlyHmnFacts(11, [], true);
    assert FMN_VIP !in networks["HMN"].bootstrap.value.reservations by {
      assert "rgw-vip"[0] == 'r' && FMN_VIP[0] == 'f';
    }
    GatewayAboveBreaksRuns(networks, [FMN_NODE], true, check, {"HMN"}, "HMN");
  }

  /** The alias fmn-vip on another reservation: two addresses are counted, three are taken. */
  lemma AliasExample(check: Checks)
    ensures AddNodes(PreReq(OnlyHmn(1, [FMN_VIP]), 1, true, {"HMN"}), [FMN_NODE], true, {}, check).Failure?
  {
    var networks := OnlyHmn(1, [FMN_VIP]);
    OnlyHmnFacts(1, [FMN_VIP], true);
    var s := networks["HMN"].bootstrap.value;
    assert "rgw-vip"[0] == 'r' && FMN_VIP[0] == 'f';
    assert FMN_VIP in s.reservations["rgw-vip"].aliases;
    assert !VipPlanned(networks, "HMN", true);
    AliasBreaksRuns(networks, [FMN_NODE], true, check, {"HMN"}, "HMN");
  }

  /** The PUT that moves the pool to 14 gets lost: a fabric manager wants 11 to 13. */
  lemma LostPutExample(check: Checks)
    ensures AddNodes(PreReq(OnlyHmn(1, []), 1, true, {}), [FMN_NODE], true, {}, check).Failure?
  {
    var networks := OnlyHmn(1, []);
    OnlyHmnFacts(1, [], true);
    assert FMN_VIP !in networks["HMN"].bootstrap.value.reservations by {
      assert "rgw-vip"[0] == 'r' && FMN_VIP[0] == 'f';
    }
    LostPutBreaksRuns(networks, [FMN_NODE], true, check, {}, "HMN");
  }

  lemma EnoughFacts(isFmn: bool)
    ensures var networks := OnlyHmn(1, []);
            forall name :: Used(networks, name) ==>
              && PoolInside(BootstrapOf(networks, name))
              && GatewayBelowReservations(BootstrapOf(networks, name))
              && VipPlanned(networks, name, isFmn)
  {
    var networks := OnlyHmn(1, []);
    OnlyHmnFacts(1, [], isFmn);
    var s := networks["HMN"].bootstrap.value;
    assert s.reservations["rgw-vip"].ip == 10;
    assert GatewayBelowReservations(s);
    assert "rgw-vip"[0] == 'r' && FMN_VIP[0] == 'f';
    assert !MentionsVip(s);
    assert forall name :: Used(networks, name) ==> name == "HMN";
  }

  /** The same network with a gateway below, no alias and no lost PUT: the run succeeds. */
  lemma EnoughExample(check: Checks)
    ensures AddNodes(PreReq(OnlyHmn(1, []), 1, true, {"HMN"}), [FMN_NODE], true, {}, check).Success?
  {
    OnlyHmnFacts(1, [], true);
    EnoughFacts(true);
    RoomSuffices(OnlyHmn(1, []), [FMN_NODE], true, check, {"HMN"});
  }

  /** An NMN that has its virtual IP and an HMN that has none: one address too many is counted for the HMN. */
  lemma CountsExample()
    ensures var networks := map["NMN" := Network(Some(Bootstrap(1, FMN_VIP, [])), {}),
                                "HMN" := Network(Some(Bootstrap(1, "rgw-vip", [])), {})];
            && Demand(networks, "HMN", 1, true) == 2
            && IpsNeeded("HMN", BootstrapOf(networks, "HMN"), 1, true) == 3
  {
    assert "rgw-vip"[0] == 'r' && FMN_VIP[0] == 'f';
    var networks := map["NMN" := Network(Some(Bootstrap(1, FMN_VIP, [])), {}),
                        "HMN" := Network(Some(Bootstrap(1, "rgw-vip", [])), {})];
    assert HasVip(networks, "NMN") && !HasVip(networks, "HMN");
    assert !MentionsVip(BootstrapOf(networks, "HMN"));
  }

  /** As written, the check stops the first ordinary node; read as its comment has it, the same run succeeds. */
  lemma AsWrittenExample(addresses: Equality)
    ensures var ready := PreReq(OnlyHmn(1, []), 1, false, {"HMN"});
            && AddNodes(ready, [NODE], false, {}, Checks(AsWritten, addresses)).Failure?
            && AddNodes(ready, [NODE], false, {}, Checks(FmnOnly, addresses)).Success?
  {
    OnlyHmnFacts(1, [], false);
    EnoughFacts(false);
    RoomSuffices(OnlyHmn(1, []), [NODE], false, Checks(FmnOnly, addresses), {"HMN"});
    PreReqKeepsRest(OnlyHmn(1, []), [NODE], false, {"HMN"});
    UnsoundRunsFail(PreReq(OnlyHmn(1, []), 1, false, {"HMN"}), [NODE], false, {}, Checks(AsWritten, addresses));
  }
}
