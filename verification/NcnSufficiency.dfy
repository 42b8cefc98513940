/**
  ncn_add_pre-req.py makes exactly the room that add_management_ncn.py later uses.
 */
module NcnSufficiency {
  import opened Outcomes
  import opened Ipam
  import opened NcnIps
  import opened NcnPreReq
  import opened NcnEffects
  import opened NcnRuns

  // ---------------------------------------------------------------------------------------------
  // The room that the other script makes
  // ---------------------------------------------------------------------------------------------

  /** The pool ends inside the block that the search looks at, hacked subnet or not, and the block does not start above
      everything in use. */
  ghost predicate PoolInside(s: Subnet) {
    && s.SearchBlock().base <= Highest(s)
    && (s.dhcpStart.Some? ==> s.dhcpStart.value <= s.dhcpEnd <= s.SearchBlock().Broadcast())
  }

  /** The script looks for the last reserved address only; the allocation also counts the gateway. */
  ghost predicate GatewayBelowReservations(s: Subnet) {
    exists name :: name in s.reservations && s.gateway <= s.reservations[name].ip
  }

  ghost predicate PoolMoved(name: string, s: Subnet, count: nat, addingFmns: bool) {
    && PlanFor(name, s, count, addingFmns).Success?
    && Some(PlanFor(name, s, count, addingFmns).value.dhcpStart) != s.dhcpStart
  }

  /** The script plans with a virtual IP for the network whenever a run gives it one. */
  ghost predicate VipPlanned(networks: Networks, name: string, isFmn: bool)
    requires name in networks && networks[name].bootstrap.Some?
  {
    GetsVip(networks, name, isFmn) ==> !MentionsVip(BootstrapOf(networks, name))
  }

  lemma HighestIsLast(s: Subnet)
    requires s.reservations != map[]
    ensures Ips(s.reservations) != {}
    ensures var last := Greatest(Ips(s.reservations));
            Highest(s) == (if s.gateway <= last then last else s.gateway)
            && (GatewayBelowReservations(s) <==> s.gateway <= last)
  {
    var first :| first in s.reservations;
    assert s.reservations[first].ip in Ips(s.reservations);
    var last := Greatest(Ips(s.reservations));
    GreatestIs(Existing(s), if s.gateway <= last then last else s.gateway);
    forall name | name in s.reservations
      ensures s.reservations[name].ip in Ips(s.reservations)
    {
    }
  }

  /** Moved or not, the new pool leaves room for the addresses the script counted. */
  lemma PlanMakesRoom(name: string, s: Subnet, count: nat, addingFmns: bool, needed: nat)
    requires PlanFor(name, s, count, addingFmns).Success? && PoolInside(s) && GatewayBelowReservations(s)
    requires needed <= IpsNeeded(name, s, count, addingFmns)
    ensures Room(s.(dhcpStart := Some(PlanFor(name, s, count, addingFmns).value.dhcpStart)), needed, needed)
  {
    HighestIsLast(s);
    HighestIsLast(s.(dhcpStart := Some(PlanFor(name, s, count, addingFmns).value.dhcpStart)));
  }

  /** Where the pool moved, the room is enough if and only if the gateway is not above the reservations. */
  lemma MovedPoolIsEnoughIff(name: string, s: Subnet, count: nat, addingFmns: bool)
    requires PoolMoved(name, s, count, addingFmns) && PoolInside(s)
    ensures Room(s.(dhcpStart := Some(PlanFor(name, s, count, addingFmns).value.dhcpStart)),
                 IpsNeeded(name, s, count, addingFmns), IpsNeeded(name, s, count, addingFmns))
       <==> GatewayBelowReservations(s)
  {
    var s' := s.(dhcpStart := Some(PlanFor(name, s, count, addingFmns).value.dhcpStart));
    HighestIsLast(s);
    HighestIsLast(s');
    if GatewayBelowReservations(s) {
      PlanMakesRoom(name, s, count, addingFmns, IpsNeeded(name, s, count, addingFmns));
    }
  }

  /** The start of the pool once the script has run: the planned one if its PUT has reached SLS. */
  ghost function StartAfter(networks: Networks, name: string, count: nat, isFmn: bool,
                            accepted: set<string>): Option<nat>
    requires name in networks && networks[name].bootstrap.Some?
  {
    var s := BootstrapOf(networks, name);
    if name in accepted && PlanFor(name, s, count, isFmn).Success? then
      Some(PlanFor(name, s, count, isFmn).value.dhcpStart)
    else s.dhcpStart
  }

  /** Everything except the start of the pools is as before. */
  lemma PreReqEffect(networks: Networks, count: nat, isFmn: bool, accepted: set<string>, name: string)
    requires PlanAll(networks, count, isFmn).Some? && name in networks
    ensures var after := PreReq(networks, count, isFmn, accepted);
            && after.Keys == networks.Keys
            && (networks[name].bootstrap.None? ==> after[name] == networks[name])
            && (networks[name].bootstrap.Some? ==>
                  && PlanFor(name, BootstrapOf(networks, name), count, isFmn).Success?
                  && after[name] == networks[name].(bootstrap := Some(BootstrapOf(networks, name).(
                                      dhcpStart := StartAfter(networks, name, count, isFmn, accepted)))))
  {
    var plan := PlanAll(networks, count, isFmn).value;
    if networks[name].bootstrap.Some? {
      assert name in Bootstrapped(networks);
      assert PlanIn(networks, name, count, isFmn) == Success(plan[name]);
    }
  }

  lemma SameHighest(s: Subnet, start: Option<nat>)
    ensures Highest(s.(dhcpStart := start)) == Highest(s)
  {
    GreatestIs(Existing(s.(dhcpStart := start)), Highest(s));
  }

  /** `b` is `a` up to the starts of the pools. */
  ghost predicate SameButStarts(a: Networks, b: Networks) {
    a.Keys == b.Keys && forall name :: name in a ==> SameButStart(a[name], b[name])
  }

  ghost predicate SameButStart(m: Network, n: Network) {
    && m.others == n.others
    && m.bootstrap.Some? == n.bootstrap.Some?
    && (m.bootstrap.Some? ==>
          && m.bootstrap.value.reservations == n.bootstrap.value.reservations
          && Highest(m.bootstrap.value) == Highest(n.bootstrap.value))
  }

  lemma PreReqIsSame(networks: Networks, count: nat, isFmn: bool, accepted: set<string>)
    requires PlanAll(networks, count, isFmn).Some?
    ensures SameButStarts(networks, PreReq(networks, count, isFmn, accepted))
  {
    forall name | name in networks
      ensures SameButStart(networks[name], PreReq(networks, count, isFmn, accepted)[name])
    {
      PreReqEffect(networks, count, isFmn, accepted, name);
      if networks[name].bootstrap.Some? {
        SameHighest(BootstrapOf(networks, name), StartAfter(networks, name, count, isFmn, accepted));
      }
    }
  }

  lemma SameKnows(a: Networks, b: Networks, node: Node)
    requires SameButStarts(a, b) && !KnowsNode(a, node)
    ensures !KnowsNode(b, node)
  {
    forall name | name in b
      ensures !NetworkKnows(b[name], node)
    {
      assert SameButStart(a[name], b[name]);
      assert !NetworkKnows(a[name], node);
      assert AllReservations(a[name]) == AllReservations(b[name]);
    }
  }

  lemma SameGetsVip(a: Networks, b: Networks, name: string, isFmn: bool)
    requires SameButStarts(a, b)
    ensures GetsVip(a, name, isFmn) == GetsVip(b, name, isFmn)
  {
    assert name in a ==> SameButStart(a[name], b[name]);
    assert "NMN" in a ==> SameButStart(a["NMN"], b["NMN"]);
  }

  /** The start of a pool plays no part in who is known, what is well formed, and who gets what. */
  lemma PreReqKeepsRest(networks: Networks, nodes: seq<Node>, isFmn: bool, accepted: set<string>)
    requires WellFormed(networks) && NewNodes(networks, nodes) && OthersClear(networks, |nodes|, isFmn)
    requires PlanAll(networks, |nodes|, isFmn).Some?
    ensures var after := PreReq(networks, |nodes|, isFmn, accepted);
            && WellFormed(after) && NewNodes(after, nodes) && OthersClear(after, |nodes|, isFmn)
            && forall name :: name in networks ==> GetsVip(after, name, isFmn) == GetsVip(networks, name, isFmn)
  {
    PreReqIsSame(networks, |nodes|, isFmn, accepted);
    SameKeepsRest(networks, PreReq(networks, |nodes|, isFmn, accepted), nodes, isFmn);
  }

  lemma SameKeepsRest(a: Networks, b: Networks, nodes: seq<Node>, isFmn: bool)
    requires SameButStarts(a, b)
    requires WellFormed(a) && NewNodes(a, nodes) && OthersClear(a, |nodes|, isFmn)
    ensures WellFormed(b) && NewNodes(b, nodes) && OthersClear(b, |nodes|, isFmn)
    ensures forall name :: name in a ==> GetsVip(b, name, isFmn) == GetsVip(a, name, isFmn)
  {
    forall node | node in nodes
      ensures !KnowsNode(b, node)
    {
      SameKnows(a, b, node);
    }
    forall name
      ensures GetsVip(b, name, isFmn) == GetsVip(a, name, isFmn)
    {
      SameGetsVip(a, b, name, isFmn);
    }
    SameWellFormed(a, b);
    SameClear(a, b, |nodes|, isFmn);
  }

  lemma SameWellFormed(a: Networks, b: Networks)
    requires SameButStarts(a, b) && WellFormed(a)
    ensures WellFormed(b)
  {
    forall name | Used(b, name)
      ensures b[name].bootstrap.Some? && BootstrapOf(b, name).reservations != map[]
    {
      assert Used(a, name);
      assert SameButStart(a[name], b[name]);
    }
  }

  lemma SameClear(a: Networks, b: Networks, count: nat, isFmn: bool)
    requires SameButStarts(a, b) && OthersClear(a, count, isFmn)
    ensures OthersClear(b, count, isFmn)
  {
    forall name, r | Used(b, name) && b[name].bootstrap.Some? && r in b[name].others
      ensures r.ip !in Above(Highest(BootstrapOf(b, name)), Demand(b, name, count, isFmn))
    {
      assert Used(a, name) && r in a[name].others by {
        assert SameButStart(a[name], b[name]);
      }
      assert r.ip !in Above(Highest(BootstrapOf(a, name)), Demand(a, name, count, isFmn));
      SameNext(a, b, name, count, isFmn);
    }
  }

  lemma SameNext(a: Networks, b: Networks, name: string, count: nat, isFmn: bool)
    requires SameButStarts(a, b) && name in a && a[name].bootstrap.Some?
    ensures name in b && b[name].bootstrap.Some?
    ensures Highest(BootstrapOf(b, name)) == Highest(BootstrapOf(a, name))
    ensures Demand(b, name, count, isFmn) == Demand(a, name, count, isFmn)
  {
    assert SameButStart(a[name], b[name]);
    SameGetsVip(a, b, name, isFmn);
  }

  // ---------------------------------------------------------------------------------------------
  // Exactly when the runs that follow succeed
  // ---------------------------------------------------------------------------------------------

  /** The addresses that the runs take end below the pool. */
  ghost predicate EndsBelowPool(networks: Networks, name: string, count: nat, isFmn: bool, accepted: set<string>)
    requires name in networks && networks[name].bootstrap.Some?
  {
    var start := StartAfter(networks, name, count, isFmn, accepted);
    start.Some? ==> Highest(BootstrapOf(networks, name)) + Demand(networks, name, count, isFmn) < start.value
  }

  lemma StartIsInside(networks: Networks, name: string, count: nat, isFmn: bool, accepted: set<string>)
    requires name in networks && networks[name].bootstrap.Some? && PoolInside(BootstrapOf(networks, name))
    requires PlanFor(name, BootstrapOf(networks, name), count, isFmn).Success?
    ensures var start := StartAfter(networks, name, count, isFmn, accepted);
            start.Some? && start.value <= BootstrapOf(networks, name).SearchBlock().Broadcast()
  {
  }

  /** Inside a subnet whose pool ends inside it, room is a matter of the start of the pool alone. */
  lemma RoomIsBelowPool(s: Subnet, start: nat, count: nat)
    requires s.SearchBlock().base <= Highest(s) && start <= s.SearchBlock().Broadcast() && count > 0
    ensures Room(s.(dhcpStart := Some(start)), count, count) <==> Highest(s) + count < start
  {
    SameHighest(s, Some(start));
    assert s.gateway in Existing(s);
  }

  /** The script has made room in a network if and only if the addresses of the runs end below its pool. */
  lemma ReadyRoomIff(networks: Networks, name: string, count: nat, isFmn: bool, accepted: set<string>)
    requires PlanAll(networks, count, isFmn).Some? && count > 0
    requires name in networks && networks[name].bootstrap.Some? && PoolInside(BootstrapOf(networks, name))
    ensures var ready := PreReq(networks, count, isFmn, accepted);
            && name in ready && ready[name].bootstrap.Some?
            && (RoomAt(ready, name, count, isFmn, {})
                <==> EndsBelowPool(networks, name, count, isFmn, accepted))
  {
    var ready := PreReq(networks, count, isFmn, accepted);
    PreReqEffect(networks, count, isFmn, accepted, name);
    PreReqIsSame(networks, count, isFmn, accepted);
    SameGetsVip(networks, ready, name, isFmn);
    StartIsInside(networks, name, count, isFmn, accepted);
    var start := StartAfter(networks, name, count, isFmn, accepted).value;
    RoomIsBelowPool(BootstrapOf(networks, name), start, Demand(networks, name, count, isFmn));
  }

  /** What the runs do after the pre-req script has run, whichever of its PUT requests have reached SLS: they all
      succeed if and only if the check lets them and in every network the addresses end below the pool. */
  lemma RunsSucceedIff(networks: Networks, nodes: seq<Node>, isFmn: bool, check: Checks, accepted: set<string>)
    requires WellFormed(networks) && NewNodes(networks, nodes) && OthersClear(networks, |nodes|, isFmn)
    requires PlanAll(networks, |nodes|, isFmn).Some? && nodes != []
    requires forall name :: Used(networks, name) ==> PoolInside(BootstrapOf(networks, name))
    ensures var ready := PreReq(networks, |nodes|, isFmn, accepted);
            var added := AddNodes(ready, nodes, isFmn, {}, check);
            && (added.Success? <==>
                  && SoundCheck(isFmn, check)
                  && forall name :: Used(networks, name) ==> EndsBelowPool(networks, name, |nodes|, isFmn, accepted))
            && (added.Success? ==> AfterRuns(ready, added.value, |nodes|, isFmn))
  {
    var ready := PreReq(networks, |nodes|, isFmn, accepted);
    PreReqKeepsRest(networks, nodes, isFmn, accepted);
    PreReqIsSame(networks, |nodes|, isFmn, accepted);
    assert forall name :: Used(ready, name) <==> Used(networks, name);
    forall name | Used(networks, name)
      ensures name in ready && ready[name].bootstrap.Some?
      ensures RoomAt(ready, name, |nodes|, isFmn, {})
         <==> EndsBelowPool(networks, name, |nodes|, isFmn, accepted)
    {
      ReadyRoomIff(networks, name, |nodes|, isFmn, accepted);
    }
    assert RoomEverywhere(ready, |nodes|, isFmn, {})
      <==> forall name :: Used(networks, name) ==> EndsBelowPool(networks, name, |nodes|, isFmn, accepted);
    AddNodesSucceedIff(ready, nodes, isFmn, {}, check);
  }

  /** What was planned for is enough where the gateway is not above the reservations, the PUT has reached SLS and
      the virtual IP has been counted. */
  lemma PlannedEndsBelowPool(networks: Networks, name: string, count: nat, isFmn: bool, accepted: set<string>)
    requires name in networks && networks[name].bootstrap.Some? && name in accepted
    requires PlanFor(name, BootstrapOf(networks, name), count, isFmn).Success?
    requires GatewayBelowReservations(BootstrapOf(networks, name)) && VipPlanned(networks, name, isFmn)
    ensures EndsBelowPool(networks, name, count, isFmn, accepted)
  {
    HighestIsLast(BootstrapOf(networks, name));
  }

  /** Sufficiency across the two scripts: once room has been made for the nodes, adding them one after the other
      never runs out of static addresses. */
  lemma RoomSuffices(networks: Networks, nodes: seq<Node>, isFmn: bool, check: Checks, accepted: set<string>)
    requires WellFormed(networks) && NewNodes(networks, nodes) && OthersClear(networks, |nodes|, isFmn)
    requires SoundCheck(isFmn, check)
    requires PlanAll(networks, |nodes|, isFmn).Some? && Bootstrapped(networks) <= accepted
    requires forall name :: Used(networks, name) ==>
               && PoolInside(BootstrapOf(networks, name))
               && GatewayBelowReservations(BootstrapOf(networks, name))
               && VipPlanned(networks, name, isFmn)
    ensures var ready := PreReq(networks, |nodes|, isFmn, accepted);
            var added := AddNodes(ready, nodes, isFmn, {}, check);
            added.Success? && AfterRuns(ready, added.value, |nodes|, isFmn)
  {
    if nodes == [] {
      PreReqKeepsRest(networks, nodes, isFmn, accepted);
      NoRuns(PreReq(networks, 0, isFmn, accepted), isFmn, {});
    } else {
      forall name | Used(networks, name)
        ensures EndsBelowPool(networks, name, |nodes|, isFmn, accepted)
      {
        PreReqEffect(networks, |nodes|, isFmn, accepted, name);
        PlannedEndsBelowPool(networks, name, |nodes|, isFmn, accepted);
      }
      RunsSucceedIff(networks, nodes, isFmn, check, accepted);
    }
  }

  // ---------------------------------------------------------------------------------------------
  // The three ways in which making room is not enough
  // ---------------------------------------------------------------------------------------------

  /** One network whose pool is reached is enough to fail. */
  lemma ReachingPoolBreaksRuns(networks: Networks, nodes: seq<Node>, isFmn: bool, check: Checks,
                               accepted: set<string>, name: string)
    requires WellFormed(networks) && NewNodes(networks, nodes) && OthersClear(networks, |nodes|, isFmn)
    requires PlanAll(networks, |nodes|, isFmn).Some? && nodes != []
    requires Used(networks, name) && !EndsBelowPool(networks, name, |nodes|, isFmn, accepted)
    ensures AddNodes(PreReq(networks, |nodes|, isFmn, accepted), nodes, isFmn, {}, check).Failure?
  {
    var ready := PreReq(networks, |nodes|, isFmn, accepted);
    PreReqKeepsRest(networks, nodes, isFmn, accepted);
    PreReqEffect(networks, |nodes|, isFmn, accepted, name);
    SameHighest(BootstrapOf(networks, name), StartAfter(networks, name, |nodes|, isFmn, accepted));
    assert Used(ready, name) && !RoomAt(ready, name, |nodes|, isFmn, {});
    AddNodesSucceedIff(ready, nodes, isFmn, {}, check);
  }

  /** A pool that moved is reached if and only if the runs go beyond what was counted from the last reservation:
      because of the gateway, or because more is taken than was counted. */
  lemma MovedPoolIsReachedIff(networks: Networks, name: string, count: nat, isFmn: bool, accepted: set<string>)
    requires name in networks && networks[name].bootstrap.Some?
    requires PoolMoved(name, BootstrapOf(networks, name), count, isFmn) && name in accepted
    ensures var s := BootstrapOf(networks, name);
            && Ips(s.reservations) != {}
            && (!EndsBelowPool(networks, name, count, isFmn, accepted)
                <==> Greatest(Ips(s.reservations)) + IpsNeeded(name, s, count, isFmn)
                     < Highest(s) + Demand(networks, name, count, isFmn))
  {
    HighestIsLast(BootstrapOf(networks, name));
  }

  /** The gateway is so far above every reservation that the runs go beyond what was counted. */
  ghost predicate GatewayTooHigh(networks: Networks, name: string, count: nat, isFmn: bool)
    requires name in networks && networks[name].bootstrap.Some?
  {
    var s := BootstrapOf(networks, name);
    forall key :: key in s.reservations ==>
      s.reservations[key].ip + IpsNeeded(name, s, count, isFmn) < s.gateway + Demand(networks, name, count, isFmn)
  }

  lemma GatewayReachesPool(networks: Networks, name: string, count: nat, isFmn: bool, accepted: set<string>)
    requires name in networks && networks[name].bootstrap.Some? && GatewayTooHigh(networks, name, count, isFmn)
    requires PoolMoved(name, BootstrapOf(networks, name), count, isFmn)
    ensures !EndsBelowPool(networks, name, count, isFmn, accepted)
  {
    var s := BootstrapOf(networks, name);
    HighestIsLast(s);
    var key :| key in s.reservations && s.reservations[key].ip == Greatest(Ips(s.reservations));
  }

  lemma AliasReachesPool(networks: Networks, name: string, count: nat, isFmn: bool, accepted: set<string>)
    requires name in networks && networks[name].bootstrap.Some? && !VipPlanned(networks, name, isFmn) && count > 0
    requires PoolMoved(name, BootstrapOf(networks, name), count, isFmn)
    ensures !EndsBelowPool(networks, name, count, isFmn, accepted)
  {
    HighestIsLast(BootstrapOf(networks, name));
  }

  lemma LostPutReachesPool(networks: Networks, name: string, count: nat, isFmn: bool, accepted: set<string>)
    requires name in networks && networks[name].bootstrap.Some? && name !in accepted
    requires PoolMoved(name, BootstrapOf(networks, name), count, isFmn)
    requires IpsNeeded(name, BootstrapOf(networks, name), count, isFmn) <= Demand(networks, name, count, isFmn)
    ensures !EndsBelowPool(networks, name, count, isFmn, accepted)
  {
    HighestIsLast(BootstrapOf(networks, name));
  }

  /** The gateway: if it is above the reservations of a network whose pool moved, the runs cannot all succeed,
      unless more was counted than they take and that makes up for it. */
  lemma GatewayAboveBreaksRuns(networks: Networks, nodes: seq<Node>, isFmn: bool, check: Checks,
                               accepted: set<string>, name: string)
    requires WellFormed(networks) && NewNodes(networks, nodes) && OthersClear(networks, |nodes|, isFmn)
    requires PlanAll(networks, |nodes|, isFmn).Some? && nodes != []
    requires Used(networks, name) && PoolMoved(name, BootstrapOf(networks, name), |nodes|, isFmn)
    requires GatewayTooHigh(networks, name, |nodes|, isFmn)
    ensures AddNodes(PreReq(networks, |nodes|, isFmn, accepted), nodes, isFmn, {}, check).Failure?
  {
    GatewayReachesPool(networks, name, |nodes|, isFmn, accepted);
    ReachingPoolBreaksRuns(networks, nodes, isFmn, check, accepted, name);
  }

  /** The alias: where the pool moved and a virtual IP is given out that was not counted, the runs always fail. */
  lemma AliasBreaksRuns(networks: Networks, nodes: seq<Node>, isFmn: bool, check: Checks, accepted: set<string>,
                        name: string)
    requires WellFormed(networks) && NewNodes(networks, nodes) && OthersClear(networks, |nodes|, isFmn)
    requires PlanAll(networks, |nodes|, isFmn).Some? && nodes != []
    requires Used(networks, name) && PoolMoved(name, BootstrapOf(networks, name), |nodes|, isFmn)
    requires !VipPlanned(networks, name, isFmn)
    ensures AddNodes(PreReq(networks, |nodes|, isFmn, accepted), nodes, isFmn, {}, check).Failure?
  {
    AliasReachesPool(networks, name, |nodes|, isFmn, accepted);
    ReachingPoolBreaksRuns(networks, nodes, isFmn, check, accepted, name);
  }

  /** The lost PUT: where the pool should have moved and did not, the runs fail unless more was counted than they
      take. */
  lemma LostPutBreaksRuns(networks: Networks, nodes: seq<Node>, isFmn: bool, check: Checks, accepted: set<string>,
                          name: string)
    requires WellFormed(networks) && NewNodes(networks, nodes) && OthersClear(networks, |nodes|, isFmn)
    requires PlanAll(networks, |nodes|, isFmn).Some? && nodes != []
    requires Used(networks, name) && PoolMoved(name, BootstrapOf(networks, name), |nodes|, isFmn) && name !in accepted
    requires IpsNeeded(name, BootstrapOf(networks, name), |nodes|, isFmn) <= Demand(networks, name, |nodes|, isFmn)
    ensures AddNodes(PreReq(networks, |nodes|, isFmn, accepted), nodes, isFmn, {}, check).Failure?
  {
    LostPutReachesPool(networks, name, |nodes|, isFmn, accepted);
    ReachingPoolBreaksRuns(networks, nodes, isFmn, check, accepted, name);
  }

  /** The runs use exactly what required_ip_counts says, in every network, if and only if they are not for fabric
      managers, or the pre-req script finds an fmn-vip on the NMN where there is one, and on the HMN where there is
      one or the NMN has one. */
  lemma CountsAreExactIff(networks: Networks, count: nat, isFmn: bool)
    requires WellFormed(networks) && count > 0
    ensures (forall name :: Used(networks, name) ==>
               Demand(networks, name, count, isFmn) == IpsNeeded(name, BootstrapOf(networks, name), count, isFmn))
       <==> (isFmn ==>
               && ("NMN" in networks ==> (MentionsVip(BootstrapOf(networks, "NMN")) <==> HasVip(networks, "NMN")))
               && (MentionsVip(BootstrapOf(networks, "HMN")) <==> HasVip(networks, "HMN") || HasVip(networks, "NMN")))
  {
    assert NETWORKS[0] == "NMN" && NETWORKS[4] == "HMN";
    assert Used(networks, "HMN");
    assert "NMN" in networks ==> Used(networks, "NMN");
    forall name | Used(networks, name)
      ensures Demand(networks, name, count, isFmn) == IpsNeeded(name, BootstrapOf(networks, name), count, isFmn)
         <==> (isFmn && TakesVip(name) ==>
                 (GetsVip(networks, name, isFmn) <==> !MentionsVip(BootstrapOf(networks, name))))
    {
    }
  }

  /** Where the pool moved, the addresses evicted from it are exactly those handed out afterwards, if and only if the
      gateway is not above all reservations and as many addresses were counted as are taken. */
  lemma EvictedAreHandedOutIff(networks: Networks, nodes: seq<Node>, isFmn: bool, accepted: set<string>,
                               after: Networks, name: string)
    requires PlanAll(networks, |nodes|, isFmn).Some? && nodes != []
    requires AfterRuns(PreReq(networks, |nodes|, isFmn, accepted), after, |nodes|, isFmn)
    requires Used(networks, name) && networks[name].bootstrap.Some?
    requires PoolMoved(name, BootstrapOf(networks, name), |nodes|, isFmn)
    ensures name in after && after[name].bootstrap.Some?
    ensures PlanFor(name, BootstrapOf(networks, name), |nodes|, isFmn).value.evicted
         == Ips(BootstrapOf(after, name).reservations) - Ips(BootstrapOf(networks, name).reservations)
       <==> GatewayBelowReservations(BootstrapOf(networks, name))
            && Demand(networks, name, |nodes|, isFmn) == IpsNeeded(name, BootstrapOf(networks, name), |nodes|, isFmn)
  {
    var ready := PreReq(networks, |nodes|, isFmn, accepted);
    PreReqEffect(networks, |nodes|, isFmn, accepted, name);
    PreReqIsSame(networks, |nodes|, isFmn, accepted);
    SameGetsVip(networks, ready, name, isFmn);
    assert RunsAt(ready, after, name, |nodes|, isFmn);
    EvictedAreNextIff(name, BootstrapOf(networks, name), BootstrapOf(ready, name), BootstrapOf(after, name), |nodes|,
                      isFmn, Demand(networks, name, |nodes|, isFmn));
  }

  lemma EvictedAreNextIff(name: string, s: Subnet, ready: Subnet, after: Subnet, count: nat, isFmn: bool, taken: nat)
    requires PoolMoved(name, s, count, isFmn) && taken > 0
    requires ready == s.(dhcpStart := ready.dhcpStart)
    requires Grown(ready, after, taken)
    ensures PlanFor(name, s, count, isFmn).value.evicted == Ips(after.reservations) - Ips(s.reservations)
       <==> GatewayBelowReservations(s) && taken == IpsNeeded(name, s, count, isFmn)
  {
    SameHighest(s, ready.dhcpStart);
    HighestIsLast(s);
    assert Above(Highest(s), taken) !! Ips(s.reservations) by {
      forall ip | ip in Ips(s.reservations)
        ensures ip <= Highest(s)
      {
        assert ip in Existing(s);
      }
    }
    assert Ips(after.reservations) - Ips(s.reservations) == Above(Highest(s), taken);
    SameAboveIff(Greatest(Ips(s.reservations)), IpsNeeded(name, s, count, isFmn), Highest(s), taken);
  }

  lemma SameAboveIff(last: nat, count: nat, other: nat, taken: nat)
    requires taken > 0
    ensures Above(last, count) == Above(other, taken) <==> last == other && count == taken
  {
    if Above(last, count) == Above(other, taken) {
      assert other + 1 in Above(other, taken) && other + taken in Above(other, taken);
      assert last + 1 in Above(last, count) && last + count in Above(last, count);
    }
  }
}
