/**
  ncn_add_pre-req.py: makes room for new management nodes by moving the start of the DHCP pool of
  every bootstrap_dhcp subnet upwards.
 */
module NcnPreReq {
  import opened Outcomes
  import opened Ipam
  import opened NcnIps

  datatype PreReqError = NoDhcpStart | NoReservations | PoolBelowReservations | PoolTooSmall

  /** The new start of the pool, and the addresses that lose their DHCP lease. */
  datatype Plan = Plan(dhcpStart: nat, evicted: set<nat>)

  function RequiredIpCounts(count: nat, addingFmns: bool, name: string): nat {
    if addingFmns then
      if name == "HMN" then count * 2 + 1
      else if name == "NMN" then count + 1
      else count
    else if name == "HMN" then count * 2
    else count
  }

  /** This script also takes an alias for the virtual IP; the allocation looks at the name only. */
  predicate MentionsVip(s: Subnet) {
    exists name :: name in s.reservations
                   && (s.reservations[name].name == FMN_VIP || FMN_VIP in s.reservations[name].aliases)
  }

  /** The number of addresses the script makes room for in the subnet of network `name`. */
  function IpsNeeded(name: string, s: Subnet, count: nat, addingFmns: bool): nat {
    RequiredIpCounts(count, addingFmns && !(TakesVip(name) && MentionsVip(s)), name)
  }

  /** The `count` addresses right after `last`. */
  function Above(last: nat, count: nat): (ips: set<nat>)
    ensures forall ip :: ip in ips <==> last < ip <= last + count
  {
    if count == 0 then {} else Above(last, count - 1) + {last + count}
  }

  ghost function PlanFor(name: string, s: Subnet, count: nat, addingFmns: bool): Result<Plan, PreReqError> {
    if s.dhcpStart.None? then Failure(NoDhcpStart)
    else if s.reservations == map[] then Failure(NoReservations)
    else
      var first :| first in s.reservations;
      assert s.reservations[first].ip in Ips(s.reservations);
      var last := Greatest(Ips(s.reservations));
      var start := s.dhcpStart.value;
      var needed := IpsNeeded(name, s, count, addingFmns);
      if start <= last then Failure(PoolBelowReservations)
      else if start < last + 1 + needed then
        if last + 1 + needed >= s.dhcpEnd then Failure(PoolTooSmall)
        else Success(Plan(last + 1 + needed, Above(last, needed)))
      else
        Success(Plan(start, {}))
  }

  function Bootstrapped(networks: Networks): set<string> {
    set n | n in networks && networks[n].bootstrap.Some?
  }

  /** The plan for every network, or nothing at all when one network has no plan. */
  ghost function PlanAll(networks: Networks, count: nat, addingFmns: bool): Option<map<string, Plan>> {
    if forall n :: n in Bootstrapped(networks) ==> PlanIn(networks, n, count, addingFmns).Success? then
      Some(map n | n in Bootstrapped(networks) :: PlanIn(networks, n, count, addingFmns).value)
    else
      None
  }

  ghost function PlanIn(networks: Networks, n: string, count: nat, addingFmns: bool): Result<Plan, PreReqError>
    requires n in Bootstrapped(networks)
  {
    PlanFor(n, networks[n].bootstrap.value, count, addingFmns)
  }

  function WithStart(n: Network, start: nat): Network
    requires n.bootstrap.Some?
  {
    n.(bootstrap := Some(n.bootstrap.value.(dhcpStart := Some(start))))
  }

  /** SLS after the PUT requests of the plan, of which those for `accepted` reach it: the script does
      not look at the status of a PUT, so any of them may be lost. */
  function PutPlan(networks: Networks, plan: map<string, Plan>, accepted: set<string>): Networks {
    map n | n in networks ::
      if n in plan && n in accepted && networks[n].bootstrap.Some? then WithStart(networks[n], plan[n].dhcpStart)
      else networks[n]
  }

  ghost function PreReq(networks: Networks, count: nat, addingFmns: bool, accepted: set<string>): Networks {
    match PlanAll(networks, count, addingFmns)
    case None => networks
    case Some(plan) => PutPlan(networks, plan, accepted)
  }

  /** The plan by arithmetic: the addresses counted for the nodes have to fit between the last reservation, the gateway
      left aside, and the pool; if they do not, the pool moves behind them, and has to have something left. */
  lemma PlanIs(name: string, s: Subnet, count: nat, addingFmns: bool, last: nat)
    requires exists key :: key in s.reservations && s.reservations[key].ip == last
    requires forall key :: key in s.reservations ==> s.reservations[key].ip <= last
    ensures var mentioned := exists key :: key in s.reservations
                               && (s.reservations[key].name == "fmn-vip" || "fmn-vip" in s.reservations[key].aliases);
            var needed := (if name == "HMN" then count + count else count)
                + (if addingFmns && (name == "NMN" || name == "HMN") && !mentioned then 1 else 0);
            PlanFor(name, s, count, addingFmns)
            == if s.dhcpStart.None? then Failure(NoDhcpStart)
               else if s.dhcpStart.value <= last then Failure(PoolBelowReservations)
               else if last + needed < s.dhcpStart.value then Success(Plan(s.dhcpStart.value, {}))
               else if s.dhcpEnd <= last + needed + 1 then Failure(PoolTooSmall)
               else Success(Plan(last + needed + 1, Above(last, needed)))
  {
    var key :| key in s.reservations && s.reservations[key].ip == last;
    assert last in Ips(s.reservations);
    GreatestIs(Ips(s.reservations), last);
  }

  /** If a network has no plan, nothing changes. Otherwise the networks whose requests arrive get the start that was
      planned, and nothing else about any network changes. */
  lemma PreReqIs(networks: Networks, count: nat, addingFmns: bool, accepted: set<string>, n: string)
    requires n in networks
    ensures var after := PreReq(networks, count, addingFmns, accepted);
            && (forall m :: m in after <==> m in networks)
            && if forall m :: m in networks && networks[m].bootstrap.Some? ==>
                    PlanFor(m, networks[m].bootstrap.value, count, addingFmns).Success? then
                 if n in accepted && networks[n].bootstrap.Some? then
                   var s := networks[n].bootstrap.value;
                   after[n] == Network(Some(s.(dhcpStart := Some(PlanFor(n, s, count, addingFmns).value.dhcpStart))),
                                       networks[n].others)
                 else after[n] == networks[n]
               else after == networks
  {
    if forall m :: m in networks && networks[m].bootstrap.Some? ==>
         PlanFor(m, networks[m].bootstrap.value, count, addingFmns).Success? {
      assert forall m :: m in Bootstrapped(networks) ==> PlanIn(networks, m, count, addingFmns).Success?;
    } else {
      var m :| m in networks && networks[m].bootstrap.Some?
               && PlanFor(m, networks[m].bootstrap.value, count, addingFmns).Failure?;
      assert m in Bootstrapped(networks) && PlanIn(networks, m, count, addingFmns).Failure?;
    }
  }

  lemma NoIpsIff(reservations: map<string, Reservation>)
    ensures Ips(reservations) == {} <==> reservations == map[]
  {
    assert forall name :: name in reservations ==> reservations[name].ip in Ips(reservations);
  }

  method PlanNetwork(name: string, s: Subnet, count: nat, addingFmns: bool) returns (r: Result<Plan, PreReqError>)
    ensures r == PlanFor(name, s, count, addingFmns)
  {
    if s.dhcpStart.None? {
      return Failure(NoDhcpStart);
    }
    var ips := ReservedIps(s);
    NoIpsIff(s.reservations);
    if ips == [] {
      return Failure(NoReservations);
    }
    assert ips[0] in Ips(s.reservations);
    var last := MaxOf(ips);
    GreatestIs(Ips(s.reservations), last);
    var start := s.dhcpStart.value;
    var whiteSpace: int := start as int - last as int - 1;
    if whiteSpace < 0 {
      return Failure(PoolBelowReservations);
    }
    var needed := IpsNeeded(name, s, count, addingFmns);
    if needed > whiteSpace {
      var evicted: set<nat> := {};
      for offset := 1 to needed + 1
        invariant evicted == Above(last, offset - 1)
      {
        evicted := evicted + {last + offset};
      }
      var moved := start + (needed - whiteSpace);
      if moved >= s.dhcpEnd {
        return Failure(PoolTooSmall);
      }
      return Success(Plan(moved, evicted));
    }
    return Success(Plan(start, {}));
  }

  method PlanNetworks(networks: Networks, count: nat, addingFmns: bool) returns (r: Option<map<string, Plan>>)
    ensures r == PlanAll(networks, count, addingFmns)
  {
    var plan: map<string, Plan> := map[];
    var left := Bootstrapped(networks);
    while left != {}
      invariant left <= Bootstrapped(networks)
      invariant plan.Keys == Bootstrapped(networks) - left
      invariant forall n :: n in plan ==> PlanIn(networks, n, count, addingFmns) == Success(plan[n])
    {
      var n :| n in left;
      var r := PlanNetwork(n, networks[n].bootstrap.value, count, addingFmns);
      assert r == PlanIn(networks, n, count, addingFmns);
      if r.Failure? {
        return None;
      }
      plan := plan[n := r.value];
      left := left - {n};
    }
    assert plan == map n | n in Bootstrapped(networks) :: PlanIn(networks, n, count, addingFmns).value;
    r := Some(plan);
  }

  lemma PutPlanOneMore(networks: Networks, plan: map<string, Plan>, accepted: set<string>, left: set<string>, n: string)
    requires n in left && n in plan && n in networks && networks[n].bootstrap.Some?
    ensures PutPlan(networks, plan, accepted - (left - {n}))
         == if n in accepted
             then PutPlan(networks, plan, accepted - left)[n := WithStart(networks[n], plan[n].dhcpStart)]
            else PutPlan(networks, plan, accepted - left)
  {
  }

  method AddNcnNetworkUpdate(sls: Sls, count: nat, addingFmns: bool, accepted: set<string>)
    returns (evicted: Option<map<string, set<nat>>>)
    modifies sls
    ensures sls.networks == PreReq(old(sls.networks), count, addingFmns, accepted)
    ensures var plan := PlanAll(old(sls.networks), count, addingFmns);
            if plan.None? then evicted == None
            else evicted == Some(map n | n in plan.value :: plan.value[n].evicted)
  {
    var planned := PlanNetworks(sls.networks, count, addingFmns);
    if planned.None? {
      return None;
    }
    var plan := planned.value;
    var read := sls.networks;
    var left := plan.Keys;
    while left != {}
      invariant left <= plan.Keys
      invariant sls.networks == PutPlan(read, plan, accepted - left)
    {
      var n :| n in left;
      var n' := WithStart(read[n], plan[n].dhcpStart);
      if n in accepted {
        sls.Put(n, n');
      }
      PutPlanOneMore(read, plan, accepted, left, n);
      left := left - {n};
    }
    assert accepted - {} == accepted;
    evicted := Some(map n | n in plan :: plan[n].evicted);
  }
}
