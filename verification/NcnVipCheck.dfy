/** The check for virtual IPs in allocate-ips as it is written, without the guard that its comment asks for. */
module NcnVipCheck {
  import opened Outcomes
  import opened Ipam
  import opened NcnIps
  import opened NcnEffects

  /** The NMN or the HMN reserves anything besides the BMC's own name. */
  ghost predicate VipNetworksReserve(networks: Networks, node: Node)
    requires "HMN" in networks && networks["HMN"].bootstrap.Some?
  {
    exists name :: TakesVip(name) && name in networks && AllReservations(WithoutBmc(networks, node)[name]) != {}
  }

  /** As written, the check asks for the virtual IP of an ordinary node too, which it has not got: the
      run ends with a KeyError if and only if the NMN or the HMN reserves anything. Otherwise the
      check does what its comment says. */
  lemma AsWrittenStopsOrdinaryNodesIff(networks: Networks, node: Node, allowed: set<string>, addresses: Equality)
    ensures var asWritten := AllocateNcn(networks, node, false, allowed, Checks(AsWritten, addresses));
            var fmnOnly := AllocateNcn(networks, node, false, allowed, Checks(FmnOnly, addresses));
            if fmnOnly.Failure? && fmnOnly.error.Allocation? then asWritten == fmnOnly
            else if VipNetworksReserve(networks, node) then asWritten == Failure(VipEntryMissing)
            else asWritten == fmnOnly
  {
    if AllocateIn(networks, "HMN", {}, false).Success? {
      var bmcIp := AllocateIn(networks, "HMN", {}, false).value;
      var withBmc := WithBmc(networks, node, bmcIp);
      var r := ChooseFor(withBmc, NETWORKS, false, allowed, false);
      if r.Success? {
        OrdinaryChecks(networks, node, allowed, bmcIp, r.value, addresses);
      } else {
        ChooseForFailsToAllocate(withBmc, NETWORKS, false, allowed, false);
      }
    }
  }

  lemma OrdinaryChecks(networks: Networks, node: Node, allowed: set<string>, bmcIp: nat, chosen: Chosen,
                       addresses: Equality)
    requires "HMN" in networks && networks["HMN"].bootstrap.Some?
    requires ChooseFor(WithBmc(networks, node, bmcIp), NETWORKS, false, allowed, false) == Success(chosen)
    ensures var local := WithoutBmc(networks, node);
            && (VipKeyError(local, chosen, false, Checks(AsWritten, addresses)) <==> VipNetworksReserve(networks, node))
            && !VipKeyError(local, chosen, false, Checks(FmnOnly, addresses))
            && (AnyClash(local, node, chosen, bmcIp, false, Checks(AsWritten, addresses)) <==>
                AnyClash(local, node, chosen, bmcIp, false, Checks(FmnOnly, addresses)))
  {
    var local := WithoutBmc(networks, node);
    var withBmc := WithBmc(networks, node, bmcIp);
    ChooseForAsks(withBmc, NETWORKS, false, allowed, false);
    forall name
      ensures !HasEntry(chosen.entries, name, true)
    {
      if VipInLoop(withBmc, NETWORKS, false, false, name) {
        OnlyTakersGetVip(withBmc, NETWORKS, false, false, name);
      }
    }
    NeverSeen(withBmc, NETWORKS, allowed);
    assert NETWORKS[0] == "NMN" && NETWORKS[4] == "HMN";
    forall name, r
      ensures Clashes(node, name, r, chosen, bmcIp, false, Checks(AsWritten, addresses)) <==>
                  Clashes(node, name, r, chosen, bmcIp, false, Checks(FmnOnly, addresses))
    {
      assert !HasEntry(chosen.entries, name, true);
    }
    forall name | name in local
      ensures LacksVip(name, chosen, false, Checks(AsWritten, addresses)) <==> TakesVip(name)
    {
    }
  }

  lemma {:induction false} ChooseForFailsToAllocate(networks: Networks, names: seq<string>, isFmn: bool,
                                                    allowed: set<string>, seen: bool)
    requires ChooseFor(networks, names, isFmn, allowed, seen).Failure?
    ensures ChooseFor(networks, names, isFmn, allowed, seen).error.Allocation?
    decreases |names|
  {
    if names != [] {
      var seen' := seen || (isFmn && TakesVip(names[0]) && HasVip(networks, names[0]));
      var rest := if names[0] in networks then seen' else seen;
      if ChooseFor(networks, names[1..], isFmn, allowed, rest).Failure? {
        ChooseForFailsToAllocate(networks, names[1..], isFmn, allowed, rest);
      }
    }
  }

  lemma {:induction false} NeverSeen(networks: Networks, names: seq<string>, allowed: set<string>)
    requires ChooseFor(networks, names, false, allowed, false).Success?
    ensures !ChooseFor(networks, names, false, allowed, false).value.vipSeen
    decreases |names|
  {
    if names != [] {
      NeverSeen(networks, names[1..], allowed);
    }
  }
}
