/**
  What the check of allocate-ips finds once the addresses have been chosen: exactly which reservations
  stand in the way of a new node.
 */
module NcnInUse {
  import opened Outcomes
  import opened Ipam
  import opened NcnIps
  import opened NcnEffects
  import opened NcnBmcName
  import opened NcnVipCheck

  // ---------------------------------------------------------------------------------------------
  // Any chosen addresses
  // ---------------------------------------------------------------------------------------------

  /** The check finds a reservation under the node's or the BMC's name, at the address that an entry has in its network
      or, if addresses compare by value, at the BMC's address in the HMN. The virtual IP of an entry is looked at only
      on the NMN and the HMN, next to an ordinary address, and while the flag is unset. */
  lemma AnyClashIff(networks: Networks, node: Node, chosen: Chosen, bmcIp: nat, isFmn: bool, check: Checks)
    ensures AnyClash(networks, node, chosen, bmcIp, isFmn, check) <==>
              exists name, r :: InNetwork(networks, name, r) &&
                (|| r.name == node.ncnAlias || r.name == node.bmcXname
                 || (exists e :: e in chosen.entries && e.net == name && e.ip == r.ip && !e.vip)
                 || (exists e, f :: e in chosen.entries && f in chosen.entries && e.net == name && f.net == name
                       && e.ip == r.ip && e.vip && !f.vip && (name == "NMN" || name == "HMN")
                       && !chosen.vipSeen && (isFmn || check.vips == AsWritten))
                 || (name == "HMN" && check.addresses == ByValue && r.ip == bmcIp))
  {
    forall name, r
      ensures InNetwork(networks, name, r) <==> name in networks && r in AllReservations(networks[name])
    {
    }
  }

  /** It ends in a missing entry when it comes to a reservation of the NMN or the HMN, these have an address but no
      virtual IP, the flag is unset, and it does not mind that the node is no fabric manager. */
  lemma VipKeyErrorIff(networks: Networks, chosen: Chosen, isFmn: bool, check: Checks)
    ensures VipKeyError(networks, chosen, isFmn, check) <==>
              && !chosen.vipSeen && (isFmn || check.vips == AsWritten)
              && exists name, r, e :: InNetwork(networks, name, r) && (name == "NMN" || name == "HMN")
                   && e in chosen.entries && e.net == name && !e.vip
                   && forall f :: f in chosen.entries && f.net == name ==> !f.vip
  {
    forall name, r
      ensures InNetwork(networks, name, r) <==> name in networks && r in AllReservations(networks[name])
    {
    }
    if name :| name in networks && AllReservations(networks[name]) != {} && LacksVip(name, chosen, isFmn, check) {
      var r :| r in AllReservations(networks[name]);
      assert InNetwork(networks, name, r);
    }
  }

  /** Some subnet of the network has the reservation. */
  ghost predicate InNetwork(networks: Networks, name: string, r: Reservation) {
    && name in networks
    && (|| r in networks[name].others
        || (networks[name].bootstrap.Some?
            && exists key :: key in networks[name].bootstrap.value.reservations
                             && networks[name].bootstrap.value.reservations[key] == r))
  }

  // ---------------------------------------------------------------------------------------------
  // The addresses of a run
  // ---------------------------------------------------------------------------------------------

  /** The flag is set in the end if the run is one of a fabric manager and the NMN or the HMN reserves a virtual IP. */
  lemma {:induction false} FlagIff(networks: Networks, names: seq<string>, isFmn: bool, allowed: set<string>,
                                   seen: bool)
    requires ChooseFor(networks, names, isFmn, allowed, seen).Success?
    ensures ChooseFor(networks, names, isFmn, allowed, seen).value.vipSeen <==>
              || seen
              || (isFmn && exists name :: name in names && (name == "NMN" || name == "HMN") && name in networks
                                          && networks[name].bootstrap.Some?
                                          && "fmn-vip" in networks[name].bootstrap.value.reservations)
    decreases |names|
  {
    if names != [] {
      var first := isFmn && TakesVip(names[0]) && HasVip(networks, names[0]);
      assert names == [names[0]] + names[1..];
      FlagIff(networks, names[1..], isFmn, allowed, if names[0] in networks then seen || first else seen);
    }
  }

  /** The entry of a virtual IP is one of a fabric manager, for the NMN or the HMN, beside an ordinary one. */
  lemma VipEntries(networks: Networks, isFmn: bool, allowed: set<string>, chosen: Chosen, e: Entry)
    requires ChooseFor(networks, NETWORKS, isFmn, allowed, false) == Success(chosen) && e in chosen.entries
    ensures HasEntry(chosen.entries, e.net, false)
    ensures e.vip ==> isFmn && (e.net == "NMN" || e.net == "HMN")
  {
    ChooseForAsks(networks, NETWORKS, isFmn, allowed, false);
    assert HasEntry(chosen.entries, e.net, e.vip);
    if e.vip {
      OnlyTakersGetVip(networks, NETWORKS, isFmn, false, e.net);
    }
  }

  lemma ClashesIff(networks: Networks, node: Node, isFmn: bool, allowed: set<string>, check: Checks, bmcIp: nat,
                   chosen: Chosen, name: string, r: Reservation)
    requires ChooseFor(networks, NETWORKS, isFmn, allowed, false) == Success(chosen)
    ensures Clashes(node, name, r, chosen, bmcIp, isFmn, check) <==>
              || r.name == node.ncnAlias || r.name == node.bmcXname
              || (exists e :: e in chosen.entries && e.net == name && e.ip == r.ip && (e.vip ==> !chosen.vipSeen))
              || (name == "HMN" && check.addresses == ByValue && r.ip == bmcIp)
  {
    if e :| e in chosen.entries && e.net == name && e.ip == r.ip && (e.vip ==> !chosen.vipSeen) {
      VipEntries(networks, isFmn, allowed, chosen, e);
    }
  }

  /** A fabric manager has every virtual IP that the check asks for. */
  lemma FabricManagersLackNone(networks: Networks, allowed: set<string>, chosen: Chosen, name: string, check: Checks)
    requires ChooseFor(networks, NETWORKS, true, allowed, false) == Success(chosen)
    ensures !LacksVip(name, chosen, true, check)
  {
    ChooseForAsks(networks, NETWORKS, true, allowed, false);
    if LacksVip(name, chosen, true, check) {
      assert HasEntry(chosen.entries, name, false);
      FlagUnset(networks, NETWORKS, allowed, false, name);
    }
  }

  lemma LacksOneIff(networks: Networks, node: Node, isFmn: bool, allowed: set<string>, check: Checks, bmcIp: nat,
                    chosen: Chosen)
    requires HmnBootstrapped(networks)
    requires ChooseFor(WithBmc(networks, node, bmcIp), NETWORKS, isFmn, allowed, false) == Success(chosen)
    ensures VipKeyError(WithoutBmc(networks, node), chosen, isFmn, check) <==>
              && !isFmn && check.vips == AsWritten
              && exists name, r :: (name == "NMN" || name == "HMN") && Survives(networks, name, r, node.bmcXname)
  {
    var local := WithoutBmc(networks, node);
    if isFmn {
      forall name
        ensures !LacksVip(name, chosen, true, check)
      {
        FabricManagersLackNone(WithBmc(networks, node, bmcIp), allowed, chosen, name, check);
      }
    } else {
      OrdinaryChecks(networks, node, allowed, bmcIp, chosen, check.addresses);
      forall name, r
        ensures Survives(networks, name, r, node.bmcXname) <==> name in local && r in AllReservations(local[name])
      {
        SurvivorsAreChecked(networks, node, name, r);
      }
      if name :| TakesVip(name) && name in networks && AllReservations(local[name]) != {} {
        var r :| r in AllReservations(local[name]);
        assert Survives(networks, name, r, node.bmcXname);
      }
    }
  }

  /** A run whose addresses have been chosen succeeds exactly when no reservation, apart from the one that the BMC has
      in the HMN, has a name or an address of the node, and no ordinary node is asked for a virtual IP. */
  lemma SucceedsIff(networks: Networks, node: Node, isFmn: bool, allowed: set<string>, check: Checks, bmcIp: nat,
                    chosen: Chosen)
    requires AllocateIn(networks, "HMN", {}, false) == Success(bmcIp)
    requires ChooseFor(WithBmc(networks, node, bmcIp), NETWORKS, isFmn, allowed, false) == Success(chosen)
    ensures AllocateNcn(networks, node, isFmn, allowed, check).Success? <==>
              && (forall name, r :: Survives(networks, name, r, node.bmcXname) ==>
                    && r.name != node.ncnAlias && r.name != node.bmcXname
                    && (forall e :: e in chosen.entries && e.net == name && (e.vip ==> !chosen.vipSeen) ==>
                          e.ip != r.ip)
                    && (name == "HMN" && check.addresses == ByValue ==> r.ip != bmcIp)
                    && ((name == "NMN" || name == "HMN") && check.vips == AsWritten ==> isFmn))
  {
    var local := WithoutBmc(networks, node);
    LacksOneIff(networks, node, isFmn, allowed, check, bmcIp, chosen);
    forall name, r
      ensures Survives(networks, name, r, node.bmcXname) <==> name in local && r in AllReservations(local[name])
      ensures Clashes(node, name, r, chosen, bmcIp, isFmn, check) <==>
                || r.name == node.ncnAlias || r.name == node.bmcXname
                || (exists e :: e in chosen.entries && e.net == name && e.ip == r.ip && (e.vip ==> !chosen.vipSeen))
                || (name == "HMN" && check.addresses == ByValue && r.ip == bmcIp)
    {
      SurvivorsAreChecked(networks, node, name, r);
      ClashesIff(WithBmc(networks, node, bmcIp), node, isFmn, allowed, check, bmcIp, chosen, name, r);
    }
  }

  /** After a run that succeeds nothing in the copy it goes on with has a name of the node, or one of its addresses in
      that network; virtual IPs are left out if one was there before. */
  lemma ChosenIsUnused(networks: Networks, node: Node, isFmn: bool, allowed: set<string>, check: Checks, name: string,
                       r: Reservation)
    requires AllocateNcn(networks, node, isFmn, allowed, check).Success?
    requires InNetwork(AllocateNcn(networks, node, isFmn, allowed, check).value.local, name, r)
    ensures var c := AllocateNcn(networks, node, isFmn, allowed, check).value;
            && r.name != node.ncnAlias && r.name != node.bmcXname
            && forall e :: e in c.entries && e.net == name && e.ip == r.ip ==>
                 e.vip && exists n :: (n == "NMN" || n == "HMN") && n in networks && networks[n].bootstrap.Some?
                            && ("fmn-vip" in networks[n].bootstrap.value.reservations || node.bmcXname == "fmn-vip")
  {
    var c := AllocateNcn(networks, node, isFmn, allowed, check).value;
    var withBmc := WithBmc(networks, node, c.bmcIp);
    var chosen := ChooseFor(withBmc, NETWORKS, isFmn, allowed, false).value;
    SucceedsIff(networks, node, isFmn, allowed, check, c.bmcIp, chosen);
    SurvivorsAreChecked(networks, node, name, r);
    assert Survives(networks, name, r, node.bmcXname);
    FlagIff(withBmc, NETWORKS, isFmn, allowed, false);
  }

  // ---------------------------------------------------------------------------------------------
  // A run that is repeated
  // ---------------------------------------------------------------------------------------------

  /** An HMN to which an earlier run added the node before it was aborted. */
  function Added(): Networks {
    map["HMN" := Network(Some(Subnet(Block(0, 256), None, 1, Some(200), 250,
                                     map["ncn-w004" := Reservation("ncn-w004", 10, "x3000c0s9b0n0", [])])), {})]
  }

  /** However the checks come out, the node is not given addresses for a second time. */
  lemma RepeatedRunExample(check: Checks)
    ensures AllocateNcn(Added(), NODE, false, {}, check).Failure?
    ensures check.vips == FmnOnly ==> AllocateNcn(Added(), NODE, false, {}, check) == Failure(AlreadyInUse)
  {
    var networks := Added();
    var s := Hmn(networks);
    assert s.reservations["ncn-w004"].ip == 10;
    GreatestIs(Existing(s), 10);
    assert AllocateIn(networks, "HMN", {}, false) == Success(11);
    var withBmc := WithBmc(networks, NODE, 11);
    assert Hmn(withBmc).reservations[NODE.bmcXname].ip == 11;
    assert Hmn(withBmc).reservations["ncn-w004"].ip == 10;
    GreatestIs(Existing(Hmn(withBmc)), 11);
    OnlyHmnChooses(withBmc, {}, 12);
    SucceedsIff(networks, NODE, false, {}, check, 11, Chosen(false, [Entry("HMN", false, 12)]));
    assert Survives(networks, "HMN", s.reservations["ncn-w004"], NODE.bmcXname);
  }
}
