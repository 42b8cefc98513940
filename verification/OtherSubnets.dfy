/**
  Addresses that another subnet of the network reserves. Both scripts look for them after an address
  has been chosen, but compare an address of the ipaddress library with one of netaddr; here is
  exactly what that misses.
 */
module OtherSubnets {
  import opened Outcomes
  import opened Ipam
  import opened NcnIps
  import opened NcnEffects
  import opened NcnBmcName
  import opened UanIps
  import UanRuns

  /** A subnet of the network other than bootstrap_dhcp reserves `ip`. */
  predicate HeldElsewhere(n: Network, ip: nat) {
    exists r :: r in n.others && r.ip == ip
  }

  lemma BmcIsNotInBootstrap(networks: Networks, node: Node, bmcIp: nat, r: Reservation)
    requires AllocateIn(networks, "HMN", {}, false) == Success(bmcIp)
    requires r in AllReservations(WithoutBmc(networks, node)["HMN"]) && r.ip == bmcIp
    ensures r in networks["HMN"].others
  {
    var s := Hmn(networks);
    assert forall key :: key in s.reservations ==> s.reservations[key].ip in Existing(s);
  }

  lemma ClashesByValueIff(node: Node, name: string, r: Reservation, chosen: Chosen, bmcIp: nat, isFmn: bool,
                          vips: VipCheck)
    ensures Clashes(node, name, r, chosen, bmcIp, isFmn, Checks(vips, ByValue))
       <==> Clashes(node, name, r, chosen, bmcIp, isFmn, Checks(vips, NeverEqual)) || (name == "HMN" && r.ip == bmcIp)
  {
  }

  /** An allocation that goes through would have been refused, had the addresses been compared by value, if and only if
      another subnet of the HMN reserves the address chosen for the BMC. */
  lemma BmcAddressIsMissedIff(networks: Networks, node: Node, isFmn: bool, allowed: set<string>, vips: VipCheck)
    requires AllocateNcn(networks, node, isFmn, allowed, Checks(vips, NeverEqual)).Success?
    ensures var c := AllocateNcn(networks, node, isFmn, allowed, Checks(vips, NeverEqual)).value;
            AllocateNcn(networks, node, isFmn, allowed, Checks(vips, ByValue))
            == if HeldElsewhere(networks["HMN"], c.bmcIp) then Failure(AlreadyInUse) else Success(c)
  {
    var c := AllocateNcn(networks, node, isFmn, allowed, Checks(vips, NeverEqual)).value;
    var chosen := ChooseFor(WithBmc(networks, node, c.bmcIp), NETWORKS, isFmn, allowed, false).value;
    var local := WithoutBmc(networks, node);
    assert VipKeyError(local, chosen, isFmn, Checks(vips, ByValue)) <==>
             VipKeyError(local, chosen, isFmn, Checks(vips, NeverEqual)) by {
      SameVipError(local, chosen, isFmn, vips);
    }
    if name, r :| name in local && r in AllReservations(local[name])
                  && Clashes(node, name, r, chosen, c.bmcIp, isFmn, Checks(vips, ByValue)) {
      ClashesByValueIff(node, name, r, chosen, c.bmcIp, isFmn, vips);
      BmcIsNotInBootstrap(networks, node, c.bmcIp, r);
    }
    if r :| r in networks["HMN"].others && r.ip == c.bmcIp {
      assert r in AllReservations(local["HMN"]);
      ClashesByValueIff(node, "HMN", r, chosen, c.bmcIp, isFmn, vips);
    }
  }

  lemma SameVipError(local: Networks, chosen: Chosen, isFmn: bool, vips: VipCheck)
    ensures VipKeyError(local, chosen, isFmn, Checks(vips, ByValue)) <==>
              VipKeyError(local, chosen, isFmn, Checks(vips, NeverEqual))
  {
    forall name
      ensures LacksVip(name, chosen, isFmn, Checks(vips, ByValue)) <==>
                LacksVip(name, chosen, isFmn, Checks(vips, NeverEqual))
    {
    }
  }

  /** Then a complete run leaves the address with two holders: the BMC, and what held it before. */
  lemma BmcSharesItsAddress(networks: Networks, node: Node, isFmn: bool, allowed: set<string>, check: Checks)
    requires AllocateNcn(networks, node, isFmn, allowed, check).Success? && GoodNames(node)
    ensures var c := AllocateNcn(networks, node, isFmn, allowed, check).value;
            var after := PutEntries(c.local, networks, c.entries, node, c.bmcIp, |c.entries|);
            && HmnBootstrapped(after)
            && c.bmcIp in Ips(Hmn(after).reservations)
            && (HeldElsewhere(after["HMN"], c.bmcIp) <==> HeldElsewhere(networks["HMN"], c.bmcIp))
  {
    var c := AllocateNcn(networks, node, isFmn, allowed, check).value;
    var chosen := ChooseFor(WithBmc(networks, node, c.bmcIp), NETWORKS, isFmn, allowed, false).value;
    ChosenAreAbove(networks, node, isFmn, allowed, c.bmcIp, chosen);
    AdditionsAre(node, c.entries, c.bmcIp, "HMN");
    PutEntriesAddsAll(c.local, networks, node, c.entries, c.bmcIp, "HMN");
    var after := PutEntries(c.local, networks, c.entries, node, c.bmcIp, |c.entries|);
    assert Hmn(after).reservations[node.bmcXname].ip == c.bmcIp;
  }

  lemma CheckedByValueIff(n: Network, uanAlias: string, xname: string, ip: nat)
    requires n.bootstrap.Some? && Highest(n.bootstrap.value) < ip
    requires Checked(n, uanAlias, xname, ip, NeverEqual).Granted?
    ensures Checked(n, uanAlias, xname, ip, ByValue) == if HeldElsewhere(n, ip) then Refused else Granted(ip, n)
  {
    forall r | r in AllReservations(n)
      ensures UanClashes(r, uanAlias, xname, ip, ByValue) ==> r in n.others && r.ip == ip
    {
      assert !UanClashes(r, uanAlias, xname, ip, NeverEqual);
      var s := n.bootstrap.value;
      if r in s.reservations.Values {
        var key :| key in s.reservations && s.reservations[key] == r;
        assert r.ip in Existing(s);
      }
    }
    if r :| r in n.others && r.ip == ip {
      assert r in AllReservations(n) && UanClashes(r, uanAlias, xname, ip, ByValue);
    }
  }

  /** The same of the address granted to a user access node. */
  lemma UanAddressIsMissedIff(networks: Networks, name: string, uanAlias: string, xname: string, allowed: set<string>)
    requires Grants(networks, name, uanAlias, xname, allowed, NeverEqual)
    ensures var g := GrantIn(networks, name, uanAlias, xname, allowed, NeverEqual);
            GrantIn(networks, name, uanAlias, xname, allowed, ByValue)
            == if HeldElsewhere(networks[name], g.ip) then Refused else g
  {
    var g := GrantIn(networks, name, uanAlias, xname, allowed, NeverEqual);
    var s := networks[name].bootstrap.value;
    if AllocateIn(networks, name, allowed, false).Success? {
      CheckedByValueIff(networks[name], uanAlias, xname, g.ip);
    } else {
      UanRuns.BumpedHighest(s);
      CheckedByValueIff(networks[name].(bootstrap := Some(Bumped(s))), uanAlias, xname, g.ip);
    }
  }

  // ---------------------------------------------------------------------------------------------
  // Concrete networks
  // ---------------------------------------------------------------------------------------------

  const FMN_NODE := Node("x3000c0s9b0n0", "fmn001", "x3000c0s9b0", false)
  const SWITCH := Reservation("sw-leaf-bmc-001", 11, "x3000c0w22", [])

  /** One reservation at 10; another subnet of the network reserves 11. */
  function Shared(name: string): Networks {
    map[name := Network(Some(Subnet(Block(0, 256), None, 1, Some(100), 200,
                                    map["rgw-vip" := Reservation("rgw-vip", 10, "", [])])),
                        {SWITCH})]
  }

  lemma SharedFacts(name: string)
    ensures var s := Shared(name)[name].bootstrap.value;
            && Highest(s) == 10
            && AllReservations(Shared(name)[name]) == {SWITCH, Reservation("rgw-vip", 10, "", [])}
  {
    var n := Shared(name)[name];
    var s := n.bootstrap.value;
    assert s.reservations["rgw-vip"].ip == 10;
    GreatestIs(Existing(s), 10);
    assert forall r :: r in s.reservations.Values <==> r == s.reservations["rgw-vip"];
  }

  /** With no other network a fabric manager gets an address and a virtual IP. */
  lemma OnlyHmnChoosesBoth(networks: Networks, ip: nat, vip: nat)
    requires networks.Keys == {"HMN"} && !HasVip(networks, "HMN")
    requires AllocateIn(networks, "HMN", {}, false) == Success(ip)
                && AllocateIn(networks, "HMN", {}, true) == Success(vip)
    ensures ChooseFor(networks, NETWORKS, true, {}, false)
         == Success(Chosen(false, [Entry("HMN", false, ip), Entry("HMN", true, vip)]))
  {
    var n1, n2, n3, n4, n5 := NETWORKS[1..], NETWORKS[2..], NETWORKS[3..], NETWORKS[4..], NETWORKS[5..];
    assert n1[1..] == n2 && n2[1..] == n3 && n3[1..] == n4 && n4[1..] == n5 && n5[1..] == [];
    assert n5[0] == "CHN" && n4[0] == "HMN" && n3[0] == "MTL" && n2[0] == "CMN" && n1[0] == "CAN";
    assert NETWORKS[0] == "NMN";
    assert ChooseFor(networks, n5, true, {}, false) == Success(Chosen(false, []));
    var entries := [Entry("HMN", false, ip), Entry("HMN", true, vip)];
    assert entries + [] == entries;
    assert ChooseFor(networks, n4, true, {}, false) == Success(Chosen(false, entries));
    assert ChooseFor(networks, n2, true, {}, false) == ChooseFor(networks, n4, true, {}, false);
    assert ChooseFor(networks, n1, true, {}, false) == ChooseFor(networks, n2, true, {}, false);
  }

  lemma SharedChooses()
    ensures AllocateIn(Shared("HMN"), "HMN", {}, false) == Success(11)
    ensures ChooseFor(WithBmc(Shared("HMN"), FMN_NODE, 11), NETWORKS, true, {}, false)
         == Success(Chosen(false, [Entry("HMN", false, 12), Entry("HMN", true, 13)]))
  {
    SharedFacts("HMN");
    assert FMN_VIP[0] == 'f' && "rgw-vip"[0] == 'r' && FMN_NODE.bmcXname[0] == 'x';
    WithReservationIps(Hmn(Shared("HMN")), BmcReservation(FMN_NODE, 11));
    OnlyHmnChoosesBoth(WithBmc(Shared("HMN"), FMN_NODE, 11), 12, 13);
  }

  /** The BMC of a fabric manager gets 11 although a switch has it; compared by value it would not. */
  lemma SharedBmcExample(vips: VipCheck)
    ensures var networks := Shared("HMN");
            && AllocateNcn(networks, FMN_NODE, true, {}, Checks(vips, NeverEqual))
               == Success(Choice(11, [Entry("HMN", false, 12), Entry("HMN", true, 13)], WithoutBmc(networks, FMN_NODE)))
            && AllocateNcn(networks, FMN_NODE, true, {}, Checks(vips, ByValue)) == Failure(AlreadyInUse)
  {
    var networks := Shared("HMN");
    SharedFacts("HMN");
    var s := Hmn(networks);
    assert FMN_VIP[0] == 'f' && "rgw-vip"[0] == 'r' && SWITCH.name[0] == 's';
    assert FMN_NODE.ncnAlias[0] == 'f' && FMN_NODE.bmcXname[0] == 'x';
    SharedChooses();
    var local := WithoutBmc(networks, FMN_NODE);
    assert s.reservations - {FMN_NODE.bmcXname} == s.reservations;
    assert AllReservations(local["HMN"]) == AllReservations(networks["HMN"]);
    var chosen := Chosen(false, [Entry("HMN", false, 12), Entry("HMN", true, 13)]);
    NoSharedClash(local, chosen, vips);
    BmcAddressIsMissedIff(networks, FMN_NODE, true, {}, vips);
    assert SWITCH in networks["HMN"].others;
  }

  lemma NoSharedClash(local: Networks, chosen: Chosen, vips: VipCheck)
    requires local.Keys == {"HMN"} && AllReservations(local["HMN"]) == {SWITCH, Reservation("rgw-vip", 10, "", [])}
    requires chosen == Chosen(false, [Entry("HMN", false, 12), Entry("HMN", true, 13)])
    ensures !AnyClash(local, FMN_NODE, chosen, 11, true, Checks(vips, NeverEqual))
    ensures !VipKeyError(local, chosen, true, Checks(vips, NeverEqual))
  {
    assert "rgw-vip"[0] == 'r' && SWITCH.name[0] == 's';
    assert FMN_NODE.ncnAlias[0] == 'f' && FMN_NODE.bmcXname[0] == 'x';
    assert chosen.entries[1] == Entry("HMN", true, 13) && chosen.entries[1] in chosen.entries;
  }

  /** A user access node gets 11 although another subnet has it; compared by value it would not. */
  lemma SharedUanExample()
    ensures GrantIn(Shared("CHN"), "CHN", "uan01", "x3000c0s19b0n0", {}, NeverEqual)
         == Granted(11, Shared("CHN")["CHN"])
    ensures GrantIn(Shared("CHN"), "CHN", "uan01", "x3000c0s19b0n0", {}, ByValue) == Refused
  {
    var networks := Shared("CHN");
    SharedFacts("CHN");
    assert "uan01"[0] == 'u' && "rgw-vip"[0] == 'r' && SWITCH.name[0] == 's';
    assert SWITCH.comment == "x3000c0w22" && |SWITCH.comment| != |"x3000c0s19b0n0"|;
    assert UanRuns.Unknown(networks["CHN"], "uan01", "x3000c0s19b0n0", 11, NeverEqual);
    UanRuns.GrantedExactly(networks, "CHN", "uan01", "x3000c0s19b0n0", NeverEqual);
    UanAddressIsMissedIff(networks, "CHN", "uan01", "x3000c0s19b0n0", {});
    assert SWITCH in networks["CHN"].others;
  }
}
