/**
  What allocate-ips does when the BMC of the new node already has a reservation. The temporary
  reservation for the BMC is kept under the BMC's name in the HMN and deleted before the check, so
  the check never sees a reservation that was there under that name.
 */
module NcnBmcName {
  import opened Outcomes
  import opened Ipam
  import opened NcnIps
  import opened NcnEffects
  import IpamRuns

  ghost predicate HmnBootstrapped(networks: Networks) {
    "HMN" in networks && networks["HMN"].bootstrap.Some?
  }

  function Hmn(networks: Networks): Subnet
    requires "HMN" in networks && networks["HMN"].bootstrap.Some?
  {
    networks["HMN"].bootstrap.value
  }

  /** Reservation `r` is somewhere in network `name`, and not what the temporary reservation replaces. */
  ghost predicate Survives(networks: Networks, name: string, r: Reservation, bmcXname: string) {
    && name in networks
    && (|| r in networks[name].others
        || (networks[name].bootstrap.Some?
            && exists key :: key in networks[name].bootstrap.value.reservations
                             && networks[name].bootstrap.value.reservations[key] == r
                             && !(name == "HMN" && key == bmcXname)))
  }

  /** The BMC's name is reserved in some network or subnet, other than under its own key in the HMN's bootstrap_dhcp. */
  ghost predicate ReservedElsewhere(networks: Networks, bmcXname: string) {
    exists name, r :: Survives(networks, name, r, bmcXname) && r.name == bmcXname
  }

  lemma SurvivorsAreChecked(networks: Networks, node: Node, name: string, r: Reservation)
    requires HmnBootstrapped(networks)
    ensures var local := WithoutBmc(networks, node);
            Survives(networks, name, r, node.bmcXname) <==> name in local && r in AllReservations(local[name])
  {
    var local := WithoutBmc(networks, node);
    if Survives(networks, name, r, node.bmcXname) && r !in networks[name].others {
      var key :| key in networks[name].bootstrap.value.reservations
                 && networks[name].bootstrap.value.reservations[key] == r && !(name == "HMN" && key == node.bmcXname);
      assert key in local[name].bootstrap.value.reservations && local[name].bootstrap.value.reservations[key] == r;
    }
    if name in local && r in AllReservations(local[name]) && r !in local[name].others {
      var key :| key in local[name].bootstrap.value.reservations && local[name].bootstrap.value.reservations[key] == r;
      assert networks[name].bootstrap.value.reservations[key] == r && !(name == "HMN" && key == node.bmcXname);
    }
  }

  /** The check for the BMC's name finds something exactly when the name is reserved elsewhere. */
  lemma NameCheckFiresIff(networks: Networks, node: Node)
    requires HmnBootstrapped(networks)
    ensures var local := WithoutBmc(networks, node);
            (exists name, r :: name in local && r in AllReservations(local[name]) && r.name == node.bmcXname)
            <==> ReservedElsewhere(networks, node.bmcXname)
  {
    var local := WithoutBmc(networks, node);
    if name, r :| name in local && r in AllReservations(local[name]) && r.name == node.bmcXname {
      SurvivorsAreChecked(networks, node, name, r);
      assert Survives(networks, name, r, node.bmcXname);
    }
    if name, r :| Survives(networks, name, r, node.bmcXname) && r.name == node.bmcXname {
      SurvivorsAreChecked(networks, node, name, r);
      assert name in local && r in AllReservations(local[name]);
    }
  }

  // ---------------------------------------------------------------------------------------------
  // The reservation that was there
  // ---------------------------------------------------------------------------------------------

  lemma ChosenAreAbove(networks: Networks, node: Node, isFmn: bool, allowed: set<string>, bmcIp: nat, chosen: Chosen)
    requires AllocateIn(networks, "HMN", {}, false) == Success(bmcIp)
    requires ChooseFor(WithBmc(networks, node, bmcIp), NETWORKS, isFmn, allowed, false) == Success(chosen)
    ensures bmcIp == Highest(Hmn(networks)) + 1
    ensures IpamRuns.VipsLast(chosen.entries) && HasNet(chosen.entries, "HMN")
    ensures AllBootstrapped(WithoutBmc(networks, node), chosen.entries)
    ensures forall e :: e in chosen.entries && e.net == "HMN" ==> e.ip > bmcIp
  {
    ChosenAreBootstrapped(networks, node, isFmn, allowed, bmcIp, chosen);
    var t := Hmn(WithBmc(networks, node, bmcIp));
    assert t.reservations[node.bmcXname].ip == bmcIp;
    assert bmcIp in Existing(t);
  }

  /** No address that a complete run adds to the HMN is one that was in use. */
  lemma AdditionsAreAbove(networks: Networks, node: Node, isFmn: bool, allowed: set<string>, bmcIp: nat,
                          chosen: Chosen, ip: nat)
    requires AllocateIn(networks, "HMN", {}, false) == Success(bmcIp)
    requires ChooseFor(WithBmc(networks, node, bmcIp), NETWORKS, isFmn, allowed, false) == Success(chosen)
    requires GoodNames(node) && ip in Existing(Hmn(networks))
    ensures ip !in Ips(Additions(node, chosen.entries, bmcIp, "HMN"))
    ensures node.bmcXname in Additions(node, chosen.entries, bmcIp, "HMN")
    ensures Additions(node, chosen.entries, bmcIp, "HMN")[node.bmcXname] == BmcReservation(node, bmcIp)
  {
    ChosenAreAbove(networks, node, isFmn, allowed, bmcIp, chosen);
    AdditionsAre(node, chosen.entries, bmcIp, "HMN");
    var more := Additions(node, chosen.entries, bmcIp, "HMN");
    forall key | key in more
      ensures more[key].ip != ip
    {
      assert IsAddition(node, chosen.entries, bmcIp, "HMN", key, more[key]);
    }
  }

  /** A run that goes all the way moves a reservation that the BMC had: it is at the new address, and nothing in the
      HMN's bootstrap_dhcp holds the old one any more. */
  lemma OldBmcAddressIsGone(networks: Networks, node: Node, isFmn: bool, allowed: set<string>, check: Checks)
    requires AllocateNcn(networks, node, isFmn, allowed, check).Success?
    requires GoodNames(node) && node.bmcXname in Hmn(networks).reservations
    requires FreeFor(Hmn(networks), node.bmcXname, Hmn(networks).reservations[node.bmcXname].ip)
    ensures var c := AllocateNcn(networks, node, isFmn, allowed, check).value;
            var after := PutEntries(c.local, networks, c.entries, node, c.bmcIp, |c.entries|);
            && HmnBootstrapped(after)
            && Hmn(networks).reservations[node.bmcXname].ip !in Ips(Hmn(after).reservations)
            && node.bmcXname in Hmn(after).reservations
            && Hmn(after).reservations[node.bmcXname] == BmcReservation(node, c.bmcIp)
  {
    var c := AllocateNcn(networks, node, isFmn, allowed, check).value;
    var chosen := ChooseFor(WithBmc(networks, node, c.bmcIp), NETWORKS, isFmn, allowed, false).value;
    var ip := Hmn(networks).reservations[node.bmcXname].ip;
    assert ip in Existing(Hmn(networks));
    ChosenAreAbove(networks, node, isFmn, allowed, c.bmcIp, chosen);
    AdditionsAreAbove(networks, node, isFmn, allowed, c.bmcIp, chosen, ip);
    PutEntriesAddsAll(c.local, networks, node, c.entries, c.bmcIp, "HMN");
  }

  // ---------------------------------------------------------------------------------------------
  // A run that succeeds all the same
  // ---------------------------------------------------------------------------------------------

  const NODE := Node("x3000c0s9b0n0", "ncn-w004", "x3000c0s9b0", false)
  const OLD := Reservation("x3000c0s9b0", 10, "x3000c0s9b0", ["ncn-w004-mgmt"])

  /** An HMN in which the BMC of the node has the address 10. */
  function Reserved(): Networks {
    map["HMN" := Network(Some(Subnet(Block(0, 256), None, 1, Some(200), 250, map[NODE.bmcXname := OLD])), {})]
  }

  /** With no other network there is one entry. */
  lemma OnlyHmnChooses(networks: Networks, allowed: set<string>, ip: nat)
    requires networks.Keys == {"HMN"} && AllocateIn(networks, "HMN", allowed, false) == Success(ip)
    ensures ChooseFor(networks, NETWORKS, false, allowed, false) == Success(Chosen(false, [Entry("HMN", false, ip)]))
  {
    var n1, n2, n3, n4, n5 := NETWORKS[1..], NETWORKS[2..], NETWORKS[3..], NETWORKS[4..], NETWORKS[5..];
    assert n1[1..] == n2 && n2[1..] == n3 && n3[1..] == n4 && n4[1..] == n5 && n5[1..] == [];
    assert n5[0] == "CHN" && n4[0] == "HMN" && n3[0] == "MTL" && n2[0] == "CMN" && n1[0] == "CAN"
        && NETWORKS[0] == "NMN";
    assert ChooseFor(networks, n5, false, allowed, false) == Success(Chosen(false, []));
    var entry := Entry("HMN", false, ip);
    assert [entry] + [] == [entry];
    assert ChooseFor(networks, n4, false, allowed, false) == Success(Chosen(false, [entry]));
    assert ChooseFor(networks, n2, false, allowed, false) == ChooseFor(networks, n4, false, allowed, false);
    assert ChooseFor(networks, n1, false, allowed, false) == ChooseFor(networks, n2, false, allowed, false);
  }

  /** However the checks come out, the run gives the BMC 11 and the node 12, as if the BMC had no reservation at 10. */
  lemma ReservedBmcPasses(check: Checks)
    ensures AllocateNcn(Reserved(), NODE, false, {}, check)
         == Success(Choice(11, [Entry("HMN", false, 12)], WithoutBmc(Reserved(), NODE)))
  {
    var networks := Reserved();
    var s := Hmn(networks);
    assert s.reservations[NODE.bmcXname].ip == 10;
    GreatestIs(Existing(s), 10);
    assert AllocateIn(networks, "HMN", {}, false) == Success(11);
    var withBmc := WithBmc(networks, NODE, 11);
    assert Hmn(withBmc).reservations[NODE.bmcXname].ip == 11;
    GreatestIs(Existing(Hmn(withBmc)), 11);
    OnlyHmnChooses(withBmc, {}, 12);
    var local := WithoutBmc(networks, NODE);
    assert Hmn(local).reservations == map[];
    assert AllReservations(local["HMN"]) == {};
  }
}
