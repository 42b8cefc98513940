/** What allocating and deallocating the addresses of a user access node amounts to. */
module UanRuns {
  import opened Outcomes
  import opened Ipam
  import opened NcnIps
  import opened UanIps
  import opened Sequences

  /** No subnet of the network knows the node, and the script finds `ip` in no other subnet. */
  ghost predicate Unknown(n: Network, uanAlias: string, xname: string, ip: nat, equality: Equality) {
    && (forall r :: r in AllReservations(n) ==> r.name != uanAlias && r.comment != xname)
    && (n.bootstrap.Some? ==> uanAlias !in n.bootstrap.value.reservations)
    && forall r :: r in n.others ==> !SameAddress(equality, r.ip, ip)
  }

  lemma CheckedUnknown(n: Network, uanAlias: string, xname: string, ip: nat, equality: Equality)
    requires n.bootstrap.Some? && Unknown(n, uanAlias, xname, ip, equality) && Highest(n.bootstrap.value) < ip
    ensures Checked(n, uanAlias, xname, ip, equality) == Granted(ip, n)
  {
    forall r | r in AllReservations(n)
      ensures !UanClashes(r, uanAlias, xname, ip, equality)
    {
      var s := n.bootstrap.value;
      if r in s.reservations.Values {
        var key :| key in s.reservations && s.reservations[key] == r;
        assert r.ip in Existing(s);
      }
    }
  }

  lemma BumpedHighest(s: Subnet)
    requires s.dhcpStart.Some?
    ensures Highest(Bumped(s)) == Highest(s)
  {
    GreatestIs(Existing(Bumped(s)), Highest(s));
  }

  /** Exactly when a new node gets an address, and which: the next one, with the pool moved by one when
      that one is the first of the pool. Moving it once is always enough while everything in use is
      below the pool; if something is not, moving it once never helps. */
  lemma GrantedExactly(networks: Networks, name: string, uanAlias: string, xname: string, equality: Equality)
    requires name in networks && name != "CMN" && networks[name].bootstrap.Some?
    requires networks[name].bootstrap.value.dhcpStart.Some?
    requires Unknown(networks[name], uanAlias, xname, Highest(networks[name].bootstrap.value) + 1, equality)
    ensures var s := networks[name].bootstrap.value;
            var next := Highest(s) + 1;
            var start := s.dhcpStart.value;
            GrantIn(networks, name, uanAlias, xname, {}, equality)
            == if !s.SearchBlock().Usable(next) then Refused
               else if next < start then Granted(next, networks[name])
               else if next == start && MayStartPool(s.cidr, start + 1) then
                 Granted(next, networks[name].(bootstrap := Some(Bumped(s))))
               else Refused
  {
    var s := networks[name].bootstrap.value;
    var next := Highest(s) + 1;
    CheckedUnknown(networks[name], uanAlias, xname, next, equality);
    var bumped := networks[name].(bootstrap := Some(Bumped(s)));
    BumpedHighest(s);
    assert AllReservations(bumped) == AllReservations(networks[name]);
    CheckedUnknown(bumped, uanAlias, xname, next, equality);
  }

  /** Whether a network grants an address, and which, by arithmetic and for every network: no reservation of any
      subnet has the alias or the xname, the address after the highest one in use is usable, and it is before the
      pool, or the network may use the pool, or it is the first of the pool and the pool may start one later. */
  lemma GrantsIff(networks: Networks, name: string, uanAlias: string, xname: string, allowed: set<string>,
                  equality: Equality, highest: nat)
    requires name in networks && networks[name].bootstrap.Some?
    requires var s := networks[name].bootstrap.value;
             && s.gateway <= highest
             && (forall key :: key in s.reservations ==> s.reservations[key].ip <= highest)
             && (s.gateway == highest || exists key :: key in s.reservations && s.reservations[key].ip == highest)
    ensures var s, others := networks[name].bootstrap.value, networks[name].others;
            var b := if s.unhacked.Some? then s.unhacked.value else s.cidr;
            var next := highest + 1;
            Grants(networks, name, uanAlias, xname, allowed, equality) <==>
              && (forall r :: r in others ==>
                    r.name != uanAlias && r.comment != xname && (equality == ByValue ==> r.ip != next))
              && (forall key :: key in s.reservations ==>
                    s.reservations[key].name != uanAlias && s.reservations[key].comment != xname)
              && (name == "CMN" ==> s.reservations != map[])
              && b.base <= next < b.base + b.size - 1
              && (|| s.dhcpStart.None? || next < s.dhcpStart.value || name in allowed
                  || (next == s.dhcpStart.value && s.cidr.base + 2 <= next + 1 < s.cidr.base + s.cidr.size - 2))
    ensures Grants(networks, name, uanAlias, xname, allowed, equality) ==>
              GrantIn(networks, name, uanAlias, xname, allowed, equality).ip == highest + 1
  {
    var s := networks[name].bootstrap.value;
    AllocatedIs(networks, name, allowed, false, highest);
    KnownIff(networks[name], uanAlias, xname, highest, equality);
    if s.dhcpStart.Some? {
      var networks' := PutBootstrap(networks, name, Bumped(s));
      AllocatedIs(networks', name, allowed, false, highest);
      KnownIff(networks'[name], uanAlias, xname, highest, equality);
    }
  }

  lemma KnownIff(n: Network, uanAlias: string, xname: string, highest: nat, equality: Equality)
    requires n.bootstrap.Some?
    requires forall key :: key in n.bootstrap.value.reservations ==> n.bootstrap.value.reservations[key].ip <= highest
    ensures Checked(n, uanAlias, xname, highest + 1, equality) == Granted(highest + 1, n) <==>
              && (forall r :: r in n.others ==>
                    r.name != uanAlias && r.comment != xname && (equality == ByValue ==> r.ip != highest + 1))
              && (forall key :: key in n.bootstrap.value.reservations ==>
                    n.bootstrap.value.reservations[key].name != uanAlias
                    && n.bootstrap.value.reservations[key].comment != xname)
    ensures Checked(n, uanAlias, xname, highest + 1, equality) == Granted(highest + 1, n)
         || Checked(n, uanAlias, xname, highest + 1, equality) == Refused
  {
    var reservations := n.bootstrap.value.reservations;
    forall r
      ensures r in AllReservations(n) <==>
                r in n.others || exists key :: key in reservations && reservations[key] == r
    {
    }
    if key :| key in reservations && (reservations[key].name == uanAlias || reservations[key].comment == xname) {
      assert reservations[key] in AllReservations(n);
      assert UanClashes(reservations[key], uanAlias, xname, highest + 1, equality);
    }
    if r :| r in n.others
            && (r.name == uanAlias || r.comment == xname || (equality == ByValue && r.ip == highest + 1)) {
      assert UanClashes(r, uanAlias, xname, highest + 1, equality);
    }
  }

  /** Everything in use, the gateway included, is below the pool. */
  ghost predicate AllBelowPool(s: Subnet) {
    s.dhcpStart.Some? ==> Highest(s) < s.dhcpStart.value
  }

  /** A grant leaves everything below the pool, and moves the pool only to an address it may start at. */
  lemma GrantKeepsBelowPool(networks: Networks, name: string, uanAlias: string, xname: string, equality: Equality)
    requires Grants(networks, name, uanAlias, xname, {}, equality)
    ensures var g := GrantIn(networks, name, uanAlias, xname, {}, equality);
            && g.network.bootstrap.Some?
            && AllBelowPool(WithUan(g.network, uanAlias, xname, g.ip).bootstrap.value)
            && (var t := WithUan(g.network, uanAlias, xname, g.ip).bootstrap.value;
                t.dhcpStart.Some? ==>
                  && t.gateway < t.dhcpStart.value
                  && forall key :: key in t.reservations ==> t.reservations[key].ip < t.dhcpStart.value)
            && (g.network != networks[name] ==> MayStartPool(networks[name].bootstrap.value.cidr, g.ip + 1))
  {
    var g := GrantIn(networks, name, uanAlias, xname, {}, equality);
    var s := networks[name].bootstrap.value;
    if s.dhcpStart.Some? {
      BumpedHighest(s);
    }
    var t := g.network.bootstrap.value;
    var t' := WithReservation(t, UanReservation(uanAlias, xname, g.ip));
    forall ip | ip in Existing(t')
      ensures ip == g.ip || ip in Existing(t)
    {
    }
    assert forall key :: key in t'.reservations ==> t'.reservations[key].ip in Existing(t');
  }

  // ---------------------------------------------------------------------------------------------
  // Doing it twice, and undoing it
  // ---------------------------------------------------------------------------------------------

  /** When every PUT succeeds, each of the networks has what was granted in it. */
  lemma {:induction false} PutGrantsAll(read: Networks, server: Networks, names: seq<string>, uanAlias: string,
                                        xname: string, allowed: set<string>, equality: Equality, puts: nat,
                                        name: string)
    requires |names| <= puts && NoRepeats(names)
    ensures var after := PutGrants(read, server, names, uanAlias, xname, allowed, equality, puts);
            if name in names && Grants(read, name, uanAlias, xname, allowed, equality) then
              var g := GrantIn(read, name, uanAlias, xname, allowed, equality);
              name in after && after[name] == WithUan(g.network, uanAlias, xname, g.ip)
            else
              (name in after <==> name in server) && (name in server ==> after[name] == server[name])
    decreases |names|
  {
    if names != [] {
      var first := names[0];
      assert names == [first] + names[1..];
      assert first !in names[1..];
      if Grants(read, first, uanAlias, xname, allowed, equality) {
        var g := GrantIn(read, first, uanAlias, xname, allowed, equality);
        PutGrantsAll(read, server[first := WithUan(g.network, uanAlias, xname, g.ip)], names[1..], uanAlias, xname,
                     allowed, equality, puts - 1, name);
      } else {
        PutGrantsAll(read, server, names[1..], uanAlias, xname, allowed, equality, puts, name);
      }
    }
  }

  lemma {:induction false} NothingToPut(read: Networks, server: Networks, names: seq<string>, uanAlias: string,
                                        xname: string, allowed: set<string>, equality: Equality, puts: nat)
    requires forall name :: name in names ==> !Grants(read, name, uanAlias, xname, allowed, equality)
    ensures PutGrants(read, server, names, uanAlias, xname, allowed, equality, puts) == server
    decreases |names|
  {
    if names != [] {
      assert names[0] in names;
      assert forall name :: name in names[1..] ==> name in names;
      NothingToPut(read, server, names[1..], uanAlias, xname, allowed, equality, puts);
    }
  }

  /** Allocating again changes nothing: the node is already there, or is refused again. */
  lemma AllocatingAgainChangesNothing(networks: Networks, uanAlias: string, xname: string, allowed: set<string>,
                                      equality: Equality, agrees: bool, puts: nat)
    requires 2 <= puts
    ensures var once := AllocateUan(networks, uanAlias, xname, allowed, equality, agrees, puts);
            AllocateUan(once, uanAlias, xname, allowed, equality, agrees, puts) == once
  {
    var once := AllocateUan(networks, uanAlias, xname, allowed, equality, agrees, puts);
    if agrees && !exists name :: name in UAN_NETWORKS && Refuses(networks, name, uanAlias, xname, allowed, equality) {
      forall name | name in UAN_NETWORKS
        ensures !Grants(once, name, uanAlias, xname, allowed, equality)
                    && !Refuses(once, name, uanAlias, xname, allowed, equality)
      {
        assert !Refuses(networks, name, uanAlias, xname, allowed, equality);
        PutGrantsAll(networks, networks, UAN_NETWORKS, uanAlias, xname, allowed, equality, puts, name);
        if name in once {
          AlreadyThereAgain(networks, once, name, uanAlias, xname, allowed, equality);
        }
      }
      NothingToPut(once, once, UAN_NETWORKS, uanAlias, xname, allowed, equality, puts);
    }
  }

  lemma AlreadyThereAgain(networks: Networks, once: Networks, name: string, uanAlias: string, xname: string,
                          allowed: set<string>, equality: Equality)
    requires name in networks && name in once && !Refuses(networks, name, uanAlias, xname, allowed, equality)
    requires if Grants(networks, name, uanAlias, xname, allowed, equality) then
               var g := GrantIn(networks, name, uanAlias, xname, allowed, equality);
               once[name] == WithUan(g.network, uanAlias, xname, g.ip)
             else once[name] == networks[name]
    ensures GrantIn(once, name, uanAlias, xname, allowed, equality) == AlreadyThere
  {
    var r := UanReservation(uanAlias, xname, 0);
    assert r.name == uanAlias && r.comment == xname;
  }

  /** When every PUT succeeds, each of the networks that holds the node has lost its reservation. */
  lemma {:induction false} PutRemovalsAll(server: Networks, names: seq<string>, uanAlias: string, xname: string,
                                          puts: nat, name: string)
    requires |names| <= puts && NoRepeats(names)
    ensures var after := PutRemovals(server, names, uanAlias, xname, puts);
            && (name in after <==> name in server)
            && (name in server ==>
                  after[name] == if name in names && Holds(server, name, uanAlias, xname)
                      then WithoutUan(server[name], uanAlias)
                                 else server[name])
    decreases |names|
  {
    if names != [] {
      var first := names[0];
      assert names == [first] + names[1..];
      assert first !in names[1..];
      if Holds(server, first, uanAlias, xname) {
        PutRemovalsAll(server[first := WithoutUan(server[first], uanAlias)], names[1..], uanAlias, xname, puts - 1,
                       name);
      } else {
        PutRemovalsAll(server, names[1..], uanAlias, xname, puts, name);
      }
    }
  }

  /** The same network, except that the pool may start later. */
  ghost predicate SameUpToPool(a: Network, b: Network) {
    && a.others == b.others
    && a.bootstrap.Some? == b.bootstrap.Some?
    && (a.bootstrap.Some? ==> b.bootstrap.value == a.bootstrap.value.(dhcpStart := b.bootstrap.value.dhcpStart))
  }

  /** No reservation of the bootstrap subnet has the alias or the xname, and the subnet is there. */
  predicate UnknownHere(n: Network, uanAlias: string, xname: string) {
    && n.bootstrap.Some?
    && uanAlias !in n.bootstrap.value.reservations
    && forall key :: key in n.bootstrap.value.reservations ==>
         n.bootstrap.value.reservations[key].name != uanAlias && n.bootstrap.value.reservations[key].comment != xname
  }

  /** `m` is `n` with the node in it, up to the pool. */
  ghost predicate HasNode(n: Network, m: Network, uanAlias: string, xname: string) {
    exists g: Network, ip: nat :: SameUpToPool(n, g) && g.bootstrap.Some? && m == WithUan(g, uanAlias, xname, ip)
  }

  lemma AllocatedNetwork(networks: Networks, uanAlias: string, xname: string, allowed: set<string>,
                         equality: Equality, agrees: bool, puts: nat, name: string)
    requires 2 <= puts && name in networks
    ensures var once := AllocateUan(networks, uanAlias, xname, allowed, equality, agrees, puts);
            && name in once
            && (once[name] == networks[name]
                || (name in UAN_NETWORKS && HasNode(networks[name], once[name], uanAlias, xname)))
  {
    PutGrantsAll(networks, networks, UAN_NETWORKS, uanAlias, xname, allowed, equality, puts, name);
    if Grants(networks, name, uanAlias, xname, allowed, equality) {
      var g := GrantIn(networks, name, uanAlias, xname, allowed, equality);
      assert SameUpToPool(networks[name], g.network);
    }
  }

  /** In a network that the node was put into, or that it never was in, deallocation goes through. */
  lemma DeallocatedNetwork(once: Networks, n: Network, uanAlias: string, xname: string, name: string)
    requires name in once && UnknownHere(n, uanAlias, xname)
    requires once[name] == n || HasNode(n, once[name], uanAlias, xname)
    ensures !Stops(once, name, uanAlias, xname)
    ensures Holds(once, name, uanAlias, xname) ==> SameUpToPool(n, WithoutUan(once[name], uanAlias))
    ensures !Holds(once, name, uanAlias, xname) ==> SameUpToPool(n, once[name])
  {
    if once[name] != n {
      var g: Network, ip: nat :| SameUpToPool(n, g) && g.bootstrap.Some?
          && once[name] == WithUan(g, uanAlias, xname, ip);
      var s := once[name].bootstrap.value;
      assert s.reservations[uanAlias] == UanReservation(uanAlias, xname, ip);
      assert s.reservations - {uanAlias} == n.bootstrap.value.reservations;
      assert once[name].bootstrap.value.reservations[uanAlias].name == uanAlias;
    }
  }

  /** Deallocating a node that was unknown before it was allocated restores every reservation map;
      only the start of a pool may stay moved. */
  lemma DeallocateUndoesAllocate(networks: Networks, uanAlias: string, xname: string, allowed: set<string>,
                                 equality: Equality, agrees: bool, puts: nat, puts': nat)
    requires 2 <= puts && 2 <= puts'
    requires forall name :: name in UAN_NETWORKS && name in networks ==> UnknownHere(networks[name], uanAlias, xname)
    ensures var back := DeallocateUan(AllocateUan(networks, uanAlias, xname, allowed, equality, agrees, puts),
                                      uanAlias, xname,
                                      puts');
            && back.Keys == networks.Keys
            && (forall name :: name in networks ==> SameUpToPool(networks[name], back[name]))
            && (forall name :: name in networks ==>
                  && back[name].others == networks[name].others
                  && back[name].bootstrap.Some? == networks[name].bootstrap.Some?
                  && (networks[name].bootstrap.Some? ==>
                        back[name].bootstrap.value.reservations == networks[name].bootstrap.value.reservations))
  {
    var once := AllocateUan(networks, uanAlias, xname, allowed, equality, agrees, puts);
    assert once.Keys == networks.Keys by {
      forall name
        ensures name in once <==> name in networks
      {
        PutGrantsAll(networks, networks, UAN_NETWORKS, uanAlias, xname, allowed, equality, puts, name);
      }
    }
    forall name | name in UAN_NETWORKS && name in networks
      ensures !Stops(once, name, uanAlias, xname)
    {
      AllocatedNetwork(networks, uanAlias, xname, allowed, equality, agrees, puts, name);
      DeallocatedNetwork(once, networks[name], uanAlias, xname, name);
    }
    assert DeallocateUan(once, uanAlias, xname, puts') == PutRemovals(once, UAN_NETWORKS, uanAlias, xname, puts');
    forall name
      ensures name in PutRemovals(once, UAN_NETWORKS, uanAlias, xname, puts') <==> name in networks
      ensures name in networks ==>
                  SameUpToPool(networks[name], PutRemovals(once, UAN_NETWORKS, uanAlias, xname, puts')[name])
    {
      PutRemovalsAll(once, UAN_NETWORKS, uanAlias, xname, puts', name);
      if name in networks {
        AllocatedNetwork(networks, uanAlias, xname, allowed, equality, agrees, puts, name);
        if name in UAN_NETWORKS {
          DeallocatedNetwork(once, networks[name], uanAlias, xname, name);
        }
      }
    }
  }

  // ---------------------------------------------------------------------------------------------
  // Deallocation
  // ---------------------------------------------------------------------------------------------

  /** The bootstrap_dhcp subnet of the network has a reservation that is the node's in name and comment. */
  predicate HasBoth(n: Network, uanAlias: string, xname: string) {
    n.bootstrap.Some? && exists key :: key in n.bootstrap.value.reservations
                           && n.bootstrap.value.reservations[key].name == uanAlias
                           && n.bootstrap.value.reservations[key].comment == xname
  }

  /** It has one that has the node's name or its xname, but not both. */
  predicate HasOneOf(n: Network, uanAlias: string, xname: string) {
    n.bootstrap.Some? && exists key :: key in n.bootstrap.value.reservations
                           && (n.bootstrap.value.reservations[key].name == uanAlias
                               <==> n.bootstrap.value.reservations[key].comment != xname)
  }

  /** Nothing is taken back if the CAN or the CHN lacks its bootstrap_dhcp subnet or has a reservation that is only half
      the node's. Otherwise just these two lose the reservation under the node's alias, where the node has one. */
  lemma DeallocatedIs(networks: Networks, uanAlias: string, xname: string, puts: nat, name: string)
    requires name in networks && 2 <= puts
    ensures var after := DeallocateUan(networks, uanAlias, xname, puts);
            && name in after
            && if (exists m :: (m == "CAN" || m == "CHN") && m in networks
                               && (networks[m].bootstrap.None? || HasOneOf(networks[m], uanAlias, xname))) then
                 after[name] == networks[name]
               else if (name == "CAN" || name == "CHN") && HasBoth(networks[name], uanAlias, xname) then
                 var s := networks[name].bootstrap.value;
                 after[name] == Network(Some(s.(reservations := s.reservations - {uanAlias})), networks[name].others)
               else after[name] == networks[name]
  {
    forall m
      ensures m in UAN_NETWORKS <==> m == "CAN" || m == "CHN"
      ensures Stops(networks, m, uanAlias, xname) <==>
                m in networks && (networks[m].bootstrap.None? || HasOneOf(networks[m], uanAlias, xname))
    {
    }
    PutRemovalsAll(networks, UAN_NETWORKS, uanAlias, xname, puts, name);
  }

  /** Nothing is allocated in either network if one of them refuses or HSM does not agree; otherwise each that grants an
      address has the node's reservation there. */
  lemma AllocatedUanIs(networks: Networks, uanAlias: string, xname: string, allowed: set<string>, equality: Equality,
                       agrees: bool, puts: nat, name: string)
    requires name in networks && 2 <= puts
    ensures var after := AllocateUan(networks, uanAlias, xname, allowed, equality, agrees, puts);
            && name in after
            && if !agrees || (exists m :: (m == "CAN" || m == "CHN") && m in networks
                                && GrantIn(networks, m, uanAlias, xname, allowed, equality) == Refused) then
                 after[name] == networks[name]
               else if (name == "CAN" || name == "CHN")
                       && GrantIn(networks, name, uanAlias, xname, allowed, equality).Granted? then
                 var g := GrantIn(networks, name, uanAlias, xname, allowed, equality);
                 && g.network.bootstrap.Some?
                 && var s := g.network.bootstrap.value;
                    var r := Reservation(uanAlias, g.ip, xname, []);
                    after[name] == Network(Some(s.(reservations := s.reservations[uanAlias := r])), g.network.others)
               else after[name] == networks[name]
  {
    forall m
      ensures m in UAN_NETWORKS <==> m == "CAN" || m == "CHN"
    {
    }
    PutGrantsAll(networks, networks, UAN_NETWORKS, uanAlias, xname, allowed, equality, puts, name);
    if m :| (m == "CAN" || m == "CHN") && m in networks
            && GrantIn(networks, m, uanAlias, xname, allowed, equality) == Refused {
      assert m in UAN_NETWORKS && Refuses(networks, m, uanAlias, xname, allowed, equality);
    }
  }
}
