/** Which addresses add_cdu_switch.py ever gives out, however many switches are added. */
module CduGiven {
  import opened CduSwitch

  /** A host address of the subnet that nothing in the network reserves and that is not its gateway. */
  ghost predicate Free(subnets: seq<Subnet>, ip: nat)
    requires HardwareIndex(subnets) < |subnets|
  {
    var s := Hardware(subnets);
    s.base + 1 <= ip <= s.base + s.size - 3 && !ReservedByAny(subnets, ip) && ip != s.gateway
  }

  /** The lowest reservation lies before the subnet, or is the address 0. */
  predicate LowestBefore(s: Subnet) {
    && s.reservations != []
    && var lowest := LowestOf(IpList(s.reservations));
       lowest == 0 || lowest < s.base
  }

  /** Some number of switches can be added so that the last of them gets `ip`. */
  ghost predicate Given(subnets: seq<Subnet>, ip: nat) {
    exists switches, after :: LastGets(subnets, switches, after, ip)
  }

  ghost predicate LastGets(subnets: seq<Subnet>, switches: seq<Reservation>, after: seq<Subnet>, ip: nat) {
    AddsSwitches(subnets, switches, after) && switches != [] && switches[|switches| - 1].ip == ip
  }

  /** Position 1 is looked at only when the lowest reservation is inside the subnet: now, or after a first switch
      has been given another position. */
  ghost predicate Visited(subnets: seq<Subnet>, ip: nat)
    requires HardwareIndex(subnets) < |subnets|
  {
    var s := Hardware(subnets);
    || ip != s.base + 1
    || LowestInside(s)
    || (!LowestBefore(s) && exists other :: Free(subnets, other) && other != s.base + 1)
  }

  /** What the subnet reserves, as the script lists it. */
  ghost function ReservedIn(s: Subnet): (ips: seq<nat>)
    ensures forall ip :: ip in ips <==> ReservedBy(s, ip)
  {
    var pool := if s.dhcpStart.Some? && s.dhcpEnd.Some? then Range(s.dhcpStart.value, s.dhcpEnd.value + 1) else [];
    assert forall ip :: ip in pool <==> InPool(s, ip);
    pool + IpList(s.reservations)
  }

  /** Every address that the network reserves. */
  ghost function ReservedList(subnets: seq<Subnet>): (ips: seq<nat>)
    ensures forall ip :: ip in ips <==> ReservedByAny(subnets, ip)
  {
    if subnets == [] then []
    else
      assert subnets == [subnets[0]] + subnets[1..];
      assert forall ip :: ReservedByAny(subnets, ip) <==> ReservedBy(subnets[0], ip) || ReservedByAny(subnets[1..], ip);
      ReservedIn(subnets[0]) + ReservedList(subnets[1..])
  }

  lemma {:induction false} FirstFreeFinds(s: Subnet, reserved: seq<nat>, order: seq<nat>, p: nat)
    requires p in order && !TakenAt(s, reserved, p)
    ensures FirstFree(s, reserved, order).Some?
  {
    if Taken(s, reserved, s.base + order[0]) {
      FirstFreeFinds(s, reserved, order[1..], p);
    }
  }

  lemma {:induction false} FreeIsNotTaken(subnets: seq<Subnet>, ip: nat)
    requires HardwareIndex(subnets) < |subnets| && Free(subnets, ip)
    ensures ip !in Ips(Hardware(subnets).reservations) && !Taken(Hardware(subnets), ReservedList(subnets), ip)
  {
    assert Hardware(subnets) in subnets;
    assert !ReservedBy(Hardware(subnets), ip);
  }

  lemma {:induction false} InOrder(s: Subnet, ip: nat)
    requires s.size >= 4 && s.base + 1 <= ip <= s.base + s.size - 3 && ip !in Ips(s.reservations)
    requires ip != s.base + 1 || LowestInside(s)
    ensures ip - s.base in SearchOrder(s)
  {
    OrderIs(s, ip - s.base);
    if LowestInside(s) {
      assert LowestOf(IpList(s.reservations)) in Ips(s.reservations);
    }
  }

  /** While an address that it looks at is free, the search gives something. */
  lemma {:induction false} SelectsFree(subnets: seq<Subnet>, ip: nat) returns (given: nat)
    requires Usable(subnets) && HardwareIndex(subnets) < |subnets| && Free(subnets, ip)
    requires ip != Hardware(subnets).base + 1 || LowestInside(Hardware(subnets))
    ensures Selects(subnets, ReservedList(subnets), given)
  {
    var s, reserved := Hardware(subnets), ReservedList(subnets);
    FreeIsNotTaken(subnets, ip);
    InOrder(s, ip);
    assert s.base + (ip - s.base) == ip;
    FirstFreeFinds(s, reserved, SearchOrder(s), ip - s.base);
    given := FirstFree(s, reserved, SearchOrder(s)).value;
  }

  lemma {:induction false} SelectedInOrder(subnets: seq<Subnet>, reserved: seq<nat>, ip: nat)
    requires Usable(subnets) && HardwareIndex(subnets) < |subnets| && Selects(subnets, reserved, ip)
    ensures Free(subnets, ip)
    ensures ip != Hardware(subnets).base + 1 || LowestInside(Hardware(subnets))
  {
    var s := Hardware(subnets);
    SelectedIsFree(subnets, reserved, ip);
    FirstFreeIsFree(s, reserved, SearchOrder(s));
    OrderIs(s, ip - s.base);
  }

  lemma {:induction false} ReservedAfter(s: Subnet, r: Reservation, ip: nat)
    ensures ReservedBy(s.(reservations := s.reservations + [r]), ip) <==> ReservedBy(s, ip) || ip == r.ip
  {
    var s' := s.(reservations := s.reservations + [r]);
    assert forall x :: x in s'.reservations <==> x in s.reservations || x == r;
    assert r in s'.reservations;
  }

  /** A switch reserves its own address and no other. */
  lemma {:induction false} SwitchReservesOne(subnets: seq<Subnet>, r: Reservation, ip: nat)
    requires HardwareIndex(subnets) < |subnets|
    ensures ReservedByAny(WithSwitch(subnets, r), ip) <==> ReservedByAny(subnets, ip) || ip == r.ip
  {
    var h, after := HardwareIndex(subnets), WithSwitch(subnets, r);
    ReservedAfter(subnets[h], r, ip);
    assert after[h] in after;
    if s :| s in subnets && ReservedBy(s, ip) {
      var j :| 0 <= j < |subnets| && subnets[j] == s;
      assert after[j] in after && ReservedBy(after[j], ip);
    }
    if s :| s in after && ReservedBy(s, ip) {
      var j :| 0 <= j < |after| && after[j] == s;
      assert subnets[j] in subnets;
    }
  }

  lemma {:induction false} SwitchTakesOne(subnets: seq<Subnet>, r: Reservation, ip: nat)
    requires HardwareIndex(subnets) < |subnets|
    ensures HardwareIndex(WithSwitch(subnets, r)) == HardwareIndex(subnets)
    ensures Free(WithSwitch(subnets, r), ip) <==> Free(subnets, ip) && ip != r.ip
  {
    SameHardware(subnets, r);
    SwitchReservesOne(subnets, r, ip);
  }

  /** The lowest reservation stays before the subnet, or comes to be inside it. */
  lemma {:induction false} LowestAfterSwitch(s: Subnet, r: Reservation)
    requires s.base + 1 <= r.ip <= s.base + s.size - 3
    ensures var s' := s.(reservations := s.reservations + [r]);
            if LowestBefore(s) then LowestBefore(s') && !LowestInside(s') else LowestInside(s')
  {
    var s' := s.(reservations := s.reservations + [r]);
    var lowest := LowestOf(IpList(s'.reservations));
    assert r in s'.reservations;
    assert forall ip :: ip in IpList(s'.reservations) <==> ip in Ips(s.reservations) || ip == r.ip by {
      assert forall x :: x in s'.reservations <==> x in s.reservations || x == r;
    }
    assert r.ip in IpList(s'.reservations);
    if s.reservations != [] {
      var before := LowestOf(IpList(s.reservations));
      assert before in IpList(s'.reservations);
    }
  }

  /** How many addresses are free. */
  ghost function FreeSet(subnets: seq<Subnet>): set<nat>
    requires HardwareIndex(subnets) < |subnets|
  {
    var s := Hardware(subnets);
    set ip | s.base + 1 <= ip < s.base + s.size && Free(subnets, ip)
  }

  lemma {:induction false} GivenFirst(subnets: seq<Subnet>, r: Reservation, reserved: seq<nat>)
    requires Usable(subnets) && HardwareIndex(subnets) < |subnets| && Selects(subnets, reserved, r.ip)
    ensures Given(subnets, r.ip)
  {
    assert [r][1..] == [];
    assert LastGets(subnets, [r], WithSwitch(subnets, r), r.ip);
  }

  lemma {:induction false} GivenLater(subnets: seq<Subnet>, r: Reservation, reserved: seq<nat>, ip: nat)
    requires Usable(subnets) && HardwareIndex(subnets) < |subnets| && Selects(subnets, reserved, r.ip)
    requires Given(WithSwitch(subnets, r), ip)
    ensures Given(subnets, ip)
  {
    var switches, after :| LastGets(WithSwitch(subnets, r), switches, after, ip);
    var all := [r] + switches;
    assert all[1..] == switches && all[|all| - 1] == switches[|switches| - 1];
    assert LastGets(subnets, all, after, ip);
  }

  /** Every free address that the search looks at is given out in the end. */
  lemma {:induction false} FreeIsGiven(subnets: seq<Subnet>, ip: nat)
    requires Usable(subnets) && HardwareIndex(subnets) < |subnets| && Free(subnets, ip)
    requires ip != Hardware(subnets).base + 1 || LowestInside(Hardware(subnets))
    ensures Given(subnets, ip)
    decreases |FreeSet(subnets)|
  {
    var given := SelectsFree(subnets, ip);
    var r := Reservation("", given, "");
    if given == ip {
      GivenFirst(subnets, r, ReservedList(subnets));
    } else {
      var after := WithSwitch(subnets, r);
      OneFewerFree(subnets, r, ReservedList(subnets));
      SwitchTakesOne(subnets, r, ip);
      SelectedInOrder(subnets, ReservedList(subnets), given);
      LowestAfterSwitch(Hardware(subnets), r);
      FreeIsGiven(after, ip);
      GivenLater(subnets, r, ReservedList(subnets), ip);
    }
  }

  lemma {:induction false} OneFewerFree(subnets: seq<Subnet>, r: Reservation, reserved: seq<nat>)
    requires Usable(subnets) && HardwareIndex(subnets) < |subnets| && Selects(subnets, reserved, r.ip)
    ensures HardwareIndex(WithSwitch(subnets, r)) == HardwareIndex(subnets)
    ensures |FreeSet(WithSwitch(subnets, r))| < |FreeSet(subnets)|
  {
    SelectedInOrder(subnets, reserved, r.ip);
    SameHardware(subnets, r);
    forall ip: nat
      ensures Free(WithSwitch(subnets, r), ip) <==> Free(subnets, ip) && ip != r.ip
    {
      SwitchTakesOne(subnets, r, ip);
    }
    assert FreeSet(WithSwitch(subnets, r)) == FreeSet(subnets) - {r.ip};
  }

  /** Nothing else ever is. */
  lemma {:induction false} GivenIsFree(subnets: seq<Subnet>, switches: seq<Reservation>, after: seq<Subnet>)
    requires Usable(subnets) && HardwareIndex(subnets) < |subnets|
    requires AddsSwitches(subnets, switches, after) && switches != []
    ensures Free(subnets, switches[|switches| - 1].ip) && Visited(subnets, switches[|switches| - 1].ip)
    decreases |switches|
  {
    var r, ip := switches[0], switches[|switches| - 1].ip;
    var reserved :| Selects(subnets, reserved, r.ip);
    SelectedInOrder(subnets, reserved, r.ip);
    if |switches| > 1 {
      var next := WithSwitch(subnets, r);
      SameHardware(subnets, r);
      GivenIsFree(next, switches[1..], after);
      SwitchTakesOne(subnets, r, ip);
      LowestAfterSwitch(Hardware(subnets), r);
    }
  }

  /** Exactly which addresses are ever given out: the host addresses that the network does not reserve, the
      subnet's own gateway aside, and the one at position 1 only if the search comes to look at it. */
  lemma {:induction false} GivenIff(subnets: seq<Subnet>, ip: nat)
    requires Usable(subnets) && HardwareIndex(subnets) < |subnets|
    ensures Given(subnets, ip) <==> Free(subnets, ip) && Visited(subnets, ip)
  {
    if Given(subnets, ip) {
      var switches, after :| LastGets(subnets, switches, after, ip);
      GivenIsFree(subnets, switches, after);
    }
    if Free(subnets, ip) && Visited(subnets, ip) {
      var s := Hardware(subnets);
      if ip != s.base + 1 || LowestInside(s) {
        FreeIsGiven(subnets, ip);
      } else {
        var other :| Free(subnets, other) && other != s.base + 1;
        var given := SelectsFree(subnets, other);
        var r := Reservation("", given, "");
        SelectedInOrder(subnets, ReservedList(subnets), given);
        SwitchTakesOne(subnets, r, ip);
        LowestAfterSwitch(s, r);
        FreeIsGiven(WithSwitch(subnets, r), ip);
        GivenLater(subnets, r, ReservedList(subnets), ip);
      }
    }
  }

  /** The same by arithmetic, where the lowest reservation of the first network_hardware subnet is at one of its
      positions 0 to size - 3: every host address but the last of them is given out some time, unless it is the
      gateway of the subnet or a reservation or the pool of any subnet of the network has it. */
  lemma GivenByAddressIff(subnets: seq<Subnet>, h: nat, lowest: nat, ip: nat)
    requires h < |subnets| && subnets[h].name == "network_hardware" && subnets[h].size >= 4
    requires forall i :: 0 <= i < h ==> subnets[i].name != "network_hardware"
    requires exists r :: r in subnets[h].reservations && r.ip == lowest
    requires forall r :: r in subnets[h].reservations ==> lowest <= r.ip
    requires lowest != 0 && subnets[h].base <= lowest <= subnets[h].base + subnets[h].size - 3
    ensures Given(subnets, ip) <==>
              && subnets[h].base + 1 <= ip <= subnets[h].base + subnets[h].size - 3
              && ip != subnets[h].gateway
              && forall s :: s in subnets ==>
                   && (forall r :: r in s.reservations ==> r.ip != ip)
                   && (s.dhcpStart.Some? && s.dhcpEnd.Some? ==> ip < s.dhcpStart.value || s.dhcpEnd.value < ip)
  {
    FirstHardware(subnets, h);
    var r :| r in subnets[h].reservations && r.ip == lowest;
    assert lowest in IpList(subnets[h].reservations);
    GivenIff(subnets, ip);
  }

  lemma {:induction false} FirstHardware(subnets: seq<Subnet>, h: nat)
    requires h < |subnets| && subnets[h].name == "network_hardware"
    requires forall i :: 0 <= i < h ==> subnets[i].name != "network_hardware"
    ensures HardwareIndex(subnets) == h
  {
    if h > 0 {
      FirstHardware(subnets[1..], h - 1);
    }
  }

  /** With the lowest reservation inside the subnet no gateway is ever given to a switch if and only if every
      gateway among the host addresses is reserved, in a pool, or the subnet's own. */
  lemma {:induction false} NoGatewayIsGivenIff(subnets: seq<Subnet>)
    requires Usable(subnets) && HardwareIndex(subnets) < |subnets| && LowestInside(Hardware(subnets))
    ensures (forall s :: s in subnets ==> !Given(subnets, s.gateway)) <==>
              forall s :: s in subnets ==>
                var h := Hardware(subnets);
                || !(h.base + 1 <= s.gateway <= h.base + h.size - 3)
                || ReservedByAny(subnets, s.gateway)
                || s.gateway == h.gateway
  {
    forall s | s in subnets
      ensures Given(subnets, s.gateway) <==> Free(subnets, s.gateway)
    {
      GivenIff(subnets, s.gateway);
    }
  }
}
