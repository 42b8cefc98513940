/**
  add_cdu_switch.py: an address for a CDU switch in the network_hardware subnet of a network. The
  search starts after the lowest reservation and comes back to the addresses before it.
 */
module CduSwitch {
  import opened Outcomes

  datatype Reservation = Reservation(name: string, ip: nat, comment: string)

  datatype Subnet = Subnet(
    name: string,
    base: nat,
    size: nat,
    gateway: nat,
    dhcpStart: Option<nat>,
    dhcpEnd: Option<nat>,
    reservations: seq<Reservation>)

  datatype SwitchError = NoHardwareSubnet | NoFreeAddress

  const HARDWARE := "network_hardware"

  function Ips(reservations: seq<Reservation>): set<nat> {
    set r | r in reservations :: r.ip
  }

  predicate InPool(s: Subnet, ip: nat) {
    s.dhcpStart.Some? && s.dhcpEnd.Some? && s.dhcpStart.value <= ip <= s.dhcpEnd.value
  }

  /** Every address of the subnet that is reserved or that DHCP may hand out. */
  predicate ReservedBy(s: Subnet, ip: nat) {
    InPool(s, ip) || ip in Ips(s.reservations)
  }

  predicate ReservedByAny(subnets: seq<Subnet>, ip: nat) {
    exists s :: s in subnets && ReservedBy(s, ip)
  }

  // ---------------------------------------------------------------------------------------------
  // The rotating search
  // ---------------------------------------------------------------------------------------------

  function LowestOf(ips: seq<nat>): (m: nat)
    requires ips != []
    ensures m in ips && forall ip :: ip in ips ==> m <= ip
  {
    if |ips| == 1 then ips[0]
    else
      assert ips == [ips[0]] + ips[1..];
      var m := LowestOf(ips[1..]);
      if m < ips[0] then m else ips[0]
  }

  function IpList(reservations: seq<Reservation>): (ips: seq<nat>)
    ensures forall ip :: ip in ips <==> ip in Ips(reservations)
    ensures |ips| == |reservations|
  {
    if reservations == [] then []
    else
      assert reservations == [reservations[0]] + reservations[1..];
      [reservations[0].ip] + IpList(reservations[1..])
  }

  /** Where the search starts: one after the position of the lowest reservation, if that is one of the
      positions 0 to size - 3; else 2. The address 0 counts as no address. */
  function StartIndex(s: Subnet): (index: nat)
    requires s.size >= 4
    ensures 1 <= index <= s.size - 2
  {
    if s.reservations == [] then 2
    else
      var lowest := LowestOf(IpList(s.reservations));
      if lowest != 0 && s.base <= lowest < s.base + s.size - 2 then lowest - s.base + 1 else 2
  }

  /** The positions `lo` to `hi` - 1. */
  function Range(lo: nat, hi: int): (positions: seq<nat>)
    ensures forall p :: p in positions <==> lo <= p < hi
    decreases hi - lo
  {
    if lo < hi then [lo] + Range(lo + 1, hi) else []
  }

  /** The order of the search. */
  function SearchOrder(s: Subnet): seq<nat>
    requires s.size >= 4
  {
    Range(StartIndex(s), s.size - 2) + Range(1, StartIndex(s) - 1)
  }

  predicate Taken(s: Subnet, reserved: seq<nat>, ip: nat) {
    ip in Ips(s.reservations) || ip == s.gateway || ip in reserved
  }

  predicate TakenAt(s: Subnet, reserved: seq<nat>, position: nat) {
    Taken(s, reserved, s.base + position)
  }

  /** The address at the first of the positions that is not taken. */
  function FirstFree(s: Subnet, reserved: seq<nat>, order: seq<nat>): Option<nat> {
    if order == [] then None
    else if !Taken(s, reserved, s.base + order[0]) then Some(s.base + order[0])
    else FirstFree(s, reserved, order[1..])
  }

  lemma {:induction false} FirstFreeSplits(s: Subnet, reserved: seq<nat>, a: seq<nat>, b: seq<nat>)
    ensures FirstFree(s, reserved, a + b)
         == if FirstFree(s, reserved, a).Some? then FirstFree(s, reserved, a) else FirstFree(s, reserved, b)
  {
    if a == [] {
      assert a + b == b;
    } else {
      assert (a + b)[1..] == a[1..] + b;
      FirstFreeSplits(s, reserved, a[1..], b);
    }
  }

  method FindNextAvailableIp(s: Subnet, reserved: seq<nat>) returns (r: Option<nat>)
    requires s.size >= 4
    ensures r == FirstFree(s, reserved, SearchOrder(s))
  {
    var startIp: Option<nat> := None;
    if s.reservations != [] {
      startIp := Some(LowestOf(IpList(s.reservations)));
    }
    var taken := Ips(s.reservations) + {s.gateway};
    for k := 0 to |reserved|
      invariant forall ip :: ip in taken <==> ip in Ips(s.reservations) || ip == s.gateway || ip in reserved[..k]
    {
      taken := taken + {reserved[k]};
    }
    assert reserved[..|reserved|] == reserved;

    var index := 2;
    if startIp.Some? && startIp.value != 0 {
      var i := 1;
      for p := 0 to s.size - 2
        invariant i == p + 1
        invariant startIp.value < s.base || s.base + p <= startIp.value
      {
        if s.base + p == startIp.value {
          index := i;
          break;
        }
        i := i + 1;
      }
    }
    assert index == StartIndex(s);
    FirstFreeSplits(s, reserved, Range(index, s.size - 2), Range(1, index - 1));
    r := ScanPositions(s, reserved, taken, index, s.size - 2);
    if r.None? && 1 < index {
      r := ScanPositions(s, reserved, taken, 1, index - 1);
    }
  }

  /** for available_ip in subnet[lo:hi] */
  method ScanPositions(s: Subnet, ghost reserved: seq<nat>, taken: set<nat>, lo: nat, hi: int) returns (r: Option<nat>)
    requires forall ip :: ip in taken <==> Taken(s, reserved, ip)
    ensures r == FirstFree(s, reserved, Range(lo, hi))
  {
    var p := lo;
    while p < hi
      invariant lo <= p
      invariant FirstFree(s, reserved, Range(lo, hi)) == FirstFree(s, reserved, Range(p, hi))
    {
      assert Range(p, hi)[1..] == Range(p + 1, hi);
      if s.base + p !in taken {
        return Some(s.base + p);
      }
      p := p + 1;
    }
    r := None;
  }

  /** The search gives the first free address in its order, and nothing only when there is none: with
      the lowest reservation at position p these are p + 1 to size - 3 and then 1 to p - 1. */
  lemma SearchIsRotating(s: Subnet, reserved: seq<nat>, p: nat)
    requires s.size >= 4 && p <= s.size - 3 && s.base + p != 0
    requires s.base + p in Ips(s.reservations) && forall ip :: ip in Ips(s.reservations) ==> s.base + p <= ip
    ensures var r := FirstFree(s, reserved, SearchOrder(s));
            && (r == None <==> forall q: nat :: (p < q <= s.size - 3 || 1 <= q < p) ==> TakenAt(s, reserved, q))
            && (r.Some? ==>
                  var q := r.value - s.base;
                  && (p < q <= s.size - 3 || 1 <= q < p)
                  && !Taken(s, reserved, r.value)
                  && (p < q ==> forall k: nat :: p < k < q ==> TakenAt(s, reserved, k))
                  && (q < p ==> (forall k: nat :: p < k <= s.size - 3 ==> TakenAt(s, reserved, k))
                                && forall k: nat :: 1 <= k < q ==> TakenAt(s, reserved, k)))
  {
    StartsAfterLowest(s, p);
    FirstFreeSplits(s, reserved, Range(p + 1, s.size - 2), Range(1, p));
    FirstFreeInRange(s, reserved, p + 1, s.size - 2);
    FirstFreeInRange(s, reserved, 1, p);
  }

  lemma StartsAfterLowest(s: Subnet, p: nat)
    requires s.size >= 4 && p <= s.size - 3 && s.base + p != 0
    requires s.base + p in Ips(s.reservations) && forall ip :: ip in Ips(s.reservations) ==> s.base + p <= ip
    ensures SearchOrder(s) == Range(p + 1, s.size - 2) + Range(1, p)
  {
    assert s.base + p in IpList(s.reservations);
    assert LowestOf(IpList(s.reservations)) == s.base + p;
  }

  /** The lowest reservation is at one of the positions 0 to size - 3, so that the search starts after it. */
  predicate LowestInside(s: Subnet) {
    && s.reservations != []
    && var lowest := LowestOf(IpList(s.reservations));
       lowest != 0 && s.base <= lowest < s.base + s.size - 2
  }

  /** The positions that the search looks at. */
  lemma OrderIs(s: Subnet, p: nat)
    requires s.size >= 4
    ensures p in SearchOrder(s) <==>
              if LowestInside(s) then 1 <= p <= s.size - 3 && s.base + p != LowestOf(IpList(s.reservations))
              else 2 <= p <= s.size - 3
  {
  }

  lemma {:induction false} FirstFreeInRange(s: Subnet, reserved: seq<nat>, lo: nat, hi: int)
    ensures var r := FirstFree(s, reserved, Range(lo, hi));
            && (r == None <==> forall q: nat :: lo <= q < hi ==> TakenAt(s, reserved, q))
            && (r.Some? ==> lo <= r.value - s.base < hi && !Taken(s, reserved, r.value)
                            && forall k: nat :: lo <= k < r.value - s.base ==> TakenAt(s, reserved, k))
    decreases hi - lo
  {
    if lo < hi {
      FirstFreeInRange(s, reserved, lo + 1, hi);
      assert Range(lo, hi)[1..] == Range(lo + 1, hi);
      assert FirstFree(s, reserved, Range(lo, hi))
          == if TakenAt(s, reserved, lo) then FirstFree(s, reserved, Range(lo + 1, hi)) else Some(s.base + lo);
    }
  }

  lemma {:induction false} FirstFreeIsFree(s: Subnet, reserved: seq<nat>, order: seq<nat>)
    requires FirstFree(s, reserved, order).Some?
    ensures !Taken(s, reserved, FirstFree(s, reserved, order).value)
    ensures s.base <= FirstFree(s, reserved, order).value && FirstFree(s, reserved, order).value - s.base in order
  {
    if Taken(s, reserved, s.base + order[0]) {
      FirstFreeIsFree(s, reserved, order[1..]);
    }
  }

  // ---------------------------------------------------------------------------------------------
  // Reserving the address
  // ---------------------------------------------------------------------------------------------

  method GetReservedIps(s: Subnet) returns (reserved: seq<nat>)
    ensures forall ip :: ip in reserved <==> ReservedBy(s, ip)
  {
    reserved := [];
    if s.dhcpStart.Some? && s.dhcpEnd.Some? {
      var start, end := s.dhcpStart.value, s.dhcpEnd.value;
      while start <= end
        invariant s.dhcpStart.value <= start
        invariant forall ip :: ip in reserved <==> s.dhcpStart.value <= ip < start && ip <= end
      {
        reserved := reserved + [start];
        start := start + 1;
      }
    }
    assert forall ip :: ip in reserved <==> InPool(s, ip);
    for k := 0 to |s.reservations|
      invariant forall ip :: ip in reserved <==> InPool(s, ip) || ip in Ips(s.reservations[..k])
    {
      assert s.reservations[..k + 1] == s.reservations[..k] + [s.reservations[k]];
      reserved := reserved + [s.reservations[k].ip];
    }
    assert s.reservations[..|s.reservations|] == s.reservations;
  }

  /** The index of the first network_hardware subnet, or the number of subnets. */
  function HardwareIndex(subnets: seq<Subnet>): (h: nat)
    ensures h <= |subnets| && (h < |subnets| ==> subnets[h].name == HARDWARE)
  {
    if subnets == [] then 0
    else if subnets[0].name == HARDWARE then 0
    else 1 + HardwareIndex(subnets[1..])
  }

  /** The subnet that the search looks at has at least four addresses. */
  predicate Usable(subnets: seq<Subnet>) {
    HardwareIndex(subnets) < |subnets| ==> subnets[HardwareIndex(subnets)].size >= 4
  }

  /** The network_hardware subnet. */
  function Hardware(subnets: seq<Subnet>): Subnet
    requires HardwareIndex(subnets) < |subnets|
  {
    subnets[HardwareIndex(subnets)]
  }

  /** `ip` is what the search gives when the addresses of every subnet of the network are left out. */
  ghost predicate Selects(subnets: seq<Subnet>, reserved: seq<nat>, ip: nat)
    requires Usable(subnets) && HardwareIndex(subnets) < |subnets|
  {
    var s := subnets[HardwareIndex(subnets)];
    && (forall x :: x in reserved <==> ReservedByAny(subnets, x))
    && FirstFree(s, reserved, SearchOrder(s)) == Some(ip)
  }

  function WithSwitch(subnets: seq<Subnet>, r: Reservation): seq<Subnet>
    requires HardwareIndex(subnets) < |subnets|
  {
    var h := HardwareIndex(subnets);
    subnets[h := subnets[h].(reservations := subnets[h].reservations + [r])]
  }

  lemma {:induction false} SameHardware(subnets: seq<Subnet>, r: Reservation)
    requires HardwareIndex(subnets) < |subnets|
    ensures HardwareIndex(WithSwitch(subnets, r)) == HardwareIndex(subnets)
  {
    var h := HardwareIndex(subnets);
    if h > 0 {
      SameHardware(subnets[1..], r);
      assert WithSwitch(subnets, r)[1..] == WithSwitch(subnets[1..], r);
    }
  }

  class Network {
    var subnets: seq<Subnet>

    constructor (subnets: seq<Subnet>)
      ensures this.subnets == subnets
    {
      this.subnets := subnets;
    }

    method AddCduIpReservation(xname: string, switchAlias: string)
      returns (r: Result<nat, SwitchError>, ghost reserved: seq<nat>)
      requires Usable(subnets)
      modifies this
      ensures forall ip :: ip in reserved <==> ReservedByAny(old(subnets), ip)
      ensures r.Failure? ==> subnets == old(subnets)
      ensures r == Failure(NoHardwareSubnet) <==> HardwareIndex(old(subnets)) == |old(subnets)|
      ensures r == Failure(NoFreeAddress) ==>
                var s := old(subnets)[HardwareIndex(old(subnets))];
                FirstFree(s, reserved, SearchOrder(s)) == None
      ensures r.Success? ==>
                && Selects(old(subnets), reserved, r.value)
                && subnets == WithSwitch(old(subnets), Reservation(switchAlias, r.value, xname))
    {
      var all: seq<nat> := [];
      for i := 0 to |subnets|
        invariant subnets == old(subnets)
        invariant forall ip :: ip in all <==> ReservedByAny(subnets[..i], ip)
      {
        assert subnets[..i + 1] == subnets[..i] + [subnets[i]];
        var ips := GetReservedIps(subnets[i]);
        all := all + ips;
      }
      assert subnets[..|subnets|] == subnets;
      reserved := all;
      var h := HardwareIndex(subnets);
      if h == |subnets| {
        return Failure(NoHardwareSubnet), reserved;
      }
      var ip := FindNextAvailableIp(subnets[h], all);
      if ip.None? {
        return Failure(NoFreeAddress), reserved;
      }
      subnets := WithSwitch(subnets, Reservation(switchAlias, ip.value, xname));
      r := Success(ip.value);
    }
  }

  // ---------------------------------------------------------------------------------------------
  // Any number of switches
  // ---------------------------------------------------------------------------------------------

  ghost predicate IsReservation(subnets: seq<Subnet>, i: nat, k: nat) {
    i < |subnets| && k < |subnets[i].reservations|
  }

  function IpAt(subnets: seq<Subnet>, i: nat, k: nat): nat
    requires i < |subnets| && k < |subnets[i].reservations|
  {
    subnets[i].reservations[k].ip
  }

  /** No two reservations of the network share an address, and none is in a DHCP pool. */
  ghost predicate Apart(subnets: seq<Subnet>) {
    && (forall i, k, j, l :: IsReservation(subnets, i, k) && IsReservation(subnets, j, l) && (i != j || k != l) ==>
          IpAt(subnets, i, k) != IpAt(subnets, j, l))
    && (forall i, k, s :: IsReservation(subnets, i, k) && s in subnets && s.dhcpStart.Some? && s.dhcpEnd.Some? ==>
          !(s.dhcpStart.value <= IpAt(subnets, i, k) <= s.dhcpEnd.value))
  }

  /** The selected address is in none of the network's reservations or pools, is not the subnet's own
      gateway, and is a host address of the subnet: not the first address or one of the last two. */
  lemma {:induction false} SelectedIsFree(subnets: seq<Subnet>, reserved: seq<nat>, ip: nat)
    requires Usable(subnets) && HardwareIndex(subnets) < |subnets| && Selects(subnets, reserved, ip)
    ensures var s := Hardware(subnets);
            && !ReservedByAny(subnets, ip) && ip != s.gateway
            && s.base + 1 <= ip <= s.base + s.size - 3
  {
    var s := Hardware(subnets);
    FirstFreeIsFree(s, reserved, SearchOrder(s));
    OrderIs(s, ip - s.base);
  }

  /** After a switch is added, a reservation is the new one or an old one with another address. */
  lemma {:induction false} NewOrOld(subnets: seq<Subnet>, reserved: seq<nat>, r: Reservation, i: nat, k: nat)
    requires Usable(subnets) && HardwareIndex(subnets) < |subnets| && Selects(subnets, reserved, r.ip)
    requires IsReservation(WithSwitch(subnets, r), i, k)
    ensures var h := HardwareIndex(subnets);
            var ip := IpAt(WithSwitch(subnets, r), i, k);
            || (i == h && k == |subnets[h].reservations| && ip == r.ip)
            || (IsReservation(subnets, i, k) && ip == IpAt(subnets, i, k) && ip != r.ip)
  {
    SelectedIsFree(subnets, reserved, r.ip);
    if IsReservation(subnets, i, k) {
      assert subnets[i].reservations[k] in subnets[i].reservations;
      assert ReservedBy(subnets[i], IpAt(subnets, i, k));
    }
  }

  lemma {:induction false} SwitchKeepsApart(subnets: seq<Subnet>, reserved: seq<nat>, r: Reservation)
    requires Usable(subnets) && HardwareIndex(subnets) < |subnets| && Selects(subnets, reserved, r.ip) && Apart(subnets)
    ensures Apart(WithSwitch(subnets, r)) && Usable(WithSwitch(subnets, r))
  {
    var after := WithSwitch(subnets, r);
    SameHardware(subnets, r);
    forall i: nat, k: nat, j: nat, l: nat | IsReservation(after, i, k) && IsReservation(after, j, l)
        && (i != j || k != l)
      ensures IpAt(after, i, k) != IpAt(after, j, l)
    {
      NewOrOld(subnets, reserved, r, i, k);
      NewOrOld(subnets, reserved, r, j, l);
    }
    forall i: nat, k: nat, s | IsReservation(after, i, k) && s in after && s.dhcpStart.Some? && s.dhcpEnd.Some?
      ensures !(s.dhcpStart.value <= IpAt(after, i, k) <= s.dhcpEnd.value)
    {
      NewOrOld(subnets, reserved, r, i, k);
      SelectedIsFree(subnets, reserved, r.ip);
      var j :| 0 <= j < |after| && after[j] == s;
      assert subnets[j] in subnets;
      assert InPool(s, IpAt(after, i, k)) == InPool(subnets[j], IpAt(after, i, k));
      assert ReservedBy(subnets[j], r.ip) ==> ReservedByAny(subnets, r.ip);
    }
  }

  /** SLS with each of the switches in turn; the search decides the address. */
  ghost predicate AddsSwitches(before: seq<Subnet>, switches: seq<Reservation>, after: seq<Subnet>)
    decreases |switches|
  {
    if switches == [] then after == before
    else
      && Usable(before) && HardwareIndex(before) < |before|
      && (exists reserved :: Selects(before, reserved, switches[0].ip))
      && AddsSwitches(WithSwitch(before, switches[0]), switches[1..], after)
  }

  /** However many switches are added, the reservations of the network stay apart. */
  lemma {:induction false} SwitchesKeepApart(before: seq<Subnet>, switches: seq<Reservation>, after: seq<Subnet>)
    requires Usable(before) && Apart(before) && AddsSwitches(before, switches, after)
    ensures Usable(after) && Apart(after)
    decreases |switches|
  {
    if switches != [] {
      var reserved :| Selects(before, reserved, switches[0].ip);
      SwitchKeepsApart(before, reserved, switches[0]);
      SwitchesKeepApart(WithSwitch(before, switches[0]), switches[1..], after);
    }
  }

  /** Only the subnet's own gateway is kept free: that of another subnet can be given to a switch. */
  lemma OtherGatewayCanBeGiven()
    ensures var hardware := Subnet(HARDWARE, 16, 16, 17, None, None, [Reservation("sw-cdu-001", 18, "d0w1")]);
            var other := Subnet("uai_macvlan", 16, 16, 19, None, None, []);
            Selects([hardware, other], [18], other.gateway)
  {
    var hardware := Subnet(HARDWARE, 16, 16, 17, None, None, [Reservation("sw-cdu-001", 18, "d0w1")]);
    var other := Subnet("uai_macvlan", 16, 16, 19, None, None, []);
    var subnets := [hardware, other];
    forall ip
      ensures ip in [18] <==> ReservedByAny(subnets, ip)
    {
      assert hardware in subnets;
      assert hardware.reservations[0] in hardware.reservations;
      assert ip == 18 ==> ReservedBy(hardware, ip);
    }
    assert LowestOf(IpList(hardware.reservations)) == 18;
    assert SearchOrder(hardware)[0] == 3;
  }
}
