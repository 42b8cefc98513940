/**
  The static address search that add_management_ncn.py and allocate_uan_ip.py share.

  Addresses are natural numbers. A block is the half-open range of addresses of one CIDR.
 */
module Ipam {
  import opened Outcomes

  datatype Block = Block(base: nat, size: nat) {
    predicate Contains(ip: int) {
      base <= ip < base + size
    }

    function Broadcast(): int {
      base + size - 1
    }

    /** The addresses a host may use as far as the search is concerned. */
    predicate Usable(ip: int) {
      Contains(ip) && ip != Broadcast()
    }
  }

  datatype Reservation = Reservation(name: string, ip: nat, comment: string, aliases: seq<string>)

  /** The bootstrap_dhcp subnet of a network. `unhacked` is the smaller block that the search uses
      instead of `cidr` when the subnet has been supernet hacked. */
  datatype Subnet = Subnet(
    cidr: Block,
    unhacked: Option<Block>,
    gateway: nat,
    dhcpStart: Option<nat>,
    dhcpEnd: nat,
    reservations: map<string, Reservation>)
  {
    function SearchBlock(): Block {
      if unhacked.Some? then unhacked.value else cidr
    }
  }

  /** A network: its bootstrap_dhcp subnet, if any, and the reservations of its other subnets. */
  datatype Network = Network(bootstrap: Option<Subnet>, others: set<Reservation>)

  type Networks = map<string, Network>

  datatype AllocationError =
    | UnknownNetwork
    | NoBootstrapSubnet
    | NoFirstReservation
    | Exhausted
    | OutsideStaticRange

  /** What `==` says of an address of the ipaddress library and one of netaddr: never equal, as the two libraries have
      it, or equal by value, as the scripts mean it. */
  datatype Equality = NeverEqual | ByValue

  predicate SameAddress(equality: Equality, a: nat, b: nat) {
    equality.ByValue? && a == b
  }

  const FMN_VIP := "fmn-vip"
  const KUBEAPI_VIP := "kubeapi-vip"

  function Ips(reservations: map<string, Reservation>): set<nat> {
    set name | name in reservations :: reservations[name].ip
  }

  function Existing(s: Subnet): set<nat> {
    Ips(s.reservations) + {s.gateway}
  }

  ghost function Greatest(ips: set<nat>): (m: nat)
    requires ips != {}
    ensures m in ips && forall ip :: ip in ips ==> ip <= m
  {
    var x :| x in ips;
    if ips == {x} then
      x
    else
      assert ips == {x} + (ips - {x});
      var m := Greatest(ips - {x});
      if x <= m then m else x
  }

  /** The highest address the subnet already uses; the gateway counts. */
  ghost function Highest(s: Subnet): nat {
    assert s.gateway in Existing(s);
    Greatest(Existing(s))
  }

  lemma GreatestIs(ips: set<nat>, m: nat)
    requires m in ips && forall ip :: ip in ips ==> ip <= m
    ensures Greatest(ips) == m
  {
  }

  // ---------------------------------------------------------------------------------------------
  // The search loop
  // ---------------------------------------------------------------------------------------------

  function MaxOf(ips: seq<nat>): (m: nat)
    requires ips != []
    ensures m in ips && forall ip :: ip in ips ==> ip <= m
  {
    if |ips| == 1 then ips[0]
    else
      assert ips == [ips[0]] + ips[1..];
      var m := MaxOf(ips[1..]);
      if ips[0] <= m then m else ips[0]
  }

  function Skip(isFmnVip: bool): nat {
    if isFmnVip then 2 else 1
  }

  /** What the search promises: the address right after the highest one, or the one after that for
      a virtual IP, provided the block has it. */
  ghost function NextIp(s: Subnet, isFmnVip: bool): Result<nat, AllocationError> {
    var candidate := Highest(s) + Skip(isFmnVip);
    if s.SearchBlock().Usable(candidate) then Success(candidate) else Failure(Exhausted)
  }

  /** The loop's `continue` leaves the candidate where it is, so a starting address above a usable
      candidate keeps the loop there for ever. */
  ghost predicate Stuck(s: Subnet, startingIp: Option<nat>, isFmnVip: bool) {
    var candidate := Highest(s) + Skip(isFmnVip);
    s.SearchBlock().Usable(candidate) && startingIp.Some? && candidate < startingIp.value
  }

  datatype Search = Running(candidate: nat) | Returned(ip: nat) | Raised

  /** One trip round the loop. */
  function SearchStep(s: Subnet, startingIp: Option<nat>, at: Search): Search {
    match at
    case Running(candidate) =>
      if !s.SearchBlock().Usable(candidate) then Raised
      else if startingIp.Some? && candidate < startingIp.value then Running(candidate)
      else if candidate !in Existing(s) then Returned(candidate)
      else Running(candidate + 1)
    case _ => at
  }

  ghost function SearchAfter(s: Subnet, startingIp: Option<nat>, isFmnVip: bool, trips: nat): Search {
    if trips == 0 then Running(Highest(s) + Skip(isFmnVip))
    else SearchStep(s, startingIp, SearchAfter(s, startingIp, isFmnVip, trips - 1))
  }

  /** The loop ends if and only if it is not stuck, and then its first trip already decides. */
  lemma SearchEndsIffNotStuck(s: Subnet, startingIp: Option<nat>, isFmnVip: bool)
    ensures (exists trips: nat :: !SearchAfter(s, startingIp, isFmnVip, trips).Running?)
       <==> !Stuck(s, startingIp, isFmnVip)
    ensures !Stuck(s, startingIp, isFmnVip) ==>
              SearchAfter(s, startingIp, isFmnVip, 1) ==
              match NextIp(s, isFmnVip) case Success(ip) => Returned(ip) case Failure(_) => Raised
  {
    var start := Running(Highest(s) + Skip(isFmnVip));
    assert SearchAfter(s, startingIp, isFmnVip, 0) == start;
    assert SearchAfter(s, startingIp, isFmnVip, 1) == SearchStep(s, startingIp, start);
    if Stuck(s, startingIp, isFmnVip) {
      forall trips: nat
        ensures SearchAfter(s, startingIp, isFmnVip, trips) == start
      {
        StuckStays(s, startingIp, isFmnVip, trips);
      }
    } else {
      assert !SearchAfter(s, startingIp, isFmnVip, 1).Running?;
    }
  }

  lemma {:induction false} StuckStays(s: Subnet, startingIp: Option<nat>, isFmnVip: bool, trips: nat)
    requires Stuck(s, startingIp, isFmnVip)
    ensures SearchAfter(s, startingIp, isFmnVip, trips) == Running(Highest(s) + Skip(isFmnVip))
  {
    if trips > 0 {
      StuckStays(s, startingIp, isFmnVip, trips - 1);
    }
  }

  /** The loop itself: the first usable candidate that is not taken. */
  method ScanFrom(existing: seq<nat>, block: Block, first: nat, startingIp: Option<nat>)
    returns (r: Result<nat, AllocationError>)
    requires block.Usable(first) && startingIp.Some? ==> startingIp.value <= first
    ensures r.Success? ==> block.Usable(r.value) && r.value !in existing && first <= r.value
                           && forall ip :: first <= ip < r.value ==> ip in existing
    ensures r.Failure? ==> r.error == Exhausted
                           && exists end :: first <= end && !block.Usable(end) && forall ip :: first <= ip < end ==>
                               ip in existing
  {
    var candidate := first;
    while block.Usable(candidate)
      invariant first <= candidate
      invariant block.Usable(candidate) && startingIp.Some? ==> startingIp.value <= candidate
      invariant forall ip :: first <= ip < candidate ==> ip in existing
      decreases block.base + block.size - candidate
    {
      // The source's `continue` is for candidates below startingIp (SearchStep has it): none here.
      assert startingIp.None? || startingIp.value <= candidate;
      if candidate !in existing {
        return Success(candidate);
      }
      candidate := candidate + 1;
    }
    r := Failure(Exhausted);
  }

  /** The addresses of the reservations, one after the other. */
  method ReservedIps(s: Subnet) returns (existing: seq<nat>)
    ensures forall ip :: ip in existing <==> ip in Ips(s.reservations)
  {
    existing := [];
    var left := s.reservations.Keys;
    while left != {}
      invariant left <= s.reservations.Keys
      invariant forall ip :: ip in existing <==>
          exists name :: name in s.reservations.Keys - left && s.reservations[name].ip == ip
    {
      var name :| name in left;
      existing := existing + [s.reservations[name].ip];
      left := left - {name};
    }
  }

  method FindNextAvailableIp(s: Subnet, startingIp: Option<nat>, isFmnVip: bool)
    returns (r: Result<nat, AllocationError>)
    requires !Stuck(s, startingIp, isFmnVip)
    ensures r == NextIp(s, isFmnVip)
  {
    var existing := ReservedIps(s);
    existing := existing + [s.gateway];
    assert forall ip :: ip in existing <==> ip in Existing(s);
    GreatestIs(Existing(s), MaxOf(existing));
    var first := MaxOf(existing) + Skip(isFmnVip);
    assert first !in existing;
    r := ScanFrom(existing, s.SearchBlock(), first, startingIp);
  }

  // ---------------------------------------------------------------------------------------------
  // Allocation with the static range check
  // ---------------------------------------------------------------------------------------------

  ghost function AllocateIn(networks: Networks, name: string, allowedInDhcp: set<string>, isFmnVip: bool)
    : Result<nat, AllocationError>
  {
    if name !in networks then Failure(UnknownNetwork)
    else if networks[name].bootstrap.None? then Failure(NoBootstrapSubnet)
    else
      var s := networks[name].bootstrap.value;
      if name == "CMN" && s.reservations == map[] then Failure(NoFirstReservation)
      else
        var ip :- NextIp(s, isFmnVip);
        if s.dhcpStart.Some? && s.dhcpStart.value <= ip && name !in allowedInDhcp then
          Failure(OutsideStaticRange)
        else
          Success(ip)
  }

  method AllocateIpAddressInSubnet(networks: Networks, name: string, allowedInDhcp: set<string>, isFmnVip: bool)
    returns (r: Result<nat, AllocationError>)
    ensures r == AllocateIn(networks, name, allowedInDhcp, isFmnVip)
  {
    if name !in networks {
      return Failure(UnknownNetwork);
    }
    if networks[name].bootstrap.None? {
      return Failure(NoBootstrapSubnet);
    }
    var s := networks[name].bootstrap.value;
    var startingIp: Option<nat> := None;
    if name == "CMN" {
      if KUBEAPI_VIP in s.reservations {
        startingIp := Some(s.reservations[KUBEAPI_VIP].ip);
      } else if s.reservations == map[] {
        return Failure(NoFirstReservation);
      } else {
        // The first reservation in dictionary order: any of them.
        var first :| first in s.reservations;
        startingIp := Some(s.reservations[first].ip);
      }
      assert startingIp.value in Existing(s);
    }
    var next := FindNextAvailableIp(s, startingIp, isFmnVip);
    if next.Failure? {
      return next;
    }
    if s.dhcpStart.Some? && s.dhcpStart.value <= next.value && name !in allowedInDhcp {
      return Failure(OutsideStaticRange);
    }
    return next;
  }

  /** What is granted, by arithmetic: the address after the highest one in use, the gateway included, or the one after
      that for a virtual IP. It has to lie in the block of the search before its last address, which is the broadcast
      address, and before the pool unless the network may use it. */
  lemma AllocatedIs(networks: Networks, name: string, allowedInDhcp: set<string>, isFmnVip: bool, highest: nat)
    requires name in networks && networks[name].bootstrap.Some?
    requires var s := networks[name].bootstrap.value;
             && s.gateway <= highest
             && (forall key :: key in s.reservations ==> s.reservations[key].ip <= highest)
             && (s.gateway == highest || exists key :: key in s.reservations && s.reservations[key].ip == highest)
    ensures var s := networks[name].bootstrap.value;
            var b := if s.unhacked.Some? then s.unhacked.value else s.cidr;
            var ip := if isFmnVip then highest + 2 else highest + 1;
            AllocateIn(networks, name, allowedInDhcp, isFmnVip)
            == if name == "CMN" && s.reservations == map[] then Failure(NoFirstReservation)
               else if ip < b.base || ip >= b.base + b.size - 1 then Failure(Exhausted)
               else if s.dhcpStart.Some? && ip >= s.dhcpStart.value && name !in allowedInDhcp then
                 Failure(OutsideStaticRange)
               else Success(ip)
  {
    var s := networks[name].bootstrap.value;
    if s.gateway != highest {
      var key :| key in s.reservations && s.reservations[key].ip == highest;
      assert highest in Existing(s);
    }
    GreatestIs(Existing(s), highest);
  }

  // ---------------------------------------------------------------------------------------------
  // The promise every script makes about a bootstrap subnet
  // ---------------------------------------------------------------------------------------------

  ghost predicate DistinctIps(reservations: map<string, Reservation>) {
    forall a, b :: a in reservations && b in reservations && a != b ==> reservations[a].ip != reservations[b].ip
  }

  /** `ip` may be held by a reservation of this subnet. */
  ghost predicate Placed(s: Subnet, inDhcp: bool, ip: nat) {
    && ip != s.gateway
    && s.cidr.Usable(ip)
    && (s.dhcpStart.Some? && !inDhcp ==> ip < s.dhcpStart.value)
  }

  ghost predicate SafeSubnet(s: Subnet, inDhcp: bool) {
    && (s.unhacked.Some? ==> s.cidr.base <= s.unhacked.value.base
                             && s.unhacked.value.base + s.unhacked.value.size <= s.cidr.base + s.cidr.size)
    && (forall name :: name in s.reservations ==> s.reservations[name].name == name)
    && DistinctIps(s.reservations)
    && (forall name :: name in s.reservations ==> Placed(s, inDhcp, s.reservations[name].ip))
  }

  /** Every bootstrap subnet is safe; only the networks in `inDhcp` may reserve DHCP addresses. */
  ghost predicate SafeNetworks(networks: Networks, inDhcp: set<string>) {
    forall n :: n in networks && networks[n].bootstrap.Some? ==>
      SafeSubnet(networks[n].bootstrap.value, n in inDhcp)
  }

  /** The promise in full: in every bootstrap subnet each reservation is kept under its own name, at an address of the
      subnet other than the last one, the gateway, that of another reservation and, unless the network may use the
      pool, any address from the start of the pool on. The block for the search is a part of the subnet. */
  lemma SafeNetworksIff(networks: Networks, inDhcp: set<string>)
    ensures SafeNetworks(networks, inDhcp) <==>
              && (forall n, a :: n in networks && networks[n].bootstrap.Some?
                                 && a in networks[n].bootstrap.value.reservations ==>
                    var s := networks[n].bootstrap.value;
                    var ip := s.reservations[a].ip;
                    && s.reservations[a].name == a
                    && s.cidr.base <= ip < s.cidr.base + s.cidr.size - 1
                    && ip != s.gateway
                    && (s.dhcpStart.Some? && n !in inDhcp ==> ip < s.dhcpStart.value)
                    && forall b :: b in s.reservations && b != a ==> s.reservations[b].ip != ip)
              && forall n :: n in networks && networks[n].bootstrap.Some?
                             && networks[n].bootstrap.value.unhacked.Some? ==>
                   var s := networks[n].bootstrap.value;
                   && s.cidr.base <= s.unhacked.value.base
                   && s.unhacked.value.base + s.unhacked.value.size <= s.cidr.base + s.cidr.size
  {
  }

  function WithReservation(s: Subnet, r: Reservation): Subnet {
    s.(reservations := s.reservations[r.name := r])
  }

  function Without(s: Subnet, name: string): Subnet {
    s.(reservations := s.reservations - {name})
  }

  /** No reservation under another name holds `ip`. */
  ghost predicate FreeFor(s: Subnet, name: string, ip: nat) {
    forall other :: other in s.reservations && other != name ==> s.reservations[other].ip != ip
  }

  lemma WithReservationSafe(s: Subnet, inDhcp: bool, r: Reservation)
    requires SafeSubnet(s, inDhcp) && Placed(s, inDhcp, r.ip) && FreeFor(s, r.name, r.ip)
    ensures SafeSubnet(WithReservation(s, r), inDhcp)
  {
  }

  lemma WithReservationIps(s: Subnet, r: Reservation)
    requires r.name !in s.reservations
    ensures Ips(WithReservation(s, r).reservations) == Ips(s.reservations) + {r.ip}
    ensures Highest(WithReservation(s, r)) == if r.ip > Highest(s) then r.ip else Highest(s)
  {
    var s' := WithReservation(s, r);
    forall ip | ip in Ips(s.reservations)
      ensures ip in Ips(s'.reservations)
    {
      var name :| name in s.reservations && s.reservations[name].ip == ip;
      assert name in s'.reservations && s'.reservations[name].ip == ip;
    }
    assert s'.reservations[r.name].ip == r.ip;
    assert Existing(s') == Existing(s) + {r.ip};
    GreatestIs(Existing(s'), if r.ip > Highest(s) then r.ip else Highest(s));
  }

  /** A granted address is placed and new: above everything the subnet uses. */
  lemma GrantedIsPlaced(networks: Networks, name: string, allowedInDhcp: set<string>, inDhcp: set<string>,
                        isFmnVip: bool)
    requires SafeNetworks(networks, inDhcp) && allowedInDhcp <= inDhcp
    requires AllocateIn(networks, name, allowedInDhcp, isFmnVip).Success?
    ensures var s := networks[name].bootstrap.value;
            var ip := AllocateIn(networks, name, allowedInDhcp, isFmnVip).value;
            Placed(s, name in inDhcp, ip) && ip == Highest(s) + Skip(isFmnVip) && ip !in Existing(s)
  {
  }
}
