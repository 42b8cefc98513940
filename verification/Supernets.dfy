/**
  sls_utils: working out the block that a supernet hacked subnet had before the hack. Every command
  works it out anew from what SLS holds; here is what it is, and what keeps it the same.
 */
module Supernets {
  import opened Outcomes
  import opened CabinetSubnets
  import Ipam
  import NcnPreReq
  import NcnRuns

  /** No block smaller than the default of the bootstrap_dhcp subnet is tried. */
  const CORE_PREFIX: nat := 24

  predicate HoldsAll(b: Cidr, used: seq<nat>) {
    forall ip :: ip in used ==> b.Contains(ip)
  }

  /** A block that the search may find: a part of the network, with a longer prefix. */
  ghost predicate Candidate(network: Cidr, b: Cidr) {
    b.Valid() && network.prefix < b.prefix <= CORE_PREFIX && Inside(b, network)
  }

  /** The smallest candidate that holds every address in use, if the subnet is hacked and there is one. */
  ghost predicate IsUnhacked(network: Cidr, subnetPrefix: nat, used: seq<nat>, r: Option<Cidr>) {
    if subnetPrefix != network.prefix || used == [] then r == None
    else match r
      case None => forall b :: Candidate(network, b) ==> !HoldsAll(b, used)
      case Some(found) =>
        && Candidate(network, found) && HoldsAll(found, used)
        && forall b :: Candidate(network, b) && found.prefix < b.prefix ==> !HoldsAll(b, used)
  }

  /** The k-th of the blocks that network.subnets(prefixlen_diff=level) lists. */
  function Nth(network: Cidr, level: nat, k: nat): Cidr
    requires network.prefix + level <= 32
  {
    Cidr(network.base + k * Pow2(32 - network.prefix - level), network.prefix + level)
  }

  function Least(ips: seq<nat>): (m: nat)
    requires ips != []
    ensures m in ips && forall ip :: ip in ips ==> m <= ip
  {
    if |ips| == 1 then ips[0]
    else
      assert ips == [ips[0]] + ips[1..];
      var m := Least(ips[1..]);
      if ips[0] <= m then ips[0] else m
  }

  lemma EndsDecide(b: Cidr, used: seq<nat>)
    requires used != []
    ensures HoldsAll(b, used) <==> b.Contains(Least(used)) && b.Contains(Ipam.MaxOf(used))
  {
  }

  lemma QuotientIsUnique(n: nat, q: int, d: int, rest: int)
    requires q * n == d * n + rest && 0 <= rest < n
    ensures rest == 0
  {
    if d + 1 <= q {
      MulMonotone(n, d + 1, q);
      OneMoreTimes(n, d);
    } else if q + 1 <= d {
      MulMonotone(n, q + 1, d);
      OneMoreTimes(n, q);
    }
  }

  lemma OneMoreTimes(n: nat, q: int)
    ensures (q + 1) * n == q * n + n
  {
  }

  lemma MultipleIsZero(n: nat, q: int)
    requires n >= 1
    ensures (q * n) % n == 0
  {
    QuotientIsUnique(n, q, (q * n) / n, (q * n) % n);
  }

  lemma Regroup(t: int, n: nat, m: nat)
    ensures t * (n * m) == (t * m) * n
  {
    MulAssoc(t, m, n);
  }

  lemma AddTimes(a: int, k: int, n: nat)
    ensures (a + k) * n == a * n + k * n
  {
  }

  lemma CountInBlocks(base: nat, n: nat, m: nat, size: nat) returns (first: nat)
    requires size == n * m >= 1 && base % size == 0
    ensures base == first * n && size == m * n
  {
    ExactQuotient(base, size);
    first := (base / size) * m;
    Regroup(base / size, n, m);
  }

  lemma LevelSize(network: Cidr, level: nat) returns (n: nat)
    requires network.prefix + level <= 32
    ensures n == Pow2(32 - network.prefix - level) && n >= 1 && network.Size() == n * Pow2(level)
  {
    n := Pow2(32 - network.prefix - level);
    Pow2Divides(32 - network.prefix - level, 32 - network.prefix);
  }

  /** The base and the size of the network, counted in blocks. */
  lemma SizesDivide(network: Cidr, level: nat) returns (n: nat, first: nat)
    requires network.Valid() && network.prefix + level <= 32
    ensures n == Pow2(32 - network.prefix - level) && n >= 1
    ensures network.base == first * n && network.Size() == Pow2(level) * n
  {
    n := LevelSize(network, level);
    first := CountInBlocks(network.base, n, Pow2(level), network.Size());
  }

  lemma BlockOfStretch(start: nat, first: nat, k: nat, n: nat, m: nat) returns (base: nat)
    requires n >= 1 && k < m && start == first * n
    ensures base == start + k * n && base % n == 0 && start <= base && base + n <= start + m * n
  {
    AddTimes(first, k, n);
    MultipleIsZero(n, first + k);
    MulMonotone(n, 0, k);
    MulMonotone(n, k + 1, m);
    OneMoreTimes(n, k);
    base := start + k * n;
  }

  lemma CandidateWith(network: Cidr, b: Cidr, n: nat, size: nat)
    requires b.Size() == n && b.prefix <= 32 && b.base % n == 0 && network.prefix < b.prefix <= CORE_PREFIX
    requires network.Size() == size && network.base <= b.base && b.base + n <= network.base + size
    ensures Candidate(network, b)
  {
  }

  lemma NthIsCandidate(network: Cidr, level: nat, k: nat)
    requires network.Valid() && 1 <= level && network.prefix + level <= CORE_PREFIX && k < Pow2(level)
    ensures Candidate(network, Nth(network, level, k))
  {
    var n, first := SizesDivide(network, level);
    var base := BlockOfStretch(network.base, first, k, n, Pow2(level));
    var b := Nth(network, level, k);
    assert b.base == base && b.Size() == n;
    CandidateWith(network, b, n, Pow2(level) * n);
  }

  /** Counted in blocks of size `n`, a block that lies in a stretch of `m` of them is one of them. */
  lemma PlaceOfBlock(base: nat, start: nat, first: nat, n: nat, m: nat) returns (k: nat)
    requires n >= 1 && base % n == 0 && start == first * n
    requires start <= base && base + n <= start + m * n
    ensures k < m && base == start + k * n
  {
    ExactQuotient(base, n);
    var q := base / n;
    if q + 1 <= first {
      MulMonotone(n, q + 1, first);
      OneMoreTimes(n, q);
    }
    AddTimes(first, m, n);
    if first + m <= q {
      MulMonotone(n, first + m, q);
    }
    AddTimes(first, q - first, n);
    k := q - first;
  }

  lemma CandidateIsNth(network: Cidr, b: Cidr) returns (k: nat)
    requires network.Valid() && Candidate(network, b)
    ensures k < Pow2(b.prefix - network.prefix) && b == Nth(network, b.prefix - network.prefix, k)
  {
    var level := b.prefix - network.prefix;
    var n, first := SizesDivide(network, level);
    assert b.Size() == n;
    k := PlaceOfBlock(b.base, network.base, first, n, Pow2(level));
  }

  /** Longer prefixes come first; of the blocks with one prefix the first that holds the lowest and the highest address
      in use is taken. */
  method IsSupernetHacked(network: Cidr, subnetPrefix: nat, used: seq<nat>) returns (r: Option<Cidr>)
    requires network.Valid()
    ensures IsUnhacked(network, subnetPrefix, used, r)
  {
    if subnetPrefix != network.prefix {
      return None;
    }
    if used == [] {
      return None;
    }
    var least, greatest := Least(used), Ipam.MaxOf(used);
    var level: int := CORE_PREFIX - network.prefix;
    while level > 0
      invariant level <= CORE_PREFIX - network.prefix
      invariant forall b :: Candidate(network, b) && network.prefix + level < b.prefix ==> !HoldsAll(b, used)
    {
      r := FirstThatHolds(network, level, used, least, greatest);
      if r.Some? {
        return;
      }
      level := level - 1;
    }
    r := None;
  }

  /** The loop over the blocks of one prefix. */
  method FirstThatHolds(network: Cidr, level: nat, used: seq<nat>, least: nat, greatest: nat) returns (r: Option<Cidr>)
    requires network.Valid() && 1 <= level && network.prefix + level <= CORE_PREFIX
    requires used != [] && least == Least(used) && greatest == Ipam.MaxOf(used)
    ensures r.Some? ==>
                Candidate(network, r.value) && r.value.prefix == network.prefix + level && HoldsAll(r.value, used)
    ensures r.None? ==>
              forall b :: Candidate(network, b) && b.prefix == network.prefix + level ==> !HoldsAll(b, used)
  {
    for k := 0 to Pow2(level)
      invariant forall j: nat :: j < k ==> !HoldsAll(Nth(network, level, j), used)
    {
      var block := Nth(network, level, k);
      EndsDecide(block, used);
      if block.Contains(least) && block.Contains(greatest) {
        NthIsCandidate(network, level, k);
        return Some(block);
      }
    }
    forall b | Candidate(network, b) && b.prefix == network.prefix + level
      ensures !HoldsAll(b, used)
    {
      var k := CandidateIsNth(network, b);
    }
    r := None;
  }

  /** The block by arithmetic: an aligned part of the network with a prefix up to 24 that has every address in use,
      while no smaller such part has; there is none if the subnet does not have its network's prefix, nothing is in
      use, or no such part has every address. */
  lemma UnhackedIs(network: Cidr, subnetPrefix: nat, used: seq<nat>, r: Option<Cidr>)
    requires IsUnhacked(network, subnetPrefix, used, r)
    ensures match r
            case Some(b) =>
              && subnetPrefix == network.prefix && used != []
              && network.prefix < b.prefix <= 24 && b.base % b.Size() == 0
              && network.base <= b.base && b.base + b.Size() <= network.base + network.Size()
              && (forall ip :: ip in used ==> b.base <= ip < b.base + b.Size())
              && forall c: Cidr :: b.prefix < c.prefix <= 24 && c.base % c.Size() == 0
                                   && network.base <= c.base && c.base + c.Size() <= network.base + network.Size() ==>
                   exists ip :: ip in used && !(c.base <= ip < c.base + c.Size())
            case None =>
              || subnetPrefix != network.prefix || used == []
              || forall c: Cidr :: network.prefix < c.prefix <= 24 && c.base % c.Size() == 0
                                   && network.base <= c.base && c.base + c.Size() <= network.base + network.Size() ==>
                   exists ip :: ip in used && !(c.base <= ip < c.base + c.Size())
  {
    forall c: Cidr | network.prefix < c.prefix <= 24 && c.base % c.Size() == 0
                     && network.base <= c.base && c.base + c.Size() <= network.base + network.Size()
      ensures Candidate(network, c)
    {
    }
    if r.None? && subnetPrefix == network.prefix && used != [] {
      forall c: Cidr | network.prefix < c.prefix <= 24 && c.base % c.Size() == 0
                       && network.base <= c.base && c.base + c.Size() <= network.base + network.Size()
        ensures exists ip :: ip in used && !(c.base <= ip < c.base + c.Size())
      {
        assert Candidate(network, c) && !HoldsAll(c, used);
      }
    }
  }

  // ---------------------------------------------------------------------------------------------
  // What it depends on
  // ---------------------------------------------------------------------------------------------

  /** There is only one such block. */
  lemma UnhackedIsUnique(network: Cidr, subnetPrefix: nat, used: seq<nat>, a: Option<Cidr>, b: Option<Cidr>)
    requires IsUnhacked(network, subnetPrefix, used, a) && IsUnhacked(network, subnetPrefix, used, b)
    ensures a == b
  {
    if a.Some? && b.Some? {
      NestedOrDisjoint(a.value, b.value);
      assert used[0] in used;
    }
  }

  /** It depends on the lowest and the highest address in use only. */
  lemma SameEndsSameBlock(network: Cidr, subnetPrefix: nat, used: seq<nat>, more: seq<nat>, r: Option<Cidr>)
    requires used != [] && more != [] && Least(used) == Least(more) && Ipam.MaxOf(used) == Ipam.MaxOf(more)
    requires IsUnhacked(network, subnetPrefix, used, r)
    ensures IsUnhacked(network, subnetPrefix, more, r)
  {
    forall b: Cidr
      ensures HoldsAll(b, used) <==> HoldsAll(b, more)
    {
      EndsDecide(b, used);
      EndsDecide(b, more);
    }
  }

  /** Using addresses of the block, which is where the search looks, leaves the block as it is; where there is none,
      using more addresses does not make one. */
  lemma GrantsKeepBlock(network: Cidr, subnetPrefix: nat, used: seq<nat>, more: seq<nat>, r: Option<Cidr>)
    requires used != [] && IsUnhacked(network, subnetPrefix, used, r) && (r.Some? ==> HoldsAll(r.value, more))
    ensures IsUnhacked(network, subnetPrefix, used + more, r)
  {
    forall b: Cidr
      ensures HoldsAll(b, used + more) <==> HoldsAll(b, used) && HoldsAll(b, more)
    {
      assert forall x :: x in used + more <==> x in used || x in more;
    }
  }

  // ---------------------------------------------------------------------------------------------
  // The subnets of the address search
  // ---------------------------------------------------------------------------------------------

  function AsBlock(r: Option<Cidr>): Option<Ipam.Block> {
    match r case None => None case Some(b) => Some(Ipam.Block(b.base, b.Size()))
  }

  /** `used` lists the addresses that the heuristic looks at: the reservations and both ends of the pool. */
  ghost predicate UsedBy(s: Ipam.Subnet, used: seq<nat>) {
    forall ip :: ip in used <==>
      ip in Ipam.Ips(s.reservations) || (s.dhcpStart.Some? && (ip == s.dhcpStart.value || ip == s.dhcpEnd))
  }

  /** The subnet has the block that a command works out for it. */
  ghost predicate UpToDate(network: Cidr, subnetPrefix: nat, s: Ipam.Subnet) {
    exists used, r :: WorkedOut(network, subnetPrefix, s, used, r)
  }

  ghost predicate WorkedOut(network: Cidr, subnetPrefix: nat, s: Ipam.Subnet, used: seq<nat>, r: Option<Cidr>) {
    UsedBy(s, used) && IsUnhacked(network, subnetPrefix, used, r) && s.unhacked == AsBlock(r)
  }

  /** A hacked subnet covers the network, so the block is a part of it. */
  lemma BlockIsInside(network: Cidr, subnetPrefix: nat, s: Ipam.Subnet)
    requires UpToDate(network, subnetPrefix, s)
    requires subnetPrefix == network.prefix ==> s.cidr == Ipam.Block(network.base, network.Size())
    ensures s.unhacked.Some? ==>
              && s.cidr.base <= s.unhacked.value.base
              && s.unhacked.value.base + s.unhacked.value.size <= s.cidr.base + s.cidr.size
  {
  }

  /** `after` is `before` with more addresses in use, all of them inside the block of the search. */
  lemma MoreKeepsUpToDate(network: Cidr, subnetPrefix: nat, before: Ipam.Subnet, after: Ipam.Subnet, more: set<nat>)
    requires UpToDate(network, subnetPrefix, before) && before.reservations != map[]
    requires after == before.(reservations := after.reservations)
    requires Ipam.Ips(after.reservations) == Ipam.Ips(before.reservations) + more
    requires forall ip :: ip in more ==> before.SearchBlock().Contains(ip)
    ensures UpToDate(network, subnetPrefix, after)
  {
    var used, block :| WorkedOut(network, subnetPrefix, before, used, block);
    var name :| name in before.reservations;
    assert before.reservations[name].ip in used;
    var list := ListOfSet(more);
    GrantsKeepBlock(network, subnetPrefix, used, list, block);
    assert WorkedOut(network, subnetPrefix, after, used + list, block);
  }

  /** The search takes an address of the block, so that the next command works out the same one. */
  lemma AdditionKeepsUpToDate(network: Cidr, subnetPrefix: nat, s: Ipam.Subnet, r: Ipam.Reservation, isFmnVip: bool)
    requires UpToDate(network, subnetPrefix, s) && s.reservations != map[] && r.name !in s.reservations
    requires Ipam.NextIp(s, isFmnVip) == Success(r.ip)
    ensures UpToDate(network, subnetPrefix, Ipam.WithReservation(s, r))
  {
    Ipam.WithReservationIps(s, r);
    MoreKeepsUpToDate(network, subnetPrefix, s, Ipam.WithReservation(s, r), {r.ip});
  }

  /** Over a whole series of allocate-ips runs, each of which works the block out anew, it stays the same. */
  lemma RunsKeepUpToDate(network: Cidr, subnetPrefix: nat, before: Ipam.Subnet, after: Ipam.Subnet, count: nat,
                         below: nat)
    requires UpToDate(network, subnetPrefix, before) && before.reservations != map[]
    requires NcnRuns.Room(before, count, below) && NcnRuns.Grown(before, after, count)
    ensures UpToDate(network, subnetPrefix, after)
  {
    MoreKeepsUpToDate(network, subnetPrefix, before, after, NcnPreReq.Above(Ipam.Highest(before), count));
  }

  /** Moving the pool within its end, above some reservation, does not change the block either. */
  lemma MovedPoolKeepsUpToDate(network: Cidr, subnetPrefix: nat, s: Ipam.Subnet, start: nat, low: nat)
    requires UpToDate(network, subnetPrefix, s) && s.dhcpStart.Some? && low in Ipam.Ips(s.reservations)
    requires low <= s.dhcpStart.value <= s.dhcpEnd && low <= start <= s.dhcpEnd
    ensures UpToDate(network, subnetPrefix, s.(dhcpStart := Some(start)))
  {
    var used, block :| WorkedOut(network, subnetPrefix, s, used, block);
    var moved := s.(dhcpStart := Some(start));
    var more := ListOfUsed(moved);
    assert low in used && s.dhcpEnd in used && low in more && s.dhcpEnd in more;
    SameEnds(s, start, used, more);
    SameEndsSameBlock(network, subnetPrefix, used, more, block);
    assert WorkedOut(network, subnetPrefix, moved, more, block);
  }

  lemma SameEnds(s: Ipam.Subnet, start: nat, used: seq<nat>, more: seq<nat>)
    requires s.dhcpStart.Some? && used != [] && more != []
    requires UsedBy(s, used) && UsedBy(s.(dhcpStart := Some(start)), more)
    requires exists low ::
                low in Ipam.Ips(s.reservations) && low <= s.dhcpStart.value <= s.dhcpEnd && low <= start <= s.dhcpEnd
    ensures Least(used) == Least(more) && Ipam.MaxOf(used) == Ipam.MaxOf(more)
  {
    var low :| low in Ipam.Ips(s.reservations) && low <= s.dhcpStart.value <= s.dhcpEnd && low <= start <= s.dhcpEnd;
    assert low in used && low in more && s.dhcpEnd in used && s.dhcpEnd in more;
  }

  lemma ListOfUsed(s: Ipam.Subnet) returns (used: seq<nat>)
    ensures UsedBy(s, used)
  {
    used := ListOfSet(Ipam.Ips(s.reservations));
    if s.dhcpStart.Some? {
      used := used + [s.dhcpStart.value, s.dhcpEnd];
    }
  }

  lemma {:induction false} ListOfSet(ips: set<nat>) returns (list: seq<nat>)
    ensures forall ip :: ip in list <==> ip in ips
  {
    if ips == {} {
      list := [];
    } else {
      var x :| x in ips;
      list := ListOfSet(ips - {x});
      list := [x] + list;
    }
  }
}
