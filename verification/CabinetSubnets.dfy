/**
  add_liquid_cooled_cabinet.py, networks: every new cabinet gets the next free /22 of a network.

  Prefix blocks are aligned as RFC 4632 section 3.1 has them: a block of prefix p starts at a multiple
  of its size, 2 to the power of 32 - p.
 */
module CabinetSubnets {
  import opened Outcomes

  const CABINET_PREFIX: nat := 22

  function Pow2(n: nat): (r: nat)
    ensures r >= 1
  {
    if n == 0 then 1 else 2 * Pow2(n - 1)
  }

  datatype Cidr = Cidr(base: nat, prefix: nat) {
    ghost predicate Valid() {
      prefix <= 32 && base % Size() == 0
    }

    function Size(): (n: nat)
      ensures n >= 1
    {
      Pow2(if prefix <= 32 then 32 - prefix else 0)
    }

    predicate Contains(ip: int) {
      base <= ip < base + Size()
    }
  }

  predicate Inside(a: Cidr, b: Cidr) {
    b.base <= a.base && a.base + a.Size() <= b.base + b.Size()
  }

  predicate Disjoint(a: Cidr, b: Cidr) {
    a.base + a.Size() <= b.base || b.base + b.Size() <= a.base
  }

  // ---------------------------------------------------------------------------------------------
  // Aligned blocks
  // ---------------------------------------------------------------------------------------------

  lemma {:induction false} Pow2Divides(i: nat, j: nat)
    requires i <= j
    ensures Pow2(j) == Pow2(i) * Pow2(j - i)
    decreases j - i
  {
    if i < j {
      Pow2Divides(i, j - 1);
      assert Pow2(j) == 2 * (Pow2(i) * Pow2(j - 1 - i)) == Pow2(i) * (2 * Pow2(j - 1 - i));
    }
  }

  lemma MulAssoc(a: int, b: int, c: int)
    ensures (a * b) * c == a * (b * c)
  {
  }

  lemma MulMonotone(n: nat, a: int, b: int)
    requires a <= b
    ensures a * n <= b * n
  {
  }

  /** A stretch of m multiples of `n` contains a block of size `n` that starts at a multiple of `n`, or
      has nothing in common with it. */
  lemma MultiplesNest(n: nat, m: nat, a: nat, b: nat)
    requires n >= 1 && n * m >= 1 && a % n == 0 && b % (n * m) == 0
    ensures a + n <= b || b + n * m <= a || (b <= a && a + n <= b + n * m)
  {
    var q, t := a / n, b / (n * m);
    assert a == q * n && b == t * (n * m);
    var lo := t * m;
    assert b == lo * n by { MulAssoc(t, m, n); }
    assert b + n * m == (lo + m) * n;
    if q + 1 <= lo {
      MulMonotone(n, q + 1, lo);
    } else if lo + m <= q {
      MulMonotone(n, lo + m, q);
    } else {
      MulMonotone(n, lo, q);
      MulMonotone(n, q + 1, lo + m);
    }
  }

  /** Two aligned blocks are nested or disjoint. */
  lemma NestedOrDisjoint(a: Cidr, b: Cidr)
    requires a.Valid() && b.Valid() && b.prefix <= a.prefix
    ensures Inside(a, b) || Disjoint(a, b)
  {
    var i, j := 32 - a.prefix, 32 - b.prefix;
    Pow2Divides(i, j);
    MultiplesNest(Pow2(i), Pow2(j - i), a.base, b.base);
  }

  // ---------------------------------------------------------------------------------------------
  // The search
  // ---------------------------------------------------------------------------------------------

  /** Membership in netaddr's IPSet, which merges blocks: every address of `b` is in one of them. */
  predicate Covered(existing: seq<Cidr>, b: Cidr) {
    forall ip :: b.base <= ip < b.base + b.Size() ==> CoveredAt(existing, ip)
  }

  predicate CoveredAt(existing: seq<Cidr>, ip: int) {
    exists e :: e in existing && e.Contains(ip)
  }

  /** How many /22 blocks the network has. */
  function Blocks(network: Cidr): nat {
    if network.prefix <= CABINET_PREFIX then Pow2(CABINET_PREFIX - network.prefix) else 0
  }

  /** The k-th /22 of the network. */
  function Nth(network: Cidr, k: nat): Cidr {
    Cidr(network.base + k * 1024, CABINET_PREFIX)
  }

  /** The first block that is not covered. */
  ghost predicate IsNext(network: Cidr, existing: seq<Cidr>, k: nat) {
    && k < Blocks(network)
    && !Covered(existing, Nth(network, k))
    && forall j: nat :: j < k ==> Covered(existing, Nth(network, j))
  }

  method FindNextAvailableSubnet(network: Cidr, existing: seq<Cidr>) returns (r: Option<Cidr>)
    ensures r.Some? ==> exists k :: IsNext(network, existing, k) && r.value == Nth(network, k)
    ensures r.None? ==> forall j: nat :: j < Blocks(network) ==> Covered(existing, Nth(network, j))
  {
    for k := 0 to Blocks(network)
      invariant forall j: nat :: j < k ==> Covered(existing, Nth(network, j))
    {
      if !Covered(existing, Nth(network, k)) {
        assert IsNext(network, existing, k);
        return Some(Nth(network, k));
      }
    }
    return None;
  }

  lemma BlockSize()
    ensures Pow2(10) == 1024
  {
    assert Pow2(4) == 16;
    Pow2Divides(4, 8);
    Pow2Divides(8, 10);
    assert Pow2(2) == 4;
  }

  lemma MultipleOf1024(k: int)
    ensures (1024 * k) % 1024 == 0
  {
  }

  lemma ExactQuotient(a: nat, n: nat)
    requires n >= 1 && a % n == 0
    ensures a == (a / n) * n
  {
  }

  lemma NthIsValid(network: Cidr, k: nat)
    requires network.Valid() && network.prefix <= CABINET_PREFIX && k < Blocks(network)
    ensures Nth(network, k).Valid() && Nth(network, k).Size() == 1024 && Inside(Nth(network, k), network)
  {
    BlockSize();
    var blocks := Blocks(network);
    Pow2Divides(10, 32 - network.prefix);
    assert network.Size() == blocks * 1024;
    var t := network.base / network.Size();
    ExactQuotient(network.base, network.Size());
    MulAssoc(t, blocks, 1024);
    assert Nth(network, k).base == 1024 * (t * blocks + k);
    MultipleOf1024(t * blocks + k);
  }

  /** Every existing subnet is an aligned block of at least the size of a /22. */
  ghost predicate Large(existing: seq<Cidr>) {
    forall e :: e in existing ==> e.Valid() && e.prefix <= CABINET_PREFIX
  }

  /** An uncovered block overlaps an existing subnet if and only if one that is smaller lies inside it. */
  lemma OverlapsIffSmallerInside(existing: seq<Cidr>, b: Cidr)
    requires b.Valid() && !Covered(existing, b) && forall e :: e in existing ==> e.Valid()
    ensures (exists e :: e in existing && !Disjoint(b, e)) <==>
                (exists e :: e in existing && b.prefix < e.prefix && Inside(e, b))
  {
    forall e | e in existing
      ensures !Disjoint(b, e) ==> b.prefix < e.prefix && Inside(e, b)
    {
      if e.prefix <= b.prefix {
        NestedOrDisjoint(b, e);
        assert !Inside(b, e) by {
          var ip :| b.base <= ip < b.base + b.Size() && !CoveredAt(existing, ip);
          assert !e.Contains(ip);
        }
      } else {
        NestedOrDisjoint(e, b);
      }
    }
    forall e | e in existing && Inside(e, b)
      ensures !Disjoint(b, e)
    {
    }
  }

  ghost predicate PairwiseDisjoint(subnets: seq<Cidr>) {
    forall i, j :: 0 <= i < j < |subnets| ==> Disjoint(subnets[i], subnets[j])
  }

  /** Adding a cabinet's subnet keeps the subnets apart, provided the existing ones are large. */
  lemma NextKeepsDisjoint(network: Cidr, existing: seq<Cidr>, k: nat)
    requires network.Valid() && Large(existing) && PairwiseDisjoint(existing) && IsNext(network, existing, k)
    ensures PairwiseDisjoint(existing + [Nth(network, k)]) && Large(existing + [Nth(network, k)])
    ensures Inside(Nth(network, k), network)
  {
    var b := Nth(network, k);
    NthIsValid(network, k);
    OverlapsIffSmallerInside(existing, b);
    forall i | 0 <= i < |existing|
      ensures Disjoint(existing[i], b)
    {
      assert existing[i] in existing;
      assert Disjoint(b, existing[i]);
    }
  }

  /** `after` is `before` after any number of cabinets. */
  ghost predicate Grows(network: Cidr, before: seq<Cidr>, after: seq<Cidr>, count: nat)
    decreases count
  {
    if count == 0 then after == before
    else exists k :: IsNext(network, before, k) && Grows(network, before + [Nth(network, k)], after, count - 1)
  }

  lemma FirstGrowth(network: Cidr, before: seq<Cidr>, after: seq<Cidr>, count: nat) returns (next: seq<Cidr>)
    requires network.Valid() && Large(before) && PairwiseDisjoint(before) && count > 0
                && Grows(network, before, after, count)
    ensures PairwiseDisjoint(next) && Large(next) && |next| == |before| + 1 && Grows(network, next, after, count - 1)
  {
    var k :| IsNext(network, before, k) && Grows(network, before + [Nth(network, k)], after, count - 1);
    next := before + [Nth(network, k)];
    NextKeepsDisjoint(network, before, k);
  }

  lemma {:induction false} GrowingKeepsDisjoint(network: Cidr, before: seq<Cidr>, after: seq<Cidr>, count: nat)
    requires network.Valid() && Large(before) && PairwiseDisjoint(before) && Grows(network, before, after, count)
    ensures PairwiseDisjoint(after) && Large(after) && |after| == |before| + count
    decreases count
  {
    if count > 0 {
      var next := FirstGrowth(network, before, after, count);
      GrowingKeepsDisjoint(network, next, after, count - 1);
    }
  }

  // ---------------------------------------------------------------------------------------------
  // How many cabinets fit
  // ---------------------------------------------------------------------------------------------

  function FirstBlocks(network: Cidr, count: nat): seq<Cidr> {
    seq(count, k requires k >= 0 => Nth(network, k))
  }

  /** With the first `count` blocks in use, the next one is block `count`, if there is one. */
  lemma NextAfterFirst(network: Cidr, count: nat, k: nat)
    ensures IsNext(network, FirstBlocks(network, count), k) <==> k == count && count < Blocks(network)
  {
    var existing := FirstBlocks(network, count);
    BlockSize();
    forall j: nat
      ensures Covered(existing, Nth(network, j)) <==> j < count
    {
      if j < count {
        assert existing[j] == Nth(network, j);
        forall ip | Nth(network, j).base <= ip < Nth(network, j).base + Nth(network, j).Size()
          ensures CoveredAt(existing, ip)
        {
          assert existing[j] in existing && existing[j].Contains(ip);
        }
      } else {
        var ip := Nth(network, j).base;
        forall e | e in existing
          ensures !e.Contains(ip)
        {
          var i :| 0 <= i < |existing| && existing[i] == e;
        }
        assert !CoveredAt(existing, ip);
      }
    }
    assert !Covered(existing, Nth(network, count));
  }

  /** From an empty network of prefix p <= 22, exactly 2^(22 - p) cabinets can be added. */
  lemma {:induction false} ExactlyAllBlocksFit(network: Cidr, used: nat, count: nat)
    ensures (exists after :: Grows(network, FirstBlocks(network, used), after, count)) <==>
                used + count <= Blocks(network) || count == 0
    decreases count
  {
    var before := FirstBlocks(network, used);
    if count == 0 {
      assert Grows(network, before, before, 0);
    } else {
      var next := FirstBlocks(network, used + 1);
      NextAfterFirst(network, used, used);
      assert before + [Nth(network, used)] == next;
      ExactlyAllBlocksFit(network, used + 1, count - 1);
      forall after
        ensures Grows(network, before, after, count) <==>
                    used < Blocks(network) && Grows(network, next, after, count - 1)
      {
        if k :| IsNext(network, before, k) && Grows(network, before + [Nth(network, k)], after, count - 1) {
          NextAfterFirst(network, used, k);
        }
      }
      if after :| Grows(network, before, after, count) {
        assert Grows(network, next, after, count - 1);
      }
      if used + count <= Blocks(network) {
        var after :| Grows(network, next, after, count - 1);
        assert Grows(network, before, after, count);
      }
    }
  }

  /** By addresses: as many cabinets fit into an empty network as it has stretches of 1024 addresses. */
  lemma CabinetsFitIff(network: Cidr, count: nat)
    requires network.prefix <= 32
    ensures (exists after :: Grows(network, [], after, count)) <==> count * 1024 <= network.Size()
  {
    ExactlyAllBlocksFit(network, 0, count);
    assert FirstBlocks(network, 0) == [];
    BlockSize();
    if network.prefix <= 22 {
      Pow2Divides(10, 32 - network.prefix);
      assert network.Size() == 1024 * Blocks(network);
    } else {
      Pow2Divides(32 - network.prefix, 10);
      assert Pow2(10) == network.Size() * Pow2(network.prefix - 22) && Pow2(network.prefix - 22) >= 2;
    }
  }
}
