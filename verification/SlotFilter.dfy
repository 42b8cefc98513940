/**
  The filter of defragment_nids.py: of the nodes that the inventory lists for a slot, those whose
  model does not fit the others are left out.
 */
module SlotFilter {
  /** A node in the hardware inventory of a slot, with the model of its FRU. */
  datatype NodeFru = NodeFru(id: string, model: string)

  datatype Scan = Scan(nodeType: string, mismatch: bool, node0Type: string)

  predicate EndsWith(s: string, end: string) {
    |end| <= |s| && s[|s| - |end|..] == end
  }

  lemma EndsWithIff(s: string, end: string)
    ensures EndsWith(s, end) <==> exists start :: s == start + end
  {
    if EndsWith(s, end) {
      assert s == s[..|s| - |end|] + end;
    }
  }

  /** One trip round the loop over the inventory. */
  function ScanOne(scan: Scan, n: NodeFru): Scan {
    var node0 := if EndsWith(n.id, "b0n0") then n.model else scan.node0Type;
    var node0' := if EndsWith(n.id, "b1n0") && node0 == "" then n.model else node0;
    var nodeType := if scan.nodeType == "" then n.model else scan.nodeType;
    Scan(nodeType, scan.mismatch || nodeType != n.model, node0')
  }

  function ScanFirst(nodes: seq<NodeFru>, count: nat): Scan
    requires count <= |nodes|
  {
    if count == 0 then Scan("", false, "") else ScanOne(ScanFirst(nodes, count - 1), nodes[count - 1])
  }

  /** Is the node kept, going by what the loop found? */
  predicate Fits(scan: Scan, n: NodeFru) {
    !scan.mismatch || scan.node0Type == n.model
  }

  /** The ids of the allowed nodes that fit (or do not), in the order of the inventory. */
  function Picked(nodes: seq<NodeFru>, allowed: set<string>, scan: Scan, fits: bool): seq<string> {
    if nodes == [] then []
    else
      (if nodes[0].id in allowed && Fits(scan, nodes[0]) == fits then [nodes[0].id] else [])
      + Picked(nodes[1..], allowed, scan, fits)
  }

  lemma {:induction false} PickedInTwo(a: seq<NodeFru>, b: seq<NodeFru>, allowed: set<string>, scan: Scan, fits: bool)
    ensures Picked(a + b, allowed, scan, fits) == Picked(a, allowed, scan, fits) + Picked(b, allowed, scan, fits)
  {
    if a == [] {
      assert a + b == b;
    } else {
      assert (a + b)[0] == a[0] && (a + b)[1..] == a[1..] + b;
      PickedInTwo(a[1..], b, allowed, scan, fits);
    }
  }

  lemma OneMorePicked(nodes: seq<NodeFru>, i: nat, allowed: set<string>, scan: Scan, fits: bool)
    requires i < |nodes|
    ensures Picked(nodes[..i + 1], allowed, scan, fits) == Picked(nodes[..i], allowed, scan, fits)
              + if nodes[i].id in allowed && Fits(scan, nodes[i]) == fits then [nodes[i].id] else []
  {
    assert nodes[..i + 1] == nodes[..i] + [nodes[i]];
    PickedInTwo(nodes[..i], [nodes[i]], allowed, scan, fits);
    assert [nodes[i]][1..] == [];
  }

  method FilterSlot(nodes: seq<NodeFru>, allowed: set<string>) returns (keep: seq<string>, mismatched: seq<string>)
    ensures keep == Picked(nodes, allowed, ScanFirst(nodes, |nodes|), true)
    ensures mismatched == Picked(nodes, allowed, ScanFirst(nodes, |nodes|), false)
  {
    var nodeType, mismatch, node0Type := "", false, "";
    for i := 0 to |nodes|
      invariant Scan(nodeType, mismatch, node0Type) == ScanFirst(nodes, i)
    {
      var n := nodes[i];
      if EndsWith(n.id, "b0n0") {
        node0Type := n.model;
      }
      if EndsWith(n.id, "b1n0") && node0Type == "" {
        node0Type := n.model;
      }
      if nodeType == "" {
        nodeType := n.model;
      }
      if nodeType != n.model {
        mismatch := true;
      }
    }
    ghost var scan := ScanFirst(nodes, |nodes|);
    keep, mismatched := [], [];
    for i := 0 to |nodes|
      invariant keep == Picked(nodes[..i], allowed, scan, true)
      invariant mismatched == Picked(nodes[..i], allowed, scan, false)
    {
      var n := nodes[i];
      OneMorePicked(nodes, i, allowed, scan, true);
      OneMorePicked(nodes, i, allowed, scan, false);
      if n.id in allowed {
        if !mismatch || node0Type == n.model {
          keep := keep + [n.id];
        } else {
          mismatched := mismatched + [n.id];
        }
      }
    }
    assert nodes[..|nodes|] == nodes;
  }

  /** The ids of the allowed nodes. */
  function AllowedIds(nodes: seq<NodeFru>, allowed: set<string>): seq<string> {
    if nodes == [] then []
    else (if nodes[0].id in allowed then [nodes[0].id] else []) + AllowedIds(nodes[1..], allowed)
  }

  /** Every allowed entry of the inventory lands in exactly one of the two lists. */
  lemma {:induction false} KeptOrMismatched(nodes: seq<NodeFru>, allowed: set<string>, scan: Scan)
    ensures multiset(Picked(nodes, allowed, scan, true)) + multiset(Picked(nodes, allowed, scan, false))
         == multiset(AllowedIds(nodes, allowed))
  {
    if nodes != [] {
      KeptOrMismatched(nodes[1..], allowed, scan);
    }
  }

  // ---------------------------------------------------------------------------------------------
  // What the filter means
  // ---------------------------------------------------------------------------------------------

  /** At most one node is b0n0, at most one is b1n0, and a node is listed with one model only. */
  ghost predicate OneOfEach(nodes: seq<NodeFru>) {
    && (forall m, n :: m in nodes && n in nodes && EndsWith(m.id, "b0n0") && EndsWith(n.id, "b0n0") ==> m == n)
    && (forall m, n :: m in nodes && n in nodes && EndsWith(m.id, "b1n0") && EndsWith(n.id, "b1n0") ==> m == n)
    && (forall m, n :: m in nodes && n in nodes && m.id == n.id ==> m == n)
  }

  /** It is not the case that b0n0 has no model while b1n0 has one. */
  ghost predicate Settled(nodes: seq<NodeFru>) {
    forall m, n :: m in nodes && n in nodes && EndsWith(m.id, "b0n0") && EndsWith(n.id, "b1n0") && m.model == "" ==>
        n.model == ""
  }

  ghost predicate NoneEmpty(nodes: seq<NodeFru>) {
    forall n :: n in nodes ==> n.model != ""
  }

  ghost predicate AllSame(nodes: seq<NodeFru>) {
    forall m, n :: m in nodes && n in nodes ==> m.model == n.model
  }

  /** At least two different models, the empty one not counted. */
  ghost predicate TwoModels(nodes: seq<NodeFru>) {
    exists m, n :: m in nodes && n in nodes && m.model != "" && n.model != "" && m.model != n.model
  }

  ghost predicate HasEnd(nodes: seq<NodeFru>, end: string) {
    exists n :: n in nodes && EndsWith(n.id, end)
  }

  /** The model that decides: that of b0n0, else that of b1n0, else none. */
  ghost predicate IsReference(nodes: seq<NodeFru>, model: string) {
    if HasEnd(nodes, "b0n0") then exists n :: n in nodes && EndsWith(n.id, "b0n0") && n.model == model
    else if HasEnd(nodes, "b1n0") then exists n :: n in nodes && EndsWith(n.id, "b1n0") && n.model == model
    else model == ""
  }

  lemma DifferentEnds(id: string)
    ensures !(EndsWith(id, "b0n0") && EndsWith(id, "b1n0"))
  {
    if EndsWith(id, "b0n0") {
      assert id[|id| - 4..][1] == '0';
    }
  }

  lemma TakeOneMore(nodes: seq<NodeFru>, count: nat)
    requires 0 < count <= |nodes|
    ensures nodes[..count] == nodes[..count - 1] + [nodes[count - 1]]
    ensures nodes[count - 1] in nodes && forall m :: m in nodes[..count - 1] ==> m in nodes
  {
  }

  /** The loop finds out which model decides, unless the empty model of b0n0 gets in its way. */
  lemma {:induction false} ScanFinds(nodes: seq<NodeFru>, count: nat)
    requires OneOfEach(nodes) && Settled(nodes) && count <= |nodes|
    ensures IsReference(nodes[..count], ScanFirst(nodes, count).node0Type)
  {
    if count == 0 {
      assert nodes[..0] == [];
    } else {
      ScanFinds(nodes, count - 1);
      TakeOneMore(nodes, count);
      ReferenceGrows(nodes, nodes[..count - 1], nodes[count - 1], ScanFirst(nodes, count - 1));
    }
  }

  lemma ReferenceGrows(nodes: seq<NodeFru>, before: seq<NodeFru>, n: NodeFru, scan: Scan)
    requires OneOfEach(nodes) && Settled(nodes) && n in nodes && forall m :: m in before ==> m in nodes
    requires IsReference(before, scan.node0Type)
    ensures IsReference(before + [n], ScanOne(scan, n).node0Type)
  {
    DifferentEnds(n.id);
    var after := before + [n];
    assert forall m :: m in after <==> m in before || m == n;
    assert forall end :: HasEnd(after, end) <==> HasEnd(before, end) || EndsWith(n.id, end);
  }

  /** Everything that comes after a model is that model again. */
  predicate Repeats(nodes: seq<NodeFru>, count: nat)
    requires count <= |nodes|
  {
    forall i, j :: 0 <= i < j < count && nodes[i].model != "" ==> nodes[j].model == nodes[i].model
  }

  /** The loop reports no mismatch exactly when the models, the empty ones at the front aside, are all the same:
      an empty model that comes later is a mismatch. */
  lemma {:induction false} ScanMismatch(nodes: seq<NodeFru>, count: nat)
    requires count <= |nodes|
    ensures var scan := ScanFirst(nodes, count);
            && (!scan.mismatch <==> Repeats(nodes, count))
            && (scan.nodeType == "" <==> forall i :: 0 <= i < count ==> nodes[i].model == "")
            && (!scan.mismatch ==> forall i :: 0 <= i < count && nodes[i].model != "" ==>
                nodes[i].model == scan.nodeType)
            && (scan.nodeType != "" ==> exists i :: 0 <= i < count && nodes[i].model == scan.nodeType)
  {
    if count > 0 {
      ScanMismatch(nodes, count - 1);
    }
  }

  lemma MismatchIs(nodes: seq<NodeFru>)
    ensures NoneEmpty(nodes) ==> (ScanFirst(nodes, |nodes|).mismatch <==> !AllSame(nodes))
    ensures TwoModels(nodes) ==> ScanFirst(nodes, |nodes|).mismatch
    ensures (forall n :: n in nodes ==> n.model == "") ==> !ScanFirst(nodes, |nodes|).mismatch
  {
    ScanMismatch(nodes, |nodes|);
    if NoneEmpty(nodes) && Repeats(nodes, |nodes|) {
      forall m, n | m in nodes && n in nodes
        ensures m.model == n.model
      {
        var i :| 0 <= i < |nodes| && nodes[i] == m;
        var j :| 0 <= j < |nodes| && nodes[j] == n;
        assert nodes[i].model != "" && nodes[j].model != "";
      }
    }
    if m, n :| m in nodes && n in nodes && m.model != "" && n.model != "" && m.model != n.model {
      var i :| 0 <= i < |nodes| && nodes[i] == m;
      var j :| 0 <= j < |nodes| && nodes[j] == n;
      assert !Repeats(nodes, |nodes|);
    }
  }

  /** Which nodes are kept, without any order. */
  ghost predicate Keeps(nodes: seq<NodeFru>, allowed: set<string>, n: NodeFru) {
    n in nodes && n.id in allowed && (AllSame(nodes) || IsReference(nodes, n.model))
  }

  lemma ReferenceIsOne(nodes: seq<NodeFru>, a: string, b: string)
    requires OneOfEach(nodes) && IsReference(nodes, a) && IsReference(nodes, b)
    ensures a == b
  {
  }

  lemma FitsIsKeeps(nodes: seq<NodeFru>, allowed: set<string>, n: NodeFru)
    requires OneOfEach(nodes) && NoneEmpty(nodes) && n in nodes && n.id in allowed
    ensures Fits(ScanFirst(nodes, |nodes|), n) <==> Keeps(nodes, allowed, n)
  {
    ScanFinds(nodes, |nodes|);
    MismatchIs(nodes);
    assert nodes[..|nodes|] == nodes;
    if IsReference(nodes, n.model) {
      ReferenceIsOne(nodes, n.model, ScanFirst(nodes, |nodes|).node0Type);
    }
  }

  // ---------------------------------------------------------------------------------------------
  // When the order of the inventory matters
  // ---------------------------------------------------------------------------------------------

  /** The same nodes fit. */
  ghost predicate SameKept(a: seq<NodeFru>, b: seq<NodeFru>) {
    forall n :: n in a ==> (Fits(ScanFirst(a, |a|), n) <==> Fits(ScanFirst(b, |b|), n))
  }

  /** The entries of `a` in another order. */
  ghost predicate Reorders(a: seq<NodeFru>, b: seq<NodeFru>) {
    multiset(a) == multiset(b)
  }

  ghost predicate OrderIrrelevant(nodes: seq<NodeFru>) {
    || NoneEmpty(nodes)
    || (forall n :: n in nodes ==> n.model == "")
    || (TwoModels(nodes) && Settled(nodes))
  }

  lemma SameElements(a: seq<NodeFru>, b: seq<NodeFru>)
    requires Reorders(a, b)
    ensures forall n :: n in a <==> n in b
  {
    forall n
      ensures n in a <==> n in b
    {
      assert n in a <==> n in multiset(a);
      assert n in b <==> n in multiset(b);
    }
  }

  lemma SameNodes(a: seq<NodeFru>, b: seq<NodeFru>, model: string)
    requires forall m :: m in a <==> m in b
    ensures AllSame(a) <==> AllSame(b)
    ensures IsReference(a, model) <==> IsReference(b, model)
  {
    assert HasEnd(a, "b0n0") <==> HasEnd(b, "b0n0");
    assert HasEnd(a, "b1n0") <==> HasEnd(b, "b1n0");
  }

  /** Whatever is listed twice or moved, the same nodes fit. */
  lemma OrderDoesNotMatter(a: seq<NodeFru>, b: seq<NodeFru>)
    requires OneOfEach(a) && OrderIrrelevant(a) && forall n :: n in a <==> n in b
    ensures SameKept(a, b)
  {
    MismatchIs(a);
    MismatchIs(b);
    assert AllSame(a) <==> AllSame(b);
    if NoneEmpty(a) || TwoModels(a) {
      assert Settled(a) && OneOfEach(b) && Settled(b);
      ScanFinds(a, |a|);
      ScanFinds(b, |b|);
      assert a[..|a|] == a && b[..|b|] == b;
      SameNodes(a, b, ScanFirst(a, |a|).node0Type);
      ReferenceIsOne(b, ScanFirst(a, |a|).node0Type, ScanFirst(b, |b|).node0Type);
    }
  }

  /** The entries with an empty model, and those with one. */
  function WithModel(nodes: seq<NodeFru>, some: bool): seq<NodeFru> {
    if nodes == [] then []
    else (if (nodes[0].model != "") == some then [nodes[0]] else []) + WithModel(nodes[1..], some)
  }

  lemma {:induction false} WithModelAre(nodes: seq<NodeFru>)
    ensures multiset(WithModel(nodes, true)) + multiset(WithModel(nodes, false)) == multiset(nodes)
    ensures forall n :: n in WithModel(nodes, true) <==> n in nodes && n.model != ""
    ensures forall n :: n in WithModel(nodes, false) <==> n in nodes && n.model == ""
  {
    if nodes != [] {
      assert nodes == [nodes[0]] + nodes[1..];
      WithModelAre(nodes[1..]);
    }
  }

  lemma EmptyFirst(none: seq<NodeFru>, some: seq<NodeFru>)
    requires forall n :: n in none ==> n.model == ""
    requires forall m, n :: m in some && n in some ==> m.model == n.model
    ensures Repeats(none + some, |none + some|)
  {
    var a := none + some;
    assert forall k :: 0 <= k < |none| ==> none[k].model == "";
    forall i, j | 0 <= i < j < |a| && a[i].model != ""
      ensures a[j].model == a[i].model
    {
      assert i >= |none|;
      assert some[i - |none|] in some && some[j - |none|] in some;
    }
  }

  lemma EmptyLast(some: seq<NodeFru>, none: seq<NodeFru>, x: NodeFru, e: NodeFru)
    requires x in some && e in none && x.model != "" && e.model == ""
    ensures !Repeats(some + none, |some + none|)
  {
    var i :| 0 <= i < |some| && some[i] == x;
    var j :| 0 <= j < |none| && none[j] == e;
    assert (some + none)[i] == x && (some + none)[|some| + j] == e;
  }

  /** One model and no model: listing those without a model first hides the mismatch. */
  lemma OneModelDepends(nodes: seq<NodeFru>, e: NodeFru, x: NodeFru) returns (a: seq<NodeFru>, b: seq<NodeFru>)
    requires e in nodes && x in nodes && e.model == "" && x.model != "" && !TwoModels(nodes)
    ensures Reorders(nodes, a) && Reorders(nodes, b) && !SameKept(a, b)
  {
    var none, some := WithModel(nodes, false), WithModel(nodes, true);
    WithModelAre(nodes);
    a, b := none + some, some + none;
    EmptyFirst(none, some);
    EmptyLast(some, none, x, e);
    ScanMismatch(a, |a|);
    ScanMismatch(b, |b|);
    assert e in a && x in a;
    OneIsLeftOut(ScanFirst(b, |b|), e, x);
  }

  lemma OneIsLeftOut(scan: Scan, e: NodeFru, x: NodeFru)
    requires scan.mismatch && e.model != x.model
    ensures !Fits(scan, e) || !Fits(scan, x)
  {
  }

  /** Two models, none for b0n0, one for b1n0: it depends on which of the two comes later. */
  lemma EmptyFirstDepends(nodes: seq<NodeFru>, k: nat, l: nat) returns (a: seq<NodeFru>, b: seq<NodeFru>)
    requires DistinctEntries(nodes) && TwoModels(nodes) && k < |nodes| && l < |nodes|
    requires EndsWith(nodes[k].id, "b0n0") && nodes[k].model == ""
    requires EndsWith(nodes[l].id, "b1n0") && nodes[l].model != ""
    ensures Reorders(nodes, a) && Reorders(nodes, b) && !SameKept(a, b)
  {
    var m, rest := nodes[k], nodes[..k] + nodes[k + 1..];
    a, b := [m] + rest, rest + [m];
    MovedToEnds(nodes, k);
    SameElements(nodes, a);
    SameElements(nodes, b);
    MismatchIs(a);
    MismatchIs(b);
    DecidedFirst(nodes, k, l);
    DecidedLast(rest, m);
    assert a[0] == m;
    assert m in a;
  }

  lemma MovedToEnds(nodes: seq<NodeFru>, k: nat)
    requires k < |nodes|
    ensures var rest := nodes[..k] + nodes[k + 1..];
            Reorders(nodes, [nodes[k]] + rest) && Reorders(nodes, rest + [nodes[k]])
  {
    assert nodes == nodes[..k] + [nodes[k]] + nodes[k + 1..];
  }

  lemma DecidedLast(rest: seq<NodeFru>, m: NodeFru)
    requires EndsWith(m.id, "b0n0")
    ensures ScanFirst(rest + [m], |rest + [m]|).node0Type == m.model
  {
    DifferentEnds(m.id);
    assert (rest + [m])[|rest|] == m;
  }

  lemma DecidedFirst(nodes: seq<NodeFru>, k: nat, l: nat)
    requires DistinctEntries(nodes) && k < |nodes| && l < |nodes|
    requires EndsWith(nodes[k].id, "b0n0") && EndsWith(nodes[l].id, "b1n0") && nodes[l].model != ""
    ensures var a := [nodes[k]] + (nodes[..k] + nodes[k + 1..]); ScanFirst(a, |a|).node0Type != ""
  {
    var a := [nodes[k]] + (nodes[..k] + nodes[k + 1..]);
    DifferentEnds(nodes[l].id);
    var p := if l < k then l + 1 else l;
    assert a[p] == nodes[l];
    forall i | 0 < i < |a|
      ensures !EndsWith(a[i].id, "b0n0")
    {
      assert a[i] == if i - 1 < k then nodes[i - 1] else nodes[i];
    }
    ModelStays(a, |a|, p);
  }

  /** No id is listed twice, and neither is a b0n0 nor a b1n0. */
  predicate DistinctEntries(nodes: seq<NodeFru>) {
    forall i, j :: 0 <= i < j < |nodes| ==>
      && nodes[i].id != nodes[j].id
      && !(EndsWith(nodes[i].id, "b0n0") && EndsWith(nodes[j].id, "b0n0"))
      && !(EndsWith(nodes[i].id, "b1n0") && EndsWith(nodes[j].id, "b1n0"))
  }

  lemma {:induction false} ModelStays(nodes: seq<NodeFru>, count: nat, p: nat)
    requires 0 < p < count <= |nodes| && EndsWith(nodes[p].id, "b1n0") && nodes[p].model != ""
    requires forall i :: 0 < i < |nodes| ==> !EndsWith(nodes[i].id, "b0n0")
    ensures ScanFirst(nodes, count).node0Type != ""
  {
    if p < count - 1 {
      ModelStays(nodes, count - 1, p);
    }
  }

  lemma DistinctIsOneOfEach(nodes: seq<NodeFru>)
    requires DistinctEntries(nodes)
    ensures OneOfEach(nodes)
  {
    forall m, n | m in nodes && n in nodes && m != n
      ensures m.id != n.id && !(EndsWith(m.id, "b0n0") && EndsWith(n.id, "b0n0"))
                           && !(EndsWith(m.id, "b1n0") && EndsWith(n.id, "b1n0"))
    {
      var i :| 0 <= i < |nodes| && nodes[i] == m;
      var j :| 0 <= j < |nodes| && nodes[j] == n;
      assert i != j;
    }
  }

  /** The kept nodes of a slot are the same for every order of the inventory if and only if no model is empty, or
      all are, or there are two models and it is not the case that b0n0 has none while b1n0 has one. */
  lemma OrderDoesNotMatterIff(nodes: seq<NodeFru>)
    requires DistinctEntries(nodes)
    ensures (forall order :: Reorders(nodes, order) ==> SameKept(nodes, order)) <==> OrderIrrelevant(nodes)
  {
    DistinctIsOneOfEach(nodes);
    if OrderIrrelevant(nodes) {
      forall order | Reorders(nodes, order)
        ensures SameKept(nodes, order)
      {
        SameElements(nodes, order);
        OrderDoesNotMatter(nodes, order);
      }
    } else {
      var a, b := DependsOnOrder(nodes);
      SameElements(nodes, a);
      assert !(SameKept(nodes, a) && SameKept(nodes, b));
    }
  }

  lemma DependsOnOrder(nodes: seq<NodeFru>) returns (a: seq<NodeFru>, b: seq<NodeFru>)
    requires DistinctEntries(nodes) && !OrderIrrelevant(nodes)
    ensures Reorders(nodes, a) && Reorders(nodes, b) && !SameKept(a, b)
  {
    if TwoModels(nodes) {
      var m, n :| m in nodes && n in nodes && EndsWith(m.id, "b0n0") && EndsWith(n.id, "b1n0") && m.model == ""
          && n.model != "";
      var k :| 0 <= k < |nodes| && nodes[k] == m;
      var l :| 0 <= l < |nodes| && nodes[l] == n;
      a, b := EmptyFirstDepends(nodes, k, l);
    } else {
      var e :| e in nodes && e.model == "";
      var x :| x in nodes && x.model != "";
      a, b := OneModelDepends(nodes, e, x);
    }
  }

  /** All kept nodes have one model, and when models differ it is that of b0n0, else of b1n0. */
  lemma KeptShareAModel(nodes: seq<NodeFru>, allowed: set<string>, m: NodeFru, n: NodeFru)
    requires OneOfEach(nodes) && Keeps(nodes, allowed, m) && Keeps(nodes, allowed, n)
    ensures m.model == n.model
    ensures !AllSame(nodes) ==> IsReference(nodes, m.model)
  {
    if !AllSame(nodes) {
      ReferenceIsOne(nodes, m.model, n.model);
    }
  }

  /** With an empty model name the order does matter: the same three nodes, two results. */
  lemma EmptyModelsDependOnOrder()
    ensures var bare, a, b := NodeFru("x1c0s0b0n0", ""), NodeFru("x1c0s0b0n1", "A"), NodeFru("x1c0s0b1n0", "A");
            Fits(ScanFirst([bare, a, b], 3), bare) && !Fits(ScanFirst([a, bare, b], 3), bare)
  {
    var bare, a, b := NodeFru("x1c0s0b0n0", ""), NodeFru("x1c0s0b0n1", "A"), NodeFru("x1c0s0b1n0", "A");
    var p, q := [bare, a, b], [a, bare, b];
    assert EndsWith(bare.id, "b0n0") && !EndsWith(bare.id, "b1n0");
    assert a.id[6..] == "b0n1" && a.id[6..][3] == '1' && a.id[6..][1] == '0';
    assert !EndsWith(a.id, "b0n0") && !EndsWith(a.id, "b1n0");
    assert b.id[6..] == "b1n0" && b.id[6..][1] == '1';
    assert !EndsWith(b.id, "b0n0") && EndsWith(b.id, "b1n0");
    assert ScanFirst(p, 1) == Scan("", false, "");
    assert ScanFirst(p, 2) == Scan("A", false, "");
    assert ScanFirst(p, 3) == Scan("A", false, "A");
    assert ScanFirst(q, 1) == Scan("A", false, "");
    assert ScanFirst(q, 2) == Scan("A", true, "");
    assert ScanFirst(q, 3) == Scan("A", true, "A");
  }
}
