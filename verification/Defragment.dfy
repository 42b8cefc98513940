/** defragment_nids.py: gives the working compute nodes consecutive node IDs, in the order of their xnames. */
module Defragment {
  import opened Outcomes
  import opened Sequences
  import Text

  /** A node in HSM; its xname is the key. */
  datatype Component = Component(nid: int, hwClass: string)

  /** A node in SLS. */
  datatype SlsEntry = SlsEntry(nid: int, hwClass: string)

  datatype Change = Change(id: string, nid: int, hwClass: string)

  type Hsm = map<string, Component>
  type Sls = map<string, SlsEntry>

  datatype DefragError = RangeTaken | NoChassisClass | SlsPutFailed | PatchFailed | PostFailed

  // ---------------------------------------------------------------------------------------------
  // The order of xnames
  // ---------------------------------------------------------------------------------------------

  predicate Before(a: string, b: string) {
    b != "" && (a == "" || a[0] < b[0] || (a[0] == b[0] && Before(a[1..], b[1..])))
  }

  lemma {:induction false} BeforeIsTotal(a: string, b: string)
    ensures Before(a, b) || a == b || Before(b, a)
    ensures !(Before(a, b) && Before(b, a)) && !Before(a, a)
  {
    if a != "" && b != "" {
      BeforeIsTotal(a[1..], b[1..]);
      assert a == [a[0]] + a[1..] && b == [b[0]] + b[1..];
    }
    if a != "" {
      BeforeIsTotal(a[1..], a[1..]);
    }
  }

  lemma {:induction false} BeforeIsTransitive(a: string, b: string, c: string)
    requires Before(a, b) && Before(b, c)
    ensures Before(a, c)
  {
    if a != "" && a[0] == b[0] == c[0] {
      BeforeIsTransitive(a[1..], b[1..], c[1..]);
    }
  }

  /** list.sort(): what the library does, for distinct xnames. */
  function Sorted(ids: seq<string>): (r: seq<string>)
    ensures |r| == |ids| && forall id :: id in r <==> id in ids
  {
    if ids == [] then [] else
      assert ids == [ids[0]] + ids[1..];
      InsertSorted(ids[0], Sorted(ids[1..]))
  }

  function InsertSorted(id: string, ids: seq<string>): (r: seq<string>)
    ensures |r| == |ids| + 1 && forall x :: x in r <==> x == id || x in ids
  {
    if ids == [] || Before(id, ids[0]) then [id] + ids
    else
      assert ids == [ids[0]] + ids[1..];
      [ids[0]] + InsertSorted(id, ids[1..])
  }

  ghost predicate Increasing(ids: seq<string>) {
    forall i, j :: 0 <= i < j < |ids| ==> Before(ids[i], ids[j])
  }

  lemma {:induction false} InsertKeepsIncreasing(id: string, ids: seq<string>)
    requires Increasing(ids) && id !in ids
    ensures Increasing(InsertSorted(id, ids))
  {
    if ids != [] {
      var r := InsertSorted(id, ids);
      if Before(id, ids[0]) {
        forall j | 1 <= j < |ids|
          ensures Before(id, ids[j])
        {
          BeforeIsTransitive(id, ids[0], ids[j]);
        }
      } else {
        BeforeIsTotal(id, ids[0]);
        InsertKeepsIncreasing(id, ids[1..]);
        forall j | 1 <= j < |r|
          ensures Before(r[0], r[j])
        {
          assert r[j] in r[1..];
        }
      }
    }
  }

  lemma {:induction false} SortedIsIncreasing(ids: seq<string>)
    requires NoRepeats(ids)
    ensures Increasing(Sorted(ids))
  {
    if ids != [] {
      SortedIsIncreasing(ids[1..]);
      InsertKeepsIncreasing(ids[0], Sorted(ids[1..]));
    }
  }

  // ---------------------------------------------------------------------------------------------
  // The plan
  // ---------------------------------------------------------------------------------------------

  /** node['ID'].split('s')[0] */
  function ChassisXname(id: string): string {
    Text.Split(id, 's')[0]
  }

  /** The new ID and class of each node; `classOf` is what SLS says of a chassis. */
  ghost function Plan(ids: seq<string>, start: int, classOf: string -> Option<string>): Option<seq<Change>> {
    if ids == [] then Some([])
    else if classOf(ChassisXname(ids[0])).None? then None
    else
      var rest := Plan(ids[1..], start + 1, classOf);
      if rest.None? then None
      else Some([Change(ids[0], start, classOf(ChassisXname(ids[0])).value)] + rest.value)
  }

  /** The plan with what has already been planned in front. */
  ghost function After(changes: seq<Change>, plan: Option<seq<Change>>): Option<seq<Change>> {
    match plan case None => None case Some(rest) => Some(changes + rest)
  }

  lemma AfterNothing(plan: Option<seq<Change>>)
    ensures After([], plan) == plan
  {
    if plan.Some? {
      assert [] + plan.value == plan.value;
    }
  }

  lemma PlanOneMore(changes: seq<Change>, ids: seq<string>, i: nat, start: int, classOf: string -> Option<string>,
                    chassisClass: string)
    requires i < |ids| && classOf(ChassisXname(ids[i])) == Some(chassisClass)
    ensures After(changes, Plan(ids[i..], start, classOf))
         == After(changes + [Change(ids[i], start, chassisClass)], Plan(ids[i + 1..], start + 1, classOf))
  {
    var rest := Plan(ids[i + 1..], start + 1, classOf);
    assert ids[i..][1..] == ids[i + 1..];
    if rest.Some? {
      assert changes + ([Change(ids[i], start, chassisClass)] + rest.value)
          == changes + [Change(ids[i], start, chassisClass)] + rest.value;
    }
  }

  /** The class of a chassis is looked up only when the chassis changes. */
  method MakePlan(ids: seq<string>, start: int, classOf: string -> Option<string>) returns (r: Option<seq<Change>>)
    ensures r == Plan(ids, start, classOf)
  {
    var currentNid := start;
    var chassisClass, myChassis := "", "";
    var changes: seq<Change> := [];
    ghost var whole := Plan(ids, start, classOf);
    assert ids[0..] == ids;
    AfterNothing(whole);
    for i := 0 to |ids|
      invariant currentNid == start + i
      invariant chassisClass != "" ==> classOf(myChassis) == Some(chassisClass)
      invariant whole == After(changes, Plan(ids[i..], currentNid, classOf))
    {
      var chassis := ChassisXname(ids[i]);
      if chassisClass == "" || myChassis != chassis {
        myChassis := chassis;
        var found := classOf(myChassis);
        if found.None? {
          return None;
        }
        chassisClass := found.value;
      }
      PlanOneMore(changes, ids, i, currentNid, classOf, chassisClass);
      changes := changes + [Change(ids[i], currentNid, chassisClass)];
      currentNid := currentNid + 1;
    }
    assert changes + [] == changes;
    return Some(changes);
  }

  lemma {:induction false} PlanNumbers(ids: seq<string>, start: int, classOf: string -> Option<string>)
    requires Plan(ids, start, classOf).Some?
    ensures var changes := Plan(ids, start, classOf).value;
            && |changes| == |ids|
            && forall i :: 0 <= i < |ids| ==>
                 changes[i].id == ids[i] && changes[i].nid == start + i
                     && classOf(ChassisXname(ids[i])) == Some(changes[i].hwClass)
  {
    if ids != [] {
      PlanNumbers(ids[1..], start + 1, classOf);
    }
  }

  ghost predicate Planned(changes: seq<Change>, id: string, nid: int) {
    exists c :: c in changes && c.id == id && c.nid == nid
  }

  predicate InRange(start: int, count: nat, nid: int) {
    start <= nid < start + count
  }

  lemma PlannedIff(ids: seq<string>, start: int, classOf: string -> Option<string>, id: string, nid: int)
    requires Plan(ids, start, classOf).Some?
    ensures Planned(Plan(ids, start, classOf).value, id, nid) <==> InRange(start, |ids|, nid) && ids[nid - start] == id
  {
    PlanNumbers(ids, start, classOf);
    var changes := Plan(ids, start, classOf).value;
    if InRange(start, |ids|, nid) && ids[nid - start] == id {
      assert changes[nid - start] in changes;
    }
  }

  /** Exactly the working nodes are planned. */
  lemma PlannedNodes(working: seq<string>, start: int, classOf: string -> Option<string>, id: string)
    requires Plan(Sorted(working), start, classOf).Some?
    ensures id in working <==> exists nid :: Planned(Plan(Sorted(working), start, classOf).value, id, nid)
  {
    var ids := Sorted(working);
    if id in ids {
      var i :| 0 <= i < |ids| && ids[i] == id;
      PlannedIff(ids, start, classOf, id, start + i);
    }
    if nid :| Planned(Plan(ids, start, classOf).value, id, nid) {
      PlannedIff(ids, start, classOf, id, nid);
    }
  }

  /** Exactly the IDs of the range are planned. */
  lemma PlannedIds(working: seq<string>, start: int, classOf: string -> Option<string>, nid: int)
    requires Plan(Sorted(working), start, classOf).Some?
    ensures InRange(start, |working|, nid) <==>
                exists id :: Planned(Plan(Sorted(working), start, classOf).value, id, nid)
  {
    var ids := Sorted(working);
    if InRange(start, |working|, nid) {
      PlannedIff(ids, start, classOf, ids[nid - start], nid);
    }
    if id :| Planned(Plan(ids, start, classOf).value, id, nid) {
      PlannedIff(ids, start, classOf, id, nid);
    }
  }

  /** The plan is a bijection from the working nodes to [start, start + n), increasing with the xname. */
  lemma PlanIsBijection(working: seq<string>, start: int, classOf: string -> Option<string>)
    requires NoRepeats(working) && Plan(Sorted(working), start, classOf).Some?
    ensures var changes := Plan(Sorted(working), start, classOf).value;
            && (forall id :: id in working <==> exists nid :: Planned(changes, id, nid))
            && (forall nid :: InRange(start, |working|, nid) <==> exists id :: Planned(changes, id, nid))
            && (forall a, m, b, n :: Planned(changes, a, m) && Planned(changes, b, n) ==>
                  (a == b <==> m == n) && (Before(a, b) <==> m < n))
  {
    var changes := Plan(Sorted(working), start, classOf).value;
    forall id
      ensures id in working <==> exists nid :: Planned(changes, id, nid)
    {
      PlannedNodes(working, start, classOf, id);
    }
    forall nid
      ensures InRange(start, |working|, nid) <==> exists id :: Planned(changes, id, nid)
    {
      PlannedIds(working, start, classOf, nid);
    }
    forall a, m, b, n | Planned(changes, a, m) && Planned(changes, b, n)
      ensures (a == b <==> m == n) && (Before(a, b) <==> m < n)
    {
      PlannedInOrder(working, start, classOf, a, m, b, n);
    }
  }

  lemma PlannedInOrder(working: seq<string>, start: int, classOf: string -> Option<string>, a: string, m: int,
                       b: string, n: int)
    requires NoRepeats(working) && Plan(Sorted(working), start, classOf).Some?
    requires var changes := Plan(Sorted(working), start, classOf).value;
             Planned(changes, a, m) && Planned(changes, b, n)
    ensures (a == b <==> m == n) && (Before(a, b) <==> m < n)
  {
    var i := PlaceOf(working, start, classOf, a, m);
    var j := PlaceOf(working, start, classOf, b, n);
    InOrder(working, i, j);
  }

  lemma PlaceOf(working: seq<string>, start: int, classOf: string -> Option<string>, id: string, nid: int)
    returns (i: nat)
    requires Plan(Sorted(working), start, classOf).Some?
                && Planned(Plan(Sorted(working), start, classOf).value, id, nid)
    ensures i < |working| && Sorted(working)[i] == id && nid == start + i
  {
    i := PlaceIn(Sorted(working), start, classOf, id, nid);
  }

  lemma PlaceIn(ids: seq<string>, start: int, classOf: string -> Option<string>, id: string, nid: int) returns (i: nat)
    requires Plan(ids, start, classOf).Some? && Planned(Plan(ids, start, classOf).value, id, nid)
    ensures i < |ids| && ids[i] == id && nid == start + i
  {
    PlannedIff(ids, start, classOf, id, nid);
    i := nid - start;
  }

  lemma InOrder(working: seq<string>, i: nat, j: nat)
    requires NoRepeats(working) && i < |working| && j < |working|
    ensures var ids := Sorted(working); (ids[i] == ids[j] <==> i == j) && (Before(ids[i], ids[j]) <==> i < j)
  {
    SortedIsIncreasing(working);
    BeforeIsTotal(Sorted(working)[i], Sorted(working)[j]);
  }

  // ---------------------------------------------------------------------------------------------
  // Making the changes
  // ---------------------------------------------------------------------------------------------

  /** The nodes HSM knows with an ID in the wanted range. */
  predicate InWay(hsm: Hsm, allowed: set<string>, start: int, count: nat, id: string) {
    id in hsm && InRange(start, count, hsm[id].nid) && id !in allowed
  }

  /** HSM without the dead nodes: allowed nodes that are not working. The deletes of `stuck` fail. */
  function WithoutDead(hsm: Hsm, allowed: set<string>, working: seq<string>, stuck: set<string>): Hsm {
    map id | id in hsm && (id !in allowed || id in working || id in stuck) :: hsm[id]
  }

  /** SLS without the entries of other nodes that have an ID in the range. */
  function WithoutConflicts(sls: Sls, allowed: set<string>, start: int, count: nat, stuck: set<string>): Sls {
    map id | id in sls && (!InRange(start, count, sls[id].nid) || id in allowed || id in stuck) :: sls[id]
  }

  function PutChanges(sls: Sls, changes: seq<Change>): Sls
    decreases |changes|
  {
    if changes == [] then sls
    else PutChanges(sls[changes[0].id := SlsEntry(changes[0].nid, changes[0].hwClass)], changes[1..])
  }

  /** Patching the IDs changes those of nodes HSM knows; the classes stay. */
  function PatchNids(hsm: Hsm, changes: seq<Change>): Hsm
    decreases |changes|
  {
    if changes == [] then hsm
    else if changes[0].id in hsm
        then PatchNids(hsm[changes[0].id := hsm[changes[0].id].(nid := changes[0].nid)], changes[1..])
    else PatchNids(hsm, changes[1..])
  }

  /** Posting the components changes the classes only. */
  function PostClasses(hsm: Hsm, changes: seq<Change>): Hsm
    decreases |changes|
  {
    if changes == [] then hsm
    else if changes[0].id in hsm
        then PostClasses(hsm[changes[0].id := hsm[changes[0].id].(hwClass := changes[0].hwClass)], changes[1..])
    else PostClasses(hsm, changes[1..])
  }

  /** The run gets as far as patching the IDs in HSM. */
  ghost predicate Patches(hsm: Hsm, allowed: set<string>, working: seq<string>, start: int,
                          classOf: string -> Option<string>, dryrun: bool, slsPuts: nat, patched: bool) {
    && !(exists id :: InWay(hsm, allowed, start, |working|, id))
    && Plan(Sorted(working), start, classOf).Some?
    && !dryrun && |working| <= slsPuts && patched
  }

  /** HSM after a run, whichever way it ends. */
  ghost function HsmAfter(hsm: Hsm, allowed: set<string>, working: seq<string>, stuck: set<string>, start: int,
                          classOf: string -> Option<string>, dryrun: bool, slsPuts: nat, patched: bool,
                          posted: bool): Hsm {
    var plan := Plan(Sorted(working), start, classOf);
    if (exists id :: InWay(hsm, allowed, start, |working|, id)) || plan.None? || dryrun then hsm
    else
      var cleared := WithoutDead(hsm, allowed, working, stuck);
      if slsPuts < |working| || !patched then cleared
      else if !posted then PatchNids(cleared, plan.value)
      else PostClasses(PatchNids(cleared, plan.value), plan.value)
  }

  /** SLS after a run, whichever way it ends. */
  ghost function SlsAfter(hsm: Hsm, sls: Sls, allowed: set<string>, working: seq<string>, stuck: set<string>,
                          start: int, classOf: string -> Option<string>, dryrun: bool, slsPuts: nat): Sls {
    var plan := Plan(Sorted(working), start, classOf);
    if (exists id :: InWay(hsm, allowed, start, |working|, id)) || plan.None? || dryrun then sls
    else
      var changes := plan.value;
      PutChanges(WithoutConflicts(sls, allowed, start, |working|, stuck),
                 if |changes| <= slsPuts then changes else changes[..slsPuts])
  }

  class Services {
    var hsm: Hsm
    var sls: Sls

    constructor (hsm: Hsm, sls: Sls)
      ensures this.hsm == hsm && this.sls == sls
    {
      this.hsm := hsm;
      this.sls := sls;
    }

    /** The loop of PUT requests to SLS; `puts` of them succeed, and the next one fails and ends the run. */
    method PutAll(changes: seq<Change>, puts: nat) returns (ok: bool)
      modifies this`sls
      ensures ok <==> |changes| <= puts
      ensures sls == PutChanges(old(sls), if ok then changes else changes[..puts])
    {
      for i := 0 to |changes|
        invariant i <= puts && sls == PutChanges(old(sls), changes[..i])
      {
        if i == puts {
          return false;
        }
        PutOneMore(old(sls), changes, i);
        sls := sls[changes[i].id := SlsEntry(changes[i].nid, changes[i].hwClass)];
      }
      assert changes[..|changes|] == changes;
      return true;
    }

    /** Deletes the SLS entries in the range and the dead nodes of HSM, as far as the deletes succeed. */
    method Clear(allowed: set<string>, working: seq<string>, start: int, stuckSls: set<string>, stuckHsm: set<string>)
      modifies this
      ensures sls == WithoutConflicts(old(sls), allowed, start, |working|, stuckSls)
      ensures hsm == WithoutDead(old(hsm), allowed, working, stuckHsm)
    {
      var conflicts := set id | id in sls && InRange(start, |working|, sls[id].nid) && id !in allowed;
      var dead := set id | id in allowed && id !in working;
      sls := sls - (conflicts - stuckSls);
      hsm := hsm - (dead - stuckHsm);
    }

    /** The changes go to SLS first, then to HSM in two requests. */
    method WriteChanges(changes: seq<Change>, slsPuts: nat, patched: bool, posted: bool)
      returns (r: Result<seq<Change>, DefragError>)
      modifies this
      ensures sls == PutChanges(old(sls), if |changes| <= slsPuts then changes else changes[..slsPuts])
      ensures if slsPuts < |changes| then r == Failure(SlsPutFailed) && hsm == old(hsm)
              else if !patched then r == Failure(PatchFailed) && hsm == old(hsm)
              else if !posted then r == Failure(PostFailed) && hsm == PatchNids(old(hsm), changes)
              else r == Success(changes) && hsm == PostClasses(PatchNids(old(hsm), changes), changes)
    {
      var put := PutAll(changes, slsPuts);
      if !put {
        return Failure(SlsPutFailed);
      }
      if !patched {
        return Failure(PatchFailed);
      }
      hsm := PatchNids(hsm, changes);
      if !posted {
        return Failure(PostFailed);
      }
      hsm := PostClasses(hsm, changes);
      return Success(changes);
    }

    /** Does a node that is not allowed have an ID of the range? */
    method RangeIsTaken(allowed: set<string>, start: int, count: nat) returns (taken: bool)
      ensures taken <==> exists id :: InWay(hsm, allowed, start, count, id)
    {
      var inWay := set id | id in hsm && InWay(hsm, allowed, start, count, id);
      assert forall id :: InWay(hsm, allowed, start, count, id) ==> id in inWay;
      taken := inWay != {};
      assert taken ==> exists id :: id in inWay;
    }

    /** `stuckSls` and `stuckHsm` are the nodes whose deletes fail, `slsPuts` is how many PUT requests
        succeed, and the last two say whether HSM takes the patch and the post. */
    method Defragment(allowed: set<string>, working: seq<string>, start: int, classOf: string -> Option<string>,
                      dryrun: bool, stuckSls: set<string>, stuckHsm: set<string>, slsPuts: nat, patched: bool,
                      posted: bool)
      returns (r: Result<seq<Change>, DefragError>)
      modifies this
      ensures (exists id :: InWay(old(hsm), allowed, start, |working|, id)) ==>
                r == Failure(RangeTaken) && hsm == old(hsm) && sls == old(sls)
      ensures !(exists id :: InWay(old(hsm), allowed, start, |working|, id)) ==>
                var plan := Plan(Sorted(working), start, classOf);
                if plan.None? then r == Failure(NoChassisClass) && hsm == old(hsm) && sls == old(sls)
                else if dryrun then r == Success(plan.value) && hsm == old(hsm) && sls == old(sls)
                else
                  var cleared := WithoutDead(old(hsm), allowed, working, stuckHsm);
                  var slsCleared := WithoutConflicts(old(sls), allowed, start, |working|, stuckSls);
                  if slsPuts < |plan.value| then
                    r == Failure(SlsPutFailed) && hsm == cleared && sls == PutChanges(slsCleared, plan.value[..slsPuts])
                  else
                    && sls == PutChanges(slsCleared, plan.value)
                    && if !patched then r == Failure(PatchFailed) && hsm == cleared
                       else if !posted then r == Failure(PostFailed) && hsm == PatchNids(cleared, plan.value)
                       else r == Success(plan.value) && hsm == PostClasses(PatchNids(cleared, plan.value), plan.value)
      ensures hsm == HsmAfter(old(hsm), allowed, working, stuckHsm, start, classOf, dryrun, slsPuts, patched, posted)
      ensures sls == SlsAfter(old(hsm), old(sls), allowed, working, stuckSls, start, classOf, dryrun, slsPuts)
    {
      var taken := RangeIsTaken(allowed, start, |working|);
      if taken {
        return Failure(RangeTaken);
      }
      var plan := MakePlan(Sorted(working), start, classOf);
      if plan.None? {
        return Failure(NoChassisClass);
      }
      if dryrun {
        return Success(plan.value);
      }
      PlanNumbers(Sorted(working), start, classOf);
      Clear(allowed, working, start, stuckSls, stuckHsm);
      r := WriteChanges(plan.value, slsPuts, patched, posted);
    }
  }

  lemma {:induction false} PutOneMore(sls: Sls, changes: seq<Change>, i: nat)
    requires i < |changes|
    ensures PutChanges(sls, changes[..i + 1])
         == PutChanges(sls, changes[..i])[changes[i].id := SlsEntry(changes[i].nid, changes[i].hwClass)]
    decreases i
  {
    if i > 0 {
      PutOneMore(sls[changes[0].id := SlsEntry(changes[0].nid, changes[0].hwClass)], changes[1..], i - 1);
      assert changes[1..][..i - 1] == changes[..i][1..] && changes[1..][..i] == changes[..i + 1][1..];
    }
  }

  // ---------------------------------------------------------------------------------------------
  // What the changes keep
  // ---------------------------------------------------------------------------------------------

  ghost predicate UniqueNids(hsm: Hsm) {
    forall a, b :: a in hsm && b in hsm && a != b ==> hsm[a].nid != hsm[b].nid
  }

  function WithNid(hsm: Hsm, id: string, nid: int): Hsm {
    if id in hsm then hsm[id := hsm[id].(nid := nid)] else hsm
  }

  lemma PatchFirst(hsm: Hsm, ids: seq<string>, start: int, classOf: string -> Option<string>)
    requires ids != [] && Plan(ids, start, classOf).Some?
    ensures Plan(ids[1..], start + 1, classOf).Some?
    ensures PatchNids(hsm, Plan(ids, start, classOf).value)
         == PatchNids(WithNid(hsm, ids[0], start), Plan(ids[1..], start + 1, classOf).value)
  {
    var changes := Plan(ids, start, classOf).value;
    assert changes[0].id == ids[0] && changes[0].nid == start;
    assert changes[1..] == Plan(ids[1..], start + 1, classOf).value;
  }

  lemma {:induction false} PatchedNids(hsm: Hsm, ids: seq<string>, start: int, classOf: string -> Option<string>)
    requires NoRepeats(ids) && Plan(ids, start, classOf).Some?
    ensures var after := PatchNids(hsm, Plan(ids, start, classOf).value);
            && after.Keys == hsm.Keys
            && (forall id :: id in hsm && id !in ids ==> after[id] == hsm[id])
            && (forall i :: 0 <= i < |ids| && ids[i] in hsm ==> after[ids[i]].nid == start + i)
    decreases |ids|
  {
    if ids != [] {
      PatchFirst(hsm, ids, start, classOf);
      PatchedNids(WithNid(hsm, ids[0], start), ids[1..], start + 1, classOf);
      assert ids == [ids[0]] + ids[1..];
      assert ids[0] !in ids[1..];
      forall i | 1 <= i < |ids|
        ensures ids[i] == ids[1..][i - 1]
      {
      }
    }
  }

  lemma {:induction false} PostedNids(hsm: Hsm, changes: seq<Change>)
    ensures var after := PostClasses(hsm, changes);
            after.Keys == hsm.Keys && (forall id :: id in hsm ==> after[id].nid == hsm[id].nid)
            && forall id :: id in hsm && (forall c :: c in changes ==> c.id != id) ==> after[id] == hsm[id]
    decreases |changes|
  {
    if changes != [] {
      assert changes == [changes[0]] + changes[1..];
      PostedNids(if changes[0].id in hsm then hsm[changes[0].id := hsm[changes[0].id].(hwClass := changes[0].hwClass)]
                 else hsm,
                 changes[1..]);
    }
  }

  /** HSM after a run that goes all the way. */
  ghost function Defragmented(hsm: Hsm, allowed: set<string>, working: seq<string>, stuck: set<string>,
                              changes: seq<Change>): Hsm {
    PostClasses(PatchNids(WithoutDead(hsm, allowed, working, stuck), changes), changes)
  }

  /** A dead node whose delete failed still holds an ID in the range. */
  ghost predicate StuckInRange(hsm: Hsm, allowed: set<string>, working: seq<string>, stuck: set<string>, start: int,
                               id: string) {
    id in hsm && id in allowed && id !in working && id in stuck && InRange(start, |working|, hsm[id].nid)
  }

  /** What the working list is: known to HSM, allowed, and without repeats. */
  ghost predicate GoodWorking(hsm: Hsm, allowed: set<string>, working: seq<string>) {
    NoRepeats(working) && forall id :: id in working ==> id in hsm && id in allowed
  }

  lemma DefragmentedIs(hsm: Hsm, allowed: set<string>, working: seq<string>, stuck: set<string>, start: int,
                       classOf: string -> Option<string>)
    requires GoodWorking(hsm, allowed, working) && Plan(Sorted(working), start, classOf).Some?
    ensures var after := Defragmented(hsm, allowed, working, stuck, Plan(Sorted(working), start, classOf).value);
            && after.Keys == WithoutDead(hsm, allowed, working, stuck).Keys
            && (forall id :: id in after && id !in working ==> after[id] == hsm[id])
            && forall i :: 0 <= i < |working| ==> after[Sorted(working)[i]].nid == start + i
  {
    var ids := Sorted(working);
    var changes := Plan(ids, start, classOf).value;
    var cleared := WithoutDead(hsm, allowed, working, stuck);
    SortedIsDistinct(working);
    PatchedNids(cleared, ids, start, classOf);
    PostedNids(PatchNids(cleared, changes), changes);
    ChangesAreWorking(working, start, classOf);
  }

  lemma SortedIsDistinct(ids: seq<string>)
    requires NoRepeats(ids)
    ensures NoRepeats(Sorted(ids))
  {
    SortedIsIncreasing(ids);
    forall i, j | 0 <= i < j < |ids|
      ensures Sorted(ids)[i] != Sorted(ids)[j]
    {
      BeforeIsTotal(Sorted(ids)[i], Sorted(ids)[j]);
    }
  }

  lemma ChangesAreWorking(working: seq<string>, start: int, classOf: string -> Option<string>)
    requires Plan(Sorted(working), start, classOf).Some?
    ensures forall c :: c in Plan(Sorted(working), start, classOf).value ==> c.id in working
  {
    var ids := Sorted(working);
    PlanNumbers(ids, start, classOf);
    forall c | c in Plan(ids, start, classOf).value
      ensures c.id in working
    {
      var i :| 0 <= i < |ids| && Plan(ids, start, classOf).value[i] == c;
      assert ids[i] in ids;
    }
  }

  lemma StuckBreaksUnique(hsm: Hsm, allowed: set<string>, working: seq<string>, stuck: set<string>, start: int,
                          classOf: string -> Option<string>, id: string)
    requires GoodWorking(hsm, allowed, working) && Plan(Sorted(working), start, classOf).Some?
    requires StuckInRange(hsm, allowed, working, stuck, start, id)
    ensures !UniqueNids(Defragmented(hsm, allowed, working, stuck, Plan(Sorted(working), start, classOf).value))
  {
    DefragmentedIs(hsm, allowed, working, stuck, start, classOf);
    var after := Defragmented(hsm, allowed, working, stuck, Plan(Sorted(working), start, classOf).value);
    var other := Sorted(working)[hsm[id].nid - start];
    assert other in Sorted(working);
    assert id in after && other in after && other != id && after[other].nid == after[id].nid;
  }

  lemma OtherOutsideRange(hsm: Hsm, allowed: set<string>, working: seq<string>, stuck: set<string>, start: int,
                          b: string)
    requires b in WithoutDead(hsm, allowed, working, stuck) && b !in working
    requires !InWay(hsm, allowed, start, |working|, b) && !StuckInRange(hsm, allowed, working, stuck, start, b)
    ensures b in hsm && !InRange(start, |working|, hsm[b].nid)
  {
  }

  lemma UniqueWithoutStuck(hsm: Hsm, allowed: set<string>, working: seq<string>, stuck: set<string>, start: int,
                           classOf: string -> Option<string>)
    requires GoodWorking(hsm, allowed, working) && UniqueNids(hsm)
    requires forall id ::
                !InWay(hsm, allowed, start, |working|, id) && !StuckInRange(hsm, allowed, working, stuck, start, id)
    requires Plan(Sorted(working), start, classOf).Some?
    ensures UniqueNids(Defragmented(hsm, allowed, working, stuck, Plan(Sorted(working), start, classOf).value))
  {
    var after := Defragmented(hsm, allowed, working, stuck, Plan(Sorted(working), start, classOf).value);
    forall a, b | a in after && b in after && a != b
      ensures after[a].nid != after[b].nid
    {
      TwoDiffer(hsm, allowed, working, stuck, start, classOf, a, b);
    }
  }

  /** A working node has the ID of its place, another node its own ID outside the range. */
  lemma IdAfter(hsm: Hsm, allowed: set<string>, working: seq<string>, stuck: set<string>, start: int,
                classOf: string -> Option<string>, id: string) returns (place: nat)
    requires GoodWorking(hsm, allowed, working) && Plan(Sorted(working), start, classOf).Some?
    requires !InWay(hsm, allowed, start, |working|, id) && !StuckInRange(hsm, allowed, working, stuck, start, id)
    requires id in Defragmented(hsm, allowed, working, stuck, Plan(Sorted(working), start, classOf).value)
    ensures var nid := Defragmented(hsm, allowed, working, stuck, Plan(Sorted(working), start, classOf).value)[id].nid;
            if id in working then place < |working| && Sorted(working)[place] == id && nid == start + place
            else id in hsm && nid == hsm[id].nid && !InRange(start, |working|, nid)
  {
    DefragmentedIs(hsm, allowed, working, stuck, start, classOf);
    place := 0;
    if id in Sorted(working) {
      place :| place < |Sorted(working)| && Sorted(working)[place] == id;
    } else {
      OtherOutsideRange(hsm, allowed, working, stuck, start, id);
    }
  }

  lemma TwoDiffer(hsm: Hsm, allowed: set<string>, working: seq<string>, stuck: set<string>, start: int,
                  classOf: string -> Option<string>, a: string, b: string)
    requires GoodWorking(hsm, allowed, working) && UniqueNids(hsm)
    requires forall id ::
                !InWay(hsm, allowed, start, |working|, id) && !StuckInRange(hsm, allowed, working, stuck, start, id)
    requires Plan(Sorted(working), start, classOf).Some?
    requires var after := Defragmented(hsm, allowed, working, stuck, Plan(Sorted(working), start, classOf).value);
             a in after && b in after && a != b
    ensures var after := Defragmented(hsm, allowed, working, stuck, Plan(Sorted(working), start, classOf).value);
            after[a].nid != after[b].nid
  {
    var i := IdAfter(hsm, allowed, working, stuck, start, classOf, a);
    var j := IdAfter(hsm, allowed, working, stuck, start, classOf, b);
  }

  /** If the IDs in HSM were unique, they are unique afterwards if and only if no dead node whose
      delete failed still holds one of the IDs. Nodes that are not allowed are never touched. */
  lemma NidsStayUniqueIff(hsm: Hsm, allowed: set<string>, working: seq<string>, stuck: set<string>, start: int,
                          classOf: string -> Option<string>)
    requires GoodWorking(hsm, allowed, working) && UniqueNids(hsm)
    requires forall id :: !InWay(hsm, allowed, start, |working|, id)
    requires Plan(Sorted(working), start, classOf).Some?
    ensures var after := Defragmented(hsm, allowed, working, stuck, Plan(Sorted(working), start, classOf).value);
            && (UniqueNids(after) <==> !exists id :: StuckInRange(hsm, allowed, working, stuck, start, id))
            && forall id :: id in hsm && id !in allowed ==> id in after && after[id] == hsm[id]
  {
    DefragmentedIs(hsm, allowed, working, stuck, start, classOf);
    if id :| StuckInRange(hsm, allowed, working, stuck, start, id) {
      StuckBreaksUnique(hsm, allowed, working, stuck, start, classOf, id);
    } else {
      UniqueWithoutStuck(hsm, allowed, working, stuck, start, classOf);
    }
  }

  /** However a run ends, unique IDs in HSM stay unique, unless it patched them while a dead node whose delete failed
      still held one of the range. */
  lemma EveryEndIsUniqueIff(hsm: Hsm, allowed: set<string>, working: seq<string>, stuck: set<string>, start: int,
                            classOf: string -> Option<string>, dryrun: bool, slsPuts: nat, patched: bool, posted: bool)
    requires GoodWorking(hsm, allowed, working) && UniqueNids(hsm)
    ensures UniqueNids(HsmAfter(hsm, allowed, working, stuck, start, classOf, dryrun, slsPuts, patched, posted))
       <==> !(Patches(hsm, allowed, working, start, classOf, dryrun, slsPuts, patched)
              && exists id :: StuckInRange(hsm, allowed, working, stuck, start, id))
  {
    if Patches(hsm, allowed, working, start, classOf, dryrun, slsPuts, patched) {
      NidsStayUniqueIff(hsm, allowed, working, stuck, start, classOf);
      var changes := Plan(Sorted(working), start, classOf).value;
      PostedNids(PatchNids(WithoutDead(hsm, allowed, working, stuck), changes), changes);
    }
  }

  // ---------------------------------------------------------------------------------------------
  // SLS afterwards
  // ---------------------------------------------------------------------------------------------

  /** The entry of another node: not one of the first `puts` of the plan. */
  ghost predicate NotPut(working: seq<string>, puts: nat, id: string) {
    forall i :: 0 <= i < |working| && i < puts ==> Sorted(working)[i] != id
  }

  /** The PUT requests so far: each node has what was sent, the others are as before. */
  lemma {:induction false} PutFirst(sls: Sls, changes: seq<Change>, puts: nat)
    requires puts <= |changes| && forall i, j :: 0 <= i < j < |changes| ==> changes[i].id != changes[j].id
    ensures var after := PutChanges(sls, changes[..puts]);
            && (forall i :: 0 <= i < puts ==>
                  changes[i].id in after && after[changes[i].id] == SlsEntry(changes[i].nid, changes[i].hwClass))
            && forall id :: (forall i :: 0 <= i < puts ==> changes[i].id != id) ==>
                 (id in after <==> id in sls) && (id in sls ==> after[id] == sls[id])
    decreases puts
  {
    if puts > 0 {
      PutFirst(sls, changes, puts - 1);
      PutOneMore(sls, changes, puts - 1);
    }
  }

  /** The changes that are sent when `puts` requests succeed. */
  lemma PlanIsPut(sls: Sls, working: seq<string>, start: int, classOf: string -> Option<string>, puts: nat)
    requires NoRepeats(working) && Plan(Sorted(working), start, classOf).Some?
    ensures var changes := Plan(Sorted(working), start, classOf).value;
            var after := PutChanges(sls, if |changes| <= puts then changes else changes[..puts]);
            && (forall i :: 0 <= i < |working| && i < puts ==>
                  var id := Sorted(working)[i];
                  && id in after && classOf(ChassisXname(id)).Some?
                  && after[id] == SlsEntry(start + i, classOf(ChassisXname(id)).value))
            && forall id :: NotPut(working, puts, id) ==>
                 (id in after <==> id in sls) && (id in sls ==> after[id] == sls[id])
  {
    var ids := Sorted(working);
    SortedIsDistinct(working);
    PlanNumbers(ids, start, classOf);
    var changes := Plan(ids, start, classOf).value;
    assert changes[..|changes|] == changes;
    PutFirst(sls, changes, if |changes| <= puts then |changes| else puts);
  }

  /** SLS after the dead entries of the range are gone and `puts` of the nodes have been written. */
  lemma SlsAfterIs(hsm: Hsm, sls: Sls, allowed: set<string>, working: seq<string>, stuck: set<string>, start: int,
                   classOf: string -> Option<string>, puts: nat)
    requires NoRepeats(working) && Plan(Sorted(working), start, classOf).Some?
    requires forall id :: id in hsm && start <= hsm[id].nid < start + |working| ==> id in allowed
    ensures var after := SlsAfter(hsm, sls, allowed, working, stuck, start, classOf, false, puts);
            && (forall i :: 0 <= i < |working| && i < puts ==>
                  var id := Sorted(working)[i];
                  && id in after && classOf(ChassisXname(id)).Some?
                  && after[id] == SlsEntry(start + i, classOf(ChassisXname(id)).value))
            && (forall id :: NotPut(working, puts, id) ==>
                  && (id in after <==> id in sls && (id in allowed || id in stuck || sls[id].nid < start
                                                     || sls[id].nid >= start + |working|))
                  && (id in after ==> after[id] == sls[id]))
  {
    assert forall id :: !InWay(hsm, allowed, start, |working|, id);
    PlanIsPut(WithoutConflicts(sls, allowed, start, |working|, stuck), working, start, classOf, puts);
  }

  /** The ID of an entry afterwards: that of its place in the plan if it has been written, otherwise its own. */
  lemma EntryAfter(hsm: Hsm, sls: Sls, allowed: set<string>, working: seq<string>, stuck: set<string>, start: int,
                   classOf: string -> Option<string>, puts: nat, id: string) returns (place: nat)
    requires NoRepeats(working) && Plan(Sorted(working), start, classOf).Some?
    requires forall other :: other in hsm && start <= hsm[other].nid < start + |working| ==> other in allowed
    requires id in SlsAfter(hsm, sls, allowed, working, stuck, start, classOf, false, puts)
    ensures var nid := SlsAfter(hsm, sls, allowed, working, stuck, start, classOf, false, puts)[id].nid;
            if NotPut(working, puts, id) then
              && id in sls && nid == sls[id].nid
              && (id in allowed || id in stuck || nid < start || nid >= start + |working|)
            else place < |working| && place < puts && Sorted(working)[place] == id && nid == start + place
  {
    SlsAfterIs(hsm, sls, allowed, working, stuck, start, classOf, puts);
    place := 0;
    if !NotPut(working, puts, id) {
      place :| 0 <= place < |working| && place < puts && Sorted(working)[place] == id;
    }
  }

  /** Unique IDs in SLS, which need not be those of HSM, stay unique exactly when no entry that the run may not or
      cannot delete, and has not written anew, has one of the IDs written so far. */
  lemma SlsStaysUniqueIff(hsm: Hsm, sls: Sls, allowed: set<string>, working: seq<string>, stuck: set<string>,
                          start: int, classOf: string -> Option<string>, puts: nat)
    requires NoRepeats(working) && Plan(Sorted(working), start, classOf).Some?
    requires forall id :: id in hsm && start <= hsm[id].nid < start + |working| ==> id in allowed
    requires forall a, b :: a in sls && b in sls && a != b ==> sls[a].nid != sls[b].nid
    ensures var after := SlsAfter(hsm, sls, allowed, working, stuck, start, classOf, false, puts);
            (forall a, b :: a in after && b in after && a != b ==> after[a].nid != after[b].nid) <==>
            !exists id :: id in sls && (id in allowed || id in stuck) && NotPut(working, puts, id)
                            && start <= sls[id].nid < start + |working| && sls[id].nid < start + puts
  {
    SlsAfterIs(hsm, sls, allowed, working, stuck, start, classOf, puts);
    var after := SlsAfter(hsm, sls, allowed, working, stuck, start, classOf, false, puts);
    var ids := Sorted(working);
    if id :| id in sls && (id in allowed || id in stuck) && NotPut(working, puts, id)
             && start <= sls[id].nid < start + |working| && sls[id].nid < start + puts {
      var other := ids[sls[id].nid - start];
      assert other in after && after[other].nid == after[id].nid && other != id;
    } else {
      forall a, b | a in after && b in after && a != b
        ensures after[a].nid != after[b].nid
      {
        var i := EntryAfter(hsm, sls, allowed, working, stuck, start, classOf, puts, a);
        var j := EntryAfter(hsm, sls, allowed, working, stuck, start, classOf, puts, b);
      }
    }
  }

  // ---------------------------------------------------------------------------------------------
  // HSM afterwards
  // ---------------------------------------------------------------------------------------------

  /** The chassis of a node is what stands before the first s in its xname. */
  lemma ChassisIs(chassis: string, rest: string)
    requires 's' !in chassis
    ensures ChassisXname(chassis + "s" + rest) == chassis
  {
    Text.FirstPart(chassis, 's', rest);
    assert chassis + "s" + rest == chassis + ['s'] + rest;
  }

  lemma {:induction false} PostedClasses(hsm: Hsm, changes: seq<Change>, k: nat)
    requires k < |changes| && changes[k].id in hsm
    requires forall i, j :: 0 <= i < j < |changes| ==> changes[i].id != changes[j].id
    ensures PostClasses(hsm, changes).Keys == hsm.Keys
    ensures PostClasses(hsm, changes)[changes[k].id].hwClass == changes[k].hwClass
    decreases |changes|
  {
    var first := changes[0];
    var hsm' := if first.id in hsm then hsm[first.id := hsm[first.id].(hwClass := first.hwClass)] else hsm;
    assert forall j :: 0 <= j < |changes[1..]| ==> changes[1..][j] == changes[j + 1];
    PostedNids(hsm', changes[1..]);
    if k > 0 {
      PostedClasses(hsm', changes[1..], k - 1);
    }
  }

  /** After a run that goes all the way HSM has lost the dead nodes that could be deleted. The i-th working node has the
      i-th ID and the class of its chassis; other nodes are as they were. */
  lemma HsmAfterIs(hsm: Hsm, allowed: set<string>, working: seq<string>, stuck: set<string>, start: int,
                   classOf: string -> Option<string>, puts: nat)
    requires GoodWorking(hsm, allowed, working) && Plan(Sorted(working), start, classOf).Some?
    requires forall id :: id in hsm && start <= hsm[id].nid < start + |working| ==> id in allowed
    requires |working| <= puts
    ensures var after := HsmAfter(hsm, allowed, working, stuck, start, classOf, false, puts, true, true);
            && (forall id :: id in after <==> id in hsm && (id in working || id !in allowed || id in stuck))
            && (forall id :: id in after && id !in working ==> after[id] == hsm[id])
            && forall i :: 0 <= i < |working| ==>
                 var id := Sorted(working)[i];
                 && id in after && after[id].nid == start + i
                 && classOf(ChassisXname(id)) == Some(after[id].hwClass)
  {
    var ids := Sorted(working);
    var changes := Plan(ids, start, classOf).value;
    assert forall id :: !InWay(hsm, allowed, start, |working|, id);
    PlanNumbers(ids, start, classOf);
    SortedIsDistinct(working);
    DefragmentedIs(hsm, allowed, working, stuck, start, classOf);
    var cleared := WithoutDead(hsm, allowed, working, stuck);
    PatchedNids(cleared, ids, start, classOf);
    forall i | 0 <= i < |working|
      ensures ids[i] in cleared
      ensures classOf(ChassisXname(ids[i])) == Some(PostClasses(PatchNids(cleared, changes), changes)[ids[i]].hwClass)
    {
      assert ids[i] in working;
      PostedClasses(PatchNids(cleared, changes), changes, i);
    }
  }

  /** What stops a run before anything changes: a node in its way, one with an ID of the range that is not allowed; a
      chassis whose class SLS does not know; or the wish to see the plan only. */
  lemma NothingChanges(hsm: Hsm, sls: Sls, allowed: set<string>, working: seq<string>, stuckSls: set<string>,
                       stuckHsm: set<string>, start: int, classOf: string -> Option<string>, dryrun: bool, puts: nat,
                       patched: bool, posted: bool)
    requires || dryrun
             || (exists id :: id in hsm && id !in allowed && start <= hsm[id].nid < start + |working|)
             || (exists id :: id in working && classOf(ChassisXname(id)) == None)
    ensures HsmAfter(hsm, allowed, working, stuckHsm, start, classOf, dryrun, puts, patched, posted) == hsm
    ensures SlsAfter(hsm, sls, allowed, working, stuckSls, start, classOf, dryrun, puts) == sls
  {
    if id :| id in hsm && id !in allowed && start <= hsm[id].nid < start + |working| {
      assert InWay(hsm, allowed, start, |working|, id);
    }
    if id :| id in working && classOf(ChassisXname(id)) == None {
      if Plan(Sorted(working), start, classOf).Some? {
        PlanNumbers(Sorted(working), start, classOf);
        var i :| 0 <= i < |Sorted(working)| && Sorted(working)[i] == id;
      }
    }
  }
}
