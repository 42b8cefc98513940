/**
  import_cfs_data.py: bringing exported CFS data back into CFS.

  A request that fails ends the run, so an aborted run has made a prefix of the requests of a whole one.
 */
module CfsImport {
  import opened Outcomes
  import opened CfsData
  import opened Sequences

  datatype ImportError = SessionsRunning | UnknownOption | RequestFailed

  /** The places where the script looks for sessions that are not complete. */
  datatype Check = BeforeClearing | BeforeComponents | BeforeOptions

  /** The requests that bring the data in, in the order in which they are made. */
  datatype Work = Work(options: seq<Op>, sources: seq<Op>, configs: seq<Op>, updates: seq<Op>) {
    function Ops(): seq<Op> {
      options + sources + configs + updates
    }
  }

  const IDLE := Work([], [], [], [])

  // ---------------------------------------------------------------------------------------------
  // What is to be done
  // ---------------------------------------------------------------------------------------------

  predicate NeedsUpdate(id: string, data: Cfs, current: Cfs) {
    && id != ""
    && id in data.components && id in current.components
    && data.components[id].desired != ""
    && (data.components[id].desired in current.configurations || data.components[id].desired in data.configurations)
    && current.components[id].desired == ""
  }

  function ComponentsToUpdate(data: Cfs, current: Cfs): set<string> {
    set id | id in data.components && NeedsUpdate(id, data, current)
  }

  function OptionsToChange(data: Cfs, current: Cfs): map<string, string> {
    map o | o in data.options && o in current.options && data.options[o] != current.options[o] :: data.options[o]
  }

  function SourcesToRestore(data: Cfs, current: Cfs, supported: bool): set<string> {
    if supported then data.sources.Keys - current.sources.Keys else {}
  }

  function OptionOps(changes: map<string, string>): seq<Op> {
    if changes == map[] then [] else [SetOptions(changes)]
  }

  function SourceOps(names: seq<string>, sources: map<string, string>): seq<Op>
    requires forall n :: n in names ==> n in sources
  {
    seq(|names|, i requires 0 <= i < |names| => RestoreSource(names[i], sources[names[i]]))
  }

  function ConfigOps(names: seq<string>, configs: map<string, Config>): seq<Op>
    requires forall n :: n in names ==> n in configs
  {
    seq(|names|, i requires 0 <= i < |names| => CreateConfig(names[i], Scrub(configs[names[i]])))
  }

  /** One bulk update: at most 500 components, which all want the same configuration. */
  predicate IsUpdate(op: Op, data: Cfs) {
    && op.UpdateDesired?
    && 1 <= |op.ids| <= MAX_BATCH
    && forall id :: id in op.ids ==> id in data.components && data.components[id].desired == op.desired
  }

  datatype Plan = Plan(options: map<string, string>, sources: seq<string>, configs: seq<string>, comps: seq<string>)

  ghost predicate IsPlan(plan: Plan, data: Cfs, current: Cfs, supported: bool) {
    && plan.options == OptionsToChange(data, current)
    && Lists(plan.sources, SourcesToRestore(data, current, supported))
    && Lists(plan.configs, data.configurations.Keys - current.configurations.Keys)
    && Lists(plan.comps, ComponentsToUpdate(data, current))
    && (forall n :: n in plan.sources ==> n in data.sources)
    && (forall n :: n in plan.configs ==> n in data.configurations)
    && (forall id :: id in plan.comps ==> id in data.components)
  }

  ghost predicate SourceNames(ops: seq<Op>, names: seq<string>, data: Cfs, current: Cfs, supported: bool) {
    && Lists(names, SourcesToRestore(data, current, supported))
    && (forall n :: n in names ==> n in data.sources)
    && ops == SourceOps(names, data.sources)
  }

  ghost predicate SourcePart(ops: seq<Op>, data: Cfs, current: Cfs, supported: bool) {
    exists names :: SourceNames(ops, names, data, current, supported)
  }

  ghost predicate ConfigNames(ops: seq<Op>, names: seq<string>, data: Cfs, current: Cfs) {
    && Lists(names, data.configurations.Keys - current.configurations.Keys)
    && (forall n :: n in names ==> n in data.configurations)
    && ops == ConfigOps(names, data.configurations)
  }

  ghost predicate ConfigPart(ops: seq<Op>, data: Cfs, current: Cfs) {
    exists names :: ConfigNames(ops, names, data, current)
  }

  /** Every component that needs it is updated, and exactly once. */
  ghost predicate UpdatePart(ops: seq<Op>, data: Cfs, current: Cfs) {
    && (forall op :: op in ops ==> IsUpdate(op, data))
    && Lists(UpdatedIds(ops), ComponentsToUpdate(data, current))
  }

  /** The changes that a run makes to `current`, whatever the order of the dictionaries is. */
  ghost predicate DoesAll(work: Work, data: Cfs, current: Cfs, supported: bool) {
    && work.options == OptionOps(OptionsToChange(data, current))
    && SourcePart(work.sources, data, current, supported)
    && ConfigPart(work.configs, data, current)
    && UpdatePart(work.updates, data, current)
  }

  /** The sources that clearing deletes: the script returns when there are any, and only otherwise goes on to delete
      them. */
  function SourcesToDelete(current: Cfs, supported: bool): set<string> {
    if current.sources != map[] || !supported then {} else current.sources.Keys
  }

  /** Clearing touches every component that has an id, every configuration, and those sources. */
  ghost predicate ClearPart(ops: seq<Op>, current: Cfs, supported: bool) {
    exists batches, configs, sources :: Clears(ops, batches, configs, sources, current, supported)
  }

  ghost predicate Clears(ops: seq<Op>, batches: seq<seq<string>>, configs: seq<string>, sources: seq<string>,
                         current: Cfs, supported: bool) {
    && Lists(Flat(batches), current.components.Keys - {""})
    && (forall b :: b in batches ==> 1 <= |b| <= MAX_BATCH)
    && Lists(configs, current.configurations.Keys)
    && Lists(sources, SourcesToDelete(current, supported))
    && ops == ClearOps(batches) + DeleteOps(configs) + DeleteSourceOps(sources)
  }

  function ClearOps(batches: seq<seq<string>>): seq<Op> {
    seq(|batches|, i requires 0 <= i < |batches| => ClearComponents(batches[i]))
  }

  function DeleteOps(names: seq<string>): seq<Op> {
    seq(|names|, i requires 0 <= i < |names| => DeleteConfig(names[i]))
  }

  function DeleteSourceOps(names: seq<string>): seq<Op> {
    seq(|names|, i requires 0 <= i < |names| => DeleteSource(names[i]))
  }

  function AfterClearing(cfs: Cfs): Cfs {
    cfs.(components := map id | id in cfs.components :: if id == "" then cfs.components[id] else Cleared(),
         configurations := map[])
  }

  // ---------------------------------------------------------------------------------------------
  // The script
  // ---------------------------------------------------------------------------------------------

  /** The requests that succeed when `left` of them do. */
  function Taken(ops: seq<Op>, left: nat): seq<Op> {
    if left < |ops| then ops[..left] else ops
  }

  /** The CFS service: what it held at first, every request that has been made and succeeded, and how many more
      will succeed. */
  class Service {
    const head: Layer -> string
    const initial: Cfs
    var log: seq<Op>
    var left: nat

    constructor (initial: Cfs, head: Layer -> string, left: nat)
      ensures this.initial == initial && this.head == head && log == [] && this.left == left
    {
      this.head := head;
      this.initial := initial;
      this.log := [];
      this.left := left;
    }

    function Current(): Cfs
      reads this
    {
      ApplyAll(initial, log, head)
    }

    /** The requests `ops` have been made after `before`, up to one that failed if `had` were not enough. */
    predicate Did(before: seq<Op>, had: nat, ops: seq<Op>, ok: bool)
      reads this
    {
      log == before + Taken(ops, had) && left == had - |Taken(ops, had)| && ok == (|ops| <= had)
    }

    method Perform(op: Op) returns (ok: bool)
      modifies this
      ensures Did(old(log), old(left), [op], ok)
    {
      if left == 0 {
        assert [op][..0] == [] && log + [] == log;
        return false;
      }
      log := log + [op];
      left := left - 1;
      return true;
    }

    method ChangeOptions(changes: map<string, string>) returns (ok: bool)
      modifies this
      ensures Did(old(log), old(left), OptionOps(changes), ok)
    {
      ok := true;
      assert log + [] == log;
      if changes != map[] {
        ok := Perform(SetOptions(changes));
      }
    }

    method RestoreSources(sources: map<string, string>, names: seq<string>) returns (ok: bool)
      requires forall n :: n in names ==> n in sources
      modifies this
      ensures Did(old(log), old(left), SourceOps(names, sources), ok)
    {
      ghost var ops := SourceOps(names, sources);
      for i := 0 to |names|
        invariant i <= old(left) && left == old(left) - i && log == old(log) + ops[..i]
      {
        ok := Perform(RestoreSource(names[i], sources[names[i]]));
        if !ok {
          return;
        }
        assert ops[..i + 1] == ops[..i] + [ops[i]];
      }
      return true;
    }

    method CreateConfigs(configs: map<string, Config>, names: seq<string>) returns (ok: bool)
      requires forall n :: n in names ==> n in configs
      modifies this
      ensures Did(old(log), old(left), ConfigOps(names, configs), ok)
    {
      ghost var ops := ConfigOps(names, configs);
      for i := 0 to |names|
        invariant i <= old(left) && left == old(left) - i && log == old(log) + ops[..i]
      {
        ok := Perform(CreateConfig(names[i], Scrub(configs[names[i]])));
        if !ok {
          return;
        }
        assert ops[..i + 1] == ops[..i] + [ops[i]];
      }
      return true;
    }

    /** The components that want one configuration, in batches. */
    method UpdateGroup(desired: string, ids: seq<string>) returns (ok: bool)
      modifies this
      ensures Did(old(log), old(left), UpdateOps(Chunks(ids), desired), ok)
    {
      var batches := ChunkList(ids);
      ok := UpdateBatches(desired, batches);
    }

    method UpdateBatches(desired: string, batches: seq<seq<string>>) returns (ok: bool)
      modifies this
      ensures Did(old(log), old(left), UpdateOps(batches, desired), ok)
    {
      ghost var ops := UpdateOps(batches, desired);
      for i := 0 to |batches|
        invariant i <= old(left) && left == old(left) - i && log == old(log) + ops[..i]
      {
        ok := Perform(UpdateDesired(batches[i], desired));
        if !ok {
          return;
        }
        assert ops[..i + 1] == ops[..i] + [ops[i]];
      }
      return true;
    }

    method UpdateComponents(data: Cfs, ids: seq<string>) returns (ok: bool, ghost ops: seq<Op>)
      requires NoRepeats(ids) && forall id :: id in ids ==> id in data.components
      modifies this
      ensures Did(old(log), old(left), ops, ok)
      ensures forall op :: op in ops ==> IsUpdate(op, data)
      ensures NoRepeats(UpdatedIds(ops)) && forall id :: id in UpdatedIds(ops) <==> id in ids
    {
      var groups := GroupByDesired(data, ids);
      var names := ListOf(groups.Keys);
      ghost var lots := Lots(names, groups);
      ops := FlatOps(lots);
      LotsAre(groups, data, ids, names);
      FlatAreUpdates(lots, data);
      FlatUpdated(lots);
      FlatIdsOnce(lots, names, data, ids);
      forall id
        ensures id in UpdatedIds(ops) <==> id in ids
      {
        FlatIdsIff(lots, names, data, ids, id);
      }
      ok := UpdateGroups(names, groups, lots);
    }

    /** One group after the other. */
    method UpdateGroups(names: seq<string>, groups: map<string, seq<string>>, ghost lots: seq<seq<Op>>)
      returns (ok: bool)
      requires forall d :: d in names ==> d in groups
      requires lots == Lots(names, groups)
      modifies this
      ensures Did(old(log), old(left), FlatOps(lots), ok)
    {
      ghost var done: seq<Op> := [];
      assert lots[0..] == lots && [] + FlatOps(lots) == FlatOps(lots);
      for i := 0 to |names|
        invariant FlatOps(lots) == done + FlatOps(lots[i..])
        invariant |done| <= old(left) && left == old(left) - |done| && log == old(log) + done
      {
        assert lots[i..][0] == lots[i] && lots[i..][1..] == lots[i + 1..];
        OneLotMore(old(log), old(left), done, lots[i], FlatOps(lots[i + 1..]));
        ok := UpdateGroup(names[i], groups[names[i]]);
        if !ok {
          return;
        }
        done := done + lots[i];
      }
      assert lots[|names|..] == [] && done + [] == done;
      return true;
    }

    method ClearAll(batches: seq<seq<string>>) returns (ok: bool)
      modifies this
      ensures Did(old(log), old(left), ClearOps(batches), ok)
    {
      ghost var ops := ClearOps(batches);
      for i := 0 to |batches|
        invariant i <= old(left) && left == old(left) - i && log == old(log) + ops[..i]
      {
        ok := Perform(ClearComponents(batches[i]));
        if !ok {
          return;
        }
        assert ops[..i + 1] == ops[..i] + [ops[i]];
      }
      return true;
    }

    method DeleteConfigs(names: seq<string>) returns (ok: bool)
      modifies this
      ensures Did(old(log), old(left), DeleteOps(names), ok)
    {
      ghost var ops := DeleteOps(names);
      for i := 0 to |names|
        invariant i <= old(left) && left == old(left) - i && log == old(log) + ops[..i]
      {
        ok := Perform(DeleteConfig(names[i]));
        if !ok {
          return;
        }
        assert ops[..i + 1] == ops[..i] + [ops[i]];
      }
      return true;
    }

    method DeleteSources(names: seq<string>) returns (ok: bool)
      modifies this
      ensures Did(old(log), old(left), DeleteSourceOps(names), ok)
    {
      ghost var ops := DeleteSourceOps(names);
      for i := 0 to |names|
        invariant i <= old(left) && left == old(left) - i && log == old(log) + ops[..i]
      {
        ok := Perform(DeleteSource(names[i]));
        if !ok {
          return;
        }
        assert ops[..i + 1] == ops[..i] + [ops[i]];
      }
      return true;
    }

    method ClearCfs(current: Cfs, supported: bool) returns (ok: bool, ghost ops: seq<Op>)
      modifies this
      ensures Did(old(log), old(left), ops, ok) && ClearPart(ops, current, supported)
    {
      var ids := ListOf(current.components.Keys - {""});
      var batches := ChunkList(ids);
      var configs := ListOf(current.configurations.Keys);
      ghost var a, b, none := ClearOps(batches), DeleteOps(configs), DeleteSourceOps([]);
      ops := a + b + none;
      assert Clears(ops, batches, configs, [], current, supported);
      DidInTwo(old(log), old(left), a, b);
      DidInTwo(old(log), old(left), a + b, none);
      ok := ClearAll(batches);
      if !ok {
        return;
      }
      ok := DeleteConfigs(configs);
      if !ok {
        return;
      }
      if current.sources != map[] {
        // The script takes this for "no sources to clear".
        return;
      }
      if !supported {
        return;
      }
      var sources := ListOf(current.sources.Keys);
      ListsSome(sources, {});
      ok := DeleteSources(sources);
    }

    method Change(data: Cfs, plan: Plan, ghost current: Cfs, ghost supported: bool)
      returns (ok: bool, ghost work: Work)
      requires IsPlan(plan, data, current, supported)
      modifies this
      ensures Did(old(log), old(left), work.Ops(), ok)
      ensures DoesAll(work, data, current, supported)
    {
      ghost var a, b := OptionOps(plan.options), SourceOps(plan.sources, data.sources);
      ghost var c := ConfigOps(plan.configs, data.configurations);
      ghost var updates := OneByOne(data, plan.comps);
      OneByOneAre(data, plan.comps);
      work := Work(a, b, c, updates);
      PlanIsDone(updates, plan, data, current, supported);
      DidInTwo(old(log), old(left), a, b);
      DidInTwo(old(log), old(left), a + b, c);
      DidInTwo(old(log), old(left), a + b + c, updates);
      ok := ChangeOptions(plan.options);
      if !ok {
        return;
      }
      ok := RestoreSources(data.sources, plan.sources);
      if !ok {
        return;
      }
      ok := CreateConfigs(data.configurations, plan.configs);
      if !ok {
        return;
      }
      ok, updates := UpdateComponents(data, plan.comps);
      work := Work(a, b, c, updates);
      PlanIsDone(updates, plan, data, current, supported);
      DidInTwo(old(log), old(left), a + b + c, updates);
    }

    /** An import without --clear-cfs: `data` is what the JSON files hold, `busy` says when sessions are found
        that are not complete. */
    method Import(data: Cfs, ignoreSessions: bool, busy: Check -> bool, supported: bool)
      returns (r: Option<ImportError>, ghost work: Work)
      modifies this
      ensures Did(old(log), old(left), work.Ops(), r != Some(RequestFailed))
      ensures r == Some(RequestFailed) <==> old(left) < |work.Ops()|
      ensures log == old(log) + if old(left) < |work.Ops()| then work.Ops()[..old(left)] else work.Ops()
      ensures match Outcome(data, old(Current()), ignoreSessions, busy)
              case Some(e) => r == Some(e) && work == IDLE
              case None => DoesAll(work, data, old(Current()), supported) && (r == None || r == Some(RequestFailed))
      ensures Current() == ApplyAll(old(Current()), Taken(work.Ops(), old(left)), head)
    {
      var current := Current();
      var examined := Examine(data, current, ignoreSessions, busy, supported);
      if examined.Failure? {
        assert log + [] == log;
        return Some(examined.error), IDLE;
      }
      var ok;
      ok, work := Change(data, examined.value, current, supported);
      ApplyInTwo(initial, old(log), Taken(work.Ops(), old(left)), head);
      r := if ok then None else Some(RequestFailed);
    }

    /** An import with --clear-cfs. */
    method ClearAndImport(data: Cfs, ignoreSessions: bool, busy: Check -> bool, supported: bool)
      returns (r: Option<ImportError>, ghost clearing: seq<Op>, ghost work: Work)
      modifies this
      ensures Did(old(log), old(left), clearing + work.Ops(), r != Some(RequestFailed))
      ensures r == Some(RequestFailed) <==> old(left) < |clearing + work.Ops()|
      ensures var ops := clearing + work.Ops();
              log == old(log) + if old(left) < |ops| then ops[..old(left)] else ops
      ensures if !ignoreSessions && busy(BeforeClearing) then
                r == Some(SessionsRunning) && clearing == [] && work == IDLE
              else
                && ClearPart(clearing, old(Current()), supported)
                && match Outcome(data, AfterClearing(old(Current())), ignoreSessions, busy)
                   case Some(e) => (r == Some(e) || r == Some(RequestFailed)) && work == IDLE
                   case None =>
                     && (r == None || r == Some(RequestFailed))
                     && (|clearing| <= old(left) ==> DoesAll(work, data, AfterClearing(old(Current())), supported))
                     && (old(left) < |clearing| ==> work == IDLE)
    {
      if !ignoreSessions && busy(BeforeClearing) {
        assert log + [] == log;
        return Some(SessionsRunning), [], IDLE;
      }
      var ok;
      ok, clearing := ClearCfs(Current(), supported);
      work := IDLE;
      assert clearing + [] == clearing;
      if !ok {
        return Some(RequestFailed), clearing, IDLE;
      }
      ApplyInTwo(initial, old(log), clearing, head);
      ClearReaches(old(Current()), clearing, supported, head);
      r, work := Import(data, ignoreSessions, busy, supported);
      DidInTwo(old(log), old(left), clearing, work.Ops());
    }
  }

  /** Two lots of requests, one after the other. */
  lemma DidInTwo(before: seq<Op>, had: nat, a: seq<Op>, b: seq<Op>)
    ensures had < |a| ==> Taken(a + b, had) == Taken(a, had)
    ensures |a| <= had ==>
              && before + Taken(a + b, had) == before + a + Taken(b, had - |a|)
              && |Taken(a + b, had)| == |a| + |Taken(b, had - |a|)|
  {
    if |a| <= had {
      assert Taken(a + b, had) == a + Taken(b, had - |a|);
    }
  }

  /** One more lot after `done`, with `rest` to come. */
  lemma OneLotMore(before: seq<Op>, had: nat, done: seq<Op>, lot: seq<Op>, rest: seq<Op>)
    requires |done| <= had
    ensures done + (lot + rest) == done + lot + rest
    ensures before + done + lot == before + (done + lot)
    ensures had - |done| < |lot| ==>
              && before + Taken(done + (lot + rest), had) == before + done + Taken(lot, had - |done|)
              && |Taken(done + (lot + rest), had)| == |done| + |Taken(lot, had - |done|)|
  {
    DidInTwo(before, had, done, lot + rest);
    DidInTwo(before + done, had - |done|, lot, rest);
  }

  lemma ListsSome(names: seq<string>, all: set<string>)
    requires Lists(names, all)
    ensures names == [] <==> all == {}
  {
    if names != [] {
      assert names[0] in names;
    }
  }

  function UpdateOps(batches: seq<seq<string>>, desired: string): seq<Op> {
    seq(|batches|, i requires 0 <= i < |batches| => UpdateDesired(batches[i], desired))
  }

  /** The updates of each of the groups. */
  function Lots(names: seq<string>, groups: map<string, seq<string>>): (lots: seq<seq<Op>>)
    requires forall d :: d in names ==> d in groups
    ensures |lots| == |names|
    ensures forall i :: 0 <= i < |names| ==> lots[i] == UpdateOps(Chunks(groups[names[i]]), names[i])
  {
    seq(|names|, i requires 0 <= i < |names| => UpdateOps(Chunks(groups[names[i]]), names[i]))
  }

  function FlatOps(lots: seq<seq<Op>>): seq<Op> {
    if lots == [] then [] else lots[0] + FlatOps(lots[1..])
  }

  lemma {:induction false} UpdateOpsAre(batches: seq<seq<string>>, desired: string)
    ensures UpdatedIds(UpdateOps(batches, desired)) == Flat(batches)
  {
    if batches != [] {
      assert UpdateOps(batches, desired)[1..] == UpdateOps(batches[1..], desired);
      UpdateOpsAre(batches[1..], desired);
    }
  }

  ghost predicate Groups(groups: map<string, seq<string>>, data: Cfs, ids: seq<string>) {
    && (forall id :: id in ids ==> id in data.components)
    && (forall d :: d in groups ==> NoRepeats(groups[d]))
    && (forall d, id :: d in groups ==> (id in groups[d] <==> id in ids && data.components[id].desired == d))
    && (forall id :: id in ids ==> data.components[id].desired in groups)
  }

  lemma BatchesAreUpdates(batches: seq<seq<string>>, data: Cfs, d: string)
    requires forall b :: b in batches ==> 1 <= |b| <= MAX_BATCH
    requires forall id :: id in Flat(batches) ==> id in data.components && data.components[id].desired == d
    ensures forall op :: op in UpdateOps(batches, d) ==> IsUpdate(op, data)
  {
    forall i | 0 <= i < |batches|
      ensures IsUpdate(UpdateDesired(batches[i], d), data)
    {
      assert batches[i] in batches;
      InFlat(batches, i);
    }
  }

  lemma GroupIsUpdated(groups: map<string, seq<string>>, data: Cfs, ids: seq<string>, d: string)
    requires Groups(groups, data, ids) && d in groups
    ensures forall op :: op in UpdateOps(Chunks(groups[d]), d) ==> IsUpdate(op, data)
    ensures UpdatedIds(UpdateOps(Chunks(groups[d]), d)) == groups[d]
  {
    ChunksAre(groups[d]);
    BatchesAreUpdates(Chunks(groups[d]), data, d);
    UpdateOpsAre(Chunks(groups[d]), d);
  }

  lemma {:induction false} FlatAreUpdates(lots: seq<seq<Op>>, data: Cfs)
    requires forall lot, op :: lot in lots && op in lot ==> IsUpdate(op, data)
    ensures forall op :: op in FlatOps(lots) ==> IsUpdate(op, data)
  {
    if lots != [] {
      assert lots[0] in lots;
      assert forall lot :: lot in lots[1..] ==> lot in lots;
      FlatAreUpdates(lots[1..], data);
    }
  }

  function FlatIds(lots: seq<seq<Op>>): seq<string> {
    if lots == [] then [] else UpdatedIds(lots[0]) + FlatIds(lots[1..])
  }

  lemma {:induction false} FlatUpdated(lots: seq<seq<Op>>)
    ensures UpdatedIds(FlatOps(lots)) == FlatIds(lots)
  {
    if lots != [] {
      FlatUpdated(lots[1..]);
      UpdatedInTwo(lots[0], FlatOps(lots[1..]));
    }
  }

  /** Lots that update the components of one group each. */
  ghost predicate LotsOf(lots: seq<seq<Op>>, names: seq<string>, data: Cfs, ids: seq<string>) {
    && (forall id :: id in ids ==> id in data.components)
    && |lots| == |names|
    && forall i :: 0 <= i < |names| ==>
         && NoRepeats(UpdatedIds(lots[i]))
         && forall id :: id in UpdatedIds(lots[i]) <==> id in ids && data.components[id].desired == names[i]
  }

  lemma {:induction false} FlatIdsIff(lots: seq<seq<Op>>, names: seq<string>, data: Cfs, ids: seq<string>, id: string)
    requires LotsOf(lots, names, data, ids)
    ensures id in FlatIds(lots) <==> id in ids && data.components[id].desired in names
  {
    if names != [] {
      FlatIdsIff(lots[1..], names[1..], data, ids, id);
      assert names == [names[0]] + names[1..];
    }
  }

  lemma {:induction false} FlatIdsOnce(lots: seq<seq<Op>>, names: seq<string>, data: Cfs, ids: seq<string>)
    requires LotsOf(lots, names, data, ids) && NoRepeats(names)
    ensures NoRepeats(FlatIds(lots))
  {
    if names != [] {
      NoRepeatsFirst(names);
      FlatIdsOnce(lots[1..], names[1..], data, ids);
      forall id | id in UpdatedIds(lots[0])
        ensures id !in FlatIds(lots[1..])
      {
        FlatIdsIff(lots[1..], names[1..], data, ids, id);
      }
      NoRepeatsInTwo(UpdatedIds(lots[0]), FlatIds(lots[1..]));
    }
  }

  lemma LotsAre(groups: map<string, seq<string>>, data: Cfs, ids: seq<string>, names: seq<string>)
    requires Groups(groups, data, ids) && forall d :: d in names ==> d in groups
    ensures LotsOf(Lots(names, groups), names, data, ids)
    ensures forall lot, op :: lot in Lots(names, groups) && op in lot ==> IsUpdate(op, data)
  {
    var lots := Lots(names, groups);
    forall i | 0 <= i < |names|
      ensures UpdatedIds(lots[i]) == groups[names[i]]
      ensures forall op :: op in lots[i] ==> IsUpdate(op, data)
    {
      assert names[i] in names;
      GroupIsUpdated(groups, data, ids, names[i]);
    }
  }

  /** The updates that are left when the run has ended before it grouped them. */
  function OneByOne(data: Cfs, ids: seq<string>): seq<Op>
    requires forall id :: id in ids ==> id in data.components
  {
    seq(|ids|, i requires 0 <= i < |ids| => UpdateDesired([ids[i]], data.components[ids[i]].desired))
  }

  lemma {:induction false} OneByOneAre(data: Cfs, ids: seq<string>)
    requires forall id :: id in ids ==> id in data.components
    ensures forall op :: op in OneByOne(data, ids) ==> IsUpdate(op, data)
    ensures UpdatedIds(OneByOne(data, ids)) == ids
  {
    if ids != [] {
      assert OneByOne(data, ids)[1..] == OneByOne(data, ids[1..]);
      OneByOneAre(data, ids[1..]);
      assert [ids[0]] + ids[1..] == ids;
    }
  }

  method GroupByDesired(data: Cfs, ids: seq<string>) returns (groups: map<string, seq<string>>)
    requires NoRepeats(ids) && forall id :: id in ids ==> id in data.components
    ensures Groups(groups, data, ids)
  {
    groups := map[];
    for i := 0 to |ids|
      invariant forall d :: d in groups ==> NoRepeats(groups[d])
      invariant forall d, id :: d in groups ==>
          (id in groups[d] <==> id in ids[..i] && data.components[id].desired == d)
      invariant forall id :: id in ids[..i] ==> data.components[id].desired in groups
    {
      var d := data.components[ids[i]].desired;
      assert ids[i] !in ids[..i];
      if d in groups {
        groups := groups[d := groups[d] + [ids[i]]];
      } else {
        groups := groups[d := [ids[i]]];
      }
      assert ids[..i + 1] == ids[..i] + [ids[i]];
    }
    assert ids[..|ids|] == ids;
  }

  method GetCompsToUpdate(data: Cfs, current: Cfs, configs: seq<string>) returns (ids: seq<string>)
    requires Lists(configs, data.configurations.Keys - current.configurations.Keys)
    ensures Lists(ids, ComponentsToUpdate(data, current))
  {
    var both := ListOf((data.components.Keys - {""}) * (current.components.Keys - {""}));
    ids := [];
    for i := 0 to |both|
      invariant NoRepeats(ids)
      invariant forall id :: id in ids <==> id in both[..i] && NeedsUpdate(id, data, current)
    {
      var id := both[i];
      assert id in both;
      var desired := data.components[id].desired;
      assert id !in both[..i] && both[..i + 1] == both[..i] + [id];
      if desired == "" {
        continue;
      }
      if desired !in current.configurations && desired !in configs {
        continue;
      }
      if current.components[id].desired == "" {
        ids := ids + [id];
      }
    }
    assert both[..|both|] == both;
  }

  /** An option that the live system does not have raises a KeyError. */
  method GetOptionsToChange(data: Cfs, current: Cfs) returns (r: Option<map<string, string>>)
    ensures r == if data.options.Keys <= current.options.Keys then Some(OptionsToChange(data, current)) else None
  {
    var changes: map<string, string> := map[];
    var left := data.options.Keys;
    while left != {}
      invariant left <= data.options.Keys
      invariant data.options.Keys - left <= current.options.Keys
      invariant changes == map o | o in data.options && o !in left && data.options[o] != current.options[o] ::
          data.options[o]
    {
      var o :| o in left;
      if o !in current.options {
        return None;
      }
      left := left - {o};
      if current.options[o] != data.options[o] {
        changes := changes[o := data.options[o]];
      }
    }
    assert changes == OptionsToChange(data, current);
    return Some(changes);
  }

  method Examine(data: Cfs, current: Cfs, ignoreSessions: bool, busy: Check -> bool, supported: bool)
    returns (r: Result<Plan, ImportError>)
    ensures match Outcome(data, current, ignoreSessions, busy)
            case Some(e) => r == Failure(e)
            case None => r.Success? && IsPlan(r.value, data, current, supported)
  {
    var configs := ListOf(data.configurations.Keys - current.configurations.Keys);
    var comps := GetCompsToUpdate(data, current, configs);
    if comps == [] {
      assert ComponentsToUpdate(data, current) == {};
    } else {
      assert comps[0] in ComponentsToUpdate(data, current);
    }
    if !ignoreSessions && comps != [] && busy(BeforeComponents) {
      return Failure(SessionsRunning);
    }
    var options := GetOptionsToChange(data, current);
    if options.None? {
      return Failure(UnknownOption);
    }
    if !ignoreSessions && options.value != map[] && busy(BeforeOptions) {
      return Failure(SessionsRunning);
    }
    var sources := ListOf(SourcesToRestore(data, current, supported));
    r := Success(Plan(options.value, sources, configs, comps));
  }

  /** How a run ends that finds `current` in CFS. */
  ghost function Outcome(data: Cfs, current: Cfs, ignoreSessions: bool, busy: Check -> bool): Option<ImportError> {
    if !ignoreSessions && ComponentsToUpdate(data, current) != {} && busy(BeforeComponents) then Some(SessionsRunning)
    else if !(data.options.Keys <= current.options.Keys) then Some(UnknownOption)
    else if !ignoreSessions && OptionsToChange(data, current) != map[] && busy(BeforeOptions) then Some(SessionsRunning)
    else None
  }

  lemma PlanIsDone(updates: seq<Op>, plan: Plan, data: Cfs, current: Cfs, supported: bool)
    requires IsPlan(plan, data, current, supported)
    requires forall op :: op in updates ==> IsUpdate(op, data)
    requires NoRepeats(UpdatedIds(updates)) && forall id :: id in UpdatedIds(updates) <==> id in plan.comps
    ensures DoesAll(Work(OptionOps(plan.options), SourceOps(plan.sources, data.sources),
                         ConfigOps(plan.configs, data.configurations), updates), data, current, supported)
  {
    var sources := SourceOps(plan.sources, data.sources);
    var configs := ConfigOps(plan.configs, data.configurations);
    assert SourceNames(sources, plan.sources, data, current, supported);
    assert ConfigNames(configs, plan.configs, data, current);
  }

  lemma NoRepeatsInTwo(a: seq<string>, b: seq<string>)
    requires NoRepeats(a) && NoRepeats(b) && forall x :: x in a ==> x !in b
    ensures NoRepeats(a + b)
  {
    forall i, j | 0 <= i < j < |a + b|
      ensures (a + b)[i] != (a + b)[j]
    {
      if i < |a| <= j {
        assert a[i] in a && b[j - |a|] in b;
      }
    }
  }

  lemma {:induction false} InFlat(batches: seq<seq<string>>, i: nat)
    requires i < |batches|
    ensures forall x :: x in batches[i] ==> x in Flat(batches)
  {
    if i > 0 {
      InFlat(batches[1..], i - 1);
    }
  }

  // ---------------------------------------------------------------------------------------------
  // What clearing does
  // ---------------------------------------------------------------------------------------------

  lemma {:induction false} ClearOpsEffect(cfs: Cfs, batches: seq<seq<string>>, head: Layer -> string)
    ensures ApplyAll(cfs, ClearOps(batches), head)
         == cfs.(components := map id | id in cfs.components :: if id in Flat(batches) then Cleared()
                 else cfs.components[id])
    decreases |batches|
  {
    if batches != [] {
      assert ClearOps(batches)[1..] == ClearOps(batches[1..]);
      ClearOpsEffect(Apply(cfs, ClearOps(batches)[0], head), batches[1..], head);
    }
  }

  lemma {:induction false} DeleteOpsEffect(cfs: Cfs, names: seq<string>, head: Layer -> string)
    ensures ApplyAll(cfs, DeleteOps(names), head)
         == cfs.(configurations := map n | n in cfs.configurations && n !in names :: cfs.configurations[n])
    decreases |names|
  {
    if names != [] {
      assert DeleteOps(names)[1..] == DeleteOps(names[1..]);
      DeleteOpsEffect(Apply(cfs, DeleteOps(names)[0], head), names[1..], head);
    }
  }

  lemma ClearReaches(cfs: Cfs, ops: seq<Op>, supported: bool, head: Layer -> string)
    requires ClearPart(ops, cfs, supported)
    ensures ApplyAll(cfs, ops, head) == AfterClearing(cfs)
  {
    var batches, configs, sources :| Clears(ops, batches, configs, sources, cfs, supported);
    ListsSome(sources, SourcesToDelete(cfs, supported));
    assert ops == ClearOps(batches) + DeleteOps(configs);
    ClearedIs(cfs, batches, configs, head);
  }

  lemma ClearedIs(cfs: Cfs, batches: seq<seq<string>>, configs: seq<string>, head: Layer -> string)
    requires Lists(Flat(batches), cfs.components.Keys - {""}) && Lists(configs, cfs.configurations.Keys)
    ensures ApplyAll(cfs, ClearOps(batches) + DeleteOps(configs), head) == AfterClearing(cfs)
  {
    ApplyInTwo(cfs, ClearOps(batches), DeleteOps(configs), head);
    ClearOpsEffect(cfs, batches, head);
    DeleteOpsEffect(ApplyAll(cfs, ClearOps(batches), head), configs, head);
  }

  /** No run of the clearing ever deletes a source, so it leaves none if and only if there was none. */
  lemma SourcesStay(cfs: Cfs, ops: seq<Op>, supported: bool, head: Layer -> string)
    requires ClearPart(ops, cfs, supported)
    ensures forall op :: op in ops ==> !op.DeleteSource?
    ensures ApplyAll(cfs, ops, head).sources == map[] <==> cfs.sources == map[]
  {
    var batches, configs, sources :| Clears(ops, batches, configs, sources, cfs, supported);
    ListsSome(sources, SourcesToDelete(cfs, supported));
    ClearReaches(cfs, ops, supported, head);
  }
}
