/** What an import does to CFS: completed, aborted anywhere, run again, and after clearing. */
module CfsRuns {
  import opened CfsData
  import opened CfsImport
  import opened Sequences

  function Wanted(id: string, data: Cfs): string {
    if id in data.components then data.components[id].desired else ""
  }

  function Created(configs: map<string, Config>, head: Layer -> string): map<string, Config> {
    map n | n in configs :: Fill(Scrub(configs[n]), head)
  }

  function ImportedComponents(data: Cfs, start: Cfs): map<string, Component> {
    map id | id in start.components ::
      if NeedsUpdate(id, data, start) then start.components[id].(desired := Wanted(id, data)) else start.components[id]
  }

  function ImportedConfigs(data: Cfs, start: Cfs, head: Layer -> string): map<string, Config> {
    Created(data.configurations, head) + start.configurations
  }

  function ImportedOptions(data: Cfs, start: Cfs): map<string, string> {
    start.options + (map o | o in data.options && o in start.options :: data.options[o])
  }

  function ImportedSources(data: Cfs, start: Cfs, supported: bool): map<string, string> {
    if supported then data.sources + start.sources else start.sources
  }

  /** What an import that completes leaves in CFS. */
  function Imported(data: Cfs, start: Cfs, supported: bool, head: Layer -> string): Cfs {
    Cfs(ImportedComponents(data, start), ImportedConfigs(data, start, head), ImportedOptions(data, start),
        ImportedSources(data, start, supported))
  }

  // ---------------------------------------------------------------------------------------------
  // A completed import
  // ---------------------------------------------------------------------------------------------

  function Pick<T>(names: seq<string>, from: map<string, T>): map<string, T>
    requires forall n :: n in names ==> n in from
  {
    map n | n in names :: from[n]
  }

  lemma PickFirst<T>(m: map<string, T>, names: seq<string>, from: map<string, T>)
    requires names != [] && forall n :: n in names ==> n in from
    ensures m[names[0] := from[names[0]]] + Pick(names[1..], from) == m + Pick(names, from)
  {
    assert names == [names[0]] + names[1..];
  }

  lemma {:induction false} SourceOpsEffect(cfs: Cfs, names: seq<string>, sources: map<string, string>,
                                           head: Layer -> string)
    requires forall n :: n in names ==> n in sources
    ensures ApplyAll(cfs, SourceOps(names, sources), head) == cfs.(sources := cfs.sources + Pick(names, sources))
    decreases |names|
  {
    if names != [] {
      PickFirst(cfs.sources, names, sources);
      assert SourceOps(names, sources)[1..] == SourceOps(names[1..], sources);
      SourceOpsEffect(cfs.(sources := cfs.sources[names[0] := sources[names[0]]]), names[1..], sources, head);
    }
  }

  lemma {:induction false} ConfigOpsEffect(cfs: Cfs, names: seq<string>, configs: map<string, Config>,
                                           head: Layer -> string)
    requires forall n :: n in names ==> n in configs
    ensures ApplyAll(cfs, ConfigOps(names, configs), head)
         == cfs.(configurations := cfs.configurations + Pick(names, Created(configs, head)))
    decreases |names|
  {
    if names != [] {
      var made := Created(configs, head);
      PickFirst(cfs.configurations, names, made);
      assert ConfigOps(names, configs)[1..] == ConfigOps(names[1..], configs);
      ConfigOpsEffect(cfs.(configurations := cfs.configurations[names[0] := made[names[0]]]), names[1..], configs,
                      head);
    }
  }

  lemma {:induction false} UpdatesEffect(cfs: Cfs, ops: seq<Op>, data: Cfs, head: Layer -> string)
    requires forall op :: op in ops ==> IsUpdate(op, data)
    ensures ApplyAll(cfs, ops, head)
         == cfs.(components := map id | id in cfs.components ::
                   if id in UpdatedIds(ops) then cfs.components[id].(desired := Wanted(id, data))
                       else cfs.components[id])
    decreases |ops|
  {
    if ops != [] {
      assert ops[0] in ops;
      UpdatesEffect(Apply(cfs, ops[0], head), ops[1..], data, head);
    }
  }

  lemma OptionsEffect(cfs: Cfs, ops: seq<Op>, data: Cfs, head: Layer -> string)
    requires ops == OptionOps(OptionsToChange(data, cfs))
    ensures ApplyAll(cfs, ops, head) == cfs.(options := ImportedOptions(data, cfs))
  {
    assert cfs.options + OptionsToChange(data, cfs) == ImportedOptions(data, cfs);
    if ops != [] {
      assert ops[1..] == [];
    }
  }

  lemma SourcesEffect(cfs: Cfs, ops: seq<Op>, data: Cfs, start: Cfs, supported: bool, head: Layer -> string)
    requires SourcePart(ops, data, start, supported) && cfs.sources == start.sources
    ensures ApplyAll(cfs, ops, head) == cfs.(sources := ImportedSources(data, start, supported))
  {
    var names :| SourceNames(ops, names, data, start, supported);
    SourceOpsEffect(cfs, names, data.sources, head);
    AddedMissing(names, data.sources, start.sources, if supported then data.sources else map[]);
  }

  lemma ConfigsEffect(cfs: Cfs, ops: seq<Op>, data: Cfs, start: Cfs, head: Layer -> string)
    requires ConfigPart(ops, data, start) && cfs.configurations == start.configurations
    ensures ApplyAll(cfs, ops, head) == cfs.(configurations := ImportedConfigs(data, start, head))
  {
    var names :| ConfigNames(ops, names, data, start);
    ConfigOpsEffect(cfs, names, data.configurations, head);
    var made := Created(data.configurations, head);
    AddedMissing(names, made, start.configurations, made);
  }

  /** Adding exactly what is missing is the same as putting the old entries over the wanted ones. */
  lemma AddedMissing<T>(names: seq<string>, from: map<string, T>, present: map<string, T>, wanted: map<string, T>)
    requires Lists(names, wanted.Keys - present.Keys) && forall n :: n in names ==> n in from && from[n] == wanted[n]
    ensures present + Pick(names, from) == wanted + present
  {
  }

  /** Everything is in place except the desired configurations. */
  lemma BeforeUpdates(work: Work, data: Cfs, start: Cfs, supported: bool, head: Layer -> string)
    requires DoesAll(work, data, start, supported)
    ensures ApplyAll(start, work.options + work.sources + work.configs, head)
         == Imported(data, start, supported, head).(components := start.components)
  {
    var end := Imported(data, start, supported, head);
    ApplyInTwo(start, work.options + work.sources, work.configs, head);
    ApplyInTwo(start, work.options, work.sources, head);
    OptionsEffect(start, work.options, data, head);
    var one := start.(options := end.options);
    SourcesEffect(one, work.sources, data, start, supported, head);
    ConfigsEffect(one.(sources := end.sources), work.configs, data, start, head);
  }

  /** The requests of a run that completes lead to `Imported`, whatever the order of the dictionaries is. */
  lemma CompletedIsImported(work: Work, data: Cfs, start: Cfs, supported: bool, head: Layer -> string)
    requires DoesAll(work, data, start, supported)
    ensures ApplyAll(start, work.Ops(), head) == Imported(data, start, supported, head)
  {
    var end := Imported(data, start, supported, head);
    ApplyInTwo(start, work.options + work.sources + work.configs, work.updates, head);
    BeforeUpdates(work, data, start, supported, head);
    var cfs := end.(components := start.components);
    UpdatesEffect(cfs, work.updates, data, head);
    assert ApplyAll(cfs, work.updates, head).components == end.components by {
      assert forall id :: id in UpdatedIds(work.updates) <==> id in start.components && NeedsUpdate(id, data, start);
    }
  }

  // ---------------------------------------------------------------------------------------------
  // An import that is aborted anywhere
  // ---------------------------------------------------------------------------------------------

  predicate ComponentTowards(id: string, data: Cfs, start: Cfs, mid: Cfs)
    requires id in start.components && id in mid.components
  {
    || mid.components[id] == start.components[id]
    || (&& NeedsUpdate(id, data, start)
        && mid.components[id] == start.components[id].(desired := Wanted(id, data))
        && Wanted(id, data) in mid.configurations)
  }

  predicate ConfigTowards(n: string, data: Cfs, start: Cfs, mid: Cfs, head: Layer -> string)
    requires n in mid.configurations
  {
    if n in start.configurations then mid.configurations[n] == start.configurations[n]
    else n in data.configurations && mid.configurations[n] == Fill(Scrub(data.configurations[n]), head)
  }

  predicate SourceTowards(n: string, data: Cfs, start: Cfs, mid: Cfs, supported: bool)
    requires n in mid.sources
  {
    if n in start.sources then mid.sources[n] == start.sources[n]
    else supported && n in data.sources && mid.sources[n] == data.sources[n]
  }

  predicate OptionTowards(o: string, data: Cfs, start: Cfs, mid: Cfs)
    requires o in start.options && o in mid.options
  {
    mid.options[o] == start.options[o] || (o in data.options && mid.options[o] == data.options[o])
  }

  /** Nothing that was there is gone or overwritten, what is new comes from the import data, and a component
      that has been changed had no desired configuration and now has one that exists. */
  ghost predicate Towards(data: Cfs, start: Cfs, mid: Cfs, supported: bool, head: Layer -> string) {
    && mid.components.Keys == start.components.Keys
    && mid.options.Keys == start.options.Keys
    && start.configurations.Keys <= mid.configurations.Keys
    && start.sources.Keys <= mid.sources.Keys
    && (forall id :: id in start.components ==> ComponentTowards(id, data, start, mid))
    && (forall n :: n in mid.configurations ==> ConfigTowards(n, data, start, mid, head))
    && (forall n :: n in mid.sources ==> SourceTowards(n, data, start, mid, supported))
    && (forall o :: o in start.options ==> OptionTowards(o, data, start, mid))
  }

  /** A request that a run over `start` may make. */
  ghost predicate Fits(op: Op, data: Cfs, start: Cfs, supported: bool) {
    match op
    case SetOptions(values) => values == OptionsToChange(data, start)
    case RestoreSource(n, source) => supported && n in data.sources && n !in start.sources && source == data.sources[n]
    case CreateConfig(n, config) =>
      n in data.configurations && n !in start.configurations && config == Scrub(data.configurations[n])
    case UpdateDesired(ids, desired) => IsUpdate(op, data) && forall id :: id in ids ==> NeedsUpdate(id, data, start)
    case _ => false
  }

  lemma NextComponent(op: Op, data: Cfs, start: Cfs, mid: Cfs, supported: bool, head: Layer -> string, id: string)
    requires Fits(op, data, start, supported) && (op.UpdateDesired? ==> op.desired in mid.configurations)
    requires id in start.components && id in mid.components && ComponentTowards(id, data, start, mid)
    ensures id in Apply(mid, op, head).components && ComponentTowards(id, data, start, Apply(mid, op, head))
  {
  }

  lemma NextConfig(op: Op, data: Cfs, start: Cfs, mid: Cfs, supported: bool, head: Layer -> string, n: string)
    requires Fits(op, data, start, supported) && n in Apply(mid, op, head).configurations
    requires n in mid.configurations ==> ConfigTowards(n, data, start, mid, head)
    ensures ConfigTowards(n, data, start, Apply(mid, op, head), head)
  {
  }

  lemma NextSource(op: Op, data: Cfs, start: Cfs, mid: Cfs, supported: bool, head: Layer -> string, n: string)
    requires Fits(op, data, start, supported) && n in Apply(mid, op, head).sources
    requires n in mid.sources ==> SourceTowards(n, data, start, mid, supported)
    ensures SourceTowards(n, data, start, Apply(mid, op, head), supported)
  {
  }

  lemma NextOption(op: Op, data: Cfs, start: Cfs, mid: Cfs, supported: bool, head: Layer -> string, o: string)
    requires Fits(op, data, start, supported)
    requires o in start.options && o in mid.options && OptionTowards(o, data, start, mid)
    ensures o in Apply(mid, op, head).options && OptionTowards(o, data, start, Apply(mid, op, head))
  {
  }

  lemma FitsKeepsTowards(op: Op, data: Cfs, start: Cfs, mid: Cfs, supported: bool, head: Layer -> string)
    requires Fits(op, data, start, supported) && Towards(data, start, mid, supported, head)
    requires op.UpdateDesired? ==> op.desired in mid.configurations
    ensures Towards(data, start, Apply(mid, op, head), supported, head)
  {
    var next := Apply(mid, op, head);
    forall id | id in start.components
      ensures id in next.components && ComponentTowards(id, data, start, next)
    {
      NextComponent(op, data, start, mid, supported, head, id);
    }
    forall n | n in next.configurations
      ensures ConfigTowards(n, data, start, next, head)
    {
      NextConfig(op, data, start, mid, supported, head, n);
    }
    forall n | n in next.sources
      ensures SourceTowards(n, data, start, next, supported)
    {
      NextSource(op, data, start, mid, supported, head, n);
    }
    forall o | o in start.options
      ensures o in next.options && OptionTowards(o, data, start, next)
    {
      NextOption(op, data, start, mid, supported, head, o);
    }
  }

  lemma {:induction false} InUpdatedIds(ops: seq<Op>, i: nat, id: string)
    requires i < |ops| && ops[i].UpdateDesired? && id in ops[i].ids
    ensures id in UpdatedIds(ops)
  {
    if i > 0 {
      InUpdatedIds(ops[1..], i - 1, id);
    }
  }

  lemma ChangesFit(work: Work, data: Cfs, start: Cfs, supported: bool, i: nat)
    requires DoesAll(work, data, start, supported) && i < |work.Ops()|
    ensures Fits(work.Ops()[i], data, start, supported)
  {
    var a, b, c := |work.options|, |work.sources|, |work.configs|;
    if i < a {
      assert work.Ops()[i] == work.options[i];
    } else if i < a + b {
      var names :| SourceNames(work.sources, names, data, start, supported);
      assert work.Ops()[i] == work.sources[i - a] && names[i - a] in names;
    } else if i < a + b + c {
      var names :| ConfigNames(work.configs, names, data, start);
      assert work.Ops()[i] == work.configs[i - a - b] && names[i - a - b] in names;
    } else {
      var op := work.updates[i - a - b - c];
      assert work.Ops()[i] == op && op in work.updates;
      forall id | id in op.ids
        ensures NeedsUpdate(id, data, start)
      {
        InUpdatedIds(work.updates, i - a - b - c, id);
      }
    }
  }

  /** What CFS holds after the first `k` requests. */
  function After(work: Work, start: Cfs, head: Layer -> string, k: nat): Cfs
    requires k <= |work.Ops()|
  {
    ApplyAll(start, work.Ops()[..k], head)
  }

  /** Before a component is updated, its configuration exists on the server. */
  lemma ConfigExistsBeforeUpdate(work: Work, data: Cfs, start: Cfs, supported: bool, head: Layer -> string, i: nat)
    requires DoesAll(work, data, start, supported)
    requires i < |work.Ops()| && work.Ops()[i].UpdateDesired?
    ensures work.Ops()[i].desired in After(work, start, head, i).configurations
  {
    var ops := work.Ops();
    var all := work.options + work.sources + work.configs;
    ChangesFit(work, data, start, supported, i);
    NoUpdateIn(work, data, start, supported, i);
    var updates := work.updates[..i - |all|];
    assert ops[..i] == all + updates;
    ApplyInTwo(start, all, updates, head);
    BeforeUpdates(work, data, start, supported, head);
    UpdatesEffect(ApplyAll(start, all, head), updates, data, head);
    assert ops[i].ids[0] in ops[i].ids;
  }

  lemma NoUpdateIn(work: Work, data: Cfs, start: Cfs, supported: bool, i: nat)
    requires DoesAll(work, data, start, supported)
    requires i < |work.Ops()| && work.Ops()[i].UpdateDesired?
    ensures |work.options + work.sources + work.configs| <= i
  {
  }

  lemma AfterOneMore(work: Work, start: Cfs, head: Layer -> string, i: nat)
    requires i < |work.Ops()|
    ensures After(work, start, head, i + 1) == Apply(After(work, start, head, i), work.Ops()[i], head)
  {
    var ops := work.Ops();
    assert ops[..i + 1] == ops[..i] + [ops[i]];
    ApplyLast(start, ops[..i], ops[i], head);
  }

  lemma NextIsTowards(work: Work, data: Cfs, start: Cfs, supported: bool, head: Layer -> string, i: nat)
    requires DoesAll(work, data, start, supported) && i < |work.Ops()|
    requires Towards(data, start, After(work, start, head, i), supported, head)
    ensures Towards(data, start, After(work, start, head, i + 1), supported, head)
  {
    ChangesFit(work, data, start, supported, i);
    if work.Ops()[i].UpdateDesired? {
      ConfigExistsBeforeUpdate(work, data, start, supported, head, i);
    }
    AfterOneMore(work, start, head, i);
    FitsKeepsTowards(work.Ops()[i], data, start, After(work, start, head, i), supported, head);
  }

  /** However many of its requests a run gets through, it has overwritten nothing. */
  lemma {:induction false} EveryPrefixIsTowards(
      work: Work, data: Cfs, start: Cfs, supported: bool, head: Layer -> string, k: nat)
    requires DoesAll(work, data, start, supported) && k <= |work.Ops()|
    ensures Towards(data, start, After(work, start, head, k), supported, head)
  {
    if k == 0 {
      assert After(work, start, head, 0) == start;
    } else {
      EveryPrefixIsTowards(work, data, start, supported, head, k - 1);
      NextIsTowards(work, data, start, supported, head, k - 1);
    }
  }

  lemma SameConfigsGoal(data: Cfs, start: Cfs, mid: Cfs, head: Layer -> string)
    requires start.configurations.Keys <= mid.configurations.Keys
    requires forall n :: n in mid.configurations ==> ConfigTowards(n, data, start, mid, head)
    ensures ImportedConfigs(data, mid, head) == ImportedConfigs(data, start, head)
  {
  }

  lemma SameSourcesGoal(data: Cfs, start: Cfs, mid: Cfs, supported: bool)
    requires start.sources.Keys <= mid.sources.Keys
    requires forall n :: n in mid.sources ==> SourceTowards(n, data, start, mid, supported)
    ensures ImportedSources(data, mid, supported) == ImportedSources(data, start, supported)
  {
  }

  lemma SameOptionsGoal(data: Cfs, start: Cfs, mid: Cfs)
    requires start.options.Keys == mid.options.Keys
    requires forall o :: o in start.options ==> OptionTowards(o, data, start, mid)
    ensures ImportedOptions(data, mid) == ImportedOptions(data, start)
  {
  }

  lemma SameComponentGoal(data: Cfs, start: Cfs, mid: Cfs, head: Layer -> string, id: string)
    requires start.configurations.Keys <= mid.configurations.Keys
    requires forall n :: n in mid.configurations ==> ConfigTowards(n, data, start, mid, head)
    requires id in start.components && id in mid.components && ComponentTowards(id, data, start, mid)
    ensures ImportedComponents(data, mid)[id] == ImportedComponents(data, start)[id]
  {
    var wanted := Wanted(id, data);
    assert wanted in mid.configurations || wanted in data.configurations
      <==> wanted in start.configurations || wanted in data.configurations by {
      assert wanted in mid.configurations ==> ConfigTowards(wanted, data, start, mid, head);
    }
  }

  /** From every point on the way the goal is still the same. */
  lemma TowardsHasTheSameGoal(data: Cfs, start: Cfs, mid: Cfs, supported: bool, head: Layer -> string)
    requires Towards(data, start, mid, supported, head)
    ensures Imported(data, mid, supported, head) == Imported(data, start, supported, head)
  {
    SameConfigsGoal(data, start, mid, head);
    SameSourcesGoal(data, start, mid, supported);
    SameOptionsGoal(data, start, mid);
    var a, b := ImportedComponents(data, mid), ImportedComponents(data, start);
    forall id | id in start.components
      ensures a[id] == b[id]
    {
      SameComponentGoal(data, start, mid, head, id);
    }
    assert a.Keys == b.Keys;
    assert a == b;
  }

  /** A run that is aborted after any of its requests and then repeated ends where one whole run would have. */
  lemma AbortedThenRepeated(first: Work, k: nat, second: Work, data: Cfs, start: Cfs, supported: bool,
                            head: Layer -> string)
    requires DoesAll(first, data, start, supported) && k <= |first.Ops()|
    requires DoesAll(second, data, After(first, start, head, k), supported)
    ensures ApplyAll(After(first, start, head, k), second.Ops(), head)
         == ApplyAll(start, first.Ops(), head)
  {
    var mid := After(first, start, head, k);
    EveryPrefixIsTowards(first, data, start, supported, head, k);
    TowardsHasTheSameGoal(data, start, mid, supported, head);
    CompletedIsImported(second, data, mid, supported, head);
    CompletedIsImported(first, data, start, supported, head);
  }

  lemma {:induction false} UpdatesSome(ops: seq<Op>, data: Cfs)
    requires forall op :: op in ops ==> IsUpdate(op, data)
    ensures ops == [] <==> UpdatedIds(ops) == []
  {
    if ops != [] {
      assert ops[0] in ops;
    }
  }

  lemma NothingToUpdate(data: Cfs, start: Cfs, supported: bool, head: Layer -> string)
    ensures ComponentsToUpdate(data, Imported(data, start, supported, head)) == {}
  {
    var end := Imported(data, start, supported, head);
    forall id | id in data.components
      ensures !NeedsUpdate(id, data, end)
    {
      assert id in start.components ==> NeedsUpdate(id, data, start) || end.components[id] == start.components[id];
    }
  }

  /** After an import the same import finds nothing to do. */
  lemma SecondRunIsIdle(data: Cfs, start: Cfs, supported: bool, head: Layer -> string, again: Work)
    requires data.options.Keys <= start.options.Keys
    requires DoesAll(again, data, Imported(data, start, supported, head), supported)
    ensures again.Ops() == []
  {
    var end := Imported(data, start, supported, head);
    assert OptionsToChange(data, end) == map[];
    assert SourcesToRestore(data, end, supported) == {};
    var sources :| SourceNames(again.sources, sources, data, end, supported);
    ListsSome(sources, {});
    assert data.configurations.Keys - end.configurations.Keys == {};
    var configs :| ConfigNames(again.configs, configs, data, end);
    ListsSome(configs, {});
    NothingToUpdate(data, start, supported, head);
    ListsSome(UpdatedIds(again.updates), {});
    UpdatesSome(again.updates, data);
  }

  // ---------------------------------------------------------------------------------------------
  // Clearing and bringing back
  // ---------------------------------------------------------------------------------------------

  /** What the exporter writes and the importer reads: components with an empty id are left out. */
  function Export(cfs: Cfs): Cfs {
    cfs.(components := cfs.components - {""})
  }

  /** Importing an export of the same system with clear: the same configurations, except that a layer with a branch has
      the branch's head for its commit, and every component wants what it wanted if that configuration exists, and
      nothing otherwise. */
  lemma RestoreRoundTrip(clearing: seq<Op>, work: Work, system: Cfs, supported: bool, head: Layer -> string)
    requires ClearPart(clearing, system, supported)
    requires DoesAll(work, Export(system), AfterClearing(system), supported)
    ensures var end := ApplyAll(system, clearing + work.Ops(), head);
            && end.configurations.Keys == system.configurations.Keys
            && (forall n :: n in system.configurations ==>
                Scrub(end.configurations[n]) == Scrub(system.configurations[n]))
            && (forall n :: n in system.configurations ==>
                var config, restored := system.configurations[n], end.configurations[n];
                && |restored.layers| == |config.layers| && restored.inventory.Some? == config.inventory.Some?
                && (forall i :: 0 <= i < |config.layers| ==>
                      restored.layers[i] == WithHead(config.layers[i], head))
                && (config.inventory.Some? ==> restored.inventory.value == WithHead(config.inventory.value, head)))
            && end.options == system.options && end.sources == system.sources
            && end.components.Keys == system.components.Keys
            && (forall id :: id in system.components && id != "" ==>
                  end.components[id].desired ==
                  if system.components[id].desired in system.configurations then system.components[id].desired else "")
  {
    ApplyInTwo(system, clearing, work.Ops(), head);
    ClearReaches(system, clearing, supported, head);
    CompletedIsImported(work, Export(system), AfterClearing(system), supported, head);
    ImportedAfterClearing(system, supported, head);
    ComponentsAfterClearing(system);
    forall n | n in system.configurations
      ensures var config, restored := system.configurations[n], Fill(Scrub(system.configurations[n]), head);
              && Scrub(restored) == Scrub(config)
              && |restored.layers| == |config.layers| && restored.inventory.Some? == config.inventory.Some?
              && (forall i :: 0 <= i < |config.layers| ==> restored.layers[i] == WithHead(config.layers[i], head))
              && (config.inventory.Some? ==> restored.inventory.value == WithHead(config.inventory.value, head))
    {
      FillKeepsScrubbed(system.configurations[n], head);
      CreatedConfigIs(system.configurations[n], head);
    }
  }

  lemma ImportedAfterClearing(system: Cfs, supported: bool, head: Layer -> string)
    ensures var end := Imported(Export(system), AfterClearing(system), supported, head);
            && end.configurations.Keys == system.configurations.Keys
            && (forall n :: n in system.configurations ==>
                end.configurations[n] == Fill(Scrub(system.configurations[n]), head))
            && end.options == system.options && end.sources == system.sources
  {
    var data, cleared := Export(system), AfterClearing(system);
    assert ImportedOptions(data, cleared) == system.options;
    assert ImportedSources(data, cleared, supported) == system.sources;
  }

  lemma ComponentsAfterClearing(system: Cfs)
    ensures var end := ImportedComponents(Export(system), AfterClearing(system));
            && end.Keys == system.components.Keys
            && (forall id :: id in system.components && id != "" ==>
                  end[id].desired ==
                  if system.components[id].desired in system.configurations then system.components[id].desired else "")
  {
    assert AfterClearing(system).components.Keys == system.components.Keys;
  }

  /** Exactly the components whose configuration was exported are updated, each once and in one batch of at most
      500 that want the same. */
  lemma RestoredExactlyOnce(work: Work, system: Cfs, supported: bool)
    requires DoesAll(work, Export(system), AfterClearing(system), supported)
    ensures NoRepeats(UpdatedIds(work.updates))
    ensures forall id :: id in UpdatedIds(work.updates) <==>
              && id in system.components && id != "" && system.components[id].desired != ""
              && system.components[id].desired in system.configurations
    ensures forall op :: op in work.updates ==>
              op.UpdateDesired? && 1 <= |op.ids| <= MAX_BATCH
              && forall id :: id in op.ids ==> id in system.components && system.components[id].desired == op.desired
  {
    var data, cleared := Export(system), AfterClearing(system);
    forall id
      ensures id in ComponentsToUpdate(data, cleared) <==>
              && id in system.components && id != "" && system.components[id].desired != ""
              && system.components[id].desired in system.configurations
    {
    }
  }

  // ---------------------------------------------------------------------------------------------
  // Clearing that is aborted, and the sources
  // ---------------------------------------------------------------------------------------------

  /** A request of the clearing. */
  predicate IsClearing(op: Op) {
    (op.ClearComponents? && "" !in op.ids) || op.DeleteConfig?
  }

  lemma {:induction false} ClearingPrefix(cfs: Cfs, ops: seq<Op>, head: Layer -> string)
    requires forall op :: op in ops ==> IsClearing(op)
    ensures AfterClearing(ApplyAll(cfs, ops, head)) == AfterClearing(cfs)
    decreases |ops|
  {
    if ops != [] {
      assert ops[0] in ops;
      assert forall op :: op in ops[1..] ==> op in ops;
      ClearingPrefix(Apply(cfs, ops[0], head), ops[1..], head);
      assert AfterClearing(Apply(cfs, ops[0], head)) == AfterClearing(cfs);
    }
  }

  lemma AllAreClearing(ops: seq<Op>, cfs: Cfs, supported: bool)
    requires ClearPart(ops, cfs, supported)
    ensures forall op :: op in ops ==> IsClearing(op)
  {
    var batches, configs, sources :| Clears(ops, batches, configs, sources, cfs, supported);
    ListsSome(sources, SourcesToDelete(cfs, supported));
    forall i | 0 <= i < |batches|
      ensures "" !in batches[i]
    {
      InFlat(batches, i);
    }
  }

  lemma ClearedComponentsStay(data: Cfs, start: Cfs, mid: Cfs)
    requires mid.components.Keys == start.components.Keys
    requires "" in start.components ==> ComponentTowards("", data, AfterClearing(start), mid)
    ensures AfterClearing(mid).components == AfterClearing(start).components
  {
    if "" in start.components {
      assert mid.components[""] == start.components[""];
    }
  }

  /** Clearing again on the way of an import leaves its goal as it was. */
  lemma ClearedIsTowards(data: Cfs, start: Cfs, mid: Cfs, supported: bool, head: Layer -> string)
    requires Towards(data, AfterClearing(start), mid, supported, head)
    ensures Imported(data, AfterClearing(mid), supported, head) == Imported(data, AfterClearing(start), supported, head)
  {
    var cleared, again := AfterClearing(start), AfterClearing(mid);
    assert cleared.components.Keys == start.components.Keys;
    ClearedComponentsStay(data, start, mid);
    SameSourcesGoal(data, cleared, mid, supported);
    SameOptionsGoal(data, cleared, mid);
    assert ImportedSources(data, again, supported) == ImportedSources(data, mid, supported);
    assert ImportedOptions(data, again) == ImportedOptions(data, mid);
    assert ImportedComponents(data, again) == ImportedComponents(data, cleared);
  }

  /** What CFS holds after the first `k` requests of a run with --clear-cfs. */
  function AfterBoth(clearing: seq<Op>, work: Work, start: Cfs, head: Layer -> string, k: nat): Cfs
    requires k <= |clearing + work.Ops()|
  {
    ApplyAll(start, (clearing + work.Ops())[..k], head)
  }

  lemma AbortedClearing(clearing: seq<Op>, work: Work, start: Cfs, supported: bool, head: Layer -> string, k: nat)
    requires ClearPart(clearing, start, supported) && k <= |clearing|
    ensures AfterClearing(AfterBoth(clearing, work, start, head, k)) == AfterClearing(start)
  {
    assert (clearing + work.Ops())[..k] == clearing[..k];
    AllAreClearing(clearing, start, supported);
    ClearingPrefix(start, clearing[..k], head);
  }

  lemma AbortedImport(clearing: seq<Op>, work: Work, data: Cfs, start: Cfs, supported: bool, head: Layer -> string,
                      k: nat, n: nat) returns (mid: Cfs)
    requires ClearPart(clearing, start, supported) && DoesAll(work, data, AfterClearing(start), supported)
    requires n <= |work.Ops()| && k == |clearing| + n
    ensures k <= |clearing + work.Ops()| && mid == AfterBoth(clearing, work, start, head, k)
    ensures Towards(data, AfterClearing(start), mid, supported, head)
  {
    assert (clearing + work.Ops())[..k] == clearing + work.Ops()[..n];
    ApplyInTwo(start, clearing, work.Ops()[..n], head);
    ClearReaches(start, clearing, supported, head);
    EveryPrefixIsTowards(work, data, AfterClearing(start), supported, head, n);
    mid := After(work, AfterClearing(start), head, n);
  }

  lemma AbortedGoal(clearing: seq<Op>, work: Work, data: Cfs, start: Cfs, supported: bool, head: Layer -> string,
                    k: nat)
    requires ClearPart(clearing, start, supported) && DoesAll(work, data, AfterClearing(start), supported)
    requires k <= |clearing + work.Ops()|
    ensures Imported(data, AfterClearing(AfterBoth(clearing, work, start, head, k)), supported, head)
         == Imported(data, AfterClearing(start), supported, head)
  {
    if k <= |clearing| {
      AbortedClearing(clearing, work, start, supported, head, k);
    } else {
      var mid := AbortedImport(clearing, work, data, start, supported, head, k, k - |clearing|);
      ClearedIsTowards(data, start, mid, supported, head);
    }
  }

  /** A run with --clear-cfs that is aborted after any of its requests, clearing or importing, and then repeated ends
      where one whole run would have. */
  lemma ClearedAbortedThenRepeated(clearing: seq<Op>, first: Work, k: nat, again: seq<Op>, second: Work, data: Cfs,
                                   start: Cfs, supported: bool, head: Layer -> string)
    requires ClearPart(clearing, start, supported) && DoesAll(first, data, AfterClearing(start), supported)
    requires k <= |clearing + first.Ops()|
    requires var mid := AfterBoth(clearing, first, start, head, k);
             ClearPart(again, mid, supported) && DoesAll(second, data, AfterClearing(mid), supported)
    ensures ApplyAll(AfterBoth(clearing, first, start, head, k), again + second.Ops(), head)
         == ApplyAll(start, clearing + first.Ops(), head)
  {
    AbortedGoal(clearing, first, data, start, supported, head, k);
    WholeRun(clearing, first, data, start, supported, head);
    WholeRun(again, second, data, AfterBoth(clearing, first, start, head, k), supported, head);
  }

  lemma WholeRun(clearing: seq<Op>, work: Work, data: Cfs, start: Cfs, supported: bool, head: Layer -> string)
    requires ClearPart(clearing, start, supported) && DoesAll(work, data, AfterClearing(start), supported)
    ensures ApplyAll(start, clearing + work.Ops(), head) == Imported(data, AfterClearing(start), supported, head)
  {
    ApplyInTwo(start, clearing, work.Ops(), head);
    ClearReaches(start, clearing, supported, head);
    CompletedIsImported(work, data, AfterClearing(start), supported, head);
  }

  ghost predicate AllSourcesImported(data: Cfs, end: Cfs) {
    forall n :: n in data.sources ==> n in end.sources && end.sources[n] == data.sources[n]
  }

  /** After a run with --clear-cfs every imported source has its imported definition if and only if each one that was in
      CFS had that definition already, and the others can be restored. */
  lemma SourcesImportedIff(clearing: seq<Op>, work: Work, data: Cfs, start: Cfs, supported: bool, head: Layer -> string)
    requires ClearPart(clearing, start, supported) && DoesAll(work, data, AfterClearing(start), supported)
    ensures AllSourcesImported(data, ApplyAll(start, clearing + work.Ops(), head)) <==>
              forall n :: n in data.sources ==>
                if n in start.sources then start.sources[n] == data.sources[n] else supported
  {
    WholeRun(clearing, work, data, start, supported, head);
    assert ImportedSources(data, AfterClearing(start), supported) == ImportedSources(data, start, supported);
  }

  /** A CFS with one source and nothing else. */
  function OneSource(definition: string): Cfs {
    Cfs(map[], map[], map[], map["csm" := definition])
  }

  lemma NothingIsDone(start: string, data: string)
    ensures ClearPart([], OneSource(start), true)
    ensures DoesAll(IDLE, OneSource(data), AfterClearing(OneSource(start)), true)
  {
    var cfs := OneSource(start);
    assert Flat([]) == [];
    assert "csm" in cfs.sources;
    assert Clears([], [], [], [], cfs, true);
    assert SourceNames([], [], OneSource(data), AfterClearing(cfs), true);
    assert ConfigNames([], [], OneSource(data), AfterClearing(cfs));
  }

  /** A source with another definition than the one to be imported keeps it, although CFS is cleared first: the run
      makes no request at all. */
  lemma KeptSourceExample(head: Layer -> string)
    ensures var start, data := OneSource("https://old"), OneSource("https://new");
            && ClearPart([], start, true) && DoesAll(IDLE, data, AfterClearing(start), true)
            && !AllSourcesImported(data, ApplyAll(start, [] + IDLE.Ops(), head))
  {
    NothingIsDone("https://old", "https://new");
    assert "https://old"[8] == 'o' && "https://new"[8] == 'n';
    var n := "csm";
    assert n in OneSource("https://new").sources;
    SourcesImportedIff([], IDLE, OneSource("https://new"), OneSource("https://old"), true, head);
  }
}
