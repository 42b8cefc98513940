/** What CFS holds after an import or after clearing, read off the data alone. */
module CfsEnd {
  import opened Outcomes
  import opened CfsData
  import opened CfsImport
  import opened CfsRuns

  /** The component is to get its desired configuration: it has an id, CFS has it without one, the data names one, and
      that is in CFS already or in the data. */
  predicate IsBehind(id: string, data: Cfs, start: Cfs) {
    && id != "" && id in data.components && id in start.components && start.components[id].desired == ""
    && var desired := data.components[id].desired;
       desired != "" && (desired in data.configurations || desired in start.configurations)
  }

  /** A completed import changes the desired configurations of just these components. What CFS had is not overwritten,
      but for options, of which it adds none. */
  lemma ImportedIs(work: Work, data: Cfs, start: Cfs, supported: bool, head: Layer -> string)
    requires DoesAll(work, data, start, supported)
    ensures var end := ApplyAll(start, work.Ops(), head);
            && (forall id :: id in end.components <==> id in start.components)
            && (forall id :: id in start.components ==>
                  if IsBehind(id, data, start) then
                    end.components[id] == start.components[id].(desired := data.components[id].desired)
                  else end.components[id] == start.components[id])
    ensures var end := ApplyAll(start, work.Ops(), head);
            && (forall o :: o in end.options <==> o in start.options)
            && (forall o :: o in start.options ==>
                  end.options[o] == if o in data.options then data.options[o] else start.options[o])
    ensures var end := ApplyAll(start, work.Ops(), head);
            && (forall n :: n in end.sources <==> n in start.sources || (supported && n in data.sources))
            && (forall n :: n in end.sources ==>
                  end.sources[n] == if n in start.sources then start.sources[n] else data.sources[n])
  {
    CompletedIsImported(work, data, start, supported, head);
  }

  /** A configuration that was there stays; one that was not is that of the data, with the branch's head for the
      commit of a layer that has a branch. */
  lemma ImportedConfigIs(work: Work, data: Cfs, start: Cfs, supported: bool, head: Layer -> string, n: string)
    requires DoesAll(work, data, start, supported)
    ensures var end := ApplyAll(start, work.Ops(), head);
            && (n in end.configurations <==> n in start.configurations || n in data.configurations)
            && (n in start.configurations ==> end.configurations[n] == start.configurations[n])
            && (n in data.configurations && n !in start.configurations ==>
                  var config, made := data.configurations[n], end.configurations[n];
                  && |made.layers| == |config.layers| && made.inventory.Some? == config.inventory.Some?
                  && (forall i :: 0 <= i < |config.layers| ==> made.layers[i] == WithHead(config.layers[i], head))
                  && (config.inventory.Some? ==> made.inventory.value == WithHead(config.inventory.value, head)))
  {
    CompletedIsImported(work, data, start, supported, head);
    if n in data.configurations {
      CreatedConfigIs(data.configurations[n], head);
    }
  }

  /** Clearing resets every component that has an id, and leaves no configuration; options and sources stay. */
  lemma ClearedEnd(cfs: Cfs, ops: seq<Op>, supported: bool, head: Layer -> string)
    requires ClearPart(ops, cfs, supported)
    ensures var end := ApplyAll(cfs, ops, head);
            && end.configurations == map[] && end.options == cfs.options && end.sources == cfs.sources
            && (forall id :: id in end.components <==> id in cfs.components)
            && (forall id :: id in cfs.components ==>
                  end.components[id] == if id == "" then cfs.components[id] else Component("", 0, [], map[]))
  {
    ClearReaches(cfs, ops, supported, head);
  }

  /** Every update names at most 500 components, all of which the data wants to have its configuration; each component
      that is behind is named once, and no other. */
  lemma UpdatesAre(work: Work, data: Cfs, start: Cfs, supported: bool)
    requires DoesAll(work, data, start, supported)
    ensures forall op :: op in work.updates ==>
              op.UpdateDesired? && 1 <= |op.ids| <= 500
              && forall id :: id in op.ids ==> id in data.components && data.components[id].desired == op.desired
    ensures forall id :: id in UpdatedIds(work.updates) <==> IsBehind(id, data, start)
    ensures var ids := UpdatedIds(work.updates); forall i, j :: 0 <= i < j < |ids| ==> ids[i] != ids[j]
  {
  }

  /** When an import stops before it changes anything: sessions are running and a component is behind; or the data has
      an option that CFS does not know; or sessions are running and an option differs. */
  lemma OutcomeIs(data: Cfs, current: Cfs, ignoreSessions: bool, busy: Check -> bool)
    ensures Outcome(data, current, ignoreSessions, busy)
         == if !ignoreSessions && busy(BeforeComponents) && exists id :: IsBehind(id, data, current) then
              Some(SessionsRunning)
            else if exists o :: o in data.options && o !in current.options then Some(UnknownOption)
            else if !ignoreSessions && busy(BeforeOptions)
                    && exists o :: o in data.options && o in current.options && data.options[o] != current.options[o]
            then Some(SessionsRunning)
            else None
  {
    assert forall id :: id in ComponentsToUpdate(data, current) <==> IsBehind(id, data, current);
    assert forall o :: o in OptionsToChange(data, current) <==>
                       o in data.options && o in current.options && data.options[o] != current.options[o];
    assert ComponentsToUpdate(data, current) != {} <==> exists id :: id in ComponentsToUpdate(data, current);
    assert OptionsToChange(data, current) != map[] <==> exists o :: o in OptionsToChange(data, current);
  }

  /** Clearing resets components in requests of at most 500, deletes configurations and nothing else. */
  lemma ClearingRequests(cfs: Cfs, ops: seq<Op>, supported: bool, op: Op)
    requires ClearPart(ops, cfs, supported) && op in ops
    ensures op.ClearComponents? || op.DeleteConfig?
    ensures op.ClearComponents? ==> 1 <= |op.ids| <= 500 && "" !in op.ids
  {
    AllAreClearing(ops, cfs, supported);
    var batches, configs, sources :| Clears(ops, batches, configs, sources, cfs, supported);
    var i :| 0 <= i < |ops| && ops[i] == op;
    if op.ClearComponents? {
      assert i < |batches| && op.ids == batches[i];
    }
  }

  /** After any number of requests of an import, read off the data: components have what they had, or, if they were
      behind, the configuration that the data names, which exists by then. Options have the old or the new value. */
  lemma PrefixIs(work: Work, data: Cfs, start: Cfs, supported: bool, head: Layer -> string, k: nat)
    requires DoesAll(work, data, start, supported) && k <= |work.Ops()|
    ensures var mid := ApplyAll(start, work.Ops()[..k], head);
            && (forall id :: id in mid.components <==> id in start.components)
            && (forall id :: id in start.components ==>
                  || mid.components[id] == start.components[id]
                  || (IsBehind(id, data, start)
                      && mid.components[id] == start.components[id].(desired := data.components[id].desired)
                      && data.components[id].desired in mid.configurations))
            && (forall o :: o in mid.options <==> o in start.options)
            && (forall o :: o in start.options ==>
                  mid.options[o] == start.options[o] || (o in data.options && mid.options[o] == data.options[o]))
  {
    EveryPrefixIsTowards(work, data, start, supported, head, k);
    var mid := After(work, start, head, k);
    assert Towards(data, start, mid, supported, head);
    forall id | id in start.components
      ensures || mid.components[id] == start.components[id]
              || (IsBehind(id, data, start)
                  && mid.components[id] == start.components[id].(desired := data.components[id].desired)
                  && data.components[id].desired in mid.configurations)
    {
      assert ComponentTowards(id, data, start, mid);
    }
  }

  /** Sources and configurations that were there stay; what is new is in the data, and is what a whole import makes of
      it. */
  lemma PrefixAddsOnly(work: Work, data: Cfs, start: Cfs, supported: bool, head: Layer -> string, k: nat)
    requires DoesAll(work, data, start, supported) && k <= |work.Ops()|
    ensures var mid := ApplyAll(start, work.Ops()[..k], head);
            && (forall n :: n in start.sources ==> n in mid.sources && mid.sources[n] == start.sources[n])
            && (forall n :: n in mid.sources && n !in start.sources ==>
                  supported && n in data.sources && mid.sources[n] == data.sources[n])
            && (forall n :: n in start.configurations ==>
                  n in mid.configurations && mid.configurations[n] == start.configurations[n])
            && (forall n :: n in mid.configurations && n !in start.configurations ==>
                  var end := ApplyAll(start, work.Ops(), head);
                  && n in data.configurations && n in end.configurations
                  && mid.configurations[n] == end.configurations[n])
  {
    EveryPrefixIsTowards(work, data, start, supported, head, k);
    CompletedIsImported(work, data, start, supported, head);
    var mid := After(work, start, head, k);
    forall n | n in mid.configurations
      ensures ConfigTowards(n, data, start, mid, head)
    {
    }
    forall n | n in mid.sources
      ensures SourceTowards(n, data, start, mid, supported)
    {
    }
  }
}
