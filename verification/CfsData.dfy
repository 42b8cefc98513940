/** The CFS service as the import script sees it: its data, and the requests that change it. */
module CfsData {
  import opened Outcomes
  import opened Sequences

  /** A configuration layer: its fields by name. */
  type Layer = map<string, string>

  datatype Config = Config(layers: seq<Layer>, inventory: Option<Layer>)

  /** A component; `desired` is the name of its desired configuration, or empty. */
  datatype Component = Component(desired: string, errorCount: nat, state: seq<string>, tags: map<string, string>)

  datatype Cfs = Cfs(
    components: map<string, Component>,
    configurations: map<string, Config>,
    options: map<string, string>,
    sources: map<string, string>)

  const BRANCH := "branch"
  const COMMIT := "commit"

  datatype Op =
    | SetOptions(values: map<string, string>)
    | RestoreSource(name: string, source: string)
    | CreateConfig(name: string, config: Config)
    | UpdateDesired(ids: seq<string>, desired: string)
    | ClearComponents(ids: seq<string>)
    | DeleteConfig(name: string)
    | DeleteSource(name: string)

  /** A layer may not have both a branch and a commit when a configuration is created. */
  function ScrubLayer(layer: Layer): Layer {
    if COMMIT in layer && BRANCH in layer then layer - {COMMIT} else layer
  }

  function Scrub(config: Config): Config {
    Config(seq(|config.layers|, i requires 0 <= i < |config.layers| => ScrubLayer(config.layers[i])),
           match config.inventory case None => None case Some(layer) => Some(ScrubLayer(layer)))
  }

  /** CFS fills in the commit of a layer that has a branch only: the branch's head. */
  function FillLayer(layer: Layer, head: Layer -> string): Layer {
    if BRANCH in layer && COMMIT !in layer then layer[COMMIT := head(layer)] else layer
  }

  function Fill(config: Config, head: Layer -> string): Config {
    Config(seq(|config.layers|, i requires 0 <= i < |config.layers| => FillLayer(config.layers[i], head)),
           match config.inventory case None => None case Some(layer) => Some(FillLayer(layer, head)))
  }

  /** Filling in the commits of a scrubbed configuration changes nothing that scrubbing leaves. */
  lemma FillKeepsScrubbed(config: Config, head: Layer -> string)
    ensures Scrub(Fill(Scrub(config), head)) == Scrub(config)
  {
    forall layer: Layer
      ensures ScrubLayer(FillLayer(ScrubLayer(layer), head)) == ScrubLayer(layer)
    {
      var s := ScrubLayer(layer);
      if BRANCH in s {
        assert s[COMMIT := head(s)] - {COMMIT} == s;
      }
    }
  }

  /** A layer that is sent has no branch with a commit. Nothing else is lost: what is missing is the commit of a layer
      that has a branch. */
  lemma ScrubbedLayerIs(layer: Layer)
    ensures var sent := ScrubLayer(layer);
            && ("branch" !in sent || "commit" !in sent)
            && (forall field :: field in sent <==> field in layer && (field == "commit" ==> "branch" !in layer))
            && (forall field :: field in sent ==> sent[field] == layer[field])
  {
  }

  /** The layer with its branch's head for a commit. */
  function WithHead(layer: Layer, head: Layer -> string): Layer {
    if "branch" in layer then layer["commit" := head(layer - {"commit"})] else layer
  }

  /** What CFS has of a layer that was created: without a branch the same layer, with its commit if it had one. With a
      branch the commit is the branch's head, whatever it was before, and the other fields are the same. */
  lemma CreatedLayerIs(layer: Layer, head: Layer -> string)
    ensures FillLayer(ScrubLayer(layer), head)
         == if "branch" in layer then layer["commit" := head(layer - {"commit"})] else layer
  {
    if "branch" in layer {
      var sent := ScrubLayer(layer);
      assert sent == layer - {"commit"};
    }
  }

  /** Every layer in its place, and an inventory exactly where there was one. */
  lemma CreatedConfigIs(config: Config, head: Layer -> string)
    ensures var created := Fill(Scrub(config), head);
            && |created.layers| == |config.layers|
            && (forall i :: 0 <= i < |config.layers| ==> created.layers[i] == WithHead(config.layers[i], head))
            && created.inventory.Some? == config.inventory.Some?
            && (config.inventory.Some? ==> created.inventory.value == WithHead(config.inventory.value, head))
  {
    forall layer
      ensures FillLayer(ScrubLayer(layer), head) == WithHead(layer, head)
    {
      CreatedLayerIs(layer, head);
    }
  }

  function Cleared(): Component {
    Component("", 0, [], map[])
  }

  function Apply(cfs: Cfs, op: Op, head: Layer -> string): Cfs {
    match op
    case SetOptions(values) => cfs.(options := cfs.options + values)
    case RestoreSource(name, source) => cfs.(sources := cfs.sources[name := source])
    case CreateConfig(name, config) => cfs.(configurations := cfs.configurations[name := Fill(config, head)])
    case UpdateDesired(ids, desired) =>
      cfs.(components := map id | id in cfs.components ::
             if id in ids then cfs.components[id].(desired := desired) else cfs.components[id])
    case ClearComponents(ids) =>
      cfs.(components := map id | id in cfs.components :: if id in ids then Cleared() else cfs.components[id])
    case DeleteConfig(name) => cfs.(configurations := cfs.configurations - {name})
    case DeleteSource(name) => cfs.(sources := cfs.sources - {name})
  }

  function ApplyAll(cfs: Cfs, ops: seq<Op>, head: Layer -> string): Cfs
    decreases |ops|
  {
    if ops == [] then cfs else ApplyAll(Apply(cfs, ops[0], head), ops[1..], head)
  }

  lemma {:induction false} ApplyInTwo(cfs: Cfs, a: seq<Op>, b: seq<Op>, head: Layer -> string)
    ensures ApplyAll(cfs, a + b, head) == ApplyAll(ApplyAll(cfs, a, head), b, head)
    decreases |a|
  {
    if a == [] {
      assert a + b == b;
    } else {
      assert (a + b)[0] == a[0] && (a + b)[1..] == a[1..] + b;
      ApplyInTwo(Apply(cfs, a[0], head), a[1..], b, head);
    }
  }

  lemma ApplyLast(cfs: Cfs, ops: seq<Op>, op: Op, head: Layer -> string)
    ensures ApplyAll(cfs, ops + [op], head) == Apply(ApplyAll(cfs, ops, head), op, head)
  {
    ApplyInTwo(cfs, ops, [op], head);
    assert [op][1..] == [];
  }

  // ---------------------------------------------------------------------------------------------
  // Batches
  // ---------------------------------------------------------------------------------------------

  const MAX_BATCH: nat := 500

  /** `s` has the elements of `names`, each once. */
  ghost predicate Lists(s: seq<string>, names: set<string>) {
    NoRepeats(s) && forall x :: x in s <==> x in names
  }

  method ListOf(names: set<string>) returns (s: seq<string>)
    ensures Lists(s, names)
  {
    s := [];
    var left := names;
    while left != {}
      invariant left <= names
      invariant Lists(s, names - left)
    {
      var x :| x in left;
      s := s + [x];
      left := left - {x};
    }
  }

  function Flat(batches: seq<seq<string>>): seq<string> {
    if batches == [] then [] else batches[0] + Flat(batches[1..])
  }

  lemma {:induction false} FlatLast(batches: seq<seq<string>>, last: seq<string>)
    ensures Flat(batches + [last]) == Flat(batches) + last
  {
    if batches == [] {
      assert batches + [last] == [last];
      assert [last][1..] == [];
    } else {
      assert (batches + [last])[0] == batches[0] && (batches + [last])[1..] == batches[1..] + [last];
      FlatLast(batches[1..], last);
    }
  }

  /** Pieces of 500, and a last one of at most 500. */
  function Chunks(items: seq<string>): seq<seq<string>>
    decreases |items|
  {
    if items == [] then []
    else
      var size := if |items| <= MAX_BATCH then |items| else MAX_BATCH;
      [items[..size]] + Chunks(items[size..])
  }

  lemma {:induction false} ChunksAre(items: seq<string>)
    ensures Flat(Chunks(items)) == items
    ensures forall b :: b in Chunks(items) ==> 1 <= |b| <= MAX_BATCH
    decreases |items|
  {
    if items != [] {
      var size := if |items| <= MAX_BATCH then |items| else MAX_BATCH;
      ChunksAre(items[size..]);
      assert items == items[..size] + items[size..];
    }
  }

  /** Breaks the list into pieces of at most 500; nothing is lost, repeated or moved. */
  method ChunkList(items: seq<string>) returns (batches: seq<seq<string>>)
    ensures batches == Chunks(items)
    ensures Flat(batches) == items
    ensures forall b :: b in batches ==> 1 <= |b| <= MAX_BATCH
  {
    batches := [];
    var rest := items;
    while rest != []
      invariant batches + Chunks(rest) == Chunks(items)
      decreases |rest|
    {
      var size := if |rest| <= MAX_BATCH then |rest| else MAX_BATCH;
      Associative(batches, [rest[..size]], Chunks(rest[size..]));
      batches := batches + [rest[..size]];
      rest := rest[size..];
    }
    assert batches + [] == batches;
    ChunksAre(items);
  }

  /** The components that the updates name, in order. */
  function UpdatedIds(ops: seq<Op>): seq<string> {
    if ops == [] then []
    else (if ops[0].UpdateDesired? then ops[0].ids else []) + UpdatedIds(ops[1..])
  }

  lemma {:induction false} UpdatedInTwo(a: seq<Op>, b: seq<Op>)
    ensures UpdatedIds(a + b) == UpdatedIds(a) + UpdatedIds(b)
  {
    if a == [] {
      assert a + b == b;
    } else {
      assert (a + b)[0] == a[0] && (a + b)[1..] == a[1..] + b;
      UpdatedInTwo(a[1..], b);
    }
  }
}
