/** bss.py: pointing the boot parameters of several nodes at new artifacts, all of them or none. */
module BssArtifacts {
  import opened Outcomes
  import opened Text
  import opened Sequences

  const METAL := "metal.server="

  datatype Record = Record(params: Option<string>, kernel: string, initrd: string)

  /** One entry of an answer of BSS: several hosts may share it. */
  datatype Entry = Entry(hosts: seq<string>, record: Record)

  type Records = map<string, Record>

  datatype BssError = HostMissing | CountsDiffer | NoParams | NoMetalServer | PatchFailed

  /** What BSS may answer when asked for the hosts: entries that tell the truth, for every host that it has. */
  ghost predicate Answers(answer: seq<Entry>, records: Records, xnames: seq<string>) {
    && (forall e, h :: e in answer && h in e.hosts ==> h in records && records[h] == e.record)
    && (forall x :: x in xnames && x in records ==> Mentioned(answer, x))
  }

  predicate Mentioned(answer: seq<Entry>, x: string) {
    exists e :: e in answer && x in e.hosts
  }

  predicate IsMetal(token: string) {
    METAL <= token
  }

  predicate HasMetal(tokens: seq<string>) {
    exists t :: t in tokens && IsMetal(t)
  }

  function NewToken(token: string, rootfs: string): string {
    if IsMetal(token) then METAL + rootfs else token
  }

  /** The same tokens, only that those for metal.server name the new root file system. */
  function NewTokens(tokens: seq<string>, rootfs: string): seq<string> {
    seq(|tokens|, i requires 0 <= i < |tokens| => NewToken(tokens[i], rootfs))
  }

  function NewParams(params: string, rootfs: string): string {
    Join(NewTokens(Words(params), rootfs), ' ')
  }

  predicate Updatable(record: Record) {
    record.params.Some? && HasMetal(Words(record.params.value))
  }

  function NewRecord(record: Record, kernel: string, initrd: string, rootfs: string): Record
    requires Updatable(record)
  {
    Record(Some(NewParams(record.params.value, rootfs)), kernel, initrd)
  }

  function Names(xnames: seq<string>): set<string> {
    set x | x in xnames
  }

  /** When the update goes through. */
  predicate AllUpdatable(records: Records, xnames: seq<string>) {
    NoRepeats(xnames) && forall x :: x in Names(xnames) ==> x in records && Updatable(records[x])
  }

  // ---------------------------------------------------------------------------------------------
  // The script
  // ---------------------------------------------------------------------------------------------

  /** The record of the first entry that has the host. */
  method FirstEntry(answer: seq<Entry>, x: string, ghost records: Records, ghost xnames: seq<string>)
    returns (r: Option<Record>)
    requires Answers(answer, records, xnames) && x in xnames
    ensures r == if x in records then Some(records[x]) else None
  {
    for i := 0 to |answer|
      invariant forall k :: 0 <= k < i ==> x !in answer[k].hosts
    {
      if x in answer[i].hosts {
        assert answer[i] in answer;
        return Some(answer[i].record);
      }
    }
    assert !Mentioned(answer, x);
    r := None;
  }

  lemma {:induction false} CountNames(xnames: seq<string>)
    ensures |Names(xnames)| <= |xnames|
    ensures |Names(xnames)| == |xnames| <==> NoRepeats(xnames)
  {
    if xnames != [] {
      var rest := xnames[1..];
      CountNames(rest);
      assert xnames == [xnames[0]] + rest;
      assert Names(xnames) == Names(rest) + {xnames[0]};
      NoRepeatsFirst(xnames);
    }
  }

  function RecordsOf(xnames: set<string>, records: Records): Records {
    map x | x in xnames && x in records :: records[x]
  }

  /** The source counts the map: a name that is given twice makes it too small. */
  method GetBootparametersMap(answer: seq<Entry>, xnames: seq<string>, ghost records: Records)
    returns (r: Result<Records, BssError>)
    requires Answers(answer, records, xnames)
    ensures r == Failure(HostMissing) <==> !(Names(xnames) <= records.Keys)
    ensures r == Failure(CountsDiffer) <==> Names(xnames) <= records.Keys && !NoRepeats(xnames)
    ensures r.Success? <==> NoRepeats(xnames) && Names(xnames) <= records.Keys
    ensures r.Success? ==> r.value == RecordsOf(Names(xnames), records)
  {
    var found: Records := map[];
    for i := 0 to |xnames|
      invariant found.Keys == Names(xnames[..i]) <= records.Keys
      invariant found == RecordsOf(Names(xnames[..i]), records)
    {
      var entry := FirstEntry(answer, xnames[i], records, xnames);
      if entry.None? {
        assert xnames[i] in Names(xnames);
        return Failure(HostMissing);
      }
      NamesOfMore(xnames, i);
      found := found[xnames[i] := entry.value];
    }
    assert xnames[..|xnames|] == xnames;
    CountNames(xnames);
    assert |found| == |found.Keys|;
    if |found| != |xnames| {
      return Failure(CountsDiffer);
    }
    r := Success(found);
  }

  /** BSS knows the only host, but it is given twice. */
  method RepeatedXnameExample(record: Record) returns (r: Result<Records, BssError>)
    ensures r == Failure(CountsDiffer)
  {
    var answer, xnames := [Entry(["x3000c0s1b0n0"], record)], ["x3000c0s1b0n0", "x3000c0s1b0n0"];
    ghost var records := map["x3000c0s1b0n0" := record];
    assert answer[0] in answer && Mentioned(answer, "x3000c0s1b0n0");
    assert xnames[0] == xnames[1];
    assert Names(xnames) <= records.Keys;
    r := GetBootparametersMap(answer, xnames, records);
  }

  /** The loop over the parameters of one host. */
  method UpdateParams(params: string, rootfs: string) returns (r: Option<string>)
    ensures r == if HasMetal(Words(params)) then Some(NewParams(params, rootfs)) else None
  {
    var tokens := Words(params);
    var list: seq<string> := [];
    var found := false;
    for i := 0 to |tokens|
      invariant list == NewTokens(tokens, rootfs)[..i]
      invariant found <==> HasMetal(tokens[..i])
    {
      assert tokens[..i + 1] == tokens[..i] + [tokens[i]];
      if IsMetal(tokens[i]) {
        list := list + [METAL + rootfs];
        found := true;
        assert tokens[i] in tokens[..i + 1];
      } else {
        list := list + [tokens[i]];
      }
    }
    assert tokens[..|tokens|] == tokens;
    assert list == NewTokens(tokens, rootfs);
    r := if found then Some(Join(list, ' ')) else None;
  }

  /** The new parameters of those of the hosts that can be updated. */
  function ParamsOf(xnames: set<string>, found: Records, rootfs: string): map<string, string> {
    map x | x in xnames && x in found && Updatable(found[x]) :: NewParams(found[x].params.value, rootfs)
  }

  lemma OneMoreParam(xnames: set<string>, x: string, found: Records, rootfs: string)
    requires x in found && Updatable(found[x])
    ensures ParamsOf(xnames + {x}, found, rootfs)
         == ParamsOf(xnames, found, rootfs)[x := NewParams(found[x].params.value, rootfs)]
  {
  }

  /** The new parameters of every host, before any is patched. */
  method UpdateAllParams(found: Records, xnames: seq<string>, rootfs: string)
    returns (r: Result<map<string, string>, BssError>)
    requires found.Keys == Names(xnames)
    ensures r.Success? <==> forall x :: x in found ==> Updatable(found[x])
    ensures r.Failure? ==> r.error == NoParams || r.error == NoMetalServer
    ensures r.Success? ==> r.value == ParamsOf(found.Keys, found, rootfs)
  {
    var updated: map<string, string> := map[];
    for i := 0 to |xnames|
      invariant forall x :: x in Names(xnames[..i]) ==> x in found && Updatable(found[x])
      invariant updated == ParamsOf(Names(xnames[..i]), found, rootfs)
    {
      var x := xnames[i];
      assert x in Names(xnames);
      var params := found[x].params;
      if params.None? {
        assert !Updatable(found[x]);
        return Failure(NoParams);
      }
      var text := UpdateParams(params.value, rootfs);
      if text.None? {
        assert !Updatable(found[x]);
        return Failure(NoMetalServer);
      }
      OneMoreParam(Names(xnames[..i]), x, found, rootfs);
      NamesOfMore(xnames, i);
      updated := updated[x := text.value];
    }
    assert xnames[..|xnames|] == xnames;
    r := Success(updated);
  }

  lemma NamesOfMore(xnames: seq<string>, i: nat)
    requires i < |xnames|
    ensures Names(xnames[..i + 1]) == Names(xnames[..i]) + {xnames[i]}
  {
    assert xnames[..i + 1] == xnames[..i] + [xnames[i]];
  }

  class Bss {
    var records: Records

    constructor (records: Records)
      ensures this.records == records
    {
      this.records := records;
    }

    method Patch(x: string, record: Record)
      modifies this
      ensures records == old(records)[x := record]
    {
      records := records[x := record];
    }

    /** Nothing is patched before the new parameters of every host are known. `patches` of the PATCH requests
        succeed; the next one fails and ends the run. */
    method UpdateArtifacts(answer: seq<Entry>, xnames: seq<string>, kernel: string, initrd: string, rootfs: string,
                           patches: nat)
      returns (r: Option<BssError>)
      requires Answers(answer, records, xnames)
      modifies this
      ensures r == None <==> AllUpdatable(old(records), xnames) && |xnames| <= patches
      ensures r == Some(PatchFailed) <==> AllUpdatable(old(records), xnames) && patches < |xnames|
      ensures !AllUpdatable(old(records), xnames) ==> records == old(records)
      ensures AllUpdatable(old(records), xnames) ==>
                records == Patched(old(records), Taken(xnames, patches), kernel, initrd, rootfs)
    {
      var found := GetBootparametersMap(answer, xnames, records);
      if found.Failure? {
        return Some(found.error);
      }
      var updated := UpdateAllParams(found.value, xnames, rootfs);
      if updated.Failure? {
        return Some(updated.error);
      }
      r := PatchAll(xnames, updated.value, kernel, initrd, patches);
      PatchedIs(old(records), xnames, kernel, initrd, rootfs, found.value, updated.value, patches);
    }

    /** The dictionary has its keys in the order of the list. */
    method PatchAll(xnames: seq<string>, updated: map<string, string>, kernel: string, initrd: string, patches: nat)
      returns (r: Option<BssError>)
      requires NoRepeats(xnames) && updated.Keys == Names(xnames)
      modifies this
      ensures r == if patches < |xnames| then Some(PatchFailed) else None
      ensures records == old(records) + NewRecords(Names(Taken(xnames, patches)), updated, kernel, initrd)
    {
      for i := 0 to |xnames|
        invariant i <= patches
        invariant records == old(records) + NewRecords(Names(xnames[..i]), updated, kernel, initrd)
      {
        if i == patches {
          return Some(PatchFailed);
        }
        OneMorePatched(old(records), xnames, updated, kernel, initrd, i);
        Patch(xnames[i], Record(Some(updated[xnames[i]]), kernel, initrd));
      }
      assert xnames[..|xnames|] == xnames;
      r := None;
    }
  }

  lemma OneMorePatched(records: Records, xnames: seq<string>, updated: map<string, string>, kernel: string,
                       initrd: string, i: nat)
    requires i < |xnames| && updated.Keys == Names(xnames)
    ensures xnames[i] in updated
    ensures (records + NewRecords(Names(xnames[..i]), updated, kernel, initrd))
              [xnames[i] := Record(Some(updated[xnames[i]]), kernel, initrd)]
         == records + NewRecords(Names(xnames[..i + 1]), updated, kernel, initrd)
  {
    assert xnames[i] in Names(xnames);
    NamesOfMore(xnames, i);
  }

  function NewRecords(xnames: set<string>, updated: map<string, string>, kernel: string, initrd: string): Records {
    map x | x in xnames && x in updated :: Record(Some(updated[x]), kernel, initrd)
  }

  function Taken(xnames: seq<string>, count: nat): (taken: seq<string>)
    ensures NoRepeats(xnames) ==> NoRepeats(taken)
    ensures Names(taken) <= Names(xnames)
  {
    if count < |xnames| then xnames[..count] else xnames
  }

  /** Every host has its new record, and no other host is touched. */
  function Patched(records: Records, xnames: seq<string>, kernel: string, initrd: string, rootfs: string): Records
    requires AllUpdatable(records, xnames)
  {
    map x | x in records :: if x in Names(xnames) then NewRecord(records[x], kernel, initrd, rootfs) else records[x]
  }

  lemma PatchedAt(records: Records, xnames: seq<string>, taken: set<string>, kernel: string, initrd: string,
                  rootfs: string,
                  updated: map<string, string>, x: string)
    requires x in records && taken <= Names(xnames) <= records.Keys && updated.Keys == Names(xnames)
    requires x in taken ==> Updatable(records[x]) && updated[x] == NewParams(records[x].params.value, rootfs)
    ensures x in records + NewRecords(taken, updated, kernel, initrd)
    ensures (records + NewRecords(taken, updated, kernel, initrd))[x]
         == if x in taken then NewRecord(records[x], kernel, initrd, rootfs) else records[x]
  {
  }

  lemma PatchedIs(records: Records, xnames: seq<string>, kernel: string, initrd: string, rootfs: string,
                  found: Records, updated: map<string, string>, patches: nat)
    requires AllUpdatable(records, xnames) && found == RecordsOf(Names(xnames), records)
    requires forall x :: x in found ==> Updatable(found[x])
    requires updated == ParamsOf(found.Keys, found, rootfs)
    ensures records + NewRecords(Names(Taken(xnames, patches)), updated, kernel, initrd)
         == Patched(records, Taken(xnames, patches), kernel, initrd, rootfs)
  {
    var taken := Taken(xnames, patches);
    assert updated.Keys == Names(xnames);
    assert (records + NewRecords(Names(taken), updated, kernel, initrd)).Keys == records.Keys;
    forall x | x in records
      ensures (records + NewRecords(Names(taken), updated, kernel, initrd))[x]
           == Patched(records, taken, kernel, initrd, rootfs)[x]
    {
      if x in Names(taken) {
        assert found[x] == records[x];
      }
      PatchedAt(records, xnames, Names(taken), kernel, initrd, rootfs, updated, x);
    }
  }

  // ---------------------------------------------------------------------------------------------
  // Reading the new parameters
  // ---------------------------------------------------------------------------------------------

  function WordsEach(parts: seq<string>): seq<string> {
    if parts == [] then [] else Words(parts[0]) + WordsEach(parts[1..])
  }

  lemma {:induction false} WordsJoined(parts: seq<string>)
    ensures Words(Join(parts, ' ')) == WordsEach(parts)
  {
    if |parts| == 1 {
      assert WordsEach(parts[1..]) == [];
    } else if parts != [] {
      WordsBoth(parts[0], ' ', Join(parts[1..], ' '));
      WordsJoined(parts[1..]);
    }
  }

  /** What splitting the new parameters gives: a token is itself, and each metal.server token is what splitting
      its replacement gives. */
  function Resplit(tokens: seq<string>, rootfs: string): seq<string> {
    if tokens == [] then []
    else (if IsMetal(tokens[0]) then Words(METAL + rootfs) else [tokens[0]]) + Resplit(tokens[1..], rootfs)
  }

  lemma {:induction false} WordsOfNew(tokens: seq<string>, rootfs: string)
    requires forall t :: t in tokens ==> IsWord(t)
    ensures Words(Join(NewTokens(tokens, rootfs), ' ')) == Resplit(tokens, rootfs)
    ensures WordsEach(NewTokens(tokens, rootfs)) == Resplit(tokens, rootfs)
  {
    WordsJoined(NewTokens(tokens, rootfs));
    if tokens != [] {
      assert NewTokens(tokens, rootfs)[1..] == NewTokens(tokens[1..], rootfs);
      WordsOfNew(tokens[1..], rootfs);
      if !IsMetal(tokens[0]) {
        WordIsWord(tokens[0]);
      }
    }
  }

  lemma {:induction false} ResplitIsNew(tokens: seq<string>, rootfs: string)
    requires Words(METAL + rootfs) == [METAL + rootfs]
    ensures Resplit(tokens, rootfs) == NewTokens(tokens, rootfs)
  {
    if tokens != [] {
      ResplitIsNew(tokens[1..], rootfs);
    }
  }

  /** The new parameters split into the old list of tokens with only the metal.server tokens replaced, if and
      only if the replacement is one word. */
  lemma OnlyMetalReplacedIff(params: string, rootfs: string)
    requires HasMetal(Words(params))
    ensures Words(NewParams(params, rootfs)) == NewTokens(Words(params), rootfs) <==> IsWord(METAL + rootfs)
  {
    var tokens := Words(params);
    WordsOfNew(tokens, rootfs);
    if IsWord(METAL + rootfs) {
      WordIsWord(METAL + rootfs);
      ResplitIsNew(tokens, rootfs);
    } else {
      var t :| t in tokens && IsMetal(t);
      var i :| 0 <= i < |tokens| && tokens[i] == t;
      assert NewTokens(tokens, rootfs)[i] == METAL + rootfs;
      assert METAL + rootfs in NewTokens(tokens, rootfs);
    }
  }

  /** When the update goes through: no host is named twice, and BSS has each, with a metal.server token. */
  lemma AllUpdatableIff(records: Records, xnames: seq<string>)
    ensures AllUpdatable(records, xnames) <==>
              && (forall i, j :: 0 <= i < j < |xnames| ==> xnames[i] != xnames[j])
              && forall x :: x in xnames ==> x in records && Updatable(records[x])
  {
    assert forall x :: x in Names(xnames) <==> x in xnames;
  }

  lemma UpdatableIff(record: Record)
    ensures Updatable(record) <==>
              record.params.Some? && exists t :: t in Words(record.params.value) && "metal.server=" <= t
  {
    if record.params.Some? {
      forall t
        ensures IsMetal(t) <==> "metal.server=" <= t
      {
      }
    }
  }

  /** What a host has afterwards: the artifacts, and its parameters token by token, if the root file system is a word.
      A host that the update did not come to has what it had. */
  lemma PatchedHostIs(records: Records, xnames: seq<string>, kernel: string, initrd: string, rootfs: string, x: string)
    requires AllUpdatable(records, xnames) && x in records && IsWord("metal.server=" + rootfs)
    ensures var after := Patched(records, xnames, kernel, initrd, rootfs);
            && (forall y :: y in after <==> y in records)
            && if x !in xnames then after[x] == records[x]
               else
                 && records[x].params.Some? && after[x].params.Some?
                 && after[x].kernel == kernel && after[x].initrd == initrd
                 && var before, tokens := Words(records[x].params.value), Words(after[x].params.value);
                    && |tokens| == |before|
                    && forall i :: 0 <= i < |before| ==>
                         tokens[i] == if "metal.server=" <= before[i] then "metal.server=" + rootfs else before[i]
  {
    if x in xnames {
      assert x in Names(xnames);
      OnlyMetalReplacedIff(records[x].params.value, rootfs);
    }
  }

  // ---------------------------------------------------------------------------------------------
  // Doing it again
  // ---------------------------------------------------------------------------------------------

  /** The first word of a replacement is a metal.server token again. */
  lemma FirstIsMetal(rootfs: string)
    ensures var ws := Words(METAL + rootfs); ws != [] && IsMetal(ws[0])
  {
    var s := METAL + rootfs;
    assert s[0] == 'm';
    WordEndAtLeast(METAL, rootfs);
    FirstWord(s, WordEnd(s));
  }

  function CountMetal(tokens: seq<string>): nat {
    if tokens == [] then 0 else (if IsMetal(tokens[0]) then 1 else 0) + CountMetal(tokens[1..])
  }

  lemma {:induction false} CountInTwo(a: seq<string>, b: seq<string>)
    ensures CountMetal(a + b) == CountMetal(a) + CountMetal(b)
  {
    if a == [] {
      assert a + b == b;
    } else {
      assert (a + b)[0] == a[0] && (a + b)[1..] == a[1..] + b;
      CountInTwo(a[1..], b);
    }
  }

  lemma {:induction false} SomeCounted(tokens: seq<string>)
    ensures HasMetal(tokens) <==> CountMetal(tokens) > 0
  {
    if tokens != [] {
      SomeCounted(tokens[1..]);
      assert tokens == [tokens[0]] + tokens[1..];
      assert tokens[0] in tokens;
      assert forall t :: t in tokens <==> t == tokens[0] || t in tokens[1..];
    }
  }

  /** When the replacement has several words, every metal.server token becomes that many. */
  lemma {:induction false} ResplitGrows(tokens: seq<string>, rootfs: string)
    requires |Words(METAL + rootfs)| >= 2 && CountMetal(Words(METAL + rootfs)) >= 1
    ensures |Resplit(tokens, rootfs)| >= |tokens| + CountMetal(tokens)
    ensures CountMetal(Resplit(tokens, rootfs)) >= CountMetal(tokens)
  {
    if tokens != [] {
      ResplitGrows(tokens[1..], rootfs);
      var first := if IsMetal(tokens[0]) then Words(METAL + rootfs) else [tokens[0]];
      CountInTwo(first, Resplit(tokens[1..], rootfs));
    }
  }

  lemma NewFirst(token: string, tokens: seq<string>, rootfs: string)
    ensures NewTokens([token] + tokens, rootfs) == [NewToken(token, rootfs)] + NewTokens(tokens, rootfs)
  {
  }

  lemma ResplitFirst(tokens: seq<string>, rootfs: string) returns (first: string)
    requires |Words(METAL + rootfs)| == 1 && tokens != []
    ensures Resplit(tokens, rootfs) == [first] + Resplit(tokens[1..], rootfs)
    ensures NewToken(first, rootfs) == NewToken(tokens[0], rootfs)
  {
    FirstIsMetal(rootfs);
    first := if IsMetal(tokens[0]) then Words(METAL + rootfs)[0] else tokens[0];
    assert Words(METAL + rootfs) == [Words(METAL + rootfs)[0]];
  }

  lemma {:induction false} NewOfResplit(tokens: seq<string>, rootfs: string)
    requires |Words(METAL + rootfs)| == 1
    ensures NewTokens(Resplit(tokens, rootfs), rootfs) == NewTokens(tokens, rootfs)
  {
    if tokens != [] {
      var first := ResplitFirst(tokens, rootfs);
      NewOfResplit(tokens[1..], rootfs);
      NewFirst(first, Resplit(tokens[1..], rootfs), rootfs);
      NewFirst(tokens[0], tokens[1..], rootfs);
      assert tokens == [tokens[0]] + tokens[1..];
    }
  }

  lemma ResplitTwiceGrows(tokens: seq<string>, rootfs: string)
    requires |Words(METAL + rootfs)| >= 2 && HasMetal(tokens)
    ensures |Resplit(Resplit(tokens, rootfs), rootfs)| > |Resplit(tokens, rootfs)|
  {
    FirstIsMetal(rootfs);
    var ws := Words(METAL + rootfs);
    assert ws[0] in ws && HasMetal(ws);
    SomeCounted(ws);
    SomeCounted(tokens);
    ResplitGrows(tokens, rootfs);
    ResplitGrows(Resplit(tokens, rootfs), rootfs);
  }

  /** A rerun writes the same strings if and only if the replacement has one word only (blanks at its end do no
      harm): otherwise every rerun makes the parameters longer. */
  lemma RerunWritesTheSameIff(params: string, rootfs: string)
    requires HasMetal(Words(params))
    ensures NewParams(NewParams(params, rootfs), rootfs) == NewParams(params, rootfs) <==> |Words(METAL + rootfs)| == 1
  {
    var tokens := Words(params);
    WordsOfNew(tokens, rootfs);
    FirstIsMetal(rootfs);
    if |Words(METAL + rootfs)| == 1 {
      NewOfResplit(tokens, rootfs);
    } else {
      var once := Words(NewParams(params, rootfs));
      WordsOfNew(once, rootfs);
      ResplitTwiceGrows(tokens, rootfs);
      assert Words(NewParams(NewParams(params, rootfs), rootfs)) != once;
    }
  }

  lemma {:induction false} ResplitHasMetal(tokens: seq<string>, rootfs: string)
    ensures CountMetal(Resplit(tokens, rootfs)) >= CountMetal(tokens)
  {
    if tokens != [] {
      ResplitHasMetal(tokens[1..], rootfs);
      FirstIsMetal(rootfs);
      var first := if IsMetal(tokens[0]) then Words(METAL + rootfs) else [tokens[0]];
      CountInTwo(first, Resplit(tokens[1..], rootfs));
    }
  }

  lemma NewIsUpdatable(record: Record, kernel: string, initrd: string, rootfs: string)
    requires Updatable(record)
    ensures Updatable(NewRecord(record, kernel, initrd, rootfs))
  {
    var tokens := Words(record.params.value);
    WordsOfNew(tokens, rootfs);
    ResplitHasMetal(tokens, rootfs);
    SomeCounted(tokens);
    SomeCounted(Resplit(tokens, rootfs));
  }

  lemma PatchedIsUpdatable(records: Records, xnames: seq<string>, kernel: string, initrd: string, rootfs: string,
                           patches: nat)
    requires AllUpdatable(records, xnames)
    ensures AllUpdatable(Patched(records, Taken(xnames, patches), kernel, initrd, rootfs), xnames)
  {
    forall x | x in Names(xnames)
      ensures Updatable(Patched(records, Taken(xnames, patches), kernel, initrd, rootfs)[x])
    {
      NewIsUpdatable(records[x], kernel, initrd, rootfs);
    }
  }

  /** An update that ends after some of its PATCH requests and is then repeated leads where a whole one would have,
      if and only if the replacement has one word only. */
  lemma AbortedThenRepeatedIff(records: Records, xnames: seq<string>, kernel: string, initrd: string, rootfs: string,
                               patches: nat)
    requires AllUpdatable(records, xnames) && xnames != [] && patches > 0
    ensures var aborted := Patched(records, Taken(xnames, patches), kernel, initrd, rootfs);
            && AllUpdatable(aborted, xnames)
            && (Patched(aborted, xnames, kernel, initrd, rootfs) == Patched(records, xnames, kernel, initrd, rootfs)
                <==> |Words(METAL + rootfs)| == 1)
  {
    PatchedIsUpdatable(records, xnames, kernel, initrd, rootfs, patches);
    var aborted := Patched(records, Taken(xnames, patches), kernel, initrd, rootfs);
    forall x | x in Names(xnames)
      ensures NewParams(NewParams(records[x].params.value, rootfs), rootfs)
           == NewParams(records[x].params.value, rootfs)
         <==> |Words(METAL + rootfs)| == 1
    {
      RerunWritesTheSameIff(records[x].params.value, rootfs);
    }
    var x := xnames[0];
    assert x in Names(xnames) && Taken(xnames, patches)[0] == x;
    assert x in Names(Taken(xnames, patches));
    var twice, once := Patched(aborted, xnames, kernel, initrd, rootfs),
        Patched(records, xnames, kernel, initrd, rootfs);
    assert twice[x].params.value == NewParams(NewParams(records[x].params.value, rootfs), rootfs);
    assert once[x].params.value == NewParams(records[x].params.value, rootfs);
  }

  lemma TwoWords(a: string, b: string)
    requires IsWord(a) && IsWord(b)
    ensures !IsWord(a + [' '] + b) && |Words(a + [' '] + b)| == 2
  {
    assert (a + [' '] + b)[|a|] == ' ' && IsSpace(' ');
    WordsBoth(a, ' ', b);
    WordIsWord(a);
    WordIsWord(b);
  }

  lemma MetalIsFound()
    ensures HasMetal(Words(METAL))
  {
    WordIsWord(METAL);
    assert METAL in [METAL] && IsMetal(METAL);
  }

  /** With a replacement of two words another argument appears, and a rerun writes something else. */
  lemma TwoWordsExample()
    ensures var rootfs := "a" + [' '] + "b";
            && Words(NewParams(METAL, rootfs)) != NewTokens(Words(METAL), rootfs)
            && NewParams(NewParams(METAL, rootfs), rootfs) != NewParams(METAL, rootfs)
  {
    assert METAL + ("a" + [' '] + "b") == METAL + "a" + [' '] + "b";
    assert IsWord("b") && IsWord(METAL + "a");
    TwoWords(METAL + "a", "b");
    MetalIsFound();
    OnlyMetalReplacedIff(METAL, "a" + [' '] + "b");
    RerunWritesTheSameIff(METAL, "a" + [' '] + "b");
  }
}
