/** How inspect_sls_cabinets.py prints a cabinet's NIDs. */
module NidRanges {
  import opened Text

  datatype Range = Range(first: int, last: int)

  /** Where the run of consecutive NIDs that goes through `i` ends. */
  function RunEnd(nids: seq<int>, i: nat): (j: nat)
    requires i < |nids|
    ensures i < j <= |nids|
    decreases |nids| - i
  {
    if i + 1 == |nids| || nids[i + 1] != nids[i] + 1 then i + 1 else RunEnd(nids, i + 1)
  }

  function RangesFrom(nids: seq<int>, i: nat): seq<Range>
    requires i <= |nids|
    decreases |nids| - i
  {
    if i == |nids| then []
    else [Range(nids[i], nids[RunEnd(nids, i) - 1])] + RangesFrom(nids, RunEnd(nids, i))
  }

  function Ranges(nids: seq<int>): seq<Range> {
    RangesFrom(nids, 0)
  }

  predicate GoesUp(nids: seq<int>, i: nat, j: nat) {
    i <= j <= |nids| && forall k :: i <= k < j ==> nids[k] - k == nids[i] - i
  }

  lemma {:induction false} RunGoesUp(nids: seq<int>, i: nat)
    requires i < |nids|
    ensures GoesUp(nids, i, RunEnd(nids, i))
    ensures RunEnd(nids, i) < |nids| ==> nids[RunEnd(nids, i)] != nids[RunEnd(nids, i) - 1] + 1
    decreases |nids| - i
  {
    if i + 1 < |nids| && nids[i + 1] == nids[i] + 1 {
      RunGoesUp(nids, i + 1);
    }
  }

  lemma {:induction false} RunIs(nids: seq<int>, i: nat, j: nat)
    requires i < j <= |nids| && GoesUp(nids, i, j)
    ensures j <= RunEnd(nids, i)
    ensures (j < |nids| ==> nids[j] != nids[j - 1] + 1) ==> RunEnd(nids, i) == j
    decreases j - i
  {
    if i + 1 < j {
      RunIs(nids, i + 1, j);
    }
  }

  // ---------------------------------------------------------------------------------------------
  // Printing
  // ---------------------------------------------------------------------------------------------

  function Digit(d: int): char
    requires 0 <= d < 10
  {
    ('0' as int + d) as char
  }

  function Digits(n: nat): string {
    if n < 10 then [Digit(n)] else Digits(n / 10) + [Digit(n % 10)]
  }

  lemma {:induction false} NoDash(n: nat)
    ensures '-' !in Digits(n)
  {
    if n >= 10 {
      NoDash(n / 10);
    }
  }

  function Str(n: int): string {
    if n < 0 then "-" + Digits(-n) else Digits(n)
  }

  function Show(r: Range): string {
    if r.first == r.last then Str(r.first) else Str(r.first) + ['-'] + Str(r.last)
  }

  function ShowAll(ranges: seq<Range>): seq<string> {
    seq(|ranges|, i requires 0 <= i < |ranges| => Show(ranges[i]))
  }

  /** One ID is printed as it is, several with a dash between the first and the last. */
  lemma ShowIs(r: Range)
    requires 0 <= r.first <= r.last
    ensures '-' in Show(r) <==> r.first != r.last
    ensures r.first == r.last ==> Show(r) == Digits(r.first)
    ensures r.first != r.last ==> Show(r) == Digits(r.first) + "-" + Digits(r.last)
  {
    NoDash(r.first);
  }

  lemma ShowFirst(r: Range, rest: seq<Range>)
    ensures ShowAll([r] + rest) == [Show(r)] + ShowAll(rest)
  {
  }

  lemma OneTextMore(texts: seq<string>, text: string, rest: seq<string>)
    ensures texts + ([text] + rest) == texts + [text] + rest
  {
  }

  lemma OneRangeMore(nids: seq<int>, i: nat, texts: seq<string>)
    requires i < |nids|
    ensures var r, rest := Range(nids[i], nids[RunEnd(nids, i) - 1]), RangesFrom(nids, RunEnd(nids, i));
            texts + ShowAll(RangesFrom(nids, i)) == texts + [Show(r)] + ShowAll(rest)
  {
    var r, rest := Range(nids[i], nids[RunEnd(nids, i) - 1]), RangesFrom(nids, RunEnd(nids, i));
    ShowFirst(r, rest);
    OneTextMore(texts, Show(r), ShowAll(rest));
  }

  /** The elements are grouped by the difference between the element and its index. */
  method GetNidRanges(nids: seq<int>) returns (texts: seq<string>)
    ensures texts == ShowAll(Ranges(nids))
  {
    texts := [];
    var i := 0;
    ghost var all := ShowAll(Ranges(nids));
    while i < |nids|
      invariant i <= |nids|
      invariant texts + ShowAll(RangesFrom(nids, i)) == all
      decreases |nids| - i
    {
      var j := i + 1;
      while j < |nids| && nids[j] - j == nids[i] - i
        invariant i < j <= |nids| && GoesUp(nids, i, j)
      {
        j := j + 1;
      }
      RunIs(nids, i, j);
      OneRangeMore(nids, i, texts);
      var text := Str(nids[i]);
      if j - i != 1 {
        text := text + ['-'] + Str(nids[j - 1]);
      }
      assert text == Show(Range(nids[i], nids[j - 1]));
      texts := texts + [text];
      i := j;
    }
  }

  // ---------------------------------------------------------------------------------------------
  // Expanding gives back the list, and no shorter list of ranges does
  // ---------------------------------------------------------------------------------------------

  function Span(r: Range): seq<int> {
    if r.first <= r.last then seq(r.last - r.first + 1, i => r.first + i) else []
  }

  function Expand(ranges: seq<Range>): seq<int> {
    if ranges == [] then [] else Span(ranges[0]) + Expand(ranges[1..])
  }

  lemma ExpandFirst(r: Range, ranges: seq<Range>)
    ensures Expand([r] + ranges) == Span(r) + Expand(ranges)
  {
    assert ([r] + ranges)[1..] == ranges;
  }

  predicate Proper(ranges: seq<Range>) {
    forall k :: 0 <= k < |ranges| ==> ranges[k].first <= ranges[k].last
  }

  lemma SpanOfRun(nids: seq<int>, i: nat, j: nat)
    requires i < j && GoesUp(nids, i, j)
    ensures nids[i..] == Span(Range(nids[i], nids[j - 1])) + nids[j..]
  {
    assert Span(Range(nids[i], nids[j - 1])) == nids[i..j];
  }

  /** In order: no NID is lost, added or moved. */
  lemma {:induction false} ExpandRanges(nids: seq<int>, i: nat)
    requires i <= |nids|
    ensures Expand(RangesFrom(nids, i)) == nids[i..]
    decreases |nids| - i
  {
    if i < |nids| {
      var j := RunEnd(nids, i);
      RunGoesUp(nids, i);
      ExpandRanges(nids, j);
      SpanOfRun(nids, i, j);
      ExpandFirst(Range(nids[i], nids[j - 1]), RangesFrom(nids, j));
    }
  }

  lemma {:induction false} RangesAreProper(nids: seq<int>, i: nat)
    requires i <= |nids|
    ensures Proper(RangesFrom(nids, i))
    decreases |nids| - i
  {
    if i < |nids| {
      RunGoesUp(nids, i);
      RangesAreProper(nids, RunEnd(nids, i));
    }
  }

  lemma {:induction false} NeighboursDoNotMerge(nids: seq<int>, i: nat, k: nat)
    requires i <= |nids| && k + 1 < |RangesFrom(nids, i)|
    ensures RangesFrom(nids, i)[k].last + 1 != RangesFrom(nids, i)[k + 1].first
    decreases |nids| - i
  {
    RunGoesUp(nids, i);
    if k > 0 {
      NeighboursDoNotMerge(nids, RunEnd(nids, i), k - 1);
    }
  }

  /** Leaving out part of a run leaves at most one range fewer. */
  lemma RestOfRun(nids: seq<int>, i: nat, j: nat)
    requires i < |nids| && i < j <= RunEnd(nids, i)
    ensures |RangesFrom(nids, j)| + 1 >= |RangesFrom(nids, i)|
  {
    var end := RunEnd(nids, i);
    RunGoesUp(nids, i);
    if j < end {
      RunIs(nids, j, end);
    }
  }

  /** No list of ranges that stands for the same NIDs is shorter. */
  lemma {:induction false} FewestRanges(nids: seq<int>, i: nat, ranges: seq<Range>)
    requires i <= |nids| && Proper(ranges) && Expand(ranges) == nids[i..]
    ensures |RangesFrom(nids, i)| <= |ranges|
    decreases |ranges|
  {
    if ranges != [] {
      var r := ranges[0];
      FirstWithinRun(nids, i, r, Expand(ranges[1..]));
      var j := i + |Span(r)|;
      FewestRanges(nids, j, ranges[1..]);
      RestOfRun(nids, i, j);
    }
  }

  lemma FirstWithinRun(nids: seq<int>, i: nat, r: Range, rest: seq<int>)
    requires i <= |nids| && r.first <= r.last && nids[i..] == Span(r) + rest
    ensures var j := i + |Span(r)|;
            i < j <= |nids| && nids[j..] == rest && j <= RunEnd(nids, i)
  {
    var j := i + |Span(r)|;
    assert |nids[i..]| == |Span(r)| + |rest|;
    forall k | i <= k < j
      ensures nids[k] == r.first + (k - i)
    {
      assert nids[k] == nids[i..][k - i];
    }
    RunIs(nids, i, j);
  }

  // ---------------------------------------------------------------------------------------------
  // Parsing what was printed
  // ---------------------------------------------------------------------------------------------

  function Value(s: string): int {
    if s == "" then 0 else Value(s[..|s| - 1]) * 10 + (s[|s| - 1] as int - '0' as int)
  }

  lemma {:induction false} ValueOfDigits(n: nat)
    ensures Value(Digits(n)) == n
  {
    if n < 10 {
      assert Digits(n)[..0] == "";
    } else {
      ValueOfDigits(n / 10);
      assert Digits(n)[..|Digits(n)| - 1] == Digits(n / 10);
    }
  }

  /** Reads "n" or "n-m". */
  function Parse(s: string): Range {
    var parts := Split(s, '-');
    Range(Value(parts[0]), Value(parts[|parts| - 1]))
  }

  lemma ParseShow(r: Range)
    requires 0 <= r.first && 0 <= r.last
    ensures Parse(Show(r)) == r
  {
    var a, b := Digits(r.first), Digits(r.last);
    ValueOfDigits(r.first);
    ValueOfDigits(r.last);
    NoDash(r.first);
    NoDash(r.last);
    LastPart(a, '-');
    SplitInTwo(a, '-', b);
  }

  function ParseAll(texts: seq<string>): seq<Range> {
    seq(|texts|, i requires 0 <= i < |texts| => Parse(texts[i]))
  }

  /** The printed ranges of natural NIDs read back and expanded are the NIDs. */
  lemma PrintedIsTheList(nids: seq<int>)
    requires forall n :: n in nids ==> 0 <= n
    ensures var back := ParseAll(ShowAll(Ranges(nids)));
            back == Ranges(nids) && Proper(back) && Expand(back) == nids
  {
    ExpandRanges(nids, 0);
    RangesAreProper(nids, 0);
    forall k | 0 <= k < |Ranges(nids)|
      ensures Parse(Show(Ranges(nids)[k])) == Ranges(nids)[k]
    {
      EndsAreElements(nids, 0, k);
      ParseShow(Ranges(nids)[k]);
    }
    assert ParseAll(ShowAll(Ranges(nids))) == Ranges(nids);
  }

  lemma {:induction false} EndsAreElements(nids: seq<int>, i: nat, k: nat)
    requires i <= |nids| && k < |RangesFrom(nids, i)|
    ensures RangesFrom(nids, i)[k].first in nids && RangesFrom(nids, i)[k].last in nids
    decreases |nids| - i
  {
    if k > 0 {
      EndsAreElements(nids, RunEnd(nids, i), k - 1);
    }
  }
}
