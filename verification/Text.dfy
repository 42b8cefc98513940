/** The Python string operations the scripts rely on. */
module Text {
  import opened Sequences

  function LowerChar(c: char): char {
    if 'A' <= c <= 'Z' then (c as int + 32) as char else c
  }

  function UpperChar(c: char): char {
    if 'a' <= c <= 'z' then (c as int - 32) as char else c
  }

  function Lower(s: string): string {
    seq(|s|, i requires 0 <= i < |s| => LowerChar(s[i]))
  }

  function Upper(s: string): string {
    seq(|s|, i requires 0 <= i < |s| => UpperChar(s[i]))
  }

  /** Every letter of `s` is upper case and no character is a dot. */
  /** The capital letters of ASCII and the small ones, one by one; other characters stay. */
  lemma LettersAre(i: nat)
    requires i < 26
    ensures LowerChar("ABCDEFGHIJKLMNOPQRSTUVWXYZ"[i]) == "abcdefghijklmnopqrstuvwxyz"[i]
    ensures UpperChar("abcdefghijklmnopqrstuvwxyz"[i]) == "ABCDEFGHIJKLMNOPQRSTUVWXYZ"[i]
    ensures forall c: char :: !('A' <= c <= 'Z') ==> LowerChar(c) == c
    ensures forall c: char :: !('a' <= c <= 'z') ==> UpperChar(c) == c
  {
  }

  predicate IsUpperName(s: string) {
    forall c :: c in s ==> !('a' <= c <= 'z') && c != '.'
  }

  lemma UpperOfLower(s: string)
    requires IsUpperName(s)
    ensures Upper(Lower(s)) == s && '.' !in Lower(s)
  {
    forall i | 0 <= i < |s|
      ensures UpperChar(LowerChar(s[i])) == s[i] && LowerChar(s[i]) != '.'
    {
      assert s[i] in s;
    }
  }

  /** Position of the first `c` in `s`, or |s|. */
  function Find(s: string, c: char): (i: nat)
    ensures i <= |s| && c !in s[..i] && (i < |s| ==> s[i] == c)
  {
    if s == "" then 0
    else if s[0] == c then 0
    else
      assert s == [s[0]] + s[1..];
      1 + Find(s[1..], c)
  }

  /** s.split(c) */
  function Split(s: string, c: char): (parts: seq<string>)
    ensures parts != []
  {
    var i := Find(s, c);
    if i == |s| then [s] else [s[..i]] + Split(s[i + 1..], c)
  }

  /** c.join(parts) */
  function Join(parts: seq<string>, c: char): string {
    if parts == [] then ""
    else if |parts| == 1 then parts[0]
    else parts[0] + [c] + Join(parts[1..], c)
  }

  lemma {:induction false} FindIs(head: string, c: char, tail: string)
    requires c !in head
    ensures Find(head, c) == |head|
    ensures Find(head + [c] + tail, c) == |head|
  {
    if head != "" {
      assert (head + [c] + tail)[1..] == head[1..] + [c] + tail;
      FindIs(head[1..], c, tail);
    }
  }

  lemma {:induction false} SplitJoin(parts: seq<string>, c: char)
    requires parts != [] && forall p :: p in parts ==> c !in p
    ensures Split(Join(parts, c), c) == parts
  {
    if |parts| == 1 {
      FindIs(parts[0], c, "");
    } else {
      var rest := Join(parts[1..], c);
      FindIs(parts[0], c, rest);
      SplitJoin(parts[1..], c);
      assert Join(parts, c)[..|parts[0]|] == parts[0];
      assert Join(parts, c)[|parts[0]| + 1..] == rest;
    }
  }

  lemma {:induction false} FindInFront(head: string, c: char, tail: string)
    requires c in head
    ensures Find(head + tail, c) == Find(head, c) < |head|
  {
    assert head == [head[0]] + head[1..];
    if head[0] != c {
      assert (head + tail)[1..] == head[1..] + tail;
      FindInFront(head[1..], c, tail);
    }
  }

  lemma FirstPart(head: string, c: char, tail: string)
    requires c !in head
    ensures Split(head + [c] + tail, c) == [head] + Split(tail, c)
  {
    var s := head + [c] + tail;
    FindIs(head, c, tail);
    assert s[..|head|] == head && s[|head| + 1..] == tail;
  }

  lemma LastPart(s: string, c: char)
    requires c !in s
    ensures Split(s, c) == [s]
  {
    FindIs(s, c, "");
  }

  lemma CutInFront(a: string, c: char, b: string, i: nat)
    requires i <= |a|
    ensures (a + [c] + b)[..i] == a[..i] && (a + [c] + b)[i..] == a[i..] + [c] + b
  {
  }

  /** Splitting what was put together with the separator splits both sides. */
  lemma {:induction false} SplitBoth(a: string, c: char, b: string)
    ensures Split(a + [c] + b, c) == Split(a, c) + Split(b, c)
    decreases |a|
  {
    if c !in a {
      FirstPart(a, c, b);
      LastPart(a, c);
    } else {
      var i := Find(a, c);
      FindInFront(a, c, "");
      assert a + "" == a;
      SplitBoth(a[i + 1..], c, b);
      SplitBothAt(a, c, b, i);
    }
  }

  lemma SplitAt(s: string, c: char, i: nat)
    requires i == Find(s, c) < |s|
    ensures Split(s, c) == [s[..i]] + Split(s[i + 1..], c)
  {
  }

  lemma FindWhole(a: string, c: char, b: string)
    requires c in a
    ensures Find(a + [c] + b, c) == Find(a, c) < |a|
  {
    FindInFront(a, c, [c] + b);
    assert a + [c] + b == a + ([c] + b);
  }

  lemma SplitBothAt(a: string, c: char, b: string, i: nat)
    requires c in a && i == Find(a, c) < |a|
    requires Split(a[i + 1..] + [c] + b, c) == Split(a[i + 1..], c) + Split(b, c)
    ensures Split(a + [c] + b, c) == Split(a, c) + Split(b, c)
  {
    FindWhole(a, c, b);
    CutInFront(a, c, b, i);
    CutInFront(a, c, b, i + 1);
    SplitAt(a, c, i);
    SplitAt(a + [c] + b, c, i);
    Associative([a[..i]], Split(a[i + 1..], c), Split(b, c));
  }

  lemma SplitInTwo(head: string, c: char, tail: string)
    requires c !in head && c !in tail
    ensures Split(head + [c] + tail, c) == [head, tail]
  {
    assert Join([head, tail], c) == head + [c] + tail;
    SplitJoin([head, tail], c);
  }

  /** What s.split() takes for white space: the blanks of Unicode too, the non-breaking ones among them. */
  predicate IsSpace(c: char) {
    var n := c as int;
    || 0x09 <= n <= 0x0D || 0x1C <= n <= 0x20 || n == 0x85 || n == 0xA0
    || n == 0x1680 || 0x2000 <= n <= 0x200A || n == 0x2028 || n == 0x2029 || n == 0x202F || n == 0x205F || n == 0x3000
  }

  /** Which characters these are, by number. */
  lemma SpacesAre(c: char)
    ensures IsSpace(c) <==>
              c as int in {9, 10, 11, 12, 13, 28, 29, 30, 31, 32, 133, 160, 5760, 8192, 8193, 8194, 8195, 8196, 8197,
                           8198, 8199, 8200, 8201, 8202, 8232, 8233, 8239, 8287, 12288}
  {
  }

  predicate IsWord(s: string) {
    s != "" && forall c :: c in s ==> !IsSpace(c)
  }

  /** Length of the longest start of `s` without white space. */
  function WordEnd(s: string): (n: nat)
    ensures n <= |s| && (forall c :: c in s[..n] ==> !IsSpace(c)) && (n < |s| ==> IsSpace(s[n]))
  {
    if s == "" || IsSpace(s[0]) then 0
    else
      assert s == [s[0]] + s[1..];
      1 + WordEnd(s[1..])
  }

  /** s.split() */
  function Words(s: string): (ws: seq<string>)
    ensures forall w :: w in ws ==> IsWord(w)
  {
    if s == "" then []
    else if IsSpace(s[0]) then Words(s[1..])
    else [s[..WordEnd(s)]] + Words(s[WordEnd(s)..])
  }

  lemma {:induction false} WordEndIs(head: string, tail: string)
    requires forall c :: c in head ==> !IsSpace(c)
    requires tail != "" ==> IsSpace(tail[0])
    ensures WordEnd(head + tail) == |head|
  {
    if head == "" {
      assert head + tail == tail;
    } else {
      assert (head + tail)[1..] == head[1..] + tail;
      WordEndIs(head[1..], tail);
    }
  }

  lemma {:induction false} WordEndInFront(head: string, tail: string)
    requires WordEnd(head) < |head|
    ensures WordEnd(head + tail) == WordEnd(head)
  {
    if !IsSpace(head[0]) {
      assert (head + tail)[1..] == head[1..] + tail;
      WordEndInFront(head[1..], tail);
    }
  }

  lemma FirstWord(s: string, n: nat)
    requires s != "" && !IsSpace(s[0]) && n == WordEnd(s)
    ensures Words(s) == [s[..n]] + Words(s[n..])
  {
  }

  /** The first word is the same whatever follows the white space. */
  lemma SameFirstWord(a: string, c: char, b: string)
    requires a != "" && !IsSpace(a[0]) && IsSpace(c)
    ensures WordEnd(a + [c] + b) == WordEnd(a)
  {
    assert a + [c] + b == a + ([c] + b);
    if WordEnd(a) < |a| {
      WordEndInFront(a, [c] + b);
    } else {
      assert a[..|a|] == a;
      WordEndIs(a, [c] + b);
    }
  }

  lemma OneWordMore(a: string, n: nat, c: char, b: string)
    requires a != "" && !IsSpace(a[0]) && n == WordEnd(a) && IsSpace(c)
    requires Words(a[n..] + [c] + b) == Words(a[n..]) + Words(b)
    ensures Words(a + [c] + b) == Words(a) + Words(b)
  {
    SameFirstWord(a, c, b);
    FirstWord(a, n);
    FirstWord(a + [c] + b, n);
    CutInFront(a, c, b, n);
    Associative([a[..n]], Words(a[n..]), Words(b));
  }

  lemma {:induction false} WordEndAtLeast(head: string, tail: string)
    requires forall c :: c in head ==> !IsSpace(c)
    ensures WordEnd(head + tail) >= |head|
  {
    if head != "" {
      assert (head + tail)[1..] == head[1..] + tail;
      WordEndAtLeast(head[1..], tail);
    }
  }

  lemma WordOfTwo(a: string, b: string)
    requires IsWord(a) && IsWord(b)
    ensures IsWord(a + b)
  {
  }

  lemma WordIsWord(w: string)
    requires IsWord(w)
    ensures Words(w) == [w]
  {
    WordEndIs(w, "");
    assert w + "" == w && w[0] in w;
    assert w[..|w|] == w && w[|w|..] == "";
  }

  lemma NotEmptyWord(s: string)
    requires s != "" && !IsSpace(s[0])
    ensures WordEnd(s) > 0
  {
  }

  /** White space between two texts keeps their words apart. */
  lemma {:induction false} WordsBoth(a: string, c: char, b: string)
    requires IsSpace(c)
    ensures Words(a + [c] + b) == Words(a) + Words(b)
    decreases |a|
  {
    if a == "" {
      assert (a + [c] + b)[1..] == b;
    } else if IsSpace(a[0]) {
      assert (a + [c] + b)[1..] == a[1..] + [c] + b;
      WordsBoth(a[1..], c, b);
    } else {
      NotEmptyWord(a);
      WordsBoth(a[WordEnd(a)..], c, b);
      OneWordMore(a, WordEnd(a), c, b);
    }
  }
}
