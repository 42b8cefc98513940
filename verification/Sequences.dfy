/** Facts about sequences that several modules use. */
module Sequences {
  /** No element comes twice. */
  predicate NoRepeats<T(==)>(s: seq<T>) {
    forall i, j :: 0 <= i < j < |s| ==> s[i] != s[j]
  }

  lemma NoRepeatsFirst<T>(s: seq<T>)
    requires s != []
    ensures NoRepeats(s) <==> NoRepeats(s[1..]) && s[0] !in s[1..]
  {
    assert forall i :: 0 <= i < |s| - 1 ==> s[1..][i] == s[i + 1];
  }

  lemma Associative<T>(a: seq<T>, b: seq<T>, c: seq<T>)
    ensures a + (b + c) == a + b + c
  {
  }
}
