/** Sequences without repetition, and sequences with one element left out. */
module Sequences {

  ghost predicate Distinct<T>(s: seq<T>) {
    forall i, j :: 0 <= i < j < |s| ==> s[i] != s[j]
  }

  function Without<T>(s: seq<T>, i: nat): seq<T>
    requires i < |s|
  {
    s[..i] + s[i + 1..]
  }

  lemma WithoutIndex<T>(s: seq<T>, i: nat)
    requires i < |s|
    ensures |Without(s, i)| == |s| - 1
    ensures forall m {:trigger Without(s, i)[m]} :: 0 <= m < |s| - 1 ==> Without(s, i)[m] == s[if m < i then m else m + 1]
  {}

  lemma WithoutIn<T>(s: seq<T>, i: nat)
    requires i < |s| && Distinct(s)
    ensures forall x :: x in Without(s, i) <==> x in s && x != s[i]
  {}
}
