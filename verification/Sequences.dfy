/** Facts about sequences of any element type. */
module Sequences {

  ghost predicate Distinct<T>(s: seq<T>) {
    forall i, j | 0 <= i < j < |s| :: s[i] != s[j]
  }

  lemma Assoc<T>(a: seq<T>, b: seq<T>, c: seq<T>)
    ensures (a + b) + c == a + (b + c)
  {
  }

  /** Pigeonhole: distinct elements of a set are no more than the set has. */
  lemma {:induction false} DistinctFits<T>(s: seq<T>, a: set<T>)
    requires Distinct(s) && forall x | x in s :: x in a
    ensures |s| <= |a|
    decreases |s|
  {
    if s != [] {
      var rest := s[1..];
      assert forall x | x in rest :: x != s[0];
      DistinctFits(rest, a - {s[0]});
    }
  }
}
