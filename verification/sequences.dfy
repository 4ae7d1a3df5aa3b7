/** Facts about sequences shared by the catalog and the card game. */
module Sequences {

  /** The set of elements of a sequence has at most as many members as the sequence. */
  lemma {:induction false} ElementsBound<T>(xs: seq<T>)
    ensures |set x | x in xs| <= |xs|
  {
    if xs != [] {
      ElementsBound(xs[1..]);
      assert (set x | x in xs) == {xs[0]} + (set x | x in xs[1..]);
    }
  }

  /** No element occurs twice. */
  predicate Distinct<T(==)>(xs: seq<T>)
  {
    forall i, j :: 0 <= i < j < |xs| ==> xs[i] != xs[j]
  }

  /** In a list without repeats, each value occurs once or not at all. */
  lemma {:induction false} DistinctCount<T>(xs: seq<T>, v: T)
    requires Distinct(xs)
    ensures multiset(xs)[v] == if v in xs then 1 else 0
  {
    if xs != [] {
      DistinctCount(xs[1..], v);
      assert xs == [xs[0]] + xs[1..];
    }
  }
}
