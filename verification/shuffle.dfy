/**
 Shuffling as a permutation of positions. The program shuffles by sorting with
 a random comparator; whatever order that produces is a rearrangement of the
 positions 0..n-1, which is what `IsShuffle` describes.
 */
module Shuffle {

  /** The positions 0, 1, ..., n-1. */
  function Range(n: nat): (r: seq<nat>)
    ensures |r| == n
    ensures forall i :: 0 <= i < n ==> r[i] == i
  {
    seq(n, i => i)
  }

  /** Every entry is a position below `n`. */
  predicate Within(xs: seq<nat>, n: nat)
  {
    forall i :: 0 <= i < |xs| ==> xs[i] < n
  }

  /** `order` lists each of the positions 0..n-1 exactly once. */
  predicate IsShuffle(order: seq<nat>, n: nat)
  {
    |order| == n && multiset(order) == multiset(Range(n))
  }

  /** Every entry of a shuffle is a valid position. */
  lemma ShuffleInRange(order: seq<nat>, n: nat)
    requires IsShuffle(order, n)
    ensures Within(order, n)
  {
    forall i | 0 <= i < |order|
      ensures order[i] < n
    {
      assert order[i] in multiset(order);
      assert order[i] in Range(n);
    }
  }

  /** The elements of `a` taken in the order the positions `order` list them. */
  function Gather<T>(a: seq<T>, order: seq<nat>): (r: seq<T>)
    requires Within(order, |a|)
    ensures |r| == |order|
  {
    if order == [] then [] else [a[order[0]]] + Gather(a, order[1..])
  }

  /** Entry `i` of the gathered list is the element at the `i`-th listed position. */
  lemma {:induction false} GatherPicks<T>(a: seq<T>, order: seq<nat>)
    requires Within(order, |a|)
    ensures forall i :: 0 <= i < |order| ==> Gather(a, order)[i] == a[order[i]]
  {
    if order != [] {
      GatherPicks(a, order[1..]);
      assert forall i :: 0 < i < |order| ==> Gather(a, order)[i] == Gather(a, order[1..])[i - 1];
    }
  }

  /** `q` without its entry at position `k`. */
  function RemoveAt(q: seq<nat>, k: nat): (r: seq<nat>)
    requires k < |q|
    ensures |r| == |q| - 1
    ensures forall i :: 0 <= i < k ==> r[i] == q[i]
    ensures forall i :: k <= i < |r| ==> r[i] == q[i + 1]
    decreases k
  {
    if k == 0 then q[1..] else [q[0]] + RemoveAt(q[1..], k - 1)
  }

  lemma WithinRemoveAt(q: seq<nat>, k: nat, n: nat)
    requires k < |q| && Within(q, n)
    ensures Within(RemoveAt(q, k), n)
  {
  }

  /** Removing the entry at position `k` removes one occurrence of it from the multiset. */
  lemma {:induction false} MultisetRemoveAt(q: seq<nat>, k: nat)
    requires k < |q|
    ensures multiset(q) == multiset{q[k]} + multiset(RemoveAt(q, k))
    decreases k
  {
    ConsSplit(q);
    if k > 0 {
      MultisetRemoveAt(q[1..], k - 1);
      MultisetConsAt(q[0], q[1..], k - 1);
    }
  }

  /** The step of `MultisetRemoveAt`: putting an element in front of the list keeps the split. */
  lemma MultisetConsAt(x: nat, t: seq<nat>, k: nat)
    requires k < |t|
    requires multiset(t) == multiset{t[k]} + multiset(RemoveAt(t, k))
    ensures multiset([x] + t) == multiset{t[k]} + multiset([x] + RemoveAt(t, k))
  {
    MultisetSwap(x, t[k], multiset(RemoveAt(t, k)));
  }

  /** Adding two elements in either order gives the same multiset. */
  lemma MultisetSwap<T>(x: T, y: T, m: multiset<T>)
    ensures multiset{x} + (multiset{y} + m) == multiset{y} + (multiset{x} + m)
  {
    forall z
      ensures (multiset{x} + (multiset{y} + m))[z] == (multiset{y} + (multiset{x} + m))[z]
    {
    }
  }

  /** Equal multisets stay equal once a common element is taken out. */
  lemma MultisetCancel<T>(x: T, m: multiset<T>, n: multiset<T>)
    requires multiset{x} + m == multiset{x} + n
    ensures m == n
  {
    forall y
      ensures m[y] == n[y]
    {
      assert (multiset{x} + m)[y] == (multiset{x} + n)[y];
    }
  }

  /** Gathering picks up the element at position `k` once, plus what the other positions pick up. */
  lemma {:induction false} GatherAt<T>(a: seq<T>, q: seq<nat>, k: nat)
    requires Within(q, |a|)
    requires k < |q|
    ensures multiset(Gather(a, q)) == multiset{a[q[k]]} + multiset(Gather(a, RemoveAt(q, k)))
    decreases k, 1
  {
    if k > 0 {
      GatherAtTail(a, q, k);
    }
  }

  /** `GatherAt` past the head: the split of the tail at `k - 1` extends to a split of the whole list at `k`. */
  lemma {:induction false} GatherAtTail<T>(a: seq<T>, q: seq<nat>, k: nat)
    requires Within(q, |a|)
    requires 0 < k < |q|
    ensures multiset(Gather(a, q)) == multiset{a[q[k]]} + multiset(Gather(a, RemoveAt(q, k)))
    decreases k, 0
  {
    var x, t := q[0], q[1..];
    WithinTail(q, |a|);
    GatherAt(a, t, k - 1);
    var rest := RemoveAt(t, k - 1);
    WithinRemoveAt(t, k - 1, |a|);
    GatherCons(a, x, rest);
    assert RemoveAt(q, k) == [x] + rest;
    MultisetSwap(a[x], a[t[k - 1]], multiset(Gather(a, rest)));
  }

  /** The tail of a list of positions below `n` is one too. */
  lemma WithinTail(q: seq<nat>, n: nat)
    requires q != [] && Within(q, n)
    ensures q[0] < n && Within(q[1..], n)
  {
  }

  /** Gathering along a list that starts with `x` starts with `a[x]`. */
  lemma GatherCons<T>(a: seq<T>, x: nat, r: seq<nat>)
    requires x < |a| && Within(r, |a|)
    ensures Gather(a, [x] + r) == [a[x]] + Gather(a, r)
  {
    ConsDrop(x, r);
  }

  /** A non-empty list is its head followed by its tail. */
  lemma ConsSplit<T>(q: seq<T>)
    requires q != []
    ensures q == [q[0]] + q[1..]
  {
  }

  /** Dropping the head of `[x] + r` gives back `r`. */
  lemma ConsDrop<T>(x: T, r: seq<T>)
    ensures ([x] + r)[0] == x && ([x] + r)[1..] == r
  {
  }

  /** Gathering along two lists of the same positions, in any order, yields the same elements. */
  lemma {:induction false} GatherRespectsMultiset<T>(a: seq<T>, p: seq<nat>, q: seq<nat>)
    requires Within(p, |a|)
    requires Within(q, |a|)
    requires multiset(p) == multiset(q)
    ensures multiset(Gather(a, p)) == multiset(Gather(a, q))
    decreases |p|
  {
    if p == [] {
      assert |q| == |multiset(q)| == 0;
    } else {
      var x, p' := p[0], p[1..];
      ConsSplit(p);
      assert x in multiset(q);
      var k :| 0 <= k < |q| && q[k] == x;
      var q' := RemoveAt(q, k);
      MultisetRemoveAt(q, k);
      MultisetCancel(x, multiset(p'), multiset(q'));
      WithinRemoveAt(q, k, |a|);
      GatherRespectsMultiset(a, p', q');
      GatherAt(a, q, k);
      assert Gather(a, p) == [a[x]] + Gather(a, p');
    }
  }

  /** A shuffle rearranges the elements of `a` without losing or duplicating any. */
  lemma GatherShuffle<T>(a: seq<T>, order: seq<nat>)
    requires IsShuffle(order, |a|)
    ensures Within(order, |a|)
    ensures multiset(Gather(a, order)) == multiset(a)
  {
    ShuffleInRange(order, |a|);
    GatherRespectsMultiset(a, order, Range(|a|));
    GatherPicks(a, Range(|a|));
    assert Gather(a, Range(|a|)) == a;
  }
}
