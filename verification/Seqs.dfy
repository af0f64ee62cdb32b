/** Sequences without repetitions, as lists of distinct elements. */
module Seqs {

  predicate NoDup<T(==)>(xs: seq<T>) {
    xs == [] || (xs[0] !in xs[1..] && NoDup(xs[1..]))
  }

  /** The same, said of positions. */
  ghost predicate Distinct<T>(xs: seq<T>) {
    forall i, j :: 0 <= i < j < |xs| ==> xs[i] != xs[j]
  }

  lemma {:induction false} NoDupIsDistinct<T>(xs: seq<T>)
    ensures NoDup(xs) <==> Distinct(xs)
  {
    if xs != [] {
      NoDupIsDistinct(xs[1..]);
      assert forall i :: 0 < i < |xs| ==> xs[i] == xs[1..][i - 1];
      assert Distinct(xs) ==> Distinct(xs[1..]);
      if NoDup(xs) {
        forall i, j | 0 <= i < j < |xs| ensures xs[i] != xs[j] {
          assert xs[j] in xs[1..];
        }
      }
    }
  }

  /** xs without the first occurrence of t. */
  function Removed<T(==)>(xs: seq<T>, t: T): seq<T> {
    if xs == [] then []
    else if xs[0] == t then xs[1..]
    else [xs[0]] + Removed(xs[1..], t)
  }

  lemma {:induction false} NoDupAppend<T>(xs: seq<T>, t: T)
    requires NoDup(xs) && t !in xs
    ensures NoDup(xs + [t])
  {
    if xs != [] {
      NoDupAppend(xs[1..], t);
      assert (xs + [t])[1..] == xs[1..] + [t];
    }
  }

  lemma {:induction false} NoDupRemoved<T>(xs: seq<T>, t: T)
    requires NoDup(xs)
    ensures NoDup(Removed(xs, t))
    ensures forall u :: u in Removed(xs, t) <==> u in xs && u != t
  {
    if xs != [] {
      assert forall u :: u in xs <==> u == xs[0] || u in xs[1..];
      NoDupRemoved(xs[1..], t);
      if xs[0] != t {
        assert Removed(xs, t)[1..] == Removed(xs[1..], t);
      }
    }
  }

  lemma {:induction false} NoDupSize<T>(xs: seq<T>)
    requires NoDup(xs)
    ensures |set x | x in xs| == |xs|
  {
    if xs != [] {
      NoDupSize(xs[1..]);
      assert (set x | x in xs) == (set x | x in xs[1..]) + {xs[0]};
    }
  }
}
