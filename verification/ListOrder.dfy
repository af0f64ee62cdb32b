/** Sequences under a strict weak order: sortedness, natural runs and stability. */
module ListOrder {
  import opened Orders

  /** "Not greater" is transitive. */
  lemma NotGreaterTransitive<E>(less: (E, E) -> bool, S: set<E>, x: E, y: E, z: E)
    requires StrictWeakOrder(less, S) && x in S && y in S && z in S
    ensures !less(y, x) && !less(z, y) ==> !less(z, x)
  {
  }

  ghost function Elements<E>(s: seq<E>): set<E> {
    set x | x in s
  }

  ghost predicate Sorted<E>(less: (E, E) -> bool, s: seq<E>) {
    forall i, j :: 0 <= i < j < |s| ==> !less(s[j], s[i])
  }

  /** Each element is not less than the one before it. */
  ghost predicate Nondecreasing<E>(less: (E, E) -> bool, s: seq<E>) {
    forall i :: 0 < i < |s| ==> !less(s[i], s[i - 1])
  }

  lemma {:induction false} NondecreasingIsSorted<E>(less: (E, E) -> bool, s: seq<E>)
    requires StrictWeakOrder(less, Elements(s)) && Nondecreasing(less, s)
    ensures Sorted(less, s)
  {
    forall i, j | 0 <= i < j < |s|
      ensures !less(s[j], s[i])
    {
      InOrder(less, s, i, j);
    }
  }

  lemma {:induction false} InOrder<E>(less: (E, E) -> bool, s: seq<E>, i: nat, j: nat)
    requires StrictWeakOrder(less, Elements(s)) && Nondecreasing(less, s) && i < j < |s|
    ensures !less(s[j], s[i])
  {
    if i + 1 < j {
      InOrder(less, s, i, j - 1);
      assert s[i] in Elements(s) && s[j - 1] in Elements(s) && s[j] in Elements(s);
    }
  }

  // ----- Runs

  /** The number of maximal nondecreasing runs in s. */
  ghost function Runs<E>(less: (E, E) -> bool, s: seq<E>): nat {
    if |s| == 0 then 0
    else if |s| == 1 then 1
    else Runs(less, s[..|s| - 1]) + (if less(s[|s| - 1], s[|s| - 2]) then 1 else 0)
  }

  lemma {:induction false} RunsConcat<E>(less: (E, E) -> bool, a: seq<E>, b: seq<E>)
    requires a != [] && b != []
    ensures Runs(less, a + b)
            == Runs(less, a) + Runs(less, b) - (if less(b[0], a[|a| - 1]) then 0 else 1)
  {
    var s := a + b;
    assert s[..|s| - 1] == a + b[..|b| - 1];
    if |b| == 1 {
      assert a + b[..0] == a;
    } else {
      RunsConcat(less, a, b[..|b| - 1]);
    }
  }

  lemma {:induction false} OneRun<E>(less: (E, E) -> bool, s: seq<E>)
    ensures Nondecreasing(less, s) <==> Runs(less, s) <= 1
    ensures Runs(less, s) == 0 <==> s == []
  {
    if |s| > 1 {
      var t := s[..|s| - 1];
      OneRun(less, t);
      if Nondecreasing(less, t) && !less(s[|s| - 1], s[|s| - 2]) {
        forall i | 0 < i < |s|
          ensures !less(s[i], s[i - 1])
        {
          if i < |t| { assert !less(t[i], t[i - 1]); }
        }
      }
      if Nondecreasing(less, s) {
        forall i | 0 < i < |t|
          ensures !less(t[i], t[i - 1])
        {
          assert !less(s[i], s[i - 1]);
        }
      }
    }
  }

  /** A run that ends before an element less than its last one counts on its own. */
  lemma RunsSplit<E>(less: (E, E) -> bool, s: seq<E>, k: nat)
    requires 0 < k <= |s| && Nondecreasing(less, s[..k])
    requires k < |s| ==> less(s[k], s[k - 1])
    ensures Runs(less, s) == 1 + Runs(less, s[k..])
  {
    hide Runs, Nondecreasing;
    OneRun(less, s[..k]);
    OneRun(less, s[k..]);
    assert s[..k] + s[k..] == s;
    if k < |s| {
      RunsConcat(less, s[..k], s[k..]);
    } else {
      assert s[..k] == s;
    }
  }

  /** Appending a nondecreasing piece adds at most one run. */
  lemma RunsAppend<E>(less: (E, E) -> bool, a: seq<E>, b: seq<E>)
    requires Nondecreasing(less, b)
    ensures Runs(less, a + b) <= Runs(less, a) + 1
  {
    OneRun(less, b);
    if a == [] {
      assert a + b == b;
    } else if b == [] {
      assert a + b == a;
    } else {
      RunsConcat(less, a, b);
    }
  }

  // ----- Stability

  /** The elements of s that are equivalent to v, in order. */
  ghost function Class<E>(less: (E, E) -> bool, s: seq<E>, v: E): seq<E> {
    if s == [] then []
    else Class(less, s[..|s| - 1], v)
         + (var x := s[|s| - 1]; if Same(less, x, v) then [x] else [])
  }

  /** s' is a stable rearrangement of s: the same elements, with those that are
      equivalent to each other in the same order. */
  ghost predicate Stable<E>(less: (E, E) -> bool, s: seq<E>, s': seq<E>) {
    && multiset(s) == multiset(s')
    && (forall v :: v in s ==> Class(less, s, v) == Class(less, s', v))
  }

  lemma {:induction false} ClassConcat<E>(less: (E, E) -> bool, a: seq<E>, b: seq<E>, v: E)
    ensures Class(less, a + b, v) == Class(less, a, v) + Class(less, b, v)
  {
    if b == [] {
      assert a + b == a;
    } else {
      assert (a + b)[..|a + b| - 1] == a + b[..|b| - 1];
      ClassConcat(less, a, b[..|b| - 1], v);
    }
  }

  lemma {:induction false} ClassEmpty<E>(less: (E, E) -> bool, s: seq<E>, v: E)
    requires forall x :: x in s ==> less(x, v) || less(v, x)
    ensures Class(less, s, v) == []
  {
    if s != [] {
      assert s[|s| - 1] in s;
      ClassEmpty(less, s[..|s| - 1], v);
    }
  }

  /** Moves the element at j up to position i. */
  ghost function MoveUp<E>(s: seq<E>, i: nat, j: nat): seq<E>
    requires i <= j < |s|
  {
    s[..i] + [s[j]] + s[i..j] + s[j + 1..]
  }

  /** An element may pass over elements that are all greater. */
  lemma PassClass<E>(less: (E, E) -> bool, s: seq<E>, i: nat, j: nat, v: E)
    requires i <= j < |s| && v in s && StrictWeakOrder(less, Elements(s))
    requires forall m :: i <= m < j ==> less(s[j], s[m])
    ensures var b, x := s[i..j], [s[j]];
      Class(less, x, v) + Class(less, b, v) == Class(less, b, v) + Class(less, x, v)
  {
    hide StrictWeakOrder;
    if !less(s[j], v) && !less(v, s[j]) {
      forall y | y in s[i..j]
        ensures less(y, v) || less(v, y)
      {
        NotGreaterTransitive(less, Elements(s), y, v, s[j]);
      }
      ClassEmpty(less, s[i..j], v);
    } else {
      ClassEmpty(less, [s[j]], v);
    }
  }

  lemma SwapConcat<E>(less: (E, E) -> bool, a: seq<E>, b: seq<E>, x: seq<E>, c: seq<E>, v: E)
    requires Class(less, x, v) + Class(less, b, v) == Class(less, b, v) + Class(less, x, v)
    ensures Class(less, a + (x + b) + c, v) == Class(less, a + (b + x) + c, v)
  {
    hide Class;
    ClassConcat(less, x, b, v);
    ClassConcat(less, b, x, v);
    ClassConcat(less, a, x + b, v);
    ClassConcat(less, a, b + x, v);
    ClassConcat(less, a + (x + b), c, v);
    ClassConcat(less, a + (b + x), c, v);
  }

  lemma MoveUpClass<E>(less: (E, E) -> bool, s: seq<E>, i: nat, j: nat, v: E)
    requires i <= j < |s| && v in s && StrictWeakOrder(less, Elements(s))
    requires forall m :: i <= m < j ==> less(s[j], s[m])
    ensures Class(less, MoveUp(s, i, j), v) == Class(less, s, v)
  {
    hide StrictWeakOrder, Class;
    PassClass(less, s, i, j, v);
    SwapConcat(less, s[..i], s[i..j], [s[j]], s[j + 1..], v);
    assert s == s[..i] + (s[i..j] + [s[j]]) + s[j + 1..];
    assert MoveUp(s, i, j) == s[..i] + ([s[j]] + s[i..j]) + s[j + 1..];
  }

  lemma MoveUpStable<E>(less: (E, E) -> bool, s: seq<E>, i: nat, j: nat)
    requires i <= j < |s| && StrictWeakOrder(less, Elements(s))
    requires forall m :: i <= m < j ==> less(s[j], s[m])
    ensures Stable(less, s, MoveUp(s, i, j))
  {
    assert s == s[..i] + s[i..j] + [s[j]] + s[j + 1..];
    forall v | v in s
      ensures Class(less, s, v) == Class(less, MoveUp(s, i, j), v)
    {
      MoveUpClass(less, s, i, j, v);
    }
  }

  lemma StableTransitive<E>(less: (E, E) -> bool, a: seq<E>, b: seq<E>, c: seq<E>)
    requires Stable(less, a, b) && Stable(less, b, c)
    ensures Stable(less, a, c)
  {
    forall v | v in a
      ensures v in b
    {
      assert v in multiset(a);
    }
  }

  lemma StableElements<E>(less: (E, E) -> bool, s: seq<E>, s': seq<E>)
    requires multiset(s) == multiset(s')
    ensures Elements(s) == Elements(s') && |s| == |s'|
  {
    forall x
      ensures x in s <==> x in s'
    {
      assert x in s <==> x in multiset(s);
      assert x in s' <==> x in multiset(s');
    }
    assert |multiset(s)| == |s|;
  }

  /** A class seen from its last element. */
  lemma ClassLast<E>(less: (E, E) -> bool, s: seq<E>, v: E)
    requires s != []
    ensures var x := s[|s| - 1];
      Class(less, s, v) == Class(less, s[..|s| - 1], v) + (if !less(x, v) && !less(v, x) then [x] else [])
  {
  }

  lemma SameEnd<E>(a: seq<E>, x: E, b: seq<E>, y: E)
    requires a + [x] == b + [y]
    ensures a == b && x == y
  {
    assert |a + [x]| == |a| + 1 && |b + [y]| == |b| + 1;
    assert a == (a + [x])[..|a|] == b;
    assert x == (a + [x])[|a|] == y;
  }

  lemma LastIsGreatest<E>(less: (E, E) -> bool, s: seq<E>, y: E)
    requires StrictWeakOrder(less, Elements(s)) && Sorted(less, s) && y in s
    ensures !less(s[|s| - 1], y)
  {
    var k :| 0 <= k < |s| && s[k] == y;
    assert s[|s| - 1] in Elements(s);
  }

  /** Two sorted sequences with the same classes end in the same element. */
  lemma SameLast<E>(less: (E, E) -> bool, s: seq<E>, t: seq<E>)
    requires StrictWeakOrder(less, Elements(s)) && Elements(s) == Elements(t)
    requires s != [] && t != [] && Sorted(less, s) && Sorted(less, t)
    requires Class(less, s, s[|s| - 1]) == Class(less, t, s[|s| - 1])
    ensures s[|s| - 1] == t[|t| - 1]
  {
    hide StrictWeakOrder, Sorted, Class;
    var x, y := s[|s| - 1], t[|t| - 1];
    assert x in Elements(s) && y in Elements(t);
    LastIsGreatest(less, s, y);
    LastIsGreatest(less, t, x);
    LastIsGreatest(less, s, x);
    ClassLast(less, s, x);
    ClassLast(less, t, x);
    SameEnd(Class(less, s[..|s| - 1], x), x, Class(less, t[..|t| - 1], x), y);
  }

  lemma DropLast<E>(less: (E, E) -> bool, s: seq<E>, t: seq<E>, v: E)
    requires s != [] && t != [] && s[|s| - 1] == t[|t| - 1]
    requires Class(less, s, v) == Class(less, t, v)
    ensures Class(less, s[..|s| - 1], v) == Class(less, t[..|t| - 1], v)
  {
    hide Class;
    ClassLast(less, s, v);
    ClassLast(less, t, v);
    var x := s[|s| - 1];
    if !less(x, v) && !less(v, x) {
      SameEnd(Class(less, s[..|s| - 1], v), x, Class(less, t[..|t| - 1], v), x);
    } else {
      assert Class(less, s[..|s| - 1], v) + [] == Class(less, s[..|s| - 1], v);
      assert Class(less, t[..|t| - 1], v) + [] == Class(less, t[..|t| - 1], v);
    }
  }

  lemma SortedPrefix<E>(less: (E, E) -> bool, s: seq<E>)
    requires s != [] && Sorted(less, s)
    ensures Sorted(less, s[..|s| - 1])
  {
  }

  lemma BagPrefix<E>(s: seq<E>, t: seq<E>)
    requires s != [] && t != [] && s[|s| - 1] == t[|t| - 1] && multiset(s) == multiset(t)
    ensures multiset(s[..|s| - 1]) == multiset(t[..|t| - 1])
  {
    var x := s[|s| - 1];
    assert s == s[..|s| - 1] + [x];
    assert t == t[..|t| - 1] + [x];
    assert multiset(s) == multiset(s[..|s| - 1]) + multiset{x};
    assert multiset(t) == multiset(t[..|t| - 1]) + multiset{x};
    assert multiset(s[..|s| - 1]) == multiset(s) - multiset{x};
  }

  lemma {:induction false} SortedUnique<E>(less: (E, E) -> bool, s: seq<E>, t: seq<E>)
    requires StrictWeakOrder(less, Elements(s)) && multiset(s) == multiset(t)
    requires Sorted(less, s) && Sorted(less, t)
    requires forall v :: v in s ==> Class(less, s, v) == Class(less, t, v)
    ensures s == t
  {
    hide Class, StrictWeakOrder, Sorted;
    StableElements(less, s, t);
    if s != [] {
      var s', t' := s[..|s| - 1], t[..|t| - 1];
      assert s[|s| - 1] in s;
      SameLast(less, s, t);
      forall v | v in s'
        ensures Class(less, s', v) == Class(less, t', v)
      {
        DropLast(less, s, t, v);
      }
      BagPrefix(s, t);
      SortedPrefix(less, s);
      SortedPrefix(less, t);
      SmallerOrder(less, Elements(s), Elements(s'));
      SortedUnique(less, s', t');
      assert s == s' + [s[|s| - 1]] && t == t' + [t[|t| - 1]];
    } else {
      assert |t| == 0;
    }
  }

  lemma SmallerOrder<E>(less: (E, E) -> bool, S: set<E>, R: set<E>)
    requires StrictWeakOrder(less, S) && R <= S
    ensures StrictWeakOrder(less, R)
  {
  }

  /** There is only one sorted stable rearrangement of a sequence. */
  lemma StableSortUnique<E>(less: (E, E) -> bool, s: seq<E>, a: seq<E>, b: seq<E>)
    requires StrictWeakOrder(less, Elements(s))
    requires Stable(less, s, a) && Sorted(less, a) && Stable(less, s, b) && Sorted(less, b)
    ensures a == b
  {
    StableElements(less, s, a);
    SortedUnique(less, a, b);
  }

  // ----- Merging

  /** w[..y] and w[y..] are sorted and w[..x] is already merged: nothing from y on
      is less than anything in it. */
  ghost predicate Merging<E>(less: (E, E) -> bool, w: seq<E>, x: nat, y: nat) {
    && x <= y <= |w|
    && Sorted(less, w[..y]) && Sorted(less, w[y..])
    && (forall p, q :: 0 <= p < x && y <= q < |w| ==> !less(w[q], w[p]))
  }

  lemma MergeAdvance<E>(less: (E, E) -> bool, w: seq<E>, x: nat, y: nat)
    requires StrictWeakOrder(less, Elements(w)) && Merging(less, w, x, y)
    requires x < y < |w| && !less(w[y], w[x])
    ensures Merging(less, w, x + 1, y)
  {
    hide StrictWeakOrder;
    forall q | y <= q < |w|
      ensures !less(w[q], w[x])
    {
      if y < q {
        assert !less(w[y..][q - y], w[y..][0]);
        NotGreaterTransitive(less, Elements(w), w[x], w[y], w[q]);
      }
    }
  }

  lemma MergePasses<E>(less: (E, E) -> bool, w: seq<E>, x: nat, y: nat)
    requires StrictWeakOrder(less, Elements(w)) && Merging(less, w, x, y)
    requires x < y < |w| && less(w[y], w[x])
    ensures forall m :: x <= m < y ==> less(w[y], w[m])
  {
    hide StrictWeakOrder;
    forall m | x <= m < y
      ensures less(w[y], w[m])
    {
      if x < m {
        assert !less(w[..y][m], w[..y][x]);
        NotGreaterTransitive(less, Elements(w), w[x], w[m], w[y]);
      }
    }
  }

  lemma MoveUpAt<E>(w: seq<E>, x: nat, y: nat, i: nat)
    requires x <= y < |w| && i < |w|
    ensures |MoveUp(w, x, y)| == |w|
    ensures MoveUp(w, x, y)[i] == if i < x then w[i] else if i == x then w[y] else if i <= y then w[i - 1] else w[i]
  {
  }

  lemma MoveUpSorted<E>(less: (E, E) -> bool, w: seq<E>, x: nat, y: nat, i: nat, j: nat)
    requires StrictWeakOrder(less, Elements(w)) && Merging(less, w, x, y)
    requires x < y < |w| && less(w[y], w[x]) && i < j <= y
    ensures |MoveUp(w, x, y)| == |w| && !less(MoveUp(w, x, y)[j], MoveUp(w, x, y)[i])
  {
    hide StrictWeakOrder, MoveUp;
    MoveUpAt(w, x, y, i);
    MoveUpAt(w, x, y, j);
    MergePasses(less, w, x, y);
    var a := if i < x then i else i - 1;
    var b := if j < x then j else j - 1;
    if i == x {
      NotGreater(less, Elements(w), w[y], w[j - 1]);
    } else if j != x {
      assert !less(w[..y][b], w[..y][a]);
    }
  }

  lemma NotGreater<E>(less: (E, E) -> bool, S: set<E>, x: E, y: E)
    requires StrictWeakOrder(less, S) && x in S && y in S && less(x, y)
    ensures !less(y, x)
  {
  }

  lemma MergeSplice<E>(less: (E, E) -> bool, w: seq<E>, x: nat, y: nat)
    requires StrictWeakOrder(less, Elements(w)) && Merging(less, w, x, y)
    requires x < y < |w| && less(w[y], w[x])
    ensures Merging(less, MoveUp(w, x, y), x + 1, y + 1)
    ensures Stable(less, w, MoveUp(w, x, y))
  {
    MergePasses(less, w, x, y);
    MoveUpStable(less, w, x, y);
    hide StrictWeakOrder, MoveUp, Stable;
    var w' := MoveUp(w, x, y);
    MoveUpAt(w, x, y, x);
    forall i, j | 0 <= i < j < y + 1
      ensures !less(w'[j], w'[i])
    {
      MoveUpSorted(less, w, x, y, i, j);
    }
    forall q | y + 1 <= q < |w|
      ensures w'[q] == w[q] && !less(w[q], w[y])
    {
      MoveUpAt(w, x, y, q);
      assert !less(w[y..][q - y], w[y..][0]);
    }
    forall p, q | 0 <= p < x + 1 && y + 1 <= q < |w|
      ensures !less(w'[q], w'[p])
    {
      MoveUpAt(w, x, y, p);
    }
    var rest := w'[y + 1..];
    forall i, j | 0 <= i < j < |rest|
      ensures !less(rest[j], rest[i])
    {
      assert !less(w[y..][j + 1], w[y..][i + 1]);
    }
  }

  lemma MergeDone<E>(less: (E, E) -> bool, w: seq<E>, x: nat, y: nat)
    requires Merging(less, w, x, y) && (x == y || y == |w|)
    ensures Sorted(less, w)
  {
    forall i, j | 0 <= i < j < |w|
      ensures !less(w[j], w[i])
    {
      if j < y {
        assert !less(w[..y][j], w[..y][i]);
      } else if y <= i {
        assert !less(w[y..][j - y], w[y..][i - y]);
      }
    }
  }

  lemma {:induction false} ClassOfSame<E>(less: (E, E) -> bool, S: set<E>, s: seq<E>, u: E, v: E)
    requires StrictWeakOrder(less, S) && u in S && v in S && Same(less, u, v)
    requires forall x :: x in s ==> x in S
    ensures Class(less, s, u) == Class(less, s, v)
  {
    hide StrictWeakOrder;
    if s != [] {
      var x := s[|s| - 1];
      ClassOfSame(less, S, s[..|s| - 1], u, v);
      NotGreaterTransitive(less, S, x, u, v);
      NotGreaterTransitive(less, S, v, u, x);
      NotGreaterTransitive(less, S, x, v, u);
      NotGreaterTransitive(less, S, u, v, x);
    }
  }

  /** Stability says the same about values that do not occur. */
  lemma StableClass<E>(less: (E, E) -> bool, S: set<E>, s: seq<E>, s': seq<E>, v: E)
    requires StrictWeakOrder(less, S) && Stable(less, s, s') && v in S
    requires forall x :: x in s ==> x in S
    ensures Class(less, s, v) == Class(less, s', v)
  {
    StableElements(less, s, s');
    assert forall x :: x in s' ==> x in Elements(s');
    hide StrictWeakOrder;
    if u :| u in s && Same(less, u, v) {
      ClassOfSame(less, S, s, u, v);
      ClassOfSame(less, S, s', u, v);
    } else {
      assert forall x :: x in s ==> !Same(less, x, v);
      ClassEmpty(less, s, v);
      ClassEmpty(less, s', v);
    }
  }

  /** A stable rearrangement of a piece is one of the whole. */
  lemma StableInContext<E>(less: (E, E) -> bool, a: seq<E>, b: seq<E>, b': seq<E>, c: seq<E>)
    requires StrictWeakOrder(less, Elements(a + b + c)) && Stable(less, b, b')
    ensures Stable(less, a + b + c, a + b' + c)
  {
    assert multiset(a + b + c) == multiset(a + b' + c);
    hide StrictWeakOrder;
    forall v | v in a + b + c
      ensures Class(less, a + b + c, v) == Class(less, a + b' + c, v)
    {
      StableClass(less, Elements(a + b + c), b, b', v);
      ClassConcat(less, a + b, c, v);
      ClassConcat(less, a + b', c, v);
      ClassConcat(less, a, b, v);
      ClassConcat(less, a, b', v);
    }
  }
}
