/** list_sort: a natural merge sort that only rewrites links. */
module ListSort {
  import opened ListOrder
  import opened Lists
  import opened Orders
  import opened Seqs

  /** The end of the nondecreasing run that starts at a, at most b. */
  method FindEndOfRun(a: Elem, b: Elem, less: (Elem, Elem) -> bool, ghost c: seq<Elem>, ghost i: nat, ghost k: nat)
    returns (e: Elem, ghost j: nat)
    requires Linked(c) && 0 < i < k < |c| && a == c[i] && b == c[k]
    ensures i < j <= k && e == c[j]
    ensures Nondecreasing(less, c[i..j])
    ensures j < k ==> less(c[j], c[j - 1])
  {
    assert c[i].next == c[i + 1] && c[i + 1].prev == c[i];
    e, j := a.next, i + 1;
    while e != b && !less(e, e.prev)
      invariant i < j <= k && e == c[j] && e.prev == c[j - 1]
      invariant Nondecreasing(less, c[i..j])
      decreases k - j
    {
      assert c[j].next == c[j + 1] && c[j + 1].prev == c[j];
      assert c[i..j + 1] == c[i..j] + [c[j]];
      e, j := e.next, j + 1;
    }
  }

  lemma MoveWithin(d: seq<Elem>, lo: nat, hi: nat, x: nat, y: nat)
    requires lo <= x < y < hi < |d|
    ensures Spliced(d, x, y, y + 1) == d[..lo] + MoveUp(d[lo..hi], x - lo, y - lo) + d[hi..]
  {
    var w := d[lo..hi];
    assert d[..x] == d[..lo] + w[..x - lo];
    assert d[y..y + 1] == [w[y - lo]];
    assert d[x..y] == w[x - lo..y - lo];
    assert d[y + 1..] == w[y + 1 - lo..] + d[hi..];
  }

  /** What the loop of inplace_merge keeps of the chain: the range i..k of c has
      been rearranged stably, and its first x - i elements are in place. */
  ghost predicate Merged(less: (Elem, Elem) -> bool, c: seq<Elem>, d: seq<Elem>, i: nat, k: nat, x: nat, y: nat) {
    && i <= x <= y <= k < |c| && |d| == |c|
    && d == c[..i] + d[i..k] + c[k..]
    && Stable(less, c[i..k], d[i..k])
    && Merging(less, d[i..k], x - i, y - i)
  }

  lemma MergedElements(less: (Elem, Elem) -> bool, c: seq<Elem>, d: seq<Elem>, i: nat, k: nat, x: nat, y: nat)
    requires Merged(less, c, d, i, k, x, y)
    ensures i <= x <= y <= k < |d|
    ensures forall e :: e in d ==> e in c
    ensures d[k] == c[k]
  {
    StableElements(less, c[i..k], d[i..k]);
    forall e | e in d[i..k]
      ensures e in c
    {
      assert e in Elements(d[i..k]);
    }
  }

  lemma MergedAdvance(less: (Elem, Elem) -> bool, c: seq<Elem>, d: seq<Elem>, i: nat, k: nat, x: nat, y: nat)
    requires Merged(less, c, d, i, k, x, y) && StrictWeakOrder(less, Elements(c[i..k]))
    requires x < y < k && !less(d[y], d[x])
    ensures Merged(less, c, d, i, k, x + 1, y)
  {
    hide StrictWeakOrder, Stable, Merging;
    StableOrder(less, c[i..k], d[i..k]);
    MergeAdvance(less, d[i..k], x - i, y - i);
  }

  lemma MergedSplice(less: (Elem, Elem) -> bool, c: seq<Elem>, d: seq<Elem>, i: nat, k: nat, x: nat, y: nat)
    requires Merged(less, c, d, i, k, x, y) && StrictWeakOrder(less, Elements(c[i..k]))
    requires x < y < k && less(d[y], d[x])
    ensures var d' := Spliced(d, x, y, y + 1);
      Merged(less, c, d', i, k, x + 1, y + 1) && d'[x + 1] == d[x] && d'[y + 1] == d[y + 1]
  {
    hide StrictWeakOrder, Stable, Merging, Spliced, MoveUp;
    var w := d[i..k];
    StableOrder(less, c[i..k], w);
    MergeSplice(less, w, x - i, y - i);
    var w' := MoveUp(w, x - i, y - i);
    MoveUpAt(w, x - i, y - i, 0);
    StableTransitive(less, c[i..k], w, w');
    MoveWithin(d, i, k, x, y);
    var d' := Spliced(d, x, y, y + 1);
    assert d[..i] == c[..i] && d[k..] == c[k..];
    assert d' == c[..i] + w' + c[k..];
    assert d'[i..k] == w';
    SplicedAt(d, x, y, y + 1, x + 1);
    SplicedAt(d, x, y, y + 1, y + 1);
  }

  /** Merges the two sorted ranges a0..a1b0 and a1b0..b1 by splicing elements of the
      second one into the first. */
  method InplaceMerge(a0: Elem, a1b0: Elem, b1: Elem, less: (Elem, Elem) -> bool,
                      ghost c: seq<Elem>, ghost i: nat, ghost j: nat, ghost k: nat)
    returns (ghost d: seq<Elem>)
    requires Linked(c) && 0 < i <= j <= k < |c| && a0 == c[i] && a1b0 == c[j] && b1 == c[k]
    requires StrictWeakOrder(less, Elements(c[i..k]))
    requires Sorted(less, c[i..j]) && Sorted(less, c[j..k])
    modifies c
    ensures Linked(d) && |d| == |c| && d == c[..i] + d[i..k] + c[k..]
    ensures Stable(less, c[i..k], d[i..k]) && Sorted(less, d[i..k])
  {
    hide StrictWeakOrder, Stable, Merging, Spliced, Sorted, Linked, Merged;
    var a, b := a0, a1b0;
    ghost var x, y := i, j;
    d := c;
    MergedStart(less, c, i, j, k);
    while a != b && b != b1
      invariant Linked(d) && Merged(less, c, d, i, k, x, y)
      invariant i <= x <= y <= k < |d|
      invariant a == d[x] && b == d[y] && b1 == d[k]
      decreases k - x
    {
      MergedElements(less, c, d, i, k, x, y);
      if !less(b, a) {
        MergedAdvance(less, c, d, i, k, x, y);
        Links(d, x);
        a, x := a.next, x + 1;
      } else {
        MergedSplice(less, c, d, i, k, x, y);
        Links(d, y);
        b := b.next;
        assert forall m :: 0 <= m < |d| ==> d[m] in c;
        Splice(a, b.prev, b, d, x, d, y, y + 1);
        d, x, y := Spliced(d, x, y, y + 1), x + 1, y + 1;
        MergedElements(less, c, d, i, k, x, y);
      }
    }
    SameIndex(d, x, y);
    SameIndex(d, y, k);
    MergedDone(less, c, d, i, k, x, y);
  }

  lemma SameIndex(c: seq<Elem>, i: nat, j: nat)
    requires Linked(c) && i <= j < |c|
    ensures c[i] == c[j] ==> i == j
  {
  }

  lemma Links(c: seq<Elem>, i: nat)
    requires Linked(c) && i + 1 < |c|
    ensures c[i].next == c[i + 1] && c[i + 1].prev == c[i]
  {
  }

  lemma MergedStart(less: (Elem, Elem) -> bool, c: seq<Elem>, i: nat, j: nat, k: nat)
    requires i <= j <= k < |c| && Sorted(less, c[i..j]) && Sorted(less, c[j..k])
    ensures Merged(less, c, c, i, k, i, j)
  {
    StableRefl(less, c[i..k]);
    assert c[i..k][..j - i] == c[i..j] && c[i..k][j - i..] == c[j..k];
    MergingStart(less, c[i..k], j - i);
    assert c == c[..i] + c[i..k] + c[k..];
  }

  lemma MergedDone(less: (Elem, Elem) -> bool, c: seq<Elem>, d: seq<Elem>, i: nat, k: nat, x: nat, y: nat)
    requires Merged(less, c, d, i, k, x, y) && (x == y || y == k)
    ensures |d| == |c| && d == c[..i] + d[i..k] + c[k..]
    ensures Stable(less, c[i..k], d[i..k]) && Sorted(less, d[i..k])
  {
    MergeDone(less, d[i..k], x - i, y - i);
  }

  lemma StableRefl<E>(less: (E, E) -> bool, s: seq<E>)
    ensures Stable(less, s, s)
  {
  }

  lemma StableOrder<E>(less: (E, E) -> bool, s: seq<E>, s': seq<E>)
    requires StrictWeakOrder(less, Elements(s)) && Stable(less, s, s')
    ensures StrictWeakOrder(less, Elements(s'))
  {
    StableElements(less, s, s');
  }

  lemma MergingStart<E>(less: (E, E) -> bool, w: seq<E>, y: nat)
    requires y <= |w| && Sorted(less, w[..y]) && Sorted(less, w[y..])
    ensures Merging(less, w, 0, y)
  {
  }

  // ----- One pass over the list

  /** Halfway through a pass: a0 is at p, cnt runs have been produced before it out
      of twice as many, and the rest of the list has not been touched. */
  ghost predicate Passing(less: (Elem, Elem) -> bool, s0: seq<Elem>, c: seq<Elem>, p: nat, n: nat, cnt: nat) {
    && 1 <= p <= n < |c|
    && Stable(less, s0, c[1..n])
    && Runs(less, s0) == 2 * cnt + Runs(less, c[p..n])
    && Runs(less, c[1..p]) <= cnt
  }

  lemma PassingStart(less: (Elem, Elem) -> bool, c: seq<Elem>, n: nat)
    requires 1 <= n < |c|
    ensures Passing(less, c[1..n], c, 1, n, 0)
  {
    StableRefl(less, c[1..n]);
  }

  /** The run from p to q, when another element follows, or when it is the last. */
  lemma SplitRun(less: (Elem, Elem) -> bool, c: seq<Elem>, p: nat, q: nat, n: nat)
    requires 1 <= p < q <= n < |c| && Nondecreasing(less, c[p..q])
    requires q < n ==> less(c[q], c[q - 1])
    ensures Runs(less, c[p..n]) == 1 + Runs(less, c[q..n])
  {
    var s := c[p..n];
    assert s[..q - p] == c[p..q] && s[q - p..] == c[q..n];
    RunsSplit(less, s, q - p);
  }

  lemma SortedIsNondecreasing<E>(less: (E, E) -> bool, s: seq<E>)
    requires Sorted(less, s)
    ensures Nondecreasing(less, s)
  {
  }

  lemma PassingStep(less: (Elem, Elem) -> bool, s0: seq<Elem>, c: seq<Elem>, d: seq<Elem>,
                    p: nat, r: nat, n: nat, cnt: nat)
    requires Passing(less, s0, c, p, n, cnt) && StrictWeakOrder(less, Elements(c[1..n]))
    requires p <= r <= n && |d| == |c| && d == c[..p] + d[p..r] + c[r..]
    requires Stable(less, c[p..r], d[p..r]) && Sorted(less, d[p..r])
    requires Runs(less, c[p..n]) == 2 + Runs(less, c[r..n])
    ensures Passing(less, s0, d, r, n, cnt + 1)
  {
    hide StrictWeakOrder, Stable, Sorted, Nondecreasing, Runs;
    assert c[1..n] == c[1..p] + c[p..r] + c[r..n];
    assert d[1..n] == c[1..p] + d[p..r] + c[r..n];
    StableInContext(less, c[1..p], c[p..r], d[p..r], c[r..n]);
    StableTransitive(less, s0, c[1..n], d[1..n]);
    SortedIsNondecreasing(less, d[p..r]);
    RunsAppend(less, c[1..p], d[p..r]);
    assert d[1..r] == c[1..p] + d[p..r];
    assert d[r..n] == c[r..n];
  }

  lemma NoRuns(less: (Elem, Elem) -> bool, s: seq<Elem>)
    requires s == []
    ensures Runs(less, s) == 0
  {
  }

  /** The last run of an odd number stays as it is. */
  lemma PassingOdd(less: (Elem, Elem) -> bool, s0: seq<Elem>, c: seq<Elem>, p: nat, n: nat, cnt: nat)
    requires Passing(less, s0, c, p, n, cnt) && p < n && Nondecreasing(less, c[p..n])
    ensures Stable(less, s0, c[1..n])
    ensures Runs(less, s0) == 2 * cnt + 1 && Runs(less, c[1..n]) <= cnt + 1
  {
    hide Stable, Nondecreasing, Runs;
    SplitRun(less, c, p, n, n);
    NoRuns(less, c[n..n]);
    RunsAppend(less, c[1..p], c[p..n]);
    assert c[1..n] == c[1..p] + c[p..n];
  }

  lemma PassingEnd(less: (Elem, Elem) -> bool, s0: seq<Elem>, c: seq<Elem>, n: nat, cnt: nat)
    requires Passing(less, s0, c, n, n, cnt)
    ensures Stable(less, s0, c[1..n])
    ensures Runs(less, s0) == 2 * cnt && Runs(less, c[1..n]) <= cnt
  {
  }

  lemma PassingOrder(less: (Elem, Elem) -> bool, s0: seq<Elem>, c: seq<Elem>, p: nat, n: nat, cnt: nat,
                     q: nat, r: nat)
    requires Passing(less, s0, c, p, n, cnt) && StrictWeakOrder(less, Elements(s0)) && p <= q <= r <= n
    ensures StrictWeakOrder(less, Elements(c[1..n])) && StrictWeakOrder(less, Elements(c[q..r]))
  {
    hide StrictWeakOrder, Stable, Runs;
    StableOrder(less, s0, c[1..n]);
    SubOrder(less, c[1..n], q - 1, r - 1);
    SliceOfSlice(c, 1, n, q - 1, r - 1);
  }

  lemma SliceOfSlice<E>(s: seq<E>, a: nat, b: nat, x: nat, y: nat)
    requires a <= b <= |s| && x <= y <= b - a
    ensures s[a..b][x..y] == s[a + x..a + y]
  {
    var t := s[a..b];
    assert t[x..y] == s[a + x..a + y] by {
      assert forall i :: 0 <= i < y - x ==> t[x..y][i] == t[x + i] == s[a + x + i];
    }
  }

  lemma StableSame<E>(less: (E, E) -> bool, s: seq<E>, s': seq<E>)
    requires Stable(less, s, s')
    ensures Elements(s) == Elements(s')
  {
    StableElements(less, s, s');
  }

  lemma SubOrder<E>(less: (E, E) -> bool, s: seq<E>, q: nat, r: nat)
    requires StrictWeakOrder(less, Elements(s)) && q <= r <= |s|
    ensures StrictWeakOrder(less, Elements(s[q..r]))
  {
    hide StrictWeakOrder;
    SmallerOrder(less, Elements(s), Elements(s[q..r]));
  }

  /** One pass of list_sort: merges the natural runs pairwise, which leaves half as
      many, rounded up. */
  method Pass(list: List, less: (Elem, Elem) -> bool) returns (outputRunCnt: nat)
    requires list.Valid() && StrictWeakOrder(less, Elements(list.elems))
    modifies list, list.Chain()
    ensures list.Valid() && Stable(less, old(list.elems), list.elems)
    ensures outputRunCnt == (Runs(less, old(list.elems)) + 1) / 2
    ensures Runs(less, list.elems) <= outputRunCnt
  {
    hide StrictWeakOrder, Stable, Sorted, Nondecreasing, Runs, Linked, Passing, Distinct;
    ghost var s0, n := list.elems, |list.elems| + 1;
    ghost var c0 := list.Chain();
    ghost var c, p := c0, 1;
    assert c[1..n] == s0;
    PassingStart(less, c, n);
    Links(c, 0);
    outputRunCnt := 0;
    var a0 := list.head.next;
    while a0 != list.tail
      invariant Linked(c) && |c| == |c0| == n + 1 && c[0] == list.head && c[n] == list.tail
      invariant 1 <= p <= n && a0 == c[p]
      invariant Passing(less, s0, c, p, n, outputRunCnt)
      invariant forall e :: e in c ==> e in c0
      decreases n - p
    {
      outputRunCnt := outputRunCnt + 1;
      var a1b0, q := FindEndOfRun(a0, list.tail, less, c, p, n);
      if a1b0 == list.tail {
        SameIndex(c, q, n);
        PassingOdd(less, s0, c, p, n, outputRunCnt - 1);
        break;
      }
      var b1, r := FindEndOfRun(a1b0, list.tail, less, c, q, n);
      PassingOrder(less, s0, c, p, n, outputRunCnt - 1, p, r);
      RunOrder(less, c, p, q, r);
      assert forall m :: 0 <= m < |c| ==> c[m] in c0;
      ghost var d := InplaceMerge(a0, a1b0, b1, less, c, p, q, r);
      SplitRun(less, c, p, q, n);
      SplitRun(less, c, q, r, n);
      PassingStep(less, s0, c, d, p, r, n, outputRunCnt - 1);
      SameElements(less, c, d, p, r);
      c, p, a0 := d, r, b1;
    }
    if a0 == list.tail {
      SameIndex(c, p, n);
      PassingEnd(less, s0, c, n, outputRunCnt);
    }
    list.elems := c[1..n];
    assert list.Chain() == c;
  }

  lemma SameElements(less: (Elem, Elem) -> bool, c: seq<Elem>, d: seq<Elem>, p: nat, r: nat)
    requires p <= r <= |c| == |d| && d == c[..p] + d[p..r] + c[r..] && Stable(less, c[p..r], d[p..r])
    ensures forall e :: e in d ==> e in c
  {
    StableSame(less, c[p..r], d[p..r]);
    forall e | e in d[p..r]
      ensures e in c
    {
      assert e in Elements(d[p..r]);
    }
  }

  /** Both runs are sorted. */
  lemma RunOrder(less: (Elem, Elem) -> bool, c: seq<Elem>, p: nat, q: nat, r: nat)
    requires p <= q <= r <= |c| && StrictWeakOrder(less, Elements(c[p..r]))
    requires Nondecreasing(less, c[p..q]) && Nondecreasing(less, c[q..r])
    ensures Sorted(less, c[p..q]) && Sorted(less, c[q..r])
  {
    hide StrictWeakOrder, Nondecreasing, Sorted;
    SliceOfSlice(c, p, r, 0, q - p);
    SliceOfSlice(c, p, r, q - p, r - p);
    SubOrder(less, c[p..r], 0, q - p);
    SubOrder(less, c[p..r], q - p, r - p);
    NondecreasingIsSorted(less, c[p..q]);
    NondecreasingIsSorted(less, c[q..r]);
  }

  lemma SameChain(less: (Elem, Elem) -> bool, head: Elem, s: seq<Elem>, s': seq<Elem>, tail: Elem)
    requires Stable(less, s, s')
    ensures forall e :: e in [head] + s' + [tail] ==> e in [head] + s + [tail]
  {
    StableSame(less, s, s');
    forall e | e in s'
      ensures e in s
    {
      assert e in Elements(s');
    }
  }

  /** list_sort terminates, because every pass but the last at least halves the
      number of runs, and leaves a well-formed list of the same elements in the one
      order that is sorted and keeps equivalent elements as they were. */
  method Sort(list: List, less: (Elem, Elem) -> bool)
    requires list.Valid() && StrictWeakOrder(less, Elements(list.elems))
    modifies list, list.Chain()
    ensures list.Valid() && Stable(less, old(list.elems), list.elems) && Sorted(less, list.elems)
    ensures forall s :: Stable(less, old(list.elems), s) && Sorted(less, s) ==> s == list.elems
  {
    hide StrictWeakOrder, Stable, Sorted, Nondecreasing, Runs, Linked, Distinct;
    ghost var s0 := list.elems;
    ghost var c0 := list.Chain();
    var outputRunCnt := Pass(list, less);
    SameChain(less, list.head, s0, list.elems, list.tail);
    while outputRunCnt > 1
      invariant list.Valid() && Stable(less, s0, list.elems)
      invariant Runs(less, list.elems) <= outputRunCnt
      invariant forall e :: e in list.Chain() ==> e in c0
      decreases outputRunCnt
    {
      StableOrder(less, s0, list.elems);
      ghost var s := list.elems;
      assert forall m :: 0 <= m < |list.Chain()| ==> list.Chain()[m] in c0;
      outputRunCnt := Pass(list, less);
      StableTransitive(less, s0, s, list.elems);
      SameChain(less, list.head, s0, list.elems, list.tail);
    }
    StableOrder(less, s0, list.elems);
    OneRun(less, list.elems);
    NondecreasingIsSorted(less, list.elems);
    forall s | Stable(less, s0, s) && Sorted(less, s)
      ensures s == list.elems
    {
      StableSortUnique(less, s0, s, list.elems);
    }
  }
}
