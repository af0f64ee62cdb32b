/** sort and binary_search of stdlib.c: an in-place heapsort, with the source's
    1-based indexes, and a search in its output. */
module Heapsort {
  import opened Options

  /** `cmp` gives strcmp-like results: it agrees with itself when the arguments are
      exchanged, and "not greater" is transitive. */
  ghost predicate Ordering<T(!new)>(cmp: (T, T) -> int) {
    && (forall x, y :: cmp(x, y) < 0 <==> cmp(y, x) > 0)
    && (forall x, y, z :: cmp(x, y) <= 0 && cmp(y, z) <= 0 ==> cmp(x, z) <= 0)
  }

  lemma Reverse<T(!new)>(cmp: (T, T) -> int, x: T, y: T)
    requires Ordering(cmp)
    ensures cmp(x, y) > 0 ==> cmp(y, x) <= 0
    ensures cmp(x, y) <= 0 <==> cmp(y, x) >= 0
  {
  }

  ghost predicate Sorted<T>(cmp: (T, T) -> int, s: seq<T>) {
    forall i, j :: 0 <= i < j < |s| ==> cmp(s[i], s[j]) <= 0
  }

  /** Among the first cnt elements, the one at c (from 1) is at most its parent. */
  predicate ChildOk<T>(cmp: (T, T) -> int, s: seq<T>, c: int)
    requires 2 <= c <= |s|
  {
    cmp(s[c - 1], s[c / 2 - 1]) <= 0
  }

  /** The subtrees whose roots are at lo or later are heaps. */
  ghost predicate HeapFrom<T>(cmp: (T, T) -> int, s: seq<T>, lo: int, cnt: nat)
    requires cnt <= |s|
  {
    forall c :: 2 <= c <= cnt && c / 2 >= lo ==> ChildOk(cmp, s, c)
  }

  /** ... except that the element at k may be less than its children, which are still
      at most its parent. */
  ghost predicate HeapBut<T>(cmp: (T, T) -> int, s: seq<T>, lo: int, cnt: nat, k: int)
    requires cnt <= |s| && 1 <= k
  {
    && (forall c :: 2 <= c <= cnt && c / 2 >= lo && c / 2 != k ==> ChildOk(cmp, s, c))
    && (forall c :: 2 <= c <= cnt && c / 2 == k && k / 2 >= lo && k >= 2 ==> cmp(s[c - 1], s[k / 2 - 1]) <= 0)
  }

  /** The first n elements are a rearrangement, and the others are where they were. */
  ghost predicate Shuffled<T>(s: seq<T>, s': seq<T>, n: nat) {
    |s'| == |s| && n <= |s| && multiset(s'[..n]) == multiset(s[..n]) && s'[n..] == s[n..]
  }

  ghost function Swapped<T>(s: seq<T>, i: nat, j: nat): seq<T>
    requires 1 <= i <= |s| && 1 <= j <= |s|
  {
    s[i - 1 := s[j - 1]][j - 1 := s[i - 1]]
  }

  lemma SwappedShuffled<T>(s: seq<T>, i: nat, j: nat, n: nat)
    requires 1 <= i <= n && 1 <= j <= n && n <= |s|
    ensures Shuffled(s, Swapped(s, i, j), n)
  {
    var s' := Swapped(s, i, j);
    assert s'[..n] == s[..n][i - 1 := s[j - 1]][j - 1 := s[i - 1]];
    assert s'[n..] == s[n..];
  }

  lemma ShuffledTransitive<T>(a: seq<T>, b: seq<T>, c: seq<T>, n: nat)
    requires Shuffled(a, b, n) && Shuffled(b, c, n)
    ensures Shuffled(a, c, n)
  {
  }

  /** do_swap */
  method DoSwap<T>(a: array<T>, i: nat, j: nat)
    requires 1 <= i <= a.Length && 1 <= j <= a.Length
    modifies a
    ensures a[..] == Swapped(old(a[..]), i, j)
  {
    a[i - 1], a[j - 1] := a[j - 1], a[i - 1];
  }

  /** The largest of the element at k and its children. */
  method MaxChild<T(!new)>(a: array<T>, k: nat, cnt: nat, cmp: (T, T) -> int) returns (max: nat)
    requires Ordering(cmp) && 1 <= k <= cnt <= a.Length
    ensures max == k || (max <= cnt && max / 2 == k && 2 <= max && cmp(a[max - 1], a[k - 1]) > 0)
    ensures forall c :: 2 <= c <= cnt && c / 2 == k ==> cmp(a[c - 1], a[max - 1]) <= 0
  {
    var left, right := 2 * k, 2 * k + 1;
    max := k;
    if left <= cnt && cmp(a[left - 1], a[max - 1]) > 0 {
      max := left;
    }
    ghost var m := max;
    if right <= cnt && cmp(a[right - 1], a[max - 1]) > 0 {
      max := right;
    }
    assert forall c :: c / 2 == k ==> c == left || c == right;
    assert left <= cnt ==> cmp(a[left - 1], a[max - 1]) <= 0 by {
      if max == right && m == left { Reverse(cmp, a[right - 1], a[left - 1]); }
    }
  }

  /** What max is to the element at k and its children. */
  ghost predicate IsMax<T>(cmp: (T, T) -> int, s: seq<T>, cnt: nat, k: nat, max: nat)
    requires 1 <= k <= cnt <= |s|
  {
    && (max == k || (2 <= max <= cnt && max / 2 == k && cmp(s[max - 1], s[k - 1]) > 0))
    && (forall c :: 2 <= c <= cnt && c / 2 == k ==> cmp(s[c - 1], s[max - 1]) <= 0)
  }

  lemma SwappedAt<T>(s: seq<T>, i: nat, j: nat, k: nat)
    requires 1 <= i <= |s| && 1 <= j <= |s| && i != j && 1 <= k <= |s|
    ensures |Swapped(s, i, j)| == |s|
    ensures Swapped(s, i, j)[k - 1] == if k == i then s[j - 1] else if k == j then s[i - 1] else s[k - 1]
  {
  }

  /** Floating down by one level moves the exception down with it. */
  lemma FloatDown<T(!new)>(cmp: (T, T) -> int, s: seq<T>, lo: int, cnt: nat, k: nat, max: nat)
    requires Ordering(cmp) && 1 <= lo <= k <= cnt <= |s| && HeapBut(cmp, s, lo, cnt, k)
    requires IsMax(cmp, s, cnt, k, max) && max != k
    ensures HeapBut(cmp, Swapped(s, k, max), lo, cnt, max)
  {
    hide Ordering, Swapped;
    var s' := Swapped(s, k, max);
    SwappedAt(s, k, max, k);
    SwappedAt(s, k, max, max);
    forall c | 2 <= c <= cnt && c / 2 >= lo && c / 2 != max
      ensures ChildOk(cmp, s', c)
    {
      SwappedAt(s, k, max, c);
      SwappedAt(s, k, max, c / 2);
      if c == max {
        Reverse(cmp, s[max - 1], s[k - 1]);
      } else if c == k {
        assert cmp(s[max - 1], s[k / 2 - 1]) <= 0;
      } else if c / 2 != k {
        assert ChildOk(cmp, s, c);
      }
    }
    forall c | 2 <= c <= cnt && c / 2 == max
      ensures cmp(s'[c - 1], s'[max / 2 - 1]) <= 0
    {
      SwappedAt(s, k, max, c);
      assert ChildOk(cmp, s, c);
    }
  }

  lemma Floated<T>(cmp: (T, T) -> int, s: seq<T>, lo: int, cnt: nat, k: nat)
    requires 1 <= lo <= k <= cnt <= |s| && HeapBut(cmp, s, lo, cnt, k) && IsMax(cmp, s, cnt, k, k)
    ensures HeapFrom(cmp, s, lo, cnt)
  {
  }

  lemma HeapStart<T>(cmp: (T, T) -> int, s: seq<T>, i: nat, cnt: nat)
    requires 1 <= i && cnt <= |s| && HeapFrom(cmp, s, i + 1, cnt)
    ensures HeapBut(cmp, s, i, cnt, i)
  {
  }

  /** heapify: restores the heap below i by letting the element at i float down. */
  method Heapify<T(!new)>(a: array<T>, i: nat, cnt: nat, cmp: (T, T) -> int)
    requires Ordering(cmp) && 1 <= i <= cnt <= a.Length && HeapFrom(cmp, a[..], i + 1, cnt)
    modifies a
    ensures HeapFrom(cmp, a[..], i, cnt) && Shuffled(old(a[..]), a[..], cnt)
  {
    hide Ordering, Swapped, Shuffled, HeapBut, HeapFrom, IsMax;
    ghost var s0 := a[..];
    var k := i;
    HeapStart(cmp, s0, i, cnt);
    ShuffledSelf(s0, cnt);
    while true
      invariant i <= k <= cnt && HeapBut(cmp, a[..], i, cnt, k) && Shuffled(s0, a[..], cnt)
      decreases cnt - k
    {
      var max := MaxChild(a, k, cnt, cmp);
      MaxIs(cmp, a[..], cnt, k, max);
      if max == k {
        Floated(cmp, a[..], i, cnt, k);
        break;
      }
      ghost var s := a[..];
      FloatDown(cmp, s, i, cnt, k, max);
      SwappedShuffled(s, k, max, cnt);
      ShuffledTransitive(s0, s, Swapped(s, k, max), cnt);
      DoSwap(a, k, max);
      k := max;
    }
  }

  lemma ShuffledSelf<T>(s: seq<T>, n: nat)
    requires n <= |s|
    ensures Shuffled(s, s, n)
  {
  }

  lemma MaxIs<T>(cmp: (T, T) -> int, s: seq<T>, cnt: nat, k: nat, max: nat)
    requires 1 <= k <= cnt <= |s|
    requires max == k || (max <= cnt && max / 2 == k && 2 <= max && cmp(s[max - 1], s[k - 1]) > 0)
    requires forall c :: 2 <= c <= cnt && c / 2 == k ==> cmp(s[c - 1], s[max - 1]) <= 0
    ensures IsMax(cmp, s, cnt, k, max)
  {
  }

  // ----- Sorting

  /** The root of a heap is its greatest element. */
  lemma {:induction false} RootIsGreatest<T(!new)>(cmp: (T, T) -> int, s: seq<T>, cnt: nat, j: nat)
    requires Ordering(cmp) && 1 <= j <= cnt <= |s| && HeapFrom(cmp, s, 1, cnt)
    ensures cmp(s[j - 1], s[0]) <= 0
  {
    if j > 1 {
      RootIsGreatest(cmp, s, cnt, j / 2);
      assert ChildOk(cmp, s, j);
    } else {
      assert cmp(s[0], s[0]) <= 0;
    }
  }

  /** From n on s is sorted, and nothing before n is greater than anything from n on. */
  ghost predicate TailSorted<T>(cmp: (T, T) -> int, s: seq<T>, n: nat) {
    n <= |s| && forall i, j :: 0 <= i < j < |s| && n <= j ==> cmp(s[i], s[j]) <= 0
  }

  /** Rearranging the part before n does not matter. */
  lemma TailShuffled<T>(cmp: (T, T) -> int, s: seq<T>, s': seq<T>, n: nat)
    requires TailSorted(cmp, s, n) && Shuffled(s, s', n)
    ensures TailSorted(cmp, s', n)
  {
    forall i, j | 0 <= i < j < |s'| && n <= j
      ensures cmp(s'[i], s'[j]) <= 0
    {
      assert s'[j] == s'[n..][j - n] == s[j];
      if i < n {
        assert s'[i] in multiset(s'[..n]);
        assert s'[i] in s[..n];
        var k :| 0 <= k < n && s[..n][k] == s'[i];
        assert s[k] == s'[i];
      } else {
        assert s'[i] == s'[n..][i - n] == s[i];
      }
    }
  }

  /** Exchanging the root with the last element of the heap puts it in its place. */
  lemma TailGrows<T(!new)>(cmp: (T, T) -> int, s: seq<T>, i: nat)
    requires Ordering(cmp) && 2 <= i <= |s| && HeapFrom(cmp, s, 1, i) && TailSorted(cmp, s, i)
    ensures TailSorted(cmp, Swapped(s, 1, i), i - 1) && HeapFrom(cmp, Swapped(s, 1, i), 2, i - 1)
  {
    hide Ordering, Swapped;
    var s' := Swapped(s, 1, i);
    SwappedAt(s, 1, i, 1);
    forall p, q | 0 <= p < q < |s'| && i - 1 <= q
      ensures cmp(s'[p], s'[q]) <= 0
    {
      SwappedAt(s, 1, i, p + 1);
      SwappedAt(s, 1, i, q + 1);
      RootIsGreatest(cmp, s, i, if p == 0 then i else if p < i then p + 1 else 1);
    }
    forall c | 2 <= c <= i - 1 && c / 2 >= 2
      ensures ChildOk(cmp, s', c)
    {
      SwappedAt(s, 1, i, c);
      SwappedAt(s, 1, i, c / 2);
      assert ChildOk(cmp, s, c);
    }
  }

  lemma ShuffledWider<T>(s: seq<T>, s': seq<T>, n: nat, m: nat)
    requires Shuffled(s, s', n) && n <= m <= |s|
    ensures Shuffled(s, s', m)
  {
    assert s'[..m] == s'[..n] + s'[n..][..m - n];
    assert s[..m] == s[..n] + s[n..][..m - n];
    assert s'[m..] == s'[n..][m - n..] && s[m..] == s[n..][m - n..];
  }

  /** sort: the array ends up sorted, with the same elements. */
  method Sort<T(!new)>(a: array<T>, cmp: (T, T) -> int)
    requires Ordering(cmp)
    modifies a
    ensures Sorted(cmp, a[..]) && multiset(a[..]) == multiset(old(a[..]))
  {
    hide Ordering, Swapped, Shuffled, HeapFrom, TailSorted;
    var cnt := a.Length;
    ghost var s0 := a[..];
    ShuffledSelf(s0, cnt);
    NoParents(cmp, s0, cnt);
    var i := cnt / 2;
    while i > 0
      invariant 0 <= i <= cnt / 2 && HeapFrom(cmp, a[..], i + 1, cnt) && Shuffled(s0, a[..], cnt)
    {
      ghost var s := a[..];
      Heapify(a, i, cnt, cmp);
      ShuffledTransitive(s0, s, a[..], cnt);
      i := i - 1;
    }
    i := cnt;
    NoTail(cmp, a[..]);
    while i > 1
      invariant 0 <= i <= cnt && HeapFrom(cmp, a[..], 1, i) && TailSorted(cmp, a[..], i) && Shuffled(s0, a[..], cnt)
    {
      ghost var s := a[..];
      TailGrows(cmp, s, i);
      SwappedShuffled(s, 1, i, cnt);
      ShuffledTransitive(s0, s, Swapped(s, 1, i), cnt);
      DoSwap(a, 1, i);
      ghost var t := a[..];
      Heapify(a, 1, i - 1, cmp);
      TailShuffled(cmp, t, a[..], i - 1);
      ShuffledWider(t, a[..], i - 1, cnt);
      ShuffledTransitive(s0, t, a[..], cnt);
      i := i - 1;
    }
    AllTail(cmp, s0, a[..], i);
  }

  lemma NoParents<T>(cmp: (T, T) -> int, s: seq<T>, cnt: nat)
    requires cnt <= |s|
    ensures HeapFrom(cmp, s, cnt / 2 + 1, cnt)
  {
  }

  lemma NoTail<T>(cmp: (T, T) -> int, s: seq<T>)
    ensures TailSorted(cmp, s, |s|)
  {
  }

  lemma AllTail<T>(cmp: (T, T) -> int, s0: seq<T>, s: seq<T>, i: nat)
    requires i <= 1 && TailSorted(cmp, s, i) && Shuffled(s0, s, |s0|)
    ensures Sorted(cmp, s) && multiset(s) == multiset(s0)
  {
    assert s[..|s0|] == s && s0[..|s0|] == s0;
  }

  // ----- Searching

  /** binary_search: a position that matches the key, if and only if there is one. */
  method BinarySearch<T(!new)>(key: T, a: array<T>, cmp: (T, T) -> int) returns (r: Option<nat>)
    requires Ordering(cmp) && Sorted(cmp, a[..])
    ensures r.Some? ==> r.value < a.Length && cmp(key, a[r.value]) == 0
    ensures r == None ==> forall i :: 0 <= i < a.Length ==> cmp(key, a[i]) != 0
  {
    var first, last := 0, a.Length;
    while first < last
      invariant 0 <= first <= last <= a.Length
      invariant forall i :: 0 <= i < first ==> cmp(key, a[i]) > 0
      invariant forall i :: last <= i < a.Length ==> cmp(key, a[i]) < 0
    {
      var middle := first + (last - first) / 2;
      var c := cmp(key, a[middle]);
      if c < 0 {
        forall i | middle <= i < a.Length
          ensures cmp(key, a[i]) < 0
        {
          Before(cmp, key, a[..], middle, i);
        }
        last := middle;
      } else if c > 0 {
        forall i | 0 <= i <= middle
          ensures cmp(key, a[i]) > 0
        {
          After(cmp, key, a[..], i, middle);
        }
        first := middle + 1;
      } else {
        return Some(middle);
      }
    }
    r := None;
  }

  lemma Before<T(!new)>(cmp: (T, T) -> int, key: T, s: seq<T>, i: nat, j: nat)
    requires Ordering(cmp) && Sorted(cmp, s) && i <= j < |s| && cmp(key, s[i]) < 0
    ensures cmp(key, s[j]) < 0
  {
    if i < j { LessThenAtMost(cmp, key, s[i], s[j]); }
  }

  lemma After<T(!new)>(cmp: (T, T) -> int, key: T, s: seq<T>, i: nat, j: nat)
    requires Ordering(cmp) && Sorted(cmp, s) && i <= j < |s| && cmp(key, s[j]) > 0
    ensures cmp(key, s[i]) > 0
  {
    if i < j { AtMostThenLess(cmp, s[i], s[j], key); }
  }

  lemma LessThenAtMost<T(!new)>(cmp: (T, T) -> int, x: T, y: T, z: T)
    requires Ordering(cmp) && cmp(x, y) < 0 && cmp(y, z) <= 0
    ensures cmp(x, z) < 0
  {
    Reverse(cmp, x, z);
  }

  lemma AtMostThenLess<T(!new)>(cmp: (T, T) -> int, x: T, y: T, key: T)
    requires Ordering(cmp) && cmp(x, y) <= 0 && cmp(key, y) > 0
    ensures cmp(key, x) > 0
  {
  }
}
