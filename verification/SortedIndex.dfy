/** get_sorted_index: the rank of a thread in a list of threads ordered by tid. */
module SortedIndex {
  import opened ListOrder
  import opened Lists
  import opened ListSort
  import opened Orders
  import opened Seqs

  /** comparator: `tid` is the tid of the thread that an element is embedded in. */
  function Comparator(tid: Elem -> int): (Elem, Elem) -> bool {
    (a: Elem, b: Elem) => tid(a) < tid(b)
  }

  lemma ComparatorOrder(tid: Elem -> int, S: set<Elem>)
    ensures StrictWeakOrder(Comparator(tid), S)
  {
  }

  ghost function Below(tid: Elem -> int, S: set<Elem>, x: int): set<Elem> {
    set e | e in S && tid(e) < x
  }

  /** How many of the threads in S have a tid below x if some thread in S has tid x,
      and -1 otherwise. */
  ghost function Rank(tid: Elem -> int, S: set<Elem>, x: int): int {
    if exists e :: e in S && tid(e) == x then |Below(tid, S, x)| else -1
  }

  /** In a sorted list, everything before the first thread with the tid is below it. */
  lemma RankIsIndex(tid: Elem -> int, s: seq<Elem>, i: nat)
    requires Distinct(s) && Sorted(Comparator(tid), s) && i < |s|
    requires forall j :: 0 <= j < i ==> tid(s[j]) != tid(s[i])
    ensures Rank(tid, Elements(s), tid(s[i])) == i
  {
    assert s[i] in Elements(s);
    forall j | 0 <= j < |s|
      ensures tid(s[j]) < tid(s[i]) <==> j < i
    {
      assert j < i ==> !Comparator(tid)(s[i], s[j]);
      assert i < j ==> !Comparator(tid)(s[j], s[i]);
    }
    assert Below(tid, Elements(s), tid(s[i])) == Elements(s[..i]);
    NoDupIsDistinct(s[..i]);
    NoDupSize(s[..i]);
  }

  lemma RankMissing(tid: Elem -> int, s: seq<Elem>, x: int)
    requires forall j :: 0 <= j < |s| ==> tid(s[j]) != x
    ensures Rank(tid, Elements(s), x) == -1
  {
  }

  /** The search loop: the position of the first thread with the target's tid. */
  method FindTid(threads: List, target: Elem, tid: Elem -> int) returns (index: int)
    requires threads.Valid() && Sorted(Comparator(tid), threads.elems)
    ensures index == Rank(tid, Elements(threads.elems), tid(target))
  {
    hide Sorted, Rank, Linked, Distinct, Elements, Comparator, List.Valid, List.Chain;
    ghost var s := threads.elems;
    ghost var c := threads.Chain();
    ChainParts(threads);
    index := 0;
    var e := threads.head.next;
    while e != threads.tail
      invariant Linked(c) && 0 <= index <= |s| && e == c[index + 1]
      invariant forall j :: 0 <= j < index ==> tid(s[j]) != tid(target)
      decreases |s| - index
    {
      if tid(target) == tid(e) {
        RankIsIndex(tid, s, index);
        return;
      }
      Links(c, index + 1);
      e := e.next;
      index := index + 1;
    }
    SameIndex(c, index + 1, |s| + 1);
    RankMissing(tid, s, tid(target));
    index := -1;
  }

  /** Returns how many listed threads have a smaller tid than the target if some
      listed thread has the target's tid, and -1 otherwise.  The list is left
      sorted by tid. */
  method GetSortedIndex(threads: List?, target: Elem?, tid: Elem -> int) returns (index: int)
    requires threads != null ==> threads.Valid()
    modifies if threads == null then {} else {threads}, if threads == null then [] else threads.Chain()
    ensures threads == null || target == null ==> index == -1
    ensures threads != null ==> threads.Valid()
    ensures threads != null && target == null ==> threads.elems == old(threads.elems)
    ensures threads != null && target != null ==>
      && Sorted(Comparator(tid), threads.elems)
      && Stable(Comparator(tid), old(threads.elems), threads.elems)
      && index == Rank(tid, Elements(old(threads.elems)), tid(target))
    ensures threads != null && target != null ==>
      && (forall i, j :: 0 <= i < j < |threads.elems| ==> tid(threads.elems[i]) <= tid(threads.elems[j]))
      && (index == -1 <==> forall e :: e in old(threads.elems) ==> tid(e) != tid(target))
      && (index >= 0 ==> index == |set e | e in old(threads.elems) && tid(e) < tid(target)|)
  {
    hide StrictWeakOrder, Stable, Sorted, Rank, Linked, Distinct, Elements;
    if threads == null || target == null {
      return -1;
    }
    ghost var s0 := threads.elems;
    ComparatorOrder(tid, Elements(s0));
    Sort(threads, Comparator(tid));
    StableSame(Comparator(tid), s0, threads.elems);
    index := FindTid(threads, target, tid);
    TidsAscend(tid, threads.elems);
    RankIs(tid, s0, tid(target));
  }

  lemma TidsAscend(tid: Elem -> int, s: seq<Elem>)
    requires Sorted(Comparator(tid), s)
    ensures forall i, j :: 0 <= i < j < |s| ==> tid(s[i]) <= tid(s[j])
  {
    forall i, j | 0 <= i < j < |s|
      ensures tid(s[i]) <= tid(s[j])
    {
      assert !Comparator(tid)(s[j], s[i]);
    }
  }

  lemma RankIs(tid: Elem -> int, s: seq<Elem>, x: int)
    ensures Rank(tid, Elements(s), x) == -1 <==> forall e :: e in s ==> tid(e) != x
    ensures Rank(tid, Elements(s), x) >= 0 ==> Rank(tid, Elements(s), x) == |set e | e in s && tid(e) < x|
  {
    assert Below(tid, Elements(s), x) == set e | e in s && tid(e) < x;
  }

  lemma ChainParts(list: List)
    requires list.Valid()
    ensures var c, s := list.Chain(), list.elems;
      && Linked(c) && |c| == |s| + 2 && Distinct(s)
      && list.head.next == c[1] && c[|s| + 1] == list.tail
      && forall j :: 0 <= j < |s| ==> s[j] == c[j + 1]
  {
    Links(list.Chain(), 0);
    assert forall j :: 0 <= j < |list.elems| ==> list.elems[j] == list.Chain()[j + 1];
  }
}
