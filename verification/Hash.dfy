/** A hash table with chaining and rehashing, proved to be a finite set of elements
    that are pairwise different as far as `less` can tell. */
module HashTables {
  import opened Options
  import opened Orders
  import opened Seqs
  import opened Bits

  // ----- The number of buckets

  predicate IsPowerOf2(x: nat) {
    x != 0 && And(x, x - 1) == 0
  }

  function TurnOffLeast1Bit(x: nat): nat
    requires x > 0
  {
    And(x, x - 1)
  }

  /** The largest power of two that is at most x. */
  function FloorPow2(x: nat): (p: nat)
    requires x > 0
    ensures p <= x < 2 * p
  {
    if x == 1 then 1 else 2 * FloorPow2(x / 2)
  }

  /** The number of buckets rehash aims for: a power of two, at least 4, and about one
      bucket for every two elements. */
  function BestBuckets(elemCnt: nat): nat {
    if elemCnt / 2 < 4 then 4 else FloorPow2(elemCnt / 2)
  }

  lemma {:induction false} FloorExponent(x: nat) returns (k: nat)
    requires x > 0
    ensures FloorPow2(x) == Pow2(k) <= x < Pow2(k + 1)
  {
    if x == 1 {
      k := 0;
    } else {
      var j := FloorExponent(x / 2);
      k := j + 1;
    }
  }

  lemma {:induction false} FloorUnique(x: nat, k: nat)
    requires x > 0 && Pow2(k) <= x < Pow2(k + 1)
    ensures FloorPow2(x) == Pow2(k)
  {
    if k > 0 { FloorUnique(x / 2, k - 1); }
  }

  /** The loop at the start of rehash. */
  method NewBucketCnt(elemCnt: nat) returns (cnt: nat)
    ensures cnt == BestBuckets(elemCnt)
    ensures exists k: nat :: cnt == Pow2(k) && k >= 2
    ensures cnt >= 4 && ((cnt == 4 && elemCnt / 2 < 8) || cnt <= elemCnt / 2 < 2 * cnt)
  {
    cnt := elemCnt / 2;
    if cnt < 4 {
      cnt := 4;
    }
    ghost var k := FloorExponent(cnt);
    AtLeastTwo(k);
    FloorUnique(4, 2);
    while !IsPowerOf2(cnt)
      invariant 0 < cnt && Pow2(k) <= cnt < Pow2(k + 1)
      decreases cnt
    {
      TurnOffLowest(cnt, k);
      cnt := TurnOffLeast1Bit(cnt);
    }
    TurnOffLowest(cnt, k);
  }

  lemma AtLeastTwo(k: nat)
    requires Pow2(k + 1) > 4
    ensures k >= 2 && Pow2(2) == 4
  {
    assert Pow2(1) == 2 && Pow2(2) == 4;
  }

  // ----- Bags of elements

  /** All the elements in the buckets, with multiplicity. */
  ghost function Bag<E>(bs: seq<seq<E>>): multiset<E> {
    if bs == [] then multiset{} else Bag(bs[..|bs| - 1]) + multiset(bs[|bs| - 1])
  }

  lemma Regroup<E>(a: multiset<E>, x: multiset<E>, b: multiset<E>, y: multiset<E>, l: multiset<E>)
    requires a + x == b + y
    ensures (a + l) + x == (b + l) + y
  {
    assert (a + l) + x == (a + x) + l;
    assert (b + l) + y == (b + y) + l;
  }

  lemma {:induction false} BagUpdate<E>(bs: seq<seq<E>>, i: nat, b: seq<E>)
    requires i < |bs|
    ensures Bag(bs[i := b]) + multiset(bs[i]) == Bag(bs) + multiset(b)
  {
    var n := |bs| - 1;
    if i < n {
      BagUpdate(bs[..n], i, b);
      assert bs[i := b][..n] == bs[..n][i := b];
      assert bs[i := b][n] == bs[n] && bs[..n][i] == bs[i];
      Regroup(Bag(bs[..n][i := b]), multiset(bs[i]), Bag(bs[..n]), multiset(b), multiset(bs[n]));
    } else {
      assert bs[i := b][..n] == bs[..n];
      Swap(Bag(bs[..n]), multiset(b), multiset(bs[n]));
    }
  }

  lemma Swap<E>(a: multiset<E>, x: multiset<E>, y: multiset<E>)
    ensures (a + x) + y == (a + y) + x
  {
  }

  lemma {:induction false} BagMember<E>(bs: seq<seq<E>>, x: E)
    ensures x in Bag(bs) <==> exists i :: 0 <= i < |bs| && x in bs[i]
  {
    if bs != [] {
      var n := |bs| - 1;
      BagMember(bs[..n], x);
      if x in Bag(bs) && x !in bs[n] {
        var i :| 0 <= i < n && x in bs[..n][i];
        assert x in bs[i];
      }
    }
  }

  lemma {:induction false} BagEmpty<E>(bs: seq<seq<E>>)
    requires forall i :: 0 <= i < |bs| ==> bs[i] == []
    ensures Bag(bs) == multiset{}
  {
    if bs != [] { BagEmpty(bs[..|bs| - 1]); }
  }

  lemma BagPush<E>(bs: seq<seq<E>>, i: nat, e: E)
    requires i < |bs|
    ensures Bag(bs[i := [e] + bs[i]]) == Bag(bs) + multiset{e}
  {
    hide Bag;
    BagUpdate(bs, i, [e] + bs[i]);
    assert multiset([e] + bs[i]) == multiset{e} + multiset(bs[i]);
    Cancel(Bag(bs[i := [e] + bs[i]]), multiset(bs[i]), Bag(bs), multiset{e});
  }

  lemma Cancel<E>(a: multiset<E>, x: multiset<E>, b: multiset<E>, y: multiset<E>)
    requires a + x == b + (y + x)
    ensures a == b + y
  {
    forall z
      ensures a[z] == (b + y)[z]
    {
      assert (a + x)[z] == (b + (y + x))[z];
    }
  }

  lemma BagRemove<E>(bs: seq<seq<E>>, i: nat, e: E)
    requires i < |bs| && e in bs[i]
    ensures Bag(bs[i := Removed(bs[i], e)]) + multiset{e} == Bag(bs)
  {
    hide Bag;
    RemovedBag(bs[i], e);
    BagUpdate(bs, i, Removed(bs[i], e));
    var r := multiset(Removed(bs[i], e));
    assert Bag(bs[i := Removed(bs[i], e)]) + (multiset{e} + r) == Bag(bs) + r;
    Cancel(Bag(bs), r, Bag(bs[i := Removed(bs[i], e)]), multiset{e});
  }

  lemma {:induction false} RemovedBag<E>(xs: seq<E>, e: E)
    requires e in xs
    ensures multiset(xs) == multiset(Removed(xs, e)) + multiset{e}
    ensures forall x :: x in Removed(xs, e) ==> x in xs
  {
    assert xs == [xs[0]] + xs[1..];
    if xs[0] != e {
      RemovedBag(xs[1..], e);
      assert Removed(xs, e) == [xs[0]] + Removed(xs[1..], e);
    }
  }

  // ----- The table

  /** What hash.h demands of the functions: being the same is an equivalence, and
      elements that are the same have the same hash value. */
  ghost predicate Coherent<E(!new)>(less: (E, E) -> bool, hash: E -> nat) {
    && (forall x :: Same(less, x, x))
    && (forall x, y, z :: Same(less, x, y) && Same(less, y, z) ==> Same(less, x, z))
    && (forall x, y :: Same(less, x, y) ==> hash(x) == hash(y))
  }

  /** find_bucket */
  function BucketOf<E>(hash: E -> nat, e: E, cnt: nat): nat
    requires cnt > 0
  {
    And(hash(e), cnt - 1)
  }

  /** With a power of two for a count, the bucket is the hash value's remainder. */
  lemma BucketIsRemainder<E>(hash: E -> nat, e: E, k: nat)
    ensures Pow2(k) > 0 && BucketOf(hash, e, Pow2(k)) == hash(e) % Pow2(k)
  {
    AndLowMask(hash(e), k);
  }

  /** Every element is in the bucket its hash value says. */
  ghost predicate Placed<E>(hash: E -> nat, bs: seq<seq<E>>) {
    && |bs| > 0
    && (forall i, x :: 0 <= i < |bs| && x in bs[i] ==> BucketOf(hash, x, |bs|) == i)
  }

  /** No two elements are the same. */
  ghost predicate Unique<E>(less: (E, E) -> bool, bag: multiset<E>) {
    && (forall x :: x in bag ==> bag[x] == 1)
    && (forall x, y :: x in bag && y in bag && Same(less, x, y) ==> x == y)
  }

  lemma UniqueAdd<E(!new)>(less: (E, E) -> bool, hash: E -> nat, bag: multiset<E>, e: E)
    requires Unique(less, bag) && Coherent(less, hash) && forall x :: x in bag ==> !Same(less, x, e)
    ensures Unique(less, bag + multiset{e})
  {
    assert e !in bag;
  }

  lemma UniqueRemove<E>(less: (E, E) -> bool, bag: multiset<E>, bag': multiset<E>, e: E)
    requires Unique(less, bag) && bag' + multiset{e} == bag
    ensures Unique(less, bag') && forall x :: x in bag' <==> x in bag && x != e
  {
    assert bag[e] == bag'[e] + 1;
    forall x
      ensures x in bag' <==> x in bag && x != e
    {
      assert bag[x] == (bag' + multiset{e})[x];
    }
    forall x | x in bag'
      ensures bag'[x] == 1
    {
      assert bag[x] == (bag' + multiset{e})[x];
    }
  }

  /** An element can only be found in its own bucket. */
  lemma FoundInBucket<E(!new)>(less: (E, E) -> bool, hash: E -> nat, bs: seq<seq<E>>, e: E, x: E)
    requires Coherent(less, hash) && Placed(hash, bs) && x in Bag(bs) && Same(less, x, e)
    ensures BucketOf(hash, e, |bs|) < |bs| && x in bs[BucketOf(hash, e, |bs|)]
  {
    BagMember(bs, x);
    var i :| 0 <= i < |bs| && x in bs[i];
    assert BucketOf(hash, x, |bs|) == i;
  }

  lemma PlacedPush<E>(hash: E -> nat, bs: seq<seq<E>>, i: nat, e: E)
    requires Placed(hash, bs) && i < |bs| && BucketOf(hash, e, |bs|) == i
    ensures Placed(hash, bs[i := [e] + bs[i]])
  {
  }

  lemma PlacedRemove<E>(hash: E -> nat, bs: seq<seq<E>>, i: nat, e: E)
    requires Placed(hash, bs) && i < |bs| && e in bs[i]
    ensures Placed(hash, bs[i := Removed(bs[i], e)])
  {
    RemovedBag(bs[i], e);
  }

  class Hash<E(==, !new)> {
    var elemCnt: nat
    var buckets: array<seq<E>>
    const hash: E -> nat
    const less: (E, E) -> bool

    ghost predicate Valid()
      reads this, buckets
    {
      && (exists k: nat :: buckets.Length == Pow2(k) && k >= 2)
      && Coherent(less, hash)
      && Placed(hash, buckets[..])
      && Unique(less, Bag(buckets[..]))
      && elemCnt == |Bag(buckets[..])|
    }

    /** The table as a set. */
    ghost function Elems(): set<E>
      reads this, buckets
    {
      set x | x in Bag(buckets[..])
    }

    /** hash_init */
    constructor (hash: E -> nat, less: (E, E) -> bool)
      requires Coherent(less, hash)
      ensures Valid() && Elems() == {} && elemCnt == 0 && fresh(buckets)
      ensures this.hash == hash && this.less == less
    {
      elemCnt := 0;
      buckets := new seq<E>[4](_ => []);
      this.hash, this.less := hash, less;
      new;
      BagEmpty(buckets[..]);
      assert Pow2(1) == 2 && Pow2(2) == 4;
    }

    /** find_elem */
    method FindElem(bucket: seq<E>, e: E) returns (r: Option<E>)
      ensures r.Some? ==> r.value in bucket && Same(less, r.value, e)
      ensures r == None ==> forall x :: x in bucket ==> !Same(less, x, e)
    {
      var i := 0;
      while i < |bucket|
        invariant i <= |bucket| && forall k :: 0 <= k < i ==> !Same(less, bucket[k], e)
      {
        if !less(bucket[i], e) && !less(e, bucket[i]) {
          return Some(bucket[i]);
        }
        i := i + 1;
      }
      r := None;
    }

    lemma InRange(e: E)
      requires buckets.Length > 0
      ensures BucketOf(hash, e, buckets.Length) < buckets.Length
    {
      AndBound(hash(e), buckets.Length - 1);
    }

    /** hash_find: an element the same as e, if the table holds one. */
    method Find(e: E) returns (r: Option<E>)
      requires Valid()
      ensures r.Some? ==> r.value in Elems() && Same(less, r.value, e)
      ensures r == None ==> forall x :: x in Elems() ==> !Same(less, x, e)
    {
      InRange(e);
      var idx := BucketOf(hash, e, buckets.Length);
      r := FindElem(buckets[idx], e);
      ghost var bs := buckets[..];
      if r.Some? { BagMember(bs, r.value); }
      forall x | x in Bag(bs) && Same(less, x, e)
        ensures x in bs[idx]
      {
        FoundInBucket(less, hash, bs, e, x);
      }
    }

    /** insert_elem: puts e at the front of its bucket. */
    method InsertElem(idx: nat, e: E)
      requires Valid() && idx == BucketOf(hash, e, buckets.Length) < buckets.Length
      requires forall x :: x in Elems() ==> !Same(less, x, e)
      modifies this`elemCnt, buckets
      ensures Valid() && Elems() == old(Elems()) + {e} && elemCnt == old(elemCnt) + 1
    {
      ghost var bs := buckets[..];
      BagPush(bs, idx, e);
      PlacedPush(hash, bs, idx, e);
      UniqueAdd(less, hash, Bag(bs), e);
      hide Bag, Placed, Unique, Coherent, BucketOf;
      elemCnt := elemCnt + 1;
      buckets[idx] := [e] + buckets[idx];
      assert buckets[..] == bs[idx := [e] + bs[idx]];
    }

    /** remove_elem: takes e out of the bucket it is in. */
    method RemoveElem(idx: nat, e: E)
      requires Valid() && idx < buckets.Length && e in buckets[idx]
      modifies this`elemCnt, buckets
      ensures Valid() && Elems() == old(Elems()) - {e} && elemCnt + 1 == old(elemCnt)
    {
      ghost var bs := buckets[..];
      BagRemove(bs, idx, e);
      PlacedRemove(hash, bs, idx, e);
      ghost var bs' := bs[idx := Removed(bs[idx], e)];
      UniqueRemove(less, Bag(bs), Bag(bs'), e);
      hide Bag, Placed, Unique, Coherent, BucketOf;
      assert |Bag(bs)| == |Bag(bs')| + 1;
      elemCnt := elemCnt - 1;
      buckets[idx] := Removed(buckets[idx], e);
      assert buckets[..] == bs';
    }
  
    /** Moves the elements of one old bucket to the front of their new buckets. */
    method MoveBucket(nb: array<seq<E>>, bucket: seq<E>)
      requires nb.Length > 0 && Placed(hash, nb[..])
      modifies nb
      ensures Placed(hash, nb[..]) && Bag(nb[..]) == Bag(old(nb[..])) + multiset(bucket)
    {
      hide Bag, Placed, BucketOf;
      var j := 0;
      while j < |bucket|
        invariant j <= |bucket| && Placed(hash, nb[..])
        invariant Bag(nb[..]) == Bag(old(nb[..])) + multiset(bucket[..j])
      {
        var e := bucket[j];
        AndBelow(hash, e, nb.Length);
        var idx := BucketOf(hash, e, nb.Length);
        ghost var bs := nb[..];
        BagPush(bs, idx, e);
        PlacedPush(hash, bs, idx, e);
        nb[idx] := [e] + nb[idx];
        assert nb[..] == bs[idx := [e] + bs[idx]];
        assert bucket[..j + 1] == bucket[..j] + [e];
        j := j + 1;
      }
      assert bucket[..j] == bucket;
    }

    /** rehash: the same elements in the ideal number of buckets, or in the old ones if
        there is no memory for that. */
    method Rehash(mallocOk: bool)
      requires Valid()
      modifies this`buckets
      ensures Valid() && Elems() == old(Elems()) && elemCnt == old(elemCnt)
      ensures buckets == old(buckets) || fresh(buckets)
      ensures buckets.Length == if mallocOk then BestBuckets(elemCnt) else old(buckets.Length)
      ensures mallocOk ==> exists k: nat :: buckets.Length == Pow2(k)
      ensures mallocOk ==>
        && buckets.Length >= 4
        && ((buckets.Length == 4 && elemCnt / 2 < 8) || buckets.Length <= elemCnt / 2 < 2 * buckets.Length)
    {
      hide Bag, Placed, Unique, Coherent, BucketOf, Pow2, BestBuckets;
      var newCnt := NewBucketCnt(elemCnt);
      if newCnt == buckets.Length {
        return;
      }
      if !mallocOk {
        return;
      }
      PowersPositive();
      var nb := new seq<E>[newCnt](_ => []);
      EmptyBuckets(hash, nb[..]);
      var i := 0;
      ghost var ob := buckets[..];
      BagNone<E>();
      assert ob[..0] == [];
      while i < buckets.Length
        invariant i <= buckets.Length == |ob| && buckets[..] == ob
        invariant Placed(hash, nb[..]) && Bag(nb[..]) == Bag(ob[..i])
      {
        MoveBucket(nb, buckets[i]);
        BagNext(ob, i);
        i := i + 1;
      }
      assert ob[..i] == ob;
      buckets := nb;
    }

    /** hash_insert: adds e, unless an element that is the same is there, which is
        returned. */
    method Insert(e: E, mallocOk: bool) returns (was: Option<E>)
      requires Valid()
      modifies this, buckets
      ensures Valid() && (buckets == old(buckets) || fresh(buckets))
      ensures was.Some? ==> was.value in old(Elems()) && Same(less, was.value, e) && Elems() == old(Elems())
      ensures was == None ==> (forall x :: x in old(Elems()) ==> !Same(less, x, e)) && Elems() == old(Elems()) + {e}
      ensures mallocOk ==> buckets.Length == BestBuckets(elemCnt)
    {
      hide Valid, Elems, BestBuckets;
      Positive();
      InRange(e);
      was := Find(e);
      if was == None {
        InsertElem(BucketOf(hash, e, buckets.Length), e);
      }
      Rehash(mallocOk);
    }

    /** hash_size counts the set. */
    lemma SizeIsCount()
      requires Valid()
      ensures |Elems()| == elemCnt
    {
      UniqueSize(less, Bag(buckets[..]));
    }

    lemma Positive()
      requires Valid()
      ensures buckets.Length > 0
    {
    }

    /** hash_delete: takes out and returns the element that is the same as e. */
    method Delete(e: E, mallocOk: bool) returns (found: Option<E>)
      requires Valid()
      modifies this, buckets
      ensures Valid() && (buckets == old(buckets) || fresh(buckets))
      ensures found.Some? ==> found.value in old(Elems()) && Same(less, found.value, e) && Elems() == old(Elems()) - {found.value}
      ensures found == None ==> (forall x :: x in old(Elems()) ==> !Same(less, x, e)) && Elems() == old(Elems())
      ensures found.Some? && mallocOk ==> buckets.Length == BestBuckets(elemCnt)
    {
      found := Find(e);
      if found.Some? {
        FoundInBucket(less, hash, buckets[..], e, found.value);
        hide Valid, Elems, BestBuckets;
        RemoveElem(BucketOf(hash, e, buckets.Length), found.value);
        Rehash(mallocOk);
      }
    }

    /** hash_replace: e takes the place of the element that is the same, if any. */
    method Replace(e: E, mallocOk: bool) returns (was: Option<E>)
      requires Valid()
      modifies this, buckets
      ensures Valid() && (buckets == old(buckets) || fresh(buckets))
      ensures was.Some? ==>
        was.value in old(Elems()) && Same(less, was.value, e) && Elems() == old(Elems()) - {was.value} + {e}
      ensures was == None ==> (forall x :: x in old(Elems()) ==> !Same(less, x, e)) && Elems() == old(Elems()) + {e}
      ensures mallocOk ==> buckets.Length == BestBuckets(elemCnt)
    {
      Positive();
      InRange(e);
      was := Find(e);
      var idx := BucketOf(hash, e, buckets.Length);
      if was.Some? {
        FoundInBucket(less, hash, buckets[..], e, was.value);
        OnlyOne(was.value, e);
        hide Valid, Elems, BestBuckets, Same;
        RemoveElem(idx, was.value);
        InsertElem(idx, e);
        Rehash(mallocOk);
      } else {
        hide Valid, Elems, BestBuckets, Same;
        InsertElem(idx, e);
        Rehash(mallocOk);
      }
    }

    lemma OnlyOne(x: E, e: E)
      requires Valid() && x in Elems() && Same(less, x, e)
      ensures forall y :: y in Elems() && y != x ==> !Same(less, y, e)
    {
      forall y | y in Elems() && Same(less, y, e)
        ensures y == x
      {
        assert Same(less, e, x) && Same(less, y, x);
      }
    }
  }

  lemma AndBelow<E>(hash: E -> nat, e: E, cnt: nat)
    requires cnt > 0
    ensures BucketOf(hash, e, cnt) < cnt
  {
    AndBound(hash(e), cnt - 1);
  }

  lemma PowersPositive()
    ensures forall k: nat :: Pow2(k) > 0
  {
    forall k: nat
      ensures Pow2(k) > 0
    {
      PowPositive(k);
    }
  }

  lemma EmptyBuckets<E>(hash: E -> nat, bs: seq<seq<E>>)
    requires |bs| > 0 && forall i :: 0 <= i < |bs| ==> bs[i] == []
    ensures Placed(hash, bs) && Bag(bs) == multiset{}
  {
    BagEmpty(bs);
  }

  lemma BagNone<E>()
    ensures Bag<E>([]) == multiset{}
  {
  }

  lemma BagNext<E>(bs: seq<seq<E>>, i: nat)
    requires i < |bs|
    ensures Bag(bs[..i + 1]) == Bag(bs[..i]) + multiset(bs[i])
  {
    assert bs[..i + 1][..i] == bs[..i];
  }

  lemma {:induction false} UniqueSize<E>(less: (E, E) -> bool, bag: multiset<E>)
    requires Unique(less, bag)
    ensures |set x | x in bag| == |bag|
    decreases |bag|
  {
    if |bag| > 0 {
      var e :| e in bag;
      var rest := bag - multiset{e};
      assert rest + multiset{e} == bag;
      UniqueRemove(less, bag, rest, e);
      UniqueSize(less, rest);
      assert (set x | x in bag) == (set x | x in rest) + {e};
    }
  }

  // ----- Iteration

  /** The elements in the order in which they are visited. */
  ghost function Flat<E>(bs: seq<seq<E>>): seq<E> {
    if bs == [] then [] else Flat(bs[..|bs| - 1]) + bs[|bs| - 1]
  }

  lemma {:induction false} FlatBag<E>(bs: seq<seq<E>>)
    ensures multiset(Flat(bs)) == Bag(bs)
  {
    if bs != [] { FlatBag(bs[..|bs| - 1]); }
  }

  lemma FlatNext<E>(bs: seq<seq<E>>, i: nat)
    requires i < |bs|
    ensures Flat(bs[..i + 1]) == Flat(bs[..i]) + bs[i]
  {
    assert bs[..i + 1][..i] == bs[..i];
  }

  /** struct hash_iterator: the current bucket, and the position of the current
      element in it, which is -1 at the bucket's head. */
  class Iterator<E(==, !new)> {
    const table: Hash<E>
    var bucket: nat
    var pos: int

    /** The table is not empty of buckets, and the iterator points into it. */
    ghost predicate Valid()
      reads this, table, table.buckets
    {
      bucket < table.buckets.Length && -1 <= pos < |table.buckets[bucket]|
    }

    /** What has been returned so far. */
    ghost function Visited(): seq<E>
      requires Valid()
      reads this, table, table.buckets
    {
      Flat(table.buckets[..bucket]) + table.buckets[bucket][..pos + 1]
    }

    /** hash_first */
    constructor (table: Hash<E>)
      requires table.Valid()
      ensures Valid() && this.table == table && Visited() == []
    {
      table.Positive();
      this.table := table;
      bucket, pos := 0, -1;
      new;
      assert table.buckets[..0] == [];
    }

    /** hash_next: visits one more element of the table, or has visited them all. */
    method Next() returns (r: Option<E>)
      requires Valid()
      modifies this
      ensures r.Some? ==> Valid() && Visited() == old(Visited()) + [r.value]
      ensures r == None ==> old(Visited()) == Flat(table.buckets[..])
    {
      hide Flat;
      ghost var seen := Visited();
      ghost var bs := table.buckets[..];
      pos := pos + 1;
      assert bs[..bucket] == table.buckets[..bucket];
      while pos == |table.buckets[bucket]|
        invariant bucket < table.buckets.Length && 0 <= pos <= |table.buckets[bucket]|
        invariant seen == Flat(bs[..bucket]) + bs[bucket][..pos]
        decreases table.buckets.Length - bucket
      {
        FlatNext(bs, bucket);
        assert bs[bucket][..pos] == bs[bucket];
        bucket := bucket + 1;
        if bucket >= table.buckets.Length {
          assert bs[..bucket] == bs;
          return None;
        }
        pos := 0;
        assert bs[bucket][..0] == [];
      }
      r := Some(table.buckets[bucket][pos]);
      assert bs[bucket][..pos + 1] == bs[bucket][..pos] + [bs[bucket][pos]];
      assert table.buckets[..bucket] == bs[..bucket];
    }
  }

  /** Stepping through the whole table visits every element exactly once. */
  lemma VisitsAll<E(!new)>(h: Hash<E>)
    requires h.Valid()
    ensures multiset(Flat(h.buckets[..])) == Bag(h.buckets[..]) && |Flat(h.buckets[..])| == h.elemCnt
    ensures forall i, j :: 0 <= i < j < |Flat(h.buckets[..])| ==> Flat(h.buckets[..])[i] != Flat(h.buckets[..])[j]
  {
    var flat := Flat(h.buckets[..]);
    FlatBag(h.buckets[..]);
    assert |multiset(flat)| == |flat|;
    forall i, j | 0 <= i < j < |flat|
      ensures flat[i] != flat[j]
    {
      assert flat == flat[..i] + [flat[i]] + flat[i + 1..];
      assert flat[j] in flat[i + 1..];
      assert flat[i] in multiset(flat);
    }
  }
}
