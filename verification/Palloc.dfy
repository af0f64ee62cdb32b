/** The page allocator: two pools of pages, each with a bitmap of the pages in use. */
module Palloc {
  import opened Options
  import opened Bitmaps
  import opened Seqs

  const PGSIZE: nat := 4096
  const PHYS_BASE: nat := 0xc000_0000

  function PgNo(va: nat): nat { va / PGSIZE }

  function PgOfs(va: nat): nat { va % PGSIZE }

  /** cnt pages that were handed out together, as indexes into their pool. */
  datatype Run = Run(start: nat, cnt: nat)

  predicate Covers(r: Run, i: nat) {
    r.start <= i < r.start + r.cnt
  }

  predicate Apart(r: Run, q: Run) {
    r.start + r.cnt <= q.start || q.start + q.cnt <= r.start
  }

  /** The runs are in bounds and pairwise disjoint. */
  ghost predicate RunsOk(live: set<Run>, n: nat) {
    && (forall r :: r in live ==> 0 < r.cnt && r.start + r.cnt <= n)
    && (forall r, q :: r in live && q in live && r != q ==> Apart(r, q))
  }

  ghost predicate Covered(live: set<Run>, i: nat) {
    exists r :: r in live && Covers(r, i)
  }

  /** The cnt pages from i on are all free. */
  ghost predicate FreeRun(live: set<Run>, i: nat, cnt: nat) {
    forall k :: i <= k < i + cnt ==> !Covered(live, k)
  }

  /** The bitmap marks exactly the pages of the live runs. */
  ghost predicate MarksUnion(live: set<Run>, s: seq<bool>) {
    forall i :: 0 <= i < |s| ==> (s[i] <==> Covered(live, i))
  }

  lemma AddRun(live: set<Run>, s: seq<bool>, r: Run)
    requires RunsOk(live, |s|) && MarksUnion(live, s)
    requires 0 < r.cnt && r.start + r.cnt <= |s| && AllAre(s, r.start, r.cnt, false)
    ensures r !in live
    ensures RunsOk(live + {r}, |s|) && MarksUnion(live + {r}, Filled(s, r.start, r.cnt, true))
  {
    forall q | q in live
      ensures Apart(q, r)
    {
      var i := if q.start < r.start then r.start else q.start;
      assert Covers(q, i) ==> Covered(live, i);
    }
    forall i | 0 <= i < |s|
      ensures Filled(s, r.start, r.cnt, true)[i] <==> Covered(live + {r}, i)
    {
      if Covers(r, i) {
        assert r in live + {r} && Covers(r, i);
      } else if Covered(live, i) {
        var q :| q in live && Covers(q, i);
        assert q in live + {r} && Covers(q, i);
      }
    }
  }

  /** All pages of r are in use. */
  ghost predicate AllCovered(live: set<Run>, r: Run) {
    forall i :: Covers(r, i) ==> Covered(live, i)
  }

  /** What is left of a run when the pages of cut are taken away. */
  function Pieces(r: Run, cut: Run): set<Run> {
    var end, cutEnd := r.start + r.cnt, cut.start + cut.cnt;
    (if r.start < cut.start then {Run(r.start, (if end < cut.start then end else cut.start) - r.start)} else {}) +
    (if cutEnd < end then var s := if r.start < cutEnd then cutEnd else r.start; {Run(s, end - s)} else {})
  }

  ghost function CutRuns(live: set<Run>, cut: Run): set<Run> {
    set r, q | r in live && q in Pieces(r, cut) :: q
  }

  lemma PiecesIn(r: Run, cut: Run, q: Run)
    requires 0 < r.cnt && 0 < cut.cnt && q in Pieces(r, cut)
    ensures 0 < q.cnt && r.start <= q.start && q.start + q.cnt <= r.start + r.cnt
    ensures forall i :: Covers(q, i) ==> Covers(r, i) && !Covers(cut, i)
    ensures forall p :: p in Pieces(r, cut) && p != q ==> Apart(p, q)
  {
  }

  lemma PiecesCover(r: Run, cut: Run, i: nat)
    requires 0 < r.cnt && 0 < cut.cnt && Covers(r, i) && !Covers(cut, i)
    ensures exists q :: q in Pieces(r, cut) && Covers(q, i)
  {
    var end, cutEnd := r.start + r.cnt, cut.start + cut.cnt;
    if i < cut.start {
      var q := Run(r.start, (if end < cut.start then end else cut.start) - r.start);
      assert q in Pieces(r, cut) && Covers(q, i);
    } else {
      var s := if r.start < cutEnd then cutEnd else r.start;
      var q := Run(s, end - s);
      assert q in Pieces(r, cut) && Covers(q, i);
    }
  }

  /** Pages that are in use can be taken away, whether they were handed out together or
      not; the bitmap stays the union of what is left. */
  lemma RemoveRun(live: set<Run>, s: seq<bool>, cut: Run)
    requires RunsOk(live, |s|) && MarksUnion(live, s) && 0 < cut.cnt && cut.start + cut.cnt <= |s| && AllCovered(live, cut)
    ensures AllAre(s, cut.start, cut.cnt, true)
    ensures RunsOk(CutRuns(live, cut), |s|) && MarksUnion(CutRuns(live, cut), Filled(s, cut.start, cut.cnt, false))
  {
    hide Pieces;
    var rest := CutRuns(live, cut);
    assert forall i | cut.start <= i < cut.start + cut.cnt :: Covers(cut, i);
    forall q | q in rest
      ensures 0 < q.cnt && q.start + q.cnt <= |s|
    {
      var r :| r in live && q in Pieces(r, cut);
      PiecesIn(r, cut, q);
    }
    forall p, q | p in rest && q in rest && p != q
      ensures Apart(p, q)
    {
      PiecesApart(live, |s|, cut, p, q);
    }
    forall i: nat | i < |s|
      ensures Filled(s, cut.start, cut.cnt, false)[i] <==> Covered(rest, i)
    {
      CutCovers(live, |s|, cut, i);
    }
  }

  lemma PiecesApart(live: set<Run>, n: nat, cut: Run, p: Run, q: Run)
    requires RunsOk(live, n) && 0 < cut.cnt && p in CutRuns(live, cut) && q in CutRuns(live, cut) && p != q
    ensures Apart(p, q)
  {
    hide Pieces;
    var r :| r in live && p in Pieces(r, cut);
    var t :| t in live && q in Pieces(t, cut);
    PiecesIn(r, cut, p);
    PiecesIn(t, cut, q);
    if r != t { assert Apart(r, t); }
  }

  lemma CutCovers(live: set<Run>, n: nat, cut: Run, i: nat)
    requires RunsOk(live, n) && 0 < cut.cnt
    ensures Covered(CutRuns(live, cut), i) <==> Covered(live, i) && !Covers(cut, i)
  {
    hide Pieces;
    if Covered(live, i) && !Covers(cut, i) {
      var r :| r in live && Covers(r, i);
      PiecesCover(r, cut, i);
      var q :| q in Pieces(r, cut) && Covers(q, i);
      assert q in CutRuns(live, cut);
    }
    if Covered(CutRuns(live, cut), i) {
      var q :| q in CutRuns(live, cut) && Covers(q, i);
      var r :| r in live && q in Pieces(r, cut);
      PiecesIn(r, cut, q);
    }
  }

  /** Taking away a run that was handed out leaves the other runs. */
  lemma CutWhole(live: set<Run>, n: nat, run: Run)
    requires RunsOk(live, n) && run in live
    ensures 0 < run.cnt && run.start + run.cnt <= n && AllCovered(live, run)
    ensures CutRuns(live, run) == live - {run}
  {
    forall i | Covers(run, i) ensures Covered(live, i) {
    }
    assert Pieces(run, run) == {};
    forall r | r in live && r != run ensures Pieces(r, run) == {r} {
      assert Apart(r, run);
    }
    assert forall r | r in live - {run} :: r in Pieces(r, run);
  }

  // ----- The free pages, in the order in which they are handed out one by one

  ghost function FreeFrom(used: seq<bool>, base: nat, i: nat): seq<nat>
    decreases |used| - i
  {
    if i >= |used| then []
    else (if used[i] then [] else [base + PGSIZE * i]) + FreeFrom(used, base, i + 1)
  }

  lemma {:induction false} FreeHas(used: seq<bool>, base: nat, i: nat, j: nat)
    requires i <= j < |used| && !used[j]
    ensures base + PGSIZE * j in FreeFrom(used, base, i)
    decreases j - i
  {
    if i < j { FreeHas(used, base, i + 1, j); }
  }

  lemma {:induction false} FreeIs(used: seq<bool>, base: nat, i: nat, x: nat) returns (j: nat)
    requires x in FreeFrom(used, base, i)
    ensures i <= j < |used| && !used[j] && x == base + PGSIZE * j
    decreases |used| - i
  {
    if !used[i] && x == base + PGSIZE * i { j := i; } else { j := FreeIs(used, base, i + 1, x); }
  }

  /** A page is on offer exactly if it is free. */
  lemma FreeIff(used: seq<bool>, base: nat, k: nat)
    requires k < |used|
    ensures base + PGSIZE * k in FreeFrom(used, base, 0) <==> !used[k]
  {
    hide FreeFrom;
    if !used[k] {
      FreeHas(used, base, 0, k);
    } else if base + PGSIZE * k in FreeFrom(used, base, 0) {
      var j := FreeIs(used, base, 0, base + PGSIZE * k);
      assert false;
    }
  }

  lemma {:induction false} FreeNoDup(used: seq<bool>, base: nat, i: nat)
    ensures NoDup(FreeFrom(used, base, i))
    decreases |used| - i
  {
    if i < |used| {
      FreeNoDup(used, base, i + 1);
      if !used[i] {
        var rest := FreeFrom(used, base, i + 1);
        if base + PGSIZE * i in rest {
          var j := FreeIs(used, base, i + 1, base + PGSIZE * i);
          assert false;
        }
        assert ([base + PGSIZE * i] + rest)[1..] == rest;
      } else {
        assert FreeFrom(used, base, i) == FreeFrom(used, base, i + 1);
      }
    }
  }

  /** The first free page is handed out: the others follow in the same order. */
  lemma {:induction false} FreePop(used: seq<bool>, base: nat, i: nat, k: nat)
    requires i <= k < |used| && !used[k] && forall j :: i <= j < k ==> used[j]
    ensures FreeFrom(used, base, i) == [base + PGSIZE * k] + FreeFrom(Filled(used, k, 1, true), base, i)
    decreases |used| - i
  {
    var used' := Filled(used, k, 1, true);
    if i < k {
      FreePop(used, base, i + 1, k);
    } else {
      FreeSame(used, used', base, k + 1);
    }
  }

  lemma {:induction false} FreeSame(used: seq<bool>, used': seq<bool>, base: nat, i: nat)
    requires |used'| == |used| && forall j :: i <= j < |used| ==> used'[j] == used[j]
    ensures FreeFrom(used', base, i) == FreeFrom(used, base, i)
    decreases |used| - i
  {
    hide FreeFrom;
    FreeUnfold(used, base, i);
    FreeUnfold(used', base, i);
    if i < |used| { FreeSame(used, used', base, i + 1); }
  }

  lemma FreeUnfold(used: seq<bool>, base: nat, i: nat)
    ensures i >= |used| ==> FreeFrom(used, base, i) == []
    ensures i < |used| ==>
      FreeFrom(used, base, i) == (if used[i] then [] else [base + PGSIZE * i]) + FreeFrom(used, base, i + 1)
  {
  }

  lemma {:induction false} FreeHead(used: seq<bool>, base: nat, i: nat)
    ensures FreeFrom(used, base, i) == [] <==> forall j :: i <= j < |used| ==> used[j]
    decreases |used| - i
  {
    if i < |used| { FreeHead(used, base, i + 1); }
  }

  lemma FilledBack(used: seq<bool>, k: nat)
    requires k < |used| && used[k]
    ensures Filled(Filled(used, k, 1, false), k, 1, true) == used
  {
  }

  class Pool {
    const base: nat
    const usedMap: Bitmap
    ghost var live: set<Run>

    ghost predicate Valid()
      reads this, usedMap, usedMap.bits
    {
      && usedMap.Valid()
      && base % PGSIZE == 0
      && RunsOk(live, usedMap.bitCnt)
      && MarksUnion(live, usedMap.Contents())
    }

    /** The pages that Get(1) would return, one after the other. */
    ghost function FreePages(): seq<nat>
      requires usedMap.Valid()
      reads this, usedMap, usedMap.bits
    {
      FreeFrom(usedMap.Contents(), base, 0)
    }

    ghost predicate HasPage(x: nat) {
      exists j :: 0 <= j < usedMap.bitCnt && x == base + PGSIZE * j
    }

    /** init_pool, once the space for the bitmap is known to fit. */
    constructor (base: nat, pageCnt: nat)
      requires base % PGSIZE == 0 && BmPages(pageCnt) <= pageCnt
      ensures Valid() && live == {} && fresh(usedMap) && fresh(usedMap.bits)
      ensures this.base == base + BmPages(pageCnt) * PGSIZE
      ensures usedMap.bitCnt == pageCnt - BmPages(pageCnt)
    {
      BitmapFits(pageCnt);
      var bm := new Bitmap(pageCnt - BmPages(pageCnt));
      this.base := base + BmPages(pageCnt) * PGSIZE;
      usedMap := bm;
      live := {};
    }

    /** Takes the first group of free pages that is long enough; fails only if
        there is none. */
    method Get(pageCnt: nat) returns (r: Option<nat>)
      requires Valid() && pageCnt > 0
      modifies this, usedMap.bits
      ensures Valid()
      ensures r.Some? ==>
        && Run(r.value, pageCnt) !in old(live) && live == old(live) + {Run(r.value, pageCnt)}
        && r.value + pageCnt <= usedMap.bitCnt
        && (forall q :: q in old(live) ==> Apart(q, Run(r.value, pageCnt)))
      ensures r.Some? ==>
        && AllAre(old(usedMap.Contents()), r.value, pageCnt, false)
        && usedMap.Contents() == Filled(old(usedMap.Contents()), r.value, pageCnt, true)
      ensures r == None ==> live == old(live) && usedMap.Contents() == old(usedMap.Contents())
      ensures forall i :: 0 <= i && i + pageCnt <= usedMap.bitCnt && (r.Some? ==> i < r.value)
                ==> !AllAre(old(usedMap.Contents()), i, pageCnt, false)
      ensures forall i :: 0 <= i && i + pageCnt <= usedMap.bitCnt && (r.Some? ==> i < r.value)
                ==> !FreeRun(old(live), i, pageCnt)
    {
      ghost var s := usedMap.Contents();
      r := usedMap.ScanAndFlip(0, pageCnt, false);
      forall i | 0 <= i && i + pageCnt <= usedMap.bitCnt && (r.Some? ==> i < r.value)
        ensures !FreeRun(old(live), i, pageCnt)
      {
        assert !AllAre(s, i, pageCnt, false);
        var k :| i <= k < i + pageCnt && s[k];
        assert Covered(old(live), k);
      }
      if r.Some? {
        AddRun(live, s, Run(r.value, pageCnt));
        live := live + {Run(r.value, pageCnt)};
      }
    }

    /** Pages that are in use, which palloc_free_multiple asserts, become free. */
    method Free(cut: Run)
      requires Valid() && 0 < cut.cnt && cut.start + cut.cnt <= usedMap.bitCnt && AllCovered(live, cut)
      modifies this, usedMap.bits
      ensures Valid() && live == CutRuns(old(live), cut)
      ensures usedMap.Contents() == Filled(old(usedMap.Contents()), cut.start, cut.cnt, false)
    {
      hide CutRuns, AllCovered, RunsOk, MarksUnion;
      RemoveRun(live, usedMap.Contents(), cut);
      var unused := usedMap.Contains(cut.start, cut.cnt, false);
      assert !unused;
      usedMap.SetMultiple(cut.start, cut.cnt, false);
      live := CutRuns(live, cut);
    }

    /** The run of cnt pages at an address. */
    function RunAt(pages: nat, cnt: nat): Run
      requires pages >= base
    {
      Run((pages - base) / PGSIZE, cnt)
    }

    lemma RunAtAddress(idx: nat, cnt: nat)
      requires Valid()
      ensures PgOfs(base + PGSIZE * idx) == 0 && RunAt(base + PGSIZE * idx, cnt) == Run(idx, cnt)
    {
    }

    /** The cnt pages at an address are pages of this pool that are all in use. */
    ghost predicate InUse(pages: nat, cnt: nat)
      reads this
    {
      && pages >= base && PgOfs(pages) == 0 && 0 < cnt
      && RunAt(pages, cnt).start + cnt <= usedMap.bitCnt && AllCovered(live, RunAt(pages, cnt))
    }

    lemma InUseOne(k: nat)
      requires Valid() && k < usedMap.bitCnt && usedMap.Contents()[k]
      ensures InUse(base + PGSIZE * k, 1) && RunAt(base + PGSIZE * k, 1) == Run(k, 1)
    {
      hide RunsOk;
      RunAtAddress(k, 1);
    }

    lemma LiveFromPool(pages: nat, cnt: nat)
      requires Valid() && InUse(pages, cnt)
      ensures FromPool(pages) && Run(PgNo(pages) - PgNo(base), cnt) == RunAt(pages, cnt)
    {
      hide AllCovered, RunsOk, MarksUnion;
    }

    /** page_from_pool */
    predicate FromPool(page: nat) {
      PgNo(base) <= PgNo(page) < PgNo(base) + usedMap.bitCnt
    }
  }

  /** The pages a bitmap for pageCnt pages takes up. */
  function BmPages(pageCnt: nat): nat {
    (BufSize(pageCnt) + PGSIZE - 1) / PGSIZE
  }

  /** The bitmap of the pages that remain fits into the pages set aside for it. */
  lemma BitmapFits(pageCnt: nat)
    requires BmPages(pageCnt) <= pageCnt
    ensures BufSize(pageCnt - BmPages(pageCnt)) <= BmPages(pageCnt) * PGSIZE
  {
    assert ElemCnt(pageCnt - BmPages(pageCnt)) <= ElemCnt(pageCnt);
  }

  /** ... and no fewer would hold the bitmap of all of them: a header of eight bytes and a
      word for every 32 bits. */
  lemma BmPagesLeast(pageCnt: nat)
    ensures 4096 * BmPages(pageCnt) - 4096 < 8 + 4 * ((pageCnt + 31) / 32) <= 4096 * BmPages(pageCnt)
  {
  }

  class Allocator {
    const kernelPool: Pool
    const userPool: Pool

    ghost predicate Valid()
      reads this, kernelPool, kernelPool.usedMap, kernelPool.usedMap.bits
      reads userPool, userPool.usedMap, userPool.usedMap.bits
    {
      && kernelPool != userPool && kernelPool.usedMap.bits != userPool.usedMap.bits
      && kernelPool.Valid() && userPool.Valid()
      && PgNo(kernelPool.base) + kernelPool.usedMap.bitCnt <= PgNo(userPool.base)
      && kernelPool.base >= PHYS_BASE && PgNo(userPool.base) + userPool.usedMap.bitCnt <= 0x10_0000
    }

    constructor Create(kernelPool: Pool, userPool: Pool)
      ensures this.kernelPool == kernelPool && this.userPool == userPool
    {
      this.kernelPool, this.userPool := kernelPool, userPool;
    }

    function PoolOf(user: bool): Pool {
      if user then userPool else kernelPool
    }

    /** No page belongs to both pools. */
    lemma OnePool(page: nat)
      requires Valid()
      ensures !(kernelPool.FromPool(page) && userPool.FromPool(page))
    {
    }

    /** palloc_get_multiple; None for a null pointer. */
    method GetMultiple(user: bool, pageCnt: nat) returns (pages: Option<nat>)
      requires Valid()
      modifies PoolOf(user), PoolOf(user).usedMap.bits
      ensures Valid()
      ensures var pool := PoolOf(user);
        if pages == None then
          && pool.live == old(pool.live)
          && (pageCnt > 0 ==> forall i :: 0 <= i && i + pageCnt <= pool.usedMap.bitCnt ==>
                !FreeRun(pool.live, i, pageCnt))
        else
          && pageCnt > 0 && pages.value >= pool.base > 0 && PgOfs(pages.value) == 0
          && pool.RunAt(pages.value, pageCnt) !in old(pool.live)
          && pool.live == old(pool.live) + {pool.RunAt(pages.value, pageCnt)}
          && forall i :: 0 <= i < (pages.value - pool.base) / PGSIZE ==> !FreeRun(old(pool.live), i, pageCnt)
    {
      if pageCnt == 0 {
        return None;
      }
      var pool := PoolOf(user);
      var idx := pool.Get(pageCnt);
      if idx.Some? {
        pages := Some(pool.base + PGSIZE * idx.value);
        pool.RunAtAddress(idx.value, pageCnt);
      } else {
        pages := None;
      }
    }

    /** palloc_get_page: the first of the free pages. */
    method GetPage(user: bool) returns (page: Option<nat>)
      requires Valid()
      modifies PoolOf(user), PoolOf(user).usedMap.bits
      ensures Valid()
      ensures var free := old(PoolOf(user).FreePages());
        && page == (if free == [] then None else Some(free[0]))
        && PoolOf(user).FreePages() == if free == [] then [] else free[1..]
      ensures page.Some? ==> PoolOf(user).HasPage(page.value)
      ensures page.Some? ==> forall x | x in PoolOf(user).FreePages() :: page.value < x
      ensures PoolOf(!user).FreePages() == old(PoolOf(!user).FreePages())
    {
      hide RunsOk, MarksUnion, Filled, AllAre, FreeFrom, FreeRun;
      var pool := PoolOf(user);
      ghost var used := pool.usedMap.Contents();
      FreeHead(used, pool.base, 0);
      var idx := pool.Get(1);
      forall j: nat | j < |used| ensures AllAre(used, j, 1, false) <==> !used[j] {
        NotOne(used, j);
      }
      page := None;
      if idx.Some? {
        FreePop(used, pool.base, 0, idx.value);
        page := Some(pool.base + PGSIZE * idx.value);
        FilledAt(used, idx.value, true);
        forall x | x in pool.FreePages() ensures page.value < x {
          var j := FreeIs(pool.usedMap.Contents(), pool.base, 0, x);
        }
      }
    }

    /** palloc_free_page of a page that is in use. */
    method FreePage(page: nat, ghost user: bool)
      requires Valid() && PoolOf(user).HasPage(page) && page !in PoolOf(user).FreePages()
      modifies PoolOf(user), PoolOf(user).usedMap.bits
      ensures Valid()
      ensures forall x: nat :: x in PoolOf(user).FreePages() <==> x in old(PoolOf(user).FreePages()) || x == page
      ensures (forall x | x in old(PoolOf(user).FreePages()) :: page < x) ==>
        PoolOf(user).FreePages() == [page] + old(PoolOf(user).FreePages())
      ensures PoolOf(!user).FreePages() == old(PoolOf(!user).FreePages())
    {
      hide RunsOk, MarksUnion, AllCovered, Filled, CutRuns, FreeFrom;
      ghost var pool := PoolOf(user);
      ghost var used := pool.usedMap.Contents();
      ghost var k :| 0 <= k < pool.usedMap.bitCnt && page == pool.base + PGSIZE * k;
      FreeIff(used, pool.base, k);
      pool.InUseOne(k);
      FreeMultiple(page, 1, user);
      FilledAt(used, k, false);
      FreedPages(used, pool.base, k);
    }

    /** palloc_free_multiple of pages that are in use.  The pool they came from is found
        from their address. */
    method FreeMultiple(pages: nat, pageCnt: nat, ghost user: bool)
      requires Valid()
      requires pages != 0 && pageCnt != 0 ==> PoolOf(user).InUse(pages, pageCnt)
      modifies PoolOf(user), PoolOf(user).usedMap.bits
      ensures Valid()
      ensures pages == 0 || pageCnt == 0 ==> PoolOf(user).live == old(PoolOf(user).live)
      ensures pages != 0 && pageCnt != 0 ==>
        var pool := PoolOf(user);
        && pool.live == CutRuns(old(pool.live), pool.RunAt(pages, pageCnt))
        && pool.usedMap.Contents()
           == Filled(old(pool.usedMap.Contents()), pool.RunAt(pages, pageCnt).start, pageCnt, false)
    {
      hide CutRuns, AllCovered, RunsOk, MarksUnion;
      if pages == 0 || pageCnt == 0 {
        return;
      }
      PoolOf(user).LiveFromPool(pages, pageCnt);
      OnePool(pages);
      var pool := if kernelPool.FromPool(pages) then kernelPool else userPool;
      pool.Free(Run(PgNo(pages) - PgNo(pool.base), pageCnt));
    }
  }

  lemma FilledAt(used: seq<bool>, k: nat, v: bool)
    requires k < |used|
    ensures forall j :: 0 <= j < |used| ==> Filled(used, k, 1, v)[j] == if j == k then v else used[j]
  {
  }

  lemma FreedPages(used: seq<bool>, base: nat, k: nat)
    requires k < |used| && used[k]
    ensures var used' := Filled(used, k, 1, false);
      && (forall x: nat :: x in FreeFrom(used', base, 0) <==> x in FreeFrom(used, base, 0) || x == base + PGSIZE * k)
      && ((forall x | x in FreeFrom(used, base, 0) :: base + PGSIZE * k < x) ==>
            FreeFrom(used', base, 0) == [base + PGSIZE * k] + FreeFrom(used, base, 0))
  {
    hide FreeFrom;
    var used' := Filled(used, k, 1, false);
    forall x: nat
      ensures x in FreeFrom(used', base, 0) <==> x in FreeFrom(used, base, 0) || x == base + PGSIZE * k
    {
      if x in FreeFrom(used', base, 0) {
        var j := FreeIs(used', base, 0, x);
        if j != k { FreeHas(used, base, 0, j); }
      }
      if x in FreeFrom(used, base, 0) {
        var j := FreeIs(used, base, 0, x);
        FreeHas(used', base, 0, j);
      }
      if x == base + PGSIZE * k { FreeHas(used', base, 0, k); }
    }
    if forall x | x in FreeFrom(used, base, 0) :: base + PGSIZE * k < x {
      forall j | 0 <= j < k ensures used[j] {
        if !used[j] { FreeHas(used, base, 0, j); }
      }
      FilledBack(used, k);
      FreePop(used', base, 0, k);
    }
  }

  lemma NotOne(used: seq<bool>, j: nat)
    requires j < |used|
    ensures AllAre(used, j, 1, false) <==> !used[j]
  {
  }

  lemma PageArithmetic(base: nat, n: nat)
    requires base % PGSIZE == 0
    ensures (base + n * PGSIZE) % PGSIZE == 0 && PgNo(base + n * PGSIZE) == PgNo(base) + n
  {
  }

  /** palloc_init: splits the free memory, which starts at 1 MB, into two pools.  None
      for a panic, when a pool is too small to hold its own bitmap. */
  method Init(userPageLimit: nat, initRamPages: nat) returns (a: Allocator?)
    requires 256 <= initRamPages && initRamPages * PGSIZE <= 0x4000_0000
    ensures var free := initRamPages - 256;
      var user := if free / 2 > userPageLimit then userPageLimit else free / 2;
      a == null <==> BmPages(free - user) > free - user || BmPages(user) > user
    ensures a != null ==> fresh(a) && a.Valid() && a.kernelPool.live == {} && a.userPool.live == {}
    ensures a != null ==>
      var free := initRamPages - 256;
      var user := if free / 2 > userPageLimit then userPageLimit else free / 2;
      && a.kernelPool.usedMap.bitCnt == free - user - BmPages(free - user)
      && a.userPool.usedMap.bitCnt == user - BmPages(user)
      && PgNo(a.kernelPool.base) == PgNo(PHYS_BASE) + 256 + BmPages(free - user)
      && PgNo(a.userPool.base) == PgNo(PHYS_BASE) + 256 + (free - user) + BmPages(user)
  {
    hide BmPages, Bitmap.Valid, MarksUnion, RunsOk;
    var freeStart := PHYS_BASE + 1024 * 1024;
    var freeEnd := PHYS_BASE + initRamPages * PGSIZE;
    var freePages := (freeEnd - freeStart) / PGSIZE;
    assert freePages == initRamPages - 256;
    var userPages := freePages / 2;
    if userPages > userPageLimit {
      userPages := userPageLimit;
    }
    var kernelPages := freePages - userPages;
    if BmPages(kernelPages) > kernelPages || BmPages(userPages) > userPages {
      return null;
    }
    BmPositive(kernelPages);
    PageArithmetic(freeStart, kernelPages);
    PageArithmetic(freeStart, BmPages(kernelPages));
    PageArithmetic(freeStart + kernelPages * PGSIZE, BmPages(userPages));
    var kernelPool := new Pool(freeStart, kernelPages);
    var userPool := new Pool(freeStart + kernelPages * PGSIZE, userPages);
    a := new Allocator.Create(kernelPool, userPool);
  }

  /** With a user page limit of zero there is never room for the user pool's bitmap. */
  lemma NoUserPool()
    ensures BmPages(0) > 0
  {
  }

  lemma BmPositive(pageCnt: nat)
    ensures BmPages(pageCnt) > 0
  {
  }
}
