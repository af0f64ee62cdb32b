/** malloc, calloc and free on top of the page allocator. */
module Malloc {
  import opened Integers
  import opened Options
  import opened Seqs
  import opened Palloc
  import opened MallocBlocks
  import opened MallocInvariant

  const SIZE_MOD: nat := 0x1_0000_0000    // size_t has 32 bits

  /** The page count malloc computes for a big block, in size_t arithmetic. */
  function PageCnt(size: nat): nat {
    ((size + ARENA_SIZE + PGSIZE - 1) % SIZE_MOD) / PGSIZE
  }

  /** The product calloc allocates, in size_t arithmetic. */
  function CallocSize(a: nat, b: nat): nat {
    (a * b) % SIZE_MOD
  }

  /** The pages hold the block and its arena header, unless the sum wraps around. */
  lemma PageCntFits(size: nat)
    requires size < SIZE_MOD && PageCnt(size) > 0
    ensures PageCnt(size) * PGSIZE - ARENA_SIZE >= size <==> size < SIZE_MOD - (ARENA_SIZE - 1)
    ensures PageCnt(size) * PGSIZE < SIZE_MOD
  {
  }

  /** No fewer pages would hold the block and its header; for the sizes whose sum wraps
      around it is no page at all, or for the very largest a single one. */
  lemma PageCntLeast(size: nat)
    requires 0 < size < SIZE_MOD
    ensures size < SIZE_MOD - (ARENA_SIZE + PGSIZE - 1) ==>
      size + ARENA_SIZE <= PageCnt(size) * PGSIZE < size + ARENA_SIZE + PGSIZE
    ensures SIZE_MOD - (ARENA_SIZE + PGSIZE - 1) <= size < SIZE_MOD - (ARENA_SIZE - 1) ==> PageCnt(size) == 0
    ensures size >= SIZE_MOD - (ARENA_SIZE - 1) ==> PageCnt(size) == 1
  {
  }

  /** For the largest sizes the sum wraps around: the block has one page. */
  lemma PageCntWraps()
    ensures PageCnt(0xffff_ffff) == 1 && PageCnt(0xffff_ffff) * PGSIZE - ARENA_SIZE < 0xffff_ffff
  {
  }

  /** malloc_init's descriptors. */
  method InitDescs() returns (sizes: seq<nat>)
    ensures sizes == SIZES
  {
    sizes := [];
    var blockSize := 16;
    while blockSize < PGSIZE / 2
      invariant |sizes| <= 7 && sizes == SIZES[..|sizes|]
      invariant blockSize == if |sizes| < 7 then SIZES[|sizes|] else 2048
    {
      sizes := sizes + [blockSize];
      blockSize := blockSize * 2;
    }
  }

  /** d is the smallest class whose blocks hold size bytes. */
  predicate Serves(d: nat, size: nat)
    requires d < 7
  {
    0 < size <= SIZES[d] && (d > 0 ==> SIZES[d - 1] < size)
  }

  /** The smallest descriptor whose blocks are big enough. */
  method FindDesc(size: nat) returns (d: nat)
    ensures d <= 7
    ensures d < 7 ==> SIZES[d] >= size
    ensures forall e :: 0 <= e < d ==> SIZES[e] < size
    ensures size > 0 ==> forall e :: 0 <= e < 7 ==> (Serves(e, size) <==> e == d)
    ensures d < 7 ==> forall z :: z in SIZES && z >= size ==> SIZES[d] <= z
    ensures d == 7 ==> size > 1024
  {
    d := 0;
    while d < 7
      invariant d <= 7 && forall e :: 0 <= e < d ==> SIZES[e] < size
    {
      if SIZES[d] >= size {
        break;
      }
      d := d + 1;
    }
    assert d == 7 ==> SIZES[6] < size;
  }

  /** Every arena is a run of pages that the page allocator has handed out. */
  ghost predicate PoolOk(arenas: map<nat, Arena>, base: nat, runs: set<Run>) {
    forall a :: a in arenas ==> a >= base && Pages(arenas[a]) > 0 && Run((a - base) / PGSIZE, Pages(arenas[a])) in runs
  }

  lemma FreshPage(arenas: map<nat, Arena>, base: nat, runs: set<Run>, runs': set<Run>, n: nat, a: nat, cnt: nat)
    requires PoolOk(arenas, base, runs) && RunsOk(runs', n) && a >= base && cnt > 0
    requires Run((a - base) / PGSIZE, cnt) !in runs && runs' == runs + {Run((a - base) / PGSIZE, cnt)}
    ensures a !in arenas
  {
    var r := Run((a - base) / PGSIZE, cnt);
    assert forall q :: q in runs ==> q in runs' && Apart(r, q);
  }

  /** A page run just handed out becomes an arena. */
  lemma PoolAdd(arenas: map<nat, Arena>, base: nat, runs: set<Run>, runs': set<Run>, n: nat, a: nat, arena: Arena)
    requires PoolOk(arenas, base, runs) && RunsOk(runs', n) && a >= base && Pages(arena) > 0
    requires Run((a - base) / PGSIZE, Pages(arena)) !in runs
    requires runs' == runs + {Run((a - base) / PGSIZE, Pages(arena))}
    ensures a !in arenas && PoolOk(arenas[a := arena], base, runs')
  {
    FreshPage(arenas, base, runs, runs', n, a, Pages(arena));
  }

  /** Giving an arena's pages back leaves the other arenas theirs. */
  lemma PoolDrop(arenas: map<nat, Arena>, base: nat, runs: set<Run>, a: nat)
    requires PoolOk(arenas, base, runs) && a in arenas && base % PGSIZE == 0
    requires forall b :: b in arenas ==> PgOfs(b) == 0
    ensures PoolOk(arenas - {a}, base, runs - {Run((a - base) / PGSIZE, Pages(arenas[a]))})
  {
    forall b | b in arenas && b != a
      ensures (b - base) / PGSIZE != (a - base) / PGSIZE
    {
    }
  }

  lemma BigAddress(a: nat)
    requires PgOfs(a) == 0
    ensures ArenaOf(a + ARENA_SIZE) == a && PgOfs(a + ARENA_SIZE) == ARENA_SIZE
  {
  }

  class Heap {
    const palloc: Allocator
    var free: FreeLists
    var arenas: map<nat, Arena>
    ghost var live: set<nat>

    ghost function Repr(): set<object>
      reads this
    {
      {this, palloc, palloc.kernelPool, palloc.kernelPool.usedMap, palloc.kernelPool.usedMap.bits,
       palloc.userPool, palloc.userPool.usedMap, palloc.userPool.usedMap.bits}
    }

    ghost predicate Valid()
      reads this, Repr()
    {
      && palloc.Valid()
      && HeapOk(free, arenas, live) && UsedOk(arenas, live, None)
      && PoolOk(arenas, palloc.kernelPool.base, palloc.kernelPool.live)
    }

    constructor (palloc: Allocator)
      requires palloc.Valid()
      ensures Valid() && live == {} && this.palloc == palloc
    {
      var sizes := InitDescs();
      this.palloc := palloc;
      free := seq(|sizes|, _ => []);
      arenas := map[];
      live := {};
    }

    /** block_size: the bytes a live block has room for. */
    function BlockSize(p: nat): nat
      requires ArenaOf(p) in arenas
      reads this
    {
      match arenas[ArenaOf(p)].desc
      case Some(d) => if d < 7 then SIZES[d] else 0
      case None =>
        var bytes := PGSIZE * arenas[ArenaOf(p)].freeCnt;
        if bytes < PgOfs(p) then 0 else bytes - PgOfs(p)
    }

    /** The kernel pool has no n free pages in a row. */
    ghost predicate NoRoom(n: nat)
      reads palloc.kernelPool, palloc.kernelPool.usedMap
    {
      forall i :: 0 <= i && i + n <= palloc.kernelPool.usedMap.bitCnt ==> !FreeRun(palloc.kernelPool.live, i, n)
    }

    /** Adds the blocks of a new page to an empty free list. */
    method DividePage(a: nat, d: nat)
      requires d < 7 && free[d] == []
      modifies this`free
      ensures free == old(free)[d := BlockSeq(a, SIZES[d], BlocksPerArena(SIZES[d]))]
    {
      var i := 0;
      while i < BlocksPerArena(SIZES[d])
        invariant i <= BlocksPerArena(SIZES[d])
        invariant free == old(free)[d := BlockSeq(a, SIZES[d], i)]
      {
        free := free[d := free[d] + [BlockAt(a, i, SIZES[d])]];
        i := i + 1;
      }
    }

    /** The page allocator handed out n pages, at the arena of p, and no others. */
    twostate predicate NewRun(p: nat, n: nat)
      reads palloc.kernelPool
    {
      && ArenaOf(p) >= palloc.kernelPool.base
      && palloc.kernelPool.live
         == old(palloc.kernelPool.live) + {Run((ArenaOf(p) - palloc.kernelPool.base) / PGSIZE, n)}
    }

    method MallocBig(size: nat) returns (p: Option<nat>)
      requires Valid() && size < SIZE_MOD
      modifies this, palloc.kernelPool, palloc.kernelPool.usedMap.bits
      ensures Valid()
      ensures p == None ==> live == old(live) && arenas == old(arenas)
      ensures p == None ==> PageCnt(size) == 0 || NoRoom(PageCnt(size))
      ensures p.Some? ==> p.value !in old(live) && live == old(live) + {p.value}
      ensures p.Some? ==> ArenaOf(p.value) in arenas && PageCnt(size) > 0
      ensures p.Some? ==> BlockSize(p.value) == PageCnt(size) * PGSIZE - ARENA_SIZE
      ensures free == old(free)
      ensures p.Some? ==> ArenaOf(p.value) !in old(arenas) && NewRun(p.value, PageCnt(size))
    {
      hide HeapOk, UsedOk, PoolOk, RunsOk, Allocator.Valid, ArenaOf, PgOfs, PageCnt;
      ghost var pool := palloc.kernelPool;
      ghost var runs := pool.live;
      var pageCnt := PageCnt(size);
      var a := palloc.GetMultiple(false, pageCnt);
      if a == None {
        return None;
      }
      var arena := Arena(None, pageCnt);
      KernelRuns();
      PoolAdd(arenas, pool.base, runs, pool.live, pool.usedMap.bitCnt, a.value, arena);
      AddBig(free, arenas, live, a.value, pageCnt);
      BigAddress(a.value);
      arenas := arenas[a.value := arena];
      live := live + {a.value + ARENA_SIZE};
      p := Some(a.value + ARENA_SIZE);
    }

    lemma KernelRuns()
      requires palloc.Valid()
      ensures RunsOk(palloc.kernelPool.live, palloc.kernelPool.usedMap.bitCnt)
      ensures palloc.kernelPool.base % PGSIZE == 0 && palloc.kernelPool.base > 0
    {
    }
  
    /** A block from a descriptor's free list, after making a new arena if it is
        empty. */
    method MallocSmall(d: nat) returns (p: Option<nat>)
      requires Valid() && d < 7
      modifies this, palloc.kernelPool, palloc.kernelPool.usedMap.bits
      ensures Valid()
      ensures p == None ==> live == old(live) && arenas == old(arenas) && free == old(free) && NoRoom(1)
      ensures p.Some? ==> p.value !in old(live) && live == old(live) + {p.value}
      ensures p.Some? ==> ArenaOf(p.value) in arenas && BlockSize(p.value) == SIZES[d]
      ensures old(free[d]) != [] ==>
        && p == Some(old(free[d][0])) && free == old(free)[d := old(free[d])[1..]]
        && palloc.kernelPool.live == old(palloc.kernelPool.live)
      ensures old(free[d]) == [] && p.Some? ==>
        && ArenaOf(p.value) !in old(arenas) && NewRun(p.value, 1)
        && [p.value] + free[d] == BlockSeq(ArenaOf(p.value), SIZES[d], BlocksPerArena(SIZES[d]))
        && free == old(free)[d := free[d]]
    {
      hide HeapOk, UsedOk, PoolOk, RunsOk, FreeRun, Allocator.Valid, ArenaOf, PgOfs;
      if free[d] == [] {
        ghost var pool := palloc.kernelPool;
        ghost var runs := pool.live;
        var a := palloc.GetMultiple(false, 1);
        if a == None {
          return None;
        }
        var arena := Arena(Some(d), BlocksPerArena(SIZES[d]));
        KernelRuns();
        PoolAdd(arenas, pool.base, runs, pool.live, pool.usedMap.bitCnt, a.value, arena);
        AddArena(free, arenas, live, a.value, d);
        arenas := arenas[a.value := arena];
        DividePage(a.value, d);
        FirstBlock(a.value, d);
        p := TakeFront(d);
      } else {
        UsedWeaker(arenas, live, ArenaOf(free[d][0]));
        p := TakeFront(d);
      }
    }

    /** Pops a block and counts it. */
    method TakeFront(d: nat) returns (p: Option<nat>)
      requires d < 7 && free[d] != [] && palloc.Valid()
      requires HeapOk(free, arenas, live) && UsedOk(arenas, live, Some(ArenaOf(free[d][0])))
      requires PoolOk(arenas, palloc.kernelPool.base, palloc.kernelPool.live)
      modifies this
      ensures Valid()
      ensures p.Some? && p.value !in old(live) && live == old(live) + {p.value}
      ensures ArenaOf(p.value) in arenas && BlockSize(p.value) == SIZES[d]
      ensures p.value == old(free[d][0]) && free == old(free)[d := old(free[d])[1..]]
    {
      hide HeapOk, UsedOk, PoolOk, Allocator.Valid, ArenaOf, PgOfs;
      TakeBlock(free, arenas, live, d);
      var b := free[d][0];
      var a := ArenaOf(b);
      PoolCount(arenas, palloc.kernelPool.base, palloc.kernelPool.live, a, arenas[a].freeCnt - 1);
      free := free[d := free[d][1..]];
      arenas := Counted(arenas, a, arenas[a].freeCnt - 1);
      live := live + {b};
      p := Some(b);
    }

    /** malloc: the block is new, and it is as large as asked for unless the page
        count wrapped around.  A small block comes from the smallest class that holds it,
        off the front of that free list, and only when the list is empty from a new page,
        which then fills the list. */
    method Malloc(size: nat) returns (p: Option<nat>)
      requires Valid() && size < SIZE_MOD
      modifies this, palloc.kernelPool, palloc.kernelPool.usedMap.bits
      ensures Valid()
      ensures p == None ==> live == old(live) && arenas == old(arenas)
      ensures size == 0 ==> p == None
      ensures p == None ==> size == 0 || NoRoom(1) || (size > 1024 && (PageCnt(size) == 0 || NoRoom(PageCnt(size))))
      ensures p.Some? ==> p.value !in old(live) && live == old(live) + {p.value}
      ensures p.Some? ==> ArenaOf(p.value) in arenas
      ensures p.Some? ==> (BlockSize(p.value) >= size <==> size < SIZE_MOD - (ARENA_SIZE - 1))
      ensures p.Some? ==> BlockSize(p.value) < SIZE_MOD
      ensures p.Some? && size <= 1024 ==>
        BlockSize(p.value) in SIZES && forall z :: z in SIZES && z >= size ==> BlockSize(p.value) <= z
      ensures forall d :: 0 <= d < 7 && Serves(d, size) && old(free)[d] != [] ==>
        && p == Some(old(free)[d][0]) && free == old(free)[d := old(free)[d][1..]]
        && palloc.kernelPool.live == old(palloc.kernelPool.live)
      ensures forall d :: 0 <= d < 7 && Serves(d, size) && old(free)[d] == [] && p.Some? ==>
        && ArenaOf(p.value) !in old(arenas) && NewRun(p.value, 1)
        && [p.value] + free[d] == BlockSeq(ArenaOf(p.value), SIZES[d], BlocksPerArena(SIZES[d]))
        && free == old(free)[d := free[d]]
      ensures p.Some? && size > 1024 ==>
        ArenaOf(p.value) !in old(arenas) && NewRun(p.value, PageCnt(size)) && free == old(free)
    {
      if size == 0 {
        return None;
      }
      var d := FindDesc(size);
      hide Valid, PageCnt, ArenaOf, Serves, NewRun, BlockSeq, BlocksPerArena, NoRoom;
      if d == 7 {
        p := MallocBig(size);
        if p.Some? { PageCntFits(size); }
      } else {
        p := MallocSmall(d);
      }
    }

    /** calloc: its overflow check lets some products through, and then the block is
        too small; it is large enough exactly when the product fits. */
    method Calloc(a: nat, b: nat) returns (p: Option<nat>)
      requires Valid() && a < SIZE_MOD && b < SIZE_MOD
      modifies this, palloc.kernelPool, palloc.kernelPool.usedMap.bits
      ensures Valid()
      ensures p == None ==> live == old(live)
      ensures var size := CallocSize(a, b);
        && (p == None ==> size < a || size < b || size == 0 || NoRoom(1)
                          || (size > 1024 && (PageCnt(size) == 0 || NoRoom(PageCnt(size)))))
        && (p.Some? ==> size >= a && size >= b && size > 0)
      ensures p.Some? ==> p.value !in old(live) && live == old(live) + {p.value}
      ensures p.Some? ==> ArenaOf(p.value) in arenas
      ensures p.Some? ==> (BlockSize(p.value) >= a * b <==> a * b < SIZE_MOD - (ARENA_SIZE - 1))
      ensures p.Some? && CallocSize(a, b) <= 1024 ==>
        BlockSize(p.value) in SIZES && forall z :: z in SIZES && z >= CallocSize(a, b) ==> BlockSize(p.value) <= z
      ensures CallocSize(a, b) >= a && CallocSize(a, b) >= b ==>
        forall d :: 0 <= d < 7 && Serves(d, CallocSize(a, b)) && old(free)[d] != [] ==>
          && p == Some(old(free)[d][0]) && free == old(free)[d := old(free)[d][1..]]
          && palloc.kernelPool.live == old(palloc.kernelPool.live)
    {
      hide Valid, ArenaOf, NoRoom, PageCnt, CallocSize, Serves, NewRun, BlockSeq, BlocksPerArena;
      Reduced(a, b);
      var size := CallocSize(a, b);
      if size < a || size < b {
        return None;
      }
      p := Malloc(size);
    }

    /** Removes the blocks of an arena that has no live block from its free list. */
    method RemoveBlocks(a: nat, d: nat) returns (ghost fl: seq<nat>)
      requires d < 7 && NoDup(free[d]) && PgOfs(a) == 0
      requires forall q :: q in free[d] && ArenaOf(q) == a ==> q in BlocksOf(a, SIZES[d])
      modifies this`free
      ensures free == old(free)[d := fl] && NoDup(fl)
      ensures forall q :: q in fl <==> q in old(free)[d] && ArenaOf(q) != a
    {
      hide NoDup, ArenaOf, BlocksOf;
      var n := BlocksPerArena(SIZES[d]);
      var i := 0;
      fl := free[d];
      while i < n
        invariant i <= n && free == old(free)[d := fl] && NoDup(fl)
        invariant forall q :: q in fl <==> q in old(free)[d] && q !in BlockSeq(a, SIZES[d], i)
      {
        NoDupRemoved(fl, BlockAt(a, i, SIZES[d]));
        free := free[d := Removed(free[d], BlockAt(a, i, SIZES[d]))];
        fl := free[d];
        i := i + 1;
      }
      forall q
        ensures q in fl <==> q in old(free)[d] && ArenaOf(q) != a
      {
        AllBlocks(a, SIZES[d], q);
      }
    }

    /** Frees a small block, and its arena's page if that was the last live block. */
    method FreeSmall(p: nat, d: nat)
      requires Valid() && p in live && ArenaOf(p) in arenas && arenas[ArenaOf(p)].desc == Some(d) && d < 7
      modifies this, palloc.kernelPool, palloc.kernelPool.usedMap.bits
      ensures Valid() && live == old(live) - {p}
      ensures var a := ArenaOf(p);
        if LiveIn(live, a) == {} then
          && arenas == old(arenas) - {a}
          && palloc.kernelPool.live == old(palloc.kernelPool.live) - {Run((a - palloc.kernelPool.base) / PGSIZE, 1)}
        else
          && arenas == Counted(old(arenas), a, old(arenas)[a].freeCnt + 1)
          && palloc.kernelPool.live == old(palloc.kernelPool.live)
          && free == old(free)[d := [p] + old(free[d])]
    {
      hide HeapOk, UsedOk, PoolOk, RunsOk, FreeRun, Allocator.Valid, ArenaOf, PgOfs, LiveIn;
      var a := ArenaOf(p);
      GiveBlock(free, arenas, live, p, d);
      PoolCount(arenas, palloc.kernelPool.base, palloc.kernelPool.live, a, arenas[a].freeCnt + 1);
      free := free[d := [p] + free[d]];
      arenas := Counted(arenas, a, arenas[a].freeCnt + 1);
      live := live - {p};
      if arenas[a].freeCnt >= BlocksPerArena(SIZES[d]) {
        DropFacts(free, arenas, live, a, d);
        ghost var fl := RemoveBlocks(a, d);
        DropArena(old(free)[d := [p] + old(free)[d]], arenas, live, a, d, fl);
        ReturnPages(a);
      } else {
        UsedAll(arenas, live, a);
      }
    }

    /** free: exactly the given block dies, and its pages go back to the page
        allocator exactly when no other live block is in them; otherwise it is the
        next block its class will hand out. */
    method Free(p: nat)
      requires Valid() && (p == 0 || p in live)
      modifies this, palloc.kernelPool, palloc.kernelPool.usedMap.bits
      ensures Valid() && live == old(live) - {p}
      ensures p == 0 ==> arenas == old(arenas) && palloc.kernelPool.live == old(palloc.kernelPool.live)
      ensures p != 0 ==>
        var a := ArenaOf(p);
        if LiveIn(live, a) == {} then
          && a in old(arenas) && arenas == old(arenas) - {a}
          && palloc.kernelPool.live == old(palloc.kernelPool.live)
                                       - {Run((a - palloc.kernelPool.base) / PGSIZE, Pages(old(arenas)[a]))}
        else
          && arenas.Keys == old(arenas).Keys && palloc.kernelPool.live == old(palloc.kernelPool.live)
          && a in arenas && arenas[a].desc.Some? && arenas[a].desc.value < 7
          && var d := arenas[a].desc.value; free == old(free)[d := [p] + old(free)[d]]
    {
      hide HeapOk, UsedOk, PoolOk, RunsOk, Allocator.Valid, ArenaOf, PgOfs, LiveIn, IsBlock, BlocksOf;
      if p == 0 {
        NotZero(free, arenas, live);
        return;
      }
      LiveFacts(free, arenas, live, p);
      var a := ArenaOf(p);
      var d := arenas[a].desc;
      if d.Some? {
        FreeSmall(p, d.value);
      } else {
        DropBig(free, arenas, live, a);
        BigDead(free, arenas, live, a);
        live := live - {p};
        ReturnPages(a);
      }
    }

    /** palloc_free_multiple of an arena's pages. */
    method ReturnPages(a: nat)
      requires palloc.Valid() && PoolOk(arenas, palloc.kernelPool.base, palloc.kernelPool.live) && a in arenas
      requires HeapOk(free, arenas - {a}, live) && UsedOk(arenas - {a}, live, None)
      requires forall b :: b in arenas ==> PgOfs(b) == 0
      modifies this`arenas, palloc.kernelPool, palloc.kernelPool.usedMap.bits
      ensures Valid() && arenas == old(arenas) - {a}
      ensures palloc.kernelPool.live
        == old(palloc.kernelPool.live) - {Run((a - palloc.kernelPool.base) / PGSIZE, Pages(old(arenas)[a]))}
    {
      hide HeapOk, UsedOk, RunsOk, FreeRun, Allocator.Valid, CutRuns, AllCovered;
      KernelRuns();
      PoolDrop(arenas, palloc.kernelPool.base, palloc.kernelPool.live, a);
      ghost var pool := palloc.kernelPool;
      CutWhole(pool.live, pool.usedMap.bitCnt, pool.RunAt(a, Pages(arenas[a])));
      palloc.FreeMultiple(a, Pages(arenas[a]), false);
      arenas := arenas - {a};
    }
  }

  /** A product that calloc's check accepts although it does not fit. */
  lemma CallocOverflow()
    ensures var a, b := 65537, 65537;
      var size := CallocSize(a, b);
      a * b >= SIZE_MOD && size >= a && size >= b && size < a * b
  {
  }

  lemma Reduced(a: nat, b: nat)
    ensures 0 <= CallocSize(a, b) < SIZE_MOD
    ensures a * b >= 0 && (a * b < SIZE_MOD ==> CallocSize(a, b) == a * b)
  {
    var x := a * b;
    assert x >= 0;
    if x < SIZE_MOD { ModSmall(x, SIZE_MOD); }
  }

  lemma AllBlocks(a: nat, bs: nat, q: nat)
    requires bs > 0 && PgOfs(a) == 0
    ensures q in BlockSeq(a, bs, BlocksPerArena(bs)) <==> q in BlocksOf(a, bs)
    ensures q in BlocksOf(a, bs) ==> ArenaOf(q) == a
  {
    BlocksOfIs(a, bs, q);
  }

  lemma DropFacts(free: FreeLists, arenas: map<nat, Arena>, live: set<nat>, a: nat, d: nat)
    requires HeapOk(free, arenas, live) && a in arenas && arenas[a].desc == Some(d) && d < 7
    ensures NoDup(free[d]) && forall b :: b in arenas ==> PgOfs(b) == 0
    ensures forall q :: q in free[d] && ArenaOf(q) == a ==> q in BlocksOf(a, SIZES[d])
  {
    assert ArenaOk(free, arenas, live, a);
    forall b | b in arenas
      ensures PgOfs(b) == 0
    {
      assert ArenaOk(free, arenas, live, b);
    }
    forall q | q in free[d] && ArenaOf(q) == a
      ensures q in BlocksOf(a, SIZES[d])
    {
      assert q in FreeIn(free[d], a);
    }
  }

  lemma NotZero(free: FreeLists, arenas: map<nat, Arena>, live: set<nat>)
    requires HeapOk(free, arenas, live)
    ensures 0 !in live
  {
    if 0 in live { LiveFacts(free, arenas, live, 0); }
  }

  lemma BigDead(free: FreeLists, arenas: map<nat, Arena>, live: set<nat>, a: nat)
    requires HeapOk(free, arenas, live) && a in arenas && arenas[a].desc == None
    ensures LiveIn(live - {a + ARENA_SIZE}, a) == {}
    ensures forall b :: b in arenas ==> PgOfs(b) == 0
  {
    assert ArenaOk(free, arenas, live, a);
    assert LiveIn(live - {a + ARENA_SIZE}, a) == LiveIn(live, a) - {a + ARENA_SIZE};
    forall b | b in arenas
      ensures PgOfs(b) == 0
    {
      assert ArenaOk(free, arenas, live, b);
    }
  }

  lemma UsedAll(arenas: map<nat, Arena>, live: set<nat>, a: nat)
    requires UsedOk(arenas, live, Some(a)) && LiveIn(live, a) != {}
    ensures UsedOk(arenas, live, None)
  {
  }

  lemma UsedWeaker(arenas: map<nat, Arena>, live: set<nat>, a: nat)
    requires UsedOk(arenas, live, None)
    ensures UsedOk(arenas, live, Some(a))
  {
  }

  lemma FirstBlock(a: nat, d: nat)
    requires d < 7 && PgOfs(a) == 0
    ensures var fl := BlockSeq(a, SIZES[d], BlocksPerArena(SIZES[d]));
      fl != [] && ArenaOf(fl[0]) == a
  {
    AllFree(a, SIZES[d]);
    BlockSeqNoDup(a, SIZES[d], BlocksPerArena(SIZES[d]));
    var fl := BlockSeq(a, SIZES[d], BlocksPerArena(SIZES[d]));
    assert BlocksPerArena(SIZES[d]) > 0;
    assert fl[0] in fl;
  }

  lemma PoolCount(arenas: map<nat, Arena>, base: nat, runs: set<Run>, a: nat, n: nat)
    requires PoolOk(arenas, base, runs) && a in arenas && arenas[a].desc.Some?
    ensures PoolOk(Counted(arenas, a, n), base, runs)
  {
  }

  /** Between calls, each block of an arena is either on its descriptor's free list
      or live, freeCnt is the number of the former, and there is one of the latter. */
  lemma ArenaLaw(h: Heap, a: nat, d: nat)
    requires h.Valid() && a in h.arenas && h.arenas[a].desc == Some(d)
    ensures d < 7 && |FreeIn(h.free[d], a)| == h.arenas[a].freeCnt < BlocksPerArena(SIZES[d])
    ensures forall p :: p in BlocksOf(a, SIZES[d]) ==> (p in h.free[d] <==> p !in h.live)
  {
    assert ArenaOk(h.free, h.arenas, h.live, a);
    CountFull(h.free, h.arenas, h.live, a, d);
    hide HeapOk, UsedOk, PoolOk, Allocator.Valid, BlocksOf;
    forall p | p in BlocksOf(a, SIZES[d])
      ensures p in h.free[d] <==> p !in h.live
    {
      BlocksOfIs(a, SIZES[d], p);
      assert p in FreeIn(h.free[d], a) <==> p !in LiveIn(h.live, a);
    }
  }

  // ----- Disjointness

  /** The pages of different arenas do not overlap. */
  lemma ArenasApart(arenas: map<nat, Arena>, base: nat, runs: set<Run>, n: nat, a: nat, b: nat)
    requires PoolOk(arenas, base, runs) && RunsOk(runs, n) && base % PGSIZE == 0
    requires a in arenas && b in arenas && a < b && PgOfs(a) == 0 && PgOfs(b) == 0
    ensures a + Pages(arenas[a]) * PGSIZE <= b
  {
    var r, q := Run((a - base) / PGSIZE, Pages(arenas[a])), Run((b - base) / PGSIZE, Pages(arenas[b]));
    assert r in runs && q in runs && r != q;
    assert Apart(r, q);
  }

  /** Live blocks never overlap, stay within their arena's pages, and never touch an
      arena header. */
  lemma LiveBlocksDisjoint(h: Heap, p: nat, q: nat)
    requires h.Valid() && p in h.live && q in h.live && p < q
    ensures ArenaOf(p) in h.arenas && ArenaOf(q) in h.arenas
    ensures ArenaOf(p) + ARENA_SIZE <= p && p + h.BlockSize(p) <= q
    ensures p + h.BlockSize(p) <= ArenaOf(p) + Pages(h.arenas[ArenaOf(p)]) * PGSIZE
    ensures ArenaOf(p) < ArenaOf(q) ==> p + h.BlockSize(p) <= ArenaOf(q)
  {
    hide HeapOk, UsedOk, PoolOk, RunsOk, Allocator.Valid, BlocksOf;
    LiveFacts(h.free, h.arenas, h.live, p);
    LiveFacts(h.free, h.arenas, h.live, q);
    var a, b := ArenaOf(p), ArenaOf(q);
    h.KernelRuns();
    BlockBounds(h.arenas, p);
    if a < b {
      ArenasApart(h.arenas, h.palloc.kernelPool.base, h.palloc.kernelPool.live,
                  h.palloc.kernelPool.usedMap.bitCnt, a, b);
    } else {
      SameArena(h.arenas, p, q);
    }
  }

  lemma SameArena(arenas: map<nat, Arena>, p: nat, q: nat)
    requires p < q && ArenaOf(q) <= ArenaOf(p) && ArenaOf(p) in arenas && PgOfs(ArenaOf(p)) == 0
    requires match arenas[ArenaOf(p)].desc
             case None => p == ArenaOf(p) + ARENA_SIZE && (ArenaOf(p) == ArenaOf(q) ==> q == p)
             case Some(d) => d < 7 && IsBlock(p, SIZES[d]) && (ArenaOf(p) == ArenaOf(q) ==> IsBlock(q, SIZES[d]))
    ensures arenas[ArenaOf(p)].desc.Some? && ArenaOf(p) == ArenaOf(q)
    ensures p + SIZES[arenas[ArenaOf(p)].desc.value] <= q
  {
    assert ArenaOf(p) == ArenaOf(q);
    BlocksApart(p, q, SIZES[arenas[ArenaOf(p)].desc.value]);
  }

  lemma BlockBounds(arenas: map<nat, Arena>, p: nat)
    requires ArenaOf(p) in arenas
    requires match arenas[ArenaOf(p)].desc
             case None => p == ArenaOf(p) + ARENA_SIZE && arenas[ArenaOf(p)].freeCnt > 0
             case Some(d) => d < 7 && IsBlock(p, SIZES[d])
    ensures ArenaOf(p) + ARENA_SIZE <= p
    ensures match arenas[ArenaOf(p)].desc
            case None => true
            case Some(d) => p + SIZES[d] <= ArenaOf(p) + PGSIZE
  {
    if arenas[ArenaOf(p)].desc.Some? {
      var bs := SIZES[arenas[ArenaOf(p)].desc.value];
      var i := IsBlockIsBlockAt(p, bs);
      BlockFits(i, bs);
    }
  }
}
