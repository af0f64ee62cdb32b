/** A process from its page directory to its exit: no page is lost. */
module Exec {
  import opened FileIo
  import opened Loader
  import opened Options
  import opened PageMap
  import opened Palloc
  import opened Pte
  import opened Segment
  import opened Seqs

  /** The page is one of its pool that is in use, where `user` says which pool. */
  ghost predicate Taken(alloc: Allocator, x: nat, user: bool)
    requires alloc.Valid()
    reads alloc, alloc.userPool, alloc.userPool.usedMap, alloc.userPool.usedMap.bits
    reads alloc.kernelPool, alloc.kernelPool.usedMap, alloc.kernelPool.usedMap.bits
  {
    alloc.PoolOf(user).HasPage(x) && x !in alloc.PoolOf(user).FreePages()
  }

  /** palloc_free_page of each of the pages, none of which is there twice. */
  method FreeAll(alloc: Allocator, pages: seq<nat>, ghost users: set<nat>)
    requires alloc.Valid() && NoDup(pages) && forall x | x in pages :: Taken(alloc, x, x in users)
    modifies alloc.userPool, alloc.userPool.usedMap.bits, alloc.kernelPool, alloc.kernelPool.usedMap.bits
    ensures alloc.Valid()
    ensures forall x: nat :: x in alloc.userPool.FreePages() <==>
      x in old(alloc.userPool.FreePages()) || (x in pages && x in users)
    ensures forall x: nat :: x in alloc.kernelPool.FreePages() <==>
      x in old(alloc.kernelPool.FreePages()) || (x in pages && x !in users)
  {
    hide RunsOk, MarksUnion, FreeFrom, Pool.HasPage, NoDup;
    NoDupIsDistinct(pages);
    for i := 0 to |pages|
      invariant alloc.Valid()
      invariant forall x: nat :: x in alloc.userPool.FreePages() <==>
        x in old(alloc.userPool.FreePages()) || (x in pages[..i] && x in users)
      invariant forall x: nat :: x in alloc.kernelPool.FreePages() <==>
        x in old(alloc.kernelPool.FreePages()) || (x in pages[..i] && x !in users)
    {
      assert pages[i] in pages && pages[i] !in pages[..i];
      assert old(Taken(alloc, pages[i], pages[i] in users));
      alloc.FreePage(pages[i], pages[i] in users);
      assert pages[..i + 1] == pages[..i] + [pages[i]];
    }
    assert pages[..|pages|] == pages;
  }

  /** The pages that the process may use are pages of the allocator, and so is its directory. */
  ghost predicate OwnPages(p: Process)
    requires p.Valid()
    reads p, p.pagedir, p.pagedir.pd, p.pagedir.tables.Values
    reads p.alloc, p.alloc.userPool, p.alloc.userPool.usedMap, p.alloc.userPool.usedMap.bits
    reads p.alloc.kernelPool, p.alloc.kernelPool.usedMap, p.alloc.kernelPool.usedMap.bits
  {
    && (forall x | x in p.Users() :: p.alloc.userPool.HasPage(x))
    && (forall x | x in p.Kernels() :: p.alloc.kernelPool.HasPage(x))
    && p.alloc.kernelPool.HasPage(p.pagedir.base) && p.pagedir.base !in p.Kernels()
  }

  /** No page belongs to both pools. */
  lemma PoolsApart(alloc: Allocator, x: nat)
    requires alloc.Valid()
    ensures !(alloc.userPool.HasPage(x) && alloc.kernelPool.HasPage(x))
  {
    hide RunsOk, MarksUnion;
  }

  ghost function FramesOf(p: Process): set<nat>
    requires p.Valid()
    reads p, p.pagedir, p.pagedir.pd, p.pagedir.tables.Values
    reads p.alloc, p.alloc.userPool, p.alloc.userPool.usedMap, p.alloc.userPool.usedMap.bits
    reads p.alloc.kernelPool, p.alloc.kernelPool.usedMap, p.alloc.kernelPool.usedMap.bits
  {
    set q | q in p.pagedir.Space() :: p.pagedir.Space()[q].page
  }

  /** What pagedir_destroy frees is what the process has, each page once, and all of it is in
      use. */
  lemma Freed(p: Process, freed: seq<nat>)
    requires p.Valid() && OwnPages(p)
    requires freed == PageMap.Pages(p.pagedir.pd[..], p.pagedir.Mem(), USER_ENTRIES) + [p.pagedir.base]
    ensures NoDup(freed)
    ensures forall x | x in freed :: Taken(p.alloc, x, x in FramesOf(p))
    ensures forall x: nat :: x in p.Users() <==>
      x in p.alloc.userPool.FreePages() || (x in freed && x in FramesOf(p))
    ensures forall x: nat :: x in p.Kernels() || x == p.pagedir.base <==>
      x in p.alloc.kernelPool.FreePages() || (x in freed && x !in FramesOf(p))
  {
    hide PageMap.Maps, WellFormed, PageMap.Pages, NoDup, FramesWf, RunsOk, MarksUnion, FreeFrom, Pool.HasPage;
    var dir, mem, base := p.pagedir.pd[..], p.pagedir.Mem(), p.pagedir.base;
    forall x | x in FramesOf(p) ensures x in p.Users() && p.alloc.userPool.HasPage(x) {
    }
    PoolsApart(p.alloc, base);
    ExitFreesOnce(p);
    assert forall x :: IsFrame(dir, mem, x) <==> x in FramesOf(p);
    forall x ensures IsTable(dir, x) <==> x in p.pagedir.tables {
      if IsTable(dir, x) {
        var i :| 0 <= i < USER_ENTRIES && dir[i] != 0 && TableOf(dir[i]) == x;
        EntriesOk(dir, mem, i);
      }
    }
    assert forall x :: x in freed <==> x == base || x in p.pagedir.tables || x in FramesOf(p);
    forall x | x in p.Kernels() || x == base ensures x !in FramesOf(p) {
      PoolsApart(p.alloc, x);
    }
  }

  /** pagedir_destroy at exit: everything the process had is free again, and its directory. */
  method Exit(p: Process)
    requires p.Valid() && OwnPages(p)
    modifies p.alloc.userPool, p.alloc.userPool.usedMap.bits, p.alloc.kernelPool, p.alloc.kernelPool.usedMap.bits
    ensures p.alloc.Valid()
    ensures forall x: nat :: x in p.alloc.userPool.FreePages() <==> x in old(p.Users())
    ensures forall x: nat :: x in p.alloc.kernelPool.FreePages() <==> x in old(p.Kernels()) || x == p.pagedir.base
  {
    hide Process.Valid, Process.Users, Process.Kernels, OwnPages, FramesOf, Taken;
    hide Allocator.Valid, Pool.FreePages, NoDup;
    AllocValid(p);
    var freed := p.pagedir.Destroy();
    Freed(p, freed);
    FreeAll(p.alloc, freed, FramesOf(p));
  }

  lemma AllocValid(p: Process)
    requires p.Valid()
    ensures p.alloc.Valid() && p.pagedir.Valid()
  {
  }

  /** A bitmap is known from the pages that are free. */
  lemma SameFree(used: seq<bool>, used': seq<bool>, base: nat)
    requires |used'| == |used|
    requires forall x: nat :: x in FreeFrom(used', base, 0) <==> x in FreeFrom(used, base, 0)
    ensures used' == used
  {
    hide FreeFrom;
    forall k | 0 <= k < |used| ensures used'[k] == used[k] {
      FreeIff(used, base, k);
      FreeIff(used', base, k);
    }
  }

  /** All free pages are pages of the pool. */
  lemma FreeHave(pool: Pool)
    requires pool.Valid()
    ensures forall x | x in pool.FreePages() :: pool.HasPage(x)
  {
    hide FreeFrom, RunsOk, MarksUnion;
    forall x | x in pool.FreePages() ensures pool.HasPage(x) {
      var j := FreeIs(pool.usedMap.Contents(), pool.base, 0, x);
    }
  }

  /** A process that is loaded, as far as it can be, and exits: whatever the executable is and
      wherever loading it stops, both pools have afterwards exactly the free pages that they had
      before. */
  method Execute(alloc: Allocator, initPageDir: seq<nat>, file: seq<Byte>, headers: seq<ProgramHeader>,
                 frames: map<nat, seq<Byte>>, bounceOk: (nat, nat) -> bool)
    returns (loaded: bool)
    requires |initPageDir| == ENTRIES && forall i | 0 <= i < USER_ENTRIES :: initPageDir[i] == 0
    requires alloc.Valid() && FramesWf(map[], frames, alloc.userPool.FreePages()) && |file| < 0x8000_0000
    modifies alloc.userPool, alloc.userPool.usedMap.bits, alloc.kernelPool, alloc.kernelPool.usedMap.bits
    ensures alloc.Valid()
    ensures alloc.userPool.usedMap.Contents() == old(alloc.userPool.usedMap.Contents())
    ensures alloc.kernelPool.usedMap.Contents() == old(alloc.kernelPool.usedMap.Contents())
    ensures loaded ==> AllFit(map[], file, headers)
  {
    hide FreeFrom, RunsOk, MarksUnion, FramesWf, AllFit, Pool.HasPage, Process.Valid, Process.View, OwnPages,
         Process.Users, Process.Kernels;
    ghost var user, kernel := alloc.userPool.FreePages(), alloc.kernelPool.FreePages();
    var dir := alloc.GetPage(false);
    assert alloc.PoolOf(true).FreePages() == user;
    loaded := false;
    if dir.Some? {
      var p := new Process(dir.value, initPageDir, file, alloc, frames);
      StartsWith(p);
      loaded := LoadAndExit(p, headers, bounceOk);
      assert forall x: nat :: x in kernel <==> x in kernel[1..] || x == kernel[0];
    }
    assert forall x: nat :: x in alloc.userPool.FreePages() <==> x in user;
    assert forall x: nat :: x in alloc.kernelPool.FreePages() <==> x in kernel;
    SameFree(old(alloc.userPool.usedMap.Contents()), alloc.userPool.usedMap.Contents(), alloc.userPool.base);
    SameFree(old(alloc.kernelPool.usedMap.Contents()), alloc.kernelPool.usedMap.Contents(), alloc.kernelPool.base);
  }

  /** load, and process_exit. */
  method LoadAndExit(p: Process, headers: seq<ProgramHeader>, bounceOk: (nat, nat) -> bool) returns (loaded: bool)
    requires p.Valid() && OwnPages(p) && |p.file| < 0x8000_0000
    modifies p, p.pagedir, p.pagedir.pd, p.pagedir.tables.Values
    modifies p.alloc.userPool, p.alloc.userPool.usedMap.bits, p.alloc.kernelPool, p.alloc.kernelPool.usedMap.bits
    ensures p.alloc.Valid()
    ensures forall x: nat :: x in p.alloc.userPool.FreePages() <==> x in old(p.Users())
    ensures forall x: nat :: x in p.alloc.kernelPool.FreePages() <==> x in old(p.Kernels()) || x == p.pagedir.base
    ensures loaded ==> AllFit(old(p.View()), p.file, headers)
  {
    hide Process.Valid, Process.View, Process.Users, Process.Kernels, AllFit;
    hide Pool.FreePages, Pool.HasPage, Allocator.Valid;
    loaded := p.Load(headers, bounceOk);
    Exit(p);
  }

  /** What a new process can use is what is free. */
  lemma StartsWith(p: Process)
    requires p.Valid() && p.pagedir.Space() == map[] && p.pagedir.tables == map[]
    requires p.alloc.kernelPool.HasPage(p.pagedir.base) && p.pagedir.base !in p.alloc.kernelPool.FreePages()
    ensures OwnPages(p) && p.View() == map[]
    ensures forall x :: x in p.Users() <==> x in p.alloc.userPool.FreePages()
    ensures forall x :: x in p.Kernels() <==> x in p.alloc.kernelPool.FreePages()
  {
    hide FreeFrom, RunsOk, MarksUnion, FramesWf, PoolsOk;
    FreeHave(p.alloc.userPool);
    FreeHave(p.alloc.kernelPool);
  }
}
