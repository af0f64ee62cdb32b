/** Loading an executable's segments into a process's address space. */
module Loader {
  import opened Options
  import opened Seqs
  import opened Bits
  import opened Integers
  import opened Palloc
  import opened Pte
  import opened PageMap
  import opened Pagedir
  import opened FileIo
  import opened Segment

  // ----- The specification: pages as byte sequences

  /** A user page as a program sees it. */
  datatype PageView = PageView(writable: bool, bytes: seq<Byte>)

  /** Byte k of a segment's memory: the file's bytes from ofs on, then zeros. */
  function ImageByte(file: seq<Byte>, ofs: nat, readBytes: nat, k: nat): Byte {
    if k < readBytes && ofs + k < |file| then file[ofs + k] else 0
  }

  /** The page of a segment that is mapped at page number p, when the first is at p0. */
  function PageImage(file: seq<Byte>, ofs: nat, readBytes: nat, p0: nat, p: nat): (s: seq<Byte>)
    requires p0 <= p
    ensures |s| == PGSIZE
  {
    seq<Byte>(PGSIZE, (b: nat) => ImageByte(file, ofs, readBytes, PGSIZE * (p - p0) + b))
  }

  /** The first n pages of a segment that starts at page p0. */
  ghost function SegmentView(file: seq<Byte>, ofs: nat, readBytes: nat, p0: nat, n: nat, writable: bool)
    : map<nat, PageView>
  {
    map p: nat | p0 <= p < p0 + n :: PageView(writable, PageImage(file, ofs, readBytes, p0, p))
  }

  function Min(a: nat, b: nat): nat { if a < b then a else b }

  function Slice(file: seq<Byte>, pos: nat, n: nat): seq<Byte> {
    if pos + n <= |file| then file[pos..pos + n] else []
  }

  /** The pages of the allocator are disjoint from everything in use, no frame is mapped
      twice, and no frame is a page table. */
  ghost predicate PoolsOk(space: map<nat, Mapped>, userPool: seq<nat>, kernelPool: seq<nat>, tables: set<nat>) {
    && NoDup(userPool) && NoDup(kernelPool)
    && (forall x | x in userPool :: KernelPage(x) && x !in tables && x !in kernelPool)
    && (forall x | x in kernelPool :: KernelPage(x) && x !in tables)
    && (forall p | p in space :: Free(space[p].page, userPool, kernelPool, tables))
    && (forall p, q | p in space && q in space && p != q :: space[p].page != space[q].page)
  }

  ghost predicate Free(x: nat, userPool: seq<nat>, kernelPool: seq<nat>, tables: set<nat>) {
    x !in userPool && x !in kernelPool && x !in tables
  }

  lemma PopUser(space: map<nat, Mapped>, userPool: seq<nat>, kernelPool: seq<nat>, tables: set<nat>)
    requires PoolsOk(space, userPool, kernelPool, tables) && userPool != []
    ensures PoolsOk(space, userPool[1..], kernelPool, tables)
    ensures KernelPage(userPool[0]) && Free(userPool[0], userPool[1..], kernelPool, tables)
    ensures forall p | p in space :: space[p].page != userPool[0]
  {
    assert userPool[0] in userPool;
    assert forall x | x in userPool[1..] :: x in userPool;
  }

  lemma NextTable(space: map<nat, Mapped>, userPool: seq<nat>, kernelPool: seq<nat>, tables: set<nat>)
    requires PoolsOk(space, userPool, kernelPool, tables)
    ensures kernelPool != [] ==> KernelPage(kernelPool[0]) && kernelPool[0] !in tables
  {
    if kernelPool != [] { assert kernelPool[0] in kernelPool; }
  }

  lemma PopKernel(space: map<nat, Mapped>, userPool: seq<nat>, kernelPool: seq<nat>, tables: set<nat>, x: nat)
    requires PoolsOk(space, userPool, kernelPool, tables) && kernelPool != []
    requires Free(x, userPool, kernelPool, tables)
    ensures PoolsOk(space, userPool, kernelPool[1..], tables + {kernelPool[0]})
    ensures Free(x, userPool, kernelPool[1..], tables + {kernelPool[0]})
  {
    var k := kernelPool[0];
    assert k in kernelPool;
    assert forall x | x in kernelPool[1..] :: x in kernelPool;
    forall p | p in space ensures Free(space[p].page, userPool, kernelPool[1..], tables + {k}) {
      assert Free(space[p].page, userPool, kernelPool, tables);
    }
  }

  /** A page was mapped, perhaps with a new page table. */
  lemma Installed(space: map<nat, Mapped>, userPool: seq<nat>, kernelPool: seq<nat>, tables: set<nat>,
                  frames: map<nat, seq<Byte>>, table: Option<nat>, p: nat, m: Mapped)
    requires PoolsOk(space, userPool, kernelPool, tables) && FramesWf(space, frames, userPool)
    requires p !in space && m.page in frames && Free(m.page, userPool, kernelPool, tables)
    requires forall q | q in space :: space[q].page != m.page
    requires table.Some? ==> kernelPool != [] && table.value == kernelPool[0]
    ensures PoolsOk(space[p := m], userPool, if table.Some? then kernelPool[1..] else kernelPool,
                    tables + (if table.Some? then {table.value} else {}))
    ensures FramesWf(space[p := m], frames, userPool)
    ensures UserPages(space[p := m], userPool) == UserPages(space, userPool) + {m.page}
    ensures KernelPages(if table.Some? then kernelPool[1..] else kernelPool,
                        tables + (if table.Some? then {table.value} else {})) == KernelPages(kernelPool, tables)
  {
    hide PoolsOk, Free, FramesWf, UserPages, KernelPages;
    UserMap(space, userPool, p, m);
    if table.Some? {
      KernelPop(kernelPool, tables);
      PopKernel(space, userPool, kernelPool, tables, m.page);
      AddMapping(space, userPool, kernelPool[1..], tables + {table.value}, p, m);
    } else {
      AddMapping(space, userPool, kernelPool, tables, p, m);
      assert tables + {} == tables;
    }
    MapFrame(space, frames, userPool, p, m);
  }

  lemma AddMapping(space: map<nat, Mapped>, userPool: seq<nat>, kernelPool: seq<nat>, tables: set<nat>,
                   p: nat, m: Mapped)
    requires PoolsOk(space, userPool, kernelPool, tables) && p !in space
    requires Free(m.page, userPool, kernelPool, tables) && forall q | q in space :: space[q].page != m.page
    ensures PoolsOk(space[p := m], userPool, kernelPool, tables)
  {
  }

  ghost predicate FramesWf(space: map<nat, Mapped>, frames: map<nat, seq<Byte>>, userPool: seq<nat>) {
    && (forall a | a in frames :: |frames[a]| == PGSIZE)
    && (forall x | x in userPool :: x in frames)
    && (forall p | p in space :: space[p].page in frames)
  }

  ghost function ViewOf(space: map<nat, Mapped>, frames: map<nat, seq<Byte>>): map<nat, PageView> {
    map p | p in space && space[p].page in frames :: PageView(space[p].writable, frames[space[p].page])
  }

  lemma TakeFrame(space: map<nat, Mapped>, frames: map<nat, seq<Byte>>, userPool: seq<nat>)
    requires FramesWf(space, frames, userPool) && userPool != []
    ensures FramesWf(space, frames, userPool[1..])
    ensures userPool[0] in frames && |frames[userPool[0]]| == PGSIZE
  {
    assert userPool[0] in userPool;
    assert forall x | x in userPool[1..] :: x in userPool;
  }

  /** Filling a frame that is not mapped changes nothing a program sees. */
  lemma FillFrame(space: map<nat, Mapped>, frames: map<nat, seq<Byte>>, userPool: seq<nat>, k: nat, s: seq<Byte>)
    requires FramesWf(space, frames, userPool) && |s| == PGSIZE && forall p | p in space :: space[p].page != k
    ensures FramesWf(space, frames[k := s], userPool) && ViewOf(space, frames[k := s]) == ViewOf(space, frames)
  {
  }

  lemma PutFrame(space: map<nat, Mapped>, frames: map<nat, seq<Byte>>, userPool: seq<nat>, k: nat)
    requires FramesWf(space, frames, userPool) && k in frames
    ensures FramesWf(space, frames, [k] + userPool)
  {
  }

  lemma MapFrame(space: map<nat, Mapped>, frames: map<nat, seq<Byte>>, userPool: seq<nat>, p: nat, m: Mapped)
    requires FramesWf(space, frames, userPool) && m.page in frames && p !in space
    ensures FramesWf(space[p := m], frames, userPool)
    ensures ViewOf(space[p := m], frames) == ViewOf(space, frames)[p := PageView(m.writable, frames[m.page])]
  {
  }

  lemma ViewKeys(space: map<nat, Mapped>, frames: map<nat, seq<Byte>>, userPool: seq<nat>)
    requires FramesWf(space, frames, userPool)
    ensures ViewOf(space, frames).Keys == space.Keys
  {
  }

  // ----- The pages that a process has or can still get

  ghost function UserPages(space: map<nat, Mapped>, userPool: seq<nat>): set<nat> {
    (set x | x in userPool) + set p | p in space :: space[p].page
  }

  ghost function KernelPages(kernelPool: seq<nat>, tables: set<nat>): set<nat> {
    (set x | x in kernelPool) + tables
  }

  lemma UserPop(space: map<nat, Mapped>, userPool: seq<nat>)
    requires userPool != []
    ensures UserPages(space, userPool) == UserPages(space, userPool[1..]) + {userPool[0]}
  {
    assert userPool == [userPool[0]] + userPool[1..];
  }

  lemma UserPush(space: map<nat, Mapped>, userPool: seq<nat>, k: nat)
    ensures UserPages(space, [k] + userPool) == UserPages(space, userPool) + {k}
  {
  }

  lemma UserMap(space: map<nat, Mapped>, userPool: seq<nat>, p: nat, m: Mapped)
    requires p !in space
    ensures UserPages(space[p := m], userPool) == UserPages(space, userPool) + {m.page}
  {
    var space' := space[p := m];
    assert space'[p].page == m.page;
    assert forall q | q in space :: space'[q] == space[q];
  }

  lemma KernelPop(kernelPool: seq<nat>, tables: set<nat>)
    requires kernelPool != []
    ensures KernelPages(kernelPool[1..], tables + {kernelPool[0]}) == KernelPages(kernelPool, tables)
  {
    assert kernelPool == [kernelPool[0]] + kernelPool[1..];
  }

  // ----- The process

  class Process {
    const alloc: Allocator
    const pagedir: PageDirectory
    const file: seq<Byte>
    var pos: nat
    /** The pages that the allocator would hand out next, in order; none when empty. */
    ghost var userPool: seq<nat>
    ghost var kernelPool: seq<nat>
    /** The contents of physical memory, by kernel virtual address of the page. */
    var frames: map<nat, seq<Byte>>

    ghost predicate FramesOk()
      reads this, pagedir, pagedir.pd, pagedir.tables.Values
    {
      pagedir.Valid() && FramesWf(pagedir.Space(), frames, userPool)
    }

    /** The allocator's own data are not page tables. */
    ghost predicate Apart()
      reads pagedir`tables
    {
      && alloc.userPool.usedMap.bits != pagedir.pd && alloc.kernelPool.usedMap.bits != pagedir.pd
      && alloc.userPool.usedMap.bits !in pagedir.tables.Values
      && alloc.kernelPool.usedMap.bits !in pagedir.tables.Values
    }

    ghost predicate AllocOk()
      reads this`userPool, this`kernelPool
      reads alloc, alloc.userPool, alloc.userPool.usedMap, alloc.userPool.usedMap.bits
      reads alloc.kernelPool, alloc.kernelPool.usedMap, alloc.kernelPool.usedMap.bits
    {
      && alloc.Valid()
      && userPool == alloc.userPool.FreePages() && kernelPool == alloc.kernelPool.FreePages()
    }

    ghost predicate Valid()
      reads this, pagedir, pagedir.pd, pagedir.tables.Values
      reads alloc, alloc.userPool, alloc.userPool.usedMap, alloc.userPool.usedMap.bits
      reads alloc.kernelPool, alloc.kernelPool.usedMap, alloc.kernelPool.usedMap.bits
    {
      FramesOk() && PoolsOk(pagedir.Space(), userPool, kernelPool, pagedir.tables.Keys) && AllocOk() && Apart()
    }

    /** A process whose new page directory maps no user page. */
    constructor (directory: nat, initPageDir: seq<nat>, file: seq<Byte>, alloc: Allocator, frames: map<nat, seq<Byte>>)
      requires |initPageDir| == ENTRIES && forall i | 0 <= i < USER_ENTRIES :: initPageDir[i] == 0
      requires alloc.Valid() && FramesWf(map[], frames, alloc.userPool.FreePages())
      ensures Valid() && pagedir.Space() == map[] && pagedir.base == directory
      ensures this.file == file && this.alloc == alloc
      ensures fresh(pagedir) && fresh(pagedir.pd) && pagedir.tables == map[]
      ensures pagedir.KernelHalf() == initPageDir[USER_ENTRIES..]
    {
      hide PoolsOk, FramesWf, FreeFrom, RunsOk, MarksUnion;
      FreePools(alloc);
      this.alloc := alloc;
      userPool, kernelPool := alloc.userPool.FreePages(), alloc.kernelPool.FreePages();
      pagedir := new PageDirectory(directory, initPageDir);
      this.file := file;
      pos := 0;
      this.frames := frames;
      new;
      assert pagedir.tables.Keys == {};
    }

    /** The address space with the bytes in it. */
    ghost function View(): map<nat, PageView>
      reads this, pagedir, pagedir.pd, pagedir.tables.Values
      reads alloc, alloc.userPool, alloc.userPool.usedMap, alloc.userPool.usedMap.bits
      reads alloc.kernelPool, alloc.kernelPool.usedMap, alloc.kernelPool.usedMap.bits
      requires Valid()
    {
      ViewOf(pagedir.Space(), frames)
    }

    ghost function Users(): set<nat>
      requires Valid()
      reads this, pagedir, pagedir.pd, pagedir.tables.Values
      reads alloc, alloc.userPool, alloc.userPool.usedMap, alloc.userPool.usedMap.bits
      reads alloc.kernelPool, alloc.kernelPool.usedMap, alloc.kernelPool.usedMap.bits
    {
      UserPages(pagedir.Space(), userPool)
    }

    ghost function Kernels(): set<nat>
      requires Valid()
      reads this, pagedir, pagedir.pd, pagedir.tables.Values
      reads alloc, alloc.userPool, alloc.userPool.usedMap, alloc.userPool.usedMap.bits
      reads alloc.kernelPool, alloc.kernelPool.usedMap, alloc.kernelPool.usedMap.bits
    {
      KernelPages(kernelPool, pagedir.tables.Keys)
    }

    /** A page of the user pool that is neither free nor in use: it was just handed out. */
    ghost predicate Spare(kpage: nat)
      requires Valid()
      reads this, pagedir, pagedir.pd, pagedir.tables.Values
      reads alloc, alloc.userPool, alloc.userPool.usedMap, alloc.userPool.usedMap.bits
      reads alloc.kernelPool, alloc.kernelPool.usedMap, alloc.kernelPool.usedMap.bits
    {
      && KernelPage(kpage) && kpage in frames && Free(kpage, userPool, kernelPool, pagedir.tables.Keys)
      && (forall p | p in pagedir.Space() :: pagedir.Space()[p].page != kpage)
      && alloc.userPool.HasPage(kpage) && forall x | x in userPool :: kpage < x
    }

    /** install_page: map kpage at upage unless something is mapped there. */
    method InstallPage(upage: nat, kpage: nat, writable: bool) returns (ok: bool)
      requires Valid() && Spare(kpage) && PgOfs(upage) == 0 && upage < PHYS_BASE
      modifies this`kernelPool, pagedir, pagedir.pd, pagedir.tables.Values
      modifies alloc.kernelPool, alloc.kernelPool.usedMap.bits
      ensures Valid() && (!ok ==> Spare(kpage) && kernelPool == old(kernelPool)) && kpage in frames
      ensures ok <==> PgNo(upage) !in old(View()) && (old(pagedir.HasTable(upage)) || old(kernelPool) != [])
      ensures View() == if ok then old(View())[PgNo(upage) := PageView(writable, frames[kpage])] else old(View())
      ensures |kernelPool| + 1 >= |old(kernelPool)|
      ensures Users() == old(Users()) + (if ok then {kpage} else {}) && Kernels() == old(Kernels())
      ensures fresh(pagedir.tables.Values - old(pagedir.tables.Values))
      ensures pagedir.KernelHalf() == old(pagedir.KernelHalf())
    {
      hide UserPages, KernelPages, PoolsOk, Free, FramesWf, ViewOf, PageDirectory.Valid, PageDirectory.Space,
           KernelPage, PgNo, PgOfs, PageDirectory.HasTable, PageDirectory.KernelHalf, Process.AllocOk, Pool.HasPage;
      ghost var space := pagedir.Space();
      ViewKeys(space, frames, userPool);
      var there := pagedir.GetPage(upage);
      if there.Some? {
        return false;
      }
      ok := MapPage(upage, kpage, writable);
      if ok { MapFrame(space, frames, userPool, PgNo(upage), Mapped(kpage, writable)); }
    }

    method MapPage(upage: nat, kpage: nat, writable: bool) returns (ok: bool)
      requires Valid() && Spare(kpage) && PgOfs(upage) == 0 && upage < PHYS_BASE && PgNo(upage) !in pagedir.Space()
      modifies this`kernelPool, pagedir, pagedir.pd, pagedir.tables.Values
      modifies alloc.kernelPool, alloc.kernelPool.usedMap.bits
      ensures Valid() && (!ok ==> Spare(kpage) && kernelPool == old(kernelPool))
      ensures ok <==> old(pagedir.HasTable(upage)) || old(kernelPool) != []
      ensures pagedir.Space() == if ok then old(pagedir.Space())[PgNo(upage) := Mapped(kpage, writable)]
                                 else old(pagedir.Space())
      ensures |kernelPool| + 1 >= |old(kernelPool)|
      ensures Users() == old(Users()) + (if ok then {kpage} else {}) && Kernels() == old(Kernels())
      ensures fresh(pagedir.tables.Values - old(pagedir.tables.Values))
      ensures pagedir.KernelHalf() == old(pagedir.KernelHalf())
    {
      hide UserPages, KernelPages, PoolsOk, Free, FramesWf, PageDirectory.Valid, PageDirectory.Space, KernelPage,
           PgNo, PgOfs, PageDirectory.HasTable, PageDirectory.KernelHalf, Process.AllocOk, Pool.HasPage;
      ghost var space, tables, pool := pagedir.Space(), pagedir.tables.Keys, kernelPool;
      NextTable(space, userPool, kernelPool, tables);
      var page := TakeTable(upage);
      ok := pagedir.SetPage(upage, kpage, writable, page);
      if ok {
        Installed(space, userPool, pool, tables, frames, page, PgNo(upage), Mapped(kpage, writable));
        assert pagedir.tables.Keys == tables + (if page.Some? then {page.value} else {});
      } else {
        assert pagedir.tables.Keys == tables;
      }
    }

    /** The page for a page table, if one is needed. */
    method TakeTable(upage: nat) returns (page: Option<nat>)
      requires AllocOk() && Apart() && pagedir.Valid() && upage < PHYS_BASE
      modifies this`kernelPool, alloc.kernelPool, alloc.kernelPool.usedMap.bits
      ensures AllocOk() && pagedir.Valid() && pagedir.Space() == old(pagedir.Space()) && unchanged(pagedir.pd)
      ensures page == if pagedir.HasTable(upage) || old(kernelPool) == [] then None else Some(old(kernelPool)[0])
      ensures kernelPool == if page.Some? then old(kernelPool)[1..] else old(kernelPool)
    {
      hide PageDirectory.Valid, PageDirectory.Space, PageDirectory.HasTable, PageDirectory.KernelHalf;
      hide Allocator.Valid, Pool.FreePages, Pool.HasPage;
      page := None;
      var needed := pagedir.NeedsTable(upage);
      if needed {
        page := alloc.GetPage(false);
        if page.Some? {
          kernelPool := kernelPool[1..];
        }
      }
    }

    /** file_seek */
    method Seek(ofs: nat)
      requires Valid()
      modifies this`pos
      ensures Valid() && View() == old(View()) && pos == ofs
      ensures Users() == old(Users()) && Kernels() == old(Kernels())
    {
      hide UserPages, KernelPages, Process.AllocOk;
      hide PoolsOk, FramesWf, PageDirectory.Valid, PageDirectory.Space, ViewOf;
      pos := ofs;
    }

    /** file_read into memory at kpage, of which the first bytes are overwritten. */
    method FileRead(kpage: nat, n: nat, bounceOk: bool) returns (got: nat)
      requires kpage in frames && |frames[kpage]| == PGSIZE && n <= PGSIZE
      modifies this`frames, this`pos
      ensures got == Transferred(|file|, n, old(pos), bounceOk) <= n && pos == old(pos) + got
      ensures |Slice(file, old(pos), got)| == got
      ensures frames == old(frames)[kpage := Slice(file, old(pos), got) + old(frames[kpage])[got..]]
      ensures |frames[kpage]| == PGSIZE
    {
      got := Transferred(|file|, n, pos, bounceOk);
      frames := frames[kpage := Slice(file, pos, got) + frames[kpage][got..]];
      pos := pos + got;
    }

    /** memset of the end of the page. */
    method ZeroRest(kpage: nat, n: nat)
      requires kpage in frames && |frames[kpage]| == PGSIZE && n <= PGSIZE
      modifies this`frames
      ensures frames == old(frames)[kpage := old(frames[kpage])[..n] + Zeros(PGSIZE - n)]
      ensures |frames[kpage]| == PGSIZE
    {
      frames := frames[kpage := frames[kpage][..n] + Zeros(PGSIZE - n)];
    }

    /** Get a page and fill it with n bytes of the file and zeros.  After a short read the
        page goes back to the pool. */
    method FillPage(n: nat, bounceOk: bool) returns (kpage: Option<nat>)
      requires Valid() && n <= PGSIZE
      modifies this`pos, this`userPool, this`frames, alloc.userPool, alloc.userPool.usedMap.bits
      ensures Valid() && View() == old(View())
      ensures kpage.Some? <==> old(userPool) != [] && Transferred(|file|, n, old(pos), bounceOk) == n
      ensures kpage.Some? ==>
        && old(userPool) == [kpage.value] + userPool && pos == old(pos) + n && Spare(kpage.value)
        && frames[kpage.value] == Slice(file, old(pos), n) + Zeros(PGSIZE - n)
      ensures kpage.None? ==> userPool == old(userPool)
      ensures old(Users()) == Users() + (if kpage.Some? then {kpage.value} else {}) && Kernels() == old(Kernels())
      ensures pagedir.Space() == old(pagedir.Space()) && unchanged(pagedir.pd)
    {
      hide UserPages, KernelPages;
      hide PoolsOk, Free, FramesWf, ViewOf, PageDirectory.Valid, PageDirectory.Space, KernelPage,
           Transferred, Slice, Zeros;
      hide Process.AllocOk, Pool.HasPage;
      ghost var space, fs, pool := pagedir.Space(), frames, userPool;
      var page := TakeUser();
      if page == None {
        return None;
      }
      PopUser(space, pool, kernelPool, pagedir.tables.Keys);
      UserPop(space, pool);
      TakeFrame(space, fs, pool);
      var k := page.value;
      var got := FileRead(k, n, bounceOk);
      FillFrame(space, fs, userPool, k, frames[k]);
      if got != n {
        PutBack(k);
        assert userPool == pool;
        return None;
      }
      ZeroRest(k, n);
      assert frames == fs[k := Slice(file, old(pos), n) + Zeros(PGSIZE - n)];
      FillFrame(space, fs, userPool, k, frames[k]);
      kpage := Some(k);
    }

    /** palloc_free_page of a page that is in use nowhere. */
    method PutBack(kpage: nat)
      requires Valid() && Spare(kpage)
      modifies this`userPool, alloc.userPool, alloc.userPool.usedMap.bits
      ensures Valid() && View() == old(View()) && userPool == [kpage] + old(userPool)
      ensures Users() == old(Users()) + {kpage} && Kernels() == old(Kernels())
      ensures pagedir.Space() == old(pagedir.Space()) && unchanged(pagedir.pd)
    {
      hide PageDirectory.Valid, PageDirectory.Space, KernelPage, ViewOf, PoolsOk, FramesWf, Free;
      hide Process.AllocOk, UserPages, KernelPages, Pool.HasPage;
      UserPush(pagedir.Space(), userPool, kpage);
      PutFrame(pagedir.Space(), frames, userPool, kpage);
      PushUser(pagedir.Space(), userPool, kernelPool, pagedir.tables.Keys, kpage);
      GiveBack(kpage);
    }

    method GiveBack(kpage: nat)
      requires AllocOk() && Apart() && pagedir.Valid()
      requires alloc.userPool.HasPage(kpage) && forall x | x in userPool :: kpage < x
      requires kpage !in userPool
      modifies this`userPool, alloc.userPool, alloc.userPool.usedMap.bits
      ensures AllocOk() && userPool == [kpage] + old(userPool)
      ensures pagedir.Valid() && pagedir.Space() == old(pagedir.Space()) && unchanged(pagedir.pd)
    {
      hide PageDirectory.Valid, PageDirectory.Space, Allocator.Valid, Pool.FreePages, Pool.HasPage;
      alloc.FreePage(kpage, true);
      userPool := [kpage] + userPool;
    }

    /** palloc_get_page (PAL_USER) */
    method TakeUser() returns (page: Option<nat>)
      requires AllocOk() && Apart() && pagedir.Valid()
      modifies this`userPool, alloc.userPool, alloc.userPool.usedMap.bits
      ensures AllocOk() && pagedir.Valid() && pagedir.Space() == old(pagedir.Space()) && unchanged(pagedir.pd)
      ensures page == if old(userPool) == [] then None else Some(old(userPool)[0])
      ensures userPool == if page.Some? then old(userPool)[1..] else old(userPool)
      ensures page.Some? ==> alloc.userPool.HasPage(page.value) && forall x | x in userPool :: page.value < x
    {
      hide PageDirectory.Valid, PageDirectory.Space, Allocator.Valid, Pool.FreePages, Pool.HasPage;
      page := alloc.GetPage(true);
      if page.Some? {
        userPool := userPool[1..];
      }
    }

    /** One turn of the loop in load_segment: fill a page and map it. */
    method LoadPage(upage: nat, n: nat, writable: bool, bounceOk: bool) returns (ok: bool)
      requires Valid() && PgOfs(upage) == 0 && upage < PHYS_BASE && n <= PGSIZE
      modifies this, pagedir, pagedir.pd, pagedir.tables.Values
      modifies alloc.userPool, alloc.userPool.usedMap.bits, alloc.kernelPool, alloc.kernelPool.usedMap.bits
      ensures Valid()
      ensures ok <==>
        && old(userPool) != [] && Transferred(|file|, n, old(pos), bounceOk) == n
        && PgNo(upage) !in old(View()) && (old(pagedir.HasTable(upage)) || old(kernelPool) != [])
      ensures ok ==>
        && View() == old(View())[PgNo(upage) := PageView(writable, Slice(file, old(pos), n) + Zeros(PGSIZE - n))]
        && pos == old(pos) + n && userPool == old(userPool)[1..]
      ensures !ok ==> View() == old(View()) && userPool == old(userPool) && kernelPool == old(kernelPool)
      ensures Users() == old(Users()) && Kernels() == old(Kernels())
      ensures |kernelPool| + 1 >= |old(kernelPool)|
      ensures fresh(pagedir.tables.Values - old(pagedir.tables.Values))
      ensures pagedir.KernelHalf() == old(pagedir.KernelHalf())
    {
      hide Process.Valid, Process.View, Process.Spare, Process.Users, Process.Kernels, PgNo, PgOfs,
           Transferred, Slice, Zeros, PageDirectory.HasTable, PageDirectory.KernelHalf;
      var kpage := FillPage(n, bounceOk);
      if kpage.None? {
        return false;
      }
      ok := InstallPage(upage, kpage.value, writable);
      if !ok {
        PutBack(kpage.value);
      }
    }

    /** There are pages for n more user pages from p0 on, which are not in use. */
    ghost predicate Enough(n: nat, p0: nat)
      reads this, pagedir, pagedir.pd, pagedir.tables.Values
      reads alloc, alloc.userPool, alloc.userPool.usedMap, alloc.userPool.usedMap.bits
      reads alloc.kernelPool, alloc.kernelPool.usedMap, alloc.kernelPool.usedMap.bits
      requires Valid()
    {
      n <= |userPool| && n <= |kernelPool| && Unmapped(View(), p0, n)
    }

    /** The headers fit, and there are pages for all their segments, their page tables and
        the stack. */
    ghost predicate CanLoad(headers: seq<ProgramHeader>)
      reads this, pagedir, pagedir.pd, pagedir.tables.Values
      reads alloc, alloc.userPool, alloc.userPool.usedMap, alloc.userPool.usedMap.bits
      reads alloc.kernelPool, alloc.kernelPool.usedMap, alloc.kernelPool.usedMap.bits
      requires Valid() && |file| < 0x8000_0000
    {
      && AllFit(View(), file, headers)
      && PagesFrom(headers, 0) + 1 <= |userPool| && PagesFrom(headers, 0) + 1 <= |kernelPool|
    }

    /** load_segment.  On success the address space gains exactly the segment's pages, which
        were unmapped before; on failure it has gained some of the first of them. */
    method LoadSegment(ofs: nat, upage: nat, readBytes: nat, zeroBytes: nat, writable: bool, bounceOk: nat -> bool)
      returns (ok: bool)
      requires Valid() && (readBytes + zeroBytes) % PGSIZE == 0 && PgOfs(upage) == 0 && ofs % PGSIZE == 0
      requires upage + readBytes + zeroBytes <= PHYS_BASE
      modifies this, pagedir, pagedir.pd, pagedir.tables.Values
      modifies alloc.userPool, alloc.userPool.usedMap.bits, alloc.kernelPool, alloc.kernelPool.usedMap.bits
      ensures Valid()
      ensures ok ==>
        var p0, n := PgNo(upage), (readBytes + zeroBytes) / PGSIZE;
        && View() == old(View()) + SegmentView(file, ofs, readBytes, p0, n, writable)
        && Unmapped(old(View()), p0, n) && (readBytes > 0 ==> ofs + readBytes <= |file|)
      ensures !ok ==>
        exists i | 0 <= i < (readBytes + zeroBytes) / PGSIZE ::
          View() == old(View()) + SegmentView(file, ofs, readBytes, PgNo(upage), i, writable)
          && Unmapped(old(View()), PgNo(upage), i)
      ensures old(Enough((readBytes + zeroBytes) / PGSIZE, PgNo(upage)))
              && (readBytes > 0 ==> ofs + readBytes <= |file|) && (forall i :: bounceOk(i))
              ==> ok
      ensures ok ==> |userPool| + (readBytes + zeroBytes) / PGSIZE == |old(userPool)|
      ensures |kernelPool| + (readBytes + zeroBytes) / PGSIZE >= |old(kernelPool)|
      ensures Users() == old(Users()) && Kernels() == old(Kernels())
      ensures fresh(pagedir.tables.Values - old(pagedir.tables.Values))
      ensures pagedir.KernelHalf() == old(pagedir.KernelHalf())
    {
      hide Process.Users, Process.Kernels;
      hide Process.Valid, Process.View, SegmentView, PgNo, PgOfs, Transferred, Slice, Zeros, PageImage,
           PageDirectory.HasTable, PageDirectory.KernelHalf;
      ghost var p0, n := PgNo(upage), (readBytes + zeroBytes) / PGSIZE;
      ghost var v0 := View();
      Seek(ofs);
      var left, zero, up := readBytes, zeroBytes, upage;
      var i: nat := 0;
      NoPages(v0, file, ofs, readBytes, p0, writable);
      while left > 0 || zero > 0
        invariant Valid() && i <= n && left + zero == PGSIZE * (n - i) && up == upage + PGSIZE * i
        invariant left == if PGSIZE * i < readBytes then readBytes - PGSIZE * i else 0
        invariant left < readBytes ==> ofs + readBytes - left <= |file|
        invariant left > 0 ==> pos == ofs + PGSIZE * i
        invariant View() == v0 + SegmentView(file, ofs, readBytes, p0, i, writable) && Unmapped(v0, p0, i)
        invariant |userPool| + i == |old(userPool)| && |kernelPool| + i >= |old(kernelPool)|
        invariant Users() == old(Users()) && Kernels() == old(Kernels())
        invariant fresh(pagedir.tables.Values - old(pagedir.tables.Values))
        invariant pagedir.KernelHalf() == old(pagedir.KernelHalf())
        decreases left + zero
      {
        var pageRead := if left < PGSIZE then left else PGSIZE;
        var pageZero := PGSIZE - pageRead;
        PageNumbers(upage, i);
        TransferIff(|file|, pageRead, pos, bounceOk(i));
        NotYet(v0, file, ofs, readBytes, p0, i, writable);
        ghost var at := pos;
        ok := LoadPage(up, pageRead, writable, bounceOk(i));
        if !ok {
          return false;
        }
        SliceIsImage(file, ofs, readBytes, p0, i, at, pageRead);
        OnePageMore(v0, file, ofs, readBytes, p0, i, writable);
        left := left - pageRead;
        zero := zero - pageZero;
        up := up + PGSIZE;
        i := i + 1;
      }
      ok := true;
    }

    /** The PT_LOAD case of load: check the header, then load the segment. */
    method LoadHeader(h: ProgramHeader, bounceOk: nat -> bool) returns (ok: bool)
      requires Valid() && |file| < 0x8000_0000
      modifies this, pagedir, pagedir.pd, pagedir.tables.Values
      modifies alloc.userPool, alloc.userPool.usedMap.bits, alloc.kernelPool, alloc.kernelPool.usedMap.bits
      ensures Valid() && Extends(old(View()), View())
      ensures ok ==> Validate(h, |file|) && SegmentIn(View(), file, h)
      ensures ok ==> Unmapped(old(View()), FirstPage(h), PageCount(h))
      ensures ok ==> forall p :: p in View() <==> p in old(View()) || InPages(h, p)
      ensures HeaderOk(h, file) && old(Enough(PageCount(h), FirstPage(h))) && (forall i :: bounceOk(i)) ==> ok
      ensures ok ==> |userPool| + PageCount(h) == |old(userPool)| && |kernelPool| + PageCount(h) >= |old(kernelPool)|
      ensures Users() == old(Users()) && Kernels() == old(Kernels())
      ensures forall p | p in View() && p !in old(View()) :: 1 <= p < USER_PAGES
      ensures fresh(pagedir.tables.Values - old(pagedir.tables.Values))
      ensures pagedir.KernelHalf() == old(pagedir.KernelHalf())
    {
      hide Process.Valid, Process.View, SegmentView, PgNo, PgOfs, PageDirectory.KernelHalf, Validate, SegmentIn,
           Unmapped, Extends, PlanFor, Process.Enough, Process.Users, Process.Kernels;
      ghost var v0 := View();
      ExtendsRefl(v0);
      if !Validate(h, |file|) {
        return false;
      }
      var plan := PlanFor(h);
      PlanOk(h, |file|);
      PlanPages(plan.memPage, plan.readBytes + plan.zeroBytes);
      var writable := And(h.flags, PF_W) != 0;
      WritableBit(h.flags);
      ok := LoadSegment(plan.filePage, plan.memPage, plan.readBytes, plan.zeroBytes, writable, bounceOk);
      ghost var p0, n := PgNo(plan.memPage), (plan.readBytes + plan.zeroBytes) / PGSIZE;
      if ok {
        ExtendsSegment(v0, file, plan.filePage, plan.readBytes, p0, n, writable);
        SegmentViewHolds(v0, file, h, n);
      } else {
        ghost var i :| 0 <= i < n && Unmapped(v0, p0, i)
          && View() == v0 + SegmentView(file, plan.filePage, plan.readBytes, p0, i, writable);
        ExtendsSegment(v0, file, plan.filePage, plan.readBytes, p0, i, writable);
      }
    }

    /** setup_stack: a zeroed, writable page below the kernel's base.  A page without file
        bytes is a zeroed page. */
    method SetupStack() returns (ok: bool)
      requires Valid()
      modifies this, pagedir, pagedir.pd, pagedir.tables.Values
      modifies alloc.userPool, alloc.userPool.usedMap.bits, alloc.kernelPool, alloc.kernelPool.usedMap.bits
      ensures Valid() && Extends(old(View()), View())
      ensures ok <==>
        && old(userPool) != [] && USER_PAGES - 1 !in old(View())
        && (old(pagedir.HasTable(PHYS_BASE - PGSIZE)) || old(kernelPool) != [])
      ensures View() == if ok then old(View())[USER_PAGES - 1 := PageView(true, Zeros(PGSIZE))] else old(View())
      ensures Users() == old(Users()) && Kernels() == old(Kernels())
      ensures fresh(pagedir.tables.Values - old(pagedir.tables.Values))
      ensures pagedir.KernelHalf() == old(pagedir.KernelHalf())
    {
      hide Process.Valid, Process.View, PageDirectory.KernelHalf, PageDirectory.HasTable, Transferred, Extends, Zeros;
      hide Process.Users, Process.Kernels;
      ghost var v0 := View();
      ExtendsRefl(v0);
      NoBytes(file, pos);
      ok := LoadPage(PHYS_BASE - PGSIZE, 0, true, true);
      if ok { ExtendsAdd(v0, USER_PAGES - 1, PageView(true, Zeros(PGSIZE))); }
    }

    /** The program headers of load, in order, and then the stack: on success every
        loadable segment is in memory as the file says and none has overwritten another.
        It needs headers that fit, and with enough pages they suffice. */
    method Load(headers: seq<ProgramHeader>, bounceOk: (nat, nat) -> bool) returns (ok: bool)
      requires Valid() && |file| < 0x8000_0000
      modifies this, pagedir, pagedir.pd, pagedir.tables.Values
      modifies alloc.userPool, alloc.userPool.usedMap.bits, alloc.kernelPool, alloc.kernelPool.usedMap.bits
      ensures Valid() && Extends(old(View()), View())
      ensures ok ==> AllIn(View(), file, headers, |headers|)
      ensures ok ==> AllFit(old(View()), file, headers) && PagesFrom(headers, 0) + 1 <= |old(userPool)|
      ensures old(CanLoad(headers)) && (forall i, j :: bounceOk(i, j)) ==> ok
      ensures Users() == old(Users()) && Kernels() == old(Kernels())
      ensures ok ==> USER_PAGES - 1 in View() && View()[USER_PAGES - 1] == PageView(true, Zeros(PGSIZE))
      ensures forall p | p in View() && p !in old(View()) :: 1 <= p < USER_PAGES
      ensures fresh(pagedir.tables.Values - old(pagedir.tables.Values))
      ensures pagedir.KernelHalf() == old(pagedir.KernelHalf())
    {
      hide Process.Valid, Process.View, PageDirectory.KernelHalf, PageDirectory.HasTable, Extends, Zeros,
           AllIn, AllFit, FitTo, InOne, PagesFrom, Process.Users, Process.Kernels;
      ghost var v0 := View();
      ghost var enough := CanLoad(headers) && forall i, j :: bounceOk(i, j);
      ok := LoadSegments(headers, bounceOk);
      if ok {
        ghost var v := View();
        if enough { StackFree(v0, v, file, headers); }
        ok := SetupStack();
        if ok { AllFitNow(v0, v, file, headers); }
        ExtendsTransitive(v0, v, View());
        AllInExtends(v, View(), file, headers, |headers|);
      }
    }

    /** The loop over the program headers. */
    method LoadSegments(headers: seq<ProgramHeader>, bounceOk: (nat, nat) -> bool) returns (ok: bool)
      requires Valid() && |file| < 0x8000_0000
      modifies this, pagedir, pagedir.pd, pagedir.tables.Values
      modifies alloc.userPool, alloc.userPool.usedMap.bits, alloc.kernelPool, alloc.kernelPool.usedMap.bits
      ensures Valid() && Extends(old(View()), View())
      ensures ok ==>
        && AllIn(View(), file, headers, |headers|) && FitTo(old(View()), file, headers, |headers|)
        && (forall p :: p in View() <==> p in old(View()) || InOne(headers, |headers|, p))
        && |userPool| + PagesFrom(headers, 0) == |old(userPool)|
      ensures old(CanLoad(headers)) && (forall i, j :: bounceOk(i, j)) ==> ok && userPool != [] && kernelPool != []
      ensures Users() == old(Users()) && Kernels() == old(Kernels())
      ensures forall p | p in View() && p !in old(View()) :: 1 <= p < USER_PAGES
      ensures fresh(pagedir.tables.Values - old(pagedir.tables.Values))
      ensures pagedir.KernelHalf() == old(pagedir.KernelHalf())
    {
      hide Process.Valid, Process.View, PageDirectory.KernelHalf, PageDirectory.HasTable, Extends, AllFit, PagesFrom,
           AllIn, FitTo, InOne, Process.Users, Process.Kernels;
      ghost var v0 := View();
      ghost var enough := CanLoad(headers) && forall i, j :: bounceOk(i, j);
      ExtendsRefl(v0);
      NothingYet(v0, file, headers);
      LastPages(headers);
      for i := 0 to |headers|
        invariant Valid() && Loaded(v0, View(), file, headers, i)
        invariant enough ==> PagesFrom(headers, i) + 1 <= |userPool| && PagesFrom(headers, i) + 1 <= |kernelPool|
        invariant |userPool| + PagesFrom(headers, 0) == |old(userPool)| + PagesFrom(headers, i)
        invariant forall p | p in View() && p !in v0 :: 1 <= p < USER_PAGES
        invariant Users() == old(Users()) && Kernels() == old(Kernels())
        invariant fresh(pagedir.tables.Values - old(pagedir.tables.Values))
        invariant pagedir.KernelHalf() == old(pagedir.KernelHalf())
      {
        ok := LoadOne(headers, i, v0, (j: nat) => bounceOk(i, j));
        if !ok {
          return false;
        }
      }
      ok := true;
    }

    /** One program header, after the first i. */
    method LoadOne(headers: seq<ProgramHeader>, i: nat, ghost v0: map<nat, PageView>, bounceOk: nat -> bool)
      returns (ok: bool)
      requires Valid() && |file| < 0x8000_0000 && i < |headers| && Loaded(v0, View(), file, headers, i)
      modifies this, pagedir, pagedir.pd, pagedir.tables.Values
      modifies alloc.userPool, alloc.userPool.usedMap.bits, alloc.kernelPool, alloc.kernelPool.usedMap.bits
      ensures Valid() && Extends(v0, View()) && (ok ==> Loaded(v0, View(), file, headers, i + 1))
      ensures ok ==>
        && |userPool| + PagesFrom(headers, i) == |old(userPool)| + PagesFrom(headers, i + 1)
        && |kernelPool| + PagesFrom(headers, i) >= |old(kernelPool)| + PagesFrom(headers, i + 1)
      ensures AllFit(v0, file, headers) && (forall j :: bounceOk(j))
              && PagesFrom(headers, i) <= |old(userPool)| && PagesFrom(headers, i) <= |old(kernelPool)|
              ==> ok
      ensures Users() == old(Users()) && Kernels() == old(Kernels())
      ensures forall p | p in View() && p !in old(View()) :: 1 <= p < USER_PAGES
      ensures fresh(pagedir.tables.Values - old(pagedir.tables.Values))
      ensures pagedir.KernelHalf() == old(pagedir.KernelHalf())
    {
      hide Process.Valid, Process.View, PageDirectory.KernelHalf, PageDirectory.HasTable, Extends, SegmentIn,
           Validate, AllIn, AllFit, FitTo, InOne, FirstPage, PageCount, Unmapped, Process.Users, Process.Kernels;
      ghost var v := View();
      var kind := headers[i].kind;
      if AllFit(v0, file, headers) { FitsNow(v0, v, file, headers, i); }
      if kind == PT_DYNAMIC || kind == PT_INTERP || kind == PT_SHLIB {
        return false;
      }
      if kind == PT_LOAD {
        ok := LoadHeader(headers[i], bounceOk);
        ExtendsTransitive(v0, v, View());
        AllInExtends(v, View(), file, headers, i);
        if !ok {
          return false;
        }
      }
      OneHeaderMore(v0, v, View(), file, headers, i);
      ok := true;
    }
  }

  /** Whatever was loaded, destroying the page directory at exit gives back every frame,
      every page table and the directory exactly once. */
  lemma ExitFreesOnce(process: Process)
    requires process.Valid() && process.pagedir.base !in process.pagedir.tables
    requires forall p | p in process.pagedir.Space() :: process.pagedir.Space()[p].page != process.pagedir.base
    ensures var dir, mem, base := process.pagedir.pd[..], process.pagedir.Mem(), process.pagedir.base;
      && NoDup(Pages(dir, mem, USER_ENTRIES) + [base])
      && forall x :: x in Pages(dir, mem, USER_ENTRIES) + [base] <==>
           x == base || IsTable(dir, x) || IsFrame(dir, mem, x)
  {
    var dir, mem, base := process.pagedir.pd[..], process.pagedir.Mem(), process.pagedir.base;
    hide WellFormed, PageMap.Maps, TableOf, Pages, FramesWf, NoDup;
    FormHasEntries(dir, mem);
    assert mem.Keys == process.pagedir.tables.Keys;
    forall i: nat | i < USER_ENTRIES && dir[i] != 0
      ensures TableOf(dir[i]) in process.pagedir.tables.Keys
    {
      EntriesOk(dir, mem, i);
    }
    FreedOnce(dir, mem, base);
  }

  // ----- Headers that can be loaded together

  predicate InPages(h: ProgramHeader, p: nat) {
    FirstPage(h) <= p < FirstPage(h) + PageCount(h)
  }

  /** The header describes a segment of this file. */
  predicate HeaderOk(h: ProgramHeader, file: seq<Byte>)
    requires |file| < 0x8000_0000
  {
    Validate(h, |file|) && (h.filesz > 0 ==> h.offset + h.filesz <= |file|)
  }

  ghost predicate PagesApart(h: ProgramHeader, g: ProgramHeader) {
    forall p: nat :: !(InPages(h, p) && InPages(g, p))
  }

  /** How many pages the loadable headers from number i on take. */
  function PagesFrom(headers: seq<ProgramHeader>, i: nat): nat
    requires i <= |headers|
    decreases |headers| - i
  {
    if i == |headers| then 0
    else (if headers[i].kind == PT_LOAD then PageCount(headers[i]) else 0) + PagesFrom(headers, i + 1)
  }

  /** The first n headers are of kinds that load accepts; the loadable ones are valid, and
      their pages are apart from each other and from what was there before. */
  ghost predicate FitTo(view: map<nat, PageView>, file: seq<Byte>, headers: seq<ProgramHeader>, n: nat)
    requires n <= |headers| && |file| < 0x8000_0000
  {
    && (forall i | 0 <= i < n :: FitsOne(view, file, headers[i]))
    && (forall i, j | 0 <= i < j < n && headers[i].kind == PT_LOAD && headers[j].kind == PT_LOAD ::
          PagesApart(headers[i], headers[j]))
  }

  ghost predicate FitsOne(view: map<nat, PageView>, file: seq<Byte>, h: ProgramHeader)
    requires |file| < 0x8000_0000
  {
    && h.kind != PT_DYNAMIC && h.kind != PT_INTERP && h.kind != PT_SHLIB
    && (h.kind == PT_LOAD ==> HeaderOk(h, file) && Unmapped(view, FirstPage(h), PageCount(h)))
  }

  /** All headers fit, and the page below the kernel stays free for the stack. */
  ghost predicate AllFit(view: map<nat, PageView>, file: seq<Byte>, headers: seq<ProgramHeader>)
    requires |file| < 0x8000_0000
  {
    FitTo(view, file, headers, |headers|) && USER_PAGES - 1 !in view && !InOne(headers, |headers|, USER_PAGES - 1)
  }

  /** Page p belongs to one of the first n segments. */
  ghost predicate InOne(headers: seq<ProgramHeader>, n: nat, p: nat)
    requires n <= |headers|
  {
    exists i | 0 <= i < n :: headers[i].kind == PT_LOAD && InPages(headers[i], p)
  }

  /** The first i headers are loaded, and nothing else. */
  ghost predicate Loaded(v0: map<nat, PageView>, v: map<nat, PageView>, file: seq<Byte>,
                         headers: seq<ProgramHeader>, i: nat)
    requires i <= |headers| && |file| < 0x8000_0000
  {
    && Extends(v0, v) && AllIn(v, file, headers, i) && FitTo(v0, file, headers, i)
    && forall p :: p in v <==> p in v0 || InOne(headers, i, p)
  }

  lemma LastPages(headers: seq<ProgramHeader>)
    ensures PagesFrom(headers, |headers|) == 0
  {
  }

  lemma NothingYet(view: map<nat, PageView>, file: seq<Byte>, headers: seq<ProgramHeader>)
    requires |file| < 0x8000_0000
    ensures AllIn(view, file, headers, 0) && FitTo(view, file, headers, 0)
    ensures forall p: nat :: !InOne(headers, 0, p)
  {
  }

  lemma FitsNow(v0: map<nat, PageView>, v: map<nat, PageView>, file: seq<Byte>, headers: seq<ProgramHeader>, i: nat)
    requires |file| < 0x8000_0000 && i < |headers| && AllFit(v0, file, headers)
    requires forall p :: p in v <==> p in v0 || InOne(headers, i, p)
    ensures FitsOne(v, file, headers[i])
  {
    hide HeaderOk, FirstPage, PageCount;
    var h := headers[i];
    assert FitsOne(v0, file, h);
    if h.kind == PT_LOAD {
      forall p: nat | InPages(h, p) ensures p !in v {
        forall j | 0 <= j < i && headers[j].kind == PT_LOAD ensures !InPages(headers[j], p) {
          assert PagesApart(headers[j], headers[i]);
        }
      }
    }
  }

  lemma OneHeaderMore(v0: map<nat, PageView>, v: map<nat, PageView>, v': map<nat, PageView>, file: seq<Byte>,
                      headers: seq<ProgramHeader>, i: nat)
    requires |file| < 0x8000_0000 && i < |headers| && FitTo(v0, file, headers, i) && AllIn(v', file, headers, i)
    requires forall p :: p in v <==> p in v0 || InOne(headers, i, p)
    requires HeaderIn(v', file, headers[i])
    requires if headers[i].kind == PT_LOAD then
               && Unmapped(v, FirstPage(headers[i]), PageCount(headers[i]))
               && (forall p :: p in v' <==> p in v || InPages(headers[i], p))
             else v' == v
    ensures FitTo(v0, file, headers, i + 1) && AllIn(v', file, headers, i + 1)
    ensures forall p :: p in v' <==> p in v0 || InOne(headers, i + 1, p)
  {
    hide Validate, SegmentIn, FirstPage, PageCount;
    var h := headers[i];
    if h.kind == PT_LOAD {
      SegmentHasBytes(v', file, h);
      forall j | 0 <= j < i && headers[j].kind == PT_LOAD ensures PagesApart(headers[j], h) {
        forall p: nat | InPages(h, p) ensures !InPages(headers[j], p) {
          assert p !in v;
        }
      }
    }
    forall p: nat ensures InOne(headers, i + 1, p) <==> InOne(headers, i, p) || (h.kind == PT_LOAD && InPages(h, p)) {
    }
  }

  lemma SegmentHasBytes(view: map<nat, PageView>, file: seq<Byte>, h: ProgramHeader)
    requires SegmentIn(view, file, h)
    ensures h.filesz > 0 ==> h.offset + h.filesz <= |file|
  {
  }

  lemma StackFree(v0: map<nat, PageView>, v: map<nat, PageView>, file: seq<Byte>, headers: seq<ProgramHeader>)
    requires |file| < 0x8000_0000 && AllFit(v0, file, headers)
    requires forall p :: p in v <==> p in v0 || InOne(headers, |headers|, p)
    ensures USER_PAGES - 1 !in v
  {
    hide InOne, FitTo;
  }

  lemma AllFitNow(v0: map<nat, PageView>, v: map<nat, PageView>, file: seq<Byte>, headers: seq<ProgramHeader>)
    requires |file| < 0x8000_0000 && FitTo(v0, file, headers, |headers|) && USER_PAGES - 1 !in v
    requires forall p :: p in v <==> p in v0 || InOne(headers, |headers|, p)
    ensures AllFit(v0, file, headers)
  {
    hide InOne, FitTo;
  }

  // ----- What a program sees

  /** v' has every page of v, unchanged. */
  ghost predicate Extends(v: map<nat, PageView>, v': map<nat, PageView>) {
    forall p | p in v :: p in v' && v'[p] == v[p]
  }

  /** The byte at user address va is b, on a page with the given permission. */
  ghost predicate HoldsByte(view: map<nat, PageView>, va: nat, writable: bool, b: Byte) {
    && PgNo(va) in view && |view[PgNo(va)].bytes| == PGSIZE
    && view[PgNo(va)].writable == writable && view[PgNo(va)].bytes[PgOfs(va)] == b
  }

  /** What the header says about address va. */
  function HeaderByte(file: seq<Byte>, h: ProgramHeader, va: nat): Byte
    requires va >= h.vaddr
  {
    if va < h.vaddr + h.filesz && h.offset + (va - h.vaddr) < |file| then file[h.offset + (va - h.vaddr)] else 0
  }

  /** PF_W is bit 1 of the flags. */
  lemma WritableBit(flags: nat)
    ensures And(flags, PF_W) != 0 <==> (flags / 2) % 2 == 1
  {
    Bit1Mask(flags);
  }

  /** The segment of header h is in memory: its file part from the file, the rest zero. */
  ghost predicate SegmentIn(view: map<nat, PageView>, file: seq<Byte>, h: ProgramHeader) {
    && (h.filesz > 0 ==> h.offset + h.filesz <= |file|)
    && forall va: nat | h.vaddr <= va < h.vaddr + h.memsz ::
         HoldsByte(view, va, (h.flags / 2) % 2 == 1, HeaderByte(file, h, va))
  }

  ghost predicate AllIn(view: map<nat, PageView>, file: seq<Byte>, headers: seq<ProgramHeader>, n: nat)
    requires n <= |headers| && |file| < 0x8000_0000
  {
    forall i | 0 <= i < n :: HeaderIn(view, file, headers[i])
  }

  ghost predicate HeaderIn(view: map<nat, PageView>, file: seq<Byte>, h: ProgramHeader)
    requires |file| < 0x8000_0000
  {
    && h.kind != 2 && h.kind != 3 && h.kind != 5
    && (h.kind == 1 ==> Validate(h, |file|) && SegmentIn(view, file, h))
  }

  lemma ExtendsRefl(v: map<nat, PageView>)
    ensures Extends(v, v)
  {
  }

  lemma ExtendsTransitive(u: map<nat, PageView>, v: map<nat, PageView>, w: map<nat, PageView>)
    requires Extends(u, v) && Extends(v, w)
    ensures Extends(u, w)
  {
  }

  lemma ExtendsAdd(v: map<nat, PageView>, p: nat, x: PageView)
    requires p !in v
    ensures Extends(v, v[p := x])
  {
  }

  lemma ExtendsSegment(v: map<nat, PageView>, file: seq<Byte>, ofs: nat, readBytes: nat, p0: nat, n: nat,
                       writable: bool)
    requires Unmapped(v, p0, n)
    ensures Extends(v, v + SegmentView(file, ofs, readBytes, p0, n, writable))
    ensures forall p :: p in v + SegmentView(file, ofs, readBytes, p0, n, writable) <==> p in v || p0 <= p < p0 + n
  {
    hide PageImage;
  }

  lemma SegmentExtends(v: map<nat, PageView>, v': map<nat, PageView>, file: seq<Byte>, h: ProgramHeader)
    requires Extends(v, v') && SegmentIn(v, file, h)
    ensures SegmentIn(v', file, h)
  {
    hide HeaderByte, PgNo, PgOfs;
    forall va: nat | h.vaddr <= va < h.vaddr + h.memsz
      ensures HoldsByte(v', va, (h.flags / 2) % 2 == 1, HeaderByte(file, h, va))
    {
      assert HoldsByte(v, va, (h.flags / 2) % 2 == 1, HeaderByte(file, h, va));
    }
  }

  lemma AllInExtends(v: map<nat, PageView>, v': map<nat, PageView>, file: seq<Byte>, headers: seq<ProgramHeader>,
                     n: nat)
    requires n <= |headers| && |file| < 0x8000_0000 && Extends(v, v') && AllIn(v, file, headers, n)
    ensures AllIn(v', file, headers, n)
  {
    hide SegmentIn, Extends, Validate;
    forall i | 0 <= i < n ensures HeaderIn(v', file, headers[i]) {
      assert HeaderIn(v, file, headers[i]);
      if headers[i].kind == 1 { SegmentExtends(v, v', file, headers[i]); }
    }
  }

  lemma PlanPages(memPage: nat, total: nat)
    requires memPage % PGSIZE == 0 && PGSIZE <= memPage && memPage + total <= PHYS_BASE
    ensures PgOfs(memPage) == 0 && 1 <= PgNo(memPage) && PgNo(memPage) + total / PGSIZE <= USER_PAGES
  {
  }

  lemma NoBytes(file: seq<Byte>, at: nat)
    ensures Transferred(|file|, 0, at, true) == 0
    ensures Slice(file, at, 0) + Zeros(PGSIZE) == Zeros(PGSIZE)
    ensures PgOfs(PHYS_BASE - PGSIZE) == 0 && PgNo(PHYS_BASE - PGSIZE) == USER_PAGES - 1
  {
  }

  /** The pages of the plan hold the segment byte for byte. */
  lemma SegmentViewHolds(v0: map<nat, PageView>, file: seq<Byte>, h: ProgramHeader, n: nat)
    requires |file| < 0x8000_0000 && Validate(h, |file|)
    requires n == (PlanFor(h).readBytes + PlanFor(h).zeroBytes) / PGSIZE
    requires PlanFor(h).readBytes > 0 ==> PlanFor(h).filePage + PlanFor(h).readBytes <= |file|
    ensures SegmentIn(v0 + SegmentView(file, PlanFor(h).filePage, PlanFor(h).readBytes, PgNo(PlanFor(h).memPage), n,
                                       (h.flags / 2) % 2 == 1), file, h)
  {
    var plan := PlanFor(h);
    var w := (h.flags / 2) % 2 == 1;
    PlanOk(h, |file|);
    hide PlanFor, Validate, PgNo, PgOfs;
    var sv := SegmentView(file, plan.filePage, plan.readBytes, PgNo(plan.memPage), n, w);
    forall va: nat | h.vaddr <= va < h.vaddr + h.memsz
      ensures HoldsByte(v0 + sv, va, w, HeaderByte(file, h, va))
    {
      var k := va - plan.memPage;
      AddressIn(plan.memPage, k, n);
      assert PageImage(file, plan.filePage, plan.readBytes, PgNo(plan.memPage), PgNo(va))[PgOfs(va)]
          == ImageByte(file, plan.filePage, plan.readBytes, k);
    }
  }

  lemma AddressIn(memPage: nat, k: nat, n: nat)
    requires memPage % PGSIZE == 0 && k < PGSIZE * n
    ensures PgOfs(memPage + k) < PGSIZE
    ensures PgNo(memPage) <= PgNo(memPage + k) < PgNo(memPage) + n
    ensures PGSIZE * (PgNo(memPage + k) - PgNo(memPage)) + PgOfs(memPage + k) == k
  {
    ModUnique(memPage + k, PGSIZE, memPage / PGSIZE + k / PGSIZE, k % PGSIZE);
  }

  /** None of the n pages from p0 on is mapped. */
  ghost predicate Unmapped(view: map<nat, PageView>, p0: nat, n: nat) {
    forall p | p0 <= p < p0 + n :: p !in view
  }

  lemma NoPages(view: map<nat, PageView>, file: seq<Byte>, ofs: nat, readBytes: nat, p0: nat, writable: bool)
    ensures view + SegmentView(file, ofs, readBytes, p0, 0, writable) == view && Unmapped(view, p0, 0)
  {
  }

  lemma NotYet(view: map<nat, PageView>, file: seq<Byte>, ofs: nat, readBytes: nat, p0: nat, i: nat, writable: bool)
    ensures p0 + i in view + SegmentView(file, ofs, readBytes, p0, i, writable) <==> p0 + i in view
  {
  }

  lemma OnePageMore(view: map<nat, PageView>, file: seq<Byte>, ofs: nat, readBytes: nat, p0: nat, i: nat,
                    writable: bool)
    ensures view + SegmentView(file, ofs, readBytes, p0, i + 1, writable) ==
            (view + SegmentView(file, ofs, readBytes, p0, i, writable))
              [p0 + i := PageView(writable, PageImage(file, ofs, readBytes, p0, p0 + i))]
    ensures Unmapped(view, p0, i) && p0 + i !in view ==> Unmapped(view, p0, i + 1)
  {
    hide PageImage;
  }

  lemma PageNumbers(upage: nat, i: nat)
    requires PgOfs(upage) == 0
    ensures PgOfs(upage + PGSIZE * i) == 0 && PgNo(upage + PGSIZE * i) == PgNo(upage) + i
  {
    ModUnique(upage + PGSIZE * i, PGSIZE, upage / PGSIZE + i, 0);
  }

  /** A read is complete just when the file has the bytes, given room for a bounce buffer. */
  lemma TransferIff(length: nat, n: nat, at: nat, ok: bool)
    ensures Transferred(length, n, at, ok) == n ==> n == 0 || at + n <= length
    ensures (n == 0 || at + n <= length) && ok ==> Transferred(length, n, at, ok) == n
  {
  }

  lemma SliceIsImage(file: seq<Byte>, ofs: nat, readBytes: nat, p0: nat, i: nat, at: nat, n: nat)
    requires n == if PGSIZE * i < readBytes then Min(PGSIZE, readBytes - PGSIZE * i) else 0
    requires n > 0 ==> at == ofs + PGSIZE * i && at + n <= |file|
    ensures Slice(file, at, n) + Zeros(PGSIZE - n) == PageImage(file, ofs, readBytes, p0, p0 + i)
  {
    var s, t := Slice(file, at, n) + Zeros(PGSIZE - n), PageImage(file, ofs, readBytes, p0, p0 + i);
    assert |s| == |t|;
    forall b | 0 <= b < PGSIZE ensures s[b] == t[b] {
      assert t[b] == ImageByte(file, ofs, readBytes, PGSIZE * i + b);
    }
  }

  lemma PushUser(space: map<nat, Mapped>, userPool: seq<nat>, kernelPool: seq<nat>, tables: set<nat>, x: nat)
    requires PoolsOk(space, userPool, kernelPool, tables) && KernelPage(x) && Free(x, userPool, kernelPool, tables)
    requires forall p | p in space :: space[p].page != x
    ensures PoolsOk(space, [x] + userPool, kernelPool, tables)
  {
    assert ([x] + userPool)[1..] == userPool;
    forall p | p in space ensures Free(space[p].page, [x] + userPool, kernelPool, tables) {
      assert Free(space[p].page, userPool, kernelPool, tables);
    }
  }

  /** The free pages of the allocator can be handed to a process. */
  lemma FreePools(alloc: Allocator)
    requires alloc.Valid()
    ensures PoolsOk(map[], alloc.userPool.FreePages(), alloc.kernelPool.FreePages(), {})
  {
    hide RunsOk, MarksUnion, FreeFrom, NoDup;
    var u, k := alloc.userPool, alloc.kernelPool;
    FreeNoDup(u.usedMap.Contents(), u.base, 0);
    FreeNoDup(k.usedMap.Contents(), k.base, 0);
    forall x | x in k.FreePages() ensures KernelPage(x) && x < u.base {
      var j := FreeIs(k.usedMap.Contents(), k.base, 0, x);
    }
    forall x | x in u.FreePages() ensures KernelPage(x) && x >= u.base {
      var j := FreeIs(u.usedMap.Contents(), u.base, 0, x);
    }
  }
}
