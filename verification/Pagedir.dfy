/** User address spaces in hardware page tables. */
module Pagedir {
  import opened Options
  import opened Palloc
  import opened Pte
  import opened PageMap

  /** The place of one table entry. */
  datatype Slot = Slot(pt: nat, index: nat)

  class PageDirectory {
    /** Kernel virtual address of the directory's page. */
    const base: nat
    const pd: array<nat>
    /** The page tables in memory, by kernel virtual address. */
    var tables: map<nat, array<nat>>

    ghost function Mem(): map<nat, seq<nat>>
      reads this, tables.Values
    {
      map a | a in tables :: tables[a][..]
    }

    /** Page tables are pages of the kernel, all different. */
    ghost predicate Separate()
      reads this
    {
      && pd !in tables.Values
      && (forall a | a in tables :: KernelPage(a) && tables[a].Length == ENTRIES)
      && (forall a, b | a in tables && b in tables && a != b :: tables[a] != tables[b])
    }

    /** Every page table in memory is in the directory. */
    ghost predicate Reached()
      reads this, pd
    {
      pd.Length == ENTRIES && forall a | a in tables :: IsTable(pd[..], a)
    }

    ghost predicate Valid()
      reads this, pd, tables.Values
    {
      Separate() && WellFormed(pd[..], Mem()) && Reached()
    }

    /** The address space: user page numbers with their frames. */
    ghost function Space(): map<nat, Mapped>
      reads this, pd, tables.Values
      requires Valid()
    {
      Maps(pd[..], Mem())
    }

    /** The entries for the kernel's addresses. */
    ghost function KernelHalf(): seq<nat>
      reads pd
    {
      if USER_ENTRIES <= pd.Length then pd[USER_ENTRIES..] else []
    }

    /** Does the directory have a page table for va? */
    ghost predicate HasTable(va: nat)
      reads pd
    {
      PdNo(va) < pd.Length && pd[PdNo(va)] != 0
    }

    /** A new directory shares the kernel's half and maps no user page. */
    constructor (base: nat, initPageDir: seq<nat>)
      requires |initPageDir| == ENTRIES && forall i | 0 <= i < USER_ENTRIES :: initPageDir[i] == 0
      ensures Valid() && Space() == map[]
      ensures this.base == base && pd[..] == initPageDir && fresh(pd) && tables == map[]
    {
      this.base := base;
      pd := new nat[ENTRIES](i requires 0 <= i < ENTRIES => initPageDir[i]);
      tables := map[];
      new;
      assert pd[..] == initPageDir;
      assert Mem() == map[];
      EmptySpace(initPageDir);
    }

    /** The slot for va, making a page table when one is missing and wanted, which is never
        for a kernel address.  `page` is what the page allocator returns when asked for a
        zeroed page. */
    method LookupPage(va: nat, create: bool, page: Option<nat>) returns (pte: Option<Slot>)
      requires Valid() && va < WORD && (create ==> va < PHYS_BASE)
      requires va >= PHYS_BASE && HasTable(va) ==> Present(pd[PdNo(va)]) && InWindow(pd[PdNo(va)])
      requires page.Some? ==> KernelPage(page.value) && page.value !in tables
      modifies if create then {this, pd} else {}
      ensures Valid() && Space() == old(Space())
      ensures KernelHalf() == old(KernelHalf())
      ensures pte.None? <==> !old(HasTable(va)) && !(create && page.Some?)
      ensures pte.Some? ==>
        && DirIx(PgNo(va)) < ENTRIES && pd[DirIx(PgNo(va))] != 0
        && pte.value == Slot(TableOf(pd[DirIx(PgNo(va))]), TabIx(PgNo(va)))
      ensures pte.Some? ==> Present(pd[DirIx(PgNo(va))]) && InWindow(pd[DirIx(PgNo(va))])
      ensures !create || pte.None? ==> tables == old(tables) && pd[..] == old(pd[..])
      ensures tables.Keys == old(tables.Keys) +
                             (if old(HasTable(va)) || !create || page.None? then {} else {page.value})
      ensures fresh(tables.Values - old(tables.Values))
      ensures forall a | a in old(tables) :: a in tables && tables[a] == old(tables[a])
    {
      hide WellFormed, PageMap.Maps, TableOf, PdeCreate, KernelPage, DirIx, TabIx, Present, InWindow;
      AnySlotOf(va);
      FormHasEntries(pd[..], Mem());
      var i := PdNo(va);
      if pd[i] == 0 {
        if create {
          if page.None? {
            return None;
          }
          AttachTable(i, page.value);
        } else {
          return None;
        }
      }
      if va < PHYS_BASE { EntriesOk(pd[..], Mem(), i); }
      assert pd[..][i] == pd[i];
      pte := Some(Slot(TableOf(pd[i]), PtNo(va)));
    }

    /** Install a zeroed page table at address a in directory slot i. */
    method AttachTable(i: nat, a: nat)
      requires Valid() && i < USER_ENTRIES && i < pd.Length && pd[i] == 0
      requires KernelPage(a) && a !in tables
      modifies this`tables, pd
      ensures Valid() && Space() == old(Space())
      ensures KernelHalf() == old(KernelHalf())
      ensures pd[i] != 0 && TableOf(pd[i]) == a
      ensures a in tables && fresh(tables[a]) && tables == old(tables)[a := tables[a]]
    {
      hide PageDirectory.Valid, PageDirectory.Space, KernelPage, TableOf;
      var pt := new nat[ENTRIES](_ => 0);
      Attach(i, a, pt);
    }

    method Attach(i: nat, a: nat, pt: array<nat>)
      requires Valid() && i < USER_ENTRIES && i < pd.Length && pd[i] == 0
      requires KernelPage(a) && a !in tables && pt != pd && pt !in tables.Values
      requires pt.Length == ENTRIES && forall j | 0 <= j < ENTRIES :: pt[j] == 0
      modifies this`tables, pd
      ensures Valid() && Space() == old(Space())
      ensures KernelHalf() == old(KernelHalf())
      ensures pd[i] != 0 && TableOf(pd[i]) == a && tables == old(tables)[a := pt]
    {
      hide WellFormed, PageMap.Maps, TableOf, PdeCreate, KernelPage, IsTable;
      ghost var dir, mem, known, zeros := pd[..], Mem(), tables.Keys, pt[..];
      FormHasEntries(dir, mem);
      AddTable(dir, mem, i, a, zeros);
      ReachedMore(dir, i, PdeCreate(a), a, known);
      tables := tables[a := pt];
      pd[i] := PdeCreate(a);
      assert pd[..] == dir[i := PdeCreate(a)];
      assert Mem() == mem[a := zeros];
      assert tables.Keys == known + {a};
    }

    /** Whether a page table has to be made before va can be mapped. */
    method NeedsTable(va: nat) returns (needed: bool)
      requires Valid() && va < PHYS_BASE
      ensures needed <==> !HasTable(va)
    {
      hide WellFormed, DirIx, TabIx;
      SlotOf(va);
      FormHasEntries(pd[..], Mem());
      needed := pd[PdNo(va)] == 0;
    }

    /** Map user page upage to the frame kpage. */
    method SetPage(upage: nat, kpage: nat, writable: bool, page: Option<nat>) returns (ok: bool)
      requires Valid() && PgOfs(upage) == 0 && upage < PHYS_BASE && KernelPage(kpage)
      requires PgNo(upage) !in Space()
      requires page.Some? ==> KernelPage(page.value) && page.value !in tables
      modifies this, pd, tables.Values
      ensures Valid()
      ensures ok <==> old(HasTable(upage)) || page.Some?
      ensures Space() == if ok then old(Space())[PgNo(upage) := Mapped(kpage, writable)] else old(Space())
      ensures KernelHalf() == old(KernelHalf())
      ensures fresh(tables.Values - old(tables.Values))
      ensures tables.Keys == old(tables.Keys) +
                             (if old(HasTable(upage)) || page.None? then {} else {page.value})
    {
      hide WellFormed, PageMap.Maps, TableOf, KernelPage, PteCreateUser, DirIx, TabIx, PdNo, PgNo;
      SlotOf(upage);
      var pte := LookupPage(upage, true, page);
      if pte.None? {
        return false;
      }
      PteRoundTrip(kpage, writable);
      FormHasEntries(pd[..], Mem());
      StoreWord(PgNo(upage), pte.value, PteCreateUser(kpage, writable));
      ok := true;
    }

    /** The kernel address of the byte behind user address uaddr, if it is mapped. */
    method GetPage(uaddr: nat) returns (kaddr: Option<nat>)
      requires Valid() && uaddr < PHYS_BASE
      ensures kaddr == if PgNo(uaddr) in Space() then Some(Space()[PgNo(uaddr)].page + PgOfs(uaddr)) else None
    {
      hide WellFormed, TableOf, DirIx, TabIx, PdNo, PgNo, PgOfs, Present;
      SlotOf(uaddr);
      SpaceAt(PgNo(uaddr));
      var pte := LookupPage(uaddr, false, None);
      if pte.Some? {
        var w := tables[pte.value.pt][pte.value.index];
        if Present(w) {
          return Some(PageOf(w) + PgOfs(uaddr));
        }
      }
      kaddr := None;
    }

    /** Unmap user page upage; its entry keeps the other bits. */
    method ClearPage(upage: nat)
      requires Valid() && PgOfs(upage) == 0 && upage < PHYS_BASE
      modifies tables.Values
      ensures Valid() && Space() == old(Space()) - {PgNo(upage)}
    {
      hide WellFormed, TableOf, DirIx, TabIx, PdNo, PgNo, Present, NotPresent, PageMap.Maps;
      SlotOf(upage);
      SpaceAt(PgNo(upage));
      var pte := LookupPage(upage, false, None);
      if pte.Some? {
        var w := tables[pte.value.pt][pte.value.index];
        if Present(w) {
          NotPresentKeeps(w);
          StoreWord(PgNo(upage), pte.value, NotPresent(w));
        }
      }
    }

    /** Store the entry w for user page p in its table. */
    method StoreWord(p: nat, slot: Slot, w: nat)
      requires Valid() && p < USER_PAGES && PteOk(w)
      requires DirIx(p) < pd.Length && pd[DirIx(p)] != 0 && slot == Slot(TableOf(pd[DirIx(p)]), TabIx(p))
      modifies tables.Values
      ensures Valid()
      ensures Space() == if Present(w) then old(Space())[p := Mapped(PageOf(w), Writable(w))]
                         else old(Space()) - {p}
      ensures pd[..] == old(pd[..])
    {
      hide WellFormed, PageMap.Maps, TableOf, KernelPage, DirIx, TabIx, Present, InWindow, PageOf, Writable;
      ghost var dir, mem := pd[..], Mem();
      IxBounds(p);
      assert dir[DirIx(p)] == pd[DirIx(p)];
      SetMaps(dir, mem, p, w);
      assert slot.pt in mem && |mem[slot.pt]| == tables[slot.pt].Length;
      tables[slot.pt][slot.index] := w;
      assert Mem() == WithWord(mem, slot.pt, slot.index, w);
    }

    /** Entry and translation of user page p in the current state. */
    lemma SpaceAt(p: nat)
      requires Valid() && p < USER_PAGES
      ensures DirIx(p) < pd.Length
      ensures pd[DirIx(p)] == 0 ==> p !in Space()
      ensures pd[DirIx(p)] != 0 ==>
        var a := TableOf(pd[DirIx(p)]);
        && a in tables && TabIx(p) < tables[a].Length
        && var w := tables[a][TabIx(p)];
           && PteOk(w) && (p in Space() <==> Present(w))
           && (Present(w) ==> Space()[p] == Mapped(PageOf(w), Writable(w)))
    {
      hide WellFormed, TableOf, DirIx, TabIx, Present, PageAt;
      var dir, mem := pd[..], Mem();
      IxBounds(p);
      FormHasEntries(dir, mem);
      assert dir[DirIx(p)] == pd[DirIx(p)];
      if dir[DirIx(p)] == 0 {
        assert Translation(dir, mem, p) == None;
      } else {
        EntriesOk(dir, mem, DirIx(p));
        TableHasEntries(dir, mem, DirIx(p), TabIx(p));
        EntryIsMapping(dir, mem, DirIx(p), TabIx(p));
        assert TableAt(dir, mem, DirIx(p)) == tables[TableOf(dir[DirIx(p)])][..];
      }
    }

    /** The pages handed back to the page allocator, in order. */
    method Destroy() returns (freed: seq<nat>)
      requires Valid()
      ensures freed == Pages(pd[..], Mem(), USER_ENTRIES) + [base]
    {
      hide WellFormed, TableOf, Present, MappedBy, TableAt;
      ghost var dir, mem := pd[..], Mem();
      FormHasEntries(dir, mem);
      freed := [];
      for i := 0 to USER_ENTRIES
        invariant freed == Pages(dir, mem, i)
      {
        EntryTests(dir, mem, i);
        if Present(pd[i]) {
          var pt := TableOf(pd[i]);
          var frames := FreeFrames(tables[pt]);
          freed := freed + frames + [pt];
          assert freed == Pages(dir, mem, i) + (frames + [pt]);
        } else {
          assert freed == Pages(dir, mem, i) + [];
        }
      }
      freed := freed + [base];
    }

    /** The frames that one page table maps. */
    static method FreeFrames(pt: array<nat>) returns (frames: seq<nat>)
      requires TableOk(pt[..])
      ensures frames == Frames(pt[..], ENTRIES)
    {
      hide Present, PageOf, InWindow;
      frames := [];
      for j := 0 to ENTRIES
        invariant frames == Frames(pt[..], j)
      {
        assert pt[..][j] == pt[j] && PteOk(pt[j]);
        if Present(pt[j]) {
          frames := frames + [PageOf(pt[j])];
        } else {
          assert frames + [] == frames;
        }
      }
    }
  }

  lemma EmptySpace(dir: seq<nat>)
    requires |dir| == ENTRIES && forall i | 0 <= i < USER_ENTRIES :: dir[i] == 0
    ensures WellFormed(dir, map[]) && Maps(dir, map[]) == map[]
  {
    hide DirIx, TabIx;
    forall p: nat | p < USER_PAGES ensures Translation(dir, map[], p) == None {
      IxBounds(p);
    }
  }

  lemma ReachedMore(dir: seq<nat>, i: nat, w: nat, a: nat, known: set<nat>)
    requires |dir| == ENTRIES && i < USER_ENTRIES && dir[i] == 0 && w != 0 && TableOf(w) == a
    requires forall b | b in known :: IsTable(dir, b)
    ensures forall b | b in known + {a} :: IsTable(dir[i := w], b)
  {
    hide TableOf;
    var dir' := dir[i := w];
    forall b | b in known + {a} ensures IsTable(dir', b) {
      if b == a {
        assert dir'[i] != 0 && TableOf(dir'[i]) == b;
      } else {
        var j :| 0 <= j < USER_ENTRIES && dir[j] != 0 && TableOf(dir[j]) == b;
        assert dir'[j] != 0 && TableOf(dir'[j]) == b;
      }
    }
  }

  lemma AnySlotOf(va: nat)
    requires va < WORD
    ensures PdNo(va) == DirIx(PgNo(va)) < ENTRIES && PtNo(va) == TabIx(PgNo(va)) < ENTRIES
    ensures va < PHYS_BASE <==> PdNo(va) < USER_ENTRIES
  {
    AddressParts(va);
  }

  lemma SlotOf(va: nat)
    requires va < PHYS_BASE
    ensures PdNo(va) == DirIx(PgNo(va)) < USER_ENTRIES && PtNo(va) == TabIx(PgNo(va)) < ENTRIES
    ensures PgNo(va) < USER_PAGES
  {
    AddressParts(va);
  }

  /** The two tests for an entry, non-zero and present, agree. */
  lemma EntryTests(dir: seq<nat>, mem: map<nat, seq<nat>>, i: nat)
    requires WellFormed(dir, mem) && i < USER_ENTRIES
    ensures Present(dir[i]) <==> dir[i] != 0
    ensures dir[i] != 0 ==> TableOf(dir[i]) in mem && TableAt(dir, mem, i) == mem[TableOf(dir[i])]
  {
    Flags(0);
    EntriesOk(dir, mem, i);
  }
}
