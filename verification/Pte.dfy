/** Virtual addresses and the words of x86 page directories and page tables. */
module Pte {
  import opened Bits
  import opened Integers
  import opened Palloc

  const WORD: nat := 0x1_0000_0000
  const ENTRIES: nat := 1024
  /** Number of directory entries below PHYS_BASE. */
  const USER_ENTRIES: nat := 768
  /** Number of virtual pages below PHYS_BASE. */
  const USER_PAGES: nat := 786432

  const PTMASK: nat := 0x3f_f000
  const PTE_ADDR: nat := 0xffff_f000
  const PTE_P: nat := 1
  const PTE_W: nat := 2
  const PTE_U: nat := 4

  /** A page of the kernel's window onto physical memory. */
  predicate KernelPage(va: nat) {
    PHYS_BASE <= va < WORD && va % PGSIZE == 0
  }

  function PtNo(va: nat): nat { And(va, PTMASK) / PGSIZE }

  function PdNo(va: nat): nat { va / 0x40_0000 }

  function Vtop(va: nat): nat
    requires va >= PHYS_BASE
  {
    va - PHYS_BASE
  }

  function Ptov(pa: nat): nat
    requires pa < PHYS_BASE
  {
    (pa + PHYS_BASE) % WORD
  }

  function PdeCreate(pt: nat): nat
    requires KernelPage(pt)
  {
    Or(Or(Or(Vtop(pt), PTE_U), PTE_P), PTE_W)
  }

  function PteCreateUser(page: nat, writable: bool): nat
    requires KernelPage(page)
  {
    Or(Or(Or(Vtop(page), PTE_P), if writable then PTE_W else 0), PTE_U)
  }

  predicate Present(w: nat) { And(w, PTE_P) != 0 }

  predicate Writable(w: nat) { And(w, PTE_W) != 0 }

  predicate UserUsable(w: nat) { And(w, PTE_U) != 0 }

  /** Does w hold the address of a page in the kernel's window? */
  predicate InWindow(w: nat) {
    w < WORD && And(w, PTE_ADDR) < WORD - PHYS_BASE
  }

  /** The page that an entry points to, as a kernel virtual address. */
  function PageOf(w: nat): (va: nat)
    requires InWindow(w)
  {
    Ptov(And(w, PTE_ADDR))
  }

  /** `w & ~PTE_P` on 32-bit words. */
  function NotPresent(w: nat): nat { And(w, WORD - 1 - PTE_P) }

  // Powers of two that appear in the masks.

  lemma Powers()
    ensures Pow2(1) == 2 && Pow2(2) == 4 && Pow2(3) == 8 && Pow2(10) == 1024
    ensures Pow2(12) == 4096 && Pow2(22) == 0x40_0000 && Pow2(32) == WORD
  {
    assert Pow2(4) == 16 && Pow2(8) == 256;
    PowAdd(8, 2);
    PowAdd(8, 4);
    PowAdd(10, 12);
    PowAdd(10, 22);
  }

  lemma AddressMask(w: nat)
    requires w < WORD
    ensures And(w, PTE_ADDR) == w - w % PGSIZE
  {
    Powers();
    hide Pow2, And;
    AndHighMask(w, 12, 32);
  }

  lemma {:induction false} LowMask(x: nat)
    ensures And(x, 1) == x % 2
  {
    Powers();
    hide Pow2, And;
    AndLowMask(x, 1);
  }

  lemma Bit1Mask(x: nat)
    ensures And(x, 2) == 2 * ((x / 2) % 2)
  {
    LowMask(x / 2);
    hide And;
    AndUnfold(x, 2);
  }

  lemma Bit2Mask(x: nat)
    ensures And(x, 4) == 4 * ((x / 4) % 2)
  {
    Bit1Mask(x / 2);
    hide And;
    AndUnfold(x, 4);
  }

  /** The flag tests read the three low bits of an entry. */
  lemma Flags(w: nat)
    ensures Present(w) <==> w % 2 == 1
    ensures Writable(w) <==> (w / 2) % 2 == 1
    ensures UserUsable(w) <==> (w / 4) % 2 == 1
  {
    LowMask(w);
    Bit1Mask(w);
    Bit2Mask(w);
  }

  lemma Multiple(pa: nat)
    requires pa % PGSIZE == 0
    ensures pa == 8 * (512 * (pa / PGSIZE))
  {
  }

  lemma Halves(h: nat, f: nat)
    ensures (2 * h + f) / 2 == h + f / 2 && (2 * h + f) % 2 == f % 2
  {
  }

  lemma OrFlags(pa: nat, f: nat, g: nat)
    requires pa % PGSIZE == 0 && f < 8 && g < 8
    ensures Or(pa + f, g) == pa + Or(f, g) && Or(f, g) < 8
  {
    Powers();
    OrBound(f, g, 3);
    Multiple(pa);
    OrHigh(512 * (pa / PGSIZE), f, g);
  }

  lemma OrHigh(h: nat, f: nat, g: nat)
    requires f < 8 && g < 8
    ensures Or(8 * h + f, g) == 8 * h + Or(f, g)
  {
    hide Or;
    OrStep(4 * h, f, g);
    OrStep(2 * h, f / 2, g / 2);
    OrStep(h, f / 4, g / 4);
    OrZero(h);
    OrStep(0, f, g);
    OrStep(0, f / 2, g / 2);
    OrStep(0, f / 4, g / 4);
    OrZero(0);
    assert f / 2 / 2 == f / 4 && g / 2 / 2 == g / 4;
    assert f / 4 / 2 == 0 && g / 4 / 2 == 0;
  }

  lemma OrStep(m: nat, f: nat, g: nat)
    ensures Or(2 * m + f, g) == 2 * Or(m + f / 2, g / 2) + ToNat(f % 2 == 1 || g % 2 == 1)
  {
    hide Or;
    OrUnfold(2 * m + f, g);
    Halves(m, f);
  }

  /** A directory entry leads back to the table it was made for. */
  lemma PdeRoundTrip(pt: nat)
    requires KernelPage(pt)
    ensures PdeCreate(pt) == Vtop(pt) + 7
    ensures Present(PdeCreate(pt)) && InWindow(PdeCreate(pt)) && PageOf(PdeCreate(pt)) == pt
  {
    SmallFlags();
    hide Or, Present, Writable, UserUsable, InWindow, PageOf;
    var pa := Vtop(pt);
    OrFlags(pa, 0, 4);
    OrFlags(pa, 4, 1);
    OrFlags(pa, 5, 2);
    EntryFlags(pa, 7);
    EntryPage(pt, 7);
  }

  /** A table entry holds the page, the writable flag and the user flag. */
  lemma PteRoundTrip(page: nat, writable: bool)
    requires KernelPage(page)
    ensures var w := PteCreateUser(page, writable);
      && Present(w) && UserUsable(w) && (Writable(w) <==> writable)
      && InWindow(w) && PageOf(w) == page
  {
    SmallFlags();
    hide Or, Present, Writable, UserUsable, InWindow, PageOf;
    var pa := Vtop(page);
    OrFlags(pa, 0, 1);
    OrFlags(pa, 1, if writable then 2 else 0);
    OrFlags(pa, if writable then 3 else 1, 4);
    EntryFlags(pa, if writable then 7 else 5);
    EntryPage(page, if writable then 7 else 5);
  }

  lemma SmallFlags()
    ensures Or(0, 4) == 4 && Or(4, 1) == 5 && Or(5, 2) == 7
    ensures Or(0, 1) == 1 && Or(1, 2) == 3 && Or(1, 0) == 1 && Or(3, 4) == 7 && Or(1, 4) == 5
    ensures Present(7) && UserUsable(7) && Writable(7)
    ensures Present(5) && UserUsable(5) && !Writable(5)
  {
    Flags(7);
    Flags(5);
  }

  /** The address bits do not disturb the flags. */
  lemma EntryFlags(pa: nat, f: nat)
    requires pa % PGSIZE == 0 && f < 8
    ensures Present(pa + f) == Present(f)
    ensures Writable(pa + f) == Writable(f)
    ensures UserUsable(pa + f) == UserUsable(f)
  {
    hide Present, Writable, UserUsable;
    Flags(pa + f);
    Flags(f);
    WordParts(pa, f);
  }

  lemma EntryPage(page: nat, f: nat)
    requires KernelPage(page) && f < 8
    ensures InWindow(Vtop(page) + f) && PageOf(Vtop(page) + f) == page
  {
    hide And;
    var pa := Vtop(page);
    AddressMask(pa + f);
    assert pa % PGSIZE == 0;
    WordParts(pa, f);
    assert And(pa + f, PTE_ADDR) == pa;
    ModSmall(pa + PHYS_BASE, WORD);
  }

  lemma WordParts(pa: nat, f: nat)
    requires pa % PGSIZE == 0 && f < 8
    ensures (pa + f) % PGSIZE == f && (pa + f) % 2 == f % 2
    ensures ((pa + f) / 2) % 2 == (f / 2) % 2 && ((pa + f) / 4) % 2 == (f / 4) % 2
  {
    Multiple(pa);
    var h := 512 * (pa / PGSIZE);
    Halves(4 * h, f);
    Halves(2 * h, f / 2);
    Halves(h, f / 4);
    QuarterIs(pa + f);
    QuarterIs(f);
    ModUnique(pa + f, PGSIZE, pa / PGSIZE, f);
  }

  lemma QuarterIs(x: nat)
    ensures x / 2 / 2 == x / 4
  {
  }

  /** Clearing the present bit keeps every other bit of the entry. */
  lemma NotPresentKeeps(w: nat)
    requires w < WORD
    ensures NotPresent(w) == w - w % 2
    ensures !Present(NotPresent(w))
    ensures Writable(NotPresent(w)) == Writable(w) && UserUsable(NotPresent(w)) == UserUsable(w)
    ensures InWindow(w) ==> InWindow(NotPresent(w)) && PageOf(NotPresent(w)) == PageOf(w)
  {
    Powers();
    AndHighMask(w, 1, 32);
    var c := NotPresent(w);
    Flags(w);
    Flags(c);
    AddressMask(w);
    AddressMask(c);
    hide And, Pow2;
    assert c / 2 == w / 2 && c / 4 == w / 4;
    assert c - c % PGSIZE == w - w % PGSIZE;
  }

  /** An address is its directory index, its table index and its offset, and nothing else. */
  lemma AddressParts(va: nat)
    requires va < WORD
    ensures PdNo(va) < ENTRIES && PtNo(va) < ENTRIES
    ensures va == PdNo(va) * 0x40_0000 + PtNo(va) * PGSIZE + PgOfs(va)
    ensures PdNo(va) == PgNo(va) / ENTRIES && PtNo(va) == PgNo(va) % ENTRIES
    ensures va < PHYS_BASE <==> PdNo(va) < USER_ENTRIES
    ensures va < PHYS_BASE <==> PgNo(va) < USER_PAGES
  {
    MiddleBits(va);
    hide And;
    var q, c := va / PGSIZE, va % PGSIZE;
    var a, b := q / ENTRIES, q % ENTRIES;
    ModUnique(va, 0x40_0000, a, b * PGSIZE + c);
    ModUnique(b * PGSIZE, PGSIZE, b, 0);
  }

  lemma MiddleBits(va: nat)
    requires va < WORD
    ensures And(va, PTMASK) == (va / PGSIZE) % 1024 * PGSIZE
  {
    Powers();
    var r := va % 0x40_0000;
    AndModMask(va, PTMASK, 22);
    AndHighMask(r, 12, 22);
    hide Pow2, And;
    Split(va);
  }

  lemma Split(va: nat)
    ensures var r := va % 0x40_0000; r - r % PGSIZE == (va / PGSIZE) % 1024 * PGSIZE
  {
    var q, c := va / PGSIZE, va % PGSIZE;
    var a, b := q / 1024, q % 1024;
    ModUnique(va, 0x40_0000, a, b * PGSIZE + c);
    ModUnique(b * PGSIZE + c, PGSIZE, b, c);
  }

  /** Bits above those of the mask do not matter. */
  lemma {:induction false} AndModMask(x: nat, y: nat, k: nat)
    requires y < Pow2(k)
    ensures Pow2(k) > 0 && And(x, y) == And(x % Pow2(k), y)
  {
    PowPositive(k);
    if k == 0 {
      AndZero(x);
      AndZero(x % Pow2(k));
    } else {
      var p := Pow2(k - 1);
      AndModMask(x / 2, y / 2, k - 1);
      AndModStep(x, y, p);
    }
  }

  lemma AndModStep(x: nat, y: nat, p: nat)
    requires p > 0 && And(x / 2, y / 2) == And(x / 2 % p, y / 2)
    ensures And(x, y) == And(x % (2 * p), y)
  {
    hide And;
    var r := x % (2 * p);
    ModHalf(x, p);
    assert r / 2 == x / 2 % p && r % 2 == x % 2;
    AndUnfold(x, y);
    AndUnfold(r, y);
  }
}
