/** Program headers of executables: validation and the arithmetic of loading them. */
module Segment {
  import opened Integers
  import opened Palloc

  const PT_LOAD: U32 := 1
  const PT_DYNAMIC: U32 := 2
  const PT_INTERP: U32 := 3
  const PT_SHLIB: U32 := 5
  const PF_W: U32 := 2

  datatype ProgramHeader = ProgramHeader(kind: U32, offset: U32, vaddr: U32, filesz: U32, memsz: U32, flags: U32)

  /** Addition and subtraction of 32-bit words. */
  function Plus(x: U32, y: U32): U32 { (x + y) % 0x1_0000_0000 }

  function Minus(x: U32, y: U32): U32 { (x - y) % 0x1_0000_0000 }

  function RoundUp(x: U32): U32 { Plus(x, 4095) / 4096 * 4096 }

  /** validate_segment: the checks in their order, in 32-bit arithmetic. */
  predicate Validate(h: ProgramHeader, fileLength: nat)
    requires fileLength < 0x8000_0000
  {
    if h.offset % PGSIZE != h.vaddr % PGSIZE then false
    else if h.offset > fileLength then false
    else if h.memsz < h.filesz then false
    else if h.memsz == 0 then false
    else if h.vaddr >= PHYS_BASE then false
    else if Plus(h.vaddr, h.memsz) >= PHYS_BASE then false
    else if Plus(h.vaddr, h.memsz) < h.vaddr then false
    else h.vaddr >= PGSIZE
  }

  /** The wrapping checks accept exactly the segments that, counted without wrap-around,
      lie between the first page and the kernel. */
  lemma ValidateIff(h: ProgramHeader, fileLength: nat)
    requires fileLength < 0x8000_0000
    ensures Validate(h, fileLength) <==>
      && h.offset % PGSIZE == h.vaddr % PGSIZE
      && h.offset <= fileLength
      && h.filesz <= h.memsz && 0 < h.memsz
      && PGSIZE <= h.vaddr && h.vaddr + h.memsz < PHYS_BASE
  {
    PlusIs(h.vaddr, h.memsz);
    hide Plus;
  }

  lemma PlusIs(x: U32, y: U32)
    ensures Plus(x, y) == if x + y < 0x1_0000_0000 then x + y else x + y - 0x1_0000_0000
  {
  }

  lemma MinusIs(x: U32, y: U32)
    requires y <= x
    ensures Minus(x, y) == x - y
  {
  }

  /** What load passes to load_segment. */
  datatype Plan = Plan(filePage: U32, memPage: U32, readBytes: U32, zeroBytes: U32)

  function PlanFor(h: ProgramHeader): Plan {
    var filePage := h.offset - h.offset % PGSIZE;
    var memPage := h.vaddr - h.vaddr % PGSIZE;
    var pageOffset := h.vaddr % PGSIZE;
    if h.filesz > 0 then
      var readBytes := Plus(pageOffset, h.filesz);
      Plan(filePage, memPage, readBytes, Minus(RoundUp(Plus(pageOffset, h.memsz)), readBytes))
    else
      Plan(filePage, memPage, 0, RoundUp(Plus(pageOffset, h.memsz)))
  }

  /** The first page of the segment and how many pages it takes. */
  function FirstPage(h: ProgramHeader): nat { PgNo(PlanFor(h).memPage) }

  function PageCount(h: ProgramHeader): nat { (PlanFor(h).readBytes + PlanFor(h).zeroBytes) / PGSIZE }

  /** For a valid segment nothing wraps: the counters describe whole pages that cover the
      segment, start at its first page and end before the kernel. */
  lemma PlanOk(h: ProgramHeader, fileLength: nat)
    requires fileLength < 0x8000_0000 && Validate(h, fileLength)
    ensures var p := PlanFor(h);
      && p.filePage % PGSIZE == 0 && p.memPage % PGSIZE == 0
      && (p.readBytes + p.zeroBytes) % PGSIZE == 0
      && PGSIZE <= p.memPage <= h.vaddr
      && h.vaddr + h.memsz <= p.memPage + p.readBytes + p.zeroBytes <= PHYS_BASE
      && p.memPage + p.readBytes + p.zeroBytes < h.vaddr + h.memsz + PGSIZE
      && p.readBytes == (if h.filesz > 0 then h.vaddr - p.memPage + h.filesz else 0)
      && p.filePage + (h.vaddr - p.memPage) == h.offset
  {
    ValidateIff(h, fileLength);
    hide Validate;
    var o := h.vaddr % PGSIZE;
    RoundDownIs(h.vaddr);
    RoundDownIs(h.offset);
    PlusIs(o, h.filesz);
    PlusIs(o, h.memsz);
    RoundUpIs(o + h.memsz);
    var total := RoundUp(o + h.memsz);
    MinusIs(total, if h.filesz > 0 then o + h.filesz else 0);
    EndsBelow(h.vaddr - o, total, h.vaddr + h.memsz);
    hide Plus, Minus, RoundUp;
  }

  /** A valid segment takes at least one page, and all of them lie between the first page
      and the kernel. */
  lemma PagesOk(h: ProgramHeader, fileLength: nat)
    requires fileLength < 0x8000_0000 && Validate(h, fileLength)
    ensures 1 <= FirstPage(h) && 0 < PageCount(h) && FirstPage(h) + PageCount(h) <= PHYS_BASE / PGSIZE
  {
    PlanOk(h, fileLength);
    ValidateIff(h, fileLength);
    hide Validate, PlanFor;
    PageRange(PlanFor(h).memPage, PlanFor(h).readBytes + PlanFor(h).zeroBytes);
  }

  lemma PageRange(memPage: nat, total: nat)
    requires memPage % PGSIZE == 0 && total % PGSIZE == 0 && PGSIZE <= memPage && 0 < total
    requires memPage + total <= PHYS_BASE
    ensures 1 <= PgNo(memPage) && 0 < total / PGSIZE && PgNo(memPage) + total / PGSIZE <= PHYS_BASE / PGSIZE
  {
  }

  /** Rounding up to whole pages lets a valid segment reach the last page below the kernel,
      which setup_stack wants for itself. */
  lemma LastPageIsValid()
    ensures var h := ProgramHeader(PT_LOAD, 0, 0xbfff_f000, 0, 0x800, PF_W);
      Validate(h, 0) && FirstPage(h) == PHYS_BASE / PGSIZE - 1 && PageCount(h) == 1
  {
  }

  lemma RoundDownIs(x: U32)
    ensures (x - x % PGSIZE) % PGSIZE == 0 && x % PGSIZE < PGSIZE && x % PGSIZE <= x
    ensures x >= PGSIZE ==> x - x % PGSIZE >= PGSIZE
  {
  }

  lemma RoundUpIs(x: U32)
    requires x + 4095 < 0x1_0000_0000
    ensures RoundUp(x) % PGSIZE == 0 && x <= RoundUp(x) < x + PGSIZE
  {
    PlusIs(x, 4095);
    hide Plus;
    var q := (x + 4095) / 4096;
    assert (q * 4096) % 4096 == 0;
  }

  /** Rounding an address below the kernel up to a page does not pass the kernel's base. */
  lemma EndsBelow(base: nat, total: nat, end: nat)
    requires base % PGSIZE == 0 && total % PGSIZE == 0 && base + total < end + PGSIZE && end < PHYS_BASE
    ensures base + total <= PHYS_BASE
  {
    var a, b := base / PGSIZE, total / PGSIZE;
    assert base == PGSIZE * a && total == PGSIZE * b;
    assert PHYS_BASE == PGSIZE * 786432;
  }
}
