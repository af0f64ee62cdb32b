/** What a two-level page table means: a map from user pages to frames. */
module PageMap {
  import opened Options
  import opened Pte
  import opened Seqs

  /** The frame behind a user page, as a kernel virtual address. */
  datatype Mapped = Mapped(page: nat, writable: bool)

  function DirIx(p: nat): nat { p / ENTRIES }

  function TabIx(p: nat): nat { p % ENTRIES }

  function PageAt(i: nat, j: nat): nat { ENTRIES * i + j }

  lemma IxBounds(p: nat)
    requires p < USER_PAGES
    ensures DirIx(p) < USER_ENTRIES && TabIx(p) < ENTRIES && PageAt(DirIx(p), TabIx(p)) == p
  {
  }

  lemma IxOfPage(i: nat, j: nat)
    requires i < USER_ENTRIES && j < ENTRIES
    ensures PageAt(i, j) < USER_PAGES && DirIx(PageAt(i, j)) == i && TabIx(PageAt(i, j)) == j
  {
  }

  ghost predicate PteOk(w: nat) { w < WORD && (Present(w) ==> InWindow(w)) }

  ghost predicate TableOk(t: seq<nat>) {
    |t| == ENTRIES && forall j | 0 <= j < |t| :: PteOk(t[j])
  }

  /** The page table that a directory entry points to. */
  function TableOf(w: nat): nat {
    if InWindow(w) then PageOf(w) else 0
  }

  ghost predicate PdeOk(w: nat, mem: map<nat, seq<nat>>) {
    w == 0 || (Present(w) && InWindow(w) && TableOf(w) in mem)
  }

  /** User entries are zero or lead to page tables of their own; entries from
      USER_ENTRIES on belong to the kernel and are left alone. */
  ghost predicate WellFormed(dir: seq<nat>, mem: map<nat, seq<nat>>) {
    && |dir| == ENTRIES
    && (forall a | a in mem :: TableOk(mem[a]))
    && (forall i | 0 <= i < USER_ENTRIES :: PdeOk(dir[i], mem))
    && (forall i, j | 0 <= i < j < USER_ENTRIES && dir[i] != 0 && dir[j] != 0 ::
          TableOf(dir[i]) != TableOf(dir[j]))
  }

  ghost function MappedBy(w: nat): Option<Mapped>
    requires PteOk(w)
  {
    if Present(w) then Some(Mapped(PageOf(w), Writable(w))) else None
  }

  /** The translation that directory slot i and table slot j give. */
  ghost function At(dir: seq<nat>, mem: map<nat, seq<nat>>, i: nat, j: nat): Option<Mapped>
    requires WellFormed(dir, mem) && i < USER_ENTRIES && j < ENTRIES
  {
    if dir[i] == 0 then None
    else
      var t := mem[TableOf(dir[i])];
      assert TableOk(t);
      MappedBy(t[j])
  }

  ghost function Translation(dir: seq<nat>, mem: map<nat, seq<nat>>, p: nat): Option<Mapped>
    requires WellFormed(dir, mem) && p < USER_PAGES
  {
    IxBounds(p);
    At(dir, mem, DirIx(p), TabIx(p))
  }

  /** The address space: every mapped user page number with its frame. */
  ghost function Maps(dir: seq<nat>, mem: map<nat, seq<nat>>): map<nat, Mapped>
    requires WellFormed(dir, mem)
  {
    map p: nat | 0 <= p < USER_PAGES && Translation(dir, mem, p).Some? :: Translation(dir, mem, p).value
  }

  // Changing one table entry.

  /** Memory after storing w in slot j of the table at a. */
  ghost function WithWord(mem: map<nat, seq<nat>>, a: nat, j: nat, w: nat): map<nat, seq<nat>>
    requires a in mem && j < |mem[a]|
  {
    var t: seq<nat> := mem[a][j := w];
    mem[a := t]
  }

  lemma SetKeepsForm(dir: seq<nat>, mem: map<nat, seq<nat>>, a: nat, j: nat, w: nat)
    requires WellFormed(dir, mem) && a in mem && j < ENTRIES && PteOk(w)
    ensures |mem[a]| == ENTRIES && WellFormed(dir, WithWord(mem, a, j, w))
  {
    hide Present, InWindow, TableOf, PteOk;
    assert TableOk(mem[a]);
    var mem' := WithWord(mem, a, j, w);
    assert TableOk(mem'[a]);
    forall i | 0 <= i < USER_ENTRIES ensures PdeOk(dir[i], mem') {
      assert PdeOk(dir[i], mem);
    }
  }

  lemma SetAt(dir: seq<nat>, mem: map<nat, seq<nat>>, i: nat, j: nat, w: nat, i': nat, j': nat)
    requires WellFormed(dir, mem) && i < USER_ENTRIES && j < ENTRIES && PteOk(w)
    requires i' < USER_ENTRIES && j' < ENTRIES
    requires dir[i] != 0
    ensures PdeOk(dir[i], mem) && TableOf(dir[i]) in mem && |mem[TableOf(dir[i])]| == ENTRIES
    ensures var a := TableOf(dir[i]);
      var mem' := WithWord(mem, a, j, w);
      && WellFormed(dir, mem')
      && At(dir, mem', i', j') == if i' == i && j' == j then MappedBy(w) else At(dir, mem, i', j')
  {
    hide Present, InWindow, TableOf, PteOk, MappedBy, WellFormed;
    EntriesOk(dir, mem, i);
    SetKeepsForm(dir, mem, TableOf(dir[i]), j, w);
    if i' != i { TablesApart(dir, mem, i, i'); }
  }

  lemma EntriesOk(dir: seq<nat>, mem: map<nat, seq<nat>>, i: nat)
    requires WellFormed(dir, mem) && i < USER_ENTRIES
    ensures |dir| == ENTRIES && PdeOk(dir[i], mem)
    ensures dir[i] != 0 ==> TableOf(dir[i]) in mem && |mem[TableOf(dir[i])]| == ENTRIES
  {
    hide Present, InWindow, TableOf, PteOk;
    assert PdeOk(dir[i], mem);
    if dir[i] != 0 {
      assert TableOk(mem[TableOf(dir[i])]);
    }
  }

  lemma TablesApart(dir: seq<nat>, mem: map<nat, seq<nat>>, i: nat, j: nat)
    requires WellFormed(dir, mem) && i < USER_ENTRIES && j < USER_ENTRIES && i != j
    ensures |dir| == ENTRIES
    ensures dir[i] != 0 && dir[j] != 0 ==> TableOf(dir[i]) != TableOf(dir[j])
  {
    hide Present, InWindow, TableOf, PteOk;
    if i < j {
    } else {
      assert j < i;
    }
  }

  /** Writing a table entry changes the translation of one page and of no other. */
  lemma SetMaps(dir: seq<nat>, mem: map<nat, seq<nat>>, p: nat, w: nat)
    requires WellFormed(dir, mem) && p < USER_PAGES && PteOk(w)
    requires DirIx(p) < USER_ENTRIES && dir[DirIx(p)] != 0
    ensures TableOf(dir[DirIx(p)]) in mem && TabIx(p) < |mem[TableOf(dir[DirIx(p)])]|
    ensures var a := TableOf(dir[DirIx(p)]);
      var mem' := WithWord(mem, a, TabIx(p), w);
      && WellFormed(dir, mem')
      && Maps(dir, mem') == if Present(w) then Maps(dir, mem)[p := Mapped(PageOf(w), Writable(w))]
                            else Maps(dir, mem) - {p}
  {
    hide WellFormed, TableOf, At, DirIx, TabIx, PageAt, Present, InWindow, PageOf, Writable;
    IxBounds(p);
    var i, j := DirIx(p), TabIx(p);
    EntriesOk(dir, mem, i);
    var a := TableOf(dir[i]);
    SetKeepsForm(dir, mem, a, j, w);
    var mem' := WithWord(mem, a, j, w);
    forall q: nat | q < USER_PAGES
      ensures Translation(dir, mem', q) == if q == p then MappedBy(w) else Translation(dir, mem, q)
    {
      IxBounds(q);
      SetAt(dir, mem, i, j, w, DirIx(q), TabIx(q));
      if DirIx(q) == i && TabIx(q) == j { assert q == p; }
    }
    MapsAgree(dir, mem, mem', p, w);
  }

  lemma MapsAgree(dir: seq<nat>, mem: map<nat, seq<nat>>, mem': map<nat, seq<nat>>, p: nat, w: nat)
    requires WellFormed(dir, mem) && WellFormed(dir, mem') && p < USER_PAGES && PteOk(w)
    requires forall q: nat | q < USER_PAGES ::
      Translation(dir, mem', q) == if q == p then MappedBy(w) else Translation(dir, mem, q)
    ensures Maps(dir, mem') == if Present(w) then Maps(dir, mem)[p := Mapped(PageOf(w), Writable(w))]
                               else Maps(dir, mem) - {p}
  {
    hide WellFormed, Translation, Present, InWindow, PageOf, Writable;
    assert Translation(dir, mem', p) == MappedBy(w);
  }

  // Adding an empty page table.

  /** A fresh, zeroed page table maps nothing, so it leaves the address space as it was. */
  lemma AddTable(dir: seq<nat>, mem: map<nat, seq<nat>>, i: nat, a: nat, zeros: seq<nat>)
    requires WellFormed(dir, mem) && i < USER_ENTRIES && dir[i] == 0
    requires KernelPage(a) && a !in mem
    requires |zeros| == ENTRIES && forall j | 0 <= j < |zeros| :: zeros[j] == 0
    ensures var dir', mem' := dir[i := PdeCreate(a)], mem[a := zeros];
      WellFormed(dir', mem') && Maps(dir', mem') == Maps(dir, mem)
      && dir'[i] != 0 && TableOf(dir'[i]) == a
  {
    PdeRoundTrip(a);
    ZeroOk();
    var w := PdeCreate(a);
    var dir', mem' := dir[i := w], mem[a := zeros];
    hide Present, InWindow, PteOk, PdeCreate, PageOf, KernelPage, DirIx, TabIx;
    assert TableOf(w) == a;
    AddKeepsForm(dir, mem, i, a, zeros, w);
    forall q: nat | q < USER_PAGES ensures Translation(dir', mem', q) == Translation(dir, mem, q) {
      IxBounds(q);
      AddAt(dir, mem, i, a, zeros, w, DirIx(q), TabIx(q));
    }
    SameMaps(dir, mem, dir', mem');
  }

  lemma ZeroOk()
    ensures PteOk(0) && !Present(0)
  {
    Flags(0);
  }

  lemma SameMaps(dir: seq<nat>, mem: map<nat, seq<nat>>, dir': seq<nat>, mem': map<nat, seq<nat>>)
    requires WellFormed(dir, mem) && WellFormed(dir', mem')
    requires forall q: nat | q < USER_PAGES :: Translation(dir', mem', q) == Translation(dir, mem, q)
    ensures Maps(dir', mem') == Maps(dir, mem)
  {
    hide WellFormed, Translation;
  }

  lemma AddKeepsForm(dir: seq<nat>, mem: map<nat, seq<nat>>, i: nat, a: nat, zeros: seq<nat>, w: nat)
    requires WellFormed(dir, mem) && i < USER_ENTRIES && dir[i] == 0
    requires a !in mem && w != 0 && Present(w) && InWindow(w) && TableOf(w) == a
    requires |zeros| == ENTRIES && (forall j | 0 <= j < |zeros| :: zeros[j] == 0) && PteOk(0)
    ensures WellFormed(dir[i := w], mem[a := zeros])
  {
    hide Present, InWindow, TableOf, PteOk;
    var dir', mem' := dir[i := w], mem[a := zeros];
    forall k | 0 <= k < USER_ENTRIES ensures PdeOk(dir'[k], mem') {
      assert PdeOk(dir[k], mem);
    }
    forall k, l | 0 <= k < l < USER_ENTRIES && dir'[k] != 0 && dir'[l] != 0
      ensures TableOf(dir'[k]) != TableOf(dir'[l])
    {
      assert PdeOk(dir[k], mem) && PdeOk(dir[l], mem);
    }
  }

  lemma AddAt(dir: seq<nat>, mem: map<nat, seq<nat>>, i: nat, a: nat, zeros: seq<nat>, w: nat,
              i': nat, j': nat)
    requires WellFormed(dir, mem) && i < USER_ENTRIES && dir[i] == 0
    requires a !in mem && TableOf(w) == a && w != 0 && i' < USER_ENTRIES && j' < ENTRIES
    requires |zeros| == ENTRIES && (forall j | 0 <= j < |zeros| :: zeros[j] == 0)
    requires PteOk(0) && !Present(0) && WellFormed(dir[i := w], mem[a := zeros])
    ensures At(dir[i := w], mem[a := zeros], i', j') == At(dir, mem, i', j')
  {
    hide Present, InWindow, TableOf, PteOk, WellFormed;
    EntriesOk(dir, mem, i');
    EntriesOk(dir[i := w], mem[a := zeros], i');
  }

  // Destroying a page directory.

  /** The frames that the first n entries of a table map, in order. */
  ghost function Frames(t: seq<nat>, n: nat): seq<nat>
    requires TableOk(t) && n <= ENTRIES
  {
    if n == 0 then []
    else Frames(t, n - 1) + (if MappedBy(t[n - 1]).Some? then [MappedBy(t[n - 1]).value.page] else [])
  }

  ghost function TableAt(dir: seq<nat>, mem: map<nat, seq<nat>>, i: nat): (t: seq<nat>)
    requires WellFormed(dir, mem) && i < USER_ENTRIES && dir[i] != 0
    ensures TableOk(t)
  {
    EntriesOk(dir, mem, i);
    mem[TableOf(dir[i])]
  }

  /** The pages behind the first n directory entries: frames, then their table. */
  ghost function Pages(dir: seq<nat>, mem: map<nat, seq<nat>>, n: nat): seq<nat>
    requires WellFormed(dir, mem) && n <= USER_ENTRIES
  {
    if n == 0 then []
    else
      Pages(dir, mem, n - 1) +
      (if dir[n - 1] == 0 then [] else Frames(TableAt(dir, mem, n - 1), ENTRIES) + [TableOf(dir[n - 1])])
  }

  /** No frame is mapped twice, and no frame is one of the page tables. */
  ghost predicate Unshared(dir: seq<nat>, mem: map<nat, seq<nat>>)
    requires WellFormed(dir, mem)
  {
    && (forall p, q | p in Maps(dir, mem) && q in Maps(dir, mem) && p != q ::
          Maps(dir, mem)[p].page != Maps(dir, mem)[q].page)
    && (forall p, i | p in Maps(dir, mem) && 0 <= i < USER_ENTRIES && dir[i] != 0 ::
          Maps(dir, mem)[p].page != TableOf(dir[i]))
  }

  lemma {:induction false} NoDupConcat<T>(xs: seq<T>, ys: seq<T>)
    requires NoDup(xs) && NoDup(ys) && forall x | x in xs :: x !in ys
    ensures NoDup(xs + ys)
  {
    if xs == [] {
      assert xs + ys == ys;
    } else {
      NoDupConcat(xs[1..], ys);
      assert (xs + ys)[1..] == xs[1..] + ys;
    }
  }

  lemma {:induction false} FramesIn(t: seq<nat>, n: nat, x: nat)
    requires TableOk(t) && n <= ENTRIES
    ensures x in Frames(t, n) <==>
      exists j | 0 <= j < n :: MappedBy(t[j]).Some? && MappedBy(t[j]).value.page == x
  {
    hide MappedBy, PteOk;
    if n > 0 { FramesIn(t, n - 1, x); }
  }

  lemma {:induction false} FramesNoDup(t: seq<nat>, n: nat)
    requires TableOk(t) && n <= ENTRIES
    requires forall j, k | 0 <= j < k < ENTRIES && MappedBy(t[j]).Some? && MappedBy(t[k]).Some? ::
      MappedBy(t[j]).value.page != MappedBy(t[k]).value.page
    ensures NoDup(Frames(t, n))
  {
    hide MappedBy, PteOk;
    if n > 0 {
      FramesNoDup(t, n - 1);
      if MappedBy(t[n - 1]).Some? {
        var x := MappedBy(t[n - 1]).value.page;
        FramesIn(t, n - 1, x);
        NoDupAppend(Frames(t, n - 1), x);
      } else {
        assert Frames(t, n) == Frames(t, n - 1);
      }
    }
  }

  /** Entry j of table i is the translation of page PageAt(i, j). */
  lemma EntryIsMapping(dir: seq<nat>, mem: map<nat, seq<nat>>, i: nat, j: nat)
    requires WellFormed(dir, mem) && i < USER_ENTRIES && dir[i] != 0 && j < ENTRIES
    ensures var m := MappedBy(TableAt(dir, mem, i)[j]);
      && (PageAt(i, j) in Maps(dir, mem) <==> m.Some?)
      && (m.Some? ==> Maps(dir, mem)[PageAt(i, j)] == m.value)
  {
    hide MappedBy, TableOf, TableOk, WellFormed, PageAt, DirIx, TabIx;
    IxOfPage(i, j);
    TableHasEntries(dir, mem, i, j);
    assert Translation(dir, mem, PageAt(i, j)) == At(dir, mem, i, j);
  }

  lemma TableHasEntries(dir: seq<nat>, mem: map<nat, seq<nat>>, i: nat, j: nat)
    requires WellFormed(dir, mem) && i < USER_ENTRIES && dir[i] != 0 && j < ENTRIES
    ensures |TableAt(dir, mem, i)| == ENTRIES && PteOk(TableAt(dir, mem, i)[j])
  {
  }

  lemma TableNoDup(dir: seq<nat>, mem: map<nat, seq<nat>>, i: nat)
    requires WellFormed(dir, mem) && Unshared(dir, mem) && i < USER_ENTRIES && dir[i] != 0
    ensures NoDup(Frames(TableAt(dir, mem, i), ENTRIES) + [TableOf(dir[i])])
  {
    var t := TableAt(dir, mem, i);
    hide MappedBy, WellFormed, PteOk, TableOf, Maps, TableAt, PageAt;
    assert TableOk(t) && |t| == ENTRIES;
    forall j, k | 0 <= j < k < ENTRIES && MappedBy(t[j]).Some? && MappedBy(t[k]).Some?
      ensures MappedBy(t[j]).value.page != MappedBy(t[k]).value.page
    {
      EntryIsMapping(dir, mem, i, j);
      EntryIsMapping(dir, mem, i, k);
      PagesDiffer(i, j, i, k);
    }
    FramesNoDup(t, ENTRIES);
    FramesIn(t, ENTRIES, TableOf(dir[i]));
    forall j | 0 <= j < ENTRIES && MappedBy(t[j]).Some?
      ensures MappedBy(t[j]).value.page != TableOf(dir[i])
    {
      EntryIsMapping(dir, mem, i, j);
    }
    NoDupAppend(Frames(t, ENTRIES), TableOf(dir[i]));
  }

  lemma PagesDiffer(i: nat, j: nat, i': nat, j': nat)
    requires j < ENTRIES && j' < ENTRIES && (i != i' || j != j')
    ensures PageAt(i, j) != PageAt(i', j')
  {
  }

  /** Is x a page table of the first n entries, or a frame that they map? */
  ghost predicate Behind(dir: seq<nat>, mem: map<nat, seq<nat>>, n: nat, x: nat)
    requires WellFormed(dir, mem) && n <= USER_ENTRIES
  {
    exists i | 0 <= i < n :: dir[i] != 0 && InSlot(dir, mem, i, x)
  }

  ghost predicate InSlot(dir: seq<nat>, mem: map<nat, seq<nat>>, i: nat, x: nat)
    requires WellFormed(dir, mem) && i < USER_ENTRIES && dir[i] != 0
  {
    x == TableOf(dir[i]) || x in Frames(TableAt(dir, mem, i), ENTRIES)
  }

  lemma {:induction false} PagesIn(dir: seq<nat>, mem: map<nat, seq<nat>>, n: nat, x: nat)
    requires WellFormed(dir, mem) && n <= USER_ENTRIES
    ensures x in Pages(dir, mem, n) <==> Behind(dir, mem, n, x)
  {
    hide WellFormed, TableAt, TableOf, Frames;
    FormHasEntries(dir, mem);
    if n > 0 {
      PagesIn(dir, mem, n - 1, x);
      if dir[n - 1] != 0 {
        assert x in Frames(TableAt(dir, mem, n - 1), ENTRIES) + [TableOf(dir[n - 1])]
          <==> InSlot(dir, mem, n - 1, x);
      }
    }
  }

  lemma FormHasEntries(dir: seq<nat>, mem: map<nat, seq<nat>>)
    requires WellFormed(dir, mem)
    ensures |dir| == ENTRIES
  {
  }

  /** Two directory entries have no page in common. */
  lemma SlotsApart(dir: seq<nat>, mem: map<nat, seq<nat>>, i: nat, k: nat, x: nat)
    requires WellFormed(dir, mem) && Unshared(dir, mem)
    requires i < USER_ENTRIES && k < USER_ENTRIES && i != k && dir[i] != 0 && dir[k] != 0
    requires InSlot(dir, mem, i, x)
    ensures !InSlot(dir, mem, k, x)
  {
    hide WellFormed, TableOf, Frames, TableAt, Maps, PageAt, MappedBy;
    TablesApart(dir, mem, i, k);
    FormHasEntries(dir, mem);
    var s, t := TableAt(dir, mem, i), TableAt(dir, mem, k);
    FramesIn(s, ENTRIES, x);
    FramesIn(t, ENTRIES, x);
    if x in Frames(s, ENTRIES) {
      var j :| 0 <= j < ENTRIES && MappedBy(s[j]).Some? && MappedBy(s[j]).value.page == x;
      EntryIsMapping(dir, mem, i, j);
      forall l | 0 <= l < ENTRIES && MappedBy(t[l]).Some? ensures MappedBy(t[l]).value.page != x {
        EntryIsMapping(dir, mem, k, l);
        PagesDiffer(i, j, k, l);
      }
    } else {
      forall l | 0 <= l < ENTRIES && MappedBy(t[l]).Some? ensures MappedBy(t[l]).value.page != x {
        EntryIsMapping(dir, mem, k, l);
      }
    }
  }

  lemma {:induction false} PagesNoDup(dir: seq<nat>, mem: map<nat, seq<nat>>, n: nat)
    requires WellFormed(dir, mem) && Unshared(dir, mem) && n <= USER_ENTRIES
    ensures NoDup(Pages(dir, mem, n))
  {
    hide WellFormed, Unshared, TableOf, Frames, TableAt, InSlot;
    FormHasEntries(dir, mem);
    if n > 0 {
      PagesNoDup(dir, mem, n - 1);
      if dir[n - 1] != 0 {
        TableNoDup(dir, mem, n - 1);
        var last := Frames(TableAt(dir, mem, n - 1), ENTRIES) + [TableOf(dir[n - 1])];
        forall x | x in Pages(dir, mem, n - 1) ensures x !in last {
          PagesIn(dir, mem, n - 1, x);
          var i :| 0 <= i < n - 1 && dir[i] != 0 && InSlot(dir, mem, i, x);
          SlotsApart(dir, mem, i, n - 1, x);
          InSlotIs(dir, mem, n - 1, x);
        }
        NoDupConcat(Pages(dir, mem, n - 1), last);
      } else {
        assert Pages(dir, mem, n) == Pages(dir, mem, n - 1);
      }
    }
  }

  lemma InSlotIs(dir: seq<nat>, mem: map<nat, seq<nat>>, i: nat, x: nat)
    requires WellFormed(dir, mem) && i < USER_ENTRIES && dir[i] != 0
    ensures InSlot(dir, mem, i, x) <==> x in Frames(TableAt(dir, mem, i), ENTRIES) + [TableOf(dir[i])]
  {
    hide WellFormed, TableOf, Frames, TableAt;
  }

  ghost predicate IsFrame(dir: seq<nat>, mem: map<nat, seq<nat>>, x: nat)
    requires WellFormed(dir, mem)
  {
    exists p | p in Maps(dir, mem) :: Maps(dir, mem)[p].page == x
  }

  ghost predicate IsTable(dir: seq<nat>, x: nat)
    requires |dir| == ENTRIES
  {
    exists i | 0 <= i < USER_ENTRIES :: dir[i] != 0 && TableOf(dir[i]) == x
  }

  /** The pages behind the user half are its page tables and its mapped frames. */
  lemma PagesAre(dir: seq<nat>, mem: map<nat, seq<nat>>, x: nat)
    requires WellFormed(dir, mem)
    ensures x in Pages(dir, mem, USER_ENTRIES) <==> IsTable(dir, x) || IsFrame(dir, mem, x)
  {
    hide WellFormed, TableOf, Frames, TableAt, Pages, MappedBy, PageAt, DirIx, TabIx, Maps;
    FormHasEntries(dir, mem);
    PagesIn(dir, mem, USER_ENTRIES, x);
    if Behind(dir, mem, USER_ENTRIES, x) {
      var i :| 0 <= i < USER_ENTRIES && dir[i] != 0 && InSlot(dir, mem, i, x);
      if x != TableOf(dir[i]) { SlotFrame(dir, mem, i, x); }
    }
    if IsFrame(dir, mem, x) {
      var p :| p in Maps(dir, mem) && Maps(dir, mem)[p].page == x;
      FrameSlot(dir, mem, p);
      assert InSlot(dir, mem, DirIx(p), x);
    }
    if IsTable(dir, x) {
      var i :| 0 <= i < USER_ENTRIES && dir[i] != 0 && TableOf(dir[i]) == x;
      assert InSlot(dir, mem, i, x);
    }
  }

  lemma SlotFrame(dir: seq<nat>, mem: map<nat, seq<nat>>, i: nat, x: nat)
    requires WellFormed(dir, mem) && i < USER_ENTRIES && dir[i] != 0
    requires x in Frames(TableAt(dir, mem, i), ENTRIES)
    ensures IsFrame(dir, mem, x)
  {
    var t := TableAt(dir, mem, i);
    hide WellFormed, TableOf, Frames, TableAt, MappedBy, PageAt, Maps;
    FramesIn(t, ENTRIES, x);
    var j :| 0 <= j < ENTRIES && MappedBy(t[j]).Some? && MappedBy(t[j]).value.page == x;
    EntryIsMapping(dir, mem, i, j);
    assert PageAt(i, j) in Maps(dir, mem);
  }

  lemma FrameSlot(dir: seq<nat>, mem: map<nat, seq<nat>>, p: nat)
    requires WellFormed(dir, mem) && p in Maps(dir, mem)
    ensures p < USER_PAGES && DirIx(p) < USER_ENTRIES && dir[DirIx(p)] != 0
    ensures Maps(dir, mem)[p].page in Frames(TableAt(dir, mem, DirIx(p)), ENTRIES)
  {
    hide WellFormed, TableOf, Frames, MappedBy, DirIx, TabIx, PageAt, TableAt;
    IxBounds(p);
    var i, j := DirIx(p), TabIx(p);
    assert Translation(dir, mem, p) == At(dir, mem, i, j);
    var t := TableAt(dir, mem, i);
    EntryIsMapping(dir, mem, i, j);
    FramesIn(t, ENTRIES, MappedBy(t[j]).value.page);
  }

  /** Destroying a page directory frees every frame, every page table and the directory
      itself, each exactly once, if no page is shared. */
  lemma FreedOnce(dir: seq<nat>, mem: map<nat, seq<nat>>, base: nat)
    requires WellFormed(dir, mem) && Unshared(dir, mem)
    requires !IsTable(dir, base) && !IsFrame(dir, mem, base)
    ensures var freed := Pages(dir, mem, USER_ENTRIES) + [base];
      && NoDup(freed)
      && forall x :: x in freed <==> x == base || IsTable(dir, x) || IsFrame(dir, mem, x)
  {
    hide WellFormed, Unshared, Pages, IsTable, IsFrame;
    var pages := Pages(dir, mem, USER_ENTRIES);
    FormHasEntries(dir, mem);
    PagesNoDup(dir, mem, USER_ENTRIES);
    forall x ensures x in pages <==> IsTable(dir, x) || IsFrame(dir, mem, x) {
      if x >= 0 { PagesAre(dir, mem, x); }
    }
    NoDupAppend(pages, base);
  }
}
