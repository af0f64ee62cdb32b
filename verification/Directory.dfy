/** Directories: files that are tables of names. */
module Directories {
  import opened FileIo
  import opened FreeMaps
  import opened Options

  const NAME_MAX: nat := 14
  const ENTRY_SIZE: nat := 20    // four bytes of sector, the name with its null, in_use

  type Name = seq<Byte>

  /** The bytes of a string, up to its null. */
  function CString(s: seq<Byte>): seq<Byte> {
    if s == [] || s[0] == 0 then [] else [s[0]] + CString(s[1..])
  }

  predicate IsString(name: Name) {
    forall i | 0 <= i < |name| :: name[i] != 0
  }

  type Entry = e: seq<Byte> | |e| == 20 witness seq(20, _ => 0)

  function SectorOf(e: Entry): nat { FromLe32(e[..4]) }

  function NameOf(e: Entry): Name { CString(e[4..19]) }

  predicate InUse(e: Entry) { e[19] != 0 }

  /** What dir_add stores: strlcpy leaves the rest of the name as it was in `e`. */
  function MakeEntry(e: Entry, name: Name, sector: nat): Entry
    requires |name| <= NAME_MAX && sector < 0x1_0000_0000
  {
    Le32(sector) + name + [0] + e[5 + |name|..19] + [1]
  }

  lemma {:induction false} CStringOf(name: Name, rest: seq<Byte>)
    requires IsString(name)
    ensures CString(name + [0] + rest) == name
  {
    var s := name + [0] + rest;
    if name != [] {
      CStringOf(name[1..], rest);
      assert s[1..] == name[1..] + [0] + rest;
    }
  }

  /** An entry says what it was made of. */
  lemma EntryRoundTrip(e: Entry, name: Name, sector: nat)
    requires IsString(name) && |name| <= NAME_MAX && sector < 0x1_0000_0000
    ensures var m := MakeEntry(e, name, sector); InUse(m) && NameOf(m) == name && SectorOf(m) == sector
  {
    hide CString, Le32, FromLe32;
    var m := MakeEntry(e, name, sector);
    Le32RoundTrip(sector);
    CStringOf(name, e[5 + |name|..19]);
    assert m[..4] == Le32(sector);
    assert m[4..19] == name + [0] + e[5 + |name|..19];
  }

  /** Where things stand in an entry: the sector in four bytes, lowest first, the name and
      its null, and the byte that says it is in use. */
  lemma EntryLayout(e: Entry, name: Name, sector: nat)
    requires |name| <= NAME_MAX && sector < 0x1_0000_0000
    ensures var m := MakeEntry(e, name, sector);
      && sector == m[0] as int + 0x100 * m[1] as int + 0x1_0000 * m[2] as int + 0x100_0000 * m[3] as int
      && m[4..4 + |name|] == name && m[4 + |name|] == 0 && m[19] == 1
      && forall i | 5 + |name| <= i < 19 :: m[i] == e[i]
  {
    hide Le32;
    var m := MakeEntry(e, name, sector);
    Le32RoundTrip(sector);
    assert m[..4] == Le32(sector);
  }

  /** A stored string ends at its first null. */
  lemma {:induction false} CStringIs(s: seq<Byte>)
    ensures CString(s) <= s && 0 !in CString(s) && (|CString(s)| < |s| ==> s[|CString(s)|] == 0)
  {
    if s != [] && s[0] != 0 {
      CStringIs(s[1..]);
    }
  }

  // ----- The table

  predicate IsSlot(d: seq<Byte>, k: nat) { ENTRY_SIZE * (k + 1) <= |d| }

  function Slot(d: seq<Byte>, k: nat): Entry
    requires IsSlot(d, k)
  {
    d[ENTRY_SIZE * k..ENTRY_SIZE * (k + 1)]
  }

  /** Slot k is an entry for the name. */
  predicate Lists(d: seq<Byte>, k: nat, name: Name) {
    IsSlot(d, k) && InUse(Slot(d, k)) && NameOf(Slot(d, k)) == name
  }

  /** Every name in use has a null, so that comparing it with a longer string stops there. */
  ghost predicate Terminated(d: seq<Byte>) {
    forall k: nat :: IsSlot(d, k) && InUse(Slot(d, k)) ==> |NameOf(Slot(d, k))| <= NAME_MAX
  }

  ghost predicate Has(d: seq<Byte>, name: Name) {
    exists k: nat :: Lists(d, k, name)
  }

  /** No name is listed twice. */
  ghost predicate Unique(d: seq<Byte>) {
    forall j: nat, k: nat, name :: Lists(d, j, name) && Lists(d, k, name) ==> j == k
  }

  /** The file that a name stands for. */
  ghost predicate Means(d: seq<Byte>, name: Name, sector: nat) {
    exists k: nat :: Lists(d, k, name) && SectorOf(Slot(d, k)) == sector
  }

  /** The same entries in the same slots. */
  ghost predicate SameSlots(d: seq<Byte>, d': seq<Byte>) {
    |d'| == |d| && forall k: nat :: IsSlot(d, k) ==> Slot(d', k) == Slot(d, k)
  }

  lemma SameSlotsRefl(d: seq<Byte>)
    ensures SameSlots(d, d)
  {
  }

  /** d' is d with slot k replaced. */
  ghost predicate Replaced(d: seq<Byte>, d': seq<Byte>, k: nat, e: Entry) {
    && |d'| == |d| && IsSlot(d, k) && Slot(d', k) == e
    && forall j: nat :: IsSlot(d, j) && j != k ==> Slot(d', j) == Slot(d, j)
  }

  /** Writing an entry over a slot. */
  lemma UpdateSlot(d: seq<Byte>, k: nat, e: Entry)
    requires IsSlot(d, k)
    ensures Replaced(d, Update(d, ENTRY_SIZE * k, e), k, e)
  {
    var d' := Update(d, ENTRY_SIZE * k, e);
    forall j: nat | IsSlot(d, j) && j != k ensures Slot(d', j) == Slot(d, j) {
      if j < k { SlotsApart(j, k); } else { SlotsApart(k, j); }
    }
  }

  lemma SlotsApart(j: nat, k: nat)
    requires j < k
    ensures ENTRY_SIZE * (j + 1) <= ENTRY_SIZE * k
  {
  }

  /** Writing past the last slot. */
  lemma UpdateTail(d: seq<Byte>, k: nat, data: seq<Byte>)
    requires !IsSlot(d, k) && (data == [] || ENTRY_SIZE * k + |data| <= |d|)
    ensures SameSlots(d, Update(d, ENTRY_SIZE * k, data))
  {
    var d' := Update(d, ENTRY_SIZE * k, data);
    forall j: nat | IsSlot(d, j) ensures Slot(d', j) == Slot(d, j) {
      assert j < k by { if k < j { SlotsApart(k, j); } }
    }
  }

  // ----- Searching, when some of the reads fail

  /** lookup: `ok(k)` says whether there is memory to read slot k. */
  function Find(d: seq<Byte>, name: Name, ok: nat -> bool, k: nat): (r: Option<nat>)
    ensures r.Some? ==> k <= r.value && Lists(d, r.value, name)
    decreases |d| - ENTRY_SIZE * k
  {
    if !IsSlot(d, k) || !ok(k) then None
    else if Lists(d, k, name) then Some(k)
    else Find(d, name, ok, k + 1)
  }

  /** Where dir_add stops looking for a slot. */
  function FreeSlot(d: seq<Byte>, ok: nat -> bool, k: nat): (r: nat)
    ensures k <= r && (!IsSlot(d, r) || !ok(r) || !InUse(Slot(d, r)))
    ensures forall j: nat :: k <= j < r ==> IsSlot(d, j) && ok(j) && InUse(Slot(d, j))
    decreases |d| - ENTRY_SIZE * k
  {
    if !IsSlot(d, k) || !ok(k) || !InUse(Slot(d, k)) then k
    else FreeSlot(d, ok, k + 1)
  }

  /** lookup goes through the slots in order and stops at the first that has the name, that
      cannot be read, or that is not there. */
  lemma {:induction false} FindStops(d: seq<Byte>, name: Name, ok: nat -> bool, k: nat) returns (e: nat)
    ensures k <= e && forall j: nat :: k <= j < e ==> IsSlot(d, j) && ok(j) && !Lists(d, j, name)
    ensures if IsSlot(d, e) && ok(e) then Lists(d, e, name) && Find(d, name, ok, k) == Some(e)
            else Find(d, name, ok, k) == None
    decreases |d| - ENTRY_SIZE * k
  {
    hide Lists;
    if !IsSlot(d, k) || !ok(k) || Lists(d, k, name) {
      e := k;
    } else {
      e := FindStops(d, name, ok, k + 1);
    }
  }

  /** With memory for every read, lookup finds the name exactly if it is there. */
  lemma {:induction false} FindIff(d: seq<Byte>, name: Name, ok: nat -> bool, k: nat)
    requires forall j: nat :: k <= j && IsSlot(d, j) ==> ok(j)
    requires forall j: nat :: j < k ==> !Lists(d, j, name)
    ensures Find(d, name, ok, k).Some? <==> Has(d, name)
    decreases |d| - ENTRY_SIZE * k
  {
    if IsSlot(d, k) {
      if !Lists(d, k, name) { FindIff(d, name, ok, k + 1); }
    } else {
      forall j: nat ensures !Lists(d, j, name) {
        if k < j { SlotsApart(k, j); }
      }
    }
  }

  // ----- Adding and removing entries

  /** An entry for the name is in slot k, and everything else is as it was. */
  ghost predicate Stored(d: seq<Byte>, d': seq<Byte>, k: nat, name: Name, sector: nat) {
    |d'| == |d| && Lists(d', k, name) && SectorOf(Slot(d', k)) == sector && Replaced(d, d', k, Slot(d', k))
  }

  /** dir_add succeeds: `find` and `scan` are the memory for its two searches, `write` that
      for storing the entry. */
  predicate CanAdd(d: seq<Byte>, name: Name, denied: bool, find: nat -> bool, scan: nat -> bool, write: bool) {
    && 0 < |name| <= NAME_MAX && Find(d, name, find, 0) == None
    && IsSlot(d, FreeSlot(d, scan, 0)) && !denied && write
  }

  /** Slot k is free, and everything else is as it was. */
  ghost predicate Cleared(d: seq<Byte>, d': seq<Byte>, k: nat) {
    |d'| == |d| && IsSlot(d, k) && !InUse(Slot(d', k)) && Replaced(d, d', k, Slot(d', k))
  }

  /** With memory for all of it, dir_add fails only for a bad name, a name that is there, or a
      directory that is full or may not be written. */
  lemma CanAddIff(d: seq<Byte>, name: Name, denied: bool, find: nat -> bool, scan: nat -> bool)
    requires forall k: nat :: IsSlot(d, k) ==> find(k) && scan(k)
    ensures CanAdd(d, name, denied, find, scan, true) <==>
      0 < |name| <= NAME_MAX && !Has(d, name) && !denied && exists k: nat :: IsSlot(d, k) && !InUse(Slot(d, k))
  {
    FindIff(d, name, find, 0);
    var r := FreeSlot(d, scan, 0);
    if k: nat :| IsSlot(d, k) && !InUse(Slot(d, k)) {
      assert r <= k;
    }
  }

  /** No entry was lost and no name is listed twice. */
  ghost predicate Grown(d: seq<Byte>, d': seq<Byte>) {
    Unique(d') && forall name, sector :: Means(d, name, sector) ==> Means(d', name, sector)
  }

  /** A new entry does no harm exactly if its slot was free and its name was not listed. */
  lemma AddIff(d: seq<Byte>, d': seq<Byte>, k: nat, e: Entry)
    requires Unique(d) && Replaced(d, d', k, e) && InUse(e) && !Means(d, NameOf(e), SectorOf(e))
    ensures Means(d', NameOf(e), SectorOf(e))
    ensures Grown(d, d') <==> !InUse(Slot(d, k)) && !Has(d, NameOf(e))
  {
    hide NameOf, SectorOf, InUse, Slot;
    var name := NameOf(e);
    assert Lists(d', k, name);
    if !InUse(Slot(d, k)) && !Has(d, name) {
      AddGrows(d, d', k, e);
    }
    if InUse(Slot(d, k)) {
      var was, sector := NameOf(Slot(d, k)), SectorOf(Slot(d, k));
      assert Lists(d, k, was) && Means(d, was, sector);
      assert forall j: nat :: j != k && Lists(d', j, was) ==> Lists(d, j, was);
    } else if j: nat :| Lists(d, j, name) {
      assert Lists(d', j, name) && j != k && !Unique(d');
    }
  }

  lemma AddGrows(d: seq<Byte>, d': seq<Byte>, k: nat, e: Entry)
    requires Unique(d) && Replaced(d, d', k, e) && InUse(e) && !InUse(Slot(d, k)) && !Has(d, NameOf(e))
    ensures Grown(d, d')
    ensures forall name, sector :: Means(d', name, sector) <==>
      Means(d, name, sector) || (name == NameOf(e) && sector == SectorOf(e))
  {
    hide NameOf, SectorOf, InUse, Slot;
    assert forall j: nat, name :: j != k ==> (Lists(d', j, name) <==> Lists(d, j, name));
    forall i: nat, j: nat, name | Lists(d', i, name) && Lists(d', j, name) ensures i == j {
      if i != k && j != k { assert Lists(d, i, name) && Lists(d, j, name); }
    }
    forall name, sector ensures Means(d', name, sector) <==>
      Means(d, name, sector) || (name == NameOf(e) && sector == SectorOf(e))
    {
      if Means(d, name, sector) {
        var j: nat :| Lists(d, j, name) && SectorOf(Slot(d, j)) == sector;
        assert Lists(d', j, name) && SectorOf(Slot(d', j)) == sector;
      }
      if name == NameOf(e) && sector == SectorOf(e) { assert Lists(d', k, name); }
      if Means(d', name, sector) {
        var j: nat :| Lists(d', j, name) && SectorOf(Slot(d', j)) == sector;
        assert j != k ==> Lists(d, j, name) && SectorOf(Slot(d, j)) == sector;
      }
    }
  }

  /** An entry that is cleared takes its name with it, and no other. */
  lemma RemoveMeans(d: seq<Byte>, d': seq<Byte>, k: nat, e: Entry)
    requires Unique(d) && Replaced(d, d', k, e) && InUse(Slot(d, k)) && !InUse(e)
    ensures Unique(d')
    ensures forall name, sector :: Means(d', name, sector) <==> Means(d, name, sector) && name != NameOf(Slot(d, k))
  {
    hide NameOf, SectorOf, InUse, Slot;
    var gone := NameOf(Slot(d, k));
    assert Lists(d, k, gone);
    assert forall j: nat, name :: Lists(d', j, name) <==> Lists(d, j, name) && j != k;
    forall name, sector ensures Means(d', name, sector) <==> Means(d, name, sector) && name != gone {
      if Means(d', name, sector) {
        var j: nat :| Lists(d', j, name) && SectorOf(Slot(d', j)) == sector;
        assert Lists(d, j, name) && SectorOf(Slot(d, j)) == sector;
      }
      if Means(d, name, sector) && name != gone {
        var j: nat :| Lists(d, j, name) && SectorOf(Slot(d, j)) == sector;
        assert Lists(d', j, name) && SectorOf(Slot(d', j)) == sector;
      }
    }
  }

  lemma SameMeans(d: seq<Byte>, d': seq<Byte>)
    requires SameSlots(d, d')
    ensures forall name, sector :: Means(d', name, sector) <==> Means(d, name, sector)
    ensures Unique(d') <==> Unique(d)
  {
    hide NameOf, SectorOf, InUse, Slot;
    assert forall k: nat, name :: Lists(d', k, name) <==> Lists(d, k, name);
    forall name, sector ensures Means(d', name, sector) <==> Means(d, name, sector) {
      if Means(d', name, sector) {
        var j: nat :| Lists(d', j, name) && SectorOf(Slot(d', j)) == sector;
        assert Lists(d, j, name) && SectorOf(Slot(d, j)) == sector;
      }
      if Means(d, name, sector) {
        var j: nat :| Lists(d, j, name) && SectorOf(Slot(d, j)) == sector;
        assert Lists(d', j, name) && SectorOf(Slot(d', j)) == sector;
      }
    }
  }

  /** dir_add, whatever memory there was: it did no harm exactly if the slot it chose was free
      and the name was not listed.  The first can fail only by a read that failed, and so can the
      second. */
  lemma StoredIff(d: seq<Byte>, d': seq<Byte>, name: Name, sector: nat, denied: bool,
                  find: nat -> bool, scan: nat -> bool, write: bool)
    requires Unique(d) && !Means(d, name, sector) && CanAdd(d, name, denied, find, scan, write)
    requires Stored(d, d', FreeSlot(d, scan, 0), name, sector)
    ensures Grown(d, d') <==> !InUse(Slot(d, FreeSlot(d, scan, 0))) && !Has(d, name)
    ensures InUse(Slot(d, FreeSlot(d, scan, 0))) ==> !scan(FreeSlot(d, scan, 0))
    ensures Has(d, name) ==> exists k: nat :: IsSlot(d, k) && !find(k)
  {
    hide NameOf, SectorOf, InUse, Slot;
    var k := FreeSlot(d, scan, 0);
    AddIff(d, d', k, Slot(d', k));
    if forall k: nat :: IsSlot(d, k) ==> find(k) {
      FindIff(d, name, find, 0);
    }
  }

  /** With memory for every read, the listing gains exactly the new name. */
  lemma StoredMeans(d: seq<Byte>, d': seq<Byte>, name: Name, sector: nat, denied: bool,
                    find: nat -> bool, scan: nat -> bool, write: bool)
    requires Unique(d) && CanAdd(d, name, denied, find, scan, write)
    requires Stored(d, d', FreeSlot(d, scan, 0), name, sector)
    requires forall k: nat :: IsSlot(d, k) ==> find(k) && scan(k)
    ensures Unique(d') && forall n, s :: Means(d', n, s) <==> Means(d, n, s) || (n == name && s == sector)
  {
    hide NameOf, SectorOf, InUse, Slot;
    var k := FreeSlot(d, scan, 0);
    FindIff(d, name, find, 0);
    AddGrows(d, d', k, Slot(d', k));
  }

  /** Adding a name and removing it again leaves the listing as it was. */
  lemma AddThenRemove(d: seq<Byte>, d1: seq<Byte>, d2: seq<Byte>, name: Name, sector: nat, denied: bool,
                      find: nat -> bool, scan: nat -> bool, write: bool, again: nat -> bool)
    requires Unique(d) && CanAdd(d, name, denied, find, scan, write)
    requires forall k: nat :: IsSlot(d, k) ==> find(k) && scan(k)
    requires Stored(d, d1, FreeSlot(d, scan, 0), name, sector)
    requires Find(d1, name, again, 0).Some? && Cleared(d1, d2, Find(d1, name, again, 0).value)
    ensures Unique(d2) && forall n, s :: Means(d2, n, s) <==> Means(d, n, s)
  {
    hide NameOf, SectorOf, InUse, Slot;
    StoredMeans(d, d1, name, sector, denied, find, scan, write);
    FindIff(d, name, find, 0);
    var k := Find(d1, name, again, 0).value;
    RemoveMeans(d1, d2, k, Slot(d2, k));
    forall s ensures !Means(d, name, s) {
    }
  }

  /** A directory with one slot, which lists the file "a". */
  const ONE_FILE: seq<Byte> := MakeEntry(seq(20, _ => 0), [97], 5)

  /** Without memory for reading that slot, but with memory for writing it, adding "b" puts the
      entry for "b" over that for "a". */
  lemma LosesEntry(d': seq<Byte>)
    ensures CanAdd(ONE_FILE, [98], false, _ => true, _ => false, true)
    ensures Stored(ONE_FILE, d', FreeSlot(ONE_FILE, _ => false, 0), [98], 6) ==>
      Means(ONE_FILE, [97], 5) && !Has(d', [97])
  {
    EntryRoundTrip(seq(20, _ => 0), [97], 5);
    OneFile();
    if Stored(ONE_FILE, d', 0, [98], 6) {
      forall k: nat ensures !Lists(d', k, [97]) {
        assert k > 0 ==> !IsSlot(d', k);
      }
    }
  }

  lemma OneFile()
    ensures |ONE_FILE| == 20 && IsSlot(ONE_FILE, 0) && Slot(ONE_FILE, 0) == ONE_FILE && !IsSlot(ONE_FILE, 1)
    ensures Lists(ONE_FILE, 0, [97]) && SectorOf(ONE_FILE) == 5 && Means(ONE_FILE, [97], 5)
  {
    EntryRoundTrip(seq(20, _ => 0), [97], 5);
    assert ONE_FILE[0..20] == ONE_FILE;
  }
}
