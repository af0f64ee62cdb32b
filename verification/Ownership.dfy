/** Which sectors belong to which inode, and how the free map agrees. */
module Ownership {
  import opened Bitmaps
  import opened FileIo

  /** The data of a file: where it starts and how many bytes it has. */
  datatype Extent = Extent(start: nat, length: nat)

  predicate InExtent(e: Extent, k: nat) {
    e.start <= k < e.start + BytesToSectors(e.length)
  }

  /** The inodes on disk, by the sector of their header. */
  type Files = map<nat, Extent>

  ghost predicate ExtentUsed(e: Extent, used: seq<bool>) {
    && e.start + BytesToSectors(e.length) <= |used|
    && (forall k: nat :: InExtent(e, k) ==> used[k])
  }

  ghost predicate ExtentsApart(e: Extent, f: Extent) {
    forall k: nat :: !(InExtent(e, k) && InExtent(f, k))
  }

  /** Headers and extents of different inodes never share a sector, headers that are
      reserved for inodes yet to be made belong to nobody else, and all of them are
      marked used. */
  ghost predicate OwnOk(files: Files, reserved: set<nat>, used: seq<bool>) {
    && (forall h :: h in files ==> h < |used| && used[h] && h !in reserved && ExtentUsed(files[h], used))
    && (forall h, g :: h in files && g in files ==> !InExtent(files[g], h))
    && (forall h, g :: h in files && g in files && h != g ==> ExtentsApart(files[h], files[g]))
    && (forall r :: r in reserved ==> r < |used| && used[r])
    && (forall r, g :: r in reserved && g in files ==> !InExtent(files[g], r))
  }

  lemma Allocated(files: Files, reserved: set<nat>, used: seq<bool>, start: nat, cnt: nat)
    requires OwnOk(files, reserved, used) && start + cnt <= |used|
    ensures OwnOk(files, reserved, Filled(used, start, cnt, true))
  {
    var used' := Filled(used, start, cnt, true);
    forall h | h in files
      ensures ExtentUsed(files[h], used')
    {
      assert ExtentUsed(files[h], used);
    }
  }

  lemma ReserveOk(files: Files, reserved: set<nat>, used: seq<bool>, r: nat)
    requires OwnOk(files, reserved, used) && r < |used| && !used[r]
    ensures OwnOk(files, reserved + {r}, Filled(used, r, 1, true))
  {
    Allocated(files, reserved, used, r, 1);
    var used' := Filled(used, r, 1, true);
    forall g | g in files
      ensures !InExtent(files[g], r)
    {
      assert ExtentUsed(files[g], used);
    }
  }

  lemma CreateOk(files: Files, reserved: set<nat>, used: seq<bool>, h: nat, e: Extent)
    requires OwnOk(files, reserved, used) && h in reserved
    requires e.start + BytesToSectors(e.length) <= |used| && AllAre(used, e.start, BytesToSectors(e.length), false)
    ensures OwnOk(files[h := e], reserved - {h}, Filled(used, e.start, BytesToSectors(e.length), true))
  {
    Allocated(files, reserved, used, e.start, BytesToSectors(e.length));
    var used' := Filled(used, e.start, BytesToSectors(e.length), true);
    var files' := files[h := e];
    assert ExtentUsed(e, used');
    forall g | g in files
      ensures ExtentsApart(e, files[g]) && ExtentsApart(files[g], e) && !InExtent(e, g)
    {
      assert ExtentUsed(files[g], used);
    }
  }

  /** Freeing sectors that no inode and no reservation owns. */
  lemma Unowned(files: Files, reserved: set<nat>, used: seq<bool>, start: nat, cnt: nat)
    requires OwnOk(files, reserved, used) && start + cnt <= |used|
    requires forall h :: h in files ==> !(start <= h < start + cnt)
    requires forall h, k: nat :: h in files && InExtent(files[h], k) ==> !(start <= k < start + cnt)
    requires forall r :: r in reserved ==> !(start <= r < start + cnt)
    ensures OwnOk(files, reserved, Filled(used, start, cnt, false))
  {
    var used' := Filled(used, start, cnt, false);
    forall h | h in files
      ensures ExtentUsed(files[h], used')
    {
      assert ExtentUsed(files[h], used);
    }
  }

  lemma UnreserveOk(files: Files, reserved: set<nat>, used: seq<bool>, r: nat)
    requires OwnOk(files, reserved, used) && r in reserved
    ensures r < |used| && AllAre(used, r, 1, true)
    ensures OwnOk(files, reserved - {r}, used) && OwnOk(files, reserved - {r}, Filled(used, r, 1, false))
  {
    Unowned(files, reserved - {r}, used, r, 1);
  }

  /** Forgetting an inode leaves the others as they are. */
  lemma ForgetOwn(files: Files, reserved: set<nat>, used: seq<bool>, h: nat)
    requires OwnOk(files, reserved, used)
    ensures OwnOk(files - {h}, reserved, used)
  {
  }

  /** Forgetting an inode whose header is released; its data stays marked. */
  lemma AbandonOk(files: Files, reserved: set<nat>, used: seq<bool>, h: nat)
    requires OwnOk(files, reserved, used) && h in files
    ensures AllAre(used, h, 1, true) && OwnOk(files - {h}, reserved, Filled(used, h, 1, false))
  {
    Unowned(files - {h}, reserved, used, h, 1);
  }

  /** Releasing header and data of an inode: both are still marked, and nobody else
      loses a sector. */
  lemma FreeOk(files: Files, reserved: set<nat>, used: seq<bool>, h: nat)
    requires OwnOk(files, reserved, used) && h in files
    ensures var e := files[h];
      var used1 := Filled(used, h, 1, false);
      && AllAre(used, h, 1, true)
      && e.start + BytesToSectors(e.length) <= |used1|
      && AllAre(used1, e.start, BytesToSectors(e.length), true)
      && OwnOk(files - {h}, reserved, Filled(used1, e.start, BytesToSectors(e.length), false))
  {
    var e := files[h];
    AbandonOk(files, reserved, used, h);
    assert ExtentUsed(e, used);
    var used1 := Filled(used, h, 1, false);
    forall k | e.start <= k < e.start + BytesToSectors(e.length)
      ensures used1[k]
    {
      assert InExtent(e, k);
    }
    forall g, k: nat | g in files - {h} && InExtent(files[g], k)
      ensures !(e.start <= k < e.start + BytesToSectors(e.length))
    {
      assert ExtentsApart(files[h], files[g]);
    }
    forall r | r in reserved
      ensures !(e.start <= r < e.start + BytesToSectors(e.length))
    {
      assert !InExtent(files[h], r);
    }
    forall g | g in files - {h}
      ensures !(e.start <= g < e.start + BytesToSectors(e.length))
    {
      assert !InExtent(files[h], g);
    }
    Unowned(files - {h}, reserved, used1, e.start, BytesToSectors(e.length));
  }
}
