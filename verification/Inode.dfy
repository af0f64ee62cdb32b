/** Inodes: creating, opening, closing and removing them on a disk with a free map. */
module Inodes {
  import opened Bitmaps
  import opened FileIo
  import opened FreeMaps
  import opened Options
  import opened Ownership
  import opened Seqs

  const INODE_MAGIC: nat := 0x494e4f44

  const FREE_MAP_SECTOR: nat := 0
  const ROOT_DIR_SECTOR: nat := 1

  /** Disks are smaller than 1 GB: larger ones are disabled when they are detected. */
  const MAX_SECTORS: nat := 0x20_0000

  // ----- The on-disk inode

  predicate Encodable(e: Extent) {
    e.start < 0x1_0000_0000 && e.length < 0x8000_0000
  }

  /** struct inode_disk: start, length, magic, is_symlink and unused space. */
  function Encode(e: Extent): Sector
    requires Encodable(e)
  {
    Le32(e.start) + Le32(e.length) + Le32(INODE_MAGIC) + seq(500, _ => 0)
  }

  function Decode(s: Sector): Extent {
    Extent(FromLe32(s[0..4]), FromLe32(s[4..8]))
  }

  lemma HeaderRoundTrip(e: Extent)
    requires Encodable(e)
    ensures Decode(Encode(e)) == e
  {
    Le32RoundTrip(e.start);
    Le32RoundTrip(e.length);
    var s := Encode(e);
    assert s[0..4] == Le32(e.start) && s[4..8] == Le32(e.length);
  }

  /** Where things stand in a header sector: three words, lowest byte first, and nothing else. */
  lemma HeaderLayout(e: Extent)
    requires Encodable(e)
    ensures var s := Encode(e);
      && e.start == s[0] as int + 0x100 * s[1] as int + 0x1_0000 * s[2] as int + 0x100_0000 * s[3] as int
      && e.length == s[4] as int + 0x100 * s[5] as int + 0x1_0000 * s[6] as int + 0x100_0000 * s[7] as int
      && s[8..12] == [0x44, 0x4f, 0x4e, 0x49]
      && forall i | 12 <= i < 512 :: s[i] == 0
  {
    assert Le32(INODE_MAGIC) == [0x44, 0x4f, 0x4e, 0x49];
    hide Le32;
    Le32RoundTrip(e.start);
    Le32RoundTrip(e.length);
    var s := Encode(e);
    assert s[0..4] == Le32(e.start) && s[4..8] == Le32(e.length) && s[8..12] == Le32(INODE_MAGIC);
  }

  /** Every inode's header sector describes its extent. */
  ghost predicate HeadersOk(files: Files, sectors: seq<Sector>) {
    forall h :: h in files ==> h < |sectors| && Decode(sectors[h]) == files[h]
  }

  lemma HeaderAt(files: Files, sectors: seq<Sector>, h: nat)
    requires HeadersOk(files, sectors) && h in files
    ensures h < |sectors| && Decode(sectors[h]) == files[h]
  {
  }

  // ----- The list of open inodes

  /** An open inode is on the disk, the copy it holds is current, and it has openers. */
  ghost predicate OpenOk(i: Inode, files: Files)
    reads i
  {
    && i.sector in files && files[i.sector] == Extent(i.start, i.length)
    && 0 < i.openCnt && i.denyWriteCnt <= i.openCnt
  }

  /** An inode that can hold a bitmap of bitCnt bits, in the free map's sector. */
  ghost predicate IsFreeMap(i: Inode, bitCnt: nat)
    reads i`length
  {
    i.sector == FREE_MAP_SECTOR && i.length == ByteCnt(bitCnt)
  }

  /** Files may have gone, but none was added, and only the free map's may have changed. */
  ghost predicate OnlyMapChanged(was: map<nat, seq<Byte>>, now: map<nat, seq<Byte>>) {
    forall h :: h in now ==> h in was && (h != FREE_MAP_SECTOR ==> now[h] == was[h])
  }

  /** No two in-memory inodes stand for the same sector. */
  ghost predicate OneInodePerSector(open: seq<Inode>) {
    forall i, j :: 0 <= i < j < |open| ==> open[i].sector != open[j].sector
  }

  /** bytes_to_sectors: the sum is an int, and wraps around for the longest files. */
  function SectorsFor(length: nat): nat
    requires length < 0x8000_0000
  {
    var sum := length + SECTOR_SIZE - 1;
    if sum < 0x8000_0000 then sum / SECTOR_SIZE
    else 0x1_0000_0000 - (0x1_0000_0000 - sum) / SECTOR_SIZE
  }

  lemma SectorsForIs(length: nat)
    requires length < 0x8000_0000
    ensures length <= 0x8000_0000 - SECTOR_SIZE ==> SectorsFor(length) == BytesToSectors(length)
    ensures length > 0x8000_0000 - SECTOR_SIZE ==> SectorsFor(length) > MAX_SECTORS
  {
  }

  /** The first cnt sectors in a row that are free, from i on. */
  ghost function FirstRun(used: seq<bool>, cnt: nat, i: nat): (r: Option<nat>)
    ensures r.Some? ==> i <= r.value && r.value + cnt <= |used| && AllAre(used, r.value, cnt, false)
    decreases |used| - i
  {
    if i + cnt > |used| then None
    else if AllAre(used, i, cnt, false) then Some(i)
    else FirstRun(used, cnt, i + 1)
  }

  lemma {:induction false} FirstRunIs(used: seq<bool>, cnt: nat, i: nat, r: Option<nat>)
    requires r.Some? ==> i <= r.value && r.value + cnt <= |used| && AllAre(used, r.value, cnt, false)
    requires forall j :: i <= j && j + cnt <= |used| && (r.Some? ==> j < r.value) ==> !AllAre(used, j, cnt, false)
    ensures r == FirstRun(used, cnt, i)
    decreases |used| - i
  {
    hide AllAre;
    if i + cnt <= |used| && r != Some(i) {
      FirstRunIs(used, cnt, i + 1, r);
    }
  }

  lemma FirstFree(used: seq<bool>, i: nat)
    requires i < |used| && !used[i] && forall j :: 0 <= j < i ==> used[j]
    ensures FirstRun(used, 1, 0) == Some(i)
  {
    forall j | 0 <= j < i ensures !AllAre(used, j, 1, false) {
      assert used[j];
    }
    FirstRunIs(used, 1, 0, Some(i));
  }

  lemma {:induction false} NoRun(used: seq<bool>, cnt: nat, i: nat, j: nat)
    requires FirstRun(used, cnt, i) == None && i <= j && j + cnt <= |used|
    ensures !AllAre(used, j, cnt, false)
    decreases |used| - i
  {
    hide AllAre;
    if i < j { NoRun(used, cnt, i + 1, j); }
  }

  lemma FillUndone(used: seq<bool>, i: nat)
    requires i + 1 <= |used| && AllAre(used, i, 1, false)
    ensures Filled(Filled(used, i, 1, true), i, 1, false) == used
  {
  }

  /** Marking the sectors of a file shows, unless it is empty. */
  lemma FillShows(used: seq<bool>, i: nat, length: nat)
    requires i + BytesToSectors(length) <= |used| && AllAre(used, i, BytesToSectors(length), false)
    ensures Filled(used, i, BytesToSectors(length), true) == used <==> length == 0
  {
    if length > 0 {
      assert Filled(used, i, BytesToSectors(length), true)[i] && !used[i];
    }
  }

  /** One sector was marked, then others; unmarking it leaves the others marked. */
  lemma FillApart(used: seq<bool>, i: nat, j: nat, cnt: nat)
    requires i + 1 <= |used| && j + cnt <= |used| && AllAre(used, i, 1, false)
    requires AllAre(Filled(used, i, 1, true), j, cnt, false)
    ensures AllAre(used, j, cnt, false)
    ensures Filled(Filled(Filled(used, i, 1, true), j, cnt, true), i, 1, false) == Filled(used, j, cnt, true)
  {
    var marked := Filled(used, i, 1, true);
    assert marked[i] && !(j <= i < j + cnt);
    forall k | j <= k < j + cnt ensures !used[k] {
      assert !marked[k];
    }
  }

  class FileSystem {
    const disk: Disk
    const freeMap: Bitmap
    var freeMapFile: Inode?        // the inode of the free map file, once it is open
    var openInodes: seq<Inode>
    ghost var files: Files         // inodes created and not yet freed
    ghost var reserved: set<nat>   // header sectors allocated, inodes not yet created

    ghost predicate Valid()
      reads this, disk, freeMap, freeMap.bits, openInodes
    {
      && freeMap.Valid()
      && |disk.sectors| == freeMap.bitCnt < MAX_SECTORS
      && OwnOk(files, reserved, freeMap.Contents())
      && HeadersOk(files, disk.sectors)
      && (forall i :: 0 <= i < |openInodes| ==> OpenOk(openInodes[i], files))
      && OneInodePerSector(openInodes)
      && (freeMapFile != null ==> freeMapFile in openInodes && IsFreeMap(freeMapFile, freeMap.bitCnt))
    }

    /** A newly formatted disk: the sectors of the free map's and the root directory's
        inode are reserved. */
    constructor (disk: Disk, n: nat)
      requires n == |disk.sectors| && 2 <= n < MAX_SECTORS
      ensures Valid() && files == map[] && reserved == {FREE_MAP_SECTOR, ROOT_DIR_SECTOR} && openInodes == [] && this.disk == disk
      ensures fresh(freeMap) && fresh(freeMap.bits) && freeMapFile == null
    {
      var map_ := new Bitmap(n);
      map_.Mark(FREE_MAP_SECTOR);
      map_.Mark(ROOT_DIR_SECTOR);
      this.disk := disk;
      freeMap := map_;
      freeMapFile := null;
      openInodes := [];
      files := map[];
      reserved := {FREE_MAP_SECTOR, ROOT_DIR_SECTOR};
    }

    lemma ExtentOnDisk(h: nat)
      requires Valid() && h in files
      ensures OnDisk(disk.sectors, files[h].start, files[h].length)
    {
      InFiles(files, reserved, freeMap.Contents(), h);
    }

    /** The bytes of an inode's file. */
    ghost function Bytes(h: nat): seq<Byte>
      requires Valid() && h in files
      reads this, disk, freeMap, freeMap.bits, openInodes
    {
      ExtentOnDisk(h);
      Content(disk.sectors, files[h].start, files[h].length)
    }

    /** The bytes of all files, by the sector of their inode. */
    ghost function AllBytes(): map<nat, seq<Byte>>
      requires Valid()
      reads this, disk, freeMap, freeMap.bits, openInodes
    {
      map h | h in files :: Bytes(h)
    }

    /** The bytes are where the files are on the disk. */
    twostate lemma SameBytes()
      requires old(Valid()) && Valid() && files == old(files) && disk.sectors == old(disk.sectors)
      ensures AllBytes() == old(AllBytes())
    {
      hide OwnOk, HeadersOk, OneInodePerSector, OpenOk, Content;
    }

    /** inode_write_at on an open inode: a part of this file is replaced, every other
        file and every inode stays as it is. */
    method Write(inode: Inode, buffer: seq<Byte>, size: int, offset: nat, mallocOk: bool) returns (n: nat)
      requires Valid() && inode in openInodes && size <= |buffer|
      modifies disk
      ensures Valid() && inode.sector in files
      ensures n == if inode.denyWriteCnt > 0 then 0 else Transferred(inode.length, size, offset, mallocOk)
      ensures n <= |buffer|
      ensures n > 0 ==> n <= size && offset + n <= inode.length
      ensures inode.denyWriteCnt == 0 && mallocOk && size > 0 ==> n == size || offset + n >= inode.length
      ensures !mallocOk ==> n % 512 == 0 && (n > 0 ==> offset % 512 == 0)
      ensures inode.denyWriteCnt == 0 && !mallocOk && size > 0 && offset % 512 == 0 ==>
        n + 512 > size || offset + n + 512 > inode.length
      ensures Bytes(inode.sector) == Update(old(Bytes(inode.sector)), offset, buffer[..n])
      ensures forall h :: h in files && h != inode.sector ==> Bytes(h) == old(Bytes(h))
      ensures KeptOutside(old(disk.sectors), disk.sectors, files[inode.sector])
    {
      hide OwnOk, HeadersOk, Content, Written, Update, OneInodePerSector, IsFreeMap, KeptOutside;
      ghost var h := inode.sector;
      ghost var d := disk.sectors;
      ExtentOnDisk(h);
      n := WriteAt(disk, inode, buffer, size, offset, mallocOk);
      WrittenContent(d, disk.sectors, inode.start, inode.length, offset, buffer[..n]);
      WrittenSize(d, disk.sectors, inode.start, offset, buffer[..n]);
      WriteKeepsHeaders(files, reserved, freeMap.Contents(), d, disk.sectors, h, offset, buffer[..n]);
      WriteKeepsOutside(d, disk.sectors, files[h], offset, buffer[..n]);
      forall g | g in files && g != h
        ensures Bytes(g) == old(Bytes(g))
      {
        InFiles(files, reserved, freeMap.Contents(), g);
        WriteKeepsFile(files, reserved, freeMap.Contents(), d, disk.sectors, h, g, offset, buffer[..n]);
      }
    }

    /** inode_read_at on an open inode. */
    method Read(inode: Inode, buffer: array<Byte>, size: int, offset: nat, mallocOk: bool) returns (n: nat)
      requires Valid() && inode in openInodes && size <= buffer.Length
      modifies buffer
      ensures inode.sector in files && n == Transferred(inode.length, size, offset, mallocOk)
      ensures n > 0 ==> n <= size && offset + n <= inode.length
      ensures mallocOk && size > 0 ==> n == size || offset + n >= inode.length
      ensures !mallocOk ==> n % 512 == 0 && (n > 0 ==> offset % 512 == 0)
      ensures !mallocOk && size > 0 && offset % 512 == 0 ==>
        n + 512 > size || offset + n + 512 > inode.length
      ensures Valid() && ReadInto(Bytes(inode.sector), old(buffer[..]), buffer[..], offset, n)
    {
      hide OwnOk, HeadersOk, Content, ReadInto, OneInodePerSector, Transferred, IsFreeMap;
      ExtentOnDisk(inode.sector);
      n := ReadAt(disk, inode, buffer, size, offset, mallocOk);
    }

    // ----- The free map

    /** The free map file can be written back: nobody denies it, and there is memory for a
        bounce buffer or none is needed. */
    ghost predicate CanWriteMap(bounceOk: bool)
      reads this`freeMapFile, freeMapFile
    {
      freeMapFile != null && freeMapFile.denyWriteCnt == 0 && (bounceOk || ByteCnt(freeMap.bitCnt) % SECTOR_SIZE == 0)
    }

    /** The free map file holds the free map. */
    ghost predicate MapOnDisk()
      requires Valid()
      reads this, disk, freeMap, freeMap.bits, openInodes
    {
      BitmapWords(freeMap);
      FREE_MAP_SECTOR in files && Bytes(FREE_MAP_SECTOR) == Pack(freeMap.bits[..])
    }

    lemma MapInFiles()
      requires Valid() && freeMapFile != null
      ensures FREE_MAP_SECTOR in files && files[FREE_MAP_SECTOR] == Extent(freeMapFile.start, freeMapFile.length)
      ensures freeMapFile.sector == FREE_MAP_SECTOR && freeMapFile.length == ByteCnt(freeMap.bitCnt) && 0 < freeMap.bitCnt
    {
      hide HeadersOk, OneInodePerSector;
      InFiles(files, reserved, freeMap.Contents(), freeMapFile.sector);
    }

    /** bitmap_write of the free map to its file. */
    method BitmapWrite(bounceOk: bool) returns (ok: bool)
      requires Valid() && freeMapFile != null
      modifies disk
      ensures Valid() && FREE_MAP_SECTOR in files
      ensures ok <==> CanWriteMap(bounceOk)
      ensures ok ==> MapOnDisk()
      ensures forall h :: h in files && h != FREE_MAP_SECTOR ==> Bytes(h) == old(Bytes(h))
      ensures KeptOutside(old(disk.sectors), disk.sectors, files[FREE_MAP_SECTOR])
    {
      hide OwnOk, HeadersOk, OneInodePerSector, Content, Update, Pack, KeptOutside, Transferred;
      MapInFiles();
      BitmapWords(freeMap);
      var buffer := Pack(freeMap.bits[..]);
      MapSize(freeMap.bitCnt);
      ghost var was := Bytes(FREE_MAP_SECTOR);
      var n := Write(freeMapFile, buffer, |buffer|, 0, bounceOk);
      WholeTransfer(|buffer|, bounceOk);
      ok := n == |buffer|;
      if ok {
        WholeUpdate(was, buffer);
        assert buffer[..n] == buffer;
      }
    }

    /** free_map_allocate: once its file is open, the free map is written back, and when
        that fails the sectors are given up again.  No other file changes. */
    method FreeMapAllocate(cnt: nat, bounceOk: bool) returns (r: Option<nat>)
      requires Valid()
      modifies freeMap.bits, disk
      ensures Valid()
      ensures r == None ==> freeMap.Contents() == old(freeMap.Contents())
      ensures r.Some? ==>
        && r.value + cnt <= freeMap.bitCnt
        && AllAre(old(freeMap.Contents()), r.value, cnt, false)
        && freeMap.Contents() == Filled(old(freeMap.Contents()), r.value, cnt, true)
      ensures r == if CanWriteMap(bounceOk) || freeMapFile == null then FirstRun(old(freeMap.Contents()), cnt, 0) else None
      ensures r.Some? && freeMapFile != null ==> MapOnDisk()
      ensures forall h :: h in files && (h != FREE_MAP_SECTOR || freeMapFile == null) ==> Bytes(h) == old(Bytes(h))
      ensures if freeMapFile == null then disk.sectors == old(disk.sectors)
              else FREE_MAP_SECTOR in files && KeptOutside(old(disk.sectors), disk.sectors, files[FREE_MAP_SECTOR])
    {
      hide OwnOk, HeadersOk, OneInodePerSector, OpenOk, Content, Pack, KeptOutside, FileSystem.MapOnDisk, Filled, AllAre;
      hide FirstRun;
      ghost var used := freeMap.Contents();
      if freeMapFile != null {
        MapInFiles();
        KeptRefl(disk.sectors, files[FREE_MAP_SECTOR]);
      }
      r := freeMap.ScanAndFlip(0, cnt, false);
      FirstRunIs(used, cnt, 0, r);
      if r.Some? {
        Allocated(files, reserved, used, r.value, cnt);
        if freeMapFile != null {
          var ok := BitmapWrite(bounceOk);
          if !ok {
            freeMap.SetMultiple(r.value, cnt, false);
            FilledBack(used, r.value, cnt);
            r := None;
          }
        }
      }
    }

    /** free_map_release of sectors that are in use and that nobody owns any more.  The
        source writes to the free map file without looking whether it is open. */
    method FreeMapRelease(sector: nat, cnt: nat, bounceOk: bool)
      requires Valid() && freeMapFile != null
      requires sector + cnt <= freeMap.bitCnt && AllAre(freeMap.Contents(), sector, cnt, true)
      requires OwnOk(files, reserved, Filled(freeMap.Contents(), sector, cnt, false))
      modifies freeMap.bits, disk
      ensures Valid() && freeMap.Contents() == Filled(old(freeMap.Contents()), sector, cnt, false)
      ensures CanWriteMap(bounceOk) ==> MapOnDisk()
      ensures forall h :: h in files && h != FREE_MAP_SECTOR ==> Bytes(h) == old(Bytes(h))
    {
      hide OwnOk, HeadersOk, OneInodePerSector, OpenOk, Content, Pack, KeptOutside, FileSystem.MapOnDisk, Filled, AllAre;
      freeMap.SetMultiple(sector, cnt, false);
      var _ := BitmapWrite(bounceOk);
    }

    /** A header sector for an inode to be created. */
    method Reserve(bounceOk: bool) returns (r: Option<nat>)
      requires Valid()
      modifies this`reserved, freeMap.bits, disk
      ensures Valid()
      ensures r == if CanWriteMap(bounceOk) || freeMapFile == null then FirstRun(old(freeMap.Contents()), 1, 0) else None
      ensures r == None ==> reserved == old(reserved) && freeMap.Contents() == old(freeMap.Contents())
      ensures r.Some? ==> r.value !in old(reserved) && r.value !in files && reserved == old(reserved) + {r.value}
      ensures r.Some? ==>
        && r.value + 1 <= freeMap.bitCnt && AllAre(old(freeMap.Contents()), r.value, 1, false)
        && freeMap.Contents() == Filled(old(freeMap.Contents()), r.value, 1, true)
      ensures forall h :: h in files && (h != FREE_MAP_SECTOR || freeMapFile == null) ==> Bytes(h) == old(Bytes(h))
    {
      hide OpenOk, OneInodePerSector, HeadersOk, Content, FileSystem.MapOnDisk, FileSystem.CanWriteMap, KeptOutside, OwnOk;
      hide FirstRun;
      ghost var used := freeMap.Contents();
      r := FreeMapAllocate(1, bounceOk);
      if r.Some? {
        ReserveOk(files, reserved, used, r.value);
        NotOwned(files, reserved, used, r.value);
        reserved := reserved + {r.value};
      }
    }

    /** The header sector is given back without an inode having been made. */
    method Unreserve(r: nat, bounceOk: bool)
      requires Valid() && r in reserved && freeMapFile != null
      modifies this`reserved, freeMap.bits, disk
      ensures Valid() && reserved == old(reserved) - {r}
      ensures r < freeMap.bitCnt && freeMap.Contents() == Filled(old(freeMap.Contents()), r, 1, false)
      ensures forall h :: h in files && h != FREE_MAP_SECTOR ==> Bytes(h) == old(Bytes(h))
    {
      hide OpenOk, OneInodePerSector, HeadersOk, Content, FileSystem.MapOnDisk, FileSystem.CanWriteMap, KeptOutside, OwnOk;
      UnreserveOk(files, reserved, freeMap.Contents(), r);
      reserved := reserved - {r};
      FreeMapRelease(r, 1, bounceOk);
    }

    /** filesys_create's way out when the directory entry cannot be added: the header
        of the new inode is released, but its data stays marked used for ever. */
    method Abandon(h: nat, bounceOk: bool)
      requires Valid() && h in files && freeMapFile != null
      requires forall i :: 0 <= i < |openInodes| ==> openInodes[i].sector != h
      modifies this`files, freeMap.bits, disk
      ensures Valid() && files == old(files) - {h} && h < freeMap.bitCnt
      ensures freeMap.Contents() == Filled(old(freeMap.Contents()), h, 1, false)
      ensures forall g :: g in files && g != FREE_MAP_SECTOR ==> Bytes(g) == old(Bytes(g))
    {
      hide OneInodePerSector, Decode, OwnOk, HeadersOk, Content, FileSystem.MapOnDisk, FileSystem.CanWriteMap, KeptOutside;
      AbandonOk(files, reserved, freeMap.Contents(), h);
      InFiles(files, reserved, freeMap.Contents(), h);
      ForgetOpen(files, h);
      ForgetHeader(files, disk.sectors, h);
      ForgetOwn(files, reserved, freeMap.Contents(), h);
      files := files - {h};
      FreeMapRelease(h, 1, bounceOk);
    }

    /** inode_create: a file of zeros, unless memory or disk space runs out.  Every other
        file keeps its bytes, except that the free map's file holds the new free map. */
    method Create(sector: nat, length: nat, mallocOk: bool, bounceOk: bool) returns (success: bool)
      requires Valid() && sector in reserved && length < 0x8000_0000
      modifies this`files, this`reserved, freeMap.bits, disk
      ensures Valid()
      ensures !success ==> files == old(files) && reserved == old(reserved)
      ensures !success ==> freeMap.Contents() == old(freeMap.Contents())
      ensures success <==>
        && mallocOk && length <= 0x8000_0000 - SECTOR_SIZE && (CanWriteMap(bounceOk) || freeMapFile == null)
        && FirstRun(old(freeMap.Contents()), BytesToSectors(length), 0).Some?
      ensures success ==>
        && sector in files && files == old(files)[sector := files[sector]] && sector !in old(files)
        && reserved == old(reserved) - {sector} && files[sector].length == length
        && Bytes(sector) == Zeros(length)
      ensures success ==>
        var start, cnt := files[sector].start, BytesToSectors(length);
        && FirstRun(old(freeMap.Contents()), cnt, 0) == Some(start)
        && freeMap.Contents() == Filled(old(freeMap.Contents()), start, cnt, true)
      ensures success && freeMapFile != null ==> MapOnDisk()
      ensures forall h :: h in old(files) && (h != FREE_MAP_SECTOR || freeMapFile == null) ==>
        Bytes(h) == old(Bytes(h))
    {
      hide OneInodePerSector, OwnOk, Decode, HeadersOk, Content, OpenOk, KeptOutside, BytesToSectors, SectorsFor;
      hide FileSystem.MapOnDisk, FileSystem.CanWriteMap, FirstRun;
      if !mallocOk {
        return false;
      }
      var sectors := SectorsFor(length);
      SectorsForIs(length);
      ghost var used := freeMap.Contents();
      var start := FreeMapAllocate(sectors, bounceOk);
      if start == None {
        return false;
      }
      ghost var e := Extent(start.value, length);
      CreateOk(files, reserved, used, sector, e);
      ReservedFree(files, reserved, used, sector);
      CreatedOpen(files, sector, e);
      PlaceInode(sector, start.value, length);
      success := true;
    }

    lemma NotOpen(h: nat)
      requires Valid() && h !in files
      ensures forall i :: 0 <= i < |openInodes| ==> openInodes[i].sector != h
    {
    }

    /** The header of a new inode and zeros for its data are written to disk. */
    method PlaceInode(sector: nat, start: nat, length: nat)
      requires Valid() && sector in reserved && sector !in files && length <= 0x8000_0000 - SECTOR_SIZE
      requires OwnOk(files[sector := Extent(start, length)], reserved - {sector}, freeMap.Contents())
      requires forall i :: 0 <= i < |openInodes| ==> OpenOk(openInodes[i], files[sector := Extent(start, length)])
      modifies this`files, this`reserved, disk
      ensures Valid() && files == old(files)[sector := Extent(start, length)] && reserved == old(reserved) - {sector}
      ensures Bytes(sector) == Zeros(length)
      ensures forall h :: h in old(files) ==> Bytes(h) == old(Bytes(h))
      ensures old(freeMapFile != null && MapOnDisk()) ==> MapOnDisk()
    {
      hide OneInodePerSector, OwnOk, Decode, HeadersOk, Content, OpenOk, Pack, Encode;
      ghost var e := Extent(start, length);
      ghost var d, fs := disk.sectors, files;
      InFiles(files[sector := e], reserved - {sector}, freeMap.Contents(), sector);
      SectorsForIs(length);
      BitmapWords(freeMap);
      disk.BlockWrite(sector, Encode(Extent(start, length)));
      ZeroFill(start, SectorsFor(length));
      CreatedHeaders(files, reserved - {sector}, freeMap.Contents(), d, disk.sectors, sector, e);
      ZeroContent(disk.sectors, start, length);
      files := files[sector := e];
      reserved := reserved - {sector};
      forall h | h in fs
        ensures Bytes(h) == old(Bytes(h))
      {
        CreateKeepsFile(fs, reserved, freeMap.Contents(), d, disk.sectors, sector, e, h);
      }
    }

    /** Writes zeros to cnt sectors. */
    method ZeroFill(start: nat, cnt: nat)
      requires start + cnt <= |disk.sectors|
      modifies disk
      ensures |disk.sectors| == |old(disk.sectors)|
      ensures forall k :: 0 <= k < |disk.sectors| ==>
        disk.sectors[k] == if start <= k < start + cnt then seq(512, _ => 0) else old(disk.sectors)[k]
    {
      var zeros: Sector := seq(512, _ => 0);
      var i := 0;
      while i < cnt
        invariant i <= cnt && |disk.sectors| == |old(disk.sectors)|
        invariant forall k :: 0 <= k < |disk.sectors| ==>
          disk.sectors[k] == if start <= k < start + i then zeros else old(disk.sectors)[k]
      {
        disk.BlockWrite(start + i, zeros);
        i := i + 1;
      }
    }

    lemma ForgetOpen(fs: Files, h: nat)
      requires forall i :: 0 <= i < |openInodes| ==> OpenOk(openInodes[i], fs) && openInodes[i].sector != h
      ensures forall i :: 0 <= i < |openInodes| ==> OpenOk(openInodes[i], fs - {h})
    {
    }

    lemma CreatedOpen(fs: Files, h: nat, e: Extent)
      requires h !in fs && forall i :: 0 <= i < |openInodes| ==> OpenOk(openInodes[i], fs)
      ensures forall i :: 0 <= i < |openInodes| ==> OpenOk(openInodes[i], fs[h := e])
    {
    }

    /** inode_open: the inode that is already open for this sector, with one more
        opener, or a new one read from disk; null if memory runs out. */
    method Open(sector: nat, mallocOk: bool) returns (inode: Inode?)
      requires Valid() && sector in files
      modifies this`openInodes, openInodes
      ensures Valid()
      ensures inode != null ==> inode in openInodes && inode.sector == sector
      ensures (exists i :: i in old(openInodes) && i.sector == sector) ==>
        && inode != null && inode in old(openInodes) && openInodes == old(openInodes)
        && inode.openCnt == old(inode.openCnt) + 1
      ensures !(exists i :: i in old(openInodes) && i.sector == sector) ==>
        && (inode == null <==> !mallocOk)
        && (inode == null ==> openInodes == old(openInodes))
        && (inode != null ==>
              && fresh(inode) && openInodes == [inode] + old(openInodes)
              && inode.openCnt == 1 && inode.denyWriteCnt == 0 && !inode.removed)
      ensures forall i :: i in old(openInodes) && i != inode ==> unchanged(i)
      ensures forall i :: i in old(openInodes) ==> i.removed == old(i.removed) && i.denyWriteCnt == old(i.denyWriteCnt)
      ensures forall i :: i in old(openInodes) ==> i.start == old(i.start) && i.length == old(i.length)
    {
      hide OwnOk, Content, HeadersOk, Decode, IsFreeMap;
      HeaderAt(files, disk.sectors, sector);
      var k := 0;
      while k < |openInodes|
        invariant k <= |openInodes| && forall j :: 0 <= j < k ==> openInodes[j].sector != sector
      {
        if openInodes[k].sector == sector {
          inode := openInodes[k];
          inode.openCnt := inode.openCnt + 1;
          return;
        }
        k := k + 1;
      }
      if !mallocOk {
        return null;
      }
      var e := Decode(disk.sectors[sector]);
      inode := new Inode(sector, e.start, e.length);
      openInodes := [inode] + openInodes;
    }

    /** inode_reopen */
    method Reopen(inode: Inode)
      requires Valid() && inode in openInodes
      modifies inode
      ensures Valid() && inode.openCnt == old(inode.openCnt) + 1
      ensures inode.removed == old(inode.removed) && inode.denyWriteCnt == old(inode.denyWriteCnt)
    {
      hide OwnOk, HeadersOk;
      inode.openCnt := inode.openCnt + 1;
    }

    /** inode_remove: the inode goes when its last opener closes it. */
    method Remove(inode: Inode)
      requires Valid() && inode in openInodes
      modifies inode`removed
      ensures Valid() && inode.removed && AllBytes() == old(AllBytes())
    {
      hide OwnOk, HeadersOk, FileSystem.AllBytes;
      inode.removed := true;
      SameBytes();
    }

    /** inode_deny_write, at most once for each opener. */
    method DenyWrite(inode: Inode)
      requires Valid() && inode in openInodes && inode.denyWriteCnt < inode.openCnt
      modifies inode`denyWriteCnt
      ensures Valid() && inode.denyWriteCnt == old(inode.denyWriteCnt) + 1
    {
      hide OwnOk, HeadersOk;
      inode.denyWriteCnt := inode.denyWriteCnt + 1;
    }

    method AllowWrite(inode: Inode)
      requires Valid() && inode in openInodes && inode.denyWriteCnt > 0
      modifies inode`denyWriteCnt
      ensures Valid() && inode.denyWriteCnt == old(inode.denyWriteCnt) - 1
    {
      hide OwnOk, HeadersOk;
      inode.denyWriteCnt := inode.denyWriteCnt - 1;
    }

    /** inode_close, by an opener that does not deny writing any more.  Until the last
        opener closes it, a removed inode keeps its sectors; then exactly they are
        released.  The free map keeps its own opening of its file. */
    method Close(inode: Inode, bounceOk: nat -> bool)
      requires Valid() && inode in openInodes && inode.denyWriteCnt < inode.openCnt
      requires inode == freeMapFile ==> inode.openCnt > 1
      requires inode.removed && inode.openCnt == 1 ==> freeMapFile != null
      modifies this`openInodes, this`files, inode`openCnt, freeMap.bits, disk
      ensures Valid() && inode.openCnt == old(inode.openCnt) - 1
      ensures inode.openCnt > 0 ==> openInodes == old(openInodes) && files == old(files)
      ensures inode.openCnt == 0 ==> openInodes == Removed(old(openInodes), inode) && inode !in openInodes
      ensures forall i :: i != inode ==> (i in openInodes <==> i in old(openInodes))
      ensures inode.openCnt == 0 && inode.removed ==>
        && inode.sector in old(files) && files == old(files) - {inode.sector}
        && inode.sector < freeMap.bitCnt && inode.start + BytesToSectors(inode.length) <= freeMap.bitCnt
        && freeMap.Contents() == Filled(Filled(old(freeMap.Contents()), inode.sector, 1, false),
                                        inode.start, BytesToSectors(inode.length), false)
        && (CanWriteMap(bounceOk(1)) ==> MapOnDisk())
      ensures OnlyMapChanged(old(AllBytes()), AllBytes())
      ensures !(inode.openCnt == 0 && inode.removed) ==>
        files == old(files) && freeMap.Contents() == old(freeMap.Contents()) && disk.sectors == old(disk.sectors)
    {
      hide OwnOk, HeadersOk, Removed, NoDup, BytesToSectors, Filled, Content, FileSystem.MapOnDisk, Pack, FileSystem.AllBytes;
      inode.openCnt := inode.openCnt - 1;
      if inode.openCnt == 0 {
        CloseList(openInodes, inode);
        openInodes := Removed(openInodes, inode);
        SameBytes();
        if inode.removed {
          ReleaseInode(inode, bounceOk);
        }
      } else {
        SameBytes();
      }
    }

    /** The sectors of an inode that is not open any more are released. */
    method ReleaseInode(inode: Inode, bounceOk: nat -> bool)
      requires Valid() && freeMapFile != null && inode !in openInodes
      requires inode.sector in files && files[inode.sector] == Extent(inode.start, inode.length)
      requires forall i :: 0 <= i < |openInodes| ==> openInodes[i].sector != inode.sector
      modifies this`files, freeMap.bits, disk
      ensures Valid() && files == old(files) - {inode.sector}
      ensures inode.sector < freeMap.bitCnt && inode.start + BytesToSectors(inode.length) <= freeMap.bitCnt
      ensures freeMap.Contents() == Filled(Filled(old(freeMap.Contents()), inode.sector, 1, false),
                                           inode.start, BytesToSectors(inode.length), false)
      ensures CanWriteMap(bounceOk(1)) ==> MapOnDisk()
      ensures OnlyMapChanged(old(AllBytes()), AllBytes())
    {
      hide OwnOk, HeadersOk, OneInodePerSector, BytesToSectors, Filled, Content, FileSystem.MapOnDisk, Pack, AllAre,
           FileSystem.CanWriteMap;
      FreeOk(files, reserved, freeMap.Contents(), inode.sector);
      AbandonOk(files, reserved, freeMap.Contents(), inode.sector);
      InFiles(files, reserved, freeMap.Contents(), inode.sector);
      ForgetOpen(files, inode.sector);
      ForgetHeader(files, disk.sectors, inode.sector);
      ForgetOwn(files, reserved, freeMap.Contents(), inode.sector);
      files := files - {inode.sector};
      FreeMapRelease(inode.sector, 1, bounceOk(0));
      FreeMapRelease(inode.start, BytesToSectors(inode.length), bounceOk(1));
    }

    // ----- Starting with and without a file system on the disk

    /** free_map_create, on a disk that was just formatted; false for a panic. */
    method FreeMapCreate(mallocOk: bool, inodeOk: bool, bounceOk: bool) returns (ok: bool)
      requires Valid() && freeMapFile == null && FREE_MAP_SECTOR in reserved && openInodes == []
      modifies this, freeMap.bits, disk
      ensures ok ==>
        && Valid() && freeMapFile != null && openInodes == [freeMapFile] && fresh(freeMapFile)
        && freeMapFile.openCnt == 1 && freeMapFile.denyWriteCnt == 0 && !freeMapFile.removed
        && FREE_MAP_SECTOR in files && files == old(files)[FREE_MAP_SECTOR := files[FREE_MAP_SECTOR]]
        && reserved == old(reserved) - {FREE_MAP_SECTOR} && MapOnDisk()
        && forall h :: h in old(files) ==> Bytes(h) == old(Bytes(h))
    {
      hide OwnOk, HeadersOk, OneInodePerSector, Content, FileSystem.MapOnDisk, Pack, KeptOutside;
      MapSize(freeMap.bitCnt);
      ok := Create(FREE_MAP_SECTOR, ByteCnt(freeMap.bitCnt), mallocOk, bounceOk);
      if ok {
        var inode := Open(FREE_MAP_SECTOR, inodeOk);
        if inode == null {
          return false;
        }
        freeMapFile := inode;
        ok := BitmapWrite(bounceOk);
      }
    }

    /** free_map_open, on a disk that already holds files; false for a panic.  `fs`, `rs` and
        `words` are what an earlier session left there. */
    method FreeMapOpen(ghost fs: Files, ghost rs: set<nat>, ghost words: seq<nat>, inodeOk: bool, bounceOk: bool)
      returns (ok: bool)
      requires freeMap.Valid() && 0 < |disk.sectors| == freeMap.bitCnt < MAX_SECTORS
      requires openInodes == [] && freeMapFile == null
      requires |words| == ElemCnt(freeMap.bitCnt) && WordsOk(words)
      requires OwnOk(fs, rs, BitsOf(words, freeMap.bitCnt)) && HeadersOk(fs, disk.sectors)
      requires FREE_MAP_SECTOR in fs && fs[FREE_MAP_SECTOR].length == ByteCnt(freeMap.bitCnt)
      requires OnDisk(disk.sectors, fs[FREE_MAP_SECTOR].start, fs[FREE_MAP_SECTOR].length)
      requires Content(disk.sectors, fs[FREE_MAP_SECTOR].start, fs[FREE_MAP_SECTOR].length) == Pack(words)
      modifies this, freeMap.bits
      ensures ok <==> inodeOk && (bounceOk || ByteCnt(freeMap.bitCnt) % SECTOR_SIZE == 0)
      ensures ok ==>
        && Valid() && freeMapFile != null && openInodes == [freeMapFile] && fresh(freeMapFile)
        && freeMapFile.openCnt == 1 && freeMapFile.denyWriteCnt == 0 && !freeMapFile.removed
        && files == fs && reserved == rs && freeMap.Contents() == BitsOf(words, freeMap.bitCnt)
    {
      hide OwnOk, Content, Pack, BitsOf, WordsOk, ElemCnt, Decode;
      if !inodeOk {
        return false;
      }
      var e := Decode(disk.sectors[FREE_MAP_SECTOR]);
      var inode := new Inode(FREE_MAP_SECTOR, e.start, e.length);
      ok := BitmapRead(inode, words, bounceOk);
      if ok {
        openInodes := [inode];
        freeMapFile := inode;
        files, reserved := fs, rs;
      }
    }

    /** What free_map_open needs is on disk whenever the free map was written back: the next
        session starts with the same files and the same free map. */
    lemma Remountable()
      requires Valid() && freeMapFile != null && MapOnDisk()
      ensures var words := freeMap.bits[..];
        && |words| == ElemCnt(freeMap.bitCnt) && WordsOk(words)
        && BitsOf(words, freeMap.bitCnt) == freeMap.Contents()
        && OwnOk(files, reserved, BitsOf(words, freeMap.bitCnt)) && HeadersOk(files, disk.sectors)
        && FREE_MAP_SECTOR in files && files[FREE_MAP_SECTOR].length == ByteCnt(freeMap.bitCnt)
        && OnDisk(disk.sectors, files[FREE_MAP_SECTOR].start, files[FREE_MAP_SECTOR].length)
        && Content(disk.sectors, files[FREE_MAP_SECTOR].start, files[FREE_MAP_SECTOR].length) == Pack(words)
    {
      hide OwnOk, HeadersOk, OneInodePerSector, Content, Pack, BitsOf, WordsOk;
      MapInFiles();
      BitmapWords(freeMap);
      ExtentOnDisk(FREE_MAP_SECTOR);
    }

    /** bitmap_read of the free map from its file, which holds the words. */
    method BitmapRead(inode: Inode, ghost words: seq<nat>, bounceOk: bool) returns (ok: bool)
      requires freeMap.Valid() && 0 < freeMap.bitCnt && |words| == ElemCnt(freeMap.bitCnt) && WordsOk(words)
      requires inode.length == ByteCnt(freeMap.bitCnt) && OnDisk(disk.sectors, inode.start, inode.length)
      requires Content(disk.sectors, inode.start, inode.length) == Pack(words)
      modifies freeMap.bits
      ensures ok <==> bounceOk || ByteCnt(freeMap.bitCnt) % SECTOR_SIZE == 0
      ensures freeMap.Valid() && (ok ==> freeMap.Contents() == BitsOf(words, freeMap.bitCnt))
    {
      hide Content, Pack, Unpack, Transferred, ReadInto, BitsOf, WordsOk, ElemCnt;
      var size := ByteCnt(freeMap.bitCnt);
      var buffer := new Byte[size](_ => 0);
      ghost var zeros := buffer[..];
      var n := ReadAt(disk, inode, buffer, size, 0, bounceOk);
      WholeTransfer(size, bounceOk);
      if n != size {
        return false;
      }
      WholeRead(Pack(words), zeros, buffer[..]);
      PackRoundTrip(words);
      Load(freeMap, Unpack(buffer[..]));
      ok := true;
    }
  }

  lemma InFiles(files: Files, reserved: set<nat>, used: seq<bool>, h: nat)
    requires OwnOk(files, reserved, used) && h in files
    ensures h < |used| && files[h].start + BytesToSectors(files[h].length) <= |used|
  {
    assert ExtentUsed(files[h], used);
  }

  lemma ForgetHeader(files: Files, sectors: seq<Sector>, h: nat)
    requires HeadersOk(files, sectors)
    ensures HeadersOk(files - {h}, sectors)
  {
  }

  lemma {:induction false} CloseList(open: seq<Inode>, inode: Inode)
    requires OneInodePerSector(open) && inode in open
    ensures OneInodePerSector(Removed(open, inode))
    ensures forall i :: i in Removed(open, inode) ==> i in open && i.sector != inode.sector
    ensures forall i :: i in open && i != inode ==> i in Removed(open, inode)
  {
    var rest := open[1..];
    if open[0] == inode {
      forall i | i in rest
        ensures i.sector != inode.sector
      {
        var k :| 0 <= k < |rest| && rest[k] == i;
        assert open[k + 1] == i;
      }
    } else {
      CloseList(rest, inode);
      var r := Removed(rest, inode);
      assert Removed(open, inode) == [open[0]] + r;
      forall k | 0 <= k < |r|
        ensures open[0].sector != r[k].sector
      {
        assert r[k] in rest;
        var m :| 0 <= m < |rest| && rest[m] == r[k];
        assert open[m + 1] == r[k];
      }
    }
  }

  lemma WrittenSize(d: seq<Sector>, d': seq<Sector>, start: nat, offset: nat, data: seq<Byte>)
    requires Written(d, d', start, offset, data)
    ensures |d'| == |d|
  {
  }

  lemma WriteKeepsHeaders(files: Files, reserved: set<nat>, used: seq<bool>, d: seq<Sector>, d': seq<Sector>,
                          h: nat, offset: nat, data: seq<Byte>)
    requires OwnOk(files, reserved, used) && HeadersOk(files, d) && |d'| == |d| && h in files
    requires Written(d, d', files[h].start, offset, data) && (data == [] || offset + |data| <= files[h].length)
    ensures HeadersOk(files, d')
  {
    hide Written, Decode;
    forall g | g in files
      ensures Decode(d'[g]) == files[g]
    {
      assert !InExtent(files[h], g);
      WrittenElsewhere(d, d', files[h].start, files[h].length, offset, data, g);
    }
  }

  lemma WriteKeepsFile(files: Files, reserved: set<nat>, used: seq<bool>, d: seq<Sector>, d': seq<Sector>,
                       h: nat, g: nat, offset: nat, data: seq<Byte>)
    requires OwnOk(files, reserved, used) && |d'| == |d| == |used| && h in files && g in files && g != h
    requires Written(d, d', files[h].start, offset, data) && (data == [] || offset + |data| <= files[h].length)
    ensures OnDisk(d, files[g].start, files[g].length) && OnDisk(d', files[g].start, files[g].length)
    ensures Content(d', files[g].start, files[g].length) == Content(d, files[g].start, files[g].length)
  {
    hide Written;
    var e := files[g];
    InFiles(files, reserved, used, g);
    forall i | 0 <= i < e.length
      ensures Content(d', e.start, e.length)[i] == Content(d, e.start, e.length)[i]
    {
      ByteOnDisk(d, e.start, e.length, i);
      var k := e.start + i / SECTOR_SIZE;
      assert ExtentsApart(files[g], files[h]) && InExtent(e, k);
      WrittenElsewhere(d, d', files[h].start, files[h].length, offset, data, k);
    }
  }

  /** No sector outside the extent changes. */
  ghost predicate KeptOutside(d: seq<Sector>, d': seq<Sector>, e: Extent) {
    |d'| == |d| && forall k: nat :: k < |d| && !InExtent(e, k) ==> d'[k] == d[k]
  }

  lemma KeptRefl(d: seq<Sector>, e: Extent)
    ensures KeptOutside(d, d, e)
  {
  }

  lemma WriteKeepsOutside(d: seq<Sector>, d': seq<Sector>, e: Extent, offset: nat, data: seq<Byte>)
    requires Written(d, d', e.start, offset, data) && (data == [] || offset + |data| <= e.length)
    ensures KeptOutside(d, d', e)
  {
    WrittenSize(d, d', e.start, offset, data);
    hide Written;
    forall k: nat | k < |d| && !InExtent(e, k)
      ensures d'[k] == d[k]
    {
      WrittenElsewhere(d, d', e.start, e.length, offset, data, k);
    }
  }

  lemma MapSize(bitCnt: nat)
    requires bitCnt < MAX_SECTORS
    ensures ByteCnt(bitCnt) <= 0x8000_0000 - SECTOR_SIZE
    ensures bitCnt > 0 ==> ByteCnt(bitCnt) > 0
  {
  }

  /** A transfer of a whole file is complete if there is a bounce buffer or none is needed. */
  lemma WholeTransfer(size: nat, bounceOk: bool)
    ensures Transferred(size, size, 0, bounceOk) == size <==> bounceOk || size % SECTOR_SIZE == 0
  {
  }

  lemma WholeUpdate(s: seq<Byte>, data: seq<Byte>)
    requires |s| == |data|
    ensures Update(s, 0, data) == data
  {
  }

  lemma WholeRead(content: seq<Byte>, a: seq<Byte>, b: seq<Byte>)
    requires |a| == |content| && ReadInto(content, a, b, 0, |content|)
    ensures b == content
  {
  }

  lemma FilledBack(used: seq<bool>, start: nat, cnt: nat)
    requires start + cnt <= |used| && AllAre(used, start, cnt, false)
    ensures |Filled(used, start, cnt, true)| == |used|
    ensures Filled(Filled(used, start, cnt, true), start, cnt, false) == used
  {
  }

  lemma NotOwned(files: Files, reserved: set<nat>, used: seq<bool>, r: nat)
    requires OwnOk(files, reserved, used) && r < |used| && AllAre(used, r, 1, false)
    ensures !used[r] && r !in files && r !in reserved
  {
  }

  lemma ReservedFree(files: Files, reserved: set<nat>, used: seq<bool>, h: nat)
    requires OwnOk(files, reserved, used) && h in reserved
    ensures h < |used| && h !in files
  {
  }

  lemma CreatedHeaders(files: Files, reserved: set<nat>, used: seq<bool>, d: seq<Sector>, d': seq<Sector>, h: nat, e: Extent)
    requires OwnOk(files[h := e], reserved, used) && h !in files && HeadersOk(files, d) && Encodable(e)
    requires |d'| == |d| == |used|
    requires forall k :: 0 <= k < |d| ==>
      d'[k] == if InExtent(e, k) then seq(512, _ => 0) else if k == h then Encode(e) else d[k]
    ensures HeadersOk(files[h := e], d')
  {
    HeaderRoundTrip(e);
    var files' := files[h := e];
    forall g | g in files'
      ensures g < |d'| && Decode(d'[g]) == files'[g]
    {
      assert !InExtent(files'[h], g);
    }
  }

  /** Neither the new header nor the new extent is part of an old file. */
  lemma CreateKeepsFile(files: Files, reserved: set<nat>, used: seq<bool>, d: seq<Sector>, d': seq<Sector>, h: nat,
                        e: Extent, g: nat)
    requires OwnOk(files[h := e], reserved, used) && h !in files && g in files && |d'| == |d| == |used|
    requires Encodable(e)
    requires forall k :: 0 <= k < |d| ==>
      d'[k] == if InExtent(e, k) then seq(512, _ => 0) else if k == h then Encode(e) else d[k]
    ensures OnDisk(d, files[g].start, files[g].length) && OnDisk(d', files[g].start, files[g].length)
    ensures Content(d', files[g].start, files[g].length) == Content(d, files[g].start, files[g].length)
  {
    hide Encode;
    var files' := files[h := e];
    var f := files[g];
    InFiles(files', reserved, used, g);
    assert files'[g] == f && files'[h] == e && g in files' && h in files';
    forall i | 0 <= i < f.length
      ensures Content(d', f.start, f.length)[i] == Content(d, f.start, f.length)[i]
    {
      ByteOnDisk(d, f.start, f.length, i);
      var k := f.start + i / SECTOR_SIZE;
      assert ExtentsApart(files'[g], files'[h]) && InExtent(f, k) && !InExtent(files'[g], h);
    }
  }

  lemma ZeroContent(d: seq<Sector>, start: nat, length: nat)
    requires OnDisk(d, start, length)
    requires forall k :: start <= k < start + BytesToSectors(length) ==> d[k] == seq(512, _ => 0)
    ensures Content(d, start, length) == Zeros(length)
  {
    forall i | 0 <= i < length
      ensures Content(d, start, length)[i] == 0
    {
      ByteOnDisk(d, start, length, i);
    }
  }
}
