/** Creating and removing files by name. */
module Filesys {
  import opened Bitmaps
  import opened Directories
  import opened FileIo
  import opened Inodes
  import opened Options
  import opened Ownership
  import opened Seqs

  /** Whether memory is available: for an inode, for a struct dir, for a new header, and for
      the bounce buffers of writing the free map, of the two searches through a directory and of
      storing an entry. */
  datatype Memory = Memory(inode: bool, dir: bool, header: bool, freeMap: nat -> bool,
                           find: nat -> bool, scan: nat -> bool, write: bool)

  // ----- directory.c

  /** An entry is never a whole sector, so every transfer of one needs a bounce buffer. */
  lemma EntryTransfer(length: nat, k: nat, ok: bool)
    ensures Transferred(length, ENTRY_SIZE, ENTRY_SIZE * k, ok) == ENTRY_SIZE <==> ENTRY_SIZE * (k + 1) <= length && ok
    ensures ENTRY_SIZE * (k + 1) <= length && !ok ==> Transferred(length, ENTRY_SIZE, ENTRY_SIZE * k, ok) == 0
  {
  }

  /** One turn of the searches. */
  method ReadSlot(fs: FileSystem, dir: Inode, e: array<Byte>, k: nat, ok: bool) returns (full: bool)
    requires fs.Valid() && dir in fs.openInodes && e.Length == ENTRY_SIZE
    modifies e
    ensures fs.Valid() && dir.sector in fs.files && fs.Bytes(dir.sector) == old(fs.Bytes(dir.sector))
    ensures full <==> IsSlot(fs.Bytes(dir.sector), k) && ok
    ensures full ==> e[..] == Slot(fs.Bytes(dir.sector), k)
  {
    hide OwnOk, HeadersOk, OneInodePerSector, Content, Transferred, IsFreeMap;
    var n := fs.Read(dir, e, ENTRY_SIZE, ENTRY_SIZE * k, ok);
    EntryTransfer(dir.length, k, ok);
    full := n == ENTRY_SIZE;
  }

  /** lookup: the entry that was found is left in e. */
  method Lookup(fs: FileSystem, dir: Inode, name: Name, e: array<Byte>, ok: nat -> bool) returns (found: Option<nat>)
    requires fs.Valid() && dir in fs.openInodes && dir.sector in fs.files && e.Length == ENTRY_SIZE
    requires |name| <= NAME_MAX || Terminated(fs.Bytes(dir.sector))
    modifies e
    ensures fs.Valid() && dir.sector in fs.files && fs.Bytes(dir.sector) == old(fs.Bytes(dir.sector))
    ensures found == Find(fs.Bytes(dir.sector), name, ok, 0)
    ensures found.Some? ==> e[..] == Slot(fs.Bytes(dir.sector), found.value)
  {
    hide FileSystem.Valid, FileSystem.Bytes, NameOf, Slot;
    var full := ReadSlot(fs, dir, e, 0, ok(0));
    ghost var d := fs.Bytes(dir.sector);
    var k := 0;
    while full
      invariant fs.Valid() && dir.sector in fs.files && fs.Bytes(dir.sector) == d
      invariant full <==> IsSlot(d, k) && ok(k)
      invariant full ==> e[..] == Slot(d, k)
      invariant Find(d, name, ok, 0) == Find(d, name, ok, k)
      decreases |d| - ENTRY_SIZE * k
    {
      if InUse(e[..]) && NameOf(e[..]) == name {
        return Some(k);
      }
      k := k + 1;
      full := ReadSlot(fs, dir, e, k, ok(k));
    }
    found := None;
  }

  /** dir_add.  What e holds at first is what was on the stack. */
  method DirAdd(fs: FileSystem, dir: Inode, name: Name, sector: nat, e: array<Byte>, mem: Memory)
    returns (success: bool)
    requires fs.Valid() && dir in fs.openInodes && dir.sector in fs.files && e.Length == ENTRY_SIZE
    requires IsString(name) && sector < 0x1_0000_0000
    modifies fs.disk, e
    ensures fs.Valid()
    ensures success <==>
      CanAdd(old(fs.Bytes(dir.sector)), name, dir.denyWriteCnt > 0, mem.find, mem.scan, mem.write)
    ensures var d, d' := old(fs.Bytes(dir.sector)), fs.Bytes(dir.sector);
      if success then Stored(d, d', FreeSlot(d, mem.scan, 0), name, sector) else SameSlots(d, d')
    ensures forall h :: h in fs.files && h != dir.sector ==> fs.Bytes(h) == old(fs.Bytes(h))
  {
    hide FileSystem.Valid, FileSystem.Bytes, NameOf, Slot, SectorOf;
    ghost var d := fs.Bytes(dir.sector);
    if name == [] || |name| > NAME_MAX {
      return false;
    }
    var found := Lookup(fs, dir, name, e, mem.find);
    if found.Some? {
      return false;
    }
    var k := FindSlot(fs, dir, e, mem.scan);
    success := WriteSlot(fs, dir, k, MakeEntry(e[..], name, sector), mem.write);
    EntryRoundTrip(e[..], name, sector);
  }

  /** The loop that looks for a slot. */
  method FindSlot(fs: FileSystem, dir: Inode, e: array<Byte>, ok: nat -> bool) returns (k: nat)
    requires fs.Valid() && dir in fs.openInodes && dir.sector in fs.files && e.Length == ENTRY_SIZE
    modifies e
    ensures fs.Valid() && fs.Bytes(dir.sector) == old(fs.Bytes(dir.sector))
    ensures k == FreeSlot(fs.Bytes(dir.sector), ok, 0)
  {
    hide FileSystem.Valid, FileSystem.Bytes, Slot;
    k := 0;
    var full := ReadSlot(fs, dir, e, k, ok(k));
    ghost var d := fs.Bytes(dir.sector);
    while full
      invariant fs.Valid() && dir.sector in fs.files && fs.Bytes(dir.sector) == d
      invariant full <==> IsSlot(d, k) && ok(k)
      invariant full ==> e[..] == Slot(d, k)
      invariant FreeSlot(d, ok, 0) == FreeSlot(d, ok, k)
      decreases |d| - ENTRY_SIZE * k
    {
      if !InUse(e[..]) {
        break;
      }
      k := k + 1;
      full := ReadSlot(fs, dir, e, k, ok(k));
    }
  }

  /** Storing an entry: all of it or, in a slot, none of it. */
  method WriteSlot(fs: FileSystem, dir: Inode, k: nat, e: Entry, ok: bool) returns (done: bool)
    requires fs.Valid() && dir in fs.openInodes && dir.sector in fs.files
    modifies fs.disk
    ensures fs.Valid()
    ensures done <==> IsSlot(old(fs.Bytes(dir.sector)), k) && dir.denyWriteCnt == 0 && ok
    ensures var d, d' := old(fs.Bytes(dir.sector)), fs.Bytes(dir.sector);
      if done then Replaced(d, d', k, e) else SameSlots(d, d')
    ensures forall h :: h in fs.files && h != dir.sector ==> fs.Bytes(h) == old(fs.Bytes(h))
  {
    hide OwnOk, HeadersOk, OneInodePerSector, Content, Transferred, IsFreeMap, Update, KeptOutside, Slot;
    ghost var d := fs.Bytes(dir.sector);
    var n := fs.Write(dir, e, ENTRY_SIZE, ENTRY_SIZE * k, ok);
    EntryTransfer(dir.length, k, ok);
    done := n == ENTRY_SIZE;
    if done {
      UpdateSlot(d, k, e);
      assert e[..n] == e;
    } else if n == 0 {
      UpdateNone(d, ENTRY_SIZE * k);
      assert e[..n] == [];
    } else {
      UpdateTail(d, k, e[..n]);
    }
  }

  lemma UpdateNone(d: seq<Byte>, offset: nat)
    ensures Update(d, offset, []) == d
  {
  }

  // ----- filesys.c

  /** The sector for the header of a new file, and the sectors for its data. */
  ghost function HeaderSector(used: seq<bool>): Option<nat> { FirstRun(used, 1, 0) }

  ghost function DataStart(used: seq<bool>, length: nat): Option<nat> {
    if HeaderSector(used) == None then None
    else FirstRun(Filled(used, HeaderSector(used).value, 1, true), BytesToSectors(length), 0)
  }

  /** An inode of this length can be made: there is memory, the free map can be written twice,
      and the disk has room. */
  ghost predicate CanMake(used: seq<bool>, mapDenied: bool, length: nat, mem: Memory) {
    && mem.header && length <= 0x8000_0000 - SECTOR_SIZE && !mapDenied
    && ((mem.freeMap(0) && mem.freeMap(1)) || ByteCnt(|used|) % SECTOR_SIZE == 0)
    && DataStart(used, length).Some?
  }

  ghost predicate MapDenied(fs: FileSystem)
    reads fs`freeMapFile, fs.freeMapFile
  {
    fs.freeMapFile != null && fs.freeMapFile.denyWriteCnt > 0
  }

  /** The free map once the header, and then the data, are marked used. */
  ghost function WithData(used: seq<bool>, length: nat): seq<bool>
    requires DataStart(used, length).Some?
  {
    Filled(used, DataStart(used, length).value, BytesToSectors(length), true)
  }

  ghost function WithFile(used: seq<bool>, length: nat): seq<bool>
    requires DataStart(used, length).Some?
  {
    Filled(Filled(used, HeaderSector(used).value, 1, true), DataStart(used, length).value, BytesToSectors(length), true)
  }

  lemma HeaderGivenBack(used: seq<bool>, length: nat)
    requires DataStart(used, length).Some?
    ensures Filled(WithFile(used, length), HeaderSector(used).value, 1, false) == WithData(used, length)
    ensures WithData(used, length) == used <==> length == 0
    ensures WithFile(used, length) != used
  {
    hide FirstRun;
    var h, start := HeaderSector(used).value, DataStart(used, length).value;
    FillApart(used, h, start, BytesToSectors(length));
    FillShows(used, start, length);
    assert WithFile(used, length)[h] && !used[h];
  }

  /** filesys_create, between opening and closing the directory. */
  method CreateIn(fs: FileSystem, dir: Inode, name: Name, length: nat, e: array<Byte>, mem: Memory)
    returns (success: bool)
    requires fs.Valid() && fs.freeMapFile != null && dir in fs.openInodes && dir.sector in fs.files
    requires dir.sector != FREE_MAP_SECTOR && IsString(name) && length < 0x8000_0000 && e.Length == ENTRY_SIZE
    modifies fs`files, fs`reserved, fs.freeMap.bits, fs.disk, e
    ensures fs.Valid() && fs.reserved == old(fs.reserved) && dir.sector in fs.files
    ensures success <==>
      && CanMake(old(fs.freeMap.Contents()), old(MapDenied(fs)), length, mem)
      && CanAdd(old(fs.Bytes(dir.sector)), name, dir.denyWriteCnt > 0, mem.find, mem.scan, mem.write)
    ensures !CanMake(old(fs.freeMap.Contents()), old(MapDenied(fs)), length, mem) ==>
      fs.freeMap.Contents() == old(fs.freeMap.Contents())
    ensures CanMake(old(fs.freeMap.Contents()), old(MapDenied(fs)), length, mem) ==>
      var used := old(fs.freeMap.Contents());
      fs.freeMap.Contents() == if success then WithFile(used, length) else WithData(used, length)
    ensures !success ==>
      (fs.freeMap.Contents() != old(fs.freeMap.Contents()) <==>
         CanMake(old(fs.freeMap.Contents()), old(MapDenied(fs)), length, mem) && length > 0)
    ensures success ==>
      var used, d := old(fs.freeMap.Contents()), old(fs.Bytes(dir.sector));
      var h := HeaderSector(used).value;
      && h !in old(fs.files) && h in fs.files
      && fs.files == old(fs.files)[h := Extent(DataStart(used, length).value, length)]
      && fs.Bytes(h) == Zeros(length)
      && Stored(d, fs.Bytes(dir.sector), FreeSlot(d, mem.scan, 0), name, h)
    ensures !success ==> fs.files == old(fs.files) && SameSlots(old(fs.Bytes(dir.sector)), fs.Bytes(dir.sector))
    ensures forall h :: h in old(fs.files) && h != FREE_MAP_SECTOR && h != dir.sector ==>
      fs.Bytes(h) == old(fs.Bytes(h))
    ensures dir.sector == ROOT_DIR_SECTOR && DirectoryOk(old(fs.Bytes(dir.sector)), old(fs.files)) ==>
      DirectoryOk(fs.Bytes(dir.sector), fs.files)
  {
    hide DirectoryOk;
    hide FileSystem.Valid, FileSystem.Bytes, CanMake, WithFile, WithData, HeaderSector, DataStart;
    hide Stored, SameSlots, CanAdd, FreeSlot, Filled;
    MapValid(fs);
    fs.MapInFiles();
    ghost var used, d := fs.freeMap.Contents(), fs.Bytes(dir.sector);
    SameSlotsRefl(d);
    var sector := MakeFile(fs, length, mem);
    success := false;
    if sector.Some? {
      HeaderGivenBack(used, length);
      FilesWithout(old(fs.files), fs.files, sector.value);
      success := AddOrAbandon(fs, dir, name, sector.value, e, mem);
    }
    if dir.sector == ROOT_DIR_SECTOR && DirectoryOk(d, old(fs.files)) {
      StillOk(d, fs.Bytes(dir.sector), name, mem, dir.denyWriteCnt > 0, old(fs.files), fs.files, sector, success);
    }
  }

  lemma StillOk(d: seq<Byte>, d': seq<Byte>, name: Name, mem: Memory, denied: bool, files: Files, files': Files,
                sector: Option<nat>, success: bool)
    requires DirectoryOk(d, files) && FREE_MAP_SECTOR in files && ROOT_DIR_SECTOR in files
    requires success ==>
      && sector.Some? && sector.value !in files && sector.value in files' && files.Keys <= files'.Keys
      && CanAdd(d, name, denied, mem.find, mem.scan, mem.write)
      && Stored(d, d', FreeSlot(d, mem.scan, 0), name, sector.value)
    requires !success ==> files' == files && SameSlots(d, d')
    ensures DirectoryOk(d', files')
  {
    hide DirectoryOk, Stored, SameSlots, FreeSlot, Find;
    if success {
      StoredOk(d, d', FreeSlot(d, mem.scan, 0), name, files, files', sector.value);
    } else {
      SameOk(d, d', files);
    }
  }

  lemma FilesWithout(files: Files, files': Files, h: nat)
    requires h !in files && h in files' && files' == files[h := files'[h]]
    ensures files' - {h} == files
  {
  }

  /** dir_add, and what happens when it fails. */
  method AddOrAbandon(fs: FileSystem, dir: Inode, name: Name, sector: nat, e: array<Byte>, mem: Memory)
    returns (success: bool)
    requires fs.Valid() && fs.freeMapFile != null && dir in fs.openInodes && dir.sector in fs.files
    requires dir.sector != FREE_MAP_SECTOR && dir.sector != sector && IsString(name) && e.Length == ENTRY_SIZE
    requires sector in fs.files && sector < MAX_SECTORS
    requires forall i :: 0 <= i < |fs.openInodes| ==> fs.openInodes[i].sector != sector
    modifies fs`files, fs.freeMap.bits, fs.disk, e
    ensures fs.Valid() && dir.sector in fs.files
    ensures success <==>
      CanAdd(old(fs.Bytes(dir.sector)), name, dir.denyWriteCnt > 0, mem.find, mem.scan, mem.write)
    ensures success ==>
      var d := old(fs.Bytes(dir.sector));
      && fs.files == old(fs.files) && fs.freeMap.Contents() == old(fs.freeMap.Contents())
      && fs.Bytes(sector) == old(fs.Bytes(sector))
      && Stored(d, fs.Bytes(dir.sector), FreeSlot(d, mem.scan, 0), name, sector)
    ensures !success ==>
      && fs.files == old(fs.files) - {sector} && sector < fs.freeMap.bitCnt
      && fs.freeMap.Contents() == Filled(old(fs.freeMap.Contents()), sector, 1, false)
      && SameSlots(old(fs.Bytes(dir.sector)), fs.Bytes(dir.sector))
    ensures forall h :: h in fs.files && h != FREE_MAP_SECTOR && h != dir.sector ==> fs.Bytes(h) == old(fs.Bytes(h))
  {
    hide FileSystem.Valid, FileSystem.Bytes, Stored, SameSlots, CanAdd, FreeSlot, Filled;
    success := DirAdd(fs, dir, name, sector, e, mem);
    if !success {
      fs.Abandon(sector, mem.freeMap(2));
    }
  }

  lemma MapValid(fs: FileSystem)
    requires fs.Valid()
    ensures fs.freeMap.Valid()
  {
  }

  /** The inode of the file to be, or nothing. */
  method MakeFile(fs: FileSystem, length: nat, mem: Memory) returns (sector: Option<nat>)
    requires fs.Valid() && fs.freeMapFile != null && length < 0x8000_0000
    modifies fs`files, fs`reserved, fs.freeMap.bits, fs.disk
    ensures fs.Valid() && fs.reserved == old(fs.reserved)
    ensures sector.Some? <==> CanMake(old(fs.freeMap.Contents()), old(MapDenied(fs)), length, mem)
    ensures sector == None ==> fs.files == old(fs.files) && fs.freeMap.Contents() == old(fs.freeMap.Contents())
    ensures sector.Some? ==>
      var used := old(fs.freeMap.Contents());
      && sector == HeaderSector(used) && sector.value < MAX_SECTORS
      && DataStart(used, length).Some? && fs.freeMap.Contents() == WithFile(used, length)
      && sector.value !in old(fs.files) && sector.value in fs.files
      && fs.files == old(fs.files)[sector.value := Extent(DataStart(used, length).value, length)]
      && fs.Bytes(sector.value) == Zeros(length)
      && forall i :: 0 <= i < |fs.openInodes| ==> fs.openInodes[i].sector != sector.value
    ensures forall h :: h in old(fs.files) && h != FREE_MAP_SECTOR ==> fs.Bytes(h) == old(fs.Bytes(h))
  {
    hide OpenOk, OneInodePerSector, HeadersOk, OwnOk, FileSystem.Bytes, FileSystem.MapOnDisk;
    hide Filled, AllAre, BytesToSectors, FirstRun;
    ghost var used := fs.freeMap.Contents();
    sector := fs.Reserve(mem.freeMap(0));
    if sector.Some? {
      fs.NotOpen(sector.value);
      var created := fs.Create(sector.value, length, mem.header, mem.freeMap(1));
      if !created {
        fs.Unreserve(sector.value, mem.freeMap(2));
        FillUndone(used, sector.value);
        sector := None;
      }
    }
  }

  // ----- The root directory

  /** The root directory exists and is not about to go. */
  ghost predicate RootFile(fs: FileSystem)
    reads fs, fs.openInodes
  {
    ROOT_DIR_SECTOR in fs.files && forall i | i in fs.openInodes && i.sector == ROOT_DIR_SECTOR :: !i.removed
  }

  ghost predicate IsOpen(fs: FileSystem, sector: nat)
    reads fs
  {
    exists i :: i in fs.openInodes && i.sector == sector
  }

  ghost predicate IsDenied(fs: FileSystem, sector: nat)
    reads fs, fs.openInodes
  {
    exists i :: i in fs.openInodes && i.sector == sector && i.denyWriteCnt > 0
  }

  /** dir_open_root succeeds. */
  ghost predicate CanOpenRoot(fs: FileSystem, mem: Memory)
    reads fs
  {
    (IsOpen(fs, ROOT_DIR_SECTOR) || mem.inode) && mem.dir
  }

  /** Nothing but the open inodes can have changed. */
  twostate predicate SameDisk(fs: FileSystem)
    reads fs, fs.disk, fs.freeMap, fs.freeMap.bits, fs.openInodes
  {
    && old(fs.Valid()) && fs.Valid() && fs.files == old(fs.files) && fs.reserved == old(fs.reserved)
    && fs.freeMap.Contents() == old(fs.freeMap.Contents()) && fs.disk.sectors == old(fs.disk.sectors)
    && fs.freeMapFile == old(fs.freeMapFile)
  }

  /** The open inodes are the same ones, with the same counts. */
  twostate predicate SameInodes(fs: FileSystem)
    reads fs, fs.openInodes
  {
    && fs.openInodes == old(fs.openInodes)
    && forall i | i in old(fs.openInodes) :: i.openCnt == old(i.openCnt) && SameInode(i)
  }

  twostate predicate SameInode(i: Inode)
    reads i
  {
    && i.denyWriteCnt == old(i.denyWriteCnt) && i.removed == old(i.removed)
    && i.start == old(i.start) && i.length == old(i.length)
  }

  twostate lemma SameView(fs: FileSystem)
    requires SameDisk(fs)
    ensures forall h :: h in fs.files ==> fs.Bytes(h) == old(fs.Bytes(h))
  {
    hide FileSystem.Valid, Content;
  }

  /** dir_close of the root directory, which is never removed. */
  method CloseRoot(fs: FileSystem, dir: Inode, bounceOk: nat -> bool)
    requires fs.Valid() && dir in fs.openInodes && dir.denyWriteCnt < dir.openCnt
    requires !dir.removed && dir != fs.freeMapFile
    modifies fs`openInodes, fs`files, dir`openCnt, fs.freeMap.bits, fs.disk
    ensures SameDisk(fs) && forall h :: h in fs.files ==> fs.Bytes(h) == old(fs.Bytes(h))
    ensures dir.openCnt == old(dir.openCnt) - 1
    ensures fs.openInodes == if dir.openCnt == 0 then Removed(old(fs.openInodes), dir) else old(fs.openInodes)
  {
    hide OwnOk, HeadersOk, IsFreeMap, FileSystem.Bytes;
    fs.Close(dir, bounceOk);
    SameView(fs);
  }

  lemma RemovedFirst(i: Inode, open: seq<Inode>)
    ensures Removed([i] + open, i) == open
  {
    assert ([i] + open)[1..] == open;
  }

  /** inode_open */
  method OpenInode(fs: FileSystem, sector: nat, inodeOk: bool) returns (inode: Inode?)
    requires fs.Valid() && sector in fs.files
    modifies fs`openInodes, fs.openInodes
    ensures SameDisk(fs) && forall h :: h in fs.files ==> fs.Bytes(h) == old(fs.Bytes(h))
    ensures MapDenied(fs) == old(MapDenied(fs))
    ensures inode != null <==> old(IsOpen(fs, sector)) || inodeOk
    ensures inode == null ==> SameInodes(fs)
    ensures inode != null ==>
      && inode in fs.openInodes && inode.sector == sector && inode.denyWriteCnt < inode.openCnt
      && (inode == fs.freeMapFile ==> sector == FREE_MAP_SECTOR)
      && (inode.denyWriteCnt > 0 <==> old(IsDenied(fs, sector)))
      && fs.files[sector] == Extent(inode.start, inode.length)
      && if old(IsOpen(fs, sector))
         then inode in old(fs.openInodes) && fs.openInodes == old(fs.openInodes)
              && inode.openCnt == old(inode.openCnt) + 1 > 1
         else fresh(inode) && fs.openInodes == [inode] + old(fs.openInodes) && inode.openCnt == 1 && !inode.removed
    ensures forall i | i in old(fs.openInodes) :: SameInode(i) && (i != inode ==> i.openCnt == old(i.openCnt))
  {
    hide OwnOk, HeadersOk, FileSystem.Bytes;
    inode := fs.Open(sector, inodeOk);
    SameView(fs);
  }

  /** dir_open_root */
  method OpenRoot(fs: FileSystem, mem: Memory) returns (dir: Inode?)
    requires fs.Valid() && RootFile(fs)
    modifies fs`openInodes, fs`files, fs.openInodes, fs.freeMap.bits, fs.disk
    ensures SameDisk(fs) && forall h :: h in fs.files ==> fs.Bytes(h) == old(fs.Bytes(h))
    ensures MapDenied(fs) == old(MapDenied(fs))
    ensures dir != null <==> old(CanOpenRoot(fs, mem))
    ensures dir == null ==> SameInodes(fs)
    ensures dir != null ==>
      && dir in fs.openInodes && dir.sector == ROOT_DIR_SECTOR && !dir.removed && dir.denyWriteCnt < dir.openCnt
      && dir != fs.freeMapFile && (dir.denyWriteCnt > 0 <==> old(IsDenied(fs, ROOT_DIR_SECTOR)))
      && if old(IsOpen(fs, ROOT_DIR_SECTOR))
         then dir in old(fs.openInodes) && fs.openInodes == old(fs.openInodes)
              && dir.openCnt == old(dir.openCnt) + 1 > 1
         else fresh(dir) && fs.openInodes == [dir] + old(fs.openInodes) && dir.openCnt == 1
    ensures forall i | i in old(fs.openInodes) :: SameInode(i) && (i != dir ==> i.openCnt == old(i.openCnt))
  {
    hide FileSystem.Valid, FileSystem.Bytes, Removed;
    dir := OpenInode(fs, ROOT_DIR_SECTOR, mem.inode);
    if dir != null && !mem.dir {
      RemovedFirst(dir, old(fs.openInodes));
      CloseRoot(fs, dir, mem.freeMap);
      dir := null;
    }
  }

  /** Every name in use is the name of one file, which has no other. */
  ghost predicate DirectoryOk(d: seq<Byte>, files: Files) {
    && Terminated(d)
    && (forall k: nat :: IsSlot(d, k) && InUse(Slot(d, k)) ==>
          var h := SectorOf(Slot(d, k)); h in files && h != FREE_MAP_SECTOR && h != ROOT_DIR_SECTOR)
    && (forall j: nat, k: nat :: IsSlot(d, j) && IsSlot(d, k) && InUse(Slot(d, j)) && InUse(Slot(d, k)) && j != k ==>
          SectorOf(Slot(d, j)) != SectorOf(Slot(d, k)))
  }

  lemma StoredOk(d: seq<Byte>, d': seq<Byte>, k: nat, name: Name, files: Files, files': Files, h: nat)
    requires DirectoryOk(d, files) && Stored(d, d', k, name, h) && |name| <= NAME_MAX
    requires h !in files && h in files' && files.Keys <= files'.Keys && h != FREE_MAP_SECTOR && h != ROOT_DIR_SECTOR
    ensures DirectoryOk(d', files')
  {
    hide NameOf, SectorOf, InUse, Slot;
    forall j: nat | IsSlot(d', j) && InUse(Slot(d', j))
      ensures SectorOf(Slot(d', j)) == if j == k then h else SectorOf(Slot(d, j))
      ensures |NameOf(Slot(d', j))| <= NAME_MAX && (j != k ==> InUse(Slot(d, j)))
    {
    }
  }

  lemma SameOk(d: seq<Byte>, d': seq<Byte>, files: Files)
    requires DirectoryOk(d, files) && SameSlots(d, d')
    ensures DirectoryOk(d', files)
  {
    hide NameOf, SectorOf, InUse, Slot;
  }

  /** filesys_create.  The file is there afterwards exactly if an inode can be made for it and
      its name can be added; when only the first is the case, the sectors of its data stay
      marked used although no file owns them. */
  method FilesysCreate(fs: FileSystem, name: Name, length: nat, e: array<Byte>, mem: Memory) returns (success: bool)
    requires fs.Valid() && fs.freeMapFile != null && RootFile(fs)
    requires IsString(name) && length < 0x8000_0000 && e.Length == ENTRY_SIZE
    modifies fs`openInodes, fs`files, fs`reserved, fs.openInodes, fs.freeMap.bits, fs.disk, e
    ensures fs.Valid() && fs.reserved == old(fs.reserved) && SameInodes(fs) && ROOT_DIR_SECTOR in fs.files
    ensures success <==>
      && old(CanOpenRoot(fs, mem)) && CanMake(old(fs.freeMap.Contents()), old(MapDenied(fs)), length, mem)
      && CanAdd(old(fs.Bytes(ROOT_DIR_SECTOR)), name, old(IsDenied(fs, ROOT_DIR_SECTOR)), mem.find, mem.scan, mem.write)
    ensures !success ==>
      && fs.files == old(fs.files) && SameSlots(old(fs.Bytes(ROOT_DIR_SECTOR)), fs.Bytes(ROOT_DIR_SECTOR))
      && (fs.freeMap.Contents() != old(fs.freeMap.Contents()) <==>
            && old(CanOpenRoot(fs, mem)) && length > 0
            && CanMake(old(fs.freeMap.Contents()), old(MapDenied(fs)), length, mem))
    ensures old(CanOpenRoot(fs, mem)) && CanMake(old(fs.freeMap.Contents()), old(MapDenied(fs)), length, mem) ==>
      var used := old(fs.freeMap.Contents());
      fs.freeMap.Contents() == if success then WithFile(used, length) else WithData(used, length)
    ensures success ==>
      var used, d := old(fs.freeMap.Contents()), old(fs.Bytes(ROOT_DIR_SECTOR));
      var h := HeaderSector(used).value;
      && h !in old(fs.files) && h in fs.files
      && fs.files == old(fs.files)[h := Extent(DataStart(used, length).value, length)]
      && fs.Bytes(h) == Zeros(length)
      && Stored(d, fs.Bytes(ROOT_DIR_SECTOR), FreeSlot(d, mem.scan, 0), name, h)
    ensures forall h :: h in old(fs.files) && h != FREE_MAP_SECTOR && h != ROOT_DIR_SECTOR ==>
      fs.Bytes(h) == old(fs.Bytes(h))
    ensures DirectoryOk(old(fs.Bytes(ROOT_DIR_SECTOR)), old(fs.files)) ==>
      DirectoryOk(fs.Bytes(ROOT_DIR_SECTOR), fs.files)
  {
    hide FileSystem.Valid, FileSystem.Bytes, CanMake, WithFile, WithData, HeaderSector, DataStart;
    hide Stored, SameSlots, CanAdd, FreeSlot, Filled, DirectoryOk, Removed, CanOpenRoot, IsDenied;
    hide MapDenied, IsString;
    var dir := OpenRoot(fs, mem);
    success := false;
    if dir == null {
      SameSlotsRefl(old(fs.Bytes(ROOT_DIR_SECTOR)));
    } else {
      success := CreateIn(fs, dir, name, length, e, mem);
      RemovedFirst(dir, old(fs.openInodes));
      CloseRoot(fs, dir, mem.freeMap);
    }
  }

  // ----- Sectors that are lost

  const PLENTY := Memory(true, true, true, _ => true, _ => true, _ => true, true)

  /** Creating a file under a name that is taken loses the sectors of its data, even with
      memory for everything. */
  lemma TakenNameLoses(used: seq<bool>, d: seq<Byte>, denied: bool, name: Name, length: nat)
    requires Has(d, name) && 0 < length <= 0x8000_0000 - SECTOR_SIZE && DataStart(used, length).Some?
    ensures CanMake(used, false, length, PLENTY) && WithData(used, length) != used
    ensures !CanAdd(d, name, denied, PLENTY.find, PLENTY.scan, PLENTY.write)
  {
    hide DataStart, WithData, Find;
    HeaderGivenBack(used, length);
    FindIff(d, name, PLENTY.find, 0);
  }

  /** A disk with three free sectors, and the empty name, which is never added. */
  lemma LosesSector(d: seq<Byte>)
    ensures var used := [true, true, true, false, false, false];
      && CanMake(used, false, 1, PLENTY) && WithData(used, 1) == [true, true, true, false, true, false]
      && !CanAdd(d, [], false, PLENTY.find, PLENTY.scan, PLENTY.write)
  {
    var used := [true, true, true, false, false, false];
    FirstFree(used, 3);
    var marked := Filled(used, 3, 1, true);
    assert marked == [true, true, true, true, false, false];
    FirstFree(marked, 4);
    assert BytesToSectors(1) == 1;
  }

  // ----- Removing

  /** Exactly the sectors of a file are marked free. */
  ghost predicate Freed(used: seq<bool>, used': seq<bool>, h: nat, e: Extent) {
    && h < |used| && e.start + BytesToSectors(e.length) <= |used|
    && used' == Filled(Filled(used, h, 1, false), e.start, BytesToSectors(e.length), false)
  }

  /** Removing a file that was just created gives every sector back. */
  lemma CreateThenRemove(used: seq<bool>, length: nat, used': seq<bool>)
    requires DataStart(used, length).Some?
    requires Freed(WithFile(used, length), used', HeaderSector(used).value,
                   Extent(DataStart(used, length).value, length))
    ensures used' == used
  {
    hide FirstRun, BytesToSectors;
    var h, start, cnt := HeaderSector(used).value, DataStart(used, length).value, BytesToSectors(length);
    FillApart(used, h, start, cnt);
    forall k | 0 <= k < |used| ensures used'[k] == used[k] {
      assert start <= k < start + cnt ==> !used[k];
    }
  }

  /** The opening of an inode is given up, and the inode removed if so asked. */
  method CloseFile(fs: FileSystem, inode: Inode, remove: bool, bounceOk: nat -> bool)
    requires fs.Valid() && fs.freeMapFile != null && inode in fs.openInodes && inode.denyWriteCnt < inode.openCnt
    requires inode != fs.freeMapFile
    modifies fs`openInodes, fs`files, inode`openCnt, inode`removed, fs.freeMap.bits, fs.disk
    ensures fs.Valid() && inode.openCnt == old(inode.openCnt) - 1 && inode.removed == (remove || old(inode.removed))
    ensures fs.openInodes == if inode.openCnt == 0 then Removed(old(fs.openInodes), inode) else old(fs.openInodes)
    ensures forall i :: i != inode ==> (i in fs.openInodes <==> i in old(fs.openInodes))
    ensures fs.files == if inode.removed && inode.openCnt == 0 then old(fs.files) - {inode.sector} else old(fs.files)
    ensures forall h :: h in fs.files && h in old(fs.files) && h != FREE_MAP_SECTOR ==> fs.Bytes(h) == old(fs.Bytes(h))
    ensures !(inode.removed && inode.openCnt == 0) ==> fs.freeMap.Contents() == old(fs.freeMap.Contents())
    ensures inode.removed && inode.openCnt == 0 ==>
      Freed(old(fs.freeMap.Contents()), fs.freeMap.Contents(), inode.sector, Extent(inode.start, inode.length))
  {
    hide OwnOk, HeadersOk, IsFreeMap, FileSystem.Bytes, FileSystem.MapOnDisk, FileSystem.CanWriteMap, Filled;
    if remove {
      fs.Remove(inode);
    }
    fs.Close(inode, bounceOk);
    forall h | h in fs.files && h != FREE_MAP_SECTOR ensures fs.Bytes(h) == old(fs.Bytes(h)) {
      assert fs.AllBytes()[h] == old(fs.AllBytes())[h];
    }
  }

  lemma ClearedOk(d: seq<Byte>, d': seq<Byte>, k: nat, files: Files, files': Files)
    requires DirectoryOk(d, files) && Cleared(d, d', k)
    requires InUse(Slot(d, k)) && files.Keys - {SectorOf(Slot(d, k))} <= files'.Keys
    ensures DirectoryOk(d', files')
  {
    hide NameOf, SectorOf, InUse, Slot;
    forall j: nat | IsSlot(d', j) && InUse(Slot(d', j)) ensures j != k && Slot(d', j) == Slot(d, j) {
    }
  }

  /** dir_remove, once the entry e is found in slot k.  The file goes at once unless it is open. */
  method RemoveEntry(fs: FileSystem, dir: Inode, k: nat, e: Entry, mem: Memory, fileOk: bool) returns (success: bool)
    requires fs.Valid() && fs.freeMapFile != null && dir in fs.openInodes
    requires dir.sector == ROOT_DIR_SECTOR && ROOT_DIR_SECTOR in fs.files
    requires DirectoryOk(fs.Bytes(ROOT_DIR_SECTOR), fs.files)
    requires IsSlot(fs.Bytes(ROOT_DIR_SECTOR), k) && Slot(fs.Bytes(ROOT_DIR_SECTOR), k) == e && InUse(e)
    modifies fs`openInodes, fs`files, fs.openInodes, fs.freeMap.bits, fs.disk
    ensures fs.Valid() && fs.openInodes == old(fs.openInodes) && ROOT_DIR_SECTOR in fs.files
    ensures SectorOf(e) != ROOT_DIR_SECTOR && forall i | i in fs.openInodes ::
      && i.openCnt == old(i.openCnt) && i.denyWriteCnt == old(i.denyWriteCnt)
      && i.removed == (old(i.removed) || (success && i.sector == SectorOf(e)))
    ensures success <==> (old(IsOpen(fs, SectorOf(e))) || fileOk) && dir.denyWriteCnt == 0 && mem.write
    ensures var d, d' := old(fs.Bytes(ROOT_DIR_SECTOR)), fs.Bytes(ROOT_DIR_SECTOR);
      if success then Cleared(d, d', k) else SameSlots(d, d')
    ensures fs.files == if success && !old(IsOpen(fs, SectorOf(e))) then old(fs.files) - {SectorOf(e)}
                        else old(fs.files)
    ensures if success && !old(IsOpen(fs, SectorOf(e)))
            then SectorOf(e) in old(fs.files)
                 && Freed(old(fs.freeMap.Contents()), fs.freeMap.Contents(), SectorOf(e), old(fs.files)[SectorOf(e)])
            else fs.freeMap.Contents() == old(fs.freeMap.Contents())
    ensures forall h :: h in fs.files && h != FREE_MAP_SECTOR && h != ROOT_DIR_SECTOR ==>
      fs.Bytes(h) == old(fs.Bytes(h))
    ensures DirectoryOk(fs.Bytes(ROOT_DIR_SECTOR), fs.files)
  {
    hide FileSystem.Valid, FileSystem.Bytes, DirectoryOk, Cleared, SameSlots, Replaced, Slot, SectorOf, Removed, Freed;
    ghost var d := fs.Bytes(ROOT_DIR_SECTOR);
    ListedFile(d, fs.files, k);
    SameSlotsRefl(d);
    OneOpen(fs);
    var h := SectorOf(e);
    success := false;
    var inode := OpenInode(fs, h, fileOk);
    if inode != null {
      RemovedFirst(inode, old(fs.openInodes));
      success := WriteSlot(fs, dir, k, e[19 := 0], mem.write);
      CloseFile(fs, inode, success, mem.freeMap);
    }
    StaysOk(d, fs.Bytes(ROOT_DIR_SECTOR), k, success, old(fs.files), fs.files);
  }

  lemma OneOpen(fs: FileSystem)
    requires fs.Valid()
    ensures forall i, j :: i in fs.openInodes && j in fs.openInodes && i.sector == j.sector ==> i == j
  {
    hide OwnOk, HeadersOk, OpenOk;
  }

  lemma StaysOk(d: seq<Byte>, d': seq<Byte>, k: nat, cleared: bool, files: Files, files': Files)
    requires DirectoryOk(d, files) && IsSlot(d, k) && InUse(Slot(d, k))
    requires if cleared
             then Replaced(d, d', k, Slot(d, k)[19 := 0]) && files.Keys - {SectorOf(Slot(d, k))} <= files'.Keys
             else SameSlots(d, d') && files' == files
    ensures DirectoryOk(d', files') && (cleared ==> Cleared(d, d', k))
  {
    if cleared { ClearedOk(d, d', k, files, files'); } else { SameOk(d, d', files); }
  }

  lemma ListedFile(d: seq<Byte>, files: Files, k: nat)
    requires DirectoryOk(d, files) && IsSlot(d, k) && InUse(Slot(d, k))
    ensures var h := SectorOf(Slot(d, k)); h in files && h != FREE_MAP_SECTOR && h != ROOT_DIR_SECTOR
  {
  }

  /** The file that filesys_remove finds under a name. */
  ghost function Target(d: seq<Byte>, name: Name, find: nat -> bool): nat {
    var k := Find(d, name, find, 0);
    if k == None then 0 else SectorOf(Slot(d, k.value))
  }

  /** dir_remove from the root directory. */
  method DirRemove(fs: FileSystem, dir: Inode, name: Name, e: array<Byte>, mem: Memory, fileOk: bool)
    returns (success: bool)
    requires fs.Valid() && fs.freeMapFile != null && dir in fs.openInodes && e.Length == ENTRY_SIZE
    requires dir.sector == ROOT_DIR_SECTOR && ROOT_DIR_SECTOR in fs.files
    requires DirectoryOk(fs.Bytes(ROOT_DIR_SECTOR), fs.files)
    modifies fs`openInodes, fs`files, fs.openInodes, fs.freeMap.bits, fs.disk, e
    ensures fs.Valid() && fs.openInodes == old(fs.openInodes) && ROOT_DIR_SECTOR in fs.files
    ensures RemovedIf(fs, success, Target(old(fs.Bytes(ROOT_DIR_SECTOR)), name, mem.find))
    ensures success <==>
      && Find(old(fs.Bytes(ROOT_DIR_SECTOR)), name, mem.find, 0).Some?
      && (old(IsOpen(fs, Target(fs.Bytes(ROOT_DIR_SECTOR), name, mem.find))) || fileOk)
      && dir.denyWriteCnt == 0 && mem.write
    ensures var d, d' := old(fs.Bytes(ROOT_DIR_SECTOR)), fs.Bytes(ROOT_DIR_SECTOR);
      if success then Cleared(d, d', Find(d, name, mem.find, 0).value) else SameSlots(d, d')
    ensures var h := Target(old(fs.Bytes(ROOT_DIR_SECTOR)), name, mem.find);
      if success && !old(IsOpen(fs, Target(fs.Bytes(ROOT_DIR_SECTOR), name, mem.find)))
      then h in old(fs.files) && fs.files == old(fs.files) - {h}
           && Freed(old(fs.freeMap.Contents()), fs.freeMap.Contents(), h, old(fs.files)[h])
      else fs.files == old(fs.files) && fs.freeMap.Contents() == old(fs.freeMap.Contents())
    ensures forall h :: h in fs.files && h != FREE_MAP_SECTOR && h != ROOT_DIR_SECTOR ==>
      fs.Bytes(h) == old(fs.Bytes(h))
    ensures DirectoryOk(fs.Bytes(ROOT_DIR_SECTOR), fs.files)
  {
    hide FileSystem.Valid, FileSystem.Bytes, DirectoryOk, Cleared, SameSlots, Slot, SectorOf, Freed, Find;
    ghost var d := fs.Bytes(ROOT_DIR_SECTOR);
    TerminatedNames(d, fs.files);
    SameSlotsRefl(d);
    var k := Lookup(fs, dir, name, e, mem.find);
    success := false;
    if k.Some? {
      success := RemoveEntry(fs, dir, k.value, e[..], mem, fileOk);
    }
  }

  lemma TerminatedNames(d: seq<Byte>, files: Files)
    requires DirectoryOk(d, files)
    ensures Terminated(d)
  {
  }

  /** The open inodes keep their counts, and that of the file at h is removed if it was found. */
  twostate predicate RemovedIf(fs: FileSystem, success: bool, h: nat)
    reads fs, fs.openInodes
  {
    && (success ==> h != ROOT_DIR_SECTOR)
    && forall i | i in fs.openInodes && i in old(fs.openInodes) ::
         && i.openCnt == old(i.openCnt) && i.denyWriteCnt == old(i.denyWriteCnt)
         && i.removed == (old(i.removed) || (success && i.sector == h))
  }

  /** filesys_remove: the name is gone, and so is the file unless somebody has it open; then it
      goes when the last opener closes it.  `fileOk` is the memory for the file's inode. */
  method FilesysRemove(fs: FileSystem, name: Name, e: array<Byte>, mem: Memory, fileOk: bool) returns (success: bool)
    requires fs.Valid() && fs.freeMapFile != null && RootFile(fs) && e.Length == ENTRY_SIZE
    requires DirectoryOk(fs.Bytes(ROOT_DIR_SECTOR), fs.files)
    modifies fs`openInodes, fs`files, fs.openInodes, fs.freeMap.bits, fs.disk, e
    ensures fs.Valid() && fs.openInodes == old(fs.openInodes) && ROOT_DIR_SECTOR in fs.files
    ensures RemovedIf(fs, success, Target(old(fs.Bytes(ROOT_DIR_SECTOR)), name, mem.find))
    ensures success <==>
      && old(CanOpenRoot(fs, mem)) && Find(old(fs.Bytes(ROOT_DIR_SECTOR)), name, mem.find, 0).Some?
      && (old(IsOpen(fs, Target(fs.Bytes(ROOT_DIR_SECTOR), name, mem.find))) || fileOk)
      && !old(IsDenied(fs, ROOT_DIR_SECTOR)) && mem.write
    ensures var d, d' := old(fs.Bytes(ROOT_DIR_SECTOR)), fs.Bytes(ROOT_DIR_SECTOR);
      if success then Cleared(d, d', Find(d, name, mem.find, 0).value) else SameSlots(d, d')
    ensures var h := Target(old(fs.Bytes(ROOT_DIR_SECTOR)), name, mem.find);
      if success && !old(IsOpen(fs, Target(fs.Bytes(ROOT_DIR_SECTOR), name, mem.find)))
      then h in old(fs.files) && fs.files == old(fs.files) - {h}
           && Freed(old(fs.freeMap.Contents()), fs.freeMap.Contents(), h, old(fs.files)[h])
      else fs.files == old(fs.files) && fs.freeMap.Contents() == old(fs.freeMap.Contents())
    ensures forall h :: h in fs.files && h != FREE_MAP_SECTOR && h != ROOT_DIR_SECTOR ==>
      fs.Bytes(h) == old(fs.Bytes(h))
    ensures DirectoryOk(fs.Bytes(ROOT_DIR_SECTOR), fs.files)
  {
    hide FileSystem.Valid, FileSystem.Bytes, DirectoryOk, Cleared, SameSlots, Removed, Freed, Find, CanOpenRoot, Target;
    ghost var d := fs.Bytes(ROOT_DIR_SECTOR);
    SameSlotsRefl(d);
    TargetIs(d, fs.files, name, mem.find);
    var dir := OpenRoot(fs, mem);
    success := false;
    if dir != null {
      success := DirRemove(fs, dir, name, e, mem, fileOk);
      RemovedFirst(dir, old(fs.openInodes));
      CloseRoot(fs, dir, mem.freeMap);
    }
  }

  lemma TargetIs(d: seq<Byte>, files: Files, name: Name, find: nat -> bool)
    requires DirectoryOk(d, files)
    ensures Target(d, name, find) != ROOT_DIR_SECTOR
  {
    hide Find;
    var k := Find(d, name, find, 0);
    if k.Some? { ListedFile(d, files, k.value); }
  }
}
