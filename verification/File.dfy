/** Open files: positions, and who denies writing to an inode. */
module OpenFiles {
  import opened FileIo
  import opened Inodes

  class File {
    const inode: Inode
    var pos: nat
    var denyWrite: bool

    constructor (inode: Inode)
      ensures this.inode == inode && pos == 0 && !denyWrite
    {
      this.inode := inode;
      pos, denyWrite := 0, false;
    }
  }

  ghost function Openers(files: set<File>, i: Inode): set<File> {
    set f | f in files && f.inode == i
  }

  ghost function Deniers(files: set<File>, i: Inode): set<File>
    reads files`denyWrite
  {
    set f | f in files && f.inode == i && f.denyWrite
  }

  /** An inode's counters count its open files, with the other openings, and the files
      that deny writing. */
  ghost predicate CountsOk(files: set<File>, others: multiset<Inode>, i: Inode)
    reads files`denyWrite, i
  {
    i.openCnt == |Openers(files, i)| + others[i] && i.denyWriteCnt == |Deniers(files, i)|
  }

  class FileTable {
    const fs: FileSystem
    ghost var files: set<File>
    /** Openings of inodes that are not files of this table: the free map's and those of
        directories. */
    ghost var others: multiset<Inode>

    /** A file system that was just started has only its free map file open. */
    constructor (fs: FileSystem)
      requires fs.Valid() && fs.freeMapFile != null && fs.openInodes == [fs.freeMapFile]
      requires fs.freeMapFile.openCnt == 1 && fs.freeMapFile.denyWriteCnt == 0
      ensures Valid() && files == {} && this.fs == fs && others == multiset{fs.freeMapFile}
    {
      this.fs := fs;
      files := {};
      others := multiset{fs.freeMapFile};
    }

    ghost predicate Valid()
      reads this, files`denyWrite, fs, fs.disk, fs.freeMap, fs.freeMap.bits, fs.openInodes
    {
      && fs.Valid()
      && fs.freeMapFile != null && fs.freeMapFile in others
      && (forall f :: f in files ==> f.inode in fs.openInodes)
      && (forall i :: i in others ==> i in fs.openInodes)
      && (forall i :: i in fs.openInodes ==> CountsOk(files, others, i))
    }

    lemma MoreOpeners(f: File)
      requires Valid() && f in files
      ensures Deniers(files, f.inode) <= Openers(files, f.inode)
      ensures |Deniers(files, f.inode)| <= |Openers(files, f.inode)|
      ensures !f.denyWrite ==> |Deniers(files, f.inode)| < |Openers(files, f.inode)|
    {
      var d, o := Deniers(files, f.inode), Openers(files, f.inode);
      assert |o - d| + |d| == |o| by { assert o == (o - d) + d; }
      if !f.denyWrite { assert f in o - d; }
    }

    /** file_deny_write: the inode's count stays within its number of openers. */
    method DenyWrite(f: File)
      requires Valid() && f in files
      modifies f`denyWrite, f.inode`denyWriteCnt
      ensures Valid() && f.denyWrite
      ensures f.inode.denyWriteCnt == old(f.inode.denyWriteCnt) + (if old(f.denyWrite) then 0 else 1)
    {
      hide FileSystem.Valid, Deniers, Openers;
      if !f.denyWrite {
        var i := f.inode;
        MoreOpeners(f);
        assert CountsOk(files, others, i);
        f.denyWrite := true;
        fs.DenyWrite(i);
        Denies(f);
      }
    }

    /** One file changed its mind about one inode. */
    twostate lemma Denies(f: File)
      requires f in files && files == old(files) && (forall g | g in files && g != f :: g.denyWrite == old(g.denyWrite))
      ensures forall j | j in old(fs.openInodes) && j != f.inode :: Deniers(files, j) == old(Deniers(files, j))
      ensures f.denyWrite && !old(f.denyWrite) ==>
        f !in old(Deniers(files, f.inode)) && Deniers(files, f.inode) == old(Deniers(files, f.inode)) + {f}
      ensures !f.denyWrite && old(f.denyWrite) ==>
        f in old(Deniers(files, f.inode)) && Deniers(files, f.inode) == old(Deniers(files, f.inode)) - {f}
    {
    }

    /** file_allow_write */
    method AllowWrite(f: File)
      requires Valid() && f in files
      modifies f`denyWrite, f.inode`denyWriteCnt
      ensures Valid() && !f.denyWrite
      ensures f.inode.denyWriteCnt == old(f.inode.denyWriteCnt) - (if old(f.denyWrite) then 1 else 0)
    {
      hide FileSystem.Valid, Deniers, Openers;
      if f.denyWrite {
        var i := f.inode;
        assert CountsOk(files, others, i);
        DeniedIff(f);
        f.denyWrite := false;
        fs.AllowWrite(i);
        Denies(f);
      }
    }

    /** Writing is denied to everyone exactly while some open file denies it. */
    lemma DeniedIff(f: File)
      requires Valid() && f in files
      ensures f.inode.denyWriteCnt > 0 <==> exists g :: g in files && g.inode == f.inode && g.denyWrite
    {
      assert CountsOk(files, others, f.inode);
      var d := Deniers(files, f.inode);
      if f.inode.denyWriteCnt > 0 {
        assert d != {};
        var g :| g in d;
      }
      if g :| g in files && g.inode == f.inode && g.denyWrite {
        assert g in d;
      }
    }
  
    /** One opening of inode i does not belong to a file yet. */
    ghost predicate Owed(i: Inode)
      reads this, files`denyWrite, fs, fs.disk, fs.freeMap, fs.freeMap.bits, fs.openInodes, i
    {
      && fs.Valid() && i in fs.openInodes
      && fs.freeMapFile != null && fs.freeMapFile in others
      && (forall f :: f in files ==> f.inode in fs.openInodes)
      && (forall j :: j in others ==> j in fs.openInodes)
      && i.openCnt == |Openers(files, i)| + others[i] + 1 && i.denyWriteCnt == |Deniers(files, i)|
      && (forall j :: j in fs.openInodes && j != i ==> CountsOk(files, others, j))
    }

    /** inode_open: the opening belongs to nobody yet. */
    method OpenOwed(sector: nat, inodeOk: bool) returns (inode: Inode?)
      requires Valid() && sector in fs.files
      modifies fs`openInodes, fs.openInodes
      ensures inode == null ==> Valid() && !inodeOk
      ensures inode != null ==> Owed(inode) && inode.sector == sector
      ensures inode != null ==> fresh(inode) || inode in old(fs.openInodes)
    {
      hide FileSystem.Valid, Openers, Deniers;
      inode := fs.Open(sector, inodeOk);
      if inode != null { NewOpener(files, inode); }
      forall j | j in fs.openInodes && j != inode
        ensures CountsOk(files, others, j)
      {
        assert CountsOk(old(files), others, j);
      }
    }

    /** inode_close of an opening that belongs to nobody. */
    method CloseOwed(inode: Inode, bounceOk: nat -> bool)
      requires Owed(inode)
      modifies fs`openInodes, fs`files, inode`openCnt, fs.freeMap.bits, fs.disk
      ensures Valid()
      ensures inode in fs.openInodes <==> inode in others || exists g :: g in files && g.inode == inode
      ensures inode in fs.openInodes || !inode.removed ==> fs.files == old(fs.files)
      ensures inode !in fs.openInodes && inode.removed ==> fs.files == old(fs.files) - {inode.sector}
      ensures OnlyMapChanged(old(fs.AllBytes()), fs.AllBytes())
    {
      hide FileSystem.Valid, Openers, Deniers, FileSystem.MapOnDisk, FileSystem.CanWriteMap, FileSystem.AllBytes,
           OnlyMapChanged;
      NewOpener(files, inode);
      StillOpen(files, inode);
      fs.Close(inode, bounceOk);
      forall j | j in fs.openInodes && j != inode
        ensures CountsOk(files, others, j)
      {
        assert j in old(fs.openInodes);
      }
    }

    /** file_open: takes over an opening of the inode.  When there is no memory for the
        file, the inode is closed again. */
    method FileOpen(inode: Inode, fileOk: bool, bounceOk: nat -> bool) returns (f: File?)
      requires Owed(inode)
      modifies this`files, fs`openInodes, fs`files, inode`openCnt, fs.freeMap.bits, fs.disk
      ensures Valid() && (f == null <==> !fileOk) && (f == null ==> files == old(files))
      ensures f != null ==> fresh(f) && files == old(files) + {f} && f.inode == inode && f.pos == 0 && !f.denyWrite
      ensures OnlyMapChanged(old(fs.AllBytes()), fs.AllBytes())
    {
      hide FileSystem.Valid, Openers, Deniers, FileSystem.Bytes, FileSystem.AllBytes;
      if fileOk {
        f := new File(inode);
        OneMore(files, f);
        files := files + {f};
        assert CountsOk(files, others, inode);
      } else {
        CloseOwed(inode, bounceOk);
        f := null;
      }
    }

    /** A file for the inode in a sector, as filesys_open makes it. */
    method Open(sector: nat, inodeOk: bool, fileOk: bool, bounceOk: nat -> bool) returns (f: File?)
      requires Valid() && sector in fs.files
      modifies this`files, fs`openInodes, fs`files, fs.openInodes, fs.freeMap.bits, fs.disk
      ensures Valid() && (f == null ==> files == old(files))
      ensures (f == null ==> !inodeOk || !fileOk) && (!fileOk ==> f == null)
      ensures f != null ==> fresh(f) && files == old(files) + {f} && f.inode.sector == sector && f.pos == 0 && !f.denyWrite
      ensures OnlyMapChanged(old(fs.AllBytes()), fs.AllBytes())
    {
      hide FileSystem.Valid, Openers, Deniers, FileSystem.AllBytes;
      var inode := OpenOwed(sector, inodeOk);
      fs.SameBytes();
      if inode == null {
        return null;
      }
      f := FileOpen(inode, fileOk, bounceOk);
    }

    /** file_reopen: another file for the same inode. */
    method Reopen(g: File, fileOk: bool, bounceOk: nat -> bool) returns (f: File?)
      requires Valid() && g in files
      modifies this`files, fs`openInodes, fs`files, g.inode, fs.freeMap.bits, fs.disk
      ensures Valid() && (f == null <==> !fileOk) && (f == null ==> files == old(files))
      ensures f != null ==> fresh(f) && files == old(files) + {f} && f.inode == g.inode && f.pos == 0 && !f.denyWrite
      ensures OnlyMapChanged(old(fs.AllBytes()), fs.AllBytes())
    {
      hide FileSystem.Valid, Openers, Deniers, FileSystem.AllBytes;
      assert CountsOk(files, others, g.inode);
      fs.Reopen(g.inode);
      fs.SameBytes();
      forall j | j in fs.openInodes && j != g.inode
        ensures CountsOk(files, others, j)
      {
        assert CountsOk(old(files), others, j);
      }
      f := FileOpen(g.inode, fileOk, bounceOk);
    }

    /** file_read: reads at the current position and moves it on. */
    method Read(f: File, buffer: array<Byte>, size: int, mallocOk: bool) returns (n: nat)
      requires Valid() && f in files && size <= buffer.Length
      modifies buffer, f`pos
      ensures Valid() && f.inode.sector in fs.files
      ensures n == Transferred(f.inode.length, size, old(f.pos), mallocOk) && f.pos == old(f.pos) + n
      ensures n > 0 ==> n <= size && f.pos <= f.inode.length
      ensures mallocOk && size > 0 ==> n == size || f.pos >= f.inode.length
      ensures !mallocOk ==> n % 512 == 0 && (n > 0 ==> old(f.pos) % 512 == 0)
      ensures !mallocOk && size > 0 && old(f.pos) % 512 == 0 ==>
        n + 512 > size || f.pos + 512 > f.inode.length
      ensures ReadInto(fs.Bytes(f.inode.sector), old(buffer[..]), buffer[..], old(f.pos), n)
    {
      hide FileSystem.Valid, ReadInto, Transferred;
      n := fs.Read(f.inode, buffer, size, f.pos, mallocOk);
      f.pos := f.pos + n;
    }

    /** file_write: nothing while any open file denies it. */
    method Write(f: File, buffer: seq<Byte>, size: int, mallocOk: bool) returns (n: nat)
      requires Valid() && f in files && size <= |buffer|
      modifies f`pos, fs.disk
      ensures Valid() && f.inode.sector in fs.files && n <= |buffer|
      ensures f.pos == old(f.pos) + n
      ensures n > 0 ==> n <= size && f.pos <= f.inode.length
      ensures (forall g :: g in files && g.inode == f.inode ==> !g.denyWrite) && mallocOk && size > 0 ==>
        n == size || f.pos >= f.inode.length
      ensures !mallocOk ==> n % 512 == 0 && (n > 0 ==> old(f.pos) % 512 == 0)
      ensures (forall g :: g in files && g.inode == f.inode ==> !g.denyWrite)
              && !mallocOk && size > 0 && old(f.pos) % 512 == 0 ==>
        n + 512 > size || f.pos + 512 > f.inode.length
      ensures n == if exists g :: g in files && g.inode == f.inode && g.denyWrite then 0
                   else Transferred(f.inode.length, size, old(f.pos), mallocOk)
      ensures fs.Bytes(f.inode.sector) == Update(old(fs.Bytes(f.inode.sector)), old(f.pos), buffer[..n])
      ensures forall h :: h in fs.files && h != f.inode.sector ==> fs.Bytes(h) == old(fs.Bytes(h))
    {
      hide FileSystem.Valid, Update, Transferred, Openers, Deniers;
      DeniedIff(f);
      n := fs.Write(f.inode, buffer, size, f.pos, mallocOk);
      f.pos := f.pos + n;
    }

    /** file_close: gives up the file's denial, then its opening of the inode. */
    method Close(f: File, bounceOk: nat -> bool)
      requires Valid() && f in files
      modifies this`files, f`denyWrite, f.inode, fs`openInodes, fs`files, fs.freeMap.bits, fs.disk
      ensures Valid() && files == old(files) - {f}
      ensures f.inode in fs.openInodes <==> f.inode in others || exists g :: g in files && g.inode == f.inode
      ensures f.inode in fs.openInodes || !f.inode.removed ==> fs.files == old(fs.files)
      ensures f.inode !in fs.openInodes && f.inode.removed ==> fs.files == old(fs.files) - {f.inode.sector}
      ensures OnlyMapChanged(old(fs.AllBytes()), fs.AllBytes())
    {
      hide FileSystem.Valid, FileSystem.Bytes, FileSystem.AllBytes, Openers, Deniers;
      AllowWrite(f);
      fs.SameBytes();
      OneLess(f);
      files := files - {f};
      CloseOwed(f.inode, bounceOk);
    }

    /** Without f, one opening of its inode belongs to no file. */
    lemma OneLess(f: File)
      requires Valid() && f in files && !f.denyWrite
      ensures |Openers(files, f.inode)| == |Openers(files - {f}, f.inode)| + 1
      ensures Deniers(files - {f}, f.inode) == Deniers(files, f.inode)
      ensures forall i :: i != f.inode ==>
        Openers(files - {f}, i) == Openers(files, i) && Deniers(files - {f}, i) == Deniers(files, i)
    {
      OneMore(files - {f}, f);
      assert files - {f} + {f} == files;
    }

    /** inode_open for a directory. */
    method Hold(sector: nat, inodeOk: bool) returns (inode: Inode?)
      requires Valid() && sector in fs.files
      modifies this`others, fs`openInodes, fs.openInodes
      ensures Valid() && (inode == null ==> !inodeOk && others == old(others))
      ensures inode != null ==> inode.sector == sector && others == old(others) + multiset{inode}
    {
      hide FileSystem.Valid, Openers, Deniers;
      inode := OpenOwed(sector, inodeOk);
      if inode != null {
        others := others + multiset{inode};
      }
    }

    /** inode_close for a directory; the free map keeps its own opening. */
    method Drop(inode: Inode, bounceOk: nat -> bool)
      requires Valid() && inode in others && (inode == fs.freeMapFile ==> others[inode] > 1)
      modifies this`others, fs`openInodes, fs`files, inode`openCnt, fs.freeMap.bits, fs.disk
      ensures Valid() && others == old(others) - multiset{inode}
      ensures inode in fs.openInodes <==> inode in others || exists g :: g in files && g.inode == inode
      ensures OnlyMapChanged(old(fs.AllBytes()), fs.AllBytes())
    {
      hide FileSystem.Valid, Openers, Deniers, FileSystem.Bytes, FileSystem.AllBytes, OnlyMapChanged;
      assert CountsOk(files, others, inode);
      others := others - multiset{inode};
      forall j | j in fs.openInodes && j != inode
        ensures CountsOk(files, others, j)
      {
        assert CountsOk(files, old(others), j);
      }
      CloseOwed(inode, bounceOk);
    }
  }

  lemma NewOpener(files: set<File>, i: Inode)
    ensures |Deniers(files, i)| <= |Openers(files, i)|
    ensures (forall f :: f in files ==> f.inode != i) ==> |Openers(files, i)| == 0 && |Deniers(files, i)| == 0
  {
    var d, o := Deniers(files, i), Openers(files, i);
    assert |o - d| + |d| == |o| by { assert o == (o - d) + d; }
    if forall f :: f in files ==> f.inode != i {
      assert o == {};
    }
  }

  lemma OneMore(files: set<File>, f: File)
    requires f !in files && !f.denyWrite
    ensures |Openers(files + {f}, f.inode)| == |Openers(files, f.inode)| + 1
    ensures Deniers(files + {f}, f.inode) == Deniers(files, f.inode)
    ensures forall i :: i != f.inode ==>
      Openers(files + {f}, i) == Openers(files, i) && Deniers(files + {f}, i) == Deniers(files, i)
  {
    assert Openers(files + {f}, f.inode) == Openers(files, f.inode) + {f};
    forall i | i != f.inode
      ensures Openers(files + {f}, i) == Openers(files, i) && Deniers(files + {f}, i) == Deniers(files, i)
    {
    }
  }

  lemma StillOpen(files: set<File>, i: Inode)
    ensures |Openers(files, i)| > 0 <==> exists g :: g in files && g.inode == i
  {
    if |Openers(files, i)| > 0 {
      assert Openers(files, i) != {};
      var g :| g in Openers(files, i);
    }
    if g :| g in files && g.inode == i {
      assert g in Openers(files, i);
    }
  }
}
