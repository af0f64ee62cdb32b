/** Reading and writing files sector by sector, proved to be slicing and updating
    one sequence of bytes. */
module FileIo {

  type Byte = x: int | 0 <= x < 256

  const SECTOR_SIZE: nat := 512

  type Sector = s: seq<Byte> | |s| == 512 witness seq(512, _ => 0)

  function Zeros(n: nat): (s: seq<Byte>)
    ensures |s| == n
  {
    seq(n, _ => 0)
  }

  class Disk {
    var sectors: seq<Sector>

    constructor (sectors: seq<Sector>)
      ensures this.sectors == sectors
    {
      this.sectors := sectors;
    }

    method BlockWrite(sector: nat, data: Sector)
      requires sector < |sectors|
      modifies this
      ensures sectors == old(sectors)[sector := data]
    {
      sectors := sectors[sector := data];
    }
  }

  /** The in-memory inode; start and length are its copy of the on-disk inode. */
  class Inode {
    const sector: nat
    var openCnt: nat
    var removed: bool
    var denyWriteCnt: nat
    var start: nat
    var length: nat

    constructor (sector: nat, start: nat, length: nat)
      ensures this.sector == sector && this.start == start && this.length == length
      ensures openCnt == 1 && denyWriteCnt == 0 && !removed
    {
      this.sector, this.start, this.length := sector, start, length;
      openCnt, denyWriteCnt, removed := 1, 0, false;
    }
  }

  function BytesToSectors(size: nat): nat {
    (size + SECTOR_SIZE - 1) / SECTOR_SIZE
  }

  /** The extent of a file is on the disk. */
  predicate OnDisk(sectors: seq<Sector>, start: nat, length: nat) {
    start + BytesToSectors(length) <= |sectors|
  }

  /** As many sectors as the bytes need. */
  lemma SectorsNeeded(size: nat)
    ensures 512 * BytesToSectors(size) - 512 < size <= 512 * BytesToSectors(size) || size == BytesToSectors(size) == 0
  {
  }

  lemma ByteOnDisk(sectors: seq<Sector>, start: nat, length: nat, i: nat)
    requires OnDisk(sectors, start, length) && i < length
    ensures start + i / SECTOR_SIZE < |sectors|
  {
  }

  /** Byte i of the file whose data starts at sector start. */
  function ByteAt(sectors: seq<Sector>, start: nat, length: nat, i: nat): Byte
    requires OnDisk(sectors, start, length) && i < length
  {
    ByteOnDisk(sectors, start, length, i);
    sectors[start + i / SECTOR_SIZE][i % SECTOR_SIZE]
  }

  /** A file as one sequence of bytes. */
  ghost function Content(sectors: seq<Sector>, start: nat, length: nat): (s: seq<Byte>)
    requires OnDisk(sectors, start, length)
    ensures |s| == length
  {
    seq(length, i requires 0 <= i < length => ByteAt(sectors, start, length, i))
  }

  /** The bytes a transfer of `size` bytes at `offset` covers. */
  function InFile(length: nat, size: int, offset: nat): nat {
    if size <= 0 || length <= offset then 0
    else if size < length - offset then size else length - offset
  }

  /** ... and how far it gets when there is no memory for a bounce buffer. */
  function Transferred(length: nat, size: int, offset: nat, mallocOk: bool): nat {
    var n := InFile(length, size, offset);
    if mallocOk then n else if offset % SECTOR_SIZE == 0 then n - n % SECTOR_SIZE else 0
  }

  /** The count, told without computing it: within the request and the file; with memory
      it stops only at the end of one of them; without, it is as many whole sectors as
      both still hold, and none unless it starts at the beginning of one. */
  lemma TransferredIs(length: nat, size: int, offset: nat, mallocOk: bool, n: nat)
    ensures n == Transferred(length, size, offset, mallocOk) <==>
      && (n > 0 ==> n <= size && offset + n <= length)
      && (mallocOk && size > 0 ==> n == size || offset + n >= length)
      && (!mallocOk ==> n % 512 == 0 && (n > 0 ==> offset % 512 == 0))
      && (!mallocOk && size > 0 && offset % 512 == 0 ==> n + 512 > size || offset + n + 512 > length)
  {
  }

  /** memcpy into part of a buffer. */
  method CopyOut(buffer: array<Byte>, at: nat, src: seq<Byte>)
    requires at + |src| <= buffer.Length
    modifies buffer
    ensures buffer[..] == old(buffer[..])[..at] + src + old(buffer[..])[at + |src|..]
  {
    var i := 0;
    while i < |src|
      invariant i <= |src|
      invariant forall k | 0 <= k < buffer.Length ::
        buffer[k] == if at <= k < at + i then src[k - at] else old(buffer[k])
    {
      buffer[at + i] := src[i];
      i := i + 1;
    }
  }

  /** The number of bytes to take from one sector; at most 0 at the end of file. */
  function ChunkSize(length: nat, size: int, offset: nat): int {
    var sectorLeft := SECTOR_SIZE - offset % SECTOR_SIZE;
    var inodeLeft := length - offset;
    var minLeft := if inodeLeft < sectorLeft then inodeLeft else sectorLeft;
    if size < minLeft then size else minLeft
  }

  predicate WholeSector(offset: nat, chunk: int) {
    offset % SECTOR_SIZE == 0 && chunk == SECTOR_SIZE
  }

  /** One turn of the transfer loop. */
  lemma TransferStep(length: nat, size: int, offset: nat, ok: bool)
    requires size > 0
    ensures ChunkSize(length, size, offset) <= size
    ensures var c := ChunkSize(length, size, offset);
      if c <= 0 || (!WholeSector(offset, c) && !ok) then Transferred(length, size, offset, ok) == 0
      else
        && c <= size && offset + c <= length && offset % SECTOR_SIZE + c <= SECTOR_SIZE
        && Transferred(length, size, offset, ok) == c + Transferred(length, size - c, offset + c, ok)
  {
    var c := ChunkSize(length, size, offset);
    if c > 0 {
      var n := InFile(length, size, offset);
      assert n == c + InFile(length, size - c, offset + c);
      if !ok && WholeSector(offset, c) {
        assert (offset + c) % SECTOR_SIZE == 0;
        assert n % SECTOR_SIZE == (n - c) % SECTOR_SIZE;
      }
    }
  }

  /** Positions inside one sector. */
  lemma InSector(offset: nat, j: nat)
    requires offset % SECTOR_SIZE + j < SECTOR_SIZE
    ensures (offset + j) / SECTOR_SIZE == offset / SECTOR_SIZE
    ensures (offset + j) % SECTOR_SIZE == offset % SECTOR_SIZE + j
  {
  }

  lemma ChunkBytes(sectors: seq<Sector>, start: nat, length: nat, offset: nat, c: nat)
    requires OnDisk(sectors, start, length) && 0 < c && offset + c <= length
    requires offset % SECTOR_SIZE + c <= SECTOR_SIZE
    ensures start + offset / SECTOR_SIZE < |sectors|
    ensures sectors[start + offset / SECTOR_SIZE][offset % SECTOR_SIZE..offset % SECTOR_SIZE + c]
            == Content(sectors, start, length)[offset..offset + c]
  {
    ByteOnDisk(sectors, start, length, offset);
    var ofs := offset % SECTOR_SIZE;
    var a := sectors[start + offset / SECTOR_SIZE][ofs..ofs + c];
    var b := Content(sectors, start, length)[offset..offset + c];
    forall j | 0 <= j < c
      ensures a[j] == b[j]
    {
      InSector(offset, j);
    }
  }

  /** b is b0 with its first n bytes replaced by those of the file from offset on. */
  ghost predicate ReadInto(content: seq<Byte>, b0: seq<Byte>, b: seq<Byte>, offset: nat, n: nat) {
    && |b| == |b0| && n <= |b| && (n > 0 ==> offset + n <= |content|)
    && (forall i :: 0 <= i < n ==> b[i] == content[offset + i])
    && (forall i :: n <= i < |b| ==> b[i] == b0[i])
  }

  lemma ReadMore(content: seq<Byte>, b0: seq<Byte>, b: seq<Byte>, b': seq<Byte>, offset: nat, n: nat, c: nat)
    requires ReadInto(content, b0, b, offset, n) && n + c <= |b0| && offset + n + c <= |content|
    requires b' == b[..n] + content[offset + n..offset + n + c] + b[n + c..]
    ensures ReadInto(content, b0, b', offset, n + c)
  {
  }

  /** The loop of inode_read_at. */
  method ReadChunks(disk: Disk, inode: Inode, buffer: array<Byte>, size: int, offset: nat, mallocOk: bool)
    returns (bytesRead: nat)
    requires OnDisk(disk.sectors, inode.start, inode.length) && size <= buffer.Length
    modifies buffer
    ensures bytesRead == Transferred(inode.length, size, offset, mallocOk)
    ensures ReadInto(Content(disk.sectors, inode.start, inode.length), old(buffer[..]), buffer[..], offset, bytesRead)
  {
    hide Transferred, ChunkSize, Content, ReadInto, OnDisk;
    var left, pos := size, offset;
    bytesRead := 0;
    ghost var content := Content(disk.sectors, inode.start, inode.length);
    ReadNone(content, buffer[..], offset);
    while left > 0
      invariant left == size - bytesRead && pos == offset + bytesRead
      invariant ReadInto(content, old(buffer[..]), buffer[..], offset, bytesRead)
      invariant Transferred(inode.length, size, offset, mallocOk)
                == bytesRead + Transferred(inode.length, left, pos, mallocOk)
      decreases left
    {
      TransferStep(inode.length, left, pos, mallocOk);
      var sectorOfs := pos % SECTOR_SIZE;
      var chunk := ChunkSize(inode.length, left, pos);
      if chunk <= 0 {
        break;
      }
      ghost var b := buffer[..];
      if WholeSector(pos, chunk) {
        // Read the full sector directly into the caller's buffer.
        ChunkBytes(disk.sectors, inode.start, inode.length, pos, chunk);
        var sectorIdx := inode.start + pos / SECTOR_SIZE;
        assert disk.sectors[sectorIdx] == disk.sectors[sectorIdx][sectorOfs..sectorOfs + chunk];
        CopyOut(buffer, bytesRead, disk.sectors[sectorIdx]);
      } else {
        // Read the sector into a bounce buffer, then copy a part of it.
        if !mallocOk {
          break;
        }
        ChunkBytes(disk.sectors, inode.start, inode.length, pos, chunk);
        var bounce := disk.sectors[inode.start + pos / SECTOR_SIZE];
        CopyOut(buffer, bytesRead, bounce[sectorOfs..sectorOfs + chunk]);
      }
      ReadMore(content, old(buffer[..]), b, buffer[..], offset, bytesRead, chunk);
      left, pos, bytesRead := left - chunk, pos + chunk, bytesRead + chunk;
    }
    if left <= 0 { NothingLeft(inode.length, left, pos, mallocOk); }
  }

  /** inode_read_at: fills the buffer with that slice of the file, as far as there is
      one, and leaves the rest of the buffer alone. */
  method ReadAt(disk: Disk, inode: Inode, buffer: array<Byte>, size: int, offset: nat, mallocOk: bool)
    returns (bytesRead: nat)
    requires OnDisk(disk.sectors, inode.start, inode.length) && size <= buffer.Length
    modifies buffer
    ensures bytesRead == Transferred(inode.length, size, offset, mallocOk)
    ensures bytesRead > 0 ==> bytesRead <= size && offset + bytesRead <= inode.length
    ensures mallocOk && size > 0 ==> bytesRead == size || offset + bytesRead >= inode.length
    ensures !mallocOk ==> bytesRead % 512 == 0 && (bytesRead > 0 ==> offset % 512 == 0)
    ensures !mallocOk && size > 0 && offset % 512 == 0 ==>
      bytesRead + 512 > size || offset + bytesRead + 512 > inode.length
    ensures ReadInto(Content(disk.sectors, inode.start, inode.length), old(buffer[..]), buffer[..], offset, bytesRead)
  {
    hide Transferred, Content, ReadInto;
    bytesRead := ReadChunks(disk, inode, buffer, size, offset, mallocOk);
    TransferredIs(inode.length, size, offset, mallocOk, bytesRead);
  }

  lemma NothingLeft(length: nat, size: int, offset: nat, ok: bool)
    requires size <= 0
    ensures Transferred(length, size, offset, ok) == 0
  {
  }

  lemma ReadNone(content: seq<Byte>, b: seq<Byte>, offset: nat)
    ensures ReadInto(content, b, b, offset, 0)
  {
  }

  // ----- Writing

  /** Position of byte j of sector k in a file that starts at sector start. */
  function Position(start: nat, k: nat, j: nat): int {
    (k - start) * SECTOR_SIZE + j
  }

  /** s' is s with data written into the file that starts at `start`, at `offset`:
      those bytes and no others change. */
  ghost predicate Written(s: seq<Sector>, s': seq<Sector>, start: nat, offset: nat, data: seq<Byte>) {
    && |s'| == |s|
    && (forall k, j :: 0 <= k < |s| && 0 <= j < SECTOR_SIZE ==>
          s'[k][j] == (var p := Position(start, k, j);
                       if start <= k && offset <= p < offset + |data| then data[p - offset] else s[k][j]))
  }

  lemma WrittenNone(s: seq<Sector>, start: nat, offset: nat)
    ensures Written(s, s, start, offset, [])
  {
  }

  lemma SamePosition(start: nat, offset: nat, k: nat, j: nat)
    requires start <= k && j < SECTOR_SIZE
    ensures k == start + offset / SECTOR_SIZE ==> Position(start, k, j) - offset == j - offset % SECTOR_SIZE
    ensures k < start + offset / SECTOR_SIZE ==> Position(start, k, j) < offset
    ensures k > start + offset / SECTOR_SIZE ==> Position(start, k, j) >= offset + SECTOR_SIZE - offset % SECTOR_SIZE
  {
  }

  /** Storing one sector extends what has been written by one chunk. */
  lemma WriteMore(s: seq<Sector>, s1: seq<Sector>, start: nat, offset: nat, data: seq<Byte>, n: nat, c: nat, x: Sector)
    requires n + c <= |data| && 0 < c && Written(s, s1, start, offset, data[..n])
    requires var pos := offset + n; var idx := start + pos / SECTOR_SIZE; var ofs := pos % SECTOR_SIZE;
      && ofs + c <= SECTOR_SIZE && idx < |s|
      && x == s1[idx][..ofs] + data[n..n + c] + s1[idx][ofs + c..]
    ensures Written(s, s1[start + (offset + n) / SECTOR_SIZE := x], start, offset, data[..n + c])
  {
    var pos := offset + n;
    var idx := start + pos / SECTOR_SIZE;
    var s2 := s1[idx := x];
    var d1, d2 := data[..n], data[..n + c];
    forall k, j | 0 <= k < |s| && 0 <= j < SECTOR_SIZE
      ensures s2[k][j] == (var p := Position(start, k, j);
                           if start <= k && offset <= p < offset + |d2| then d2[p - offset] else s[k][j])
    {
      if start <= k { SamePosition(start, pos, k, j); }
      var p := Position(start, k, j);
      assert s1[k][j] == if start <= k && offset <= p < offset + |d1| then d1[p - offset] else s[k][j];
    }
  }

  /** The loop of inode_write_at. */
  method WriteChunks(disk: Disk, inode: Inode, buffer: seq<Byte>, size: int, offset: nat, mallocOk: bool)
    returns (bytesWritten: nat)
    requires OnDisk(disk.sectors, inode.start, inode.length) && size <= |buffer|
    modifies disk
    ensures bytesWritten == Transferred(inode.length, size, offset, mallocOk) <= |buffer|
    ensures Written(old(disk.sectors), disk.sectors, inode.start, offset, buffer[..bytesWritten])
  {
    hide Transferred, ChunkSize, Written;
    bytesWritten := 0;
    ghost var s0 := disk.sectors;
    WrittenNone(s0, inode.start, offset);
    assert buffer[..0] == [];
    var left, pos := size, offset;
    while left > 0
      invariant left == size - bytesWritten && pos == offset + bytesWritten
      invariant bytesWritten <= |buffer| && (bytesWritten > 0 ==> pos <= inode.length)
      invariant |disk.sectors| == |s0| && Written(s0, disk.sectors, inode.start, offset, buffer[..bytesWritten])
      invariant Transferred(inode.length, size, offset, mallocOk)
                == bytesWritten + Transferred(inode.length, left, pos, mallocOk)
      decreases left
    {
      TransferStep(inode.length, left, pos, mallocOk);
      var sectorOfs := pos % SECTOR_SIZE;
      var sectorLeft := SECTOR_SIZE - sectorOfs;
      var chunk := ChunkSize(inode.length, left, pos);
      if chunk <= 0 {
        break;
      }
      var data := buffer[bytesWritten..bytesWritten + chunk];
      var bounce: Sector;
      if WholeSector(pos, chunk) {
        // Write the full sector directly to disk.
        ByteOnDisk(disk.sectors, inode.start, inode.length, pos);
        bounce := data;
      } else {
        if !mallocOk {
          break;
        }
        // The sector holds data before or after the chunk, so it is read first: the
        // zero-filled bounce buffer is never used.
        assert sectorOfs > 0 || chunk < sectorLeft;
        ByteOnDisk(disk.sectors, inode.start, inode.length, pos);
        var was := disk.sectors[inode.start + pos / SECTOR_SIZE];
        bounce := was[..sectorOfs] + data + was[sectorOfs + chunk..];
      }
      var sectorIdx := inode.start + pos / SECTOR_SIZE;
      WriteMore(s0, disk.sectors, inode.start, offset, buffer, bytesWritten, chunk, bounce);
      disk.BlockWrite(sectorIdx, bounce);
      left, pos, bytesWritten := left - chunk, pos + chunk, bytesWritten + chunk;
    }
    if left <= 0 { NothingLeft(inode.length, left, pos, mallocOk); }
  }

  /** inode_write_at: changes exactly those bytes of the file, and nothing at all if
      writing is denied. */
  method WriteAt(disk: Disk, inode: Inode, buffer: seq<Byte>, size: int, offset: nat, mallocOk: bool)
    returns (bytesWritten: nat)
    requires OnDisk(disk.sectors, inode.start, inode.length) && size <= |buffer|
    modifies disk
    ensures bytesWritten
            == if inode.denyWriteCnt > 0 then 0 else Transferred(inode.length, size, offset, mallocOk)
    ensures bytesWritten <= |buffer|
    ensures bytesWritten > 0 ==> bytesWritten <= size && offset + bytesWritten <= inode.length
    ensures inode.denyWriteCnt == 0 && mallocOk && size > 0 ==>
      bytesWritten == size || offset + bytesWritten >= inode.length
    ensures !mallocOk ==> bytesWritten % 512 == 0 && (bytesWritten > 0 ==> offset % 512 == 0)
    ensures inode.denyWriteCnt == 0 && !mallocOk && size > 0 && offset % 512 == 0 ==>
      bytesWritten + 512 > size || offset + bytesWritten + 512 > inode.length
    ensures Written(old(disk.sectors), disk.sectors, inode.start, offset, buffer[..bytesWritten])
  {
    hide Transferred, Written;
    if inode.denyWriteCnt > 0 {
      WrittenNone(disk.sectors, inode.start, offset);
      assert buffer[..0] == [];
      return 0;
    }
    bytesWritten := WriteChunks(disk, inode, buffer, size, offset, mallocOk);
    TransferredIs(inode.length, size, offset, mallocOk, bytesWritten);
  }

  // ----- What writing means for files

  /** Part of a sequence replaced. */
  ghost function Update(s: seq<Byte>, offset: nat, data: seq<Byte>): seq<Byte>
    requires data == [] || offset + |data| <= |s|
  {
    if data == [] then s else s[..offset] + data + s[offset + |data|..]
  }

  /** The written file is the old one with a part replaced. */
  lemma WrittenContent(s: seq<Sector>, s': seq<Sector>, start: nat, length: nat, offset: nat, data: seq<Byte>)
    requires Written(s, s', start, offset, data) && OnDisk(s, start, length)
    requires data == [] || offset + |data| <= length
    ensures OnDisk(s', start, length)
    ensures Content(s', start, length) == Update(Content(s, start, length), offset, data)
  {
    var c, c', u := Content(s, start, length), Content(s', start, length), Update(Content(s, start, length), offset, data);
    forall i | 0 <= i < length
      ensures c'[i] == u[i]
    {
      ByteOnDisk(s, start, length, i);
      var k, j := start + i / SECTOR_SIZE, i % SECTOR_SIZE;
      assert Position(start, k, j) == i;
      assert c'[i] == s'[k][j] && c[i] == s[k][j];
    }
  }

  /** A sector outside the written file's extent is not touched. */
  lemma WrittenElsewhere(s: seq<Sector>, s': seq<Sector>, start: nat, length: nat, offset: nat, data: seq<Byte>, k: nat)
    requires Written(s, s', start, offset, data) && (data == [] || offset + |data| <= length)
    requires k < |s| && !(start <= k < start + BytesToSectors(length))
    ensures s'[k] == s[k]
  {
    forall j | 0 <= j < SECTOR_SIZE
      ensures s'[k][j] == s[k][j]
    {
      var p := Position(start, k, j);
      assert start <= k ==> p >= length;
    }
  }
}
