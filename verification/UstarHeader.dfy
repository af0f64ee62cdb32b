/** Archive headers in ustar format: composing, checking and reading them. */
module UstarHeader {
  import opened Options
  import opened Bits
  import opened IntegerFields
  import opened Stdio
  import opened UstarFields

  const HEADER_SIZE: nat := 512
  const CHKSUM_START: nat := 148
  const CHKSUM_END: nat := 156
  const INT_MAX: nat := 0x7fff_ffff

  datatype FileType = Regular | Directory

  function TypeFlag(t: FileType): char { if t == Regular then '0' else '5' }

  /** Characters are bytes. */
  predicate Octets(s: string) {
    forall i | 0 <= i < |s| :: s[i] as int < 256
  }

  predicate IsHeader(h: string) { |h| == HEADER_SIZE && Octets(h) }

  // ----- Checksums

  function Sum(s: string): nat {
    if s == "" then 0 else Sum(s[..|s| - 1]) + s[|s| - 1] as int
  }

  /** The header with spaces in its checksum field. */
  function Blanked(h: string): (r: string)
    requires |h| == HEADER_SIZE
    ensures |r| == HEADER_SIZE
  {
    h[..CHKSUM_START] + Repeat(' ', 8) + h[CHKSUM_END..]
  }

  function Chksum(h: string): nat
    requires |h| == HEADER_SIZE
  {
    Sum(Blanked(h))
  }

  lemma {:induction false} SumBound(s: string)
    requires Octets(s)
    ensures Sum(s) <= 255 * |s|
  {
    if s != "" { SumBound(s[..|s| - 1]); }
  }

  /** The checksum of a header fits in seven octal digits. */
  lemma ChksumFits(h: string)
    requires IsHeader(h)
    ensures Chksum(h) < 0x20_0000
  {
    SumBound(Blanked(h));
  }

  /** calculate_chksum */
  method CalculateChksum(h: string) returns (chksum: nat)
    requires |h| == HEADER_SIZE
    ensures chksum == Chksum(h)
  {
    hide Sum;
    ghost var b := Blanked(h);
    chksum := 0;
    SumEmpty(b);
    for i := 0 to HEADER_SIZE
      invariant chksum == Sum(b[..i])
    {
      var inChksumField := CHKSUM_START <= i < CHKSUM_END;
      SumStep(b, i);
      BlankedAt(h, i);
      chksum := chksum + (if inChksumField then ' ' else h[i]) as int;
    }
    assert b[..HEADER_SIZE] == b;
  }

  lemma SumEmpty(s: string)
    ensures Sum(s[..0]) == 0
  {
  }

  lemma SumStep(s: string, i: nat)
    requires i < |s|
    ensures Sum(s[..i + 1]) == Sum(s[..i]) + s[i] as int
  {
    assert s[..i + 1][..i] == s[..i];
  }

  lemma BlankedAt(h: string, i: nat)
    requires |h| == HEADER_SIZE && i < HEADER_SIZE
    ensures Blanked(h)[i] == if CHKSUM_START <= i < CHKSUM_END then ' ' else h[i]
  {
  }

  // ----- Fields at their places

  function Put(h: string, ofs: nat, s: string): (r: string)
    requires ofs + |s| <= |h|
    ensures |r| == |h|
  {
    h[..ofs] + s + h[ofs + |s|..]
  }

  lemma PutIn(h: string, ofs: nat, s: string)
    requires ofs + |s| <= |h|
    ensures Put(h, ofs, s)[ofs..ofs + |s|] == s
  {
  }

  lemma PutOut(h: string, ofs: nat, s: string, a: nat, b: nat)
    requires ofs + |s| <= |h| && a <= b <= |h| && (b <= ofs || ofs + |s| <= a)
    ensures Put(h, ofs, s)[a..b] == h[a..b]
  {
  }

  lemma PutCommute(h: string, i: nat, s: string, j: nat, t: string)
    requires i + |s| <= j && j + |t| <= |h|
    ensures Put(Put(h, j, t), i, s) == Put(Put(h, i, s), j, t)
  {
  }

  datatype Item = Item(ofs: nat, text: string)

  /** Items in order, one after the other, the last one ending by n. */
  predicate Fits(items: seq<Item>, n: nat) {
    items == [] ||
    (var last := items[|items| - 1];
     last.ofs + |last.text| <= n && Fits(items[..|items| - 1], last.ofs))
  }

  function Layout(h: string, items: seq<Item>): (r: string)
    requires Fits(items, |h|)
    ensures |r| == |h|
  {
    if items == [] then h
    else
      var last := items[|items| - 1];
      FitsMore(items[..|items| - 1], last.ofs, |h|);
      Put(Layout(h, items[..|items| - 1]), last.ofs, last.text)
  }

  lemma FitsMore(items: seq<Item>, m: nat, n: nat)
    requires Fits(items, m) && m <= n
    ensures Fits(items, n)
  {
  }

  lemma FitsAdd(items: seq<Item>, n: nat, f: Item)
    requires Fits(items, n) && n <= f.ofs
    ensures Fits(items + [f], f.ofs + |f.text|)
  {
    assert (items + [f])[..|items|] == items;
    FitsMore(items, n, f.ofs);
  }

  lemma LayoutAdd(h: string, items: seq<Item>, f: Item)
    requires Fits(items, f.ofs) && f.ofs + |f.text| <= |h|
    ensures Fits(items, |h|) && Fits(items + [f], |h|)
    ensures Layout(h, items + [f]) == Put(Layout(h, items), f.ofs, f.text)
  {
    FitsMore(items, f.ofs, |h|);
    FitsAdd(items, f.ofs, f);
    assert (items + [f])[..|items|] == items;
  }

  lemma {:induction false} FitsBelow(items: seq<Item>, n: nat, i: nat)
    requires Fits(items, n) && i < |items|
    ensures items[i].ofs + |items[i].text| <= n
  {
    var k := |items| - 1;
    if i < k {
      FitsBelow(items[..k], items[k].ofs, i);
    }
  }

  /** Every item can be read back from where it was put. */
  lemma {:induction false} LayoutReads(h: string, items: seq<Item>, i: nat)
    requires Fits(items, |h|) && i < |items|
    ensures items[i].ofs + |items[i].text| <= |h|
    ensures Layout(h, items)[items[i].ofs..items[i].ofs + |items[i].text|] == items[i].text
  {
    var k := |items| - 1;
    var last, rest := items[k], items[..k];
    FitsMore(rest, last.ofs, |h|);
    hide Put;
    if i == k {
      PutIn(Layout(h, rest), last.ofs, last.text);
    } else {
      assert rest[i] == items[i];
      FitsBelow(rest, last.ofs, i);
      LayoutReads(h, rest, i);
      PutOut(Layout(h, rest), last.ofs, last.text, items[i].ofs, items[i].ofs + |items[i].text|);
    }
  }

  /** What lies outside the items stays. */
  lemma {:induction false} LayoutKeeps(h: string, items: seq<Item>, x: nat)
    requires Fits(items, |h|) && x < |h|
    requires forall i | 0 <= i < |items| :: x < items[i].ofs || items[i].ofs + |items[i].text| <= x
    ensures Layout(h, items)[x] == h[x]
  {
    if items != [] {
      var k := |items| - 1;
      FitsMore(items[..k], items[k].ofs, |h|);
      LayoutKeeps(h, items[..k], x);
    }
  }

  lemma {:induction false} LayoutOctets(h: string, items: seq<Item>)
    requires Fits(items, |h|) && Octets(h) && forall i | 0 <= i < |items| :: Octets(items[i].text)
    ensures Octets(Layout(h, items))
  {
    if items != [] {
      var k := |items| - 1;
      FitsMore(items[..k], items[k].ofs, |h|);
      LayoutOctets(h, items[..k]);
      PutOctets(Layout(h, items[..k]), items[k].ofs, items[k].text);
    }
  }

  lemma PutOctets(h: string, ofs: nat, s: string)
    requires ofs + |s| <= |h| && Octets(h) && Octets(s)
    ensures Octets(Put(h, ofs, s))
  {
  }

  // ----- Composing a header

  /** What strlcpy and snprintf leave in a buffer of the given size. */
  function Terminated(s: string, size: nat): (r: string)
    requires size > 0
    ensures 0 < |r| <= size && (|s| < size ==> r == s + ['\0'])
  {
    (if |s| < size then s else s[..size - 1]) + ['\0']
  }

  const MAGIC: string := "ustar"
  const VERSION: string := "00"
  const ROOT: string := "root"
  const NO_ID: string := "0000000"
  const MTIME: nat := 1136102400

  /** A size as the unsigned argument of an octal conversion. */
  function Unsigned(size: int): nat
    requires -0x8000_0000 <= size < 0x8000_0000
  {
    if size < 0 then size + 0x1_0000_0000 else size
  }

  predicate IsInt(size: int) { -0x8000_0000 <= size < 0x8000_0000 }

  function Mode(t: FileType): nat { if t == Regular then 420 else 493 }

  /** Everything but the checksum, in the order of the header. */
  function Items(name: string, t: FileType, size: int): seq<Item>
    requires IsInt(size)
  {
    [Item(0, Terminated(name, 100)),
     Item(100, Terminated(OctalField(Mode(t), 7), 8)),
     Item(108, Terminated(NO_ID, 8)),
     Item(116, Terminated(NO_ID, 8)),
     Item(124, Terminated(OctalField(Unsigned(size), 11), 12)),
     Item(136, Terminated(OctalField(MTIME, 11), 12)),
     Item(156, [TypeFlag(t)]),
     Item(257, Terminated(MAGIC, 6)),
     Item(263, VERSION),
     Item(265, Terminated(ROOT, 32)),
     Item(297, Terminated(ROOT, 32))]
  }

  /** Where the item after number i starts, or the items end. */
  function Next(items: seq<Item>, i: nat, n: nat): nat
    requires i < |items|
  {
    if i + 1 < |items| then items[i + 1].ofs else n
  }

  /** Items that end where the next one starts, or before, fit. */
  lemma {:induction false} ChainFits(items: seq<Item>, n: nat)
    requires forall i | 0 <= i < |items| :: items[i].ofs + |items[i].text| <= Next(items, i, n)
    ensures Fits(items, n)
  {
    if items != [] {
      var k := |items| - 1;
      var rest := items[..k];
      assert items[k].ofs + |items[k].text| <= Next(items, k, n);
      forall i | 0 <= i < k ensures rest[i].ofs + |rest[i].text| <= Next(rest, i, items[k].ofs) {
        assert items[i].ofs + |items[i].text| <= Next(items, i, n);
      }
      ChainFits(rest, items[k].ofs);
    }
  }

  lemma HeaderFits(name: string, t: FileType, size: int)
    requires IsInt(size)
    ensures Fits(Items(name, t, size), HEADER_SIZE)
  {
    hide Fits, Terminated, OctalField;
    var s := Items(name, t, size);
    assert |VERSION| == 2;
    ChainFits(s, HEADER_SIZE);
  }

  /** The header before its checksum is filled in. */
  function Unsummed(name: string, t: FileType, size: int): (h: string)
    requires IsInt(size)
    ensures |h| == HEADER_SIZE
  {
    HeaderFits(name, t, size);
    Layout(Repeat('\0', HEADER_SIZE), Items(name, t, size))
  }

  /** The whole header for a stripped name. */
  function HeaderOf(name: string, t: FileType, size: int): (h: string)
    requires IsInt(size)
    ensures |h| == HEADER_SIZE
  {
    var h := Unsummed(name, t, size);
    Put(h, CHKSUM_START, Terminated(OctalField(Chksum(h), 7), 8))
  }

  /** Write s at ofs. */
  method Write(header: array<char>, ofs: nat, s: string)
    requires ofs + |s| <= header.Length
    modifies header
    ensures header[..] == Put(old(header[..]), ofs, s)
  {
    ghost var h := header[..];
    var i := 0;
    while i < |s|
      invariant i <= |s| && header[..] == Put(h, ofs, s[..i])
    {
      header[ofs + i] := s[i];
      i := i + 1;
      assert s[..i] == s[..i - 1] + [s[i - 1]];
    }
    assert s[..i] == s;
  }

  /** strlcpy of s into the size bytes at ofs. */
  method Strlcpy(header: array<char>, ofs: nat, s: string, size: nat)
    requires 0 < size && ofs + size <= header.Length
    modifies header
    ensures header[..] == Put(old(header[..]), ofs, Terminated(s, size))
  {
    hide Put;
    Write(header, ofs, Terminated(s, size));
  }

  /** snprintf of v in octal, padded with zeros to w digits. */
  method SnprintfOctal(header: array<char>, ofs: nat, v: nat, w: nat, size: nat)
    requires 0 < size && ofs + size <= header.Length && v < UINTMAX
    modifies header
    ensures header[..] == Put(old(header[..]), ofs, Terminated(OctalField(v, w), size))
  {
    BasesOk();
    hide Put, Field, BaseOk;
    var s := FormatInteger(v, false, false, BASE_O, OctalConversion(w));
    Strlcpy(header, ofs, s, size);
  }

  method Clear(header: array<char>)
    modifies header
    ensures header[..] == Repeat('\0', header.Length)
  {
    for i := 0 to header.Length
      invariant header[..i] == Repeat('\0', i)
    {
      header[i] := '\0';
    }
    assert header[..header.Length] == header[..];
  }

  /** ustar_make_header */
  method MakeHeader(fileName: string, t: FileType, size: int, header: array<char>) returns (ok: bool)
    requires header.Length == HEADER_SIZE && CString(fileName) && IsInt(size)
    modifies header
    ensures ok <==> |Stripped(fileName)| <= 99
    ensures header[..] == if ok then HeaderOf(Stripped(fileName), t, size) else old(header[..])
  {
    hide Stripped, Layout, Put, Chksum, OctalField, Terminated, CString;
    var name := StripAntisocialPrefixes(fileName);
    if |name| > 99 {
      return false;
    }
    FillIn(name, t, size, header);
    var chksum := CalculateChksum(header[..]);
    StrippedClean(fileName);
    UnsummedIsHeader(name, t, size);
    SnprintfOctal(header, CHKSUM_START, chksum, 7, 8);
    ok := true;
  }

  /** Fill in the header except for the final checksum. */
  method FillIn(name: string, t: FileType, size: int, header: array<char>)
    requires header.Length == HEADER_SIZE && IsInt(size)
    modifies header
    ensures header[..] == Unsummed(name, t, size)
  {
    hide Layout, Put, OctalField, Terminated, Fits, Items;
    ghost var items := Items(name, t, size);
    HeaderFits(name, t, size);
    LayoutNone(Repeat('\0', HEADER_SIZE), items);
    ItemCount(name, t, size);
    Clear(header);
    FillOwner(name, t, size, header);
    FillTimes(name, t, size, header);
    FillKind(name, t, size, header);
    assert items[..11] == items;
  }

  lemma ItemCount(name: string, t: FileType, size: int)
    requires IsInt(size)
    ensures |Items(name, t, size)| == 11
  {
    hide OctalField, Terminated;
  }

  /** Has the header just its first k items? */
  ghost predicate Has(h: string, items: seq<Item>, k: nat) {
    && |h| == HEADER_SIZE && k <= |items| && Fits(items, HEADER_SIZE) && Fits(items[..k], HEADER_SIZE)
    && h == Layout(Repeat('\0', HEADER_SIZE), items[..k])
  }

  lemma HasMore(h: string, items: seq<Item>, k: nat)
    requires Has(h, items, k) && k < |items|
    ensures items[k].ofs + |items[k].text| <= HEADER_SIZE
    ensures Has(Put(h, items[k].ofs, items[k].text), items, k + 1)
  {
    hide Layout, Put, Fits;
    LayoutStep(Repeat('\0', HEADER_SIZE), items, k);
  }

  method FillOwner(name: string, t: FileType, size: int, header: array<char>)
    requires header.Length == HEADER_SIZE && IsInt(size) && Has(header[..], Items(name, t, size), 0)
    modifies header
    ensures Has(header[..], Items(name, t, size), 4)
  {
    hide Put, OctalField, Terminated, Has;
    ghost var items := Items(name, t, size);
    HasMore(header[..], items, 0);
    Strlcpy(header, 0, name, 100);
    HasMore(header[..], items, 1);
    SnprintfOctal(header, 100, Mode(t), 7, 8);
    HasMore(header[..], items, 2);
    Strlcpy(header, 108, NO_ID, 8);
    HasMore(header[..], items, 3);
    Strlcpy(header, 116, NO_ID, 8);
  }

  method FillTimes(name: string, t: FileType, size: int, header: array<char>)
    requires header.Length == HEADER_SIZE && IsInt(size) && Has(header[..], Items(name, t, size), 4)
    modifies header
    ensures Has(header[..], Items(name, t, size), 7)
  {
    hide Put, OctalField, Terminated, Has;
    ghost var items := Items(name, t, size);
    HasMore(header[..], items, 4);
    SnprintfOctal(header, 124, Unsigned(size), 11, 12);
    HasMore(header[..], items, 5);
    SnprintfOctal(header, 136, MTIME, 11, 12);
    HasMore(header[..], items, 6);
    Write(header, 156, [TypeFlag(t)]);
  }

  method FillKind(name: string, t: FileType, size: int, header: array<char>)
    requires header.Length == HEADER_SIZE && IsInt(size) && Has(header[..], Items(name, t, size), 7)
    modifies header
    ensures Has(header[..], Items(name, t, size), 11)
  {
    hide Put, OctalField, Terminated, Has;
    ghost var items := Items(name, t, size);
    HasMore(header[..], items, 7);
    Strlcpy(header, 257, MAGIC, 6);
    HasMore(header[..], items, 8);
    Write(header, 263, VERSION);
    ghost var h := header[..];
    HasMore(h, items, 9);
    Strlcpy(header, 297, ROOT, 32);
    Strlcpy(header, 265, ROOT, 32);
    PutCommute(h, 265, Terminated(ROOT, 32), 297, Terminated(ROOT, 32));
    HasMore(Put(h, 265, Terminated(ROOT, 32)), items, 10);
  }

  lemma LayoutNone(h: string, items: seq<Item>)
    requires Fits(items, |h|)
    ensures Fits(items[..0], |h|) && Layout(h, items[..0]) == h
  {
  }

  lemma {:induction false} FitsPrefix(items: seq<Item>, n: nat, k: nat)
    requires Fits(items, n) && k < |items|
    ensures Fits(items[..k], items[k].ofs) && items[k].ofs + |items[k].text| <= n
  {
    var m := |items| - 1;
    if k < m {
      FitsPrefix(items[..m], items[m].ofs, k);
      assert items[..m][..k] == items[..k];
    }
  }

  lemma LayoutStep(h: string, items: seq<Item>, k: nat)
    requires Fits(items, |h|) && k < |items|
    ensures Fits(items[..k], |h|) && Fits(items[..k + 1], |h|) && items[k].ofs + |items[k].text| <= |h|
    ensures Layout(h, items[..k + 1]) == Put(Layout(h, items[..k]), items[k].ofs, items[k].text)
  {
    FitsPrefix(items, |h|, k);
    LayoutAdd(h, items[..k], items[k]);
    assert items[..k + 1] == items[..k] + [items[k]];
  }

  lemma OctalPowers()
    ensures Pow2(3 * 7) == 0x20_0000 && Pow2(3 * 11) == 0x2_0000_0000
  {
    assert Pow2(5) == 32 && Pow2(8) == 256;
    PowAdd(8, 8);
    PowAdd(16, 5);
    PowAdd(16, 16);
    PowAdd(32, 1);
    assert Pow2(1) == 2;
  }

  lemma TerminatedOctets(s: string, size: nat)
    requires 0 < size && Octets(s)
    ensures Octets(Terminated(s, size))
  {
  }

  lemma OctalOctets(v: nat, w: nat, size: nat)
    requires 0 < w && 0 < size && v < Pow2(3 * w)
    ensures Octets(Terminated(OctalField(v, w), size))
  {
    hide OctalField, Terminated, Pow2;
    OctalFieldIs(v, w);
    TerminatedOctets(OctalField(v, w), size);
  }

  lemma CStringOctets(s: string)
    requires CString(s)
    ensures Octets(s)
  {
  }

  lemma LiteralOctets(t: FileType)
    ensures Octets(NO_ID) && Octets(MAGIC) && Octets(VERSION) && Octets(ROOT) && Octets([TypeFlag(t)])
  {
  }

  lemma ItemsOctets(name: string, t: FileType, size: int)
    requires IsInt(size) && CString(name)
    ensures forall i | 0 <= i < |Items(name, t, size)| :: Octets(Items(name, t, size)[i].text)
  {
    hide Octets, Terminated, OctalField, Pow2, CString;
    CStringOctets(name);
    LiteralOctets(t);
    OctalPowers();
    TerminatedOctets(name, 100);
    OctalOctets(Mode(t), 7, 8);
    TerminatedOctets(NO_ID, 8);
    OctalOctets(Unsigned(size), 11, 12);
    OctalOctets(MTIME, 11, 12);
    TerminatedOctets(MAGIC, 6);
    TerminatedOctets(ROOT, 32);
  }

  lemma UnsummedIsHeader(name: string, t: FileType, size: int)
    requires IsInt(size) && CString(name)
    ensures IsHeader(Unsummed(name, t, size)) && Chksum(Unsummed(name, t, size)) < 0x20_0000
  {
    hide Layout, Items, Fits, Chksum;
    var zeros := Repeat('\0', HEADER_SIZE);
    HeaderFits(name, t, size);
    ItemsOctets(name, t, size);
    LayoutOctets(zeros, Items(name, t, size));
    ChksumFits(Unsummed(name, t, size));
  }

  // ----- Reading a header

  datatype Failure =
    | NotUstar | BadVersion | CorruptChksum | ChksumMismatch | NameTooLong | BadType | CorruptSize | FileTooLarge

  datatype Parsed = EndOfArchive | Entry(name: string, kind: FileType, size: nat) | Failed(failure: Failure)

  predicate AllZeros(h: string) {
    forall i | 0 <= i < |h| :: h[i] == '\0'
  }

  /** What ustar_parse_header makes of a header. */
  function Parse(h: string): Parsed
    requires |h| == HEADER_SIZE
  {
    if AllZeros(h) then EndOfArchive
    else if h[257..263] != MAGIC + ['\0'] then Failed(NotUstar)
    else if h[263..265] != VERSION then Failed(BadVersion)
    else
      var chksum := ParseOctal(h[CHKSUM_START..CHKSUM_END]);
      if chksum == None then Failed(CorruptChksum)
      else if chksum.value != Chksum(h) then Failed(ChksumMismatch)
      else if h[99] != '\0' || h[345] != '\0' then Failed(NameTooLong)
      else if h[156] == '5' then Entry(Stripped(CStr(h[0..100])), Directory, 0)
      else if h[156] != '0' then Failed(BadType)
      else
        var size := ParseOctal(h[124..136]);
        if size == None then Failed(CorruptSize)
        else if size.value > INT_MAX then Failed(FileTooLarge)
        else Entry(Stripped(CStr(h[0..100])), Regular, size.value)
  }

  method IsAllZeros(h: string) returns (zeros: bool)
    ensures zeros == AllZeros(h)
  {
    for i := 0 to |h|
      invariant forall j | 0 <= j < i :: h[j] == '\0'
    {
      if h[i] != '\0' {
        return false;
      }
    }
    zeros := true;
  }

  /** strchr for the terminator, which the buffer has. */
  method ReadCString(s: string) returns (r: string)
    ensures r == CStr(s)
  {
    var i := 0;
    r := "";
    while i < |s| && s[i] != '\0'
      invariant i <= |s| && r + CStr(s[i..]) == CStr(s)
    {
      r := r + [s[i]];
      i := i + 1;
    }
  }

  /** ustar_parse_header */
  method ParseHeader(header: string) returns (r: Parsed)
    requires |header| == HEADER_SIZE
    ensures r == Parse(header)
  {
    hide AllZeros, ParseOctal, Chksum, Stripped, CStr;
    var zeros := IsAllZeros(header);
    if zeros {
      return EndOfArchive;
    }
    if header[257..263] != MAGIC + ['\0'] {
      return Failed(NotUstar);
    }
    if header[263..265] != VERSION {
      return Failed(BadVersion);
    }
    var chksum := ParseOctalField(header[CHKSUM_START..CHKSUM_END]);
    if chksum == None {
      return Failed(CorruptChksum);
    }
    var calculated := CalculateChksum(header);
    if chksum.value != calculated {
      return Failed(ChksumMismatch);
    }
    if header[99] != '\0' || header[345] != '\0' {
      return Failed(NameTooLong);
    }
    var flag := header[156];
    if flag != '0' && flag != '5' {
      return Failed(BadType);
    }
    var size := 0;
    if flag == '0' {
      var field := ParseOctalField(header[124..136]);
      if field == None {
        return Failed(CorruptSize);
      }
      if field.value > INT_MAX {
        return Failed(FileTooLarge);
      }
      size := field.value;
    }
    var stored := ReadCString(header[0..100]);
    var name := StripAntisocialPrefixes(stored);
    r := Entry(name, if flag == '0' then Regular else Directory, size);
  }

  // ----- The laws

  /** When a header is read as an entry, byte for byte. */
  ghost predicate Readable(h: string)
    requires |h| == 512
  {
    && h[257..263] == "ustar\0" && h[263..265] == "00"
    && ParseOctal(h[148..156]) == Some(Sum(h[..148] + "        " + h[156..]))
    && h[99] == '\0' && h[345] == '\0'
    && (h[156] == '5'
        || (h[156] == '0' && ParseOctal(h[124..136]).Some? && ParseOctal(h[124..136]).value <= 0x7fff_ffff))
  }

  /** A header is accepted just when all its checks hold, the block of zeros ends the
      archive, and what an entry says is what its fields say. */
  lemma AcceptedIff(h: string)
    requires |h| == 512
    ensures Parse(h).EndOfArchive? <==> forall i | 0 <= i < 512 :: h[i] == '\0'
    ensures Parse(h).Entry? <==> Readable(h)
    ensures Readable(h) ==>
      Parse(h) == Entry(Stripped(CStr(h[..100])), if h[156] == '0' then Regular else Directory,
                        if h[156] == '0' then ParseOctal(h[124..136]).value else 0)
  {
    hide ParseOctal, Sum, Chksum, Stripped, CStr;
    ChksumIs(h);
    assert MAGIC + ['\0'] == "ustar\0" && h[0..100] == h[..100];
    if AllZeros(h) {
      assert h[257..263][0] == '\0';
    }
  }

  /** Which check a refused header fails: the first of them, in this order. */
  lemma RefusedBy(h: string)
    requires |h| == 512 && Parse(h).Failed?
    ensures match Parse(h).failure
      case NotUstar => h[257..263] != "ustar\0"
      case BadVersion => h[257..263] == "ustar\0" && h[263..265] != "00"
      case CorruptChksum => h[263..265] == "00" && ParseOctal(h[148..156]) == None
      case ChksumMismatch =>
        var sum := ParseOctal(h[148..156]); sum.Some? && sum.value != Sum(h[..148] + "        " + h[156..])
      case NameTooLong => ParseOctal(h[148..156]).Some? && (h[99] != '\0' || h[345] != '\0')
      case BadType => h[99] == '\0' && h[345] == '\0' && h[156] != '0' && h[156] != '5'
      case CorruptSize => h[156] == '0' && ParseOctal(h[124..136]) == None
      case FileTooLarge => h[156] == '0' && ParseOctal(h[124..136]).Some? && ParseOctal(h[124..136]).value > 0x7fff_ffff
  {
    hide ParseOctal, Sum, Chksum, Stripped, CStr;
    ChksumIs(h);
    assert MAGIC + ['\0'] == "ustar\0";
  }

  /** Whatever a header holds, an entry that is read from it has a clean name and a size
      that is an int. */
  lemma EntriesAreClean(h: string)
    requires |h| == HEADER_SIZE && Parse(h).Entry?
    ensures Clean(Parse(h).name) && Parse(h).size <= INT_MAX
  {
    hide AllZeros, ParseOctal, Chksum, Stripped, CStr, Clean;
    StrippedClean(CStr(h[0..100]));
  }

  /** The checksum does not depend on its own field. */
  lemma ChksumIgnoresField(h: string, s: string)
    requires |h| == HEADER_SIZE && |s| == CHKSUM_END - CHKSUM_START
    ensures Chksum(Put(h, CHKSUM_START, s)) == Chksum(h)
  {
    hide Sum;
    assert Blanked(Put(h, CHKSUM_START, s)) == Blanked(h);
  }

  lemma {:induction false} SumUpdate(s: string, i: nat, c: char)
    requires i < |s|
    ensures Sum(s[i := c]) + s[i] as int == Sum(s) + c as int
  {
    var k := |s| - 1;
    var t := s[i := c];
    if i == k {
      assert t[..k] == s[..k];
    } else {
      SumUpdate(s[..k], i, c);
      assert t[..k] == s[..k][i := c];
    }
  }

  /** A header of which any one byte was changed, outside the checksum field, is refused. */
  lemma ChangeIsDetected(h: string, i: nat, c: char)
    requires IsHeader(h) && Parse(h).Entry?
    requires i < HEADER_SIZE && !(CHKSUM_START <= i < CHKSUM_END) && c != h[i] && c as int < 256
    ensures Parse(h[i := c]).Failed?
  {
    var h' := h[i := c];
    hide ParseOctal, Stripped, CStr, Chksum, AllZeros;
    ChksumChanges(h, i, c);
    assert h'[CHKSUM_START..CHKSUM_END] == h[CHKSUM_START..CHKSUM_END];
    NotAllZeros(h, h', i);
  }

  lemma ChksumChanges(h: string, i: nat, c: char)
    requires |h| == HEADER_SIZE && i < HEADER_SIZE && !(CHKSUM_START <= i < CHKSUM_END) && c != h[i]
    ensures Chksum(h[i := c]) != Chksum(h)
  {
    hide Sum;
    assert Blanked(h[i := c]) == Blanked(h)[i := c];
    BlankedAt(h, i);
    SumUpdate(Blanked(h), i, c);
  }

  lemma NotAllZeros(h: string, h': string, i: nat)
    requires |h| == HEADER_SIZE && |h'| == HEADER_SIZE && i < HEADER_SIZE && h[257..263] == MAGIC + ['\0']
    requires forall j | 0 <= j < HEADER_SIZE && j != i :: h'[j] == h[j]
    ensures !AllZeros(h')
  {
    assert h[257] == h[257..263][0] == 'u' && h[258] == h[257..263][1] == 's';
    assert h'[257] != '\0' || h'[258] != '\0';
  }

  /** The fields of a header that ustar_make_header composed. */
  lemma HeaderFields(name: string, t: FileType, size: int)
    requires IsInt(size) && CString(name) && |name| <= 99
    ensures var h := HeaderOf(name, t, size);
      && h[0..|name| + 1] == name + ['\0'] && h[99] == '\0' && h[345] == '\0'
      && h[124..136] == OctalField(Unsigned(size), 11) + ['\0']
      && h[156] == TypeFlag(t) && h[257..263] == MAGIC + ['\0'] && h[263..265] == VERSION
      && ParseOctal(h[CHKSUM_START..CHKSUM_END]) == Some(Chksum(h))
  {
    var u := Unsummed(name, t, size);
    ChksumField(name, t, size);
    UnsummedFields(name, t, size);
    var text := Terminated(OctalField(Chksum(u), 7), 8);
    hide Put, Unsummed, OctalField, ParseOctal, Chksum, Terminated, CString;
    PutOut(u, CHKSUM_START, text, 0, |name| + 1);
    PutOut(u, CHKSUM_START, text, 99, 100);
    PutOut(u, CHKSUM_START, text, 345, 346);
    PutOut(u, CHKSUM_START, text, 124, 136);
    PutOut(u, CHKSUM_START, text, 156, 157);
    PutOut(u, CHKSUM_START, text, 257, 263);
    PutOut(u, CHKSUM_START, text, 263, 265);
    var h := Put(u, CHKSUM_START, text);
    OneChar(h, u, 99);
    OneChar(h, u, 345);
    OneChar(h, u, 156);
  }

  lemma OneChar(h: string, u: string, i: nat)
    requires i < |h| && i < |u| && h[i..i + 1] == u[i..i + 1]
    ensures h[i] == u[i]
  {
    assert h[i] == h[i..i + 1][0] == u[i..i + 1][0];
  }

  lemma ChksumField(name: string, t: FileType, size: int)
    requires IsInt(size) && CString(name)
    ensures var h := HeaderOf(name, t, size);
      && |Terminated(OctalField(Chksum(Unsummed(name, t, size)), 7), 8)| == 8
      && ParseOctal(h[CHKSUM_START..CHKSUM_END]) == Some(Chksum(h))
  {
    var u := Unsummed(name, t, size);
    UnsummedIsHeader(name, t, size);
    OctalPowers();
    hide Unsummed, OctalField, ParseOctal, Chksum, Pow2, IsHeader, Put;
    OctalFieldIs(Chksum(u), 7);
    OctalRoundTrip(Chksum(u), 7);
    var text := OctalField(Chksum(u), 7) + ['\0'];
    ChksumIgnoresField(u, text);
    PutIn(u, CHKSUM_START, text);
  }

  lemma UnsummedFields(name: string, t: FileType, size: int)
    requires IsInt(size) && CString(name) && |name| <= 99
    ensures var h := Unsummed(name, t, size);
      && h[0..|name| + 1] == name + ['\0'] && h[99] == '\0' && h[345] == '\0'
      && h[124..136] == OctalField(Unsigned(size), 11) + ['\0']
      && h[156] == TypeFlag(t) && h[257..263] == MAGIC + ['\0'] && h[263..265] == VERSION
  {
    hide Unsummed, OctalField, Items, CString;
    NameField(name, t, size);
    SizeField(name, t, size);
    OtherFields(name, t, size);
    EmptyField(name, t, size, 345);
  }

  lemma ItemReads(name: string, t: FileType, size: int, i: nat)
    requires IsInt(size) && i < |Items(name, t, size)|
    ensures var f := Items(name, t, size)[i];
      f.ofs + |f.text| <= HEADER_SIZE && Unsummed(name, t, size)[f.ofs..f.ofs + |f.text|] == f.text
  {
    hide Layout, Fits, Items;
    HeaderFits(name, t, size);
    LayoutReads(Repeat('\0', HEADER_SIZE), Items(name, t, size), i);
  }

  lemma NameField(name: string, t: FileType, size: int)
    requires IsInt(size) && |name| <= 99
    ensures Unsummed(name, t, size)[0..|name| + 1] == name + ['\0']
    ensures Unsummed(name, t, size)[99] == '\0'
  {
    hide Unsummed, OctalField;
    var h := Unsummed(name, t, size);
    ItemReads(name, t, size, 0);
    if |name| == 99 {
      assert h[99] == h[0..100][99];
    } else {
      EmptyField(name, t, size, 99);
    }
  }

  lemma SizeField(name: string, t: FileType, size: int)
    requires IsInt(size)
    ensures Unsummed(name, t, size)[124..136] == OctalField(Unsigned(size), 11) + ['\0']
  {
    OctalPowers();
    hide Unsummed, OctalField, Pow2, Eval;
    OctalFieldIs(Unsigned(size), 11);
    ItemReads(name, t, size, 4);
  }

  lemma OtherFields(name: string, t: FileType, size: int)
    requires IsInt(size)
    ensures var h := Unsummed(name, t, size);
      h[156] == TypeFlag(t) && h[257..263] == MAGIC + ['\0'] && h[263..265] == VERSION
  {
    hide Unsummed, OctalField;
    var h := Unsummed(name, t, size);
    assert |MAGIC| == 5 && |VERSION| == 2;
    ItemReads(name, t, size, 6);
    ItemReads(name, t, size, 7);
    ItemReads(name, t, size, 8);
    assert h[156] == h[156..157][0];
  }

  /** Places that no item covers stay null. */
  lemma EmptyField(name: string, t: FileType, size: int, x: nat)
    requires IsInt(size) && |name| <= 99 && (x == 345 || x == 99 > |name|)
    ensures Unsummed(name, t, size)[x] == '\0'
  {
    hide Layout, Fits, OctalField;
    HeaderFits(name, t, size);
    LayoutKeeps(Repeat('\0', HEADER_SIZE), Items(name, t, size), x);
  }

  /** Outside the checksum field the header is as it was filled in. */
  lemma OutsideChksum(name: string, t: FileType, size: int, a: nat, b: nat)
    requires IsInt(size) && CString(name) && a <= b <= 512 && (b <= 148 || 156 <= a)
    ensures HeaderOf(name, t, size)[a..b] == Unsummed(name, t, size)[a..b]
  {
    hide Unsummed, OctalField, Chksum, Put, Terminated, CString;
    ChksumField(name, t, size);
    var u := Unsummed(name, t, size);
    PutOut(u, CHKSUM_START, Terminated(OctalField(Chksum(u), 7), 8), a, b);
  }

  lemma OctalItem(name: string, t: FileType, size: int, i: nat, a: nat, v: nat, w: nat)
    requires IsInt(size) && CString(name) && 0 < w && v < Pow2(3 * w)
    requires i < |Items(name, t, size)| && Items(name, t, size)[i] == Item(a, Terminated(OctalField(v, w), w + 1))
    requires a + w + 1 <= 148
    ensures var h := HeaderOf(name, t, size);
      AllOctal(h[a..a + w]) && Eval(h[a..a + w], 8) == v && h[a + w] == '\0'
  {
    hide Items, Unsummed, HeaderOf, OctalField, Pow2, CString, Eval, AllOctal;
    var h := HeaderOf(name, t, size);
    OctalFieldIs(v, w);
    ItemReads(name, t, size, i);
    OutsideChksum(name, t, size, a, a + w + 1);
    SliceEnds(h, a, OctalField(v, w));
  }

  lemma SliceEnds(h: string, a: nat, f: string)
    requires a + |f| < |h| && h[a..a + |f| + 1] == f + ['\0']
    ensures h[a..a + |f|] == f && h[a + |f|] == '\0'
  {
    var s := h[a..a + |f| + 1];
    assert h[a..a + |f|] == s[..|f|] && h[a + |f|] == s[|f|];
  }

  lemma MadeChksum(name: string, t: FileType, size: int)
    requires IsInt(size) && CString(name)
    ensures var h := HeaderOf(name, t, size); ParseOctal(h[148..156]) == Some(Sum(h[..148] + "        " + h[156..]))
  {
    hide HeaderOf, Unsummed, OctalField, ParseOctal, Sum, Chksum, Terminated, CString;
    ChksumField(name, t, size);
    ChksumIs(HeaderOf(name, t, size));
  }

  /** The sum of all bytes, those of the checksum field read as spaces. */
  lemma ChksumIs(h: string)
    requires |h| == 512
    ensures Chksum(h) == Sum(h[..148] + "        " + h[156..])
  {
    hide Sum;
    assert Repeat(' ', 8) == "        ";
  }

  /** The numbers in a made header, each in octal digits and ended by a null: the mode, the
      size, the time and the checksum of the whole. */
  lemma MadeNumbers(name: string, t: FileType, size: int)
    requires IsInt(size) && CString(name)
    ensures var h := HeaderOf(name, t, size);
      && AllOctal(h[100..107]) && h[107] == '\0'
      && Eval(h[100..107], 8) == (if t == Regular then 6 * 64 + 4 * 8 + 4 else 7 * 64 + 5 * 8 + 5)
      && AllOctal(h[124..135]) && h[135] == '\0'
      && Eval(h[124..135], 8) == (if size >= 0 then size else 0x1_0000_0000 + size)
      && AllOctal(h[136..147]) && h[147] == '\0' && Eval(h[136..147], 8) == 1136102400
      && ParseOctal(h[148..156]) == Some(Sum(h[..148] + "        " + h[156..]))
  {
    hide Unsummed, HeaderOf, OctalField, Pow2, CString, Eval, AllOctal, ParseOctal, Sum, Terminated;
    OctalPowers();
    MadeChksum(name, t, size);
    OctalItem(name, t, size, 1, 100, Mode(t), 7);
    OctalItem(name, t, size, 4, 124, Unsigned(size), 11);
    OctalItem(name, t, size, 5, 136, MTIME, 11);
  }

  lemma TextItem(name: string, t: FileType, size: int, i: nat, f: Item)
    requires IsInt(size) && CString(name) && i < |Items(name, t, size)| && Items(name, t, size)[i] == f
    requires f.ofs + |f.text| <= 148 || 156 <= f.ofs
    ensures f.ofs + |f.text| <= 512 && HeaderOf(name, t, size)[f.ofs..f.ofs + |f.text|] == f.text
  {
    hide Items, Unsummed, HeaderOf, CString;
    ItemReads(name, t, size, i);
    OutsideChksum(name, t, size, f.ofs, f.ofs + |f.text|);
  }

  /** The texts in a made header. */
  lemma MadeTexts(name: string, t: FileType, size: int)
    requires IsInt(size) && CString(name) && |name| <= 99
    ensures var h := HeaderOf(name, t, size);
      && h[..|name| + 1] == name + "\0"
      && h[108..116] == "0000000\0" && h[116..124] == "0000000\0"
      && h[156] == (if t == Regular then '0' else '5')
      && h[257..263] == "ustar\0" && h[263..265] == "00"
      && h[265..270] == "root\0" && h[297..302] == "root\0"
  {
    hide Unsummed, HeaderOf, OctalField, CString;
    var h := HeaderOf(name, t, size);
    assert |VERSION| == 2;
    TextItem(name, t, size, 0, Item(0, name + "\0"));
    TextItem(name, t, size, 2, Item(108, "0000000\0"));
    TextItem(name, t, size, 3, Item(116, "0000000\0"));
    TextItem(name, t, size, 6, Item(156, [TypeFlag(t)]));
    TextItem(name, t, size, 7, Item(257, "ustar\0"));
    TextItem(name, t, size, 8, Item(263, "00"));
    TextItem(name, t, size, 9, Item(265, "root\0"));
    TextItem(name, t, size, 10, Item(297, "root\0"));
    assert h[156] == h[156..157][0];
  }

  /** The rest of a made header is null. */
  lemma MadeRest(name: string, t: FileType, size: int, x: nat)
    requires IsInt(size) && CString(name) && |name| <= 99
    requires |name| <= x < 100 || 157 <= x < 257 || 269 <= x < 297 || 301 <= x < 512
    ensures HeaderOf(name, t, size)[x] == '\0'
  {
    hide Unsummed, HeaderOf, OctalField, CString;
    var h := HeaderOf(name, t, size);
    if x == |name| || x == 269 || x == 301 {
      MadeTexts(name, t, size);
      assert h[|name|] == h[..|name| + 1][|name|] && h[269] == h[265..270][4] && h[301] == h[297..302][4];
    } else {
      OutsideChksum(name, t, size, x, x + 1);
      OneChar(h, Unsummed(name, t, size), x);
      OutsideItems(name, t, size, x);
    }
  }

  lemma OutsideItems(name: string, t: FileType, size: int, x: nat)
    requires IsInt(size) && |name| <= 99
    requires |name| < x < 100 || 157 <= x < 257 || 270 <= x < 297 || 302 <= x < 512
    ensures Unsummed(name, t, size)[x] == '\0'
  {
    hide Layout, Fits, OctalField;
    HeaderFits(name, t, size);
    assert |VERSION| == 2 && |ROOT| == 4 && |MAGIC| == 5;
    LayoutKeeps(Repeat('\0', HEADER_SIZE), Items(name, t, size), x);
  }

  /** A header with all its fields in order is read as they say. */
  lemma ParseMade(h: string, name: string, t: FileType, n: nat)
    requires |h| == HEADER_SIZE && h[257..263] == MAGIC + ['\0'] && h[263..265] == VERSION
    requires ParseOctal(h[CHKSUM_START..CHKSUM_END]) == Some(Chksum(h))
    requires h[99] == '\0' && h[345] == '\0' && h[156] == TypeFlag(t)
    requires CStr(h[0..100]) == name && Stripped(name) == name && ParseOctal(h[124..136]) == Some(n)
    ensures Parse(h) ==
      if t == Directory then Entry(name, Directory, 0)
      else if n <= INT_MAX then Entry(name, Regular, n)
      else Failed(FileTooLarge)
  {
    hide ParseOctal, Chksum, Stripped, CStr, AllZeros;
    NotAllZeros(h, h, 0);
  }

  /** Reading back a header that was made gives the stripped name, the type and the size;
      a directory has size zero, and a negative size, which is stored as an unsigned
      number, is refused as too large. */
  lemma RoundTrip(fileName: string, t: FileType, size: int)
    requires CString(fileName) && IsInt(size) && |Stripped(fileName)| <= 99
    ensures Parse(HeaderOf(Stripped(fileName), t, size)) ==
      if t == Directory then Entry(Stripped(fileName), Directory, 0)
      else if size >= 0 then Entry(Stripped(fileName), Regular, size)
      else Failed(FileTooLarge)
  {
    hide HeaderOf, Stripped, OctalField, ParseOctal, Chksum, Pow2, CStr, CString, Clean, IsSuffix, Parse;
    var name := Stripped(fileName);
    StrippedClean(fileName);
    StrippedIdempotent(fileName);
    HeaderFields(name, t, size);
    var h := HeaderOf(name, t, size);
    OctalPowers();
    OctalRoundTrip(Unsigned(size), 11);
    StoredName(h, name);
    ParseMade(h, name, t, Unsigned(size));
  }

  lemma StoredName(h: string, name: string)
    requires |h| == HEADER_SIZE && CString(name) && |name| <= 99 && h[0..|name| + 1] == name + ['\0']
    ensures CStr(h[0..100]) == name
  {
    var rest := h[|name| + 1..100];
    assert h[0..100] == h[0..|name| + 1] + rest;
    CStrOf(name, rest);
  }
}
