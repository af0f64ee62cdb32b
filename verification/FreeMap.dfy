/** Numbers and bitmaps as bytes on disk. */
module FreeMaps {
  import opened Bits
  import opened Bitmaps
  import opened FileIo
  import opened Integers

  /** A 32-bit number, least significant byte first. */
  function Le32(x: nat): (s: seq<Byte>)
    requires x < 0x1_0000_0000
    ensures |s| == 4
  {
    [x % 256, x / 256 % 256, x / 65536 % 256, x / 16777216]
  }

  function FromLe32(s: seq<Byte>): nat
    requires |s| == 4
  {
    (s[0] as int) + 256 * (s[1] as int) + 65536 * (s[2] as int) + 16777216 * (s[3] as int)
  }

  lemma Le32RoundTrip(x: nat)
    requires x < 0x1_0000_0000
    ensures FromLe32(Le32(x)) == x
  {
    var a := x / 256;
    var b := a / 256;
    DivDiv(x, 256, 256);
    DivDiv(x, 65536, 256);
    assert x == 256 * a + x % 256 && a == 256 * b + a % 256 && b == 256 * (b / 256) + b % 256;
  }

  predicate WordsOk(words: seq<nat>) {
    forall i | 0 <= i < |words| :: words[i] < 0x1_0000_0000
  }

  /** The words of a bitmap as bitmap_write stores them. */
  function Pack(words: seq<nat>): (s: seq<Byte>)
    requires WordsOk(words)
    ensures |s| == 4 * |words|
  {
    if words == [] then [] else Pack(words[..|words| - 1]) + Le32(words[|words| - 1])
  }

  /** ... and as bitmap_read reads them. */
  function Unpack(s: seq<Byte>): (words: seq<nat>)
    requires |s| % 4 == 0
    ensures 4 * |words| == |s|
  {
    if s == [] then [] else Unpack(s[..|s| - 4]) + [FromLe32(s[|s| - 4..])]
  }

  /** A bitmap that was written is read back as it was. */
  lemma {:induction false} PackRoundTrip(words: seq<nat>)
    requires WordsOk(words)
    ensures Unpack(Pack(words)) == words
  {
    hide Le32, FromLe32;
    if words != [] {
      var k := |words| - 1;
      var s := Pack(words);
      PackRoundTrip(words[..k]);
      Le32RoundTrip(words[k]);
      assert s[..|s| - 4] == Pack(words[..k]) && s[|s| - 4..] == Le32(words[k]);
    }
  }

  /** The bits that n words hold. */
  ghost function BitsOf(words: seq<nat>, bitCnt: nat): (s: seq<bool>)
    requires |words| == ElemCnt(bitCnt)
    ensures |s| == bitCnt
  {
    seq(bitCnt, i requires 0 <= i < bitCnt => Bit(words[ElemIdx(i)], i % ELEM_BITS))
  }

  /** The words of a bitmap fit in 32 bits and hold its contents. */
  lemma BitmapWords(b: Bitmap)
    requires b.Valid()
    ensures WordsOk(b.bits[..]) && |b.bits[..]| == ElemCnt(b.bitCnt)
    ensures BitsOf(b.bits[..], b.bitCnt) == b.Contents()
  {
    WordSize();
  }

  lemma WordSize()
    ensures Pow2(ELEM_BITS) == 0x1_0000_0000
  {
    assert Pow2(8) == 256;
    PowAdd(8, 8);
    PowAdd(16, 16);
  }

  /** last_mask: the bits of the last word that belong to the bitmap. */
  function LastMask(bitCnt: nat): nat {
    var lastBits := bitCnt % ELEM_BITS;
    PowPositive(lastBits);
    PowPositive(ELEM_BITS);
    if lastBits == 0 then Pow2(ELEM_BITS) - 1 else Pow2(lastBits) - 1
  }

  /** The mask keeps the bits that it is for. */
  lemma MaskKeeps(x: nat, bitCnt: nat, j: nat)
    requires j < ELEM_BITS && (bitCnt % ELEM_BITS == 0 || j < bitCnt % ELEM_BITS)
    ensures Bit(And(x, LastMask(bitCnt)), j) == Bit(x, j)
  {
    var k := if bitCnt % ELEM_BITS == 0 then ELEM_BITS else bitCnt % ELEM_BITS;
    PowPositive(k);
    assert LastMask(bitCnt) == Not(0, k);
    AndBit(x, LastMask(bitCnt), j);
    NotBit(0, k, j);
    ZeroBit(j);
  }

  /** bitmap_read, once the bytes are there. */
  method Load(b: Bitmap, words: seq<nat>)
    requires b.Valid() && 0 < b.bitCnt && |words| == ElemCnt(b.bitCnt) && WordsOk(words)
    modifies b.bits
    ensures b.Valid() && b.Contents() == BitsOf(words, b.bitCnt)
  {
    WordSize();
    var n := b.bits.Length;
    forall i | 0 <= i < n {
      b.bits[i] := words[i];
    }
    AndBound(words[n - 1], LastMask(b.bitCnt));
    b.bits[n - 1] := And(b.bits[n - 1], LastMask(b.bitCnt));
    forall i: nat | i < b.bitCnt
      ensures Bit(b.bits[ElemIdx(i)], i % ELEM_BITS) == Bit(words[ElemIdx(i)], i % ELEM_BITS)
    {
      LastBits(b.bitCnt, i);
      if ElemIdx(i) == n - 1 {
        MaskKeeps(words[n - 1], b.bitCnt, i % ELEM_BITS);
      }
    }
    assert forall i: nat | i < b.bitCnt :: b.BitAt(i) == BitsOf(words, b.bitCnt)[i];
  }

  lemma LastBits(bitCnt: nat, i: nat)
    requires i < bitCnt
    ensures ElemIdx(i) < ElemCnt(bitCnt)
    ensures ElemIdx(i) == ElemCnt(bitCnt) - 1 ==> bitCnt % ELEM_BITS == 0 || i % ELEM_BITS < bitCnt % ELEM_BITS
  {
  }
}
