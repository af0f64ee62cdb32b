/** A bitmap packed into 32-bit words, proved to behave as a sequence of bits. */
module Bitmaps {
  import opened Options
  import opened Bits

  const ELEM_BITS: nat := 32

  function ElemIdx(bitIdx: nat): nat { bitIdx / ELEM_BITS }

  function BitMask(bitIdx: nat): nat { Pow2(bitIdx % ELEM_BITS) }

  function ElemCnt(bitCnt: nat): nat { (bitCnt + ELEM_BITS - 1) / ELEM_BITS }

  function ByteCnt(bitCnt: nat): nat { 4 * ElemCnt(bitCnt) }

  /** bitmap_buf_size: the header is a count and a pointer. */
  function BufSize(bitCnt: nat): nat { 8 + ByteCnt(bitCnt) }

  // ----- Words

  lemma MaskBound(k: nat)
    ensures BitMask(k) < Pow2(ELEM_BITS)
  {
    PowMonotone(k % ELEM_BITS, ELEM_BITS);
  }

  lemma MarkWord(x: nat, k: nat, j: nat)
    requires x < Pow2(ELEM_BITS)
    ensures Or(x, BitMask(k)) < Pow2(ELEM_BITS)
    ensures Bit(Or(x, BitMask(k)), j) <==> j == k % ELEM_BITS || Bit(x, j)
  {
    MaskBound(k);
    OrBound(x, BitMask(k), ELEM_BITS);
    OrBit(x, BitMask(k), j);
    PowBit(k % ELEM_BITS, j);
  }

  lemma ResetWord(x: nat, k: nat, j: nat)
    requires x < Pow2(ELEM_BITS) && j < ELEM_BITS
    ensures BitMask(k) < Pow2(ELEM_BITS)
    ensures And(x, Not(BitMask(k), ELEM_BITS)) < Pow2(ELEM_BITS)
    ensures Bit(And(x, Not(BitMask(k), ELEM_BITS)), j) <==> j != k % ELEM_BITS && Bit(x, j)
  {
    MaskBound(k);
    var mask := Not(BitMask(k), ELEM_BITS);
    AndBound(x, mask);
    AndBit(x, mask, j);
    NotBit(BitMask(k), ELEM_BITS, j);
    PowBit(k % ELEM_BITS, j);
  }

  lemma FlipWord(x: nat, k: nat, j: nat)
    requires x < Pow2(ELEM_BITS)
    ensures Xor(x, BitMask(k)) < Pow2(ELEM_BITS)
    ensures Bit(Xor(x, BitMask(k)), j) <==> (j == k % ELEM_BITS) != Bit(x, j)
  {
    MaskBound(k);
    XorBound(x, BitMask(k), ELEM_BITS);
    XorBit(x, BitMask(k), j);
    PowBit(k % ELEM_BITS, j);
  }

  lemma TestWord(x: nat, k: nat)
    ensures And(x, BitMask(k)) != 0 <==> Bit(x, k % ELEM_BITS)
  {
    var j := k % ELEM_BITS;
    AndBit(x, BitMask(k), j);
    PowBit(j, j);
    ZeroBit(j);
    if And(x, BitMask(k)) != 0 {
      SomeBit(And(x, BitMask(k)));
      var i :| Bit(And(x, BitMask(k)), i);
      AndBit(x, BitMask(k), i);
      PowBit(j, i);
    }
  }

  lemma {:induction false} SomeBit(x: nat)
    requires x != 0
    ensures exists i: nat :: Bit(x, i)
  {
    if x % 2 == 1 {
      assert Bit(x, 0);
    } else {
      SomeBit(x / 2);
      var i: nat :| Bit(x / 2, i);
      assert Bit(x, i + 1);
    }
  }

  // ----- Ranges of bits

  /** Every bit of s from i up to i + cnt is v. */
  ghost predicate AllAre(s: seq<bool>, i: nat, cnt: nat, v: bool)
    requires i + cnt <= |s|
  {
    forall k :: i <= k < i + cnt ==> s[k] == v
  }

  /** s with the bits from i up to i + cnt set to v. */
  ghost function Filled(s: seq<bool>, i: nat, cnt: nat, v: bool): seq<bool>
    requires i + cnt <= |s|
  {
    seq(|s|, k requires 0 <= k < |s| => if i <= k < i + cnt then v else s[k])
  }

  ghost function CountOf(s: seq<bool>, v: bool): nat {
    if s == [] then 0 else CountOf(s[..|s| - 1], v) + ToNat(s[|s| - 1] == v)
  }

  lemma CountNone(v: bool)
    ensures CountOf([], v) == 0
  {
  }

  lemma CountStep(s: seq<bool>, start: nat, i: nat, v: bool)
    requires start + i < |s|
    ensures CountOf(s[start..start + i + 1], v) == CountOf(s[start..start + i], v) + ToNat(s[start + i] == v)
  {
    var t := s[start..start + i + 1];
    assert t[..|t| - 1] == s[start..start + i];
  }

  /** The count is the size of a set of places. */
  lemma {:induction false} CountSize(s: seq<bool>, v: bool)
    ensures CountOf(s, v) == |set i | 0 <= i < |s| && s[i] == v|
  {
    if s != [] {
      var k := |s| - 1;
      CountSize(s[..k], v);
      var rest := set i | 0 <= i < |s[..k]| && s[..k][i] == v;
      assert (set i | 0 <= i < |s| && s[i] == v) == if s[k] == v then rest + {k} else rest;
    }
  }

  class Bitmap {
    const bitCnt: nat
    const bits: array<nat>

    ghost predicate Valid()
      reads this, bits
    {
      && bits.Length == ElemCnt(bitCnt)
      && (forall i :: 0 <= i < bits.Length ==> bits[i] < Pow2(ELEM_BITS))
    }

    ghost predicate BitAt(i: nat)
      requires Valid() && i < bitCnt
      reads this, bits
    {
      Bit(bits[ElemIdx(i)], i % ELEM_BITS)
    }

    ghost function Contents(): (s: seq<bool>)
      requires Valid()
      reads this, bits
      ensures |s| == bitCnt
    {
      seq(bitCnt, i requires 0 <= i < bitCnt && Valid() reads this, bits => BitAt(i))
    }

    /** bitmap_create: all bits are false. */
    constructor (bitCnt: nat)
      ensures Valid() && this.bitCnt == bitCnt && fresh(bits)
      ensures Contents() == seq(bitCnt, _ => false)
    {
      PowPositive(ELEM_BITS);
      this.bitCnt := bitCnt;
      bits := new nat[ElemCnt(bitCnt)](_ => 0);
      new;
      forall i | 0 <= i < bitCnt
        ensures !BitAt(i)
      {
        ZeroBit(i % ELEM_BITS);
      }
    }

    method Mark(bitIdx: nat)
      requires Valid() && bitIdx < bitCnt
      modifies bits
      ensures Valid() && Contents() == old(Contents())[bitIdx := true]
    {
      var idx, mask := ElemIdx(bitIdx), BitMask(bitIdx);
      ghost var x := bits[idx];
      MarkWord(x, bitIdx, 0);
      bits[idx] := Or(bits[idx], mask);
      forall i | 0 <= i < bitCnt
        ensures BitAt(i) == if i == bitIdx then true else old(BitAt(i))
      {
        if ElemIdx(i) == idx { MarkWord(x, bitIdx, i % ELEM_BITS); }
      }
    }

    method Reset(bitIdx: nat)
      requires Valid() && bitIdx < bitCnt
      modifies bits
      ensures Valid() && Contents() == old(Contents())[bitIdx := false]
    {
      ghost var x := bits[ElemIdx(bitIdx)];
      ResetWord(x, bitIdx, 0);
      var idx, mask := ElemIdx(bitIdx), BitMask(bitIdx);
      bits[idx] := And(bits[idx], Not(mask, ELEM_BITS));
      forall i | 0 <= i < bitCnt
        ensures BitAt(i) == if i == bitIdx then false else old(BitAt(i))
      {
        if ElemIdx(i) == idx { ResetWord(x, bitIdx, i % ELEM_BITS); }
      }
    }

    method Flip(bitIdx: nat)
      requires Valid() && bitIdx < bitCnt
      modifies bits
      ensures Valid() && Contents() == old(Contents())[bitIdx := !old(Contents())[bitIdx]]
    {
      var idx, mask := ElemIdx(bitIdx), BitMask(bitIdx);
      ghost var x := bits[idx];
      FlipWord(x, bitIdx, 0);
      bits[idx] := Xor(bits[idx], mask);
      forall i | 0 <= i < bitCnt
        ensures BitAt(i) == if i == bitIdx then !old(BitAt(i)) else old(BitAt(i))
      {
        if ElemIdx(i) == idx { FlipWord(x, bitIdx, i % ELEM_BITS); }
      }
    }

    method Test(idx: nat) returns (value: bool)
      requires Valid() && idx < bitCnt
      ensures value == Contents()[idx]
    {
      TestWord(bits[ElemIdx(idx)], idx);
      value := And(bits[ElemIdx(idx)], BitMask(idx)) != 0;
    }

    method Set(idx: nat, value: bool)
      requires Valid() && idx < bitCnt
      modifies bits
      ensures Valid() && Contents() == old(Contents())[idx := value]
    {
      if value {
        Mark(idx);
      } else {
        Reset(idx);
      }
    }

    method SetMultiple(start: nat, cnt: nat, value: bool)
      requires Valid() && start + cnt <= bitCnt
      modifies bits
      ensures Valid() && Contents() == Filled(old(Contents()), start, cnt, value)
    {
      var i := 0;
      while i < cnt
        invariant i <= cnt && Valid()
        invariant Contents() == Filled(old(Contents()), start, i, value)
      {
        Set(start + i, value);
        i := i + 1;
      }
    }

    method Count(start: nat, cnt: nat, value: bool) returns (valueCnt: nat)
      requires Valid() && start + cnt <= bitCnt
      ensures valueCnt == CountOf(Contents()[start..start + cnt], value)
    {
      hide CountOf;
      assert CountOf([], value) == 0 by { CountNone(value); }
      assert Contents()[start..start] == [];
      valueCnt := 0;
      var i := 0;
      while i < cnt
        invariant i <= cnt && valueCnt == CountOf(Contents()[start..start + i], value)
      {
        var b := Test(start + i);
        CountStep(Contents(), start, i, value);
        if b == value {
          valueCnt := valueCnt + 1;
        }
        i := i + 1;
      }
    }

    method Contains(start: nat, cnt: nat, value: bool) returns (found: bool)
      requires Valid() && start + cnt <= bitCnt
      ensures found <==> !AllAre(Contents(), start, cnt, !value)
    {
      var i := 0;
      while i < cnt
        invariant i <= cnt && AllAre(Contents(), start, i, !value)
      {
        var b := Test(start + i);
        if b == value {
          assert Contents()[start + i] == value;
          return true;
        }
        i := i + 1;
      }
      found := false;
    }

    /** The first group of cnt bits at or after start that all are value; None for
        BITMAP_ERROR. */
    method Scan(start: nat, cnt: nat, value: bool) returns (r: Option<nat>)
      requires Valid() && start <= bitCnt
      ensures r.Some? ==> start <= r.value && r.value + cnt <= bitCnt && AllAre(Contents(), r.value, cnt, value)
      ensures forall i :: start <= i && i + cnt <= bitCnt && (r.Some? ==> i < r.value)
                ==> !AllAre(Contents(), i, cnt, value)
      ensures cnt == 0 ==> r == Some(start)
    {
      assert cnt == 0 ==> AllAre(Contents(), start, 0, value);
      if cnt <= bitCnt {
        var last := bitCnt - cnt;
        var i := start;
        while i <= last
          invariant start <= i
          invariant forall k :: start <= k < i && k + cnt <= bitCnt ==> !AllAre(Contents(), k, cnt, value)
        {
          var bad := Contains(i, cnt, !value);
          if !bad {
            return Some(i);
          }
          i := i + 1;
        }
      }
      r := None;
    }

    method ScanAndFlip(start: nat, cnt: nat, value: bool) returns (r: Option<nat>)
      requires Valid() && start <= bitCnt
      modifies bits
      ensures Valid()
      ensures r.Some? ==>
        && start <= r.value && r.value + cnt <= bitCnt && AllAre(old(Contents()), r.value, cnt, value)
        && Contents() == Filled(old(Contents()), r.value, cnt, !value)
      ensures r == None ==> Contents() == old(Contents())
      ensures forall i :: start <= i && i + cnt <= bitCnt && (r.Some? ==> i < r.value)
                ==> !AllAre(old(Contents()), i, cnt, value)
      ensures cnt == 0 ==> r == Some(start)
    {
      r := Scan(start, cnt, value);
      if r.Some? {
        SetMultiple(r.value, cnt, !value);
      }
    }
  }
}
