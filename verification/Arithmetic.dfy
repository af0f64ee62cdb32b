/** 64-bit division out of 32-bit divides, with the machine's word sizes explicit. */
module Arithmetic {
  import opened Bits
  import opened Integers
  import opened Options

  const B32 := 0x1_0000_0000
  const B64 := 0x1_0000_0000_0000_0000

  type U64 = x: int | 0 <= x < 0x1_0000_0000_0000_0000
  type I64 = x: int | -0x8000_0000_0000_0000 <= x < 0x8000_0000_0000_0000
  type I32 = x: int | -0x8000_0000 <= x < 0x8000_0000

  // ----- Powers of two

  lemma Pow2Values()
    ensures Pow2(1) == 2 && Pow2(2) == 4 && Pow2(4) == 16 && Pow2(8) == 256
    ensures Pow2(16) == 65536 && Pow2(31) == 0x8000_0000 && Pow2(32) == B32
  {
    PowAdd(4, 4);
    PowAdd(8, 8);
    PowAdd(16, 16);
    assert Pow2(32) == 2 * Pow2(31);
  }

  // ----- The pieces of udiv64

  /** The DIVL instruction; None is a divide error. */
  function Divl(n: U64, d: U32): (q: Option<U32>) {
    if d == 0 || n / d >= B32 then None else
      QuotientPositive(n, d);
      Some(n / d)
  }

  lemma ShiftMore(x: int, n: nat, k: nat)
    ensures x * Pow2(n) * Pow2(k) == x * Pow2(n + k)
  {
    PowAdd(n, k);
  }

  /** The number of leading zero bits of a nonzero word. */
  method Nlz(x: U32) returns (n: nat)
    requires x != 0
    ensures n <= 31 && 0x8000_0000 <= x * Pow2(n) < B32
  {
    Pow2Values();
    assert x * Pow2(0) == x;
    hide Pow2;
    n := 0;
    var y: int := x;
    if y <= 0x0000FFFF {
      ShiftMore(x, n, 16);
      n := n + 16;
      y := y * 65536;
    }
    if y <= 0x00FFFFFF {
      ShiftMore(x, n, 8);
      n := n + 8;
      y := y * 256;
    }
    if y <= 0x0FFFFFFF {
      ShiftMore(x, n, 4);
      n := n + 4;
      y := y * 16;
    }
    if y <= 0x3FFFFFFF {
      ShiftMore(x, n, 2);
      n := n + 2;
      y := y * 4;
    }
    if y <= 0x7FFFFFFF {
      ShiftMore(x, n, 1);
      n := n + 1;
    }
  }

  /** The estimate of the quotient: with d' the top bits of d, the quotient by d'
      is the true one or one more.  2p is the weight of the lowest bit kept. */
  lemma Estimate(n: U64, d: U64, dv: int, p: int)
    requires p > 0 && 0x8000_0000 <= dv && dv == d / (2 * p)
    ensures 2 * p * dv > 0
    ensures n / d <= n / (2 * p * dv) <= n / d + 1
  {
    var d' := 2 * p * dv;
    var k := n / d;
    QuotientBounds(d, 2 * p);
    assert dv * (2 * p) == d' && (dv + 1) * (2 * p) == d' + 2 * p;
    assert d' <= d <= d' + (2 * p - 1);
    MulLe(0x8000_0000, dv, 2 * p);
    assert d' >= B32 * p;
    EstimateSpread(n, d, d', p);
    QuotientBounds(n, d);
    QuotientBounds(n, d');
    EstimateLow(n, d, d');
    EstimateHigh(n, d, d');
  }

  lemma EstimateSpread(n: U64, d: int, d': int, p: int)
    requires p > 0 && d' >= B32 * p && d' <= d <= d' + (2 * p - 1)
    ensures n * (d - d') < d * d'
  {
    SquareBound(p);
    var s := p * p;
    MulLe(d - d', s, n);
    MulLt(n, B64, s);
    SquareProduct(d, d', p);
  }

  lemma SquareBound(p: int)
    requires p > 0
    ensures 2 * p - 1 <= p * p && p * p > 0
  {
    assert (p - 1) * (p - 1) == p * p - 2 * p + 1;
  }

  lemma SquareProduct(d: int, d': int, p: int)
    requires p > 0 && d >= B32 * p && d' >= B32 * p
    ensures B64 * (p * p) <= d * d'
  {
    var b := B32 * p;
    MulLe(b, d', b);
    MulLe(b, d, d');
    assert b * p == B32 * (p * p);
    assert b * b == B32 * (b * p);
  }

  lemma EstimateLow(n: int, d: int, d': int)
    requires n >= 0 && 0 < d' <= d
    ensures n / d <= n / d'
  {
    var k := n / d;
    QuotientBounds(n, d);
    QuotientBounds(n, d');
    QuotientPositive(n, d);
    MulLe(d', d, k);
    MulCancelLt(k, n / d' + 1, d');
  }

  lemma EstimateHigh(n: int, d: int, d': int)
    requires n >= 0 && 0 < d' <= d && n * (d - d') < d * d'
    ensures n / d' <= n / d + 1
  {
    var k := n / d;
    QuotientBounds(n, d);
    QuotientBounds(n, d');
    assert n * d < (k + 2) * d' * d by {
      assert n * d == n * d' + n * (d - d');
      assert n * d' + d * d' == (n + d) * d';
      assert n + d < (k + 2) * d by { assert (k + 2) * d == (k + 1) * d + d; }
      MulLt(n + d, (k + 2) * d, d');
      assert (k + 2) * d * d' == (k + 2) * d' * d;
    }
    MulCancelLt(n, (k + 2) * d', d);
    MulCancelLt(n / d', k + 2, d');
  }

  /** A divisor of one word: divide the high word, then the rest. */
  lemma ShortDivision(n: U64, d: U32)
    requires d > 0
    ensures var n1, n0 := n / B32, n % B32;
      && B32 * (n1 % d) + n0 < B64
      && (B32 * (n1 % d) + n0) / d < B32
      && n / d == (B32 * (n1 % d) + n0) / d + B32 * (n1 / d)
  {
    var n1, n0 := n / B32, n % B32;
    var r := B32 * (n1 % d) + n0;
    MulLe(n1 % d + 1, d, B32);
    assert r < d * B32;
    QuotientBounds(r, d);
    MulCancelLt(r / d, B32, d);
    var q := r / d + B32 * (n1 / d);
    assert n1 == d * (n1 / d) + n1 % d;
    assert n == B32 * (d * (n1 / d)) + r;
    assert B32 * (d * (n1 / d)) == (B32 * (n1 / d)) * d;
    assert q * d == (r / d) * d + (B32 * (n1 / d)) * d;
    assert (q + 1) * d == q * d + d;
    QuotientIs(n, d, q);
  }

  /** The shifted divisor is its top 32 bits, and dividing by it cannot trap.
      Shifting left by s and right by 32 is dividing by w = 2^(32 - s). */
  lemma TopBits(d: U64, t: int, w: int)
    requires t > 0 && w > 0 && t * w == B32 && 0x8000_0000 <= (d / B32) * t < B32
    ensures d * t < B64 && (d * t) / B32 == d / w
    ensures 0x8000_0000 <= d / w < B32
  {
    TopQuotient(d, t, w);
    var x := (d / B32) * t;
    QuotientBounds(d, B32);
    MulLe((d / B32) * B32, d, t);
    assert (d / B32) * B32 * t == x * B32;
    QuotientBounds(d * t, B32);
    MulCancelLt(x, d / w + 1, B32);
  }

  lemma NoTrap(n: U64, dv: int)
    requires dv >= 0x8000_0000
    ensures 0 <= (n / 2) / dv < B32
  {
    QuotientBounds(n / 2, dv);
    QuotientPositive(n / 2, dv);
    MulLe(0x8000_0000, dv, B32);
    MulCancelLt((n / 2) / dv, B32, dv);
  }

  lemma ThreeDivisions(n: int, dv: int, p: int)
    requires dv > 0 && p > 0
    ensures 2 * p * dv > 0 && ((n / 2) / dv) / p == n / (2 * p * dv)
  {
    DivDiv(n, 2, dv);
    DivDiv(n, 2 * dv, p);
    assert 2 * dv * p == 2 * p * dv;
  }

  lemma TopQuotient(d: U64, t: int, w: int)
    requires t > 0 && w > 0 && t * w == B32 && (d / B32) * t < B32
    ensures d * t < B64 && (d * t) / B32 == d / w && d / w < B32
  {
    QuotientBounds(d, B32);
    assert d * t < B64 by {
      assert d < (d / B32 + 1) * B32;
      assert (d / B32 + 1) * t <= B32 by { TopFits(d / B32, t, w); }
      MulLt(d, (d / B32 + 1) * B32, t);
      assert (d / B32 + 1) * B32 * t == ((d / B32 + 1) * t) * B32;
      MulLe((d / B32 + 1) * t, B32, B32);
    }
    var q := d / w;
    QuotientBounds(d, w);
    MulLe(q * w, d, t);
    MulLt(d, (q + 1) * w, t);
    assert q * w * t == q * B32 by { assert q * w * t == q * (t * w); }
    assert (q + 1) * w * t == (q + 1) * B32 by { assert (q + 1) * w * t == (q + 1) * (t * w); }
    QuotientIs(d * t, B32, q);
    MulCancelLt(q, B32, B32);
  }

  /** A multiple of t below a multiple of t is at least t below it. */
  lemma TopFits(x: int, t: int, w: int)
    requires t > 0 && x * t < t * w
    ensures (x + 1) * t <= t * w
  {
    MulCancelLt(x, w, t);
    MulLe(x + 1, w, t);
  }

  /** The correction step: subtracting one from the estimate too many or not. */
  lemma Correct(n: U64, d: U64, q: int)
    requires d > 0 && d <= n && n / d <= q <= n / d + 1
    ensures q >= 1 && 0 <= (q - 1) * d <= n
    ensures n / d == if n - (q - 1) * d < d then q - 1 else q
  {
    var k := n / d;
    QuotientBounds(n, d);
    MulCancelLt(1, k + 1, d);
    MulLe(q - 1, k, d);
    MulLe(0, q - 1, d);
    if q == k {
      assert (k + 1) * d == (k - 1) * d + 2 * d;
      assert k * d == (k - 1) * d + d;
    } else {
      assert (k + 1) * d == k * d + d;
    }
  }

  lemma ShiftWeights(s: nat)
    requires s <= 31
    ensures Pow2(s) > 0 && Pow2(31 - s) > 0 && Pow2(s) * (2 * Pow2(31 - s)) == B32
  {
    hide Pow2;
    PowPositive(s);
    PowPositive(31 - s);
    PowAdd(s, 31 - s);
    Pow2Values();
    DoubleProduct(Pow2(s), Pow2(31 - s));
  }

  lemma DoubleProduct(a: int, b: int)
    ensures a * (2 * b) == 2 * (a * b)
  {
  }

  /** The case of a divisor of more than one word, after Hacker's Delight. */
  method LongDivision(n: U64, d: U64) returns (r: Option<U64>)
    requires B32 <= d <= n
    ensures r == Some(n / d)
  {
    QuotientPositive(n, d);
    QuotientBounds(d, B32);
    var s := Nlz(d / B32);
    ShiftWeights(s);
    ghost var w := 2 * Pow2(31 - s);
    TopBits(d, Pow2(s), w);
    hide Pow2;
    var dv := (d * Pow2(s) % B64) / B32;
    NoTrap(n, dv);
    var q1 := Divl(n / 2, dv);
    if q1 == None {
      return None;
    }
    var q: int := q1.value / Pow2(31 - s);
    ThreeDivisions(n, dv, Pow2(31 - s));
    Estimate(n, d, dv, Pow2(31 - s));
    r := Corrected(n, d, q);
  }

  /** The last line of udiv64, in 64-bit arithmetic. */
  method Corrected(n: U64, d: U64, q: int) returns (r: Option<U64>)
    requires 0 < d <= n && n / d <= q <= n / d + 1
    ensures r == Some(n / d)
  {
    Correct(n, d, q);
    QuotientPositive(n, d);
    ModSmall(q - 1, B64);
    var p := (q - 1) % B64;
    var pd := p * d;
    ModSmall(pd, B64);
    ModSmall(n - pd, B64);
    var rest := (n - pd % B64) % B64;
    r := Some(if rest < d then p else q);
  }

  /** The case of a divisor of one word. */
  method ShortCase(n: U64, d0: U32) returns (r: Option<U64>)
    requires d0 > 0
    ensures r == Some(n / d0)
  {
    var n1, n0 := n / B32, n % B32;
    ShortDivision(n, d0);
    QuotientPositive(n, d0);
    QuotientPositive(n1, d0);
    var high, low := n1 / d0, n1 % d0;
    var rest: U64 := B32 * low + n0;
    var q := Divl(rest, d0);
    if q == None {
      return None;
    }
    ModSmall(n / d0, B64);
    r := Some((q.value + B32 * high) % B64);
  }

  /** Unsigned 64-bit division; None is a divide error. */
  method Udiv64(n: U64, d: U64) returns (r: Option<U64>)
    ensures d == 0 ==> r == None
    ensures d != 0 ==> r == Some(n / d)
  {
    var d1, d0 := d / B32, d % B32;
    assert d == d1 * B32 + d0;
    if d1 == 0 {
      if d0 == 0 {
        return None;
      }
      r := ShortCase(n, d0);
    } else if n < d {
      QuotientIs(n, d, 0);
      r := Some(0);
    } else {
      r := LongDivision(n, d);
    }
  }

  // ----- Remainders and signed division

  /** Division that rounds toward zero. */
  ghost function Truncated(n: int, d: int): int
    requires d != 0
  {
    var q := Abs(n) / Abs(d);
    if (n < 0) == (d < 0) then q else -q
  }

  function Abs(n: int): nat {
    if n < 0 then -n else n
  }

  /** What truncating division means: the remainder is smaller than the divisor and
      has the sign of the dividend, or is zero. */
  lemma TruncatedIs(n: int, d: int, q: int)
    requires d != 0
    ensures q == Truncated(n, d) <==>
      var r := n - d * q; Abs(r) < Abs(d) && (r == 0 || (r < 0) == (n < 0))
  {
    var k := Abs(n) / Abs(d);
    QuotientBounds(Abs(n), Abs(d));
    QuotientPositive(Abs(n), Abs(d));
    TruncatedOk(n, d);
    var r := n - d * q;
    if Abs(r) < Abs(d) && (r == 0 || (r < 0) == (n < 0)) {
      TruncatedUnique(n, d, q, Truncated(n, d));
    }
  }

  lemma TruncatedOk(n: int, d: int)
    requires d != 0
    ensures var r := n - d * Truncated(n, d); Abs(r) < Abs(d) && (r == 0 || (r < 0) == (n < 0))
  {
    var k := Abs(n) / Abs(d);
    RemainderBounds(Abs(n), Abs(d));
    SignedProduct(d, k);
  }

  lemma RemainderBounds(m: int, e: int)
    requires e > 0
    ensures 0 <= m - e * (m / e) < e
  {
  }

  lemma SignedProduct(d: int, k: int)
    ensures d * -k == -(d * k) && Abs(d) * k == if d < 0 then -(d * k) else d * k
  {
  }

  lemma ProductAtLeast(d: int, x: int)
    requires x != 0
    ensures Abs(d * x) >= Abs(d)
  {
    SignedProduct(d, x);
    SignedProduct(x, Abs(d));
    MulLe(1, Abs(x), Abs(d));
  }

  lemma TruncatedUnique(n: int, d: int, a: int, b: int)
    requires d != 0
    requires var r := n - d * a; Abs(r) < Abs(d) && (r == 0 || (r < 0) == (n < 0))
    requires var r := n - d * b; Abs(r) < Abs(d) && (r == 0 || (r < 0) == (n < 0))
    ensures a == b
  {
    Difference(d, a, b);
    if a != b { ProductAtLeast(d, a - b); }
  }

  lemma Difference(d: int, a: int, b: int)
    ensures d * a - d * b == d * (a - b)
  {
  }

  /** Conversion of an integer to a signed type: the value modulo 2^64 or 2^32 that
      fits. */
  function ToI64(x: int): I64 {
    (x + 0x8000_0000_0000_0000) % B64 - 0x8000_0000_0000_0000
  }

  function ToI32(x: int): I32 {
    (x + 0x8000_0000) % B32 - 0x8000_0000
  }

  /** umod64 returns only the low 32 bits of the remainder. */
  method Umod64(n: U64, d: U64) returns (r: Option<U32>)
    ensures d == 0 ==> r == None
    ensures d != 0 ==> r == Some((n % d) % B32)
  {
    var q := Udiv64(n, d);
    if q == None {
      return None;
    }
    QuotientBounds(n, d);
    assert n == d * (n / d) + n % d;
    var p := d * q.value;
    ModSmall(p, B64);
    ModSmall(n - p, B64);
    r := Some(((n - p % B64) % B64) % B32);
  }

  /** So it is exact just when the remainder fits in 32 bits. */
  lemma Umod64Exact(n: U64, d: U64)
    requires d != 0
    ensures (n % d) % B32 == n % d <==> n % d < B32
  {
  }

  /** A divisor for which the remainder is always exact: one of at most 2^32. */
  lemma Umod64Divisor(d: U64)
    requires d != 0
    ensures (forall n: U64 :: (n % d) % B32 == n % d) <==> d <= B32
  {
    if d <= B32 {
      forall n: U64 ensures (n % d) % B32 == n % d {
        Umod64Exact(n, d);
      }
    } else {
      var n: U64 := B32;
      ModSmall(n, d);
      assert (n % d) % B32 != n % d;
    }
  }

  lemma Umod64Inexact()
    ensures var n, d := B32, 2 * B32; (n % d) % B32 != n % d
  {
  }

  lemma NegateWrap(x: int)
    ensures ToI64(-(ToI64(x) as int)) == ToI64(-x)
  {
  }

  lemma UnsignedAbs(n: I64)
    ensures (if n >= 0 then n else (-(n % B64)) % B64) == Abs(n)
  {
  }

  /** Signed division, up to the wrap-around of the result. */
  method Sdiv64(n: I64, d: I64) returns (r: Option<I64>)
    ensures d == 0 ==> r == None
    ensures d != 0 ==> r == Some(ToI64(Truncated(n, d)))
  {
    UnsignedAbs(n);
    UnsignedAbs(d);
    hide ToI64;
    var nAbs: U64 := if n >= 0 then n else (-(n % B64)) % B64;
    var dAbs: U64 := if d >= 0 then d else (-(d % B64)) % B64;
    var qAbs := Udiv64(nAbs, dAbs);
    if qAbs == None {
      return None;
    }
    var q: int := ToI64(qAbs.value);
    NegateWrap(qAbs.value);
    r := Some(if (n < 0) == (d < 0) then q else ToI64(-q));
  }

  /** The wrap-around happens for one pair of operands only. */
  lemma Sdiv64Exact(n: I64, d: I64)
    requires d != 0
    ensures ToI64(Truncated(n, d)) == Truncated(n, d) <==> !(n == -0x8000_0000_0000_0000 && d == -1)
  {
    QuotientBounds(Abs(n), Abs(d));
    QuotientPositive(Abs(n), Abs(d));
    if Abs(d) > 1 {
      MulLe(2, Abs(d), Abs(n) / Abs(d));
    }
  }

  lemma WrapCongruent(x: int) returns (k: int)
    ensures ToI64(x) == x + k * B64
  {
    var m := x + 0x8000_0000_0000_0000;
    k := -(m / B64);
  }

  lemma Wrap32(x: int, k: int)
    ensures ToI32(x + k * B64) == ToI32(x)
  {
    var m, c := x + 0x8000_0000, k * B32;
    QuotientBounds(m, B32);
    QuotientIs(m + c * B32, B32, m / B32 + c);
  }

  /** smod64 returns the remainder of truncating division, cut to 32 bits. */
  method Smod64(n: I64, d: I64) returns (r: Option<I32>)
    ensures d == 0 ==> r == None
    ensures d != 0 ==> r == Some(ToI32(n - d * Truncated(n, d)))
  {
    hide ToI64, ToI32, Truncated;
    var s := Sdiv64(n, d);
    if s == None {
      return None;
    }
    var product: int := d * (s.value as int);
    var difference: int := n - (ToI64(product) as int);
    r := Some(ToI32(ToI64(difference)));
    ghost var t := Truncated(n, d);
    ghost var i := WrapCongruent(t);
    ghost var j := WrapCongruent(product);
    ghost var k := WrapCongruent(difference);
    Wrapped(n, d, t, i, j, k);
  }

  /** Wrapping an intermediate result does not change the low 32 bits. */
  lemma Wrapped(n: int, d: int, t: int, i: int, j: int, k: int)
    ensures ToI32(n - (d * (t + i * B64) + j * B64) + k * B64) == ToI32(n - d * t)
  {
    hide ToI32;
    assert d * (t + i * B64) == d * t + (d * i) * B64;
    var c := k - j - d * i;
    assert n - (d * (t + i * B64) + j * B64) + k * B64 == (n - d * t) + c * B64;
    Wrap32(n - d * t, c);
  }

  /** It is exact just when that remainder fits in 32 bits. */
  lemma Smod64Exact(n: I64, d: I64)
    requires d != 0
    ensures var r := n - d * Truncated(n, d); ToI32(r) == r <==> -0x8000_0000 <= r < 0x8000_0000
  {
    hide Truncated;
  }

  /** A divisor for which the remainder is always exact: one of at most 2^31 in size. */
  lemma Smod64Divisor(d: I64)
    requires d != 0
    ensures (forall n: I64 :: ToI32(Remainder(n, d)) == Remainder(n, d)) <==> Abs(d) <= 0x8000_0000
  {
    hide Remainder, ToI32;
    if Abs(d) <= 0x8000_0000 {
      forall n: I64 ensures ToI32(Remainder(n, d)) == Remainder(n, d) {
        RemainderFits(n, d);
      }
    } else {
      RemainderTooLarge(d);
    }
  }

  ghost function Remainder(n: int, d: int): int
    requires d != 0
  {
    n - d * Truncated(n, d)
  }

  lemma RemainderFits(n: I64, d: I64)
    requires d != 0 && Abs(d) <= 0x8000_0000
    ensures ToI32(Remainder(n, d)) == Remainder(n, d)
  {
    hide Truncated, ToI32;
    TruncatedOk(n, d);
    Smod64Exact(n, d);
  }

  lemma RemainderTooLarge(d: I64)
    requires Abs(d) > 0x8000_0000
    ensures ToI32(Remainder(0x8000_0000, d)) != Remainder(0x8000_0000, d)
  {
    var n := 0x8000_0000;
    TruncatedIs(n, d, 0);
    hide Truncated, ToI32;
    Smod64Exact(n, d);
  }

  lemma Smod64Inexact()
    ensures var n, d := 0x8000_0000, B32; ToI32(n - d * Truncated(n, d)) != n - d * Truncated(n, d)
  {
  }
}
