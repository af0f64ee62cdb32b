/** Bitwise operators on machine words, as operations on natural numbers. */
module Bits {
  import opened Integers

  function Pow2(n: nat): nat {
    if n == 0 then 1 else 2 * Pow2(n - 1)
  }

  /** Whether bit j of x is set. */
  predicate Bit(x: nat, j: nat) {
    if j == 0 then x % 2 == 1 else Bit(x / 2, j - 1)
  }

  function ToNat(b: bool): nat {
    if b then 1 else 0
  }

  /** x & y */
  function And(x: nat, y: nat): nat {
    if x == 0 then 0 else 2 * And(x / 2, y / 2) + ToNat(x % 2 == 1 && y % 2 == 1)
  }

  /** x | y */
  function Or(x: nat, y: nat): nat
    decreases x + y
  {
    if x == 0 && y == 0 then 0 else 2 * Or(x / 2, y / 2) + ToNat(x % 2 == 1 || y % 2 == 1)
  }

  /** x ^ y */
  function Xor(x: nat, y: nat): nat
    decreases x + y
  {
    if x == 0 && y == 0 then 0 else 2 * Xor(x / 2, y / 2) + ToNat(x % 2 != y % 2)
  }

  /** ~x in a word of w bits */
  function Not(x: nat, w: nat): nat
    requires x < Pow2(w)
  {
    Pow2(w) - 1 - x
  }

  lemma {:induction false} AndBit(x: nat, y: nat, j: nat)
    ensures Bit(And(x, y), j) <==> Bit(x, j) && Bit(y, j)
  {
    if x == 0 {
      ZeroBit(j);
    } else if j > 0 {
      AndBit(x / 2, y / 2, j - 1);
    }
  }

  lemma {:induction false} ZeroBit(j: nat)
    ensures !Bit(0, j)
  {
    if j > 0 { ZeroBit(j - 1); }
  }

  lemma {:induction false} OrBit(x: nat, y: nat, j: nat)
    ensures Bit(Or(x, y), j) <==> Bit(x, j) || Bit(y, j)
  {
    if x == 0 && y == 0 {
      ZeroBit(j);
    } else if j > 0 {
      OrBit(x / 2, y / 2, j - 1);
    }
  }

  lemma {:induction false} XorBit(x: nat, y: nat, j: nat)
    ensures Bit(Xor(x, y), j) <==> (Bit(x, j) != Bit(y, j))
  {
    if x == 0 && y == 0 {
      ZeroBit(j);
    } else if j > 0 {
      XorBit(x / 2, y / 2, j - 1);
    }
  }

  lemma {:induction false} NotBit(x: nat, w: nat, j: nat)
    requires x < Pow2(w) && j < w
    ensures Bit(Not(x, w), j) <==> !Bit(x, j)
  {
    NotHalf(x, Pow2(w - 1));
    if j > 0 {
      NotBit(x / 2, w - 1, j - 1);
    }
  }

  lemma NotHalf(x: nat, p: nat)
    requires x < 2 * p
    ensures x / 2 < p
    ensures (2 * p - 1 - x) / 2 == p - 1 - x / 2 && (2 * p - 1 - x) % 2 == 1 - x % 2
  {
  }

  lemma {:induction false} PowBit(k: nat, j: nat)
    ensures Bit(Pow2(k), j) <==> j == k
  {
    if k == 0 {
      if j > 0 { ZeroBit(j - 1); }
    } else if j > 0 {
      assert Pow2(k) / 2 == Pow2(k - 1);
      PowBit(k - 1, j - 1);
    }
  }

  // ----- Sizes

  lemma {:induction false} AndBound(x: nat, y: nat)
    ensures And(x, y) <= x && And(x, y) <= y
  {
    if x != 0 { AndBound(x / 2, y / 2); }
  }

  lemma {:induction false} OrBound(x: nat, y: nat, w: nat)
    requires x < Pow2(w) && y < Pow2(w)
    ensures Or(x, y) < Pow2(w)
  {
    if w > 0 && !(x == 0 && y == 0) { OrBound(x / 2, y / 2, w - 1); }
  }

  lemma {:induction false} XorBound(x: nat, y: nat, w: nat)
    requires x < Pow2(w) && y < Pow2(w)
    ensures Xor(x, y) < Pow2(w)
  {
    if w > 0 && !(x == 0 && y == 0) { XorBound(x / 2, y / 2, w - 1); }
  }

  lemma {:induction false} PowPositive(n: nat)
    ensures Pow2(n) > 0
  {
    if n > 0 { PowPositive(n - 1); }
  }

  lemma {:induction false} PowMonotone(a: nat, b: nat)
    requires a < b
    ensures Pow2(a) < Pow2(b)
  {
    PowPositive(a);
    if a + 1 < b { PowMonotone(a, b - 1); }
  }

  lemma {:induction false} PowAdd(a: nat, b: nat)
    ensures Pow2(a + b) == Pow2(a) * Pow2(b)
  {
    if a > 0 { PowAdd(a - 1, b); }
  }

  // ----- Masks

  /** Masking with 2^k - 1 takes the remainder. */
  lemma {:induction false} AndLowMask(x: nat, k: nat)
    ensures Pow2(k) > 0 && And(x, Pow2(k) - 1) == x % Pow2(k)
  {
    PowPositive(k);
    if k == 0 {
      AndZero(x);
    } else {
      AndLowMask(x / 2, k - 1);
      AndLowStep(x, Pow2(k - 1));
    }
  }

  lemma AndLowStep(x: nat, m: nat)
    requires m > 0 && And(x / 2, m - 1) == (x / 2) % m
    ensures And(x, 2 * m - 1) == x % (2 * m)
  {
    hide And;
    AndUnfold(x, 2 * m - 1);
    HalfOdd(m);
    ModHalf(x, m);
  }

  lemma HalfOdd(m: nat)
    requires m > 0
    ensures (2 * m - 1) / 2 == m - 1 && (2 * m - 1) % 2 == 1
  {
  }

  lemma AndUnfold(x: nat, y: nat)
    ensures And(x, y) == 2 * And(x / 2, y / 2) + ToNat(x % 2 == 1 && y % 2 == 1)
  {
  }

  lemma AndZero(x: nat)
    ensures And(x, 0) == 0
  {
    AndBound(x, 0);
  }

  lemma ModHalf(x: nat, m: nat)
    requires m > 0
    ensures x % (2 * m) == 2 * ((x / 2) % m) + x % 2
  {
    var q := (x / 2) / m;
    var r := 2 * ((x / 2) % m) + x % 2;
    assert x / 2 == q * m + (x / 2) % m;
    assert x == q * (2 * m) + r by { assert 2 * (q * m) == q * (2 * m); }
    ModUnique(x, 2 * m, q, r);
  }

  lemma {:induction false} AndSelf(x: nat)
    ensures And(x, x) == x
  {
    if x != 0 { AndSelf(x / 2); }
  }

  /** x & (x - 1) turns the lowest one bit off. */
  lemma {:induction false} TurnOffLowest(x: nat, k: nat)
    requires x > 0 && Pow2(k) <= x < Pow2(k + 1)
    ensures And(x, x - 1) < x
    ensures And(x, x - 1) == 0 <==> x == Pow2(k)
    ensures And(x, x - 1) != 0 ==> Pow2(k) <= And(x, x - 1)
  {
    if x % 2 == 1 {
      AndPredOdd(x);
      if k > 0 { assert Pow2(k) == 2 * Pow2(k - 1); }
    } else {
      assert k > 0 && Pow2(k) == 2 * Pow2(k - 1);
      TurnOffLowest(x / 2, k - 1);
      AndPredEven(x);
    }
  }

  lemma AndPredOdd(x: nat)
    requires x % 2 == 1
    ensures And(x, x - 1) == x - 1
  {
    AndSelf(x / 2);
    hide And;
    AndUnfold(x, x - 1);
  }

  lemma AndPredEven(x: nat)
    requires x > 0 && x % 2 == 0
    ensures x / 2 > 0 && And(x, x - 1) == 2 * And(x / 2, x / 2 - 1)
  {
    hide And;
    AndUnfold(x, x - 1);
  }

  lemma OrUnfold(x: nat, y: nat)
    ensures Or(x, y) == 2 * Or(x / 2, y / 2) + ToNat(x % 2 == 1 || y % 2 == 1)
  {
  }

  lemma {:induction false} OrZero(x: nat)
    ensures Or(x, 0) == x && Or(0, x) == x
  {
    if x != 0 { OrZero(x / 2); }
  }

  /** Or adds when the operands have no bit in common. */
  lemma {:induction false} OrDisjoint(x: nat, y: nat, k: nat)
    requires Pow2(k) > 0 && x % Pow2(k) == 0 && y < Pow2(k)
    ensures Or(x, y) == x + y
  {
    if k == 0 {
      OrZero(x);
    } else {
      PowPositive(k - 1);
      ModHalf(x, Pow2(k - 1));
      OrDisjoint(x / 2, y / 2, k - 1);
      hide Or;
      OrUnfold(x, y);
    }
  }

  /** Masking with the high bits of a word rounds down. */
  lemma {:induction false} AndHighMask(x: nat, k: nat, w: nat)
    requires k <= w && x < Pow2(w)
    ensures Pow2(k) > 0 && Pow2(k) <= Pow2(w) && And(x, Pow2(w) - Pow2(k)) == x - x % Pow2(k)
  {
    PowPositive(k);
    if k == 0 {
      PowPositive(w);
      AndLowMask(x, w);
      ModSmall(x, Pow2(w));
    } else {
      AndHighMask(x / 2, k - 1, w - 1);
      HighMaskStep(x, Pow2(w - 1), Pow2(k - 1));
    }
  }

  lemma HighMaskStep(x: nat, a: nat, b: nat)
    requires 0 < b <= a && And(x / 2, a - b) == x / 2 - (x / 2) % b
    ensures And(x, 2 * a - 2 * b) == x - x % (2 * b)
  {
    hide And;
    AndUnfold(x, 2 * a - 2 * b);
    HalfDifference(a, b);
    ModHalf(x, b);
  }

  lemma HalfDifference(a: nat, b: nat)
    requires b <= a
    ensures (2 * a - 2 * b) / 2 == a - b && (2 * a - 2 * b) % 2 == 0
  {
  }
}
