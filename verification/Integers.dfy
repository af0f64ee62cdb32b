/** 32-bit words, and facts about multiplication, division and remainders. */
module Integers {

  type U32 = x: int | 0 <= x < 0x1_0000_0000

  lemma MulLe(a: int, b: int, c: int)
    requires a <= b && 0 <= c
    ensures a * c <= b * c
  {
  }

  lemma MulLt(a: int, b: int, c: int)
    requires a < b && 0 < c
    ensures a * c < b * c
  {
  }

  lemma MulCancelLt(a: int, b: int, c: int)
    requires a * c < b * c && 0 < c
    ensures a < b
  {
    if b <= a { MulLe(b, a, c); }
  }

  /** q is the quotient exactly when n lies between q and q + 1 times d. */
  lemma QuotientIs(n: int, d: int, q: int)
    requires d > 0 && q * d <= n < (q + 1) * d
    ensures n / d == q
  {
    var k := n / d;
    assert n == k * d + n % d;
    assert q < k + 1 by { assert (k + 1) * d == k * d + d; MulCancelLt(q, k + 1, d); }
    assert k < q + 1 by { MulCancelLt(k, q + 1, d); }
  }

  lemma QuotientBounds(n: int, d: int)
    requires d > 0
    ensures (n / d) * d <= n < (n / d + 1) * d
  {
    assert (n / d + 1) * d == (n / d) * d + d;
  }

  lemma QuotientPositive(n: int, d: int)
    requires d > 0 && n >= 0
    ensures n / d >= 0 && n / d <= n
  {
    QuotientBounds(n, d);
    if n / d < 0 { MulLe(n / d + 1, 0, d); }
    if n < n / d { MulLe(1, d, n / d); }
  }

  /** Dividing twice is dividing by the product. */
  lemma DivDiv(n: int, a: int, b: int)
    requires a > 0 && b > 0
    ensures a * b > 0 && (n / a) / b == n / (a * b)
  {
    var x := n / a;
    var y := x / b;
    QuotientBounds(n, a);
    QuotientBounds(x, b);
    MulLt(0, a, b);
    assert y * (a * b) <= n by {
      MulLe(y * b, x, a);
      assert y * (a * b) == (y * b) * a;
    }
    assert n < (y + 1) * (a * b) by {
      MulLe(x + 1, (y + 1) * b, a);
      assert (y + 1) * (a * b) == ((y + 1) * b) * a;
    }
    QuotientIs(n, a * b, y);
  }

  lemma ModSmall(x: int, m: int)
    requires 0 <= x < m
    ensures x % m == x
  {
  }

  lemma MulAtLeast(d: int, m: int)
    requires d > 0 && m > 0
    ensures d * m >= m
  {
  }

  lemma ModUnique(x: int, m: int, q: int, r: int)
    requires m > 0 && x == q * m + r && 0 <= r < m
    ensures x % m == r && x / m == q
  {
    var d := x / m - q;
    assert d * m == r - x % m by { assert x == (x / m) * m + x % m; assert (x / m - q) * m == (x / m) * m - q * m; }
    if d > 0 { MulAtLeast(d, m); }
    if d < 0 { MulAtLeast(-d, m); }
  }
}
