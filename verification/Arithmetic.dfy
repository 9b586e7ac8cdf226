/** Division with a variable divisor. */
module Arithmetic {
  lemma NonZeroMultiple(d: int, m: int)
    requires m > 0 && d != 0
    ensures d * m >= m || d * m <= -m
  {}

  /** Quotient and remainder are unique. */
  lemma DivModIs(x: int, m: int, k: int, r: int)
    requires 0 <= r < m && x == k * m + r
    ensures x / m == k && x % m == r
  {
    var d := x / m - k;
    assert d * m == r - x % m by {
      assert x == (x / m) * m + x % m;
    }
    if d != 0 {
      NonZeroMultiple(d, m);
    }
  }

  lemma AddMultiple(x: int, q: int, n: int)
    requires n > 0
    ensures (x + q * n) % n == x % n
  {
    assert x == (x / n) * n + x % n;
    assert x + q * n == (x / n + q) * n + x % n;
    DivModIs(x + q * n, n, x / n + q, x % n);
  }

  lemma SmallMod(x: int, n: int)
    requires 0 <= x < n
    ensures x % n == x
  {
    DivModIs(x, n, 0, x);
  }
}
