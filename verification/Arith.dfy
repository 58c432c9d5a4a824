/** Division with a variable divisor. */
module Arith {

  lemma AtLeastOnce(d: int, m: int)
    requires d >= 1 && m >= 1
    ensures d * m >= m && -d * m <= -m
  {
  }

  lemma ModUnique(x: int, q: int, r: int, m: int)
    requires m >= 1 && x == q * m + r && 0 <= r < m
    ensures x % m == r
  {
    var d := x / m - q;
    assert d * m == r - x % m;
    if d > 0 {
      AtLeastOnce(d, m);
    } else if d < 0 {
      AtLeastOnce(-d, m);
    }
  }

  lemma DivUnique(x: int, q: int, r: int, m: int)
    requires m >= 1 && x == q * m + r && 0 <= r < m
    ensures x / m == q && x % m == r
  {
    ModUnique(x, q, r, m);
    var d := x / m - q;
    assert d * m == 0;
    if d > 0 {
      AtLeastOnce(d, m);
    } else if d < 0 {
      AtLeastOnce(-d, m);
    }
  }

  lemma DivIs(x: int, m: int)
    requires m >= 1
    ensures x == x / m * m + x % m && 0 <= x % m < m
  {
  }

  /** A common factor of dividend and divisor. */
  lemma Scaled(c: int, a: int, f: int)
    requires c >= 1 && f >= 1
    ensures c * f >= 1
    ensures (c * a) % (c * f) == c * (a % f) && (c * a) / (c * f) == a / f
    ensures (c * a) % c == 0 && (c * a) / c == a
  {
    var q, r := a / f, a % f;
    DivIs(a, f);
    AtLeastOnce(c, f);
    assert c * a == q * (c * f) + c * r by {
      assert c * (q * f + r) == c * (q * f) + c * r;
      assert c * (q * f) == q * (c * f);
    }
    assert c * f - c * r == c * (f - r) >= c by {
      AtLeastOnce(f - r, c);
    }
    if r == 0 {
      assert c * r == 0;
    } else {
      AtLeastOnce(r, c);
    }
    DivUnique(c * a, q, c * r, c * f);
    DivUnique(c * a, a, 0, c);
  }
}
