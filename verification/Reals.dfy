/** Sums and means of real numbers. */
module Reals {

  function Total(s: seq<real>): real {
    if s == [] then 0.0 else Total(s[..|s| - 1]) + s[|s| - 1]
  }

  lemma TotalPush(s: seq<real>, x: real)
    ensures Total(s + [x]) == Total(s) + x
  {
    assert (s + [x])[..|s|] == s;
  }

  lemma {:induction false} TotalPop(x: real, s: seq<real>)
    ensures Total([x] + s) == x + Total(s)
  {
    if s == [] {
      assert [x] + s == [] + [x];
      TotalPush([], x);
    } else {
      var t := s[..|s| - 1];
      TotalPop(x, t);
      assert [x] + s == ([x] + t) + [s[|s| - 1]];
      TotalPush([x] + t, s[|s| - 1]);
    }
  }

  lemma OneMore(n: real, x: real)
    ensures (n + 1.0) * x == n * x + x
  {
  }

  lemma {:induction false} TotalBounds(s: seq<real>, lo: real, hi: real)
    requires forall i :: 0 <= i < |s| ==> lo <= s[i] <= hi
    ensures |s| as real * lo <= Total(s) <= |s| as real * hi
  {
    if s != [] {
      var t := s[..|s| - 1];
      TotalBounds(t, lo, hi);
      OneMore(|t| as real, lo);
      OneMore(|t| as real, hi);
    }
  }

  lemma Positive(x: real, d: real)
    requires x > 0.0 && d > 0.0
    ensures x * d > 0.0 && -x * d < 0.0
  {
  }

  lemma FactorSign(x: real, d: real)
    requires d > 0.0 && x * d >= 0.0
    ensures x >= 0.0
  {
    if x < 0.0 {
      Positive(-x, d);
    }
  }

  lemma QuotientBounds(x: real, d: real, low: real, high: real)
    requires d > 0.0 && d * low <= x <= d * high
    ensures low <= x / d <= high
  {
    var q := x / d;
    assert q * d == x;
    assert (q - low) * d == q * d - d * low && (high - q) * d == d * high - q * d;
    FactorSign(q - low, d);
    FactorSign(high - q, d);
  }
}
