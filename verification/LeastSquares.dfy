/** The best-fit line of a VDEF (LSLSLOPE, LSLINT): `vdef_calc` over one column of the
    fetched data. Samples may be unknown; `x` is the row number. */
module LeastSquares {
  import opened Text

  /** cnt, SUMx, SUMy, SUMxx, SUMxy and SUMyy */
  datatype Sums = Sums(n: real, x: real, y: real, xx: real, xy: real, yy: real)

  const ZERO := Sums(0.0, 0.0, 0.0, 0.0, 0.0, 0.0)

  function Add(s: Sums, x: real, y: real): Sums {
    Sums(s.n + 1.0, s.x + x, s.y + y, s.xx + x * x, s.xy + x * y, s.yy + y * y)
  }

  function SumsOf(d: seq<Value>): Sums {
    if d == [] then ZERO
    else
      var n := |d| - 1;
      if d[n].Some? then Add(SumsOf(d[..n]), n as real, d[n].value) else SumsOf(d[..n])
  }

  function Count(d: seq<Value>): nat {
    if d == [] then 0 else Count(d[..|d| - 1]) + if d[|d| - 1].Some? then 1 else 0
  }

  lemma {:induction false} CountIs(d: seq<Value>)
    ensures SumsOf(d).n == Count(d) as real
  {
    if d != [] {
      CountIs(d[..|d| - 1]);
    }
  }

  /** The sum of squared errors of the line `p * x + q` over the known samples. */
  function Errors(d: seq<Value>, p: real, q: real): real {
    if d == [] then 0.0
    else
      var n := |d| - 1;
      if d[n].Some? then Errors(d[..n], p, q) + Square(d[n].value - (p * n as real + q)) else Errors(d[..n], p, q)
  }

  function Square(x: real): real {
    x * x
  }

  // ---------------------------------------------------------------- the denominator

  function Denominator(s: Sums): real {
    s.x * s.x - s.n * s.xx
  }

  /** `sum (x - x_i)^2` over the samples summed, in terms of the sums. */
  function Spread(s: Sums, x: real): real {
    s.n * (x * x) - 2.0 * (x * s.x) + s.xx
  }

  lemma SpreadAdd(s: Sums, x: real, y: real, at: real)
    ensures Spread(Add(s, x, y), at) == Spread(s, at) + Square(at - x)
  {
  }

  lemma DenominatorAdd(s: Sums, x: real, y: real)
    ensures Denominator(Add(s, x, y)) == Denominator(s) - Spread(s, x)
  {
  }

  lemma SquareAtLeastOne(x: real)
    requires x >= 1.0
    ensures Square(x) >= 1.0
  {
  }

  lemma {:induction false} SpreadPositive(d: seq<Value>, x: real)
    requires x >= |d| as real
    ensures Spread(SumsOf(d), x) >= Count(d) as real
  {
    if d != [] {
      var n := |d| - 1;
      SpreadPositive(d[..n], x);
      if d[n].Some? {
        SpreadAdd(SumsOf(d[..n]), n as real, d[n].value, x);
        SquareAtLeastOne(x - n as real);
      }
    }
  }

  lemma DenominatorZero()
    ensures Denominator(ZERO) == 0.0
  {
  }

  lemma SpreadZero(x: real)
    ensures Spread(ZERO, x) == 0.0
  {
  }

  lemma DenominatorStep(s: Sums, c: nat, x: real, y: real)
    requires Spread(s, x) >= c as real && (c == 0 ==> s == ZERO)
    requires if c < 2 then Denominator(s) == 0.0 else Denominator(s) < 0.0
    ensures if c + 1 < 2 then Denominator(Add(s, x, y)) == 0.0 else Denominator(Add(s, x, y)) < 0.0
  {
    DenominatorAdd(s, x, y);
    SpreadZero(x);
    hide Denominator, Spread;
  }

  /** The divisor of the slope is zero exactly when fewer than two samples are known. */
  lemma {:induction false} DenominatorSign(d: seq<Value>)
    ensures if Count(d) < 2 then Denominator(SumsOf(d)) == 0.0 else Denominator(SumsOf(d)) < 0.0
  {
    hide Denominator, Spread;
    assert Denominator(ZERO) == 0.0 by {
      DenominatorZero();
    }
    if d != [] {
      var n := |d| - 1;
      DenominatorSign(d[..n]);
      if d[n].Some? {
        if Count(d[..n]) == 0 {
          NoSamples(d[..n]);
        }
        SpreadPositive(d[..n], n as real);
        DenominatorStep(SumsOf(d[..n]), Count(d[..n]), n as real, d[n].value);
      }
    }
  }

  lemma {:induction false} NoSamples(d: seq<Value>)
    requires Count(d) == 0
    ensures SumsOf(d) == ZERO
  {
    if d != [] {
      NoSamples(d[..|d| - 1]);
    }
  }

  // ---------------------------------------------------------------- optimality

  /** `Errors` in terms of the sums. */
  function ErrorsOf(s: Sums, p: real, q: real): real {
    s.yy - 2.0 * (p * s.xy) - 2.0 * (q * s.y) + p * p * s.xx + 2.0 * (p * q * s.x) + s.n * (q * q)
  }

  lemma ErrorsAdd(s: Sums, x: real, y: real, p: real, q: real)
    ensures ErrorsOf(Add(s, x, y), p, q) == ErrorsOf(s, p, q) + Square(y - (p * x + q))
  {
  }

  lemma ErrorsZero(p: real, q: real)
    ensures ErrorsOf(ZERO, p, q) == 0.0
  {
  }

  lemma {:induction false} ErrorsFromSums(d: seq<Value>, p: real, q: real)
    ensures Errors(d, p, q) == ErrorsOf(SumsOf(d), p, q)
  {
    ErrorsZero(p, q);
    hide ErrorsOf, Square;
    if d != [] {
      var n := |d| - 1;
      ErrorsFromSums(d[..n], p, q);
      if d[n].Some? {
        ErrorsAdd(SumsOf(d[..n]), n as real, d[n].value, p, q);
      }
    }
  }

  function Slope(s: Sums): real
    requires Denominator(s) != 0.0
  {
    (s.x * s.y - s.n * s.xy) / Denominator(s)
  }

  function Intercept(s: Sums): real
    requires Denominator(s) != 0.0 && s.n != 0.0
  {
    (s.y - Slope(s) * s.x) / s.n
  }

  /** The fitted line satisfies the normal equations. */
  lemma NormalEquations(s: Sums)
    requires Denominator(s) != 0.0 && s.n != 0.0
    ensures var a, b := Slope(s), Intercept(s);
      s.y == a * s.x + b * s.n && s.xy == a * s.xx + b * s.x
  {
    var a, b := Slope(s), Intercept(s);
    assert b * s.n == s.y - a * s.x;
    assert a * Denominator(s) == s.x * s.y - s.n * s.xy;
    NormalStep(s.n, s.x, s.y, s.xx, s.xy, a, b);
  }

  lemma NormalStep(n: real, x: real, y: real, xx: real, xy: real, a: real, b: real)
    requires b * n == y - a * x && a * (x * x - n * xx) == x * y - n * xy && n != 0.0
    ensures xy == a * xx + b * x
  {
    assert x * y == x * (b * n + a * x);
    assert n * xy == x * y - a * (x * x - n * xx) == n * (a * xx + b * x);
  }

  /** `sum (p * x + q)^2`, in terms of the sums. */
  function Norm(s: Sums, p: real, q: real): real {
    p * p * s.xx + 2.0 * (p * q * s.x) + s.n * (q * q)
  }

  /** Moving away from a line that satisfies the normal equations by `(dp, dq)` adds
      `sum (dp * x + dq)^2` to the errors. */
  lemma ErrorsAway(s: Sums, a: real, b: real, dp: real, dq: real)
    requires s.y == a * s.x + b * s.n && s.xy == a * s.xx + b * s.x
    ensures ErrorsOf(s, a + dp, b + dq) == ErrorsOf(s, a, b) + Norm(s, dp, dq)
  {
  }

  /** ... which is positive unless the line did not move. */
  lemma NormPositive(s: Sums, p: real, q: real)
    requires Denominator(s) < 0.0 && s.n > 0.0 && (p != 0.0 || q != 0.0)
    ensures Norm(s, p, q) > 0.0
  {
    if p == 0.0 {
      SquarePositive(q, Square(q));
      ProductPositive(s.n, Square(q), Norm(s, p, q));
    } else {
      CompleteSquare(s, p, q);
      SquarePositive(p, Square(p));
      PositiveFactor(s.n, Norm(s, p, q), Square(s.n * q + p * s.x), Square(p), -Denominator(s));
    }
  }

  lemma CompleteSquare(s: Sums, p: real, q: real)
    ensures s.n * Norm(s, p, q) == Square(s.n * q + p * s.x) + Square(p) * -Denominator(s)
  {
  }

  lemma PositiveFactor(n: real, e: real, u: real, a: real, b: real)
    requires n * e == u + a * b && n > 0.0 && u >= 0.0 && a > 0.0 && b > 0.0
    ensures e > 0.0
  {
  }

  lemma ProductPositive(a: real, b: real, c: real)
    requires a * b == c && a > 0.0 && b > 0.0
    ensures c > 0.0
  {
  }

  lemma SquarePositive(a: real, c: real)
    requires a * a == c && a != 0.0
    ensures c > 0.0
  {
    if a > 0.0 {
      ProductPositive(a, a, c);
    } else {
      ProductPositive(-a, -a, c);
    }
  }

  // ---------------------------------------------------------------- vdef_calc

  /** Column `ds` of a row-major table of `width` columns. */
  function Column(data: seq<Value>, ds: nat, width: nat, steps: nat): seq<Value>
    requires ds < width && steps * width <= |data|
  {
    seq(steps, i requires 0 <= i < steps =>
      CellInTable(i, ds, width, steps);
      data[i * width + ds])
  }

  lemma CellInTable(i: nat, ds: nat, width: nat, steps: nat)
    requires i < steps && ds < width
    ensures i * width + ds < steps * width
  {
    assert (i + 1) * width <= steps * width;
  }

  /** LSLSLOPE and LSLINT. Without two known samples the division is 0/0: NaN. With two or
      more, the slope and intercept returned give a sum of squared errors over the known
      samples that is smaller than that of any other line. */
  method LeastSquaresLine(data: seq<Value>, ds: nat, width: nat, steps: nat) returns (line: Option<(real, real)>)
    requires ds < width && steps * width <= |data|
    ensures line.Some? <==> Count(Column(data, ds, width, steps)) >= 2
    ensures line.Some? ==>
      var d := Column(data, ds, width, steps);
      forall p, q :: (p, q) != line.value ==> Errors(d, line.value.0, line.value.1) < Errors(d, p, q)
  {
    ghost var d := Column(data, ds, width, steps);
    var s := ZERO;
    var step := 0;
    while step < steps
      invariant step <= steps && s == SumsOf(d[..step])
    {
      assert d[..step + 1][..step] == d[..step];
      CellInTable(step, ds, width, steps);
      var sample := data[step * width + ds];
      if sample.Some? {
        s := Add(s, step as real, sample.value);
      }
      step := step + 1;
    }
    assert d[..step] == d;
    DenominatorSign(d);
    CountIs(d);
    if Denominator(s) == 0.0 {
      return None;
    }
    line := Some((Slope(s), Intercept(s)));
    forall p, q | (p, q) != line.value
      ensures Errors(d, line.value.0, line.value.1) < Errors(d, p, q)
    {
      Optimal(d, p, q);
    }
  }

  lemma Optimal(d: seq<Value>, p: real, q: real)
    requires Denominator(SumsOf(d)) < 0.0 && SumsOf(d).n > 0.0
    requires p != Slope(SumsOf(d)) || q != Intercept(SumsOf(d))
    ensures Errors(d, Slope(SumsOf(d)), Intercept(SumsOf(d))) < Errors(d, p, q)
  {
    var s := SumsOf(d);
    var a, b := Slope(s), Intercept(s);
    NormalEquations(s);
    ErrorsAway(s, a, b, p - a, q - b);
    NormPositive(s, p - a, q - b);
    ErrorsFromSums(d, a, b);
    ErrorsFromSums(d, p, q);
    hide ErrorsOf, Norm, Denominator, Slope, Intercept;
  }

  // ---------------------------------------------------------------- the column of a table

  /** The rows of a table, one behind the other. */
  function Flat(rows: seq<seq<Value>>): seq<Value> {
    if rows == [] then [] else Flat(rows[..|rows| - 1]) + rows[|rows| - 1]
  }

  lemma {:induction false} FlatAt(rows: seq<seq<Value>>, width: nat, i: nat, ds: nat)
    requires i < |rows| && ds < width && forall r :: 0 <= r < |rows| ==> |rows[r]| == width
    ensures |Flat(rows)| == |rows| * width && 0 <= i * width + ds < |rows| * width
    ensures Flat(rows)[i * width + ds] == rows[i][ds]
  {
    var n := |rows| - 1;
    if n > 0 {
      FlatAt(rows[..n], width, if i < n then i else 0, ds);
    } else {
      assert rows[..0] == [];
    }
    RowBounds(i, n, width, ds);
  }

  lemma RowBounds(i: nat, n: nat, width: nat, ds: nat)
    requires i <= n && ds < width
    ensures (n + 1) * width == n * width + width
    ensures if i < n then 0 <= i * width + ds < n * width else i * width + ds == n * width + ds
  {
    RowsOf(i, 1, width);
    RowsOf(n, 1, width);
    if i < n {
      RowsOf(i + 1, n - i - 1, width);
    }
  }

  lemma RowsOf(a: nat, b: nat, width: nat)
    ensures (a + b) * width == a * width + b * width && b * width >= 0 && 1 * width == width
  {
  }

  /** The values the line is fitted to are those of one data source, row by row. */
  lemma ColumnOfTable(rows: seq<seq<Value>>, width: nat, ds: nat, i: nat)
    requires i < |rows| && ds < width && forall r :: 0 <= r < |rows| ==> |rows[r]| == width
    requires |Flat(rows)| >= |rows| * width
    ensures Column(Flat(rows), ds, width, |rows|)[i] == rows[i][ds]
  {
    FlatAt(rows, width, i, ds);
  }
}
