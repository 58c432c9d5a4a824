/** What one Holt-Winters step does to the numbers: every coefficient is corrected by its
    share of the error of the forecast. Stated of whole steps, in any good index order. */
module ForecastStep {
  import opened Text
  import opened HoltWinters

  /** All coefficients of the data source are known: level `a`, slope `b` with `n` steps
      since the last known value, seasonal coefficient `q` and deviation `d`. */
  predicate Known(s: Areas, a: real, b: real, n: nat, q: real, d: real) {
    && s.coefs.intercept == Some(a) && s.coefs.slope == Some(b) && s.coefs.nullCount == n
    && s.seasonal.current == Some(q) && s.deviation.current == Some(d) && s.violations != []
  }

  predicate GoodOrder(index: Layout, order: seq<Archive>) {
    InOrder(index, order) && !Between(index)
  }

  predicate Is(v: Value, x: real) {
    v.Some? && v.value == x
  }

  /** The baseline continued along the slope. */
  function Level(a: real, b: real, n: nat): real {
    a + b * n as real
  }

  function Size(e: real): real {
    if e < 0.0 then -e else e
  }

  lemma StepIsReference(p: Params, x: Input, index: Layout, order: seq<Archive>, s: Areas)
    requires s.violations != [] && GoodOrder(index, order)
    requires s.coefs.intercept.Some? && s.coefs.slope.Some?
    ensures Run(p, x, index, order, s) == Reference(p, x, s)
  {
    OrderIndependence(p, x, index, order, s);
  }

  // ---------------------------------------------------------------- the formulas, on numbers

  /** A weighted mean moves the old value by the weight towards the new one. */
  lemma Mixed(g: real, new': real, old': real)
    ensures g * new' + (1.0 - g) * old' == old' + g * (new' - old')
  {
  }

  lemma ProductOf(a: Value, b: Value, x: real, y: real, z: real)
    requires a == Some(x) && b == Some(y) && x * y == z
    ensures Times(a, b) == Some(z)
  {
    SameProduct(a, b, x, y);
  }

  lemma SameProduct(a: Value, b: Value, x: real, y: real)
    requires a == Some(x) && b == Some(y)
    ensures a.value * b.value == x * y
  {
  }

  lemma QuotientOf(a: Value, b: Value, x: real, y: real, z: real)
    requires a == Some(x) && b == Some(y) && y > 0.0 && z == x / y
    ensures Over(a, b) == Some(z)
  {
    SameQuotient(a.value, b.value, x, y);
  }

  lemma SameQuotient(a: real, b: real, x: real, y: real)
    requires a == x && b == y && y > 0.0
    ensures a / b == x / y
  {
  }

  lemma SumOf(a: Value, b: Value, x: real, y: real, z: real)
    requires a == Some(x) && b == Some(y) && x + y == z
    ensures Plus(a, b) == Some(z)
  {
  }

  lemma DifferenceOf(a: Value, b: Value, x: real, y: real, z: real)
    requires a == Some(x) && b == Some(y) && x - y == z
    ensures Minus(a, b) == Some(z)
  {
  }

  /** The weighted mean of two known values. */
  lemma MixtureOf(g: real, a: Value, b: Value, new': real, old': real, z: real)
    requires a == Some(new') && b == Some(old') && z == old' + g * (new' - old')
    ensures Plus(Times(Some(g), a), Times(Some(1.0 - g), b)) == Some(z)
  {
    hide Times, Plus;
    var h := 1.0 - g;
    var p, q := g * new', h * old';
    Mixed(g, new', old');
    ProductOf(Some(g), a, g, new', p);
    ProductOf(Some(1.0 - g), b, h, old', q);
    SumOf(Times(Some(g), a), Times(Some(1.0 - g), b), p, q, z);
  }

  function Forecast(f: Functions, a: real, b: real, n: nat, q: real): real {
    if f.Additive? then Level(a, b, n) + q else Level(a, b, n) * q
  }

  lemma LevelOf(a: real, b: real, n: nat, level: real)
    requires level == Level(a, b, n)
    ensures Plus(Some(a), Times(Some(b), Real(n))) == Some(level)
  {
    hide Times, Plus;
    var m := b * n as real;
    ProductOf(Some(b), Real(n), b, n as real, m);
    SumOf(Some(a), Times(Some(b), Real(n)), a, m, level);
  }

  lemma PredictIs(f: Functions, a: real, b: real, n: nat, q: real, forecast: real)
    requires forecast == Forecast(f, a, b, n, q)
    ensures f.Predict(Some(a), Some(b), n, Some(q)) == Some(forecast)
  {
    hide Times, Plus, Level;
    var level := Level(a, b, n);
    LevelOf(a, b, n, level);
    if f.Additive? {
      SumOf(Some(level), Some(q), level, q, forecast);
    } else {
      ProductOf(Some(level), Some(q), level, q, forecast);
    }
  }

  lemma InterceptIs(f: Functions, alpha: real, y: real, q: real, c: Coefs, a: real, b: real, a': real)
    requires c.intercept == Some(a) && c.slope == Some(b)
    requires var level, e := Level(a, b, c.nullCount), y - Forecast(f, a, b, c.nullCount, q);
      if f.Additive? then a' == level + alpha * e else q > 0.0 ==> a' == level + alpha * (e / q)
    ensures f.Intercept(alpha, Some(y), Some(q), c) == if f.Additive? || q > 0.0 then Some(a') else None
  {
    hide Times, Over, Plus, Minus, Level;
    var level := Level(a, b, c.nullCount);
    LevelOf(a, b, c.nullCount, level);
    if f.Additive? {
      var v := y - q;
      DifferenceOf(Some(y), Some(q), y, q, v);
      assert v - level == y - (level + q);
      MixtureOf(alpha, Some(v), Some(level), v, level, a');
    } else if q > 0.0 {
      var v := y / q;
      QuotientOf(Some(y), Some(q), y, q, v);
      RatioIs(y, level, q);
      MixtureOf(alpha, Some(v), Some(level), v, level, a');
    }
  }

  lemma RatioIs(y: real, level: real, q: real)
    requires q > 0.0
    ensures y / q - level == (y - level * q) / q
  {
    assert (y / q - level) * q == y - level * q;
  }

  lemma SlopeIs(f: Functions, beta: real, c: Coefs, a: real, a': real, b: real, b': real)
    requires c.intercept == Some(a') && c.lastIntercept == Some(a) && c.slope == Some(b)
    requires b' == b + beta * (a' - a - b)
    ensures f.Slope(beta, c) == Some(b')
  {
    hide Times, Plus, Minus;
    var v := a' - a;
    DifferenceOf(Some(a'), Some(a), a', a, v);
    MixtureOf(beta, Some(v), Some(b), v, b, b');
  }

  lemma SeasonalityIs(f: Functions, gamma: real, y: real, a': real, q: real, q': real)
    requires if f.Additive? then q' == q + gamma * (y - a' - q) else a' > 0.0 ==> q' == q + gamma * (y / a' - q)
    ensures f.Seasonality(gamma, Some(y), Some(a'), Some(q)) == if f.Additive? || a' > 0.0 then Some(q') else None
  {
    hide Times, Over, Plus, Minus;
    if f.Additive? {
      var v := y - a';
      DifferenceOf(Some(y), Some(a'), y, a', v);
      MixtureOf(gamma, Some(v), Some(q), v, q, q');
    } else if a' > 0.0 {
      var v := y / a';
      QuotientOf(Some(y), Some(a'), y, a', v);
      MixtureOf(gamma, Some(v), Some(q), v, q, q');
    }
  }

  lemma DeviationIs(f: Functions, gamma: real, forecast: real, y: real, d: real, d': real)
    requires d' == d + gamma * (Size(y - forecast) - d)
    ensures f.SeasonalDeviation(gamma, Some(forecast), Some(y), Some(d)) == Some(d')
    ensures f.InitSeasonalDeviation(Some(forecast), Some(y)) == Some(Size(y - forecast))
  {
    hide Times, Plus, Minus;
    var e, v := forecast - y, Size(y - forecast);
    DifferenceOf(Some(forecast), Some(y), forecast, y, e);
    assert Abs(Some(e)) == Some(v);
    MixtureOf(gamma, Some(v), Some(d), v, d, d');
  }

  lemma ViolationIs(p: Params, y: real, forecast: real, d: real)
    ensures Violation(p, Some(y), Some(forecast), Some(d)) <==>
      y - forecast > p.deltaPos * d || y - forecast < -(p.deltaNeg * d)
  {
    hide Times, Plus, Minus;
    var up, down := p.deltaPos * d, p.deltaNeg * d;
    var above, below := forecast + up, forecast - down;
    ProductOf(Some(p.deltaPos), Some(d), p.deltaPos, d, up);
    ProductOf(Some(p.deltaNeg), Some(d), p.deltaNeg, d, down);
    SumOf(Some(forecast), Some(up), forecast, up, above);
    DifferenceOf(Some(forecast), Some(down), forecast, down, below);
  }

  // ---------------------------------------------------------------- a known value arrives

  /** What does not depend on the method, given the forecast: it is stored, the deviation
      moves by its gain towards the size of the error, the value is a violation exactly if
      the error leaves the band of confidence, and the old coefficients are kept as "last". */
  predicate CommonStep(p: Params, s: Areas, r: Areas, y: real, d: real, forecast: real)
    requires s.violations != []
  {
    var e := y - forecast;
    && Is(r.out.hwpredict, forecast)
    && Is(r.out.devpredict, d)
    && Is(r.out.devseasonal, d + p.gammaDeviation * (Size(e) - d))
    && r.violations == [e > p.deltaPos * d || e < -(p.deltaNeg * d)] + s.violations[..|s.violations| - 1]
    && r.coefs.lastIntercept == s.coefs.intercept && r.coefs.lastSlope == s.coefs.slope
    && r.coefs.lastNullCount == s.coefs.nullCount && r.coefs.nullCount == 1
    && r.seasonal.last == s.seasonal.current && r.deviation.last == s.deviation.current
  }

  lemma CommonIs(p: Params, x: Input, s: Areas, a: real, b: real, n: nat, q: real, d: real, y: real, forecast: real)
    requires Known(s, a, b, n, q, d) && x.observed == Some(y) && forecast == Forecast(p.functions, a, b, n, q)
    ensures CommonStep(p, s, Reference(p, x, s), y, d, forecast)
  {
    hide Forecast, Violation, Size, CountTrue, Functions.Predict, Functions.Intercept, Functions.Slope,
      Functions.Seasonality, Functions.SeasonalDeviation;
    PredictIs(p.functions, a, b, n, q, forecast);
    DeviationIs(p.functions, p.gammaDeviation, forecast, y, d, d + p.gammaDeviation * (Size(y - forecast) - d));
    ViolationIs(p, y, forecast, d);
  }

  /** The coefficients of the step in terms of the formulas. */
  lemma CorrectedIs(p: Params, x: Input, s: Areas, a: real, b: real, n: nat, q: real, d: real, y: real)
    requires Known(s, a, b, n, q, d) && x.observed == Some(y)
    ensures var r := Reference(p, x, s);
      var c := Saved(s.coefs).(intercept := p.functions.Intercept(p.alpha, Some(y), Some(q), Saved(s.coefs)));
      && r.coefs.intercept == c.intercept && r.coefs.slope == p.functions.Slope(p.beta, c)
      && r.out.seasonal == p.functions.Seasonality(p.gammaSeasonal, Some(y), c.intercept, Some(q))
  {
    hide Functions.Predict, Functions.Slope, Functions.Seasonality, Functions.SeasonalDeviation, Violation;
  }

  /** Additive: the forecast is the level plus the seasonal coefficient. With error `e` the
      level is corrected by `alpha * e`, the slope by `beta` of the change of the level
      beyond the slope, the seasonal coefficient by `gamma` of what is left of the error. */
  lemma AdditiveStep(p: Params, x: Input, index: Layout, order: seq<Archive>, s: Areas,
                     a: real, b: real, n: nat, q: real, d: real, y: real)
    requires p.functions.Additive? && GoodOrder(index, order)
    requires Known(s, a, b, n, q, d) && x.observed == Some(y)
    ensures var r := Run(p, x, index, order, s);
      var level := Level(a, b, n);
      var e := y - (level + q);
      && CommonStep(p, s, r, y, d, Forecast(p.functions, a, b, n, q))
      && Is(r.coefs.intercept, level + p.alpha * e)
      && Is(r.coefs.slope, b + p.beta * (level + p.alpha * e - a - b))
      && Is(r.out.seasonal, q + p.gammaSeasonal * ((1.0 - p.alpha) * e))
  {
    hide Run, GoodOrder, Reference, Functions.Intercept, Functions.Slope, Functions.Seasonality, CommonStep;
    StepIsReference(p, x, index, order, s);
    var level := Level(a, b, n);
    var e := y - (level + q);
    var a' := level + p.alpha * e;
    var b', q' := b + p.beta * (a' - a - b), q + p.gammaSeasonal * ((1.0 - p.alpha) * e);
    CommonIs(p, x, s, a, b, n, q, d, y, Forecast(p.functions, a, b, n, q));
    CorrectedIs(p, x, s, a, b, n, q, d, y);
    InterceptIs(p.functions, p.alpha, y, q, Saved(s.coefs), a, b, a');
    SlopeIs(p.functions, p.beta, Saved(s.coefs).(intercept := Some(a')), a, a', b, b');
    assert y - a' - q == (1.0 - p.alpha) * e;
    SeasonalityIs(p.functions, p.gammaSeasonal, y, a', q, q');
  }

  /** Multiplicative: the forecast is the level times the seasonal coefficient, and level
      and seasonal coefficient are corrected by the error over the other factor. A
      seasonal coefficient, or a new level, that is not positive loses what is divided
      by it. */
  lemma MultiplicativeStep(p: Params, x: Input, index: Layout, order: seq<Archive>, s: Areas,
                           a: real, b: real, n: nat, q: real, d: real, y: real)
    requires p.functions.Multiplicative? && GoodOrder(index, order)
    requires Known(s, a, b, n, q, d) && x.observed == Some(y)
    ensures var r := Run(p, x, index, order, s);
      var level := Level(a, b, n);
      var e := y - level * q;
      && CommonStep(p, s, r, y, d, Forecast(p.functions, a, b, n, q))
      && (q > 0.0 ==>
           var a' := level + p.alpha * (e / q);
           && Is(r.coefs.intercept, a')
           && Is(r.coefs.slope, b + p.beta * (a' - a - b))
           && (if a' > 0.0 then Is(r.out.seasonal, q + p.gammaSeasonal * ((1.0 - p.alpha) * e / a'))
               else r.out.seasonal.None?))
      && (q <= 0.0 ==> r.coefs.intercept.None? && r.coefs.slope.None? && r.out.seasonal.None?)
  {
    hide Run, GoodOrder, Reference, Functions.Intercept, Functions.Slope, Functions.Seasonality, CommonStep;
    StepIsReference(p, x, index, order, s);
    var level := Level(a, b, n);
    var e := y - level * q;
    CommonIs(p, x, s, a, b, n, q, d, y, Forecast(p.functions, a, b, n, q));
    CorrectedIs(p, x, s, a, b, n, q, d, y);
    MultiplicativeFormulas(p, Saved(s.coefs), a, b, q, y);
  }

  lemma MultiplicativeFormulas(p: Params, c: Coefs, a: real, b: real, q: real, y: real)
    requires p.functions.Multiplicative?
    requires c.intercept == Some(a) && c.lastIntercept == Some(a) && c.slope == Some(b)
    ensures var level := Level(a, b, c.nullCount);
      var e := y - level * q;
      var c' := c.(intercept := p.functions.Intercept(p.alpha, Some(y), Some(q), c));
      var slope := p.functions.Slope(p.beta, c');
      var seasonal := p.functions.Seasonality(p.gammaSeasonal, Some(y), c'.intercept, Some(q));
      && (q > 0.0 ==>
           var a' := level + p.alpha * (e / q);
           && Is(c'.intercept, a') && Is(slope, b + p.beta * (a' - a - b))
           && (if a' > 0.0 then Is(seasonal, q + p.gammaSeasonal * ((1.0 - p.alpha) * e / a'))
               else seasonal.None?))
      && (q <= 0.0 ==> c'.intercept.None? && slope.None? && seasonal.None?)
  {
    hide Functions.Intercept, Functions.Slope, Functions.Seasonality, Level;
    var level := Level(a, b, c.nullCount);
    var e := y - level * q;
    if q > 0.0 {
      var a' := level + p.alpha * (e / q);
      InterceptIs(p.functions, p.alpha, y, q, c, a, b, a');
      SlopeIs(p.functions, p.beta, c.(intercept := Some(a')), a, a', b, b + p.beta * (a' - a - b));
      if a' > 0.0 {
        LeftOver(p.alpha, y, level, q, a');
        SeasonalityIs(p.functions, p.gammaSeasonal, y, a', q, q + p.gammaSeasonal * (y / a' - q));
      } else {
        SeasonalityIs(p.functions, p.gammaSeasonal, y, a', q, q);
      }
    } else {
      InterceptIs(p.functions, p.alpha, y, q, c, a, b, a);
      NothingFromUnknown(p.functions, p.beta, c.(intercept := None), p.gammaSeasonal, Some(y), Some(q));
    }
  }

  lemma NothingFromUnknown(f: Functions, beta: real, c: Coefs, gamma: real, y: Value, q: Value)
    requires c.intercept.None?
    ensures f.Slope(beta, c) == None && f.Seasonality(gamma, y, None, q) == None
  {
  }

  lemma LeftOver(alpha: real, y: real, level: real, q: real, a': real)
    requires q > 0.0 && a' > 0.0 && a' == level + alpha * ((y - level * q) / q)
    ensures y / a' - q == (1.0 - alpha) * (y - level * q) / a'
  {
    var e := y - level * q;
    assert e / q * q == e;
    assert a' * q == level * q + alpha * e by {
      assert alpha * (e / q) * q == alpha * (e / q * q);
    }
    assert y - a' * q == (1.0 - alpha) * e;
    assert (y / a' - q) * a' == y - a' * q;
  }

  /** A value that is exactly as forecast, right after a known one, changes neither slope
      nor seasonal coefficient; the level moves on by the slope, the deviation shrinks, and
      there is no violation. */
  lemma ExactForecast(p: Params, x: Input, index: Layout, order: seq<Archive>, s: Areas,
                      a: real, b: real, q: real, d: real)
    requires GoodOrder(index, order) && Known(s, a, b, 1, q, d)
    requires x.observed == Some(if p.functions.Additive? then a + b + q else (a + b) * q)
    requires p.deltaPos * d >= 0.0 && p.deltaNeg * d >= 0.0
    requires p.functions.Multiplicative? ==> q > 0.0 && a + b > 0.0
    ensures var r := Run(p, x, index, order, s);
      && r.out.hwpredict == x.observed
      && Is(r.coefs.intercept, a + b) && Is(r.coefs.slope, b) && Is(r.out.seasonal, q)
      && Is(r.out.devseasonal, d - p.gammaDeviation * d) && !r.violations[0]
  {
    hide Run, GoodOrder, CommonStep, Level, Forecast;
    var r := Run(p, x, index, order, s);
    OneSlope(p.functions, a, b, q);
    if p.functions.Additive? {
      ExactAdditive(p, x, index, order, s, a, b, q, d);
    } else {
      ExactMultiplicative(p, x, index, order, s, a, b, q, d);
    }
    Exactly(p, s, r, x.observed.value, d, Forecast(p.functions, a, b, 1, q));
  }

  lemma ExactAdditive(p: Params, x: Input, index: Layout, order: seq<Archive>, s: Areas,
                      a: real, b: real, q: real, d: real)
    requires p.functions.Additive? && GoodOrder(index, order) && Known(s, a, b, 1, q, d)
    requires x.observed == Some(a + b + q)
    ensures var r := Run(p, x, index, order, s);
      && CommonStep(p, s, r, x.observed.value, d, Forecast(p.functions, a, b, 1, q))
      && Is(r.coefs.intercept, a + b) && Is(r.coefs.slope, b) && Is(r.out.seasonal, q)
  {
    hide Run, GoodOrder, CommonStep, Level, Forecast;
    var y := x.observed.value;
    OneSlope(p.functions, a, b, q);
    AdditiveStep(p, x, index, order, s, a, b, 1, q, d, y);
    NoGain(p.alpha, p.beta, p.gammaSeasonal, y - (Level(a, b, 1) + q), 1.0);
  }

  lemma ExactMultiplicative(p: Params, x: Input, index: Layout, order: seq<Archive>, s: Areas,
                            a: real, b: real, q: real, d: real)
    requires p.functions.Multiplicative? && GoodOrder(index, order) && Known(s, a, b, 1, q, d)
    requires x.observed == Some((a + b) * q) && q > 0.0 && a + b > 0.0
    ensures var r := Run(p, x, index, order, s);
      && CommonStep(p, s, r, x.observed.value, d, Forecast(p.functions, a, b, 1, q))
      && Is(r.coefs.intercept, a + b) && Is(r.coefs.slope, b) && Is(r.out.seasonal, q)
  {
    hide Run, GoodOrder, CommonStep, Level, Forecast;
    var y := x.observed.value;
    OneSlope(p.functions, a, b, q);
    MultiplicativeStep(p, x, index, order, s, a, b, 1, q, d, y);
    NoGain(p.alpha, p.beta, p.gammaSeasonal, y - Level(a, b, 1) * q, q);
    NoGain(p.alpha, p.beta, p.gammaSeasonal, y - Level(a, b, 1) * q, a + b);
  }

  lemma OneSlope(f: Functions, a: real, b: real, q: real)
    ensures Level(a, b, 1) == a + b && Level(a, b, 1) * q == (a + b) * q
    ensures Forecast(f, a, b, 1, q) == if f.Additive? then a + b + q else (a + b) * q
  {
  }

  lemma NoGain(alpha: real, beta: real, gamma: real, e: real, r: real)
    requires e == 0.0 && r > 0.0
    ensures e / r == 0.0 && alpha * (e / r) == 0.0 && alpha * e == 0.0 && beta * e == 0.0
    ensures gamma * ((1.0 - alpha) * e) == 0.0 && gamma * ((1.0 - alpha) * e / r) == 0.0
  {
  }

  lemma Exactly(p: Params, s: Areas, r: Areas, y: real, d: real, forecast: real)
    requires s.violations != [] && CommonStep(p, s, r, y, d, forecast) && y == forecast
    requires p.deltaPos * d >= 0.0 && p.deltaNeg * d >= 0.0
    ensures Is(r.out.hwpredict, y) && Is(r.out.devseasonal, d - p.gammaDeviation * d) && !r.violations[0]
  {
    assert Size(y - forecast) - d == -d;
    assert p.gammaDeviation * -d == -(p.gammaDeviation * d);
  }

  // ---------------------------------------------------------------- no value arrives

  /** A missing value keeps all coefficients; it only counts, so that the next forecast is
      one slope further on, and it is a violation. */
  lemma MissingStep(p: Params, x: Input, index: Layout, order: seq<Archive>, s: Areas,
                    a: real, b: real, n: nat, q: real, d: real)
    requires GoodOrder(index, order) && Known(s, a, b, n, q, d) && x.observed.None?
    requires x.nextSeasonal.Some? && x.nextDeviation.Some?
    ensures var r := Run(p, x, index, order, s);
      && Known(r, a, b, n + 1, x.nextSeasonal.value, x.nextDeviation.value)
      && r.out.seasonal == Some(q) && r.out.devseasonal == Some(d) && r.violations[0]
      && Level(a, b, n + 1) == Level(a, b, n) + b
  {
    hide Run, GoodOrder;
    StepIsReference(p, x, index, order, s);
    OneMoreSlope(b, n);
  }

  lemma OneMoreSlope(b: real, n: nat)
    ensures b * (n + 1) as real == b * n as real + b
  {
  }

  // ---------------------------------------------------------------- starting up

  /** The first known value becomes the level, with slope 0. */
  lemma FirstValue(p: Params, x: Input, seasonal: Value, c: Coefs)
    requires c.intercept.None? && x.observed.Some?
    ensures NextCoefs(p, x.observed, seasonal, c) == Coefs(x.observed, x.observed, Some(0.0), Some(0.0), 1, 1)
  {
  }

  /** With a level, the first value at a place of the season gives its coefficient, the
      value's distance from the level or its ratio to it; level and slope wait. */
  lemma FirstSeason(p: Params, x: Input, index: Layout, order: seq<Archive>, s: Areas, a: real, b: real, y: real)
    requires GoodOrder(index, order) && s.violations != [] && x.observed == Some(y)
    requires s.coefs.intercept == Some(a) && s.coefs.slope == Some(b) && s.seasonal.current.None?
    ensures var r := Run(p, x, index, order, s);
      && r.coefs.intercept == Some(a) && r.coefs.slope == Some(b) && r.coefs.nullCount == s.coefs.nullCount
      && r.out.hwpredict.None? && r.out.devseasonal.None?
      && (p.functions.Additive? ==> r.out.seasonal.Some? && a + r.out.seasonal.value == y)
      && (p.functions.Multiplicative? && a > 0.0 ==> r.out.seasonal.Some? && a * r.out.seasonal.value == y)
      && (p.functions.Multiplicative? && a <= 0.0 ==> r.out.seasonal.None?)
  {
    hide Run, GoodOrder;
    StepIsReference(p, x, index, order, s);
    if p.functions.Multiplicative? && a > 0.0 {
      assert a * (y / a) == y;
    }
  }

  /** The first error at a place of the season is its deviation, and no violation. */
  lemma FirstDeviation(p: Params, x: Input, index: Layout, order: seq<Archive>, s: Areas,
                       a: real, b: real, n: nat, q: real, y: real)
    requires GoodOrder(index, order) && s.violations != [] && x.observed == Some(y)
    requires s.coefs.intercept == Some(a) && s.coefs.slope == Some(b) && s.coefs.nullCount == n
    requires s.seasonal.current == Some(q) && s.deviation.current.None?
    ensures var r := Run(p, x, index, order, s);
      var forecast := Forecast(p.functions, a, b, n, q);
      Is(r.out.hwpredict, forecast) && Is(r.out.devseasonal, Size(y - forecast)) && !r.violations[0]
  {
    hide Run, GoodOrder, Functions.Predict, Functions.InitSeasonalDeviation;
    StepIsReference(p, x, index, order, s);
    var forecast := Forecast(p.functions, a, b, n, q);
    PredictIs(p.functions, a, b, n, q, forecast);
    DeviationIs(p.functions, 0.0, forecast, y, 0.0, 0.0);
  }
}
