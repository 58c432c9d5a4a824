/** One update step of the five archives of Holt-Winters aberrant-behaviour detection, for
    one data source. The archives are updated in index order; each reads the others
    through "current" and "last" copies of their coefficients, chosen by comparing
    indices. */
module HoltWinters {
  import opened Text

  // ---------------------------------------------------------------- rrd_hw_math.c

  function Plus(a: Value, b: Value): Value {
    if a.Some? && b.Some? then Some(a.value + b.value) else None
  }

  function Minus(a: Value, b: Value): Value {
    if a.Some? && b.Some? then Some(a.value - b.value) else None
  }

  function Times(a: Value, b: Value): Value {
    if a.Some? && b.Some? then Some(a.value * b.value) else None
  }

  /** Division, where the source has excluded a divisor that is not positive. */
  function Over(a: Value, b: Value): Value
    requires b.Some? ==> b.value > 0.0
  {
    if a.Some? && b.Some? then Some(a.value / b.value) else None
  }

  /** C comparisons with NaN are false. */
  predicate NotPositive(a: Value) {
    a.Some? && a.value <= 0.0
  }

  predicate Less(a: Value, b: Value) {
    a.Some? && b.Some? && a.value < b.value
  }

  function Abs(a: Value): Value {
    if a.Some? then Some(if a.value < 0.0 then -a.value else a.value) else None
  }

  function Real(n: nat): Value {
    Some(n as real)
  }

  /** `hw_functions_t` */
  datatype Functions = Additive | Multiplicative {
    function Predict(intercept: Value, slope: Value, nullCount: nat, seasonal: Value): Value {
      var level := Plus(intercept, Times(slope, Real(nullCount)));
      match this
      case Additive => Plus(level, seasonal)
      case Multiplicative => Times(level, seasonal)
    }

    function Intercept(alpha: real, observed: Value, seasonal: Value, c: Coefs): Value {
      var level := Plus(c.intercept, Times(c.slope, Real(c.nullCount)));
      var rest := Times(Some(1.0 - alpha), level);
      match this
      case Additive => Plus(Times(Some(alpha), Minus(observed, seasonal)), rest)
      case Multiplicative =>
        if NotPositive(seasonal) then None else Plus(Times(Some(alpha), Over(observed, seasonal)), rest)
    }

    function Slope(beta: real, c: Coefs): Value {
      Plus(Times(Some(beta), Minus(c.intercept, c.lastIntercept)), Times(Some(1.0 - beta), c.slope))
    }

    function Seasonality(gamma: real, observed: Value, intercept: Value, seasonal: Value): Value {
      var rest := Times(Some(1.0 - gamma), seasonal);
      match this
      case Additive => Plus(Times(Some(gamma), Minus(observed, intercept)), rest)
      case Multiplicative =>
        if NotPositive(intercept) then None else Plus(Times(Some(gamma), Over(observed, intercept)), rest)
    }

    function InitSeasonality(seasonal: Value, intercept: Value): Value {
      match this
      case Additive => Minus(seasonal, intercept)
      case Multiplicative => if NotPositive(intercept) then None else Over(seasonal, intercept)
    }

    function SeasonalDeviation(gamma: real, prediction: Value, observed: Value, last: Value): Value {
      Plus(Times(Some(gamma), Abs(Minus(prediction, observed))), Times(Some(1.0 - gamma), last))
    }

    function InitSeasonalDeviation(prediction: Value, observed: Value): Value {
      Abs(Minus(prediction, observed))
    }

    function Identity(): Value {
      match this
      case Additive => Some(0.0)
      case Multiplicative => Some(1.0)
    }
  }

  // ---------------------------------------------------------------- the CDP areas

  /** HWPREDICT's coefficients. */
  datatype Coefs = Coefs(
    intercept: Value, lastIntercept: Value,
    slope: Value, lastSlope: Value,
    nullCount: nat, lastNullCount: nat)

  /** The seasonal coefficient of SEASONAL, or the deviation of DEVSEASONAL. */
  datatype Pair = Pair(current: Value, last: Value)

  datatype Archive = HWPREDICT | SEASONAL | DEVSEASONAL | DEVPREDICT | FAILURES

  /** What each archive stores in its next row: the scratch value its update leaves. */
  datatype Outputs = Outputs(hwpredict: Value, seasonal: Value, devseasonal: Value, devpredict: Value, failures: Value)

  datatype Areas = Areas(coefs: Coefs, seasonal: Pair, deviation: Pair, violations: seq<bool>, out: Outputs)

  /** The parameters of the archives. */
  datatype Params = Params(
    functions: Functions,
    alpha: real, beta: real, gammaSeasonal: real, gammaDeviation: real,
    deltaPos: real, deltaNeg: real,
    threshold: nat)

  /** What one step gets: the observed value, and the next coefficients read from disk. */
  datatype Input = Input(observed: Value, nextSeasonal: Value, nextDeviation: Value)

  /** `index(a)` is the RRA index of archive `a`; only comparisons of indices matter. */
  type Layout = Archive -> nat

  // ---------------------------------------------------------------- rrd_hw_update.c

  predicate Uninitialized(intercept: Value, slope: Value) {
    intercept.None? || slope.None?
  }

  function Saved(c: Coefs): Coefs {
    c.(lastIntercept := c.intercept, lastSlope := c.slope, lastNullCount := c.nullCount)
  }

  /** `update_hwpredict` on its own coefficients, given the seasonal coefficient. */
  function NextCoefs(p: Params, observed: Value, seasonal: Value, c0: Coefs): Coefs {
    var c := Saved(c0);
    if Uninitialized(c.intercept, c.slope) || seasonal.None? then
      if c.intercept.None? && observed.Some? then
        Coefs(observed, observed, Some(0.0), Some(0.0), 1, 1)
      else c
    else if observed.None? then c.(nullCount := c.nullCount + 1)
    else
      var c1 := c.(intercept := p.functions.Intercept(p.alpha, observed, seasonal, c));
      c1.(slope := p.functions.Slope(p.beta, c1), nullCount := 1)
  }

  function Prediction(p: Params, c: Coefs, seasonal: Value): Value {
    if Uninitialized(c.intercept, c.slope) || seasonal.None? then None
    else p.functions.Predict(c.intercept, c.slope, c.nullCount, seasonal)
  }

  function UpdateHwpredict(p: Params, x: Input, index: Layout, s: Areas): Areas {
    var seasonal := if index(SEASONAL) < index(HWPREDICT) then s.seasonal.last else s.seasonal.current;
    s.(coefs := NextCoefs(p, x.observed, seasonal, s.coefs),
       out := s.out.(hwpredict := Prediction(p, s.coefs, seasonal)))
  }

  function SeasonalOut(p: Params, x: Input, hwDone: bool, c: Coefs, seasonal: Value): Value {
    if x.observed.None? then seasonal
    else if hwDone then
      if Uninitialized(c.lastIntercept, c.lastSlope) then None
      else if seasonal.None? then p.functions.InitSeasonality(x.observed, c.lastIntercept)
      else p.functions.Seasonality(p.gammaSeasonal, x.observed, c.intercept, seasonal)
    else
      if Uninitialized(c.intercept, c.slope) then p.functions.Identity()
      else if seasonal.None? then p.functions.InitSeasonality(x.observed, c.intercept)
      else
        var intercept := p.functions.Intercept(p.alpha, x.observed, seasonal, c);
        p.functions.Seasonality(p.gammaSeasonal, x.observed, intercept, seasonal)
  }

  function UpdateSeasonal(p: Params, x: Input, index: Layout, s: Areas): Areas {
    s.(seasonal := Pair(x.nextSeasonal, s.seasonal.current),
       out := s.out.(seasonal := SeasonalOut(p, x, index(HWPREDICT) < index(SEASONAL), s.coefs, s.seasonal.current)))
  }

  function UpdateDevpredict(index: Layout, s: Areas): Areas {
    s.(out := s.out.(devpredict :=
      if index(DEVSEASONAL) < index(DEVPREDICT) then s.deviation.last else s.deviation.current))
  }

  /** The prediction as another archive reconstructs it, from the "last" coefficients if
      HWPREDICT has been updated. */
  function Reconstructed(p: Params, hwDone: bool, c: Coefs, seasonal: Value): Value {
    if hwDone then Prediction(p, Coefs(c.lastIntercept, None, c.lastSlope, None, c.lastNullCount, 0), seasonal)
    else Prediction(p, c, seasonal)
  }

  function DeviationOut(p: Params, x: Input, prediction: Value, last: Value): Value {
    if prediction.None? then None
    else if x.observed.None? then last
    else if last.None? then p.functions.InitSeasonalDeviation(prediction, x.observed)
    else p.functions.SeasonalDeviation(p.gammaDeviation, prediction, x.observed, last)
  }

  function UpdateDevseasonal(p: Params, x: Input, index: Layout, s: Areas): Areas {
    var seasonal := if index(SEASONAL) < index(DEVSEASONAL) then s.seasonal.last else s.seasonal.current;
    var prediction := Reconstructed(p, index(HWPREDICT) < index(DEVSEASONAL), s.coefs, seasonal);
    s.(deviation := Pair(x.nextDeviation, s.deviation.current),
       out := s.out.(devseasonal := DeviationOut(p, x, prediction, s.deviation.current)))
  }

  /** Whether the observed value counts as a violation; an unknown value does, an unknown
      deviation never does. */
  predicate Violation(p: Params, observed: Value, prediction: Value, deviation: Value) {
    && deviation.Some?
    && (observed.None?
        || Less(Plus(prediction, Times(Some(p.deltaPos), deviation)), observed)
        || Less(observed, Minus(prediction, Times(Some(p.deltaNeg), deviation))))
  }

  function CountTrue(w: seq<bool>): nat {
    if w == [] then 0 else CountTrue(w[..|w| - 1]) + if w[|w| - 1] then 1 else 0
  }

  /** The violation window after one more flag, newest first. */
  function Shifted(flag: bool, w: seq<bool>): seq<bool>
    requires w != []
  {
    [flag] + w[..|w| - 1]
  }

  function FailureOut(p: Params, w: seq<bool>): Value {
    if CountTrue(w) < p.threshold then Some(0.0) else Some(1.0)
  }

  /** Note that the index of SEASONAL, not of DEVSEASONAL, decides which deviation is read. */
  function UpdateFailures(p: Params, x: Input, index: Layout, s: Areas): Areas
    requires s.violations != []
  {
    var deviation := if index(FAILURES) < index(SEASONAL) then s.deviation.current else s.deviation.last;
    var seasonal := if index(FAILURES) < index(SEASONAL) then s.seasonal.current else s.seasonal.last;
    var prediction := Reconstructed(p, !(index(FAILURES) < index(HWPREDICT)), s.coefs, seasonal);
    var w := Shifted(Violation(p, x.observed, prediction, deviation), s.violations);
    s.(violations := w, out := s.out.(failures := FailureOut(p, w)))
  }

  /** `update_aberrant_CF` */
  function Update(p: Params, x: Input, index: Layout, a: Archive, s: Areas): Areas
    requires s.violations != []
  {
    match a
    case HWPREDICT => UpdateHwpredict(p, x, index, s)
    case SEASONAL => UpdateSeasonal(p, x, index, s)
    case DEVSEASONAL => UpdateDevseasonal(p, x, index, s)
    case DEVPREDICT => UpdateDevpredict(index, s)
    case FAILURES => UpdateFailures(p, x, index, s)
  }

  // ---------------------------------------------------------------- a whole step

  /** `order` lists the archives by increasing index. */
  predicate InOrder(index: Layout, order: seq<Archive>) {
    && |order| == 5
    && forall i, j :: 0 <= i < j < 5 ==> index(order[i]) < index(order[j])
  }

  function Run(p: Params, x: Input, index: Layout, order: seq<Archive>, s: Areas): (r: Areas)
    requires s.violations != []
    ensures r.violations != []
  {
    if order == [] then s
    else Update(p, x, index, order[|order| - 1], Run(p, x, index, order[..|order| - 1], s))
  }

  predicate Between(index: Layout) {
    || index(SEASONAL) < index(FAILURES) < index(DEVSEASONAL)
    || index(DEVSEASONAL) < index(FAILURES) < index(SEASONAL)
  }

  /** The step computed from the old coefficients only, without regard to any order. */
  function Reference(p: Params, x: Input, s: Areas): Areas
    requires s.violations != []
  {
    var prediction := Prediction(p, s.coefs, s.seasonal.current);
    var w := Shifted(Violation(p, x.observed, prediction, s.deviation.current), s.violations);
    Areas(
      NextCoefs(p, x.observed, s.seasonal.current, s.coefs),
      Pair(x.nextSeasonal, s.seasonal.current),
      Pair(x.nextDeviation, s.deviation.current),
      w,
      Outputs(
        prediction,
        SeasonalOut(p, x, false, s.coefs, s.seasonal.current),
        DeviationOut(p, x, prediction, s.deviation.current),
        s.deviation.current,
        FailureOut(p, w)))
  }

  /** When the step does not depend on whether HWPREDICT is updated before the archives
      that use its coefficients: the value is unknown, or both coefficients are known, or
      HWPREDICT bootstraps while no seasonal coefficient is known either (and, in the
      multiplicative method, the value is positive). */
  predicate Independent(p: Params, x: Input, s: Areas) {
    || x.observed.None?
    || !Uninitialized(s.coefs.intercept, s.coefs.slope)
    || (s.coefs.intercept.None? && s.seasonal.current.None?
        && (p.functions.Additive? || x.observed.value > 0.0))
  }

  /** After the archives in `done`, each part is as in the reference if its archive is
      done, and as before the step otherwise. */
  predicate Partly(p: Params, x: Input, s0: Areas, done: set<Archive>, s: Areas)
    requires s0.violations != []
  {
    var r := Reference(p, x, s0);
    && s.coefs == (if HWPREDICT in done then r.coefs else s0.coefs)
    && s.seasonal == (if SEASONAL in done then r.seasonal else s0.seasonal)
    && s.deviation == (if DEVSEASONAL in done then r.deviation else s0.deviation)
    && s.violations == (if FAILURES in done then r.violations else s0.violations)
    && s.out.hwpredict == (if HWPREDICT in done then r.out.hwpredict else s0.out.hwpredict)
    && s.out.seasonal == (if SEASONAL in done then r.out.seasonal else s0.out.seasonal)
    && s.out.devseasonal == (if DEVSEASONAL in done then r.out.devseasonal else s0.out.devseasonal)
    && s.out.devpredict == (if DEVPREDICT in done then r.out.devpredict else s0.out.devpredict)
    && s.out.failures == (if FAILURES in done then r.out.failures else s0.out.failures)
  }

  /** The "last" coefficients of an updated HWPREDICT give the prediction it had. */
  lemma ReconstructedIs(p: Params, x: Input, s: Areas, seasonal: Value)
    requires Independent(p, x, s) && seasonal == s.seasonal.current
    ensures Reconstructed(p, true, NextCoefs(p, x.observed, seasonal, s.coefs), seasonal)
      == Prediction(p, s.coefs, seasonal)
  {
  }

  /** SEASONAL gets the same value from an updated HWPREDICT as from the old one. */
  lemma SeasonalOutIs(p: Params, x: Input, s: Areas)
    requires Independent(p, x, s)
    ensures var seasonal := s.seasonal.current;
      SeasonalOut(p, x, true, NextCoefs(p, x.observed, seasonal, s.coefs), seasonal) ==
      SeasonalOut(p, x, false, s.coefs, seasonal)
  {
    if x.observed.Some? && x.observed.value > 0.0 {
      assert x.observed.value / x.observed.value == 1.0;
    }
  }

  lemma UpdatePartly(p: Params, x: Input, index: Layout, s0: Areas, done: set<Archive>, a: Archive, s: Areas)
    requires s0.violations != [] && s.violations != [] && Independent(p, x, s0)
    requires a == FAILURES ==> !Between(index)
    requires Partly(p, x, s0, done, s) && a !in done
    requires forall b: Archive :: b != a ==> (b in done <==> index(b) < index(a))
    requires forall b: Archive, c: Archive :: b != c ==> index(b) != index(c)
    ensures Partly(p, x, s0, done + {a}, Update(p, x, index, a, s))
  {
    ReconstructedIs(p, x, s0, s0.seasonal.current);
    SeasonalOutIs(p, x, s0);
  }

  // ---------------------------------------------------------------- order independence

  ghost function Members(order: seq<Archive>): set<Archive> {
    set a | a in order
  }

  lemma EveryArchive(index: Layout, order: seq<Archive>, a: Archive)
    requires InOrder(index, order)
    ensures a in order
  {
    var i0, i1, i2, i3, i4 := order[0], order[1], order[2], order[3], order[4];
    assert index(i0) < index(i1) < index(i2) < index(i3) < index(i4);
    assert i0 == HWPREDICT || i0 == SEASONAL || i0 == DEVSEASONAL || i0 == DEVPREDICT || i0 == FAILURES;
    assert i1 == HWPREDICT || i1 == SEASONAL || i1 == DEVSEASONAL || i1 == DEVPREDICT || i1 == FAILURES;
    assert i2 == HWPREDICT || i2 == SEASONAL || i2 == DEVSEASONAL || i2 == DEVPREDICT || i2 == FAILURES;
    assert i3 == HWPREDICT || i3 == SEASONAL || i3 == DEVSEASONAL || i3 == DEVPREDICT || i3 == FAILURES;
    assert a == i0 || a == i1 || a == i2 || a == i3 || a == i4;
  }

  /** The archives before position `n` are those with a smaller index. */
  lemma DoneIs(index: Layout, order: seq<Archive>, n: nat)
    requires InOrder(index, order) && n < 5
    ensures forall b: Archive :: b != order[n] ==> (b in Members(order[..n]) <==> index(b) < index(order[n]))
    ensures forall b: Archive, c: Archive :: b != c ==> index(b) != index(c)
    ensures order[n] !in Members(order[..n]) && Members(order[..n + 1]) == Members(order[..n]) + {order[n]}
  {
    assert order[..n + 1] == order[..n] + [order[n]];
    forall b: Archive
      ensures b != order[n] ==> (b in Members(order[..n]) <==> index(b) < index(order[n]))
    {
      EveryArchive(index, order, b);
      var i :| 0 <= i < 5 && order[i] == b;
      if i < n {
        assert order[..n][i] == b;
      }
    }
    forall b: Archive, c: Archive | b != c
      ensures index(b) != index(c)
    {
      EveryArchive(index, order, b);
      EveryArchive(index, order, c);
    }
  }

  lemma {:induction false} RunPartly(p: Params, x: Input, index: Layout, order: seq<Archive>, n: nat, s: Areas)
    requires s.violations != [] && Independent(p, x, s) && InOrder(index, order) && n <= 5
    requires Between(index) ==> FAILURES !in order[..n]
    ensures Partly(p, x, s, Members(order[..n]), Run(p, x, index, order[..n], s))
  {
    if n > 0 {
      assert order[..n][..n - 1] == order[..n - 1] && order[..n] == order[..n - 1] + [order[n - 1]];
      RunPartly(p, x, index, order, n - 1, s);
      DoneIs(index, order, n - 1);
      UpdatePartly(p, x, index, s, Members(order[..n - 1]), order[n - 1], Run(p, x, index, order[..n - 1], s));
    }
  }

  /** Whatever the order of the archives, as long as FAILURES does not stand between
      SEASONAL and DEVSEASONAL, a step stores the same values and leaves the same
      coefficients: those computed from the old coefficients alone. */
  lemma OrderIndependence(p: Params, x: Input, index: Layout, order: seq<Archive>, s: Areas)
    requires s.violations != [] && InOrder(index, order) && !Between(index)
    requires Independent(p, x, s)
    ensures Run(p, x, index, order, s) == Reference(p, x, s)
  {
    RunPartly(p, x, index, order, 5, s);
    assert order[..5] == order;
    forall a: Archive
      ensures a in Members(order)
    {
      EveryArchive(index, order, a);
    }
  }

  // ---------------------------------------------------------------- exactly when

  lemma RunUnrolled(p: Params, x: Input, index: Layout, order: seq<Archive>, s: Areas)
    requires s.violations != [] && |order| == 5
    ensures var s1 := Run(p, x, index, order[..2], s);
      && s1 == Update(p, x, index, order[1], Update(p, x, index, order[0], s))
      && Run(p, x, index, order, s) ==
        Update(p, x, index, order[4], Update(p, x, index, order[3], Update(p, x, index, order[2], s1)))
  {
    hide Update;
    RunNext(p, x, index, order, 0, s);
    RunNext(p, x, index, order, 1, s);
    RunNext(p, x, index, order, 2, s);
    RunNext(p, x, index, order, 3, s);
    RunNext(p, x, index, order, 4, s);
    assert order[..0] == [] && order[..5] == order;
  }

  lemma RunNext(p: Params, x: Input, index: Layout, order: seq<Archive>, n: nat, s: Areas)
    requires s.violations != [] && n < |order|
    ensures Run(p, x, index, order[..n + 1], s) == Update(p, x, index, order[n], Run(p, x, index, order[..n], s))
  {
    hide Update;
    assert order[..n + 1][..n] == order[..n];
  }

  /** The order in which `create_hw_contingent_rras` lays the archives out. */
  const CREATED: seq<Archive> := [HWPREDICT, SEASONAL, DEVSEASONAL, DEVPREDICT, FAILURES]

  function CreatedIndex(a: Archive): nat {
    match a
    case HWPREDICT => 0
    case SEASONAL => 1
    case DEVSEASONAL => 2
    case DEVPREDICT => 3
    case FAILURES => 4
  }

  /** Another layout, with the seasonal archives in front of HWPREDICT. */
  const SEASONAL_FIRST: seq<Archive> := [SEASONAL, DEVSEASONAL, HWPREDICT, DEVPREDICT, FAILURES]

  function SeasonalFirstIndex(a: Archive): nat {
    match a
    case SEASONAL => 0
    case DEVSEASONAL => 1
    case HWPREDICT => 2
    case DEVPREDICT => 3
    case FAILURES => 4
  }

  lemma DependsOnOrder(p: Params, x: Input, s: Areas)
    requires s.violations != [] && !Independent(p, x, s)
    ensures Run(p, x, CreatedIndex, CREATED, s).out != Run(p, x, SeasonalFirstIndex, SEASONAL_FIRST, s).out
  {
    RunUnrolled(p, x, CreatedIndex, CREATED, s);
    RunUnrolled(p, x, SeasonalFirstIndex, SEASONAL_FIRST, s);
    var r1 := Run(p, x, CreatedIndex, CREATED, s).out;
    var r2 := Run(p, x, SeasonalFirstIndex, SEASONAL_FIRST, s).out;
    if s.coefs.intercept.Some? || s.seasonal.current.None? {
      assert r1.seasonal.None? && r2.seasonal == p.functions.Identity();
    } else {
      assert r1.devseasonal.Some? && r2.devseasonal.None?;
    }
  }

  /** All layouts with FAILURES outside SEASONAL and DEVSEASONAL give the same result. */
  ghost predicate SameInEveryOrder(p: Params, x: Input, s: Areas)
    requires s.violations != []
  {
    forall index, order, index', order' ::
      InOrder(index, order) && InOrder(index', order') && !Between(index) && !Between(index')
      ==> Run(p, x, index, order, s) == Run(p, x, index', order', s)
  }

  lemma ExactlyWhenIndependent(p: Params, x: Input, s: Areas)
    requires s.violations != []
    ensures SameInEveryOrder(p, x, s) <==> Independent(p, x, s)
  {
    hide Run, Reference, Independent;
    if Independent(p, x, s) {
      forall index, order | InOrder(index, order) && !Between(index)
        ensures Run(p, x, index, order, s) == Reference(p, x, s)
      {
        OrderIndependence(p, x, index, order, s);
      }
    } else {
      DependsOnOrder(p, x, s);
      assert InOrder(CreatedIndex, CREATED) && InOrder(SeasonalFirstIndex, SEASONAL_FIRST);
    }
  }

  lemma UpdateKeepsFailures(p: Params, x: Input, index: Layout, a: Archive, s: Areas)
    requires s.violations != [] && a != FAILURES
    ensures var r := Update(p, x, index, a, s); r.violations == s.violations && r.out.failures == s.out.failures
  {
  }

  lemma {:induction false} FailuresKept(p: Params, x: Input, index: Layout, order: seq<Archive>, k: nat, n: nat,
                                        s: Areas)
    requires s.violations != [] && k <= n <= |order| && forall i :: k <= i < n ==> order[i] != FAILURES
    ensures var r, r' := Run(p, x, index, order[..n], s), Run(p, x, index, order[..k], s);
      r.violations == r'.violations && r.out.failures == r'.out.failures
  {
    hide Update;
    if k < n {
      FailuresKept(p, x, index, order, k, n - 1, s);
      RunNext(p, x, index, order, n - 1, s);
      UpdateKeepsFailures(p, x, index, order[n - 1], Run(p, x, index, order[..n - 1], s));
    }
  }

  lemma UpdateShifts(p: Params, x: Input, index: Layout, s: Areas)
    requires s.violations != []
    ensures var r := Update(p, x, index, FAILURES, s);
      r.violations == Shifted(r.violations[0], s.violations) && r.out.failures == FailureOut(p, r.violations)
  {
  }

  /** With FAILURES between the two, on the other hand, a stale or a future deviation is
      read: here the value is unknown, which counts as a violation since the deviation is
      known, but the deviation that is read instead is not. */
  lemma BetweenReadsWrongDeviation(p: Params, index: Layout, order: seq<Archive>, s: Areas)
    requires InOrder(index, order) && Between(index)
    requires s.violations != [] && s.deviation == Pair(Some(1.0), None)
    ensures Reference(p, Input(None, None, None), s).violations[0]
    ensures !Run(p, Input(None, None, None), index, order, s).violations[0]
  {
    hide Run, CountTrue;
    var x := Input(None, None, None);
    EveryArchive(index, order, FAILURES);
    var k :| 0 <= k < 5 && order[k] == FAILURES;
    DoneIs(index, order, k);
    RunPartly(p, x, index, order, k, s);
    var s1 := Run(p, x, index, order[..k], s);
    RunNext(p, x, index, order, k, s);
    assert !UpdateFailures(p, x, index, s1).violations[0];
    FailuresKept(p, x, index, order, k + 1, 5, s);
    assert order[..5] == order;
  }

  /** The layouts in which the indices never matter are exactly those that do not put
      FAILURES between the two. */
  lemma GoodLayoutsExactly(p: Params, index: Layout, order: seq<Archive>)
    requires InOrder(index, order)
    ensures !Between(index) <==>
      forall x: Input, s: Areas :: s.violations != [] && Independent(p, x, s) ==>
        Run(p, x, index, order, s) == Reference(p, x, s)
  {
    hide Run, Reference, InOrder;
    if Between(index) {
      var x := Input(None, None, None);
      var s := Areas(Coefs(None, None, None, None, 0, 0), Pair(None, None), Pair(Some(1.0), None), [false],
                     Outputs(None, None, None, None, None));
      assert Independent(p, x, s);
      BetweenReadsWrongDeviation(p, index, order, s);
    } else {
      forall x: Input, s: Areas | s.violations != [] && Independent(p, x, s)
        ensures Run(p, x, index, order, s) == Reference(p, x, s)
      {
        OrderIndependence(p, x, index, order, s);
      }
    }
  }

  lemma CreatedLayoutIsGood()
    ensures InOrder(CreatedIndex, CREATED) && !Between(CreatedIndex)
  {
  }

  // ---------------------------------------------------------------- failure detection

  lemma CountTrueLast(w: seq<bool>)
    requires w != []
    ensures CountTrue(w) == CountTrue(w[..|w| - 1]) + if w[|w| - 1] then 1 else 0
    ensures |w| == 1 ==> CountTrue(w) == if w[0] then 1 else 0
  {
  }

  lemma {:induction false} CountTrueConcat(a: seq<bool>, b: seq<bool>)
    ensures CountTrue(a + b) == CountTrue(a) + CountTrue(b)
  {
    if b == [] {
      assert a + b == a;
    } else {
      CountTrueConcat(a, b[..|b| - 1]);
      assert (a + b)[..|a + b| - 1] == a + b[..|b| - 1];
    }
  }

  /** The last `n` flags, newest first; before the first flag the history is erased. */
  function Newest(flags: seq<bool>, n: nat): seq<bool> {
    seq(n, i requires 0 <= i < n => i < |flags| && flags[|flags| - 1 - i])
  }

  lemma NewestShifts(flags: seq<bool>, flag: bool, n: nat)
    requires n > 0
    ensures Newest(flags + [flag], n) == Shifted(flag, Newest(flags, n))
  {
    var w := Shifted(flag, Newest(flags, n));
    assert |w| == n;
    forall i | 0 <= i < n
      ensures Newest(flags + [flag], n)[i] == w[i]
    {
    }
  }

  /** The number of violations in the window is the number of set flags among the last `n`. */
  lemma {:induction false} NewestCount(flags: seq<bool>, n: nat)
    ensures CountTrue(Newest(flags, n)) == CountTrue(if |flags| <= n then flags else flags[|flags| - n..])
  {
    if n == 0 {
      assert flags[|flags|..] == [];
    } else {
      var w := Newest(flags, n);
      NewestCount(flags, n - 1);
      assert w[..n - 1] == Newest(flags, n - 1);
      if |flags| >= n {
        var last := flags[|flags| - n..];
        CountTrueConcat([last[0]], last[1..]);
        assert last == [last[0]] + last[1..] && last[1..] == flags[|flags| - (n - 1)..];
        assert CountTrue([last[0]]) == (if last[0] then 1 else 0) by {
          assert [last[0]][..0] == [];
        }
        if |flags| == n {
          assert last == flags;
        }
      }
    }
  }

  /** One step pushes one flag onto the window, whatever the order of the archives. */
  lemma RunShifts(p: Params, x: Input, index: Layout, order: seq<Archive>, s: Areas)
    requires s.violations != [] && InOrder(index, order)
    ensures var r := Run(p, x, index, order, s);
      r.violations == Shifted(r.violations[0], s.violations) && r.out.failures == FailureOut(p, r.violations)
  {
    EveryArchive(index, order, FAILURES);
    var k :| 0 <= k < 5 && order[k] == FAILURES;
    DoneIs(index, order, k);
    FailuresKept(p, x, index, order, 0, k, s);
    RunNext(p, x, index, order, k, s);
    UpdateShifts(p, x, index, Run(p, x, index, order[..k], s));
    FailuresKept(p, x, index, order, k + 1, 5, s);
    hide Update;
    assert order[..5] == order && order[..0] == [];
  }

  function Steps(p: Params, xs: seq<Input>, index: Layout, order: seq<Archive>, s: Areas): (r: Areas)
    requires s.violations != []
    ensures r.violations != []
  {
    if xs == [] then s
    else Run(p, xs[|xs| - 1], index, order, Steps(p, xs[..|xs| - 1], index, order, s))
  }

  /** The flags of all steps, oldest first. */
  function Flags(p: Params, xs: seq<Input>, index: Layout, order: seq<Archive>, s: Areas): (f: seq<bool>)
    requires s.violations != []
    ensures |f| == |xs|
  {
    if xs == [] then []
    else Flags(p, xs[..|xs| - 1], index, order, s) + [Steps(p, xs, index, order, s).violations[0]]
  }

  /** From an erased history, after any number of steps, the window holds the last flags,
      newest first, and a failure is stored exactly when as many of them as the threshold
      says are set. */
  lemma {:induction false} FailureHistory(p: Params, xs: seq<Input>, index: Layout, order: seq<Archive>, s: Areas)
    requires s.violations != [] && s.violations == Newest([], |s.violations|) && InOrder(index, order)
    ensures var n, flags, r := |s.violations|, Flags(p, xs, index, order, s), Steps(p, xs, index, order, s);
      && r.violations == Newest(flags, n)
      && (xs != [] ==>
            var last := if |flags| <= n then flags else flags[|flags| - n..];
            r.out.failures == Some(if CountTrue(last) >= p.threshold then 1.0 else 0.0))
  {
    hide Run, InOrder, Newest, CountTrue;
    if xs != [] {
      var m := |xs| - 1;
      var n := |s.violations|;
      FailureHistory(p, xs[..m], index, order, s);
      RunShifts(p, xs[m], index, order, Steps(p, xs[..m], index, order, s));
      var flags := Flags(p, xs[..m], index, order, s);
      NewestShifts(flags, Steps(p, xs, index, order, s).violations[0], n);
      NewestCount(Flags(p, xs, index, order, s), n);
    }
  }

  // ---------------------------------------------------------------- the updates, in place

  /** The CDP areas of one data source, as the `update_*` functions overwrite them. */
  class CdpAreas {
    var coefs: Coefs
    var seasonal: Pair
    var deviation: Pair
    const violations: array<bool>
    var out: Outputs

    ghost function View(): Areas
      reads this, violations
    {
      Areas(coefs, seasonal, deviation, violations[..], out)
    }

    constructor (s: Areas)
      ensures View() == s
    {
      coefs, seasonal, deviation, out := s.coefs, s.seasonal, s.deviation, s.out;
      violations := new bool[|s.violations|](i requires 0 <= i < |s.violations| => s.violations[i]);
    }

    /** `erase_violations` */
    method EraseViolations()
      modifies violations
      ensures View() == old(View()).(violations := Newest([], violations.Length))
    {
      var i := violations.Length;
      while i > 0
        invariant 0 <= i <= violations.Length && forall k :: i <= k < violations.Length ==> !violations[k]
      {
        violations[i - 1] := false;
        i := i - 1;
      }
    }

    method Hwpredict(p: Params, x: Input, index: Layout)
      modifies this
      ensures View() == UpdateHwpredict(p, x, index, old(View()))
    {
      coefs := coefs.(lastIntercept := coefs.intercept);
      coefs := coefs.(lastSlope := coefs.slope);
      coefs := coefs.(lastNullCount := coefs.nullCount);
      var seasonalCoef := if index(SEASONAL) < index(HWPREDICT) then seasonal.last else seasonal.current;
      var prediction: Value := None;
      if coefs.intercept.None? || coefs.slope.None? || seasonalCoef.None? {
        if coefs.intercept.None? && x.observed.Some? {
          coefs := Coefs(x.observed, x.observed, Some(0.0), Some(0.0), 1, 1);
        }
      } else {
        prediction := p.functions.Predict(coefs.intercept, coefs.slope, coefs.nullCount, seasonalCoef);
        if x.observed.None? {
          coefs := coefs.(nullCount := coefs.nullCount + 1);
        } else {
          coefs := coefs.(intercept := p.functions.Intercept(p.alpha, x.observed, seasonalCoef, coefs));
          coefs := coefs.(slope := p.functions.Slope(p.beta, coefs));
          coefs := coefs.(nullCount := 1);
        }
      }
      out := out.(hwpredict := prediction);
    }

    method Seasonal(p: Params, x: Input, index: Layout)
      modifies this
      ensures View() == UpdateSeasonal(p, x, index, old(View()))
    {
      var old' := seasonal.current;
      seasonal := seasonal.(last := old');
      seasonal := seasonal.(current := x.nextSeasonal);
      if x.observed.None? {
        out := out.(seasonal := old');
      } else if index(HWPREDICT) < index(SEASONAL) {
        if coefs.lastIntercept.None? || coefs.lastSlope.None? {
          out := out.(seasonal := None);
        } else if old'.None? {
          out := out.(seasonal := p.functions.InitSeasonality(x.observed, coefs.lastIntercept));
        } else {
          out := out.(seasonal := p.functions.Seasonality(p.gammaSeasonal, x.observed, coefs.intercept, old'));
        }
      } else {
        if coefs.intercept.None? || coefs.slope.None? {
          out := out.(seasonal := p.functions.Identity());
        } else if old'.None? {
          out := out.(seasonal := p.functions.InitSeasonality(x.observed, coefs.intercept));
        } else {
          var intercept := p.functions.Intercept(p.alpha, x.observed, old', coefs);
          out := out.(seasonal := p.functions.Seasonality(p.gammaSeasonal, x.observed, intercept, old'));
        }
      }
    }

    method Devpredict(index: Layout)
      modifies this
      ensures View() == UpdateDevpredict(index, old(View()))
    {
      if index(DEVSEASONAL) < index(DEVPREDICT) {
        out := out.(devpredict := deviation.last);
      } else {
        out := out.(devpredict := deviation.current);
      }
    }

    method Devseasonal(p: Params, x: Input, index: Layout)
      modifies this
      ensures View() == UpdateDevseasonal(p, x, index, old(View()))
    {
      deviation := deviation.(last := deviation.current);
      deviation := deviation.(current := x.nextDeviation);
      var seasonalCoef := if index(SEASONAL) < index(DEVSEASONAL) then seasonal.last else seasonal.current;
      var prediction: Value;
      if index(HWPREDICT) < index(DEVSEASONAL) {
        if coefs.lastIntercept.None? || coefs.lastSlope.None? || seasonalCoef.None? {
          out := out.(devseasonal := None);
          return;
        }
        prediction := p.functions.Predict(coefs.lastIntercept, coefs.lastSlope, coefs.lastNullCount, seasonalCoef);
      } else {
        if coefs.intercept.None? || coefs.slope.None? || seasonalCoef.None? {
          out := out.(devseasonal := None);
          return;
        }
        prediction := p.functions.Predict(coefs.intercept, coefs.slope, coefs.nullCount, seasonalCoef);
      }
      if x.observed.None? {
        out := out.(devseasonal := deviation.last);
      } else if deviation.last.None? {
        out := out.(devseasonal := p.functions.InitSeasonalDeviation(prediction, x.observed));
      } else {
        out := out.(devseasonal :=
          p.functions.SeasonalDeviation(p.gammaDeviation, prediction, x.observed, deviation.last));
      }
    }

    /** The window is shifted in place while the violations in it are counted. */
    method ShiftViolations(flag: bool) returns (count: nat)
      requires violations.Length > 0
      modifies violations
      ensures violations[..] == Shifted(flag, old(violations[..]))
      ensures count == CountTrue(violations[..])
    {
      hide CountTrue;
      ghost var w := violations[..];
      ghost var n := |w|;
      count := if flag then 1 else 0;
      var i := violations.Length;
      while i > 1
        invariant 1 <= i <= n
        invariant forall k :: 0 <= k < i ==> violations[k] == w[k]
        invariant forall k :: i <= k < n ==> violations[k] == w[k - 1]
        invariant count + CountTrue(w[..i - 1]) == (if flag then 1 else 0) + CountTrue(w[..n - 1])
      {
        violations[i - 1] := violations[i - 2];
        count := count + if violations[i - 1] then 1 else 0;
        CountTrueLast(w[..i - 1]);
        assert w[..i - 1][..i - 2] == w[..i - 2];
        i := i - 1;
      }
      violations[0] := flag;
      assert violations[..] == Shifted(flag, w);
      CountTrueLast([flag]);
      CountTrueConcat([flag], w[..n - 1]);
    }

    method Failures(p: Params, x: Input, index: Layout)
      requires violations.Length > 0
      modifies this, violations
      ensures View() == UpdateFailures(p, x, index, old(View()))
    {
      var dev := if index(FAILURES) < index(SEASONAL) then deviation.current else deviation.last;
      var violation := false;
      if dev.Some? {
        var seasonalCoef := if index(FAILURES) < index(SEASONAL) then seasonal.current else seasonal.last;
        var prediction := if index(FAILURES) < index(HWPREDICT)
          then p.functions.Predict(coefs.intercept, coefs.slope, coefs.nullCount, seasonalCoef)
          else p.functions.Predict(coefs.lastIntercept, coefs.lastSlope, coefs.lastNullCount, seasonalCoef);
        violation := x.observed.None?
          || Less(Plus(prediction, Times(Some(p.deltaPos), dev)), x.observed)
          || Less(x.observed, Minus(prediction, Times(Some(p.deltaNeg), dev)));
      }
      var count := ShiftViolations(violation);
      out := out.(failures := if count < p.threshold then Some(0.0) else Some(1.0));
    }

    /** One step: every archive in index order. */
    method RunStep(p: Params, x: Input, index: Layout, order: seq<Archive>)
      requires violations.Length > 0
      modifies this, violations
      ensures View() == Run(p, x, index, order, old(View()))
    {
      ghost var s := View();
      var i := 0;
      while i < |order|
        invariant i <= |order| && View() == Run(p, x, index, order[..i], s)
      {
        RunNext(p, x, index, order, i, s);
        match order[i] {
          case HWPREDICT => Hwpredict(p, x, index);
          case SEASONAL => Seasonal(p, x, index);
          case DEVSEASONAL => Devseasonal(p, x, index);
          case DEVPREDICT => Devpredict(index);
          case FAILURES => Failures(p, x, index);
        }
        i := i + 1;
      }
      assert order[..i] == order;
    }
  }
}
