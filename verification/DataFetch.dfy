/** Fetching for a graph: `data_fetch` asks for a step, and consolidates what it gets if the
    file has finer rows. */
module DataFetch {
  import opened Arith
  import opened Text
  import opened Reduce
  import opened Fetch

  /** What the coarse row from time `at` to `at + newStep` should hold: unknown if the
      window fetched cuts it, and otherwise the values of its times, consolidated. */
  ghost function CoarseValue(cf: Cf, rows: seq<Row>, rrd: Rrd, c: nat, f: Fetched, at: int, newStep: nat,
                             factor: nat, k: nat): Value
    requires ValidRrd(rrd) && c < |rrd.rras| && Base(rrd.rras, c) + rrd.rras[c].rowCnt <= |rows|
    requires Wide(rows, rrd.dsCnt) && k < rrd.dsCnt
  {
    if at < f.start || at + newStep > f.end then None
    else Consolidate(cf, TimeColumn(rows, rrd, c, at, f.step, factor, k))
  }

  /** Column `k` of the rows for the `n` times that follow `at`. */
  ghost function TimeColumn(rows: seq<Row>, rrd: Rrd, c: nat, at: int, step: nat, n: nat, k: nat): (s: seq<Value>)
    requires ValidRrd(rrd) && c < |rrd.rras| && Base(rrd.rras, c) + rrd.rras[c].rowCnt <= |rows|
    requires Wide(rows, rrd.dsCnt) && k < rrd.dsCnt
    ensures |s| == n
  {
    seq(n, i requires 0 <= i < n =>
      RowWidth(rows, rrd, c, at + (i + 1) * step);
      RowFor(rows, rrd, c, at + (i + 1) * step)[k])
  }

  ghost predicate Wide(rows: seq<Row>, n: nat) {
    forall i :: 0 <= i < |rows| ==> |rows[i]| == n
  }

  lemma RowWidth(rows: seq<Row>, rrd: Rrd, c: nat, t: int)
    requires ValidRrd(rrd) && c < |rrd.rras| && Base(rrd.rras, c) + rrd.rras[c].rowCnt <= |rows|
    requires Wide(rows, rrd.dsCnt)
    ensures |RowFor(rows, rrd, c, t)| == rrd.dsCnt
  {
    hide RingRow, StepOf, EndTime;
    if FirstTime(rrd, rrd.rras[c]) <= t <= EndTime(rrd, rrd.rras[c]) {
      TimeInside(rrd, rrd.rras[c], t);
    }
  }

  /** The table starts with the rows fetched. */
  ghost predicate Tabled(table: seq<seq<Value>>, f: Fetched) {
    |f.rows| <= |table| && forall m :: 0 <= m < |f.rows| ==> table[m] == f.rows[m]
  }

  /** The row that consolidating the table gives is the one wanted for its time. */
  lemma WantedIsCoarse(cf: Cf, table: seq<seq<Value>>, rows: seq<Row>, rrd: Rrd, c: nat, f: Fetched,
                       start: nat, end: nat, step: nat, j: nat, k: nat)
    requires ValidRrd(rrd) && start <= end && FetchedRight(f, rows, rrd, c, start, end) && Wide(rows, rrd.dsCnt)
    requires Tabled(table, f) && Wide(table, rrd.dsCnt) && k < rrd.dsCnt && step >= 1
    requires 0 <= f.start < f.end && f.start % f.step == 0 == f.end % f.step
    requires (f.end - f.start) / f.step == |f.rows|
    ensures var factor, newStep := Factor(step, f.step), NewStep(step, f.step);
      && f.start / f.step <= f.end / f.step && f.end / f.step - f.start / f.step == |f.rows|
      && Wanted(cf, table, f.start / f.step, f.end / f.step, factor, j, k)
         == CoarseValue(cf, rows, rrd, c, f, f.start - f.start % newStep + j * newStep, newStep, factor, k)
  {
    hide RowFor, StepOf, Consolidate, Factor, NewStep;
    var s, factor, newStep := f.step, Factor(step, f.step), NewStep(step, f.step);
    var a, b := f.start / s, f.end / s;
    NewStepIs(step, s);
    Unit(s, f.start, factor, newStep);
    Unit(s, f.end, factor, newStep);
    InUnits(s, f.start, f.end, factor, newStep);
    var lo, at := FirstRow(a, factor, j), f.start - f.start % newStep + j * newStep;
    CoarseTime(s, a, factor, newStep, j);
    assert at == (lo + a) * s;
    Signs(s, lo);
    Signs(s, b - a - lo - factor);
    assert at - f.start == s * lo && f.end - (at + newStep) == s * (b - a - lo - factor) by {
      TimeGaps(s, a, b, lo, factor);
    }
    if lo >= 0 && lo + factor <= b - a {
      var piece, column := Piece(table, lo, factor, k), TimeColumn(rows, rrd, c, at, s, factor, k);
      forall i | 0 <= i < factor
        ensures piece[i] == column[i]
      {
        assert table[lo + i] == f.rows[lo + i];
        assert f.start + (lo + i + 1) * s == at + (i + 1) * s by {
          RowTimes(s, a, lo, i);
        }
      }
      assert piece == column;
    }
  }

  lemma NewStepIs(step: nat, curStep: nat)
    requires step >= 1 && curStep >= 1
    ensures NewStep(step, curStep) == curStep * Factor(step, curStep)
  {
  }

  lemma CoarseTime(s: nat, a: nat, factor: nat, newStep: nat, j: nat)
    requires s >= 1 && factor >= 1 && newStep == s * factor
    ensures a / factor * newStep + j * newStep == (FirstRow(a, factor, j) + a) * s
  {
    assert a / factor * newStep + j * newStep == (a / factor + j) * newStep;
    assert (a / factor + j) * (s * factor) == (a / factor + j) * factor * s;
  }

  lemma TimeGaps(s: nat, a: nat, b: nat, lo: int, factor: nat)
    ensures (lo + a) * s - s * a == s * lo
    ensures s * b - ((lo + a) * s + s * factor) == s * (b - a - lo - factor)
  {
  }

  lemma RowTimes(s: nat, a: nat, lo: int, i: int)
    ensures s * a + (lo + i + 1) * s == (lo + a) * s + (i + 1) * s
  {
  }

  /** The rows fetched, in a table with the one row more that the code allocates. */
  method Table(f: Fetched, n: nat) returns (data: array2<Value>)
    requires forall m :: 0 <= m < |f.rows| ==> |f.rows[m]| == n
    ensures fresh(data) && data.Length0 == |f.rows| + 1 && data.Length1 == n
    ensures forall i, k :: 0 <= i < |f.rows| && 0 <= k < n ==> data[i, k] == f.rows[i][k]
  {
    data := new Value[|f.rows| + 1, n]((i, k) => None);
    var i := 0;
    while i < |f.rows|
      invariant 0 <= i <= |f.rows|
      invariant forall r, k :: 0 <= r < i && 0 <= k < n ==> data[r, k] == f.rows[r][k]
    {
      var j := 0;
      while j < n
        invariant 0 <= j <= n
        invariant forall r, k :: 0 <= r < i && 0 <= k < n ==> data[r, k] == f.rows[r][k]
        invariant forall k :: 0 <= k < j ==> data[i, k] == f.rows[i][k]
      {
        data[i, j] := f.rows[i][j];
        j := j + 1;
      }
      i := i + 1;
    }
  }

  lemma TableIs(data: array2<Value>, f: Fetched)
    requires data.Length0 == |f.rows| + 1 && forall m :: 0 <= m < |f.rows| ==> |f.rows[m]| == data.Length1
    requires forall i, k :: 0 <= i < |f.rows| && 0 <= k < data.Length1 ==> data[i, k] == f.rows[i][k]
    ensures Tabled(Rows(data), f) && Wide(Rows(data), data.Length1)
  {
  }

  lemma ProductSpread(a: nat, b: nat)
    requires a >= 1 && b >= 1
    ensures a * b >= a + b - 1
  {
    assert (a - 1) * (b - 1) >= 0;
    assert (a - 1) * (b - 1) == a * b - a - b + 1;
  }

  lemma FactorAtMost(step: nat, curStep: nat)
    requires step >= 1 && curStep >= 1
    ensures Factor(step, curStep) <= step
  {
    var x := step + curStep - 1;
    DivIs(x, curStep);
    ProductSpread(step, curStep);
    var d := Factor(step, curStep) - step;
    assert d * curStep == x / curStep * curStep - step * curStep;
    if d >= 1 {
      AtLeastOnce(d, curStep);
    }
  }

  /** If the rows fetched are fine enough they are delivered as they are. Otherwise the
      window is widened to whole coarse steps, and every coarse row is unknown where the
      fetched window cuts it, and consolidates exactly the rows for its times where not.
      The table always has room. `ok` is false when the program stops at its sanity
      check. */
  method FetchForGraph(rrd: Rrd, file: RrdFile, cf: Cf, cfReduce: Cf, start: nat, end: nat, step: nat)
    returns (chosen: int, ghost fetched: Option<Fetched>, ok: bool, data: array2<Value>, from: int, to: int,
             newStep: nat, count: nat)
    requires ValidRrd(rrd) && FileHolds(file.rows, rrd) && Wide(file.rows, rrd.dsCnt)
    requires start <= end && 1 <= step < 0x8000_0000
    requires forall i :: 0 <= i < |rrd.rras| ==> end + StepOf(rrd, rrd.rras[i]) < 0x8000_0000_0000_0000
    modifies file
    ensures fetched.None? <==> forall k :: 0 <= k < |rrd.rras| ==> rrd.rras[k].cf != cf
    ensures fetched.Some? ==>
              Best(rrd, cf, start, step, chosen) && FetchedRight(fetched.value, file.rows, rrd, chosen, start, end)
    ensures fetched.Some? && fetched.value.step >= step ==>
              var f := fetched.value;
              && ok && newStep == f.step && count == |f.rows| && from == f.start && to == f.end
              && count <= data.Length0 && data.Length1 == rrd.dsCnt
              && forall i, k :: 0 <= i < count && 0 <= k < rrd.dsCnt ==> data[i, k] == f.rows[i][k]
    ensures fetched.Some? && fetched.value.step < step ==>
              var f := fetched.value;
              && newStep == NewStep(step, f.step)
              && (ok <==> HasBoundary(f.start, f.end, newStep) || IsPower2(Factor(step, f.step)))
              && from == f.start - f.start % newStep
              && (ok ==> to == f.end - f.end % newStep + if f.end % newStep != 0 then newStep else 0)
              && (HasBoundary(f.start, f.end, newStep) ==>
                   && ok && count * newStep == to - from && count <= data.Length0
                   && data.Length1 == rrd.dsCnt
                   && forall j, k :: 0 <= j < count && 0 <= k < rrd.dsCnt ==>
                        data[j, k] == CoarseValue(cfReduce, file.rows, rrd, chosen, f, from + j * newStep, newStep,
                                                  Factor(step, f.step), k))
  {
    hide Best, RowFor, StepOf, Factor, NewStep, HasBoundary, Wanted, CoarseValue, IsPower2, Base;
    var result;
    chosen, result := RrdFetchFn(rrd, file, cf, start, end, step);
    fetched := result;
    ok, from, to, newStep, count := true, 0, 0, 0, 0;
    if result.None? {
      data := new Value[0, 0];
      return;
    }
    var f := result.value;
    ReadyToReduce(f, file.rows, rrd, chosen, start, end);
    forall m | 0 <= m < |f.rows|
      ensures |f.rows[m]| == rrd.dsCnt
    {
      RowWidth(file.rows, rrd, chosen, f.start + (m + 1) * f.step);
    }
    data := Table(f, rrd.dsCnt);
    if f.step < step {
      TableIs(data, f);
      ghost var table := Rows(data);
      FactorAtMost(step, f.step);
      EndBound(end, f.step);
      ok, from, to, newStep, count := ReduceData(cfReduce, f.step, f.start, f.end, step, data);
      if HasBoundary(f.start, f.end, newStep) {
        forall j, k | 0 <= j < count && 0 <= k < rrd.dsCnt
          ensures data[j, k] == CoarseValue(cfReduce, file.rows, rrd, chosen, f, from + j * newStep, newStep,
                                            Factor(step, f.step), k)
        {
          WantedIsCoarse(cfReduce, table, file.rows, rrd, chosen, f, start, end, step, j, k);
        }
      }
    } else {
      newStep, from, to, count := f.step, f.start, f.end, |f.rows|;
    }
  }

  lemma EndBound(end: nat, step: nat)
    requires step >= 1
    ensures AlignedEnd(end, step) <= end + step
  {
    DivIs(end, step);
  }
}
