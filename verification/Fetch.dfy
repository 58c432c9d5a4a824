/** `rrd_fetch_fn`, and the row loop of `rrd_dump`, over the ring buffers of a file. */
module Fetch {
  import opened Arith
  import opened Text
  import opened Reduce

  type Row = seq<Value>

  /** One round-robin archive: its definition and its current row. */
  datatype Rra = Rra(cf: Cf, pdpCnt: nat, rowCnt: nat, curRow: nat)

  datatype Rrd = Rrd(pdpStep: nat, lastUp: nat, dsCnt: nat, rras: seq<Rra>)

  predicate ValidRra(a: Rra) {
    a.pdpCnt >= 1 && a.rowCnt >= 1 && a.curRow < a.rowCnt
  }

  predicate ValidRrd(rrd: Rrd) {
    rrd.pdpStep >= 1 && forall i :: 0 <= i < |rrd.rras| ==> ValidRra(rrd.rras[i])
  }

  /** First file row of archive `i`; with all archives counted, the rows of the file. */
  function Base(rras: seq<Rra>, i: nat): nat
    requires i <= |rras|
  {
    if i == 0 then 0 else Base(rras, i - 1) + rras[i - 1].rowCnt
  }

  lemma {:induction false} InsideFile(rras: seq<Rra>, i: nat, n: nat)
    requires i < n <= |rras|
    ensures Base(rras, i) + rras[i].rowCnt <= Base(rras, n)
    decreases n
  {
    if i + 1 < n {
      InsideFile(rras, i, n - 1);
    }
  }

  /** The data area of a file, a row at a time. */
  class RrdFile {
    const rows: seq<Row>
    var pos: nat
    var seeks: nat

    constructor (rows: seq<Row>)
      ensures this.rows == rows && pos == 0 && seeks == 0
    {
      this.rows := rows;
      pos, seeks := 0, 0;
    }

    method Seek(row: nat)
      modifies this
      ensures pos == row && seeks == old(seeks) + 1
    {
      pos := row;
      seeks := seeks + 1;
    }

    method Read() returns (row: Row)
      requires pos < |rows|
      modifies this`pos
      ensures row == rows[old(pos)] && pos == old(pos) + 1
    {
      row := rows[pos];
      pos := pos + 1;
    }
  }

  // ---------------------------------------------------------------- choosing an archive

  function StepOf(rrd: Rrd, a: Rra): (s: nat)
    requires ValidRra(a) && rrd.pdpStep >= 1
    ensures s >= 1
  {
    AtLeastOnce(rrd.pdpStep, a.pdpCnt);
    rrd.pdpStep * a.pdpCnt
  }

  /** The time the newest row of the archive ends at. */
  function EndTime(rrd: Rrd, a: Rra): int
    requires ValidRra(a) && rrd.pdpStep >= 1
  {
    rrd.lastUp - rrd.lastUp % StepOf(rrd, a)
  }

  /** The time the oldest row starts at. */
  function CalStart(rrd: Rrd, a: Rra): int
    requires ValidRra(a) && rrd.pdpStep >= 1
  {
    EndTime(rrd, a) - StepOf(rrd, a) * a.rowCnt
  }

  function Distance(x: int, y: int): (d: nat)
    ensures d == x - y || d == y - x
  {
    if x >= y then x - y else y - x
  }

  function StepDiff(rrd: Rrd, a: Rra, step: nat): nat
    requires ValidRra(a) && rrd.pdpStep >= 1
  {
    Distance(step, StepOf(rrd, a))
  }

  /** The archive reaches back to the start of the window. */
  predicate Full(rrd: Rrd, a: Rra, start: int)
    requires ValidRra(a) && rrd.pdpStep >= 1
  {
    CalStart(rrd, a) <= start
  }

  /** How `a` compares as a choice: covering archives by step difference alone, others by
      how far back they reach and then by step difference. */
  predicate Better(rrd: Rrd, a: Rra, b: Rra, start: int, step: nat)
    requires ValidRra(a) && ValidRra(b) && rrd.pdpStep >= 1
  {
    if Full(rrd, a, start) then
      !Full(rrd, b, start) || StepDiff(rrd, a, step) < StepDiff(rrd, b, step)
    else
      && !Full(rrd, b, start)
      && (CalStart(rrd, a) < CalStart(rrd, b)
          || (CalStart(rrd, a) == CalStart(rrd, b) && StepDiff(rrd, a, step) < StepDiff(rrd, b, step)))
  }

  /** The first of the best archives with the function asked for. */
  ghost predicate Best(rrd: Rrd, cf: Cf, start: int, step: nat, c: int)
    requires ValidRrd(rrd)
  {
    && 0 <= c < |rrd.rras| && rrd.rras[c].cf == cf
    && forall k :: 0 <= k < |rrd.rras| && rrd.rras[k].cf == cf ==>
         && !Better(rrd, rrd.rras[k], rrd.rras[c], start, step)
         && (k < c ==> Better(rrd, rrd.rras[c], rrd.rras[k], start, step))
  }

  lemma BestUnique(rrd: Rrd, cf: Cf, start: int, step: nat, c: int, d: int)
    requires ValidRrd(rrd) && Best(rrd, cf, start, step, c) && Best(rrd, cf, start, step, d)
    ensures c == d
  {
  }

  /** `c` is the first covering archive of least step difference below `n`. */
  ghost predicate BestFull(rrd: Rrd, cf: Cf, start: int, step: nat, c: int, n: int)
    requires ValidRrd(rrd) && n <= |rrd.rras|
  {
    && 0 <= c < n && rrd.rras[c].cf == cf && Full(rrd, rrd.rras[c], start)
    && forall k :: 0 <= k < n && rrd.rras[k].cf == cf && Full(rrd, rrd.rras[k], start) ==>
         && StepDiff(rrd, rrd.rras[c], step) <= StepDiff(rrd, rrd.rras[k], step)
         && (k < c ==> StepDiff(rrd, rrd.rras[c], step) < StepDiff(rrd, rrd.rras[k], step))
  }

  predicate Reaches(calA: int, diffA: nat, calB: int, diffB: nat) {
    calA < calB || (calA == calB && diffA < diffB)
  }

  /** `c` is the first of the other archives below `n` that reach back furthest, ties by
      step difference. */
  ghost predicate BestPart(rrd: Rrd, cf: Cf, start: int, step: nat, c: int, n: int)
    requires ValidRrd(rrd) && n <= |rrd.rras|
  {
    && 0 <= c < n && rrd.rras[c].cf == cf && !Full(rrd, rrd.rras[c], start)
    && forall k :: 0 <= k < n && rrd.rras[k].cf == cf && !Full(rrd, rrd.rras[k], start) ==>
         var cal, diff := CalStart(rrd, rrd.rras[c]), StepDiff(rrd, rrd.rras[c], step);
         var calK, diffK := CalStart(rrd, rrd.rras[k]), StepDiff(rrd, rrd.rras[k], step);
         !Reaches(calK, diffK, cal, diff) && (k < c ==> Reaches(cal, diff, calK, diffK))
  }

  ghost predicate NoneSoFar(rrd: Rrd, cf: Cf, start: int, full: bool, n: int)
    requires ValidRrd(rrd) && n <= |rrd.rras|
  {
    forall k :: 0 <= k < n && rrd.rras[k].cf == cf ==> Full(rrd, rrd.rras[k], start) != full
  }

  lemma ChoiceIsBest(rrd: Rrd, cf: Cf, start: int, step: nat, c: int)
    requires ValidRrd(rrd)
    requires BestFull(rrd, cf, start, step, c, |rrd.rras|)
             || (NoneSoFar(rrd, cf, start, true, |rrd.rras|) && BestPart(rrd, cf, start, step, c, |rrd.rras|))
    ensures Best(rrd, cf, start, step, c)
  {
    hide StepOf, EndTime, CalStart, StepDiff;
  }

  /** The best covering archive once archive `i` is considered. */
  lemma ConsiderFull(rrd: Rrd, cf: Cf, start: int, step: nat, c: int, i: int)
    requires ValidRrd(rrd) && 0 <= i < |rrd.rras|
    ensures var takes := rrd.rras[i].cf == cf && Full(rrd, rrd.rras[i], start);
            && (NoneSoFar(rrd, cf, start, true, i) ==>
                 if takes then BestFull(rrd, cf, start, step, i, i + 1) else NoneSoFar(rrd, cf, start, true, i + 1))
            && (BestFull(rrd, cf, start, step, c, i) ==>
                 if takes && StepDiff(rrd, rrd.rras[i], step) < StepDiff(rrd, rrd.rras[c], step)
                 then BestFull(rrd, cf, start, step, i, i + 1) else BestFull(rrd, cf, start, step, c, i + 1))
  {
    hide CalStart, StepDiff, Full;
  }

  lemma ConsiderPart(rrd: Rrd, cf: Cf, start: int, step: nat, c: int, i: int)
    requires ValidRrd(rrd) && 0 <= i < |rrd.rras|
    ensures var takes := rrd.rras[i].cf == cf && !Full(rrd, rrd.rras[i], start);
            && (NoneSoFar(rrd, cf, start, false, i) ==>
                 if takes then BestPart(rrd, cf, start, step, i, i + 1) else NoneSoFar(rrd, cf, start, false, i + 1))
            && (BestPart(rrd, cf, start, step, c, i) ==>
                 if takes && Reaches(CalStart(rrd, rrd.rras[i]), StepDiff(rrd, rrd.rras[i], step),
                                     CalStart(rrd, rrd.rras[c]), StepDiff(rrd, rrd.rras[c], step))
                 then BestPart(rrd, cf, start, step, i, i + 1) else BestPart(rrd, cf, start, step, c, i + 1))
  {
    hide CalStart, StepDiff, Full;
  }

  lemma NoneAtAll(rrd: Rrd, cf: Cf, start: int)
    requires ValidRrd(rrd)
    ensures NoneSoFar(rrd, cf, start, true, 0) && NoneSoFar(rrd, cf, start, false, 0)
    ensures NoneSoFar(rrd, cf, start, true, |rrd.rras|) && NoneSoFar(rrd, cf, start, false, |rrd.rras|)
            <==> forall k :: 0 <= k < |rrd.rras| ==> rrd.rras[k].cf != cf
  {
  }

  lemma BestIsIndex(rrd: Rrd, cf: Cf, start: int, step: nat, c: int, n: int)
    requires ValidRrd(rrd) && n <= |rrd.rras|
    requires BestFull(rrd, cf, start, step, c, n) || BestPart(rrd, cf, start, step, c, n)
    ensures 0 <= c < n && rrd.rras[c].cf == cf
  {
  }

  /** The index chosen, or -1 when no archive has the function. */
  method ChooseRra(rrd: Rrd, cf: Cf, start: int, end: int, step: nat) returns (chosen: int)
    requires ValidRrd(rrd)
    ensures chosen == -1 <==> forall k :: 0 <= k < |rrd.rras| ==> rrd.rras[k].cf != cf
    ensures chosen != -1 ==> Best(rrd, cf, start, step, chosen)
  {
    hide CalStart, StepDiff, Best, BestFull, BestPart, NoneSoFar;
    NoneAtAll(rrd, cf, start);
    var bestFullRra, bestPartRra := 0, 0;
    var bestFullStepDiff, bestPartStepDiff, bestMatch := 0, 0, 0;
    var firstFull, firstPart := true, true;
    var i := 0;
    while i < |rrd.rras|
      invariant 0 <= i <= |rrd.rras|
      invariant if firstFull then NoneSoFar(rrd, cf, start, true, i)
                else 0 <= bestFullRra < i && BestFull(rrd, cf, start, step, bestFullRra, i)
                     && bestFullStepDiff == StepDiff(rrd, rrd.rras[bestFullRra], step)
      invariant if firstPart then NoneSoFar(rrd, cf, start, false, i)
                else 0 <= bestPartRra < i && BestPart(rrd, cf, start, step, bestPartRra, i)
                     && bestMatch == end - CalStart(rrd, rrd.rras[bestPartRra])
                     && bestPartStepDiff == StepDiff(rrd, rrd.rras[bestPartRra], step)
    {
      ConsiderFull(rrd, cf, start, step, bestFullRra, i);
      ConsiderPart(rrd, cf, start, step, bestPartRra, i);
      if rrd.rras[i].cf == cf {
        var calStart := CalStart(rrd, rrd.rras[i]);
        var fullMatch := end - start;
        var tmpStepDiff := StepDiff(rrd, rrd.rras[i], step);
        if calStart <= start {
          if firstFull || tmpStepDiff < bestFullStepDiff {
            firstFull := false;
            bestFullStepDiff := tmpStepDiff;
            bestFullRra := i;
          }
        } else {
          var tmpMatch := fullMatch;
          if calStart > start {
            tmpMatch := tmpMatch - (calStart - start);
          }
          if firstPart || bestMatch < tmpMatch
             || (bestMatch == tmpMatch && tmpStepDiff < bestPartStepDiff) {
            firstPart := false;
            bestMatch := tmpMatch;
            bestPartStepDiff := tmpStepDiff;
            bestPartRra := i;
          }
        }
      }
      i := i + 1;
    }
    if !firstFull {
      chosen := bestFullRra;
      BestIsIndex(rrd, cf, start, step, chosen, |rrd.rras|);
      ChoiceIsBest(rrd, cf, start, step, chosen);
    } else if !firstPart {
      chosen := bestPartRra;
      BestIsIndex(rrd, cf, start, step, chosen, |rrd.rras|);
      ChoiceIsBest(rrd, cf, start, step, chosen);
    } else {
      chosen := -1;
    }
  }

  // ---------------------------------------------------------------- which row belongs to which time

  /** The time stamp of the oldest row. */
  function FirstTime(rrd: Rrd, a: Rra): int
    requires ValidRra(a) && rrd.pdpStep >= 1
  {
    EndTime(rrd, a) - StepOf(rrd, a) * (a.rowCnt - 1)
  }

  /** The ring row that holds the `i`-th oldest row. */
  function RingRow(a: Rra, i: nat): (r: nat)
    requires ValidRra(a)
    ensures r < a.rowCnt
  {
    (a.curRow + 1 + i) % a.rowCnt
  }

  ghost predicate FileHolds(rows: seq<Row>, rrd: Rrd) {
    |rows| == Base(rrd.rras, |rrd.rras|)
  }

  function Unknowns(n: nat): (r: Row)
    ensures |r| == n
  {
    seq(n, i => None)
  }

  /** Row number `i` counted from the oldest; unknown outside the archive. */
  function RowAt(rows: seq<Row>, rrd: Rrd, c: nat, i: int): Row
    requires ValidRrd(rrd) && c < |rrd.rras|
    requires Base(rrd.rras, c) + rrd.rras[c].rowCnt <= |rows|
  {
    if 0 <= i < rrd.rras[c].rowCnt then rows[Base(rrd.rras, c) + RingRow(rrd.rras[c], i)]
    else Unknowns(rrd.dsCnt)
  }

  /** The row for time `t`. */
  function RowFor(rows: seq<Row>, rrd: Rrd, c: nat, t: int): Row
    requires ValidRrd(rrd) && c < |rrd.rras|
    requires Base(rrd.rras, c) + rrd.rras[c].rowCnt <= |rows|
  {
    var a := rrd.rras[c];
    if FirstTime(rrd, a) <= t <= EndTime(rrd, a) then
      TimeInside(rrd, a, t);
      rows[Base(rrd.rras, c) + RingRow(a, (t - FirstTime(rrd, a)) / StepOf(rrd, a))]
    else Unknowns(rrd.dsCnt)
  }

  lemma TimeInside(rrd: Rrd, a: Rra, t: int)
    requires ValidRra(a) && rrd.pdpStep >= 1 && t >= FirstTime(rrd, a)
    ensures (t - FirstTime(rrd, a)) / StepOf(rrd, a) >= 0
  {
    hide StepOf, FirstTime;
    DivIs(t - FirstTime(rrd, a), StepOf(rrd, a));
    Signs(StepOf(rrd, a), (t - FirstTime(rrd, a)) / StepOf(rrd, a) + 1);
    var q := (t - FirstTime(rrd, a)) / StepOf(rrd, a);
    assert StepOf(rrd, a) * (q + 1) == q * StepOf(rrd, a) + StepOf(rrd, a);
  }

  /** Counting rows and counting time agree. */
  lemma TimeOfRow(rows: seq<Row>, rrd: Rrd, c: nat, i: int)
    requires ValidRrd(rrd) && c < |rrd.rras|
    requires Base(rrd.rras, c) + rrd.rras[c].rowCnt <= |rows|
    ensures var a := rrd.rras[c];
            RowFor(rows, rrd, c, FirstTime(rrd, a) + StepOf(rrd, a) * i) == RowAt(rows, rrd, c, i)
  {
    hide StepOf, RingRow, Base;
    var a := rrd.rras[c];
    var s := StepOf(rrd, a);
    Signs(s, i);
    Signs(s, a.rowCnt - 1 - i);
    assert s * (a.rowCnt - 1 - i) == s * (a.rowCnt - 1) - s * i;
    DivUnique(s * i, i, 0, s);
  }

  // ---------------------------------------------------------------- fetching

  datatype Fetched = Fetched(start: int, end: int, step: nat, rows: seq<Row>)

  /** The window widened to whole steps; the end always moves forward. */
  function AlignedStart(start: nat, step: nat): int
    requires step >= 1
  {
    start - start % step
  }

  function AlignedEnd(end: nat, step: nat): int
    requires step >= 1
  {
    end + (step - end % step)
  }

  /** Exactly one row per step of the widened window, each the right one for its time; a
      window that ends before it starts has no rows. */
  ghost predicate FetchedRight(f: Fetched, rows: seq<Row>, rrd: Rrd, c: int, start: nat, end: nat)
    requires ValidRrd(rrd)
  {
    && 0 <= c < |rrd.rras| && Base(rrd.rras, c) + rrd.rras[c].rowCnt <= |rows|
    && f.step == StepOf(rrd, rrd.rras[c])
    && f.start == AlignedStart(start, f.step) && f.end == AlignedEnd(end, f.step)
    && |f.rows| * f.step == (if f.start <= f.end then f.end - f.start else 0)
    && forall m :: 0 <= m < |f.rows| ==> f.rows[m] == RowFor(rows, rrd, c, f.start + (m + 1) * f.step)
  }

  method RrdFetchFn(rrd: Rrd, file: RrdFile, cf: Cf, start: nat, end: nat, step: nat)
    returns (chosen: int, fetched: Option<Fetched>)
    requires ValidRrd(rrd) && FileHolds(file.rows, rrd)
    modifies file
    ensures fetched.None? <==> forall k :: 0 <= k < |rrd.rras| ==> rrd.rras[k].cf != cf
    ensures fetched.Some? ==>
              && Best(rrd, cf, start, step, chosen)
              && FetchedRight(fetched.value, file.rows, rrd, chosen, start, end)
    ensures file.seeks <= old(file.seeks) + 2
  {
    hide Best, RowFor, StepOf, FirstTime;
    chosen := ChooseRra(rrd, cf, start, end, step);
    if chosen == -1 {
      return chosen, None;
    }
    BestInside(rrd, cf, start, step, chosen);
    var a := rrd.rras[chosen];
    var realStep := StepOf(rrd, a);
    var realStart := start - start % realStep;
    var realEnd := end + (realStep - end % realStep);
    var rraBase := BaseRow(rrd, chosen);
    var rraEndTime := rrd.lastUp - rrd.lastUp % realStep;
    var rraStartTime := FirstTime(rrd, a);
    var startOffset := (realStart + realStep - rraStartTime) / realStep;
    var endOffset := (rraEndTime - realEnd) / realStep;
    Offsets(rrd, a, start, end);
    RowsAsked(a.rowCnt - endOffset - startOffset, realStep, realEnd - realStart);
    var rows := CopyRows(rrd, file, chosen, rraBase, startOffset, endOffset,
                         realStart <= rraEndTime && realEnd >= rraStartTime - realStep);
    fetched := Some(Fetched(realStart, realEnd, realStep, rows));
    forall m | 0 <= m < |rows|
      ensures rows[m] == RowFor(file.rows, rrd, chosen, realStart + (m + 1) * realStep)
    {
      RowTime(rrd, a, start, m);
      TimeOfRow(file.rows, rrd, chosen, startOffset + m);
    }
  }

  lemma BestInside(rrd: Rrd, cf: Cf, start: int, step: nat, c: int)
    requires ValidRrd(rrd) && Best(rrd, cf, start, step, c)
    ensures 0 <= c < |rrd.rras|
    ensures Base(rrd.rras, c) + rrd.rras[c].rowCnt <= Base(rrd.rras, |rrd.rras|)
  {
    InsideFile(rrd.rras, c, |rrd.rras|);
  }

  method BaseRow(rrd: Rrd, chosen: nat) returns (base: nat)
    requires chosen <= |rrd.rras|
    ensures base == Base(rrd.rras, chosen)
  {
    base := 0;
    var i := 0;
    while i < chosen
      invariant 0 <= i <= chosen && base == Base(rrd.rras, i)
    {
      base := base + rrd.rras[i].rowCnt;
      i := i + 1;
    }
  }

  /** Row number, counted from the oldest row, of the first row of the window. */
  function StartOffset(rrd: Rrd, a: Rra, start: nat): int
    requires ValidRra(a) && rrd.pdpStep >= 1
  {
    (AlignedStart(start, StepOf(rrd, a)) + StepOf(rrd, a) - FirstTime(rrd, a)) / StepOf(rrd, a)
  }

  function EndOffset(rrd: Rrd, a: Rra, end: nat): int
    requires ValidRra(a) && rrd.pdpStep >= 1
  {
    (EndTime(rrd, a) - AlignedEnd(end, StepOf(rrd, a))) / StepOf(rrd, a)
  }

  /** `x` whole steps. */
  function Steps(s: int, x: int): int {
    s * x
  }

  lemma StepsLaws(s: int, x: int, y: int)
    requires s >= 1
    ensures Steps(s, x) - Steps(s, y) == Steps(s, x - y) && Steps(s, x) + s == Steps(s, x + 1)
    ensures Steps(s, x) <= Steps(s, y) <==> x <= y
    ensures Steps(s, x) / s == x
  {
    DivUnique(s * x, x, 0, s);
    Signs(s, y - x);
    assert s * (y - x) == s * y - s * x;
  }

  /** The times the code computes with, in whole steps. */
  lemma TimesInSteps(rrd: Rrd, a: Rra, t: nat)
    requires ValidRra(a) && rrd.pdpStep >= 1
    ensures var s := StepOf(rrd, a);
            && AlignedStart(t, s) == Steps(s, t / s) && AlignedEnd(t, s) == Steps(s, t / s + 1)
            && EndTime(rrd, a) == Steps(s, rrd.lastUp / s)
            && FirstTime(rrd, a) == Steps(s, rrd.lastUp / s - (a.rowCnt - 1))
  {
    hide StepOf;
    var s := StepOf(rrd, a);
    DivIs(t, s);
    DivIs(rrd.lastUp, s);
    assert s * (t / s + 1) == s * (t / s) + s;
    StepsLaws(s, rrd.lastUp / s, a.rowCnt - 1);
  }

  /** Both offsets in whole steps: the rows asked for are the steps of the window, and the
      code seeks whenever the window touches the archive. */
  lemma Offsets(rrd: Rrd, a: Rra, start: nat, end: nat)
    requires ValidRra(a) && rrd.pdpStep >= 1
    ensures var s, so, eo := StepOf(rrd, a), StartOffset(rrd, a, start), EndOffset(rrd, a, end);
            && so == start / s - rrd.lastUp / s + a.rowCnt
            && eo == rrd.lastUp / s - end / s - 1
            && (start <= end ==> so + eo < a.rowCnt)
            && (a.rowCnt - eo - so) * s == AlignedEnd(end, s) - AlignedStart(start, s)
            && (AlignedStart(start, s) <= EndTime(rrd, a) <==> so <= a.rowCnt)
            && (AlignedEnd(end, s) >= FirstTime(rrd, a) - s <==> eo <= a.rowCnt)
  {
    hide StepOf, Steps, AlignedStart, AlignedEnd, EndTime, FirstTime;
    var s, n := StepOf(rrd, a), a.rowCnt;
    var p, q, e := start / s, end / s + 1, rrd.lastUp / s;
    TimesInSteps(rrd, a, start);
    TimesInSteps(rrd, a, end);
    if start <= end {
      Ordered(start, end, s);
    }
    StepsLaws(s, p, 0);
    StepsLaws(s, p + 1, e - (n - 1));
    StepsLaws(s, p + 1 - (e - (n - 1)), 0);
    StepsLaws(s, e, q);
    StepsLaws(s, e - q, 0);
    StepsLaws(s, q, p);
    StepsLaws(s, p, e);
    StepsLaws(s, e - n, q);
    StepsCommute(s, q - p);
  }

  lemma RowsAsked(n: int, s: nat, span: int)
    requires s >= 1 && n * s == span
    ensures span >= 0 <==> n >= 0
    ensures (if n >= 0 then n else 0) * s == if span >= 0 then span else 0
  {
    Signs(s, n);
    assert s * n == n * s;
  }

  lemma StepsCommute(s: int, x: int)
    ensures Steps(s, x) == x * s
  {
  }

  lemma Ordered(x: int, y: int, m: int)
    requires m >= 1 && x <= y
    ensures x / m <= y / m
  {
    DivIs(x, m);
    DivIs(y, m);
    var d := x / m - y / m;
    assert d * m == x / m * m - y / m * m;
    if d >= 1 {
      AtLeastOnce(d, m);
    }
  }

  lemma RowTime(rrd: Rrd, a: Rra, start: nat, m: nat)
    requires ValidRra(a) && rrd.pdpStep >= 1
    ensures var s := StepOf(rrd, a);
            FirstTime(rrd, a) + s * (StartOffset(rrd, a, start) + m) == AlignedStart(start, s) + (m + 1) * s
  {
    hide StepOf, AlignedStart, FirstTime;
    var s, n := StepOf(rrd, a), a.rowCnt;
    var so, first := StartOffset(rrd, a, start), rrd.lastUp / s - (n - 1);
    Offsets(rrd, a, start, start);
    TimesInSteps(rrd, a, start);
    assert so + first == start / s + 1;
    assert s * first + s * (so + m) == s * (start / s + 1 + m);
  }

  /** What fetching hands to consolidation: a window of whole steps that is never empty
      and has exactly the rows `ReduceData` counts. */
  lemma ReadyToReduce(f: Fetched, rows: seq<Row>, rrd: Rrd, c: int, start: nat, end: nat)
    requires ValidRrd(rrd) && start <= end && FetchedRight(f, rows, rrd, c, start, end)
    ensures 0 <= f.start <= start < f.start + f.step && end < f.end <= end + f.step
    ensures f.step == rrd.pdpStep * rrd.rras[c].pdpCnt
    ensures f.start % f.step == 0 && f.end % f.step == 0
    ensures (f.end - f.start) / f.step == |f.rows| >= 1
  {
    hide RowFor, Base;
    var s := f.step;
    DivIs(start, s);
    DivIs(end, s);
    Ordered(0, start, s);
    DivUnique(f.start, start / s, 0, s);
    assert (end / s + 1) * s == end / s * s + s;
    DivUnique(f.end, end / s + 1, 0, s);
    DivUnique(f.end - f.start, |f.rows|, 0, s);
  }

  /** Going `d` rows on in the ring. */
  lemma RingShift(a: Rra, k: nat, d: nat)
    requires ValidRra(a) && d <= a.rowCnt
    ensures var p := RingRow(a, k) + d;
            RingRow(a, k + d) == if p < a.rowCnt then p else p - a.rowCnt
  {
    var n, x := a.rowCnt, a.curRow + 1 + k;
    DivIs(x, n);
    var p := x % n + d;
    if p < n {
      DivUnique(x + d, x / n, p, n);
    } else {
      assert (x / n + 1) * n == x / n * n + n;
      DivUnique(x + d, x / n + 1, p - n, n);
    }
  }

  /** The copying loop: one seek to the first row needed, one more when the ring wraps. */
  method CopyRows(rrd: Rrd, file: RrdFile, chosen: nat, rraBase: nat, startOffset: int, endOffset: int,
                  seek: bool)
    returns (rows: seq<Row>)
    requires ValidRrd(rrd) && chosen < |rrd.rras| && rraBase == Base(rrd.rras, chosen)
    requires rraBase + rrd.rras[chosen].rowCnt <= |file.rows|
    requires seek <==> startOffset <= rrd.rras[chosen].rowCnt && endOffset <= rrd.rras[chosen].rowCnt
    modifies file
    ensures var n := rrd.rras[chosen].rowCnt - endOffset - startOffset; |rows| == if n >= 0 then n else 0
    ensures forall m :: 0 <= m < |rows| ==> rows[m] == RowAt(file.rows, rrd, chosen, startOffset + m)
    ensures file.seeks <= old(file.seeks) + 2
  {
    hide RingRow, Base, RowAt;
    var a := rrd.rras[chosen];
    var rowCnt := a.rowCnt;
    ghost var first := if startOffset <= 0 then 0 else startOffset;
    var rraPointer := 0;
    if seek {
      if startOffset <= 0 {
        rraPointer := a.curRow + 1;
      } else {
        rraPointer := a.curRow + 1 + startOffset;
      }
      rraPointer := rraPointer % rowCnt;
      RingStart(a, first);
      file.Seek(rraBase + rraPointer);
    }
    ghost var p0, wrapped := rraPointer, false;
    rows := [];
    var i := startOffset;
    while i < rowCnt - endOffset
      invariant startOffset <= i && (i == startOffset || i <= rowCnt - endOffset) && |rows| == i - startOffset
      invariant seek ==>
                  var read := if i < first then 0 else if i < rowCnt then i - first else rowCnt - first;
                  && 0 <= p0 < rowCnt && p0 == RingRow(a, first)
                  && 0 <= first && rraPointer == p0 + read - (if wrapped then rowCnt else 0)
                  && 0 <= rraPointer <= rowCnt
                  && file.pos == rraBase + rraPointer
      invariant file.seeks == old(file.seeks) + (if seek then 1 else 0) + (if wrapped then 1 else 0)
      invariant forall m :: 0 <= m < |rows| ==> rows[m] == RowAt(file.rows, rrd, chosen, startOffset + m)
    {
      RowAtIs(file.rows, rrd, chosen, i);
      if i < 0 {
        rows := rows + [Unknowns(rrd.dsCnt)];
      } else if i >= rowCnt {
        rows := rows + [Unknowns(rrd.dsCnt)];
      } else {
        RingShift(a, first, i - first);
        wrapped := wrapped || rraPointer >= rowCnt;
        var row;
        row, rraPointer := NextRow(file, rraBase, rowCnt, rraPointer);
        rows := rows + [row];
      }
      i := i + 1;
    }
  }

  /** Reads on, from the first row of the ring if the last one has been read. */
  method NextRow(file: RrdFile, rraBase: nat, rowCnt: nat, pointer: nat) returns (row: Row, next: nat)
    requires pointer <= rowCnt && rowCnt > 0 && rraBase + rowCnt <= |file.rows| && file.pos == rraBase + pointer
    modifies file
    ensures var p := if pointer >= rowCnt then pointer - rowCnt else pointer;
            row == file.rows[rraBase + p] && next == p + 1
    ensures file.pos == rraBase + next && file.seeks == old(file.seeks) + if pointer >= rowCnt then 1 else 0
  {
    var p := pointer;
    if p >= rowCnt {
      p := p - rowCnt;
      file.Seek(rraBase + p);
    }
    row := file.Read();
    next := p + 1;
  }

  lemma RowAtIs(rows: seq<Row>, rrd: Rrd, c: nat, i: int)
    requires ValidRrd(rrd) && c < |rrd.rras|
    requires Base(rrd.rras, c) + rrd.rras[c].rowCnt <= |rows|
    ensures 0 <= i < rrd.rras[c].rowCnt ==>
              RowAt(rows, rrd, c, i) == rows[Base(rrd.rras, c) + RingRow(rrd.rras[c], i)]
    ensures !(0 <= i < rrd.rras[c].rowCnt) ==> RowAt(rows, rrd, c, i) == Unknowns(rrd.dsCnt)
  {
  }

  lemma RingStart(a: Rra, k: nat)
    requires ValidRra(a)
    ensures RingRow(a, k) == (a.curRow + 1 + k) % a.rowCnt
  {
  }

  // ---------------------------------------------------------------- dumping

  /** The row loop of one archive: every stored row with the time stamp written beside it. */
  method DumpDatabase(rrd: Rrd, file: RrdFile, c: nat) returns (out: seq<(int, Row)>)
    requires ValidRrd(rrd) && c < |rrd.rras|
    requires Base(rrd.rras, c) + rrd.rras[c].rowCnt <= |file.rows|
    modifies file
    ensures |out| == rrd.rras[c].rowCnt
    ensures forall x :: 0 <= x < |out| ==>
              && out[x].0 == FirstTime(rrd, rrd.rras[c]) + StepOf(rrd, rrd.rras[c]) * x
              && out[x].1 == RowAt(file.rows, rrd, c, x)
  {
    hide RingRow, Base, StepOf;
    var a := rrd.rras[c];
    var rraStart := BaseRow(rrd, c);
    var step := StepOf(rrd, a);
    file.Seek(rraStart + a.curRow + 1);
    var timer := -(a.rowCnt - 1);
    var ii := a.curRow;
    out := [];
    var ix := 0;
    while ix < a.rowCnt
      invariant 0 <= ix <= a.rowCnt && |out| == ix && timer == ix - (a.rowCnt - 1)
      invariant 0 <= ii < a.rowCnt && (ix > 0 ==> ii == RingRow(a, ix - 1)) && (ix == 0 ==> ii == a.curRow)
      invariant file.pos == rraStart + ii + 1
      invariant forall x :: 0 <= x < |out| ==>
                  && out[x].0 == FirstTime(rrd, a) + step * x
                  && out[x].1 == RowAt(file.rows, rrd, c, x)
    {
      NextRing(a, ix);
      ii := ii + 1;
      if ii >= a.rowCnt {
        file.Seek(rraStart);
        ii := 0;
      }
      var now := rrd.lastUp - rrd.lastUp % step + timer * step;
      DumpTime(step, timer, a.rowCnt - 1, ix);
      timer := timer + 1;
      var row := file.Read();
      out := out + [(now, row)];
      ix := ix + 1;
    }
  }

  lemma DumpTime(step: int, timer: int, back: int, x: int)
    requires timer == x - back
    ensures timer * step == step * x - step * back
  {
  }

  lemma NextRing(a: Rra, x: nat)
    requires ValidRra(a)
    ensures RingRow(a, x) ==
            var p := (if x == 0 then a.curRow else RingRow(a, x - 1)) + 1;
            if p < a.rowCnt then p else 0
  {
    if x == 0 {
      var p := a.curRow + 1;
      if p < a.rowCnt {
        DivUnique(p, 0, p, a.rowCnt);
      } else {
        DivUnique(p, 1, 0, a.rowCnt);
      }
    } else {
      RingShift(a, x - 1, 1);
    }
  }

  /** Every ring row is dumped exactly once. */
  lemma DumpedOnce(a: Rra, x: nat, y: nat)
    requires ValidRra(a) && x < y < a.rowCnt
    ensures RingRow(a, x) != RingRow(a, y)
  {
    RingShift(a, x, y - x);
  }

  /** Fetching and dumping agree: a dumped row is what a fetch returns for its time, and
      a fetched row inside the archive is the dumped row with the same time. */
  lemma DumpAgreesWithFetch(rows: seq<Row>, rrd: Rrd, c: nat, out: seq<(int, Row)>, t: int)
    requires ValidRrd(rrd) && c < |rrd.rras|
    requires Base(rrd.rras, c) + rrd.rras[c].rowCnt <= |rows|
    requires |out| == rrd.rras[c].rowCnt
    requires forall x :: 0 <= x < |out| ==>
               && out[x].0 == FirstTime(rrd, rrd.rras[c]) + StepOf(rrd, rrd.rras[c]) * x
               && out[x].1 == RowAt(rows, rrd, c, x)
    requires t % StepOf(rrd, rrd.rras[c]) == 0
    ensures forall x :: 0 <= x < |out| ==> RowFor(rows, rrd, c, out[x].0) == out[x].1
    ensures if FirstTime(rrd, rrd.rras[c]) <= t <= EndTime(rrd, rrd.rras[c])
            then exists x :: 0 <= x < |out| && out[x] == (t, RowFor(rows, rrd, c, t))
            else RowFor(rows, rrd, c, t) == Unknowns(rrd.dsCnt)
  {
    hide RowFor, RowAt, Base, StepOf, FirstTime, EndTime;
    var a := rrd.rras[c];
    var s := StepOf(rrd, a);
    forall x | 0 <= x < |out|
      ensures RowFor(rows, rrd, c, out[x].0) == out[x].1
    {
      TimeOfRow(rows, rrd, c, x);
    }
    var i := TimeIndex(rrd, a, t);
    TimeOfRow(rows, rrd, c, i);
    OutsideUnknown(rows, rrd, c, i);
    if 0 <= i < a.rowCnt {
      assert out[i] == (t, RowFor(rows, rrd, c, t));
    }
  }

  lemma OutsideUnknown(rows: seq<Row>, rrd: Rrd, c: nat, i: int)
    requires ValidRrd(rrd) && c < |rrd.rras|
    requires Base(rrd.rras, c) + rrd.rras[c].rowCnt <= |rows|
    ensures !(0 <= i < rrd.rras[c].rowCnt) ==> RowAt(rows, rrd, c, i) == Unknowns(rrd.dsCnt)
  {
  }

  /** The row number of a time that is a whole number of steps. */
  lemma TimeIndex(rrd: Rrd, a: Rra, t: int) returns (i: int)
    requires ValidRra(a) && rrd.pdpStep >= 1 && t % StepOf(rrd, a) == 0
    ensures t == FirstTime(rrd, a) + StepOf(rrd, a) * i
    ensures FirstTime(rrd, a) <= t <= EndTime(rrd, a) <==> 0 <= i < a.rowCnt
  {
    hide StepOf, Steps, FirstTime, EndTime;
    var s := StepOf(rrd, a);
    var first := rrd.lastUp / s - (a.rowCnt - 1);
    i := t / s - first;
    TimesInSteps(rrd, a, 0);
    DivIs(t, s);
    StepsCommute(s, t / s);
    StepsLaws(s, t / s, first);
    StepsLaws(s, first, t / s);
    StepsLaws(s, t / s, rrd.lastUp / s);
    StepsCommute(s, i);
    DumpTime(s, i, 0, i);
  }
}
