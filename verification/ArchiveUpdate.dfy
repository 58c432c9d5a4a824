/** The ring buffers as `rrd_update` advances them, and what a fetch then finds there. */
module ArchiveUpdate {
  import opened Arith
  import opened Text
  import opened Reduce
  import opened Fetch

  // ---------------------------------------------------------------- the ring, from its newest row back

  /** The ring row that is `i` rows older than the current one. */
  function Back(n: nat, cur: nat, i: nat): (r: nat)
    requires cur < n && i < n
    ensures r < n
  {
    if i <= cur then cur - i else cur - i + n
  }

  lemma BackNext(n: nat, cur: nat, i: nat)
    requires cur < n && i < n
    ensures var next := if cur + 1 >= n then 0 else cur + 1;
      Back(n, next, i) == if i == 0 then next else Back(n, cur, i - 1)
    ensures var next := if cur + 1 >= n then 0 else cur + 1;
      i > 0 ==> Back(n, next, i) != next
  {
  }

  /** The row for the time `i` steps before the newest is `i` rows back from the current
      row; nothing older is stored. */
  lemma RowBack(rows: seq<Row>, rrd: Rrd, c: nat, i: nat)
    requires ValidRrd(rrd) && c < |rrd.rras| && Base(rrd.rras, c) + rrd.rras[c].rowCnt <= |rows|
    ensures var a := rrd.rras[c];
      RowFor(rows, rrd, c, EndTime(rrd, a) - StepOf(rrd, a) * i) ==
        if i < a.rowCnt then rows[Base(rrd.rras, c) + Back(a.rowCnt, a.curRow, i)] else Unknowns(rrd.dsCnt)
  {
    hide RowFor, StepOf, Base, EndTime;
    var a := rrd.rras[c];
    var s, n := StepOf(rrd, a), a.rowCnt;
    var k := n - 1 - i;
    assert s * k == s * (n - 1) - s * i;
    TimeOfRow(rows, rrd, c, k);
    if i < n {
      var p := a.curRow + 1 + k;
      assert p == (if i <= a.curRow then 1 else 0) * n + Back(n, a.curRow, i);
      DivUnique(p, if i <= a.curRow then 1 else 0, Back(n, a.curRow, i), n);
    }
  }

  // ---------------------------------------------------------------- how many rows are due

  /** `calculate_elapsed_steps` and the start of `update_all_cdp_prep`: how many rows of
      `pdpCnt` primary data points are completed between the last update and `now`. */
  method RowsDue(pdpStep: nat, lastUp: nat, now: nat, pdpCnt: nat) returns (count: nat)
    requires pdpStep >= 1 && pdpCnt >= 1 && lastUp <= now
    ensures count == now / (pdpStep * pdpCnt) - lastUp / (pdpStep * pdpCnt)
  {
    var procPdpSt := lastUp - lastUp % pdpStep;
    var occuPdpSt := now - now % pdpStep;
    var procPdpCnt := procPdpSt / pdpStep;
    var elapsedPdpSt := (occuPdpSt - procPdpSt) / pdpStep;
    WholePoints(pdpStep, lastUp, now);
    var startPdpOffset := pdpCnt - procPdpCnt % pdpCnt;
    if startPdpOffset <= elapsedPdpSt {
      count := (elapsedPdpSt - startPdpOffset) / pdpCnt + 1;
    } else {
      count := 0;
    }
    BoundariesPassed(procPdpCnt, elapsedPdpSt, pdpCnt);
    Grouped(lastUp, pdpStep, pdpCnt);
    Grouped(now, pdpStep, pdpCnt);
  }

  lemma WholePoints(step: nat, lastUp: nat, now: nat)
    requires step >= 1 && lastUp <= now
    ensures var st, occu := lastUp - lastUp % step, now - now % step;
      && 0 <= st <= occu && st / step == lastUp / step && (occu - st) / step == now / step - lastUp / step
  {
    DivIs(lastUp, step);
    DivIs(now, step);
    Ordered(lastUp, now, step);
    Ordered(0, lastUp, step);
    var p, q := lastUp / step, now / step;
    DivUnique(lastUp - lastUp % step, p, 0, step);
    assert (now - now % step) - (lastUp - lastUp % step) == (q - p) * step;
    DivUnique((now - now % step) - (lastUp - lastUp % step), q - p, 0, step);
    if q > p {
      AtLeastOnce(q - p, step);
    }
  }

  /** Counting up by `e` from `p` passes this many multiples of `m`. */
  lemma BoundariesPassed(p: nat, e: nat, m: nat)
    requires m >= 1
    ensures m - p % m >= 1
    ensures (if m - p % m <= e then (e - (m - p % m)) / m + 1 else 0) == (p + e) / m - p / m
  {
    DivIs(p, m);
    var offset := m - p % m;
    if offset <= e {
      DivIs(e - offset, m);
      var k, r := (e - offset) / m, (e - offset) % m;
      assert (p / m + 1 + k) * m == p / m * m + m + k * m;
      DivUnique(p + e, p / m + 1 + k, r, m);
    } else {
      DivUnique(p + e, p / m, p % m + e, m);
    }
  }

  /** Whole steps of whole steps. */
  lemma Grouped(t: nat, step: nat, cnt: nat)
    requires step >= 1 && cnt >= 1
    ensures step * cnt >= 1 && t / (step * cnt) == t / step / cnt
  {
    AtLeastOnce(step, cnt);
    var q := t / step;
    DivIs(t, step);
    DivIs(q, cnt);
    Ordered(0, t, step);
    Regrouped(q / cnt, q % cnt, t % step, step, cnt);
    DivUnique(t, q / cnt, q % cnt * step + t % step, step * cnt);
  }

  lemma Regrouped(x: int, y: nat, z: nat, step: nat, cnt: nat)
    requires y < cnt && z < step
    ensures (x * cnt + y) * step + z == x * (step * cnt) + (y * step + z)
    ensures 0 <= y * step + z < step * cnt
  {
    assert (x * cnt + y) * step == x * cnt * step + y * step;
    assert x * cnt * step == x * (step * cnt);
    AtLeastOnce(cnt - y, step);
    assert (cnt - y) * step == step * cnt - y * step;
  }

  // ---------------------------------------------------------------- writing them

  /** Row number `j` of those written: the first is the consolidated one, the others are
      the filler of a longer interval. */
  function Due(primary: Row, secondary: Row, j: nat): Row {
    if j == 0 then primary else secondary
  }

  /** The ring after `count` rows: they are the newest, and what was there is that much
      further back, as far as it still fits. */
  ghost predicate Advanced(n: nat, base: nat, before: seq<Row>, cur0: nat, after: seq<Row>, cur: nat, count: nat,
                           primary: Row, secondary: Row)
    requires cur0 < n && cur < n && base + n <= |before| && |after| == |before|
  {
    forall i :: 0 <= i < n ==>
      after[base + Back(n, cur, i)] ==
        if i < count then Due(primary, secondary, count - 1 - i) else before[base + Back(n, cur0, i - count)]
  }

  lemma AdvancedNext(n: nat, base: nat, before: seq<Row>, cur0: nat, after: seq<Row>, cur: nat, count: nat,
                     primary: Row, secondary: Row)
    requires cur0 < n && cur < n && base + n <= |before| && |after| == |before|
    requires Advanced(n, base, before, cur0, after, cur, count, primary, secondary)
    ensures var next := if cur + 1 >= n then 0 else cur + 1;
      Advanced(n, base, before, cur0, after[base + next := Due(primary, secondary, count)], next, count + 1,
               primary, secondary)
  {
    hide Back, Due;
    var next := if cur + 1 >= n then 0 else cur + 1;
    var after' := after[base + next := Due(primary, secondary, count)];
    forall i | 0 <= i < n
      ensures after'[base + Back(n, next, i)] ==
        if i < count + 1 then Due(primary, secondary, count - i) else before[base + Back(n, cur0, i - count - 1)]
    {
      BackNext(n, cur, i);
    }
  }

  /** `write_to_rras` for one archive, with the times it reports for its rows. (The code
      computes these times with unsigned numbers, which wrap round to the same.) */
  method WriteToRra(rows: array<Row>, base: nat, a: Rra, count: nat, primary: Row, secondary: Row,
                    step: nat, now: nat)
    returns (curRow: nat, times: seq<int>)
    requires ValidRra(a) && base + a.rowCnt <= rows.Length && step >= 1
    modifies rows
    ensures curRow < a.rowCnt
    ensures Advanced(a.rowCnt, base, old(rows[..]), a.curRow, rows[..], curRow, count, primary, secondary)
    ensures forall k :: 0 <= k < rows.Length && !(base <= k < base + a.rowCnt) ==> rows[k] == old(rows[k])
    ensures |times| == count
    ensures forall j :: 0 <= j < count ==>
              times[j] == now - now % step - (count - 1 - j) * step + if j == 0 then 0 else step
  {
    hide Advanced, Due;
    ghost var before := rows[..];
    curRow, times := a.curRow, [];
    var rraStepCnt: nat, stepSubtract, row := count, 1, primary;
    NotAdvanced(a.rowCnt, base, before, a.curRow, primary, secondary);
    while rraStepCnt > 0
      invariant rraStepCnt <= count && |times| == count - rraStepCnt && curRow < a.rowCnt
      invariant stepSubtract == (if rraStepCnt == count then 1 else 2)
      invariant row == Due(primary, secondary, count - rraStepCnt)
      invariant Advanced(a.rowCnt, base, before, a.curRow, rows[..], curRow, count - rraStepCnt, primary, secondary)
      invariant forall k :: 0 <= k < rows.Length && !(base <= k < base + a.rowCnt) ==> rows[k] == before[k]
      invariant forall j :: 0 <= j < |times| ==>
                  times[j] == now - now % step - (count - 1 - j) * step + if j == 0 then 0 else step
    {
      AdvancedNext(a.rowCnt, base, before, a.curRow, rows[..], curRow, count - rraStepCnt, primary, secondary);
      curRow := curRow + 1;
      if curRow >= a.rowCnt {
        curRow := 0;
      }
      rows[base + curRow] := row;
      ReportedIs(rraStepCnt, stepSubtract, count, step);
      times := times + [now - now % step - (rraStepCnt - stepSubtract) * step];
      DueNext(primary, secondary, count - rraStepCnt);
      rraStepCnt, row, stepSubtract := rraStepCnt - 1, secondary, 2;
    }
  }

  lemma DueNext(primary: Row, secondary: Row, j: nat)
    ensures Due(primary, secondary, 0) == primary && Due(primary, secondary, j + 1) == secondary
  {
  }

  lemma NotAdvanced(n: nat, base: nat, before: seq<Row>, cur: nat, primary: Row, secondary: Row)
    requires cur < n && base + n <= |before|
    ensures Advanced(n, base, before, cur, before, cur, 0, primary, secondary)
    ensures Due(primary, secondary, 0) == primary
  {
  }

  lemma ReportedIs(left: nat, subtract: nat, count: nat, step: nat)
    requires 1 <= left <= count && subtract == if left == count then 1 else 2
    ensures var j := count - left;
      -(left - subtract) * step == -(count - 1 - j) * step + if j == 0 then 0 else step
  {
  }

  // ---------------------------------------------------------------- all archives

  /** Archive `c` has got the rows due since the last update. */
  ghost predicate Updated(rrd: Rrd, rrd': Rrd, before: seq<Row>, after: seq<Row>, c: nat, primary: Row, secondary: Row)
    requires ValidRrd(rrd) && ValidRrd(rrd') && rrd.lastUp <= rrd'.lastUp
    requires c < |rrd.rras| && |rrd'.rras| == |rrd.rras|
  {
    var a, a' := rrd.rras[c], rrd'.rras[c];
    var base := Base(rrd.rras, c);
    && rrd'.pdpStep == rrd.pdpStep && rrd'.dsCnt == rrd.dsCnt
    && a' == a.(curRow := a'.curRow) && Base(rrd'.rras, c) == base
    && base + a.rowCnt <= |before| && |after| == |before|
    && rrd'.lastUp / (rrd.pdpStep * a.pdpCnt) >= rrd.lastUp / (rrd.pdpStep * a.pdpCnt)
    && Advanced(a.rowCnt, base, before, a.curRow, after, a'.curRow,
                rrd'.lastUp / (rrd.pdpStep * a.pdpCnt) - rrd.lastUp / (rrd.pdpStep * a.pdpCnt), primary, secondary)
  }

  lemma StepPositive(rrd: Rrd, a: Rra)
    requires ValidRra(a) && rrd.pdpStep >= 1
    ensures rrd.pdpStep * a.pdpCnt >= 1 && StepOf(rrd, a) == rrd.pdpStep * a.pdpCnt
  {
    AtLeastOnce(rrd.pdpStep, a.pdpCnt);
  }

  /** Only the rows of the ring matter. */
  lemma AdvancedSame(n: nat, base: nat, before: seq<Row>, cur0: nat, after: seq<Row>, cur: nat, count: nat,
                     primary: Row, secondary: Row, before': seq<Row>, after': seq<Row>)
    requires cur0 < n && cur < n && base + n <= |before| && |after| == |before| == |before'| == |after'|
    requires Advanced(n, base, before, cur0, after, cur, count, primary, secondary)
    requires forall k :: base <= k < base + n ==> before[k] == before'[k] && after[k] == after'[k]
    ensures Advanced(n, base, before', cur0, after', cur, count, primary, secondary)
  {
    hide Due;
  }

  lemma {:induction false} SameBases(rras: seq<Rra>, rras': seq<Rra>, c: nat)
    requires |rras'| == |rras| && c <= |rras|
    requires forall i :: 0 <= i < |rras| ==> rras'[i].rowCnt == rras[i].rowCnt
    ensures Base(rras', c) == Base(rras, c)
  {
    if c > 0 {
      SameBases(rras, rras', c - 1);
    }
  }

  /** An archive only moves its current row. */
  predicate Moved(a: Rra, a': Rra) {
    ValidRra(a') && a' == a.(curRow := a'.curRow)
  }

  /** `rows` holds archive `c`'s ring as it is after the update. */
  ghost predicate Written(rrd: Rrd, now: nat, before: seq<Row>, after: seq<Row>, c: nat, a': Rra, primary: Row,
                          secondary: Row)
    requires ValidRrd(rrd) && c < |rrd.rras| && rrd.lastUp <= now
  {
    var a, base := rrd.rras[c], Base(rrd.rras, c);
    var due := now / StepOf(rrd, a) - rrd.lastUp / StepOf(rrd, a);
    && Moved(a, a') && base + a.rowCnt <= |before| && |after| == |before| && due >= 0
    && Advanced(a.rowCnt, base, before, a.curRow, after, a'.curRow, due, primary, secondary)
  }

  lemma WrittenSame(rrd: Rrd, now: nat, before: seq<Row>, after: seq<Row>, c: nat, a': Rra, primary: Row,
                    secondary: Row, before': seq<Row>, after': seq<Row>)
    requires ValidRrd(rrd) && c < |rrd.rras| && rrd.lastUp <= now
    requires Written(rrd, now, before, after, c, a', primary, secondary)
    requires |after'| == |before'| == |before|
    requires var base := Base(rrd.rras, c);
      forall k :: base <= k < base + rrd.rras[c].rowCnt ==> before[k] == before'[k] && after[k] == after'[k]
    ensures Written(rrd, now, before', after', c, a', primary, secondary)
  {
    hide Advanced, Base, StepOf;
    var a, base := rrd.rras[c], Base(rrd.rras, c);
    var due := now / StepOf(rrd, a) - rrd.lastUp / StepOf(rrd, a);
    AdvancedSame(a.rowCnt, base, before, a.curRow, after, a'.curRow, due, primary, secondary, before', after');
  }

  /** One update of the whole file: the row counts of `update_all_cdp_prep`, and the loop of
      `write_to_rras`. */
  method UpdateArchives(rrd: Rrd, rows: array<Row>, now: nat, primary: seq<Row>, secondary: seq<Row>)
    returns (rrd': Rrd)
    requires ValidRrd(rrd) && FileHolds(rows[..], rrd) && rrd.lastUp <= now
    requires |primary| == |secondary| == |rrd.rras|
    modifies rows
    ensures ValidRrd(rrd') && rrd'.lastUp == now && |rrd'.rras| == |rrd.rras| && FileHolds(rows[..], rrd')
    ensures forall c :: 0 <= c < |rrd.rras| ==>
              Updated(rrd, rrd', old(rows[..]), rows[..], c, primary[c], secondary[c])
  {
    hide Base, StepOf, Written;
    ghost var before := rows[..];
    var rras, rraStart, i := rrd.rras, 0, 0;
    NoBase(rrd.rras);
    while i < |rrd.rras|
      invariant 0 <= i <= |rrd.rras| == |rras| && rraStart == Base(rrd.rras, i)
      invariant forall c :: 0 <= c < |rras| ==> Moved(rrd.rras[c], rras[c])
      invariant forall c :: 0 <= c < i ==>
                  Written(rrd, now, before, rows[..], c, rras[c], primary[c], secondary[c])
      invariant forall k :: rraStart <= k < rows.Length ==> rows[k] == before[k]
    {
      var a := rrd.rras[i];
      StepPositive(rrd, a);
      ghost var mid := rows[..];
      InsideFile(rrd.rras, i, |rrd.rras|);
      var count := RowsDue(rrd.pdpStep, rrd.lastUp, now, a.pdpCnt);
      var curRow, _ := WriteToRra(rows, rraStart, a, count, primary[i], secondary[i], rrd.pdpStep * a.pdpCnt, now);
      rras := rras[i := a.(curRow := curRow)];
      WrittenNow(rrd, now, mid, rows[..], i, rras[i], primary[i], secondary[i], before);
      forall c | 0 <= c < i
        ensures Written(rrd, now, before, rows[..], c, rras[c], primary[c], secondary[c])
      {
        InsideFile(rrd.rras, c, i);
        WrittenSame(rrd, now, before, mid, c, rras[c], primary[c], secondary[c], before, rows[..]);
      }
      NextBase(rrd.rras, i);
      rraStart, i := rraStart + a.rowCnt, i + 1;
    }
    rrd' := rrd.(rras := rras, lastUp := now);
    SameBases(rrd.rras, rras, |rras|);
    forall c | 0 <= c < |rrd.rras|
      ensures Updated(rrd, rrd', before, rows[..], c, primary[c], secondary[c])
    {
      SameBases(rrd.rras, rras, c);
      StepPositive(rrd, rrd.rras[c]);
      WrittenIsUpdated(rrd, rrd', before, rows[..], c, primary[c], secondary[c]);
    }
  }

  lemma NoBase(rras: seq<Rra>)
    ensures Base(rras, 0) == 0
  {
  }

  lemma NextBase(rras: seq<Rra>, i: nat)
    requires i < |rras|
    ensures Base(rras, i + 1) == Base(rras, i) + rras[i].rowCnt
  {
  }

  lemma WrittenNow(rrd: Rrd, now: nat, mid: seq<Row>, after: seq<Row>, c: nat, a': Rra, primary: Row,
                   secondary: Row, before: seq<Row>)
    requires ValidRrd(rrd) && c < |rrd.rras| && rrd.lastUp <= now && Moved(rrd.rras[c], a')
    requires Base(rrd.rras, c) + rrd.rras[c].rowCnt <= |mid| && |after| == |mid| == |before|
    requires var s := rrd.pdpStep * rrd.rras[c].pdpCnt;
      s >= 1 && now / s - rrd.lastUp / s >= 0
      && Advanced(rrd.rras[c].rowCnt, Base(rrd.rras, c), mid, rrd.rras[c].curRow, after, a'.curRow,
                  now / s - rrd.lastUp / s, primary, secondary)
    requires var base := Base(rrd.rras, c);
      forall k :: base <= k < base + rrd.rras[c].rowCnt ==> mid[k] == before[k]
    ensures Written(rrd, now, before, after, c, a', primary, secondary)
  {
    hide Advanced, Base, StepOf;
    StepPositive(rrd, rrd.rras[c]);
    WrittenSame(rrd, now, mid, after, c, a', primary, secondary, before, after);
  }

  lemma WrittenIsUpdated(rrd: Rrd, rrd': Rrd, before: seq<Row>, after: seq<Row>, c: nat, primary: Row,
                         secondary: Row)
    requires ValidRrd(rrd) && ValidRrd(rrd') && rrd.lastUp <= rrd'.lastUp
    requires c < |rrd.rras| && |rrd'.rras| == |rrd.rras|
    requires rrd'.pdpStep == rrd.pdpStep && rrd'.dsCnt == rrd.dsCnt && Base(rrd'.rras, c) == Base(rrd.rras, c)
    requires Written(rrd, rrd'.lastUp, before, after, c, rrd'.rras[c], primary, secondary)
    ensures Updated(rrd, rrd', before, after, c, primary, secondary)
  {
    hide Advanced, Base, StepOf;
    StepPositive(rrd, rrd.rras[c]);
  }

  // ---------------------------------------------------------------- what a fetch finds afterwards

  /** The row for every time after an update: the rows completed since the last update
      carry the times that follow the newest one so far, older rows keep theirs, and those
      that no longer fit the ring are gone. */
  lemma FetchedAfterUpdate(rrd: Rrd, rrd': Rrd, before: seq<Row>, after: seq<Row>, c: nat, primary: Row,
                           secondary: Row, t: int)
    requires ValidRrd(rrd) && ValidRrd(rrd') && rrd.lastUp <= rrd'.lastUp
    requires c < |rrd.rras| && |rrd'.rras| == |rrd.rras|
    requires Updated(rrd, rrd', before, after, c, primary, secondary) && t % StepOf(rrd, rrd.rras[c]) == 0
    ensures Base(rrd'.rras, c) + rrd'.rras[c].rowCnt <= |after|
    ensures var a, a', s := rrd.rras[c], rrd'.rras[c], StepOf(rrd, rrd.rras[c]);
      RowFor(after, rrd', c, t) ==
        if t > EndTime(rrd', a') || t <= EndTime(rrd', a') - s * a.rowCnt then Unknowns(rrd.dsCnt)
        else if t == EndTime(rrd, a) + s then primary
        else if t > EndTime(rrd, a) then secondary
        else RowFor(before, rrd, c, t)
  {
    hide RowFor, Base, Back, StepOf, EndTime, Advanced, Due;
    var a, a' := rrd.rras[c], rrd'.rras[c];
    var s, n := StepOf(rrd, a), a.rowCnt;
    StepPositive(rrd, a);
    StepPositive(rrd', a');
    assert StepOf(rrd', a') == s;
    var e, e', x := rrd.lastUp / s, rrd'.lastUp / s, t / s;
    var count, i := e' - e, e' - x;
    InSteps(rrd, a, t, e, x);
    InSteps(rrd', a', t, e', x);
    if i < 0 {
      NotYet(after, rrd', c, t);
    } else {
      RowBack(after, rrd', c, i);
      if i < n {
        AdvancedAt(n, Base(rrd.rras, c), before, a.curRow, after, a'.curRow, count, primary, secondary, i);
      }
      if x <= e {
        RowBack(before, rrd, c, e - x);
      }
    }
  }

  lemma AdvancedAt(n: nat, base: nat, before: seq<Row>, cur0: nat, after: seq<Row>, cur: nat, count: nat,
                   primary: Row, secondary: Row, i: nat)
    requires cur0 < n && cur < n && base + n <= |before| && |after| == |before| && i < n
    requires Advanced(n, base, before, cur0, after, cur, count, primary, secondary)
    ensures after[base + Back(n, cur, i)] ==
      if i >= count then before[base + Back(n, cur0, i - count)] else if i == count - 1 then primary else secondary
  {
    hide Back;
  }

  /** Times in whole steps, against the newest row. */
  lemma InSteps(rrd: Rrd, a: Rra, t: int, e: int, x: int)
    requires ValidRra(a) && rrd.pdpStep >= 1 && t % StepOf(rrd, a) == 0
    requires e == rrd.lastUp / StepOf(rrd, a) && x == t / StepOf(rrd, a)
    ensures var s, end := StepOf(rrd, a), EndTime(rrd, a);
      && end - s * (e - x) == t && (t > end <==> x > e) && (t == end + s <==> x == e + 1)
      && (t <= end - s * a.rowCnt <==> x <= e - a.rowCnt)
  {
    hide StepOf;
    var s := StepOf(rrd, a);
    DivIs(t, s);
    DivIs(rrd.lastUp, s);
    assert s * (e - x) == s * e - s * x;
    assert s * (e - a.rowCnt) == s * e - s * a.rowCnt;
    assert s * (e + 1) == s * e + s;
    StepsOrder(s, x, e);
    StepsOrder(s, x, e + 1);
    StepsOrder(s, x, e - a.rowCnt);
  }

  lemma StepsOrder(s: int, x: int, y: int)
    requires s >= 1
    ensures (s * x <= s * y <==> x <= y) && (s * x == s * y <==> x == y)
  {
    assert s * (y - x) == s * y - s * x;
    Signs(s, y - x);
  }

  lemma NotYet(rows: seq<Row>, rrd: Rrd, c: nat, t: int)
    requires ValidRrd(rrd) && c < |rrd.rras| && Base(rrd.rras, c) + rrd.rras[c].rowCnt <= |rows|
    requires t > EndTime(rrd, rrd.rras[c])
    ensures RowFor(rows, rrd, c, t) == Unknowns(rrd.dsCnt)
  {
  }

  /** The time reported for row `j` of those written at once is the time at which a fetch
      finds it exactly for the first one; the others are reported a step late. */
  lemma ReportedExactly(step: nat, lastUp: nat, now: nat, j: nat)
    requires step >= 1 && j < now / step - lastUp / step
    ensures var count := now / step - lastUp / step;
      var found := lastUp - lastUp % step + step * (j + 1);
      var reported := now - now % step - (count - 1 - j) * step + if j == 0 then 0 else step;
      (reported == found <==> j == 0) && (j > 0 ==> reported == found + step)
  {
    DivIs(lastUp, step);
    DivIs(now, step);
    var p, q := lastUp / step, now / step;
    assert (q - p - 1 - j) * step == q * step - p * step - step * (j + 1);
  }
}
