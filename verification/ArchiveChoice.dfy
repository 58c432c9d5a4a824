/** What choosing an archive means for the rows that are then found in it. */
module ArchiveChoice {
  import opened Arith
  import opened Text
  import opened Reduce
  import opened Fetch
  import opened ArchiveUpdate

  /** The archive holds the row for time `t`: it is one of the `rowCnt` newest, counted in
      steps of `pdpCnt` primary data points back from the newest one. */
  ghost predicate Stored(rrd: Rrd, a: Rra, t: int)
    requires ValidRra(a) && rrd.pdpStep >= 1
  {
    exists i :: 0 <= i < a.rowCnt && t == EndTime(rrd, a) - Steps(rrd.pdpStep * a.pdpCnt, i)
  }

  /** No row after `start` is missing because it is too old. */
  ghost predicate Covers(rrd: Rrd, a: Rra, start: int)
    requires ValidRra(a) && rrd.pdpStep >= 1
  {
    forall t :: start < t <= EndTime(rrd, a) && t % StepOf(rrd, a) == 0 ==> Stored(rrd, a, t)
  }

  /** A stored time is one whose row a fetch reads from the ring. */
  lemma StoredRow(rows: seq<Row>, rrd: Rrd, c: nat, t: int) returns (i: nat)
    requires ValidRrd(rrd) && c < |rrd.rras| && Base(rrd.rras, c) + rrd.rras[c].rowCnt <= |rows|
    requires Stored(rrd, rrd.rras[c], t)
    ensures i < rrd.rras[c].rowCnt
    ensures RowFor(rows, rrd, c, t) == rows[Base(rrd.rras, c) + Back(rrd.rras[c].rowCnt, rrd.rras[c].curRow, i)]
  {
    hide RowFor, EndTime, Base;
    var a := rrd.rras[c];
    StepPositive(rrd, a);
    i :| i < a.rowCnt && t == EndTime(rrd, a) - Steps(rrd.pdpStep * a.pdpCnt, i);
    RowBack(rows, rrd, c, i);
  }

  /** In whole steps: where the newest row and the start of the archive are. */
  lemma Ends(rrd: Rrd, a: Rra)
    requires ValidRra(a) && rrd.pdpStep >= 1
    ensures var s := rrd.pdpStep * a.pdpCnt;
      && s >= 1 && StepOf(rrd, a) == s && EndTime(rrd, a) == Steps(s, rrd.lastUp / s)
      && CalStart(rrd, a) == Steps(s, rrd.lastUp / s - a.rowCnt)
  {
    StepPositive(rrd, a);
    var s := rrd.pdpStep * a.pdpCnt;
    DivIs(rrd.lastUp, s);
    StepsLaws(s, rrd.lastUp / s, a.rowCnt);
  }

  /** The start that the choice goes by is one step before the oldest row. */
  lemma CalStartIs(rrd: Rrd, a: Rra)
    requires ValidRra(a) && rrd.pdpStep >= 1
    ensures CalStart(rrd, a) == FirstTime(rrd, a) - StepOf(rrd, a)
  {
    hide EndTime;
    var s := StepOf(rrd, a);
    assert s * a.rowCnt == s * (a.rowCnt - 1) + s;
  }

  /** How far apart two steps are. */
  lemma StepDiffIs(rrd: Rrd, a: Rra, step: nat)
    requires ValidRra(a) && rrd.pdpStep >= 1
    ensures StepDiff(rrd, a, step) == Distance(step, rrd.pdpStep * a.pdpCnt)
  {
    StepPositive(rrd, a);
  }

  /** An archive counts as covering the start exactly when every later row up to its newest
      one is there. */
  lemma CoversExactly(rrd: Rrd, a: Rra, start: int)
    requires ValidRra(a) && rrd.pdpStep >= 1
    ensures Full(rrd, a, start) <==> Covers(rrd, a, start)
  {
    hide EndTime, StepOf, CalStart, Steps;
    Ends(rrd, a);
    var s, e, n := rrd.pdpStep * a.pdpCnt, rrd.lastUp / (rrd.pdpStep * a.pdpCnt), a.rowCnt;
    if Full(rrd, a, start) {
      forall t | start < t <= EndTime(rrd, a) && t % s == 0
        ensures Stored(rrd, a, t)
      {
        WholeSteps(t, s);
        var x := t / s;
        StepsLaws(s, x, e);
        StepsLaws(s, e - n, x);
        StepsLaws(s, e, e - x);
        assert t == EndTime(rrd, a) - Steps(s, e - x);
      }
    } else {
      var t := CalStart(rrd, a);
      StepsLaws(s, e - n, e);
      MultipleOf(s, e - n);
      if Stored(rrd, a, t) {
        var i :| 0 <= i < n && t == EndTime(rrd, a) - Steps(s, i);
        StepsLaws(s, e, i);
        StepsLaws(s, e - n, e - i);
        StepsLaws(s, e - i, e - n);
        assert false;
      }
    }
  }

  lemma WholeSteps(t: int, s: int)
    requires s >= 1 && t % s == 0
    ensures t == Steps(s, t / s)
  {
    DivIs(t, s);
  }

  lemma MultipleOf(s: int, x: int)
    requires s >= 1
    ensures Steps(s, x) % s == 0
  {
    DivUnique(s * x, x, 0, s);
  }

  /** The archive chosen: if any with the function covers the start, it does, and its step is
      the nearest to the one asked for among those that do; if none does, none reaches
      further back, and among those that reach as far its step is the nearest. Of several
      it is the first. */
  lemma ChosenIs(rrd: Rrd, cf: Cf, start: int, step: nat, c: int, k: int)
    requires ValidRrd(rrd) && Best(rrd, cf, start, step, c)
    requires 0 <= k < |rrd.rras| && rrd.rras[k].cf == cf
    ensures 0 <= c < |rrd.rras| && rrd.rras[c].cf == cf
    ensures var a, b := rrd.rras[c], rrd.rras[k];
      var gap, other := Distance(step, rrd.pdpStep * a.pdpCnt), Distance(step, rrd.pdpStep * b.pdpCnt);
      && (Covers(rrd, b, start) ==> Covers(rrd, a, start) && (if k < c then gap < other else gap <= other))
      && (!Covers(rrd, a, start) ==>
           && FirstTime(rrd, a) - StepOf(rrd, a) <= FirstTime(rrd, b) - StepOf(rrd, b)
           && (FirstTime(rrd, a) - StepOf(rrd, a) == FirstTime(rrd, b) - StepOf(rrd, b) ==>
                if k < c then gap < other else gap <= other))
  {
    hide CalStart, StepDiff, Full, Covers, EndTime, FirstTime, StepOf;
    var a, b := rrd.rras[c], rrd.rras[k];
    CoversExactly(rrd, a, start);
    CoversExactly(rrd, b, start);
    CalStartIs(rrd, a);
    CalStartIs(rrd, b);
    StepDiffIs(rrd, a, step);
    StepDiffIs(rrd, b, step);
  }
}
