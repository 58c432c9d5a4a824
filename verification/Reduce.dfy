/** `reduce_data`: consolidating fetched rows to a coarser step, in place. */
module Reduce {
  import opened Arith
  import opened Reals
  import opened Text

  datatype Cf =
    | Average | Minimum | Maximum | Last | Hwpredict | Mhwpredict
    | Seasonal | Devpredict | Devseasonal | Failures

  // ---------------------------------------------------------------- consolidating the values of one interval

  predicate Averages(cf: Cf) {
    !cf.Minimum? && !cf.Maximum? && !cf.Last? && !cf.Failures?
  }

  function Known(s: seq<Value>): (k: seq<real>)
    ensures |k| <= |s|
  {
    if s == [] then []
    else
      var k := Known(s[..|s| - 1]);
      if s[|s| - 1].Some? then k + [s[|s| - 1].value] else k
  }

  function Join(cf: Cf, x: real, y: real): real {
    match cf
    case Minimum => if x < y then x else y
    case Maximum => if x > y then x else y
    case Failures => if x > y then x else y
    case Last => y
    case _ => x + y
  }

  function Fold(cf: Cf, k: seq<real>): real
    requires k != []
  {
    if |k| == 1 then k[0] else Join(cf, Fold(cf, k[..|k| - 1]), k[|k| - 1])
  }

  function Consolidate(cf: Cf, s: seq<Value>): Value {
    var k := Known(s);
    if k == [] then None
    else Some(if Averages(cf) then Fold(cf, k) / |k| as real else Fold(cf, k))
  }

  lemma {:induction false} KnownIff(s: seq<Value>, x: real)
    ensures x in Known(s) <==> Some(x) in s
  {
    if s != [] {
      KnownIff(s[..|s| - 1], x);
      assert s == s[..|s| - 1] + [s[|s| - 1]];
    }
  }

  lemma {:induction false} FoldExtreme(cf: Cf, k: seq<real>)
    requires k != []
    ensures cf.Minimum? ==> Fold(cf, k) in k && forall i :: 0 <= i < |k| ==> Fold(cf, k) <= k[i]
    ensures cf.Maximum? || cf.Failures? ==> Fold(cf, k) in k && forall i :: 0 <= i < |k| ==> Fold(cf, k) >= k[i]
    ensures cf.Last? ==> Fold(cf, k) == k[|k| - 1]
  {
    if |k| > 1 {
      FoldExtreme(cf, k[..|k| - 1]);
    }
  }

  lemma {:induction false} FoldIsTotal(cf: Cf, k: seq<real>)
    requires Averages(cf) && k != []
    ensures Fold(cf, k) == Total(k)
  {
    if |k| > 1 {
      FoldIsTotal(cf, k[..|k| - 1]);
    } else {
      assert k[..0] == [];
    }
  }

  lemma {:induction false} LastKnown(s: seq<Value>, i: nat)
    requires i < |s| && s[i].Some? && forall j :: i < j < |s| ==> s[j].None?
    ensures Known(s) != [] && Known(s)[|Known(s)| - 1] == s[i].value
  {
    if i < |s| - 1 {
      LastKnown(s[..|s| - 1], i);
    }
  }

  /** The average of an interval is the sum of its known values over their number, and lies
      between any bounds of them; its last value is the last one known. */
  lemma AverageAndLast(cf: Cf, s: seq<Value>, low: real, high: real, last: nat)
    requires last < |s| && s[last].Some? && forall j :: last < j < |s| ==> s[j].None?
    requires forall x: real :: Some(x) in s ==> low <= x <= high
    ensures Consolidate(cf, s).Some?
    ensures cf in {Average, Hwpredict, Mhwpredict, Seasonal, Devpredict, Devseasonal} ==>
              && Consolidate(cf, s).value * |Known(s)| as real == Total(Known(s))
              && low <= Consolidate(cf, s).value <= high
    ensures cf.Last? ==> Consolidate(cf, s) == s[last]
  {
    hide Fold, Total, Known;
    var k := Known(s);
    LastKnown(s, last);
    FoldExtreme(cf, k);
    forall i | 0 <= i < |k|
      ensures low <= k[i] <= high
    {
      KnownIff(s, k[i]);
    }
    if Averages(cf) {
      FoldIsTotal(cf, k);
      TotalBounds(k, low, high);
      QuotientBounds(Total(k), |k| as real, low, high);
      TimesBack(Total(k), |k| as real);
    }
  }

  lemma TimesBack(x: real, n: real)
    requires n > 0.0
    ensures x / n * n == x
  {
  }

  /** What a consolidated value means: unknown only when everything is, otherwise the
      least or greatest known value of the interval. */
  lemma ConsolidateIs(cf: Cf, s: seq<Value>)
    ensures Consolidate(cf, s).None? <==> forall i :: 0 <= i < |s| ==> s[i].None?
    ensures cf.Minimum? && Consolidate(cf, s).Some? ==>
              Consolidate(cf, s) in s
              && forall x: real :: Some(x) in s ==> Consolidate(cf, s).value <= x
    ensures (cf.Maximum? || cf.Failures?) && Consolidate(cf, s).Some? ==>
              Consolidate(cf, s) in s
              && forall x: real :: Some(x) in s ==> Consolidate(cf, s).value >= x
  {
    var k := Known(s);
    if k == [] {
      forall i | 0 <= i < |s|
        ensures s[i].None?
      {
        if s[i].Some? {
          KnownIff(s, s[i].value);
        }
      }
    } else {
      KnownIff(s, k[0]);
      FoldExtreme(cf, k);
      KnownIff(s, Fold(cf, k));
      forall x: real | Some(x) in s
        ensures x in k
      {
        KnownIff(s, x);
      }
    }
  }

  // ---------------------------------------------------------------- the rows the caller should get

  // In units of the current step the source covers (a, b], and source row k is the
  // interval that ends at a + k + 1.

  ghost predicate Grid(rows: seq<seq<Value>>, m: nat, n: nat) {
    |rows| == m && forall i :: 0 <= i < m ==> |rows[i]| == n
  }

  ghost function Piece(rows: seq<seq<Value>>, lo: nat, count: nat, k: nat): (s: seq<Value>)
    requires lo + count <= |rows| && forall i :: 0 <= i < |rows| ==> k < |rows[i]|
    ensures |s| == count
  {
    seq(count, i requires 0 <= i < count => rows[lo + i][k])
  }

  /** First source row of coarse row `j`; negative when the window's start cuts it. */
  function FirstRow(a: nat, f: nat, j: nat): int
    requires f >= 1
  {
    (a / f + j) * f - a
  }

  /** Column `k` of coarse row `j`: unknown if either end of the window cuts the row. */
  ghost function Wanted(cf: Cf, rows: seq<seq<Value>>, a: nat, b: nat, f: nat, j: nat, k: nat): Value
    requires f >= 1 && a <= b && b - a <= |rows| && forall i :: 0 <= i < |rows| ==> k < |rows[i]|
  {
    var lo := FirstRow(a, f, j);
    if lo < 0 || lo + f > b - a then None else Consolidate(cf, Piece(rows, lo, f, k))
  }

  /** Coarse rows that touch the window. */
  function CoarseRows(a: nat, b: nat, f: nat): int
    requires f >= 1
  {
    b / f + (if b % f != 0 then 1 else 0) - a / f
  }

  predicate BoundaryAt(a: int, b: int, f: int, q: int) {
    a <= q * f <= b
  }

  /** The last multiple of `f` up to `b` is not before `a`. */
  predicate HasBoundary(a: int, b: int, f: int)
    requires f >= 1
  {
    b - b % f >= a
  }

  lemma BoundaryExists(a: int, b: int, f: int)
    requires f >= 1
    ensures HasBoundary(a, b, f) <==> exists q :: BoundaryAt(a, b, f, q)
  {
    DivIs(b, f);
    if HasBoundary(a, b, f) {
      assert BoundaryAt(a, b, f, b / f);
    }
    if exists q :: BoundaryAt(a, b, f, q) {
      var q :| BoundaryAt(a, b, f, q);
      assert (q - b / f) * f == q * f - b / f * f;
      if q > b / f {
        AtLeastOnce(q - b / f, f);
      } else if q < b / f {
        AtLeastOnce(b / f - q, f);
        assert (b / f - q) * f == -(q - b / f) * f;
      }
    }
  }

  /** Rows skipped at the start so that whole coarse rows remain. */
  function SkipStart(a: nat, f: nat): nat
    requires f >= 1
  {
    if a % f != 0 then f - a % f else 0
  }

  /** Whole coarse rows in the window; -1 when it lies strictly inside one. */
  function WholeRows(a: nat, b: nat, f: nat): int
    requires f >= 1
  {
    b / f - a / f - (if a % f != 0 then 1 else 0)
  }

  lemma RowCount(a: nat, b: nat, f: nat)
    requires f >= 1 && a <= b
    ensures b - a - SkipStart(a, f) - b % f == WholeRows(a, b, f) * f
    ensures if HasBoundary(a, b, f) then WholeRows(a, b, f) >= 0
            else WholeRows(a, b, f) == -1 && a % f != 0 && b % f != 0
  {
    DivIs(a, f);
    DivIs(b, f);
    var d, s := b / f - a / f, if a % f != 0 then 1 else 0;
    assert (d - s) * f == b / f * f - a / f * f - s * f;
    assert s * f == if a % f != 0 then f else 0;
    assert d * f == b / f * f - a / f * f;
    if d < 0 {
      AtLeastOnce(-d, f);
    } else if d > 0 {
      AtLeastOnce(d, f);
    }
  }

  // ---------------------------------------------------------------- 64-bit counting

  const TWO64: int := 0x1_0000_0000_0000_0000

  function Unsigned(x: int): int {
    x % TWO64
  }

  function Signed(x: int): int {
    if x >= 0x8000_0000_0000_0000 then x - TWO64 else x
  }

  function Power2(k: nat): (p: nat)
    ensures p >= 1
  {
    if k == 0 then 1 else 2 * Power2(k - 1)
  }

  ghost predicate IsPower2(f: nat) {
    exists k: nat :: f == Power2(k)
  }

  lemma {:induction false} Power2Divides(k: nat, m: nat)
    requires m <= k
    ensures Power2(k) % Power2(m) == 0
  {
    if m == k {
      DivUnique(Power2(k), 1, 0, Power2(k));
    } else {
      Power2Divides(k - 1, m);
      var q := Power2(k - 1) / Power2(m);
      DivIs(Power2(k - 1), Power2(m));
      DivUnique(Power2(k), 2 * q, 0, Power2(m));
    }
  }

  /** Only powers of two divide a power of two. */
  lemma {:induction false} DividesPower2(k: nat, f: nat)
    requires f >= 1 && Power2(k) % f == 0
    ensures exists m: nat :: m <= k && f == Power2(m)
  {
    var q := Power2(k) / f;
    DivIs(Power2(k), f);
    if k == 0 {
      assert q * f == 1;
      if q >= 1 {
        AtLeastOnce(q, f);
      }
      assert f == Power2(0);
    } else if q % 2 == 0 {
      var h := q / 2;
      assert q * f == 2 * (h * f);
      DivUnique(Power2(k - 1), h, 0, f);
      DividesPower2(k - 1, f);
    } else {
      assert q * f % 2 == 0;
      OddFactor(q, f);
      var g := f / 2;
      assert q * f == 2 * (q * g);
      DivUnique(Power2(k - 1), q, 0, g);
      DividesPower2(k - 1, g);
      var m: nat :| m <= k - 1 && g == Power2(m);
      assert f == Power2(m + 1);
    }
  }

  lemma OddFactor(q: int, f: int)
    requires q % 2 == 1 && q * f % 2 == 0
    ensures f % 2 == 0
  {
    var h := q / 2;
    assert q * f == 2 * (h * f) + f;
  }

  lemma Power2Of64()
    ensures Power2(64) == TWO64
  {
    assert Power2(8) == 256;
    assert Power2(16) == 65536;
    assert Power2(24) == 0x100_0000;
    assert Power2(32) == 0x1_0000_0000;
    assert Power2(40) == 0x100_0000_0000;
    assert Power2(48) == 0x1_0000_0000_0000;
    assert Power2(56) == 0x100_0000_0000_0000;
  }

  lemma UnsignedOnce(x: int)
    requires -TWO64 <= x < TWO64
    ensures Unsigned(x) == if x < 0 then x + TWO64 else x
  {
  }

  lemma Multiple(p: int, f: int)
    requires f >= 1
    ensures (p * f) % f == 0
  {
    DivUnique(p * f, p, 0, f);
  }

  lemma WrappedMultiple(f: int)
    requires 1 <= f < TWO64
    ensures (TWO64 - f) % f == 0 <==> TWO64 % f == 0
  {
    var q, r := TWO64 / f, TWO64 % f;
    DivIs(TWO64, f);
    assert TWO64 - f == (q - 1) * f + r by {
      assert (q - 1) * f == q * f - f;
    }
    DivUnique(TWO64 - f, q - 1, r, f);
  }

  lemma DividesTwo64(f: nat)
    requires 1 <= f < TWO64
    ensures TWO64 % f == 0 <==> IsPower2(f)
  {
    Power2Of64();
    if TWO64 % f == 0 {
      DividesPower2(64, f);
    }
    if IsPower2(f) {
      var k: nat :| f == Power2(k);
      if k > 64 {
        Power2Divides(k, 64);
        DivIs(Power2(k), Power2(64));
        AtLeastOnce(Power2(k) / Power2(64), Power2(64));
      } else {
        Power2Divides(64, k);
      }
    }
  }

  function CountAfterStart(a: nat, b: nat, f: nat): int
    requires f >= 1
  {
    if a % f != 0 then Unsigned(b - a - SkipStart(a, f)) else b - a
  }

  function CountAfterEnd(a: nat, b: nat, f: nat): int
    requires f >= 1
  {
    if b % f != 0 then Unsigned(CountAfterStart(a, b, f) - b % f) else CountAfterStart(a, b, f)
  }

  /** The row count that reaches the sanity check, and when the check passes. */
  lemma SanityCheck(a: nat, b: nat, f: nat)
    requires 1 <= f < TWO64 && a <= b && b - a < TWO64
    ensures CountAfterEnd(a, b, f) == if HasBoundary(a, b, f) then WholeRows(a, b, f) * f else TWO64 - f
    ensures CountAfterEnd(a, b, f) % f == 0 <==> HasBoundary(a, b, f) || IsPower2(f)
  {
    hide Unsigned, IsPower2;
    RowCount(a, b, f);
    var skip, p := SkipStart(a, f), WholeRows(a, b, f);
    UnsignedOnce(b - a - skip);
    UnsignedOnce(CountAfterStart(a, b, f) - b % f);
    if HasBoundary(a, b, f) {
      if p > 0 {
        AtLeastOnce(p, f);
      }
      Multiple(p, f);
    } else {
      WrappedMultiple(f);
      DividesTwo64(f);
    }
  }

  /** Two windows inside one coarse row: with factor 3 the check fires, with factor 4 not. */
  lemma NarrowWindows()
    ensures CountAfterEnd(1, 2, 3) == TWO64 - 3 && CountAfterEnd(1, 2, 3) % 3 == 1
    ensures CountAfterEnd(5, 6, 4) == TWO64 - 4 && CountAfterEnd(5, 6, 4) % 4 == 0
    ensures !HasBoundary(1, 2, 3) && !HasBoundary(5, 6, 4)
  {
    SanityCheck(1, 2, 3);
    SanityCheck(5, 6, 4);
  }

  // ---------------------------------------------------------------- the code

  /** Element-wise equality with the rows first fetched, from row `r` on. */
  ghost predicate Untouched(data: array2<Value>, rows: seq<seq<Value>>, r: int)
    reads data
  {
    && Grid(rows, data.Length0, data.Length1)
    && forall i, k :: 0 <= i < data.Length0 && r <= i && 0 <= k < data.Length1 ==> data[i, k] == rows[i][k]
  }

  /** One column of one coarse row: the accumulating loop. */
  method ReduceCell(cf: Cf, data: array2<Value>, src: nat, factor: nat, col: nat, ghost rows: seq<seq<Value>>)
    returns (newval: Value)
    requires src + factor <= data.Length0 && col < data.Length1
    requires Grid(rows, data.Length0, data.Length1)
    requires forall i :: src <= i < src + factor ==> data[i, col] == rows[i][col]
    ensures newval == Consolidate(cf, Piece(rows, src, factor, col))
  {
    newval := None;
    var validval: nat := 0;
    var i := 0;
    assert Piece(rows, src, 0, col) == [];
    while i < factor
      invariant 0 <= i <= factor
      invariant var k := Known(Piece(rows, src, i, col));
                validval == |k| && newval == if k == [] then None else Some(Fold(cf, k))
    {
      PieceNext(rows, src, i, col);
      var x := data[src + i, col];
      i := i + 1;
      if x.None? {
        continue;
      }
      FoldNext(cf, Known(Piece(rows, src, i - 1, col)), x.value);
      validval := validval + 1;
      newval := if newval.None? then x else Some(Join(cf, newval.value, x.value));
    }
    if validval != 0 && Averages(cf) {
      newval := Some(newval.value / validval as real);
    }
  }

  lemma PieceNext(rows: seq<seq<Value>>, lo: nat, n: nat, col: nat)
    requires lo + n < |rows| && forall i :: 0 <= i < |rows| ==> col < |rows[i]|
    ensures var x, k := rows[lo + n][col], Known(Piece(rows, lo, n, col));
            Known(Piece(rows, lo, n + 1, col)) == if x.Some? then k + [x.value] else k
  {
    assert Piece(rows, lo, n + 1, col)[..n] == Piece(rows, lo, n, col);
  }

  lemma FoldNext(cf: Cf, k: seq<real>, x: real)
    ensures Fold(cf, k + [x]) == if k == [] then x else Join(cf, Fold(cf, k), x)
  {
    assert (k + [x])[..|k|] == k;
  }

  /** One coarse row, written at or below the source rows it comes from. */
  method ReduceRow(cf: Cf, data: array2<Value>, dst: nat, src: nat, factor: nat, ghost rows: seq<seq<Value>>)
    requires dst <= src && factor >= 1 && src + factor <= data.Length0
    requires Untouched(data, rows, src)
    modifies data
    ensures Untouched(data, rows, src + factor)
    ensures forall k :: 0 <= k < data.Length1 ==> data[dst, k] == Consolidate(cf, Piece(rows, src, factor, k))
    ensures forall i, k :: 0 <= i < dst && 0 <= k < data.Length1 ==> data[i, k] == old(data[i, k])
  {
    hide Consolidate, Piece;
    var col := 0;
    while col < data.Length1
      invariant 0 <= col <= data.Length1
      invariant forall k :: 0 <= k < col ==> data[dst, k] == Consolidate(cf, Piece(rows, src, factor, k))
      invariant forall i, k :: src <= i < data.Length0 && 0 <= k < data.Length1 && (i == dst ==> col <= k) ==>
                  data[i, k] == rows[i][k]
      invariant forall i, k :: 0 <= i < dst && 0 <= k < data.Length1 ==> data[i, k] == old(data[i, k])
    {
      var newval := ReduceCell(cf, data, src, factor, col, rows);
      data[dst, col] := newval;
      col := col + 1;
    }
  }

  method FillRow(data: array2<Value>, row: nat)
    requires row < data.Length0
    modifies data
    ensures forall k :: 0 <= k < data.Length1 ==> data[row, k] == None
    ensures forall i, k :: 0 <= i < data.Length0 && 0 <= k < data.Length1 && i != row ==> data[i, k] == old(data[i, k])
  {
    var col := 0;
    while col < data.Length1
      invariant 0 <= col <= data.Length1
      invariant forall k :: 0 <= k < col ==> data[row, k] == None
      invariant forall i, k :: 0 <= i < data.Length0 && 0 <= k < data.Length1 && i != row ==>
                  data[i, k] == old(data[i, k])
    {
      data[row, col] := None;
      col := col + 1;
    }
  }

  /** `ceil(step / cur_step)` */
  function Factor(step: nat, curStep: nat): (f: nat)
    requires curStep >= 1 && step >= 1
    ensures f >= 1
  {
    (step + curStep - 1) / curStep
  }

  function NewStep(step: nat, curStep: nat): (s: nat)
    requires curStep >= 1 && step >= 1
    ensures s >= 1
  {
    AtLeastOnce(curStep, Factor(step, curStep));
    curStep * Factor(step, curStep)
  }

  /** The new step is the least multiple of the old one that is not below the step asked
      for. */
  lemma NewStepLeast(step: nat, curStep: nat)
    requires curStep >= 1 && step >= 1
    ensures NewStep(step, curStep) % curStep == 0
    ensures step <= NewStep(step, curStep) < step + curStep
  {
    var x, f := step + curStep - 1, Factor(step, curStep);
    DivIs(x, curStep);
    assert curStep * f == x / curStep * curStep;
    DivUnique(curStep * f, f, 0, curStep);
  }

  ghost function Rows(data: array2<Value>): (rows: seq<seq<Value>>)
    reads data
    ensures Untouched(data, rows, 0)
  {
    seq(data.Length0, i requires 0 <= i < data.Length0 reads data =>
      seq(data.Length1, k requires 0 <= k < data.Length1 reads data => data[i, k]))
  }

  /** The first `n` rows are the coarse rows wanted. */
  ghost predicate Done(cf: Cf, data: array2<Value>, rows: seq<seq<Value>>, a: nat, b: nat, f: nat, n: int)
    requires f >= 1
    reads data
  {
    && a <= b && b - a <= data.Length0 && n <= data.Length0
    && Grid(rows, data.Length0, data.Length1)
    && forall j, k :: 0 <= j < n && 0 <= k < data.Length1 ==> data[j, k] == Wanted(cf, rows, a, b, f, j, k)
  }

  lemma FirstRows(a: nat, b: nat, f: nat, j: nat)
    requires f >= 1 && a <= b
    ensures FirstRow(a, f, j + 1) == FirstRow(a, f, j) + f
    ensures FirstRow(a, f, 0) == -(a % f)
    ensures FirstRow(a, f, 1) == f - a % f
    ensures FirstRow(a, f, j) == b - b % f - a ==> j == b / f - a / f
  {
    DivIs(a, f);
    DivIs(b, f);
    var q := a / f + j;
    assert (q + 1) * f == q * f + f && (a / f + 1) * f == a / f * f + f;
    if q * f == b / f * f {
      SameMultiple(q, b / f, f);
    }
  }

  lemma SameMultiple(p: int, q: int, f: int)
    requires f >= 1 && p * f == q * f
    ensures p == q
  {
    DivUnique(p * f, p, 0, f);
    DivUnique(q * f, q, 0, f);
  }

  /** A time that is a multiple of the current step, in units of that step. */
  lemma Unit(c: nat, t: nat, f: nat, s: nat)
    requires c >= 1 && f >= 1 && s == c * f && t % c == 0
    ensures s >= 1 && t == c * (t / c)
    ensures t % s == c * (t / c % f) && t % s / c == t / c % f && (t % s == 0 <==> t / c % f == 0)
    ensures t - t % s == t / c / f * s
  {
    var u := t / c;
    DivIs(t, c);
    Scaled(c, u, f);
    Scaled(c, u % f, f);
    Signs(c, u % f);
    Split(c * u, s, u / f, c * (u % f));
  }

  lemma Split(x: int, m: int, q: int, r: int)
    requires m >= 1 && x / m == q && x % m == r
    ensures x - r == q * m
  {
    DivIs(x, m);
  }

  lemma Between(c: nat, a: int, b: int)
    requires c >= 1
    ensures c * b - c * a == c * (b - a)
    ensures c * (b - a) >= 0 <==> b >= a
    ensures (c * b - c * a) / c == b - a
  {
    Signs(c, b - a);
    DivUnique(c * (b - a), b - a, 0, c);
  }

  /** The window, in units of the current step. */
  lemma InUnits(c: nat, start: nat, end: nat, f: nat, s: nat)
    requires c >= 1 && f >= 1 && s == c * f && start % c == 0 && end % c == 0
    ensures s >= 1
    ensures start <= end <==> start / c <= end / c
    ensures (end - start) / c == end / c - start / c
    ensures HasBoundary(start, end, s) <==> HasBoundary(start / c, end / c, f)
  {
    var a, b := start / c, end / c;
    Unit(c, start, f, s);
    Unit(c, end, f, s);
    Between(c, a, b);
    Between(c, b % f, b);
    Between(c, a, b - b % f);
  }

  lemma Signs(c: int, x: int)
    requires c >= 1
    ensures c * x >= 0 <==> x >= 0
    ensures c * x == 0 <==> x == 0
  {
    if x >= 1 {
      AtLeastOnce(x, c);
    } else if x <= -1 {
      AtLeastOnce(-x, c);
    }
  }

  /** Where the combining loop stands: coarse row `dst` is next, read from `src` on. */
  ghost predicate Plan(a: nat, b: nat, f: nat, src: int, dst: int, rowCnt: int)
    requires f >= 1
  {
    && 0 <= dst <= src && 0 <= rowCnt && rowCnt % f == 0
    && src + rowCnt == b - a - b % f
    && src == FirstRow(a, f, dst)
  }

  lemma PlanStart(a: nat, b: nat, f: nat)
    requires f >= 1 && a <= b && HasBoundary(a, b, f)
    ensures Plan(a, b, f, SkipStart(a, f), if a % f != 0 then 1 else 0, WholeRows(a, b, f) * f)
    ensures a % f != 0 ==> b - a >= 1
  {
    RowCount(a, b, f);
    FirstRows(a, b, f, 0);
    Multiple(WholeRows(a, b, f), f);
    if WholeRows(a, b, f) > 0 {
      AtLeastOnce(WholeRows(a, b, f), f);
    }
    DivIs(a, f);
  }

  lemma PlanStep(a: nat, b: nat, f: nat, src: nat, dst: nat, rowCnt: nat)
    requires f >= 1 && a <= b && Plan(a, b, f, src, dst, rowCnt) && rowCnt >= f
    ensures Plan(a, b, f, src + f, dst + 1, rowCnt - f)
    ensures src + f <= b - a
  {
    FirstRows(a, b, f, dst);
    DivIs(rowCnt, f);
    assert rowCnt - f == (rowCnt / f - 1) * f by {
      assert (rowCnt / f - 1) * f == rowCnt / f * f - f;
    }
    Multiple(rowCnt / f - 1, f);
    DivIs(b, f);
  }

  lemma PlanEnd(a: nat, b: nat, f: nat, src: nat, dst: nat, rowCnt: nat)
    requires f >= 1 && a <= b && Plan(a, b, f, src, dst, rowCnt) && rowCnt < f
    ensures dst == b / f - a / f
    ensures b % f != 0 ==> dst < b - a && FirstRow(a, f, dst) + f > b - a
  {
    ModUnique(rowCnt, 0, rowCnt, f);
    FirstRows(a, b, f, dst);
    DivIs(b, f);
  }

  /** The combining loop; with the wrapped count it does nothing. */
  method CombineRows(cf: Cf, data: array2<Value>, dst0: nat, src0: nat, rowCnt0: int, factor: nat,
                     ghost rows: seq<seq<Value>>, ghost a: nat, ghost b: nat, ghost whole: bool)
    returns (dst: nat)
    requires 1 <= factor < 0x8000_0000 && a <= b && b - a <= data.Length0 && b < 0x8000_0000_0000_0000
    requires Grid(rows, data.Length0, data.Length1) && Untouched(data, rows, src0)
    requires !whole ==> rowCnt0 == TWO64 - factor
    requires whole ==> Plan(a, b, factor, src0, dst0, rowCnt0) && Done(cf, data, rows, a, b, factor, dst0)
    modifies data
    ensures whole ==>
              && dst == b / factor - a / factor
              && dst <= b - a && (b % factor != 0 ==> dst < b - a && FirstRow(a, factor, dst) + factor > b - a)
              && Done(cf, data, rows, a, b, factor, dst)
    ensures !whole ==> dst == dst0
  {
    hide Untouched, Consolidate, Piece, Plan, FirstRow;
    dst := dst0;
    var src, rowCnt := src0, rowCnt0;
    if whole {
      PlanBounds(a, b, factor, src, dst, rowCnt);
    }
    while Signed(rowCnt) >= factor
      invariant !whole ==> dst == dst0 && rowCnt == TWO64 - factor
      invariant whole ==>
                  && 0 <= rowCnt < 0x8000_0000_0000_0000
                  && Plan(a, b, factor, src, dst, rowCnt)
                  && dst <= data.Length0
                  && Untouched(data, rows, src)
                  && Done(cf, data, rows, a, b, factor, dst)
      decreases rowCnt
    {
      PlanBounds(a, b, factor, src, dst, rowCnt);
      PlanStep(a, b, factor, src, dst, rowCnt);
      ReduceRow(cf, data, dst, src, factor, rows);
      dst := dst + 1;
      src := src + factor;
      rowCnt := rowCnt - factor;
    }
    if whole {
      PlanBounds(a, b, factor, src, dst, rowCnt);
      PlanEnd(a, b, factor, src, dst, rowCnt);
    }
  }

  lemma PlanBounds(a: nat, b: nat, f: nat, src: int, dst: int, rowCnt: int)
    requires f >= 1 && a <= b && Plan(a, b, f, src, dst, rowCnt)
    ensures 0 <= dst <= src && 0 <= rowCnt && src + rowCnt == b - a - b % f <= b - a
    ensures src == FirstRow(a, f, dst)
  {
    DivIs(b, f);
  }

  /** Everything the code computes before it combines rows. */
  lemma Setup(curStep: nat, start: nat, end: nat, step: nat)
    requires curStep >= 1 && step >= 1 && start <= end < 0x8000_0000_0000_0000
    requires start % curStep == 0 && end % curStep == 0
    requires Factor(step, curStep) < 0x8000_0000
    ensures var f, s, a, b := Factor(step, curStep), NewStep(step, curStep), start / curStep, end / curStep;
            && a <= b < 0x8000_0000_0000_0000 && (end - start) / curStep == b - a
            && start % s / curStep == a % f && (start % s == 0 <==> a % f == 0)
            && end % s / curStep == b % f && (end % s == 0 <==> b % f == 0)
            && (CountAfterEnd(a, b, f) % f == 0 <==> HasBoundary(start, end, s) || IsPower2(f))
            && if HasBoundary(start, end, s)
               then Plan(a, b, f, SkipStart(a, f), if a % f != 0 then 1 else 0, CountAfterEnd(a, b, f))
                    && (a % f != 0 ==> b - a >= 1)
               else CountAfterEnd(a, b, f) == TWO64 - f && a % f != 0 && b % f != 0
  {
    hide CountAfterStart, CountAfterEnd, Plan, IsPower2, HasBoundary;
    var f, s, a, b := Factor(step, curStep), NewStep(step, curStep), start / curStep, end / curStep;
    Unit(curStep, start, f, s);
    Unit(curStep, end, f, s);
    InUnits(curStep, start, end, f, s);
    NotLarger(end, curStep);
    SanityCheck(a, b, f);
    RowCount(a, b, f);
    if HasBoundary(a, b, f) {
      PlanStart(a, b, f);
    }
  }

  lemma NotLarger(t: nat, c: nat)
    requires c >= 1
    ensures t / c <= t
  {
    DivIs(t, c);
    if t / c >= 1 {
      AtLeastOnce(c, t / c);
    }
  }

  /** The time the coarse rows span. */
  lemma Spanned(curStep: nat, start: nat, end: nat, step: nat)
    requires curStep >= 1 && step >= 1 && start <= end && start % curStep == 0 && end % curStep == 0
    ensures var f, s, a, b := Factor(step, curStep), NewStep(step, curStep), start / curStep, end / curStep;
            var past := end - end % s + (if end % s != 0 then s else 0) - (start - start % s);
            && past == CoarseRows(a, b, f) * s
            && (!HasBoundary(start, end, s) ==> past == s)
  {
    hide HasBoundary;
    var f, s, a, b := Factor(step, curStep), NewStep(step, curStep), start / curStep, end / curStep;
    Unit(curStep, start, f, s);
    Unit(curStep, end, f, s);
    InUnits(curStep, start, end, f, s);
    RowCount(a, b, f);
    SpanOfRows(b / f, a / f, if b % f != 0 then 1 else 0, s);
  }

  lemma SpanOfRows(p: int, q: int, e: int, s: int)
    ensures (p + e - q) * s == p * s - q * s + e * s
    ensures (p - q) * s == p * s - q * s
  {
  }

  lemma CutRows(cf: Cf, rows: seq<seq<Value>>, a: nat, b: nat, f: nat, j: nat, k: nat)
    requires f >= 1 && a <= b && b - a <= |rows| && forall i :: 0 <= i < |rows| ==> k < |rows[i]|
    ensures a % f != 0 ==> Wanted(cf, rows, a, b, f, 0, k) == None
    ensures FirstRow(a, f, j) + f > b - a ==> Wanted(cf, rows, a, b, f, j, k) == None
  {
    FirstRows(a, b, f, 0);
    DivIs(a, f);
  }

  /** Within a window that reaches a multiple of the new step the check passes, no source
      row is overwritten before it is read, and exactly the rows from the new start to the
      new end result. In a window strictly inside one coarse row the check fires unless
      the factor is a power of two, and then one row too many is written. */
  method ReduceData(cf: Cf, curStep: nat, start0: nat, end0: nat, step: nat, data: array2<Value>)
    returns (ok: bool, start: int, end: int, newStep: nat, rows: nat)
    requires curStep >= 1 && step >= 1 && start0 <= end0 < 0x8000_0000_0000_0000
    requires start0 % curStep == 0 && end0 % curStep == 0
    requires Factor(step, curStep) < 0x8000_0000
    requires (end0 - start0) / curStep <= data.Length0
    requires data.Length0 >= 2 || HasBoundary(start0, end0, NewStep(step, curStep))
    modifies data
    ensures newStep == NewStep(step, curStep)
    ensures ok <==> HasBoundary(start0, end0, newStep) || IsPower2(Factor(step, curStep))
    ensures start == start0 - start0 % newStep
    ensures ok ==> end == end0 - end0 % newStep + (if end0 % newStep != 0 then newStep else 0)
    ensures HasBoundary(start0, end0, newStep) ==>
              && rows * newStep == end - start
              && Done(cf, data, old(Rows(data)), start0 / curStep, end0 / curStep, Factor(step, curStep), rows)
    ensures ok && !HasBoundary(start0, end0, newStep) ==> rows == 2 && end - start == newStep
  {
    hide Factor, NewStep, HasBoundary, IsPower2, Unsigned, FirstRow, Plan, Wanted, Signed;
    var factor := Factor(step, curStep);
    newStep := NewStep(step, curStep);
    ghost var old0, a, b := Rows(data), start0 / curStep, end0 / curStep;
    Setup(curStep, start0, end0, step);
    Spanned(curStep, start0, end0, step);
    var src, dst: nat := 0, 0;
    var rowCnt := (end0 - start0) / curStep;
    var endOffset, startOffset := end0 % newStep, start0 % newStep;
    start, end, rows := start0, end0, 0;
    if startOffset != 0 {
      start := start - startOffset;
      var skiprows := factor - startOffset / curStep;
      src := src + skiprows;
      FillRow(data, dst);
      dst := dst + 1;
      rowCnt := Unsigned(rowCnt - skiprows);
    }
    if endOffset != 0 {
      end := end - endOffset + newStep;
      rowCnt := Unsigned(rowCnt - endOffset / curStep);
    }
    assert rowCnt == CountAfterEnd(a, b, factor);
    if rowCnt % factor != 0 {
      return false, start, end, newStep, 0;
    }
    forall k | 0 <= k < data.Length1
      ensures a % factor != 0 ==> Wanted(cf, old0, a, b, factor, 0, k) == None
    {
      CutRows(cf, old0, a, b, factor, 0, k);
    }
    dst := CombineRows(cf, data, dst, src, rowCnt, factor, old0, a, b, HasBoundary(start0, end0, newStep));
    if endOffset != 0 {
      forall k | 0 <= k < data.Length1
        ensures FirstRow(a, factor, dst) + factor > b - a ==> Wanted(cf, old0, a, b, factor, dst, k) == None
      {
        CutRows(cf, old0, a, b, factor, dst, k);
      }
      FillRow(data, dst);
      dst := dst + 1;
    }
    rows := dst;
    ok := true;
  }
}
