/** The circular moving average over the seasonal arrays, built on a FIFO queue. */
module Smoother {
  import opened Arith
  import opened Reals
  import opened Text

  // ---------------------------------------------------------------- the queue

  class FifoQueue {
    const queue: array<real>
    const capacity: nat
    var head: nat
    var tail: nat
    ghost var contents: seq<real>

    /** The cell `i` places behind the head, which may stand one past the end. */
    ghost function Cell(i: nat): int
      reads this
    {
      var h := if head == capacity then 0 else head;
      if h + i < capacity then h + i else h + i - capacity
    }

    ghost predicate Valid()
      reads this, queue
    {
      && queue.Length == capacity >= 1
      && head <= capacity && tail < capacity
      && |contents| <= capacity
      && tail == (if Cell(|contents|) == capacity then 0 else Cell(|contents|))
      && forall i :: 0 <= i < |contents| ==> contents[i] == queue[Cell(i)]
    }

    constructor (capacity: nat)
      requires capacity >= 1
      ensures Valid() && fresh(queue) && contents == [] && this.capacity == capacity
    {
      this.capacity := capacity;
      queue := new real[capacity];
      head, tail := capacity, 0;
      contents := [];
    }

    /** The emptiness test cannot tell a full queue from an empty one. */
    method IsEmpty() returns (r: bool)
      requires Valid()
      ensures r <==> contents == [] || |contents| == capacity
    {
      ModOnce(head, capacity);
      r := head % capacity == tail;
    }

    method Push(value: real)
      requires Valid() && |contents| < capacity
      modifies this`tail, this`contents, queue
      ensures Valid() && contents == old(contents) + [value]
    {
      queue[tail] := value;
      ModOnce(tail + 1, capacity);
      tail := (tail + 1) % capacity;
      contents := contents + [value];
    }

    method Pop() returns (value: real)
      requires Valid() && contents != []
      modifies this`head, this`contents
      ensures Valid() && old(contents) == [value] + contents
    {
      ModOnce(head, capacity);
      head := head % capacity;
      value := queue[head];
      head := head + 1;
      contents := contents[1..];
    }
  }

  lemma ModOnce(x: int, m: int)
    requires 0 <= x <= m && m >= 1
    ensures x % m == if x == m then 0 else x
  {
  }

  /** Row arithmetic for possibly negative indices. */
  function MyMod(val: int, mod: int): int
    requires mod >= 1
  {
    if val < 0 then mod - (-val) % mod else val % mod
  }

  /** The result always stands for the same row; it is a valid row number exactly when
      the index is not a negative multiple of the row count. */
  lemma MyModRow(val: int, mod: int)
    requires mod >= 1
    ensures (MyMod(val, mod) - val) % mod == 0
    ensures 0 <= MyMod(val, mod) < mod <==> val >= 0 || val % mod != 0
  {
    if val < 0 {
      var q, r := -val / mod, -val % mod;
      assert -val == q * mod + r;
      assert mod - r - val == (q + 1) * mod + 0 by {
        assert (q + 1) * mod == q * mod + mod;
      }
      ModUnique(mod - r - val, q + 1, 0, mod);
      if r == 0 {
        assert val == -q * mod + 0;
        ModUnique(val, -q, 0, mod);
      } else {
        assert val == (-q - 1) * mod + (mod - r) by {
          assert (-q - 1) * mod == -(q * mod) - mod;
        }
        ModUnique(val, -q - 1, mod - r, mod);
      }
    } else {
      var q := val / mod;
      assert val % mod - val == -q * mod + 0;
      ModUnique(val % mod - val, -q, 0, mod);
    }
  }

  /** The three stretches a window can reach. */
  lemma MyModNear(val: int, mod: int)
    requires mod >= 1 && -mod < val < 2 * mod
    ensures MyMod(val, mod) == if val < 0 then val + mod else if val < mod then val else val - mod
  {
    if val < 0 {
      ModUnique(-val, 0, -val, mod);
    } else if val < mod {
      ModUnique(val, 0, val, mod);
    } else {
      ModUnique(val, 1, val - mod, mod);
    }
  }

  // ---------------------------------------------------------------- what the smoothed column is

  /** The value standing at window position `k` of the column `a`: original rows before
      the end of the array, already smoothed ones where the window wraps forward. */
  function Term(a: seq<real>, out: seq<real>, k: int): real
    requires -|a| <= k < |a| + |out|
  {
    if k < 0 then a[k + |a|] else if k < |a| then a[k] else out[k - |a|]
  }

  function Terms(a: seq<real>, out: seq<real>, lo: int, hi: int): (s: seq<real>)
    requires -|a| <= lo <= hi <= |a| + |out|
    ensures |s| == hi - lo
    decreases hi - lo
  {
    if lo == hi then [] else Terms(a, out, lo, hi - 1) + [Term(a, out, hi - 1)]
  }

  lemma {:induction false} TermsHead(a: seq<real>, out: seq<real>, lo: int, hi: int)
    requires -|a| <= lo < hi <= |a| + |out|
    ensures Terms(a, out, lo, hi) == [Term(a, out, lo)] + Terms(a, out, lo + 1, hi)
    decreases hi - lo
  {
    if lo + 1 < hi {
      TermsHead(a, out, lo, hi - 1);
      Assoc([Term(a, out, lo)], Terms(a, out, lo + 1, hi - 1), [Term(a, out, hi - 1)]);
    } else {
      assert Terms(a, out, lo, lo) == Terms(a, out, hi, hi) == [];
    }
  }

  /** Only the smoothed values inside the window matter. */
  lemma {:induction false} TermsAgree(a: seq<real>, out: seq<real>, more: seq<real>, lo: int, hi: int)
    requires -|a| <= lo <= hi <= |a| + |out| && out <= more
    ensures Terms(a, more, lo, hi) == Terms(a, out, lo, hi)
    decreases hi - lo
  {
    if lo < hi {
      TermsAgree(a, out, more, lo, hi - 1);
    }
  }

  /** The mean over the window of half-width `offset` round `c`. */
  function Mean(a: seq<real>, out: seq<real>, c: int, offset: nat): real
    requires 0 <= c < |a| && offset <= |a| && c + offset < |a| + |out|
  {
    Total(Terms(a, out, c - offset, c + offset + 1)) / (2 * offset + 1) as real
  }

  /** The first `c` centres, each the mean of its window. */
  function Centres(a: seq<real>, offset: nat, c: nat): (out: seq<real>)
    requires c <= |a| && 2 * offset <= |a|
    ensures |out| == c
  {
    if c == 0 then []
    else
      var out := Centres(a, offset, c - 1);
      out + [Mean(a, out, c - 1, offset)]
  }

  function Smoothed(a: seq<real>, offset: nat): seq<real>
    requires 2 * offset <= |a|
  {
    Centres(a, offset, |a|)
  }

  // ---------------------------------------------------------------- what smoothing does to a column

  lemma {:induction false} CentresGrow(a: seq<real>, offset: nat, c: nat, d: nat)
    requires c <= d <= |a| && 2 * offset <= |a|
    ensures Centres(a, offset, c) <= Centres(a, offset, d)
    decreases d - c
  {
    if c < d {
      CentresGrow(a, offset, c, d - 1);
    }
  }

  /** Every centre is the mean of its window in the finished column. */
  lemma SmoothedAt(a: seq<real>, offset: nat, c: nat)
    requires c < |a| && 2 * offset <= |a|
    ensures Smoothed(a, offset)[c] == Mean(a, Smoothed(a, offset), c, offset)
  {
    var out := Centres(a, offset, c);
    CentresGrow(a, offset, c, |a|);
    CentresGrow(a, offset, c + 1, |a|);
    assert Centres(a, offset, c + 1)[c] == Mean(a, out, c, offset);
    TermsAgree(a, out, Smoothed(a, offset), c - offset, c + offset + 1);
  }

  /** No other column has that property, wrapped terms included. */
  lemma {:induction false} SmoothedUnique(a: seq<real>, out: seq<real>, offset: nat, c: nat)
    requires |out| == |a| && c <= |a| && 2 * offset <= |a|
    requires forall b :: 0 <= b < |a| ==> out[b] == Mean(a, out, b, offset)
    ensures out[..c] == Centres(a, offset, c)
  {
    if c > 0 {
      SmoothedUnique(a, out, offset, c - 1);
      TermsAgree(a, out[..c - 1], out, c - 1 - offset, c + offset);
      assert out[..c] == out[..c - 1] + [out[c - 1]];
    }
  }

  /** The mean of the original values round `c`, the column taken as a circle. */
  function CircularMean(a: seq<real>, c: nat, offset: nat): real
    requires c < |a| && offset <= |a|
  {
    Mean(a, a, c, offset)
  }

  /** Centres whose window does not wrap forward see original values only. */
  lemma EarlyCentres(a: seq<real>, offset: nat, c: nat)
    requires 2 * offset <= |a| && c + offset < |a|
    ensures Smoothed(a, offset)[c] == CircularMean(a, c, offset)
  {
    SmoothedAt(a, offset, c);
    TermsAgree(a, [], a, c - offset, c + offset + 1);
    TermsAgree(a, [], Smoothed(a, offset), c - offset, c + offset + 1);
  }

  lemma {:induction false} TermsSame(a: seq<real>, x: seq<real>, y: seq<real>, lo: int, hi: int)
    requires -|a| <= lo <= hi <= |a| + |x| && |x| == |y|
    requires forall m :: 0 <= m < hi - |a| ==> x[m] == y[m]
    ensures Terms(a, x, lo, hi) == Terms(a, y, lo, hi)
    decreases hi - lo
  {
    if lo < hi {
      TermsSame(a, x, y, lo, hi - 1);
    }
  }

  lemma SameQuotient(x: real, y: real, d: real)
    requires d > 0.0 && x / d == y / d
    ensures x == y
  {
    assert x == x / d * d && y == y / d * d;
  }

  lemma {:induction false} WrappedTermsEqual(a: seq<real>, offset: nat, m: nat)
    requires 1 <= offset && 2 * offset <= |a| && m <= offset
    requires forall c :: 0 <= c < |a| ==> Smoothed(a, offset)[c] == CircularMean(a, c, offset)
    ensures forall b :: 0 <= b < m ==> Smoothed(a, offset)[b] == a[b]
  {
    hide Centres, Total;
    if m > 0 {
      WrappedTermsEqual(a, offset, m - 1);
      var out, c, lo, hi := Smoothed(a, offset), |a| - offset + m - 1, |a| - 2 * offset + m - 1, |a| + m;
      SmoothedAt(a, offset, c);
      assert Smoothed(a, offset)[c] == CircularMean(a, c, offset);
      SameQuotient(Total(Terms(a, out, lo, hi)), Total(Terms(a, a, lo, hi)), (2 * offset + 1) as real);
      TermsSame(a, out, a, lo, hi - 1);
      TotalPush(Terms(a, out, lo, hi - 1), out[m - 1]);
      TotalPush(Terms(a, a, lo, hi - 1), a[m - 1]);
    }
  }

  /** The in-place result is the circular moving average exactly when smoothing would
      leave the first `offset` rows as they are. */
  lemma CircularExactly(a: seq<real>, offset: nat)
    requires 1 <= offset && 2 * offset <= |a|
    ensures (forall c :: 0 <= c < |a| ==> Smoothed(a, offset)[c] == CircularMean(a, c, offset))
            <==> (forall m :: 0 <= m < offset ==> CircularMean(a, m, offset) == a[m])
  {
    var out := Smoothed(a, offset);
    if forall c :: 0 <= c < |a| ==> out[c] == CircularMean(a, c, offset) {
      WrappedTermsEqual(a, offset, offset);
      assert forall m :: 0 <= m < offset ==> out[m] == CircularMean(a, m, offset) == a[m];
    }
    if forall m :: 0 <= m < offset ==> CircularMean(a, m, offset) == a[m] {
      forall m | 0 <= m < offset
        ensures out[m] == a[m]
      {
        EarlyCentres(a, offset, m);
      }
      forall c | 0 <= c < |a|
        ensures out[c] == CircularMean(a, c, offset)
      {
        SmoothedAt(a, offset, c);
        TermsSame(a, out, a, c - offset, c + offset + 1);
      }
    }
  }

  lemma TermsOfThree(a: seq<real>, out: seq<real>, lo: int)
    requires -|a| <= lo && lo + 3 <= |a| + |out|
    ensures Total(Terms(a, out, lo, lo + 3)) == Term(a, out, lo) + Term(a, out, lo + 1) + Term(a, out, lo + 2)
  {
    hide Term;
    var one, two := Terms(a, out, lo, lo + 1), Terms(a, out, lo, lo + 2);
    assert Terms(a, out, lo, lo) == [];
    TotalPush([], Term(a, out, lo));
    TotalPush(one, Term(a, out, lo + 1));
    TotalPush(two, Term(a, out, lo + 2));
  }

  /** In the column 3, 0 the second centre, smoothed in place, is 4/3; its circular mean
      is 2. */
  lemma CircularFails()
    ensures var a := [3.0, 0.0];
      Smoothed(a, 1)[0] == 1.0 && Smoothed(a, 1)[1] == 4.0 / 3.0 && CircularMean(a, 1, 1) == 2.0
  {
    hide Mean, Smoothed;
    var a := [3.0, 0.0];
    var out := Smoothed(a, 1);
    SmoothedLength(a, 1);
    EarlyCentres(a, 1, 0);
    MeanOfThree(a, a, 0);
    MeanOfThree(a, a, 1);
    SmoothedAt(a, 1, 1);
    MeanOfThree(a, out, 1);
  }

  lemma SmoothedLength(a: seq<real>, offset: nat)
    requires 2 * offset <= |a|
    ensures |Smoothed(a, offset)| == |a|
  {
  }

  lemma MeanOfThree(a: seq<real>, out: seq<real>, c: int)
    requires 0 <= c < |a| && 1 <= |a| && c + 1 < |a| + |out|
    ensures Mean(a, out, c, 1) == (Term(a, out, c - 1) + Term(a, out, c) + Term(a, out, c + 1)) / 3.0
  {
    hide Term, Terms, Total;
    TermsOfThree(a, out, c - 1);
  }

  lemma {:induction false} TermsBounds(a: seq<real>, out: seq<real>, lo: int, hi: int, low: real, high: real)
    requires -|a| <= lo <= hi <= |a| + |out|
    requires forall i :: 0 <= i < |a| ==> low <= a[i] <= high
    requires forall i :: 0 <= i < |out| ==> low <= out[i] <= high
    ensures forall i :: 0 <= i < hi - lo ==> low <= Terms(a, out, lo, hi)[i] <= high
    decreases hi - lo
  {
    if lo < hi {
      TermsBounds(a, out, lo, hi - 1, low, high);
    }
  }

  /** Smoothing never leaves the range of the column. */
  lemma {:induction false} StaysInRange(a: seq<real>, offset: nat, c: nat, low: real, high: real)
    requires 2 * offset <= |a| && c <= |a|
    requires forall i :: 0 <= i < |a| ==> low <= a[i] <= high
    ensures forall i :: 0 <= i < c ==> low <= Centres(a, offset, c)[i] <= high
  {
    hide Terms, Total;
    if c > 0 {
      StaysInRange(a, offset, c - 1, low, high);
      var out := Centres(a, offset, c - 1);
      TermsBounds(a, out, c - 1 - offset, c + offset, low, high);
      var window := Terms(a, out, c - 1 - offset, c + offset);
      TotalBounds(window, low, high);
      QuotientBounds(Total(window), (2 * offset + 1) as real, low, high);
    }
  }

  // ---------------------------------------------------------------- the code

  ghost function Column(values: array2<real>, j: nat): (s: seq<real>)
    requires j < values.Length1
    reads values
    ensures |s| == values.Length0
    ensures forall i :: 0 <= i < |s| ==> s[i] == values[i, j]
  {
    seq(values.Length0, i requires 0 <= i < values.Length0 reads values => values[i, j])
  }

  /** The sum, and the queue, of the first 2*offset terms. */
  method FirstTerms(values: array2<real>, j: nat, offset: nat) returns (buffer: FifoQueue, average: real)
    requires j < values.Length1 && 1 <= offset && 2 * offset <= values.Length0
    ensures buffer.Valid() && fresh(buffer) && fresh(buffer.queue) && buffer.capacity == 2 * offset + 1
    ensures buffer.contents == Terms(Column(values, j), [], 0 - offset, offset)
    ensures average == Total(buffer.contents)
  {
    hide Terms, Term, Total, MyMod, FifoQueue.Valid, FifoQueue.Cell;
    ghost var a := Column(values, j);
    buffer := new FifoQueue(2 * offset + 1);
    average := 0.0;
    NothingYet(a, offset);
    var i := 0;
    while i < 2 * offset
      invariant 0 <= i <= 2 * offset
      invariant buffer.Valid() && fresh(buffer) && fresh(buffer.queue)
      invariant buffer.contents == Terms(a, [], 0 - offset, i - offset)
      invariant average == Total(buffer.contents)
      modifies buffer, buffer.queue
    {
      MyModNear(i - offset, values.Length0);
      var k := MyMod(i - offset, values.Length0);
      NextTerm(a, [], 0 - offset, i - offset);
      TotalPush(buffer.contents, values[k, j]);
      buffer.Push(values[k, j]);
      average := average + values[k, j];
      i := i + 1;
    }
  }

  /** One data source: add a term, write the centre and drop a term, once per row. */
  method SmoothColumn(values: array2<real>, j: nat, offset: nat) returns (baseline: real)
    requires j < values.Length1 && 1 <= offset && 2 * offset <= values.Length0
    modifies values
    ensures Column(values, j) == Smoothed(old(Column(values, j)), offset)
    ensures baseline == Total(Column(values, j))
    ensures forall i, k :: 0 <= i < values.Length0 && 0 <= k < values.Length1 && k != j ==>
              values[i, k] == old(values[i, k])
  {
    hide Terms, Term, Total, MyMod, Mean, Centres, Column, FifoQueue.Valid, FifoQueue.Cell;
    var rowCount := values.Length0;
    ghost var a := Column(values, j);
    var buffer, average := FirstTerms(values, j, offset);
    baseline := 0.0;
    NothingYet(a, offset);
    var i := 0;
    ghost var out: seq<real> := [];
    i := offset;
    while i < rowCount + offset
      invariant offset <= i <= rowCount + offset && |out| == i - offset
      invariant buffer.Valid() && fresh(buffer) && fresh(buffer.queue) && buffer.capacity == 2 * offset + 1
      invariant buffer.contents == Terms(a, out, i - 2 * offset, i)
      invariant average == Total(buffer.contents)
      invariant out == Centres(a, offset, |out|)
      invariant forall r :: 0 <= r < rowCount ==> values[r, j] == if r < |out| then out[r] else a[r]
      invariant forall r, k :: 0 <= r < rowCount && 0 <= k < values.Length1 && k != j ==>
                  values[r, k] == old(values[r, k])
      invariant baseline == Total(out)
    {
      MyModNear(i, rowCount);
      var k := MyMod(i, rowCount);
      NextTerm(a, out, i - 2 * offset, i);
      TotalPush(buffer.contents, values[k, j]);
      average := average + values[k, j];
      buffer.Push(values[k, j]);
      MyModNear(i - offset, rowCount);
      k := MyMod(i - offset, rowCount);
      values[k, j] := average / (2 * offset + 1) as real;
      TotalPush(out, values[k, j]);
      baseline := baseline + values[k, j];
      CentreDone(a, out, i - offset, offset, values[k, j]);
      out := out + [values[k, j]];
      var dropped := buffer.Pop();
      Slid(a, out, i - 2 * offset, i + 1, dropped, buffer.contents);
      average := average - dropped;
      i := i + 1;
    }
    assert Column(values, j) == out;
  }

  /** Appending the centre just computed leaves its window as it was. */
  lemma CentreDone(a: seq<real>, out: seq<real>, c: nat, offset: nat, x: real)
    requires c < |a| && 1 <= offset && 2 * offset <= |a| && out == Centres(a, offset, c)
    requires x == Total(Terms(a, out, c - offset, c + offset + 1)) / (2 * offset + 1) as real
    ensures out + [x] == Centres(a, offset, c + 1)
    ensures Terms(a, out + [x], c - offset, c + offset + 1) == Terms(a, out, c - offset, c + offset + 1)
  {
    TermsAgree(a, out, out + [x], c - offset, c + offset + 1);
  }

  /** Dropping the oldest term moves the window on by one. */
  lemma Slid(a: seq<real>, out: seq<real>, lo: int, hi: int, dropped: real, rest: seq<real>)
    requires -|a| <= lo < hi <= |a| + |out|
    requires [dropped] + rest == Terms(a, out, lo, hi)
    ensures rest == Terms(a, out, lo + 1, hi)
    ensures Total(rest) == Total(Terms(a, out, lo, hi)) - dropped
  {
    TermsHead(a, out, lo, hi);
    assert ([dropped] + rest)[1..] == rest;
    TotalPop(dropped, rest);
  }

  lemma NothingYet(a: seq<real>, offset: nat)
    requires offset <= |a|
    ensures Terms(a, [], 0 - offset, 0 - offset) == [] && Total([]) == 0.0
    ensures 2 * offset <= |a| ==> Centres(a, offset, 0) == []
  {
  }

  lemma NextTerm(a: seq<real>, out: seq<real>, lo: int, k: int)
    requires -|a| <= lo <= k < |a| + |out|
    ensures Terms(a, out, lo, k + 1) == Terms(a, out, lo, k) + [Term(a, out, k)]
    ensures Term(a, out, k) == if k < 0 then a[k + |a|] else if k < |a| then a[k] else out[k - |a|]
  {
  }

  // ---------------------------------------------------------------- smoothing a whole archive

  /** What the archive depends on: nothing for DEVSEASONAL; for SEASONAL the kind of
      Holt-Winters archive it points at, `Broken` if it is neither. */
  datatype Dependency = NotSeasonal | Additive | Multiplicative | Broken

  /** `floor(window / 2 * row_count)` */
  function Offset(window: real, rowCount: nat): (offset: int)
    requires 0.0 <= window <= 1.0
    ensures 0 <= 2 * offset <= rowCount
  {
    HalfAtMost(window, rowCount as real);
    (window / 2.0 * rowCount as real).Floor
  }

  /** A window of `2 * offset + 1` rows is the longest odd one that is at most a row longer
      than the part of the period asked for. */
  lemma OffsetIs(window: real, rowCount: nat)
    requires 0.0 <= window <= 1.0
    ensures var offset := Offset(window, rowCount);
      (2 * offset) as real <= window * rowCount as real < (2 * offset + 2) as real
  {
    var half := window / 2.0 * rowCount as real;
    assert 2.0 * half == window * rowCount as real;
    assert half.Floor as real <= half < half.Floor as real + 1.0;
  }

  lemma HalfAtMost(window: real, rows: real)
    requires 0.0 <= window <= 1.0 && rows >= 0.0
    ensures 0.0 <= 2.0 * (window / 2.0 * rows) <= rows
  {
    assert 2.0 * (window / 2.0 * rows) == window * rows;
    assert (1.0 - window) * rows >= 0.0 && (1.0 - window) * rows == rows - window * rows;
  }

  function InitSeasonality(dep: Dependency, seasonal: real, intercept: real): Value {
    match dep
    case Additive => Some(seasonal - intercept)
    case Multiplicative => if intercept <= 0.0 then None else Some(seasonal / intercept)
    case _ => Some(seasonal)
  }

  /** The mean of a column. */
  function Baseline(s: seq<real>): real
    requires s != []
  {
    Total(s) / |s| as real
  }

  function Raised(dep: Dependency, intercept: Value, baseline: real): Value {
    if dep.NotSeasonal? || intercept.None? then intercept else Some(intercept.value + baseline)
  }

  ghost predicate AllKnown(file: array2<Value>)
    reads file
  {
    forall i, j :: 0 <= i < file.Length0 && 0 <= j < file.Length1 ==> file[i, j].Some?
  }

  ghost function Known(file: array2<Value>, j: nat): (s: seq<real>)
    requires j < file.Length1 && AllKnown(file)
    reads file
    ensures |s| == file.Length0
    ensures forall i :: 0 <= i < |s| ==> file[i, j] == Some(s[i])
  {
    seq(file.Length0, i requires 0 <= i < file.Length0 reads file requires file[i, j].Some? => file[i, j].value)
  }

  /** Nothing happens without a window, with an unknown value, or with a broken
      dependency; otherwise every column is smoothed and, for SEASONAL, its mean is moved
      into the intercept of the data source. */
  method ApplySmoother(file: array2<Value>, intercepts: array<Value>, window: real,
                       dep: Dependency)
    returns (rc: int)
    requires intercepts.Length == file.Length1 && 0.0 <= window <= 1.0
    modifies file, intercepts
    ensures var offset := Offset(window, file.Length0);
            if offset == 0 || !old(AllKnown(file)) || dep.Broken? then
              && (rc == -1 <==> offset != 0 && old(AllKnown(file)))
              && (forall i, j :: 0 <= i < file.Length0 && 0 <= j < file.Length1 ==> file[i, j] == old(file[i, j]))
              && (forall j :: 0 <= j < intercepts.Length ==> intercepts[j] == old(intercepts[j]))
            else
              && rc == 0
              && (forall i, j :: 0 <= i < file.Length0 && 0 <= j < file.Length1 ==>
                   var smoothed := Smoothed(old(Known(file, j)), offset);
                   file[i, j] == InitSeasonality(dep, smoothed[i], Baseline(smoothed)))
              && (forall j :: 0 <= j < intercepts.Length ==>
                   var smoothed := Smoothed(old(Known(file, j)), offset);
                   intercepts[j] == Raised(dep, old(intercepts[j]), Baseline(smoothed)))
  {
    hide Smoothed, Total, InitSeasonality, Known, Offset;
    var offset := Offset(window, file.Length0);
    if offset == 0 {
      return 0;
    }
    var values, known := ReadAll(file);
    if !known {
      return 0;
    }
    var baseline := SmoothAll(values, offset);
    if dep.Broken? {
      return -1;
    }
    WriteAll(file, intercepts, values, baseline, dep);
    return 0;
  }

  /** Reads the rows into memory, giving up at the first unknown value. */
  method ReadAll(file: array2<Value>) returns (values: array2<real>, known: bool)
    ensures fresh(values) && values.Length0 == file.Length0 && values.Length1 == file.Length1
    ensures known <==> AllKnown(file)
    ensures known ==> forall j :: 0 <= j < file.Length1 ==> Column(values, j) == Known(file, j)
  {
    values := new real[file.Length0, file.Length1];
    var i := 0;
    while i < file.Length0
      invariant 0 <= i <= file.Length0
      invariant forall r, c :: 0 <= r < i && 0 <= c < file.Length1 ==> file[r, c] == Some(values[r, c])
    {
      var j := 0;
      while j < file.Length1
        invariant 0 <= j <= file.Length1
        invariant forall r, c :: 0 <= r < i && 0 <= c < file.Length1 ==> file[r, c] == Some(values[r, c])
        invariant forall c :: 0 <= c < j ==> file[i, c] == Some(values[i, c])
      {
        if file[i, j].None? {
          return values, false;
        }
        values[i, j] := file[i, j].value;
        j := j + 1;
      }
      i := i + 1;
    }
    known := true;
  }

  method SmoothAll(values: array2<real>, offset: nat) returns (baseline: array<real>)
    requires 1 <= offset && 2 * offset <= values.Length0
    modifies values
    ensures fresh(baseline) && baseline.Length == values.Length1
    ensures forall j :: 0 <= j < values.Length1 ==> Column(values, j) == Smoothed(old(Column(values, j)), offset)
    ensures forall j :: 0 <= j < values.Length1 ==> baseline[j] == Baseline(Column(values, j))
  {
    hide Smoothed, Total, Column;
    baseline := new real[values.Length1];
    var j := 0;
    while j < values.Length1
      invariant 0 <= j <= values.Length1
      invariant forall c :: 0 <= c < j ==> Column(values, c) == Smoothed(old(Column(values, c)), offset)
      invariant forall c :: j <= c < values.Length1 ==> Column(values, c) == old(Column(values, c))
      invariant forall c :: 0 <= c < j ==> baseline[c] == Baseline(Column(values, c))
    {
      var sum := SmoothColumn(values, j, offset);
      baseline[j] := sum / values.Length0 as real;
      j := j + 1;
    }
  }

  method WriteAll(file: array2<Value>, intercepts: array<Value>, values: array2<real>,
                  baseline: array<real>, dep: Dependency)
    requires values.Length0 == file.Length0 && values.Length1 == file.Length1
    requires intercepts.Length == baseline.Length == file.Length1
    modifies file, intercepts
    ensures forall i, j :: 0 <= i < file.Length0 && 0 <= j < file.Length1 ==>
              file[i, j] == InitSeasonality(dep, values[i, j], baseline[j])
    ensures forall j :: 0 <= j < intercepts.Length ==>
              intercepts[j] == Raised(dep, old(intercepts[j]), baseline[j])
  {
    hide InitSeasonality, Raised;
    var j := 0;
    while j < file.Length1
      invariant 0 <= j <= file.Length1
      invariant forall r, c :: 0 <= r < file.Length0 && 0 <= c < j ==>
                  file[r, c] == InitSeasonality(dep, values[r, c], baseline[c])
      invariant forall c :: 0 <= c < j ==> intercepts[c] == Raised(dep, old(intercepts[c]), baseline[c])
      invariant forall c :: j <= c < file.Length1 ==> intercepts[c] == old(intercepts[c])
    {
      var i := 0;
      while i < file.Length0
        invariant 0 <= i <= file.Length0
        invariant forall r, c :: 0 <= r < file.Length0 && 0 <= c < j ==>
                    file[r, c] == InitSeasonality(dep, values[r, c], baseline[c])
        invariant forall r :: 0 <= r < i ==> file[r, j] == InitSeasonality(dep, values[r, j], baseline[j])
        modifies file
      {
        file[i, j] := InitSeasonality(dep, values[i, j], baseline[j]);
        i := i + 1;
      }
      intercepts[j] := Raised(dep, intercepts[j], baseline[j]);
      j := j + 1;
    }
  }

  // ---------------------------------------------------------------- what moving the mean into the intercept does

  /** A column with its baseline taken out, where `InitSeasonality` gives a number. */
  function Rebased(dep: Dependency, s: seq<real>, baseline: real): (r: seq<real>)
    requires dep.Multiplicative? ==> baseline > 0.0
    ensures |r| == |s|
    ensures forall i :: 0 <= i < |s| ==> InitSeasonality(dep, s[i], baseline) == Some(r[i])
  {
    seq(|s|, i requires 0 <= i < |s| => InitSeasonality(dep, s[i], baseline).value)
  }

  lemma {:induction false} TotalLess(s: seq<real>, b: real, t: seq<real>)
    requires |t| == |s| && forall i :: 0 <= i < |s| ==> t[i] == s[i] - b
    ensures Total(t) == Total(s) - |s| as real * b
  {
    if s != [] {
      var m := |s| - 1;
      TotalLess(s[..m], b, t[..m]);
      assert |s| as real * b == m as real * b + b;
    }
  }

  lemma {:induction false} TotalOver(s: seq<real>, b: real, t: seq<real>)
    requires b > 0.0 && |t| == |s| && forall i :: 0 <= i < |s| ==> t[i] == s[i] / b
    ensures Total(t) * b == Total(s)
  {
    if s != [] {
      var m := |s| - 1;
      TotalOver(s[..m], b, t[..m]);
      assert t[m] * b == s[m];
      assert Total(t) * b == Total(t[..m]) * b + t[m] * b;
    }
  }

  /** After smoothing, additive seasonal coefficients average to 0 and multiplicative
      ones to 1. */
  lemma NeutralMean(dep: Dependency, s: seq<real>)
    requires s != [] && (dep.Additive? || dep.Multiplicative?)
    requires dep.Multiplicative? ==> Baseline(s) > 0.0
    ensures Baseline(Rebased(dep, s, Baseline(s))) == if dep.Additive? then 0.0 else 1.0
  {
    hide Total, Rebased, InitSeasonality;
    var b, n := Baseline(s), |s| as real;
    var t := Rebased(dep, s, b);
    Undivided(Total(s), n);
    RebasedAt(dep, s, b);
    if dep.Additive? {
      TotalLess(s, b, t);
    } else {
      TotalOver(s, b, t);
      SameFactor(Total(t), n, b);
    }
  }

  lemma RebasedAt(dep: Dependency, s: seq<real>, b: real)
    requires dep.Additive? || (dep.Multiplicative? && b > 0.0)
    ensures forall i :: 0 <= i < |s| ==>
              Rebased(dep, s, b)[i] == if dep.Additive? then s[i] - b else s[i] / b
  {
  }

  lemma Undivided(x: real, n: real)
    requires n > 0.0
    ensures x / n * n == x && n * (x / n) == x && 0.0 / n == 0.0 && n / n == 1.0
  {
  }

  lemma SameFactor(x: real, y: real, b: real)
    requires b > 0.0 && x * b == y * b
    ensures x == y
  {
    assert (x - y) * b == 0.0;
    NoZeroProduct(x - y, b);
  }

  lemma NoZeroProduct(x: real, b: real)
    requires b > 0.0 && x * b == 0.0
    ensures x == 0.0
  {
    FactorSign(x, b);
    assert (-x) * b == 0.0;
    FactorSign(-x, b);
  }

  /** The baseline is added to the intercept for both kinds. What the pair forecasts is
      then kept for additive coefficients; for multiplicative ones only when the baseline
      is positive and the coefficient is 0 or the intercept times the baseline equals
      their sum. With a baseline of 0 or less the coefficient becomes unknown, and with it
      the forecast, while the intercept is changed all the same. */
  lemma ForecastKept(intercept: real, seasonal: real, baseline: real)
    ensures var after := InitSeasonality(Additive, seasonal, baseline).value;
            Raised(Additive, Some(intercept), baseline).value + after == intercept + seasonal
    ensures baseline > 0.0 ==>
              var after := InitSeasonality(Multiplicative, seasonal, baseline).value;
              Raised(Multiplicative, Some(intercept), baseline).value * after == intercept * seasonal
              <==> seasonal == 0.0 || intercept + baseline == intercept * baseline
    ensures baseline <= 0.0 ==>
              && InitSeasonality(Multiplicative, seasonal, baseline) == None
              && Raised(Multiplicative, Some(intercept), baseline) == Some(intercept + baseline)
  {
    if baseline > 0.0 {
      var after := seasonal / baseline;
      assert after * baseline == seasonal;
      var gap := intercept + baseline - intercept * baseline;
      assert (intercept + baseline) * after - intercept * seasonal == gap * after by {
        assert intercept * seasonal == intercept * (after * baseline) == intercept * baseline * after;
      }
      ZeroProduct(gap, after);
      if after == 0.0 {
        assert seasonal == 0.0;
      }
    }
  }

  lemma ZeroProduct(x: real, y: real)
    ensures x * y == 0.0 <==> x == 0.0 || y == 0.0
  {
    if x * y == 0.0 && y != 0.0 {
      if y > 0.0 {
        NoZeroProduct(x, y);
      } else {
        assert x * -y == 0.0;
        NoZeroProduct(x, -y);
      }
    }
  }
}
