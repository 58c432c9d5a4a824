/** `rrd_diff`: the exact difference of two integers of any length given as text. */
module Diff {
  import opened Text

  /** The longest reading kept by a data source. */
  const LAST_DS_LEN := 30

  // ---------------------------------------------------------------- what is computed

  /** How many characters precede the first digit. */
  function Lead(s: string): (n: nat)
    ensures n <= |s|
  {
    if s == "" || IsDigit(s[0]) then 0 else 1 + Lead(s[1..])
  }

  function Digits(s: string): string {
    s[Lead(s)..][..DigitRun(s[Lead(s)..])]
  }

  predicate Negative(s: string) {
    '-' in s[..Lead(s)]
  }

  /** The integer a reading denotes. */
  function Reading(s: string): int {
    if Negative(s) then -Denoted(Digits(s)) else Denoted(Digits(s))
  }

  function Max(a: nat, b: nat): nat {
    if a > b then a else b
  }

  /** Readings without digits, of different signs, or too long have no difference. */
  predicate Comparable(a: string, b: string) {
    && Digits(a) != "" && Digits(b) != ""
    && Negative(a) == Negative(b)
    && Max(|Digits(a)|, |Digits(b)|) <= LAST_DS_LEN
  }

  // ---------------------------------------------------------------- numerals

  function Pow10(n: nat): (p: nat)
    ensures p > 0
  {
    if n == 0 then 1 else 10 * Pow10(n - 1)
  }

  lemma {:induction false} ValuePrepend(d: char, s: string)
    ensures Denoted([d] + s) == DigitValue(d) * Pow10(|s|) + Denoted(s)
  {
    hide DigitValue;
    if s == "" {
      assert Denoted([d]) == Denoted("") * 10 + DigitValue(d);
      assert [d] + s == [d];
    } else {
      var n := |s| - 1;
      ValuePrepend(d, s[..n]);
      assert ([d] + s)[..n + 1] == [d] + s[..n] && ([d] + s)[n + 1] == s[n];
      TenTimes(DigitValue(d), Pow10(n), Denoted(s[..n]), DigitValue(s[n]));
    }
  }

  lemma TenTimes(d: int, p: int, v: int, x: int)
    ensures (d * p + v) * 10 + x == d * (10 * p) + (v * 10 + x)
  {
  }

  lemma {:induction false} ValueBounds(s: string)
    requires AllDigits(s)
    ensures 0 <= Denoted(s) < Pow10(|s|)
  {
    if s != "" {
      ValueBounds(s[..|s| - 1]);
    }
  }

  /** The last `x` digits of `s`, or all of them. */
  function Low(s: string, x: nat): string {
    if x <= |s| then s[|s| - x..] else s
  }

  /** The digit in front of `Low(s, x)`. */
  function DigitAt(s: string, x: nat): int {
    if x < |s| then DigitValue(s[|s| - 1 - x]) else 0
  }

  lemma LowNext(s: string, x: nat)
    ensures Denoted(Low(s, x + 1)) == DigitAt(s, x) * Pow10(x) + Denoted(Low(s, x))
  {
    if x < |s| {
      ValuePrepend(s[|s| - 1 - x], s[|s| - x..]);
      assert s[|s| - 1 - x..] == [s[|s| - 1 - x]] + s[|s| - x..];
    }
  }

  /** What a carry or borrow is worth in front of `x` digits. */
  function Carry(c: int, x: nat): int {
    if c == 0 then 0 else Pow10(x)
  }

  lemma BorrowStep(x: nat, a: int, b: int, c: int, d: int, c': int)
    requires d == a - b - c + 10 * c' && 0 <= c <= 1 && 0 <= c' <= 1
    ensures d * Pow10(x) + Carry(c, x) == a * Pow10(x) - b * Pow10(x) + Carry(c', x + 1)
  {
    assert d * Pow10(x) == (a - b - c + 10 * c') * Pow10(x);
  }

  lemma ComplementStep(x: nat, d: int, c: int, r: int, c': int)
    requires r == 9 - d + c - 10 * c' && 0 <= c <= 1 && 0 <= c' <= 1
    ensures r * Pow10(x) + Carry(c', x + 1) - Carry(c, x) == 9 * Pow10(x) - d * Pow10(x)
  {
    assert r * Pow10(x) == (9 - d + c - 10 * c') * Pow10(x);
  }

  // ---------------------------------------------------------------- the two loops

  /** After `x` rounds of the borrow loop. */
  ghost predicate Subtracted(a: string, b: string, x: nat, digits: string, c: int) {
    && |digits| == x && AllDigits(digits) && (c == 0 || c == 1)
    && Denoted(digits) == Denoted(Low(a, x)) - Denoted(Low(b, x)) + Carry(c, x)
  }

  lemma SubtractStart(a: string, b: string)
    ensures Subtracted(a, b, 0, "", 0)
  {
  }

  lemma SubtractNext(a: string, b: string, x: nat, digits: string, c: int, d: char, c': int)
    requires Subtracted(a, b, x, digits, c) && IsDigit(d) && (c' == 0 || c' == 1)
    requires DigitValue(d) == DigitAt(a, x) - DigitAt(b, x) - c + 10 * c'
    ensures Subtracted(a, b, x + 1, [d] + digits, c')
  {
    LowNext(a, x);
    LowNext(b, x);
    ValuePrepend(d, digits);
    BorrowStep(x, DigitAt(a, x), DigitAt(b, x), c, DigitValue(d), c');
    assert Pow10(x + 1) == 10 * Pow10(x);
    hide Denoted, Low, DigitAt, Pow10, DigitValue, Carry;
  }

  lemma SubtractEnd(a: string, b: string, m: nat, digits: string, c: int)
    requires Subtracted(a, b, m, digits, c) && m >= |a| && m >= |b|
    ensures Denoted(digits) == Denoted(a) - Denoted(b) + Carry(c, m)
  {
    assert Low(a, m) == a && Low(b, m) == b;
  }

  /** After `x` rounds of the complement loop on `digits`. */
  ghost predicate Complemented(digits: string, x: nat, result: string, c: int) {
    && |result| == x && AllDigits(result) && (c == 0 || c == 1)
    && Denoted(result) + Carry(c, x) == Pow10(x) - Denoted(Low(digits, x))
  }

  lemma ComplementStart(digits: string)
    ensures Complemented(digits, 0, "", 1)
  {
  }

  lemma ComplementNext(digits: string, x: nat, result: string, c: int, r: char, c': int)
    requires Complemented(digits, x, result, c) && IsDigit(r) && (c' == 0 || c' == 1)
    requires DigitValue(r) == 9 - DigitAt(digits, x) + c - 10 * c'
    ensures Complemented(digits, x + 1, [r] + result, c')
  {
    LowNext(digits, x);
    ValuePrepend(r, result);
    ComplementStep(x, DigitAt(digits, x), c, DigitValue(r), c');
    assert Pow10(x + 1) == 10 * Pow10(x);
    hide Denoted, Low, DigitAt, Pow10, DigitValue, Carry;
  }

  lemma ComplementEnd(digits: string, m: nat, result: string, c: int)
    requires Complemented(digits, m, result, c) && |digits| == m && AllDigits(digits) && Denoted(digits) > 0
    ensures Denoted(result) == Pow10(m) - Denoted(digits)
  {
    assert Low(digits, m) == digits;
    ValueBounds(result);
    ValueBounds(digits);
  }

  /** `text` ends at position `end` of the buffer. */
  ghost predicate EndsAt(res: array<char>, end: nat, text: string)
    reads res
  {
    |text| <= end <= res.Length && forall k :: 0 <= k < |text| ==> res[end - |text| + k] == text[k]
  }

  /** The borrow loop: the low digits of a - b, and the borrow left over. */
  method Subtract(a: string, b: string, res: array<char>, m: nat) returns (c: int, ghost digits: string)
    requires AllDigits(a) && AllDigits(b) && m == Max(|a|, |b|) && res.Length >= m + 3
    modifies res
    ensures Subtracted(a, b, m, digits, c) && EndsAt(res, m + 2, digits)
    ensures |digits| == m && AllDigits(digits) && 0 <= c <= 1
    ensures res[0] == old(res[0]) && res[1] == old(res[1]) && res[m + 2] == old(res[m + 2])
  {
    hide Denoted, Low, Pow10, Subtracted;
    c, digits := 0, "";
    SubtractStart(a, b);
    var a1, b1, r1 := |a| - 1, |b| - 1, m + 1;
    var x := 0;
    while x < m
      invariant x <= m && a1 == |a| - 1 - x && b1 == |b| - 1 - x && r1 == m + 1 - x
      invariant 0 <= c <= 1 && |digits| == x && AllDigits(digits)
      invariant Subtracted(a, b, x, digits, c) && EndsAt(res, m + 2, digits)
      invariant res[0] == old(res[0]) && res[1] == old(res[1]) && res[m + 2] == old(res[m + 2])
    {
      ghost var c0 := c;
      var d: int;
      if a1 >= 0 && b1 >= 0 {
        d := ((a[a1] as int - c) - b[b1] as int) + '0' as int;
      } else if a1 >= 0 {
        d := a[a1] as int - c;
      } else {
        d := ('0' as int - b[b1] as int - c) + '0' as int;
      }
      if d < '0' as int {
        d := d + 10;
        c := 1;
      } else if d > '9' as int {
        d := d - 10;
        c := 1;
      } else {
        c := 0;
      }
      res[r1] := d as char;
      SubtractNext(a, b, x, digits, c0, d as char, c);
      digits := [d as char] + digits;
      a1, b1, r1 := a1 - 1, b1 - 1, r1 - 1;
      x := x + 1;
    }
  }

  /** The second pass, run when a borrow is left: the ten's complement. */
  method Complement(res: array<char>, m: nat, ghost digits: string) returns (ghost result: string, ghost c': int)
    requires res.Length >= m + 3 && |digits| == m && AllDigits(digits) && EndsAt(res, m + 2, digits)
    modifies res
    ensures Complemented(digits, m, result, c') && EndsAt(res, m + 2, result)
    ensures |result| == m && AllDigits(result)
    ensures res[0] == old(res[0]) && res[1] == old(res[1]) && res[m + 2] == old(res[m + 2])
  {
    hide Denoted, Low, Pow10, Complemented;
    var c := 1;
    var r1 := m + 1;
    var x := 0;
    result := "";
    ComplementStart(digits);
    assert m > 0 ==> res[2 + (m - 1)] == digits[m - 1];
    while x < m && IsDigit(res[r1])
      invariant x <= m && r1 == m + 1 - x
      invariant 0 <= c <= 1 && |result| == x && AllDigits(result)
      invariant Complemented(digits, x, result, c) && EndsAt(res, m + 2, result)
      invariant forall k :: 0 <= k < m - x ==> res[2 + k] == digits[k]
      invariant x < m ==> IsDigit(res[r1])
      invariant res[0] == old(res[0]) && res[1] == old(res[1]) && res[m + 2] == old(res[m + 2])
    {
      ghost var c0 := c;
      assert res[r1] == res[2 + (m - 1 - x)] == digits[m - 1 - x];
      var t := ('9' as int - res[r1] as int + c) + '0' as int;
      if t > '9' as int {
        t := t - 10;
        c := 1;
      } else {
        c := 0;
      }
      res[r1] := t as char;
      ComplementNext(digits, x, result, c0, t as char, c);
      result := [t as char] + result;
      x, r1 := x + 1, r1 - 1;
      assert x < m ==> res[2 + (m - 1 - x)] == digits[m - 1 - x];
    }
    c' := c;
  }

  // ---------------------------------------------------------------- rrd_diff

  datatype Result = Nan | Overrun | Exactly(difference: int)

  /** The length of the longer numeral. */
  function Longer(a: string, b: string): nat {
    Max(|Digits(a)|, |Digits(b)|)
  }

  /** What `rrd_diff` does: no result for texts that cannot be compared, a write behind its
      result buffer for numerals of more than `LAST_DS_LEN - 2` digits, and otherwise the
      difference of the two integers. */
  function Outcome(a: string, b: string): Result {
    if !Comparable(a, b) then Nan
    else if Longer(a, b) > LAST_DS_LEN - 2 then Overrun
    else Exactly(Reading(a) - Reading(b))
  }

  /** Two numerals of 29 digits pass the guard and overrun the buffer. */
  lemma OverrunAt29()
    ensures var ones := seq(29, i => '1');
      Comparable(ones, ones) && Longer(ones, ones) == 29 && Outcome(ones, ones) == Overrun
  {
    var ones := seq(29, i => '1');
    DigitRunIs(ones, "");
    assert ones + "" == ones && ones[0..] == ones && ones[..29] == ones;
    assert Lead(ones) == 0 && Digits(ones) == ones;
  }

  /** `rrd_diff`, on texts without NUL. The model stops where the code would leave its
      buffer. */
  method RrdDiff(a: string, b: string) returns (r: Result)
    ensures r == Outcome(a, b)
  {
    hide Denoted, Pow10, Subtracted, Complemented, Digits, Negative;
    var res := new char[LAST_DS_LEN + 1];
    var aNeg, a' := Scan(a);
    var bNeg, b' := Scan(b);
    if a' == "" || b' == "" {
      return Nan;
    }
    if aNeg != bNeg {
      return Nan;
    }
    var m := Max(|a'|, |b'|);
    if m > LAST_DS_LEN {
      return Nan;
    }
    var inside := Blank(res, m);
    if !inside {
      return Overrun;
    }
    var c;
    ghost var digits;
    c, digits := Subtract(a', b', res, m);
    Difference(a', b', m, digits, c);
    var result: int;
    if c != 0 {
      ghost var done, c' := Complement(res, m, digits);
      ComplementEnd(digits, m, done, c');
      result := Atof(res, m, done);
      result := -result;
    } else {
      result := Atof(res, m, digits);
    }
    if aNeg && bNeg {
      result := -result;
    }
    return Exactly(result);
  }

  /** The first writes to the result buffer: blanks, and the terminator behind them. They
      end at the first cell that is not in the buffer, if there is one; the loops that
      follow write no cell behind these. */
  method Blank(res: array<char>, m: nat) returns (inside: bool)
    modifies res
    ensures inside <==> m + 3 <= res.Length
    ensures inside ==> res[m + 2] == NUL && forall k :: 0 <= k < m + 2 ==> res[k] == ' '
  {
    var b1 := 0;
    while b1 <= m + 1
      invariant b1 <= m + 2 && b1 <= res.Length && forall k :: 0 <= k < b1 ==> res[k] == ' '
    {
      if b1 >= res.Length {
        return false;
      }
      res[b1] := ' ';
      b1 := b1 + 1;
    }
    if m + 2 >= res.Length {
      return false;
    }
    res[m + 2] := NUL;
    return true;
  }

  lemma {:induction false} Pow10Grows(n: nat, m: nat)
    requires n <= m
    ensures Pow10(n) <= Pow10(m)
  {
    if n < m {
      Pow10Grows(n, m - 1);
    }
  }

  /** What the digits and the borrow say about the difference. */
  lemma Difference(a: string, b: string, m: nat, digits: string, c: int)
    requires Subtracted(a, b, m, digits, c) && AllDigits(a) && AllDigits(b) && m == Max(|a|, |b|)
    ensures c == 0 ==> Denoted(digits) == Denoted(a) - Denoted(b)
    ensures c == 1 ==> Denoted(digits) > 0 && Denoted(digits) == Pow10(m) - (Denoted(b) - Denoted(a))
  {
    SubtractEnd(a, b, m, digits, c);
    ValueBounds(a);
    ValueBounds(b);
    Pow10Grows(|b|, m);
    hide Denoted, Pow10, Low;
  }

  /** The sign and the digits of a reading: the loops at the top of `rrd_diff`. */
  method Scan(s: string) returns (neg: bool, digits: string)
    ensures neg == Negative(s) && digits == Digits(s) && AllDigits(digits)
  {
    hide Digits, AllDigits;
    neg := false;
    var i := 0;
    assert s[0..] == s;
    while !(i == |s| || IsDigit(s[i]))
      invariant i <= |s| && Lead(s) == i + Lead(s[i..])
      invariant neg == ('-' in s[..i])
    {
      if s[i] == '-' {
        neg := true;
      }
      assert s[i..][1..] == s[i + 1..] && s[..i + 1] == s[..i] + [s[i]];
      i := i + 1;
    }
    assert Lead(s) == i;
    var fix := i;
    while fix < |s| && IsDigit(s[fix])
      invariant i <= fix <= |s| && forall k :: i <= k < fix ==> IsDigit(s[k])
    {
      fix := fix + 1;
    }
    digits := s[i..fix];
    DigitsEnd(s, fix);
  }

  lemma DigitsEnd(s: string, fix: nat)
    requires Lead(s) <= fix <= |s| && forall k :: Lead(s) <= k < fix ==> IsDigit(s[k])
    requires fix < |s| ==> !IsDigit(s[fix])
    ensures Digits(s) == s[Lead(s)..fix] && AllDigits(s[Lead(s)..fix])
  {
    hide Lead, DigitRun;
    var at := Lead(s);
    var digits, rest := s[at..fix], s[fix..];
    assert forall k :: 0 <= k < |digits| ==> digits[k] == s[at + k];
    assert rest != "" ==> rest[0] == s[fix];
    assert s[at..] == digits + rest;
    DigitRunIs(digits, rest);
    assert (digits + rest)[..|digits|] == digits;
  }

  /** `atof` on the result buffer: blanks, then the digits. */
  method Atof(res: array<char>, m: nat, ghost digits: string) returns (v: int)
    requires m > 0 && res.Length >= m + 3 && |digits| == m && AllDigits(digits) && EndsAt(res, m + 2, digits)
    requires res[0] == ' ' && res[1] == ' ' && res[m + 2] == NUL
    ensures v == Denoted(digits)
  {
    var text := res[..m + 2];
    assert text == [' ', ' '] + digits;
    assert text[1..] == [' '] + digits && text[1..][1..] == digits;
    assert SkipSpaces(digits) == digits && SkipSpaces(text[1..]) == digits && SkipSpaces(text) == digits;
    DigitRunIs(digits, "");
    assert digits + "" == digits && digits[..m] == digits;
    match StrToL(text)
    case Some((n, _)) => v := n;
    case None => v := 0;
  }

  // ---------------------------------------------------------------- what readings denote

  lemma {:induction false} LeadIs(pre: string, s: string)
    requires forall i :: 0 <= i < |pre| ==> !IsDigit(pre[i])
    requires s != "" && IsDigit(s[0])
    ensures Lead(pre + s) == |pre|
  {
    if pre != "" {
      LeadIs(pre[1..], s);
      assert (pre + s)[1..] == pre[1..] + s;
    } else {
      assert pre + s == s;
    }
  }

  /** A reading is the first run of digits in a text, negative exactly if there is a minus
      sign anywhere in front of it. */
  lemma ReadingIs(pre: string, digits: string, post: string)
    requires forall i :: 0 <= i < |pre| ==> !IsDigit(pre[i])
    requires digits != "" && AllDigits(digits) && (post != "" ==> !IsDigit(post[0]))
    ensures var s := pre + (digits + post);
      && Digits(s) == digits && (Negative(s) <==> '-' in pre)
      && Reading(s) == if '-' in pre then -Denoted(digits) else Denoted(digits)
  {
    var s := pre + (digits + post);
    assert (digits + post)[0] == digits[0];
    LeadIs(pre, digits + post);
    assert s[|pre|..] == digits + post && s[..|pre|] == pre;
    DigitRunIs(digits, post);
    assert (digits + post)[..|digits|] == digits;
  }

  /** The difference of two texts with numbers in them. */
  lemma OutcomeIs(pre: string, a: string, post: string, pre': string, b: string, post': string)
    requires forall i :: 0 <= i < |pre| ==> !IsDigit(pre[i])
    requires forall i :: 0 <= i < |pre'| ==> !IsDigit(pre'[i])
    requires a != "" && AllDigits(a) && (post != "" ==> !IsDigit(post[0]))
    requires b != "" && AllDigits(b) && (post' != "" ==> !IsDigit(post'[0]))
    ensures var m := if |a| > |b| then |a| else |b|;
      Outcome(pre + (a + post), pre' + (b + post')) ==
        if ('-' in pre) != ('-' in pre') || m > 30 then Nan
        else if m > 28 then Overrun
        else Exactly(if '-' in pre then Denoted(b) - Denoted(a) else Denoted(a) - Denoted(b))
  {
    hide Digits, Negative, Denoted, Reading;
    ReadingIs(pre, a, post);
    ReadingIs(pre', b, post');
  }

  /** Without a digit there is no difference. */
  lemma NoReading(a: string, b: string)
    requires (forall i :: 0 <= i < |a| ==> !IsDigit(a[i])) || (forall i :: 0 <= i < |b| ==> !IsDigit(b[i]))
    ensures Outcome(a, b) == Nan
  {
    if forall i :: 0 <= i < |a| ==> !IsDigit(a[i]) {
      NoDigits(a);
    } else {
      NoDigits(b);
    }
  }

  lemma {:induction false} NoDigits(s: string)
    requires forall i :: 0 <= i < |s| ==> !IsDigit(s[i])
    ensures Lead(s) == |s| && Digits(s) == ""
  {
    if s != "" {
      NoDigits(s[1..]);
    }
  }
}
