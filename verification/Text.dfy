/** C-string helpers shared by the daemon, its client and the string arithmetic:
    decimal numerals, `strtol` in base 10, and the optional value used for NaN. */
module Text {

  datatype Option<+T> = None | Some(value: T)

  /** `rrd_value_t`, a double that may be NaN. */
  type Value = Option<real>

  const NUL: char := '\0'

  lemma Assoc<T>(a: seq<T>, b: seq<T>, c: seq<T>)
    ensures a + (b + c) == (a + b) + c
  {
  }

  predicate IsDigit(c: char) {
    '0' <= c <= '9'
  }

  predicate AllDigits(s: string) {
    forall i :: 0 <= i < |s| ==> IsDigit(s[i])
  }

  function DigitValue(c: char): int {
    c as int - '0' as int
  }

  /** The number denoted by a numeral, most significant digit first. */
  function Denoted(digits: string): int {
    if digits == "" then 0
    else Denoted(digits[..|digits| - 1]) * 10 + DigitValue(digits[|digits| - 1])
  }

  /** `%lu` */
  function Decimal(n: nat): (s: string)
    ensures s != ""
  {
    if n < 10 then [('0' as int + n) as char]
    else Decimal(n / 10) + [('0' as int + n % 10) as char]
  }

  lemma {:induction false} DecimalValue(n: nat)
    ensures AllDigits(Decimal(n)) && Denoted(Decimal(n)) == n
  {
    if n < 10 {
      assert Denoted(Decimal(n)) == Denoted("") * 10 + n;
    } else {
      DecimalValue(n / 10);
      assert Decimal(n)[..|Decimal(n)| - 1] == Decimal(n / 10);
    }
  }

  predicate IsSpace(c: char) {
    c == ' ' || '\t' <= c <= '\r'
  }

  function SkipSpaces(s: string): string {
    if s != "" && IsSpace(s[0]) then SkipSpaces(s[1..]) else s
  }

  /** How many leading characters are digits. */
  function DigitRun(s: string): (n: nat)
    ensures n <= |s| && AllDigits(s[..n]) && (n < |s| ==> !IsDigit(s[n]))
  {
    if s != "" && IsDigit(s[0]) then
      assert s[..1 + DigitRun(s[1..])] == [s[0]] + s[1..][..DigitRun(s[1..])];
      1 + DigitRun(s[1..])
    else 0
  }

  /** `strtol(s, &end, 10)`: the number read and the text left at `end`; `None` when
      no conversion is done (`end == s`). Saturation at LONG_MAX is not modelled. */
  function StrToL(s: string): Option<(int, string)> {
    var t := SkipSpaces(s);
    var signed := t != "" && (t[0] == '-' || t[0] == '+');
    var u := if signed then t[1..] else t;
    var n := DigitRun(u);
    if n == 0 then None
    else Some((if signed && t[0] == '-' then -Denoted(u[..n]) else Denoted(u[..n]), u[n..]))
  }

  lemma {:induction false} DigitRunIs(digits: string, rest: string)
    requires AllDigits(digits) && (rest != "" ==> !IsDigit(rest[0]))
    ensures DigitRun(digits + rest) == |digits|
  {
    if digits != "" {
      DigitRunIs(digits[1..], rest);
      assert (digits + rest)[1..] == digits[1..] + rest;
    } else {
      assert digits + rest == rest;
    }
  }

  /** Printing a number and reading it back. */
  lemma StrToLDecimal(n: nat, rest: string)
    requires rest != "" ==> !IsDigit(rest[0])
    ensures StrToL(Decimal(n) + rest) == Some((n as int, rest))
  {
    var d := Decimal(n);
    DecimalValue(n);
    DigitRunIs(d, rest);
    assert IsDigit(d[0]) && (d + rest)[0] == d[0];
    assert (d + rest)[..|d|] == d && (d + rest)[|d|..] == rest;
  }

  lemma {:induction false} SkipsBlanks(blanks: string, s: string)
    requires forall i :: 0 <= i < |blanks| ==> blanks[i] as int in {9, 10, 11, 12, 13, 32}
    requires s != "" ==> !IsSpace(s[0])
    ensures SkipSpaces(blanks + s) == s
  {
    if blanks != "" {
      SkipsBlanks(blanks[1..], s);
      assert (blanks + s)[1..] == blanks[1..] + s;
    } else {
      assert blanks + s == s;
    }
  }

  /** What `strtol` reads: blanks, a sign or none, and all the digits there are. */
  lemma StrToLReads(blanks: string, sign: string, digits: string, rest: string)
    requires forall i :: 0 <= i < |blanks| ==> blanks[i] as int in {9, 10, 11, 12, 13, 32}
    requires sign in {"", "+", "-"} && digits != "" && AllDigits(digits) && (rest != "" ==> !IsDigit(rest[0]))
    ensures StrToL(blanks + (sign + (digits + rest))) ==
      Some((if sign == "-" then -Denoted(digits) else Denoted(digits), rest))
  {
    hide SkipSpaces, DigitRun, Denoted;
    var u := digits + rest;
    var t := sign + u;
    assert u[0] == digits[0] && IsDigit(u[0]);
    assert t[0] == if sign == "" then u[0] else sign[0];
    assert (if sign == "" then t else t[1..]) == u;
    SkipsBlanks(blanks, t);
    DigitRunIs(digits, rest);
    assert u[..|digits|] == digits && u[|digits|..] == rest;
  }
}
