/** Status lines and batches: what the daemon sends for every command, and the client's
    reader that must stay in step with it. */
module Responses {
  import opened LineText
  import opened Text

  // ---------------------------------------------------------------- counting lines

  /** `count_lines` */
  method CountLines(s: string) returns (lines: nat)
    ensures lines == |Lines(s)|
  {
    hide LineEnd;
    lines := 0;
    var str := s;
    var n := LineEnd(str);
    while n < |str|
      invariant n == LineEnd(str) && lines + |Lines(str)| == |Lines(s)|
      decreases |str|
    {
      lines := lines + 1;
      str := str[n + 1..];
      n := LineEnd(str);
    }
  }

  // ---------------------------------------------------------------- responses on the wire

  datatype Response = Response(status: int, message: string, lines: seq<string>)

  /** `%d` */
  function Printed(n: int): string {
    if n < 0 then "-" + Decimal(-n) else Decimal(n)
  }

  function Encode(r: Response): string {
    Printed(r.status) + " " + r.message + "\n" + Joined(r.lines)
  }

  function EncodeAll(rs: seq<Response>): string {
    if rs == [] then "" else Encode(rs[0]) + EncodeAll(rs[1..])
  }

  /** The status announces the lines that follow; nothing contains a newline. */
  predicate InStep(r: Response) {
    && (r.status >= 0 ==> r.status == |r.lines|) && (r.status < 0 ==> r.lines == [])
    && NoNewline(r.message) && NoNewlines(r.lines)
  }

  /** `chomp` */
  function Chomp(s: string): string {
    if s != "" && (s[|s| - 1] == '\n' || s[|s| - 1] == '\r') then Chomp(s[..|s| - 1]) else s
  }

  function SkipBlanks(s: string): string {
    if s != "" && (s[0] == ' ' || s[0] == '\t') then SkipBlanks(s[1..]) else s
  }

  function ChompAll(lines: seq<string>): (r: seq<string>)
    ensures |r| == |lines|
  {
    if lines == [] then [] else [Chomp(lines[0])] + ChompAll(lines[1..])
  }

  /** What the client makes of a response. */
  function Seen(r: Response): Response {
    Response(r.status, SkipBlanks(Chomp(r.message)), ChompAll(r.lines))
  }

  /** `fgets`: the next line with its newline, and the rest of the stream. */
  function Gets(stream: string): Option<(string, string)> {
    if stream == "" then None
    else
      var n := LineEnd(stream);
      var m := if n < |stream| then n + 1 else n;
      Some((stream[..m], stream[m..]))
  }

  function GetMany(stream: string, n: nat): Option<(seq<string>, string)> {
    if n == 0 then Some(([], stream))
    else
      match Gets(stream)
      case None => None
      case Some((line, rest)) =>
        match GetMany(rest, n - 1)
        case None => None
        case Some((more, left)) => Some(([Chomp(line)] + more, left))
  }

  function DigitIn(c: char): nat {
    if '0' <= c <= '9' then c as nat - '0' as nat
    else if 'a' <= c <= 'f' then 10 + (c as nat - 'a' as nat)
    else if 'A' <= c <= 'F' then 10 + (c as nat - 'A' as nat)
    else 16
  }

  /** How many leading characters are digits of the base. */
  function RunIn(s: string, base: nat): (n: nat)
    ensures n <= |s|
  {
    if s != "" && DigitIn(s[0]) < base then 1 + RunIn(s[1..], base) else 0
  }

  function DenotedIn(digits: string, base: nat): nat {
    if digits == "" then 0
    else DenotedIn(digits[..|digits| - 1], base) * base + DigitIn(digits[|digits| - 1])
  }

  /** `strtol(s, &end, 0)`: as `StrToL`, but the number is hexadecimal behind "0x" and
      octal behind any other "0". */
  function StrToLAuto(s: string): Option<(int, string)> {
    var t := SkipSpaces(s);
    var signed := t != "" && (t[0] == '-' || t[0] == '+');
    var u := if signed then t[1..] else t;
    if u == "" || u[0] != '0' then StrToL(s)
    else
      var hex := |u| > 2 && (u[1] == 'x' || u[1] == 'X') && DigitIn(u[2]) < 16;
      var v, base := if hex then u[2..] else u, if hex then 16 else 8;
      var n := RunIn(v, base);
      Some((if signed && t[0] == '-' then 0 - DenotedIn(v[..n], base) else DenotedIn(v[..n], base), v[n..]))
  }

  /** A printed number has no leading zero but its own. */
  lemma {:induction false} LeadingDigit(n: nat)
    ensures n > 0 ==> Decimal(n)[0] != '0'
  {
    if n >= 10 {
      LeadingDigit(n / 10);
    }
  }

  lemma AutoZero(rest: string)
    requires rest != "" && rest[0] == ' '
    ensures StrToLAuto("0" + rest) == Some((0, rest))
  {
    hide StrToL;
    var s := "0" + rest;
    assert s[1..] == rest;
    assert RunIn(s, 8) == 1 + RunIn(rest, 8) == 1;
    assert s[..1] == "0" && DenotedIn("0", 8) == DenotedIn("0"[..0], 8) * 8 + 0;
  }

  lemma AutoDecimal(sign: string, d: string, rest: string)
    requires (sign == "" || sign == "-") && d != "" && IsDigit(d[0]) && d[0] != '0'
    ensures StrToLAuto(sign + d + rest) == StrToL(sign + d + rest)
  {
    hide StrToL, RunIn, DenotedIn;
    var s := sign + d + rest;
    if sign == "" {
      assert s[0] == d[0];
    } else {
      assert s[0] == '-' && s[1..][0] == d[0];
    }
  }

  /** The digit for a number below 16, with lower-case letters. */
  function DigitFor(d: nat): (c: char)
    requires d < 16
    ensures DigitIn(c) == d
  {
    "0123456789abcdef"[d]
  }

  /** A numeral in another base. */
  function PrintedIn(n: nat, base: nat): (s: string)
    requires 2 <= base <= 16
    ensures s != ""
  {
    if n < base then [DigitFor(n)] else PrintedIn(n / base, base) + [DigitFor(n % base)]
  }

  lemma DenotedNext(front: string, c: char, base: nat)
    ensures DenotedIn(front + [c], base) == DenotedIn(front, base) * base + DigitIn(c)
    ensures DenotedIn("", base) == 0
  {
    assert (front + [c])[..|front|] == front;
  }

  lemma WholeAndRest(n: nat, base: nat)
    requires base >= 1
    ensures n / base * base + n % base == n
  {
  }

  lemma {:induction false} PrintedInDenotes(n: nat, base: nat)
    requires 2 <= base <= 16
    ensures var s := PrintedIn(n, base); DenotedIn(s, base) == n && forall i :: 0 <= i < |s| ==> DigitIn(s[i]) < base
  {
    hide DigitIn, DigitFor, DenotedIn;
    if n < base {
      DenotedNext("", DigitFor(n), base);
      assert "" + [DigitFor(n)] == PrintedIn(n, base);
    } else {
      PrintedInDenotes(n / base, base);
      DenotedNext(PrintedIn(n / base, base), DigitFor(n % base), base);
      WholeAndRest(n, base);
    }
  }

  lemma {:induction false} RunInIs(digits: string, rest: string, base: nat)
    requires forall i :: 0 <= i < |digits| ==> DigitIn(digits[i]) < base
    requires rest != "" ==> DigitIn(rest[0]) >= base
    ensures RunIn(digits + rest, base) == |digits|
  {
    if digits != "" {
      RunInIs(digits[1..], rest, base);
      assert (digits + rest)[1..] == digits[1..] + rest;
    } else {
      assert digits + rest == rest;
    }
  }

  /** Behind "0x" a number is read in base 16, behind another "0" in base 8. */
  lemma AutoOther(n: nat, rest: string)
    ensures (rest != "" ==> DigitIn(rest[0]) >= 16) ==>
              StrToLAuto("0x" + (PrintedIn(n, 16) + rest)) == Some((n as int, rest))
    ensures (rest != "" ==> DigitIn(rest[0]) >= 8) ==>
              StrToLAuto("0" + (PrintedIn(n, 8) + rest)) == Some((n as int, rest))
  {
    if rest != "" ==> DigitIn(rest[0]) >= 16 {
      AutoHex(PrintedIn(n, 16), rest, n);
    }
    if rest != "" ==> DigitIn(rest[0]) >= 8 {
      AutoOctal(PrintedIn(n, 8), rest, n);
    }
  }

  lemma AutoHex(digits: string, rest: string, n: nat)
    requires digits == PrintedIn(n, 16) && (rest != "" ==> DigitIn(rest[0]) >= 16)
    ensures StrToLAuto("0x" + (digits + rest)) == Some((n as int, rest))
  {
    hide DenotedIn, RunIn, PrintedIn, DigitIn;
    var v := digits + rest;
    var s := "0x" + v;
    PrintedInDenotes(n, 16);
    RunInIs(digits, rest, 16);
    assert s[2..] == v && v[0] == digits[0] && s[2] == v[0];
    assert v[..|digits|] == digits && v[|digits|..] == rest;
  }

  lemma AutoOctal(digits: string, rest: string, n: nat)
    requires digits == PrintedIn(n, 8) && (rest != "" ==> DigitIn(rest[0]) >= 8)
    ensures StrToLAuto("0" + (digits + rest)) == Some((n as int, rest))
  {
    hide DenotedIn, RunIn, PrintedIn;
    var v := "0" + digits;
    var s := "0" + (digits + rest);
    PrintedInDenotes(n, 8);
    assert forall i :: 0 <= i < |v| ==> v[i] == if i == 0 then '0' else digits[i - 1];
    RunInIs(v, rest, 8);
    assert s == v + rest && s[1] == digits[0];
    assert s[..|v|] == v && s[|v|..] == rest;
    LeadingZero(digits, 8);
  }

  lemma {:induction false} LeadingZero(digits: string, base: nat)
    ensures DenotedIn("0" + digits, base) == DenotedIn(digits, base)
  {
    var v := "0" + digits;
    if digits == "" {
      assert v[..0] == "" && DenotedIn(v, base) == DenotedIn("", base) * base + 0;
    } else {
      var n := |digits| - 1;
      LeadingZero(digits[..n], base);
      assert v[..|v| - 1] == "0" + digits[..n];
    }
  }

  /** So detecting the base reads it like base 10. */
  lemma AutoPrinted(n: int, rest: string)
    requires rest != "" && rest[0] == ' '
    ensures StrToLAuto(Printed(n) + rest) == Some((n, rest))
  {
    hide StrToL, StrToLAuto;
    if n == 0 {
      AutoZero(rest);
    } else {
      var m := if n < 0 then -n else n;
      StrToLPrinted(n, rest);
      DecimalValue(m);
      LeadingDigit(m);
      var sign := if n < 0 then "-" else "";
      assert sign + Decimal(m) == Printed(n);
      AutoDecimal(sign, Decimal(m), rest);
    }
  }

  /** `response_read`; `None` stands for its error exits. */
  function Read(stream: string): Option<(Response, string)> {
    match Gets(stream)
    case None => None
    case Some((line, rest)) =>
      match StrToLAuto(Chomp(line))
      case None => None
      case Some((status, text)) =>
        var message := SkipBlanks(text);
        if status <= 0 then Some((Response(status, message, []), rest))
        else
          match GetMany(rest, status)
          case None => None
          case Some((lines, left)) => Some((Response(status, message, lines), left))
  }

  method ResponseRead(stream: string) returns (read: Option<(Response, string)>)
    ensures read == Read(stream)
  {
    var first := Gets(stream);
    if first.None? {
      return None;
    }
    var number := StrToLAuto(Chomp(first.value.0));
    if number.None? {
      return None;
    }
    var status, rest := number.value.0, first.value.1;
    var message := SkipBlanks(number.value.1);
    if status <= 0 {
      return Some((Response(status, message, []), rest));
    }
    var lines, more := GetLines(rest, status);
    if more.None? {
      return None;
    }
    return Some((Response(status, message, lines), more.value));
  }

  /** The loop of `response_read` that fills in the lines. */
  method GetLines(stream: string, count: nat) returns (lines: seq<string>, left: Option<string>)
    ensures GetMany(stream, count) == if left.None? then None else Some((lines, left.value))
  {
    hide Gets, Chomp;
    lines := [];
    var rest, i := stream, 0;
    ghost var whole := GetMany(stream, count);
    PrependedNone(whole);
    while i < count
      invariant 0 <= i <= count
      invariant whole == Prepended(lines, GetMany(rest, count - i))
    {
      var next := Gets(rest);
      if next.None? {
        return lines, None;
      }
      var line := Chomp(next.value.0);
      PrependedMore(lines, line, GetMany(next.value.1, count - i - 1));
      lines := lines + [line];
      rest := next.value.1;
      i := i + 1;
    }
    assert lines + [] == lines;
    left := Some(rest);
  }

  function Prepended(lines: seq<string>, more: Option<(seq<string>, string)>): Option<(seq<string>, string)> {
    if more.None? then None else Some((lines + more.value.0, more.value.1))
  }

  lemma PrependedNone(more: Option<(seq<string>, string)>)
    ensures Prepended([], more) == more
  {
    if more.Some? {
      assert [] + more.value.0 == more.value.0;
    }
  }

  lemma PrependedMore(lines: seq<string>, line: string, more: Option<(seq<string>, string)>)
    ensures Prepended(lines + [line], more) == Prepended(lines, Prepended([line], more))
  {
    if more.Some? {
      Assoc(lines, [line], more.value.0);
    }
  }

  // ---------------------------------------------------------------- the reader takes exactly one response

  lemma GetsLine(line: string, rest: string)
    requires NoNewline(line)
    ensures Gets(line + "\n" + rest) == Some((line + "\n", rest))
  {
    var s := line + "\n" + rest;
    LineEndIs(line, rest);
    assert s[..|line| + 1] == line + "\n" && s[|line| + 1..] == rest;
  }

  lemma ChompNewline(line: string)
    ensures Chomp(line + "\n") == Chomp(line)
  {
    assert (line + "\n")[..|line|] == line;
  }

  lemma {:induction false} ChompBehind(prefix: string, s: string)
    requires prefix != "" && prefix[|prefix| - 1] != '\n' && prefix[|prefix| - 1] != '\r'
    ensures Chomp(prefix + s) == prefix + Chomp(s)
  {
    if s == "" {
      assert prefix + s == prefix;
    } else {
      var n := |s| - 1;
      ChompBehind(prefix, s[..n]);
      assert (prefix + s)[..|prefix| + n] == prefix + s[..n];
      assert (prefix + s)[|prefix| + n] == s[n];
    }
  }

  lemma {:induction false} GetManyLines(lines: seq<string>, rest: string)
    requires NoNewlines(lines)
    ensures GetMany(Joined(lines) + rest, |lines|) == Some((ChompAll(lines), rest))
  {
    hide Joined, Gets, Chomp;
    if lines == [] {
      NoLines();
      assert "" + rest == rest;
    } else {
      GetManyLines(lines[1..], rest);
      assert lines == [lines[0]] + lines[1..];
      JoinedFirst(lines[0], lines[1..]);
      Assoc(lines[0] + "\n", Joined(lines[1..]), rest);
      GetsLine(lines[0], Joined(lines[1..]) + rest);
      ChompNewline(lines[0]);
    }
  }

  lemma StrToLPrinted(n: int, rest: string)
    requires rest != "" && rest[0] == ' '
    ensures StrToL(Printed(n) + rest) == Some((n, rest))
    ensures NoNewline(Printed(n))
  {
    hide Decimal, Denoted;
    var d := Decimal(if n < 0 then -n else n);
    DecimalValue(if n < 0 then -n else n);
    if n < 0 {
      var s := Printed(n) + rest;
      assert SkipSpaces(s) == s && s[1..] == d + rest;
      DigitRunIs(d, rest);
      assert (d + rest)[..|d|] == d && (d + rest)[|d|..] == rest;
    } else {
      StrToLDecimal(n, rest);
    }
  }

  /** Whatever follows on the stream, the reader takes one response and leaves the rest. */
  lemma ReadsOne(r: Response, rest: string)
    requires InStep(r)
    ensures Read(Encode(r) + rest) == Some((Seen(r), rest))
  {
    hide Printed, StrToLAuto, Gets, Chomp, SkipBlanks, Joined, GetMany, NoNewline, ChompAll;
    var number := Printed(r.status);
    var head := number + " ";
    var line := head + r.message;
    StrToLPrinted(r.status, " ");
    HeadLine(number, r.message);
    Assoc(line + "\n", Joined(r.lines), rest);
    GetsLine(line, Joined(r.lines) + rest);
    ChompNewline(line);
    ChompBehind(head, r.message);
    Assoc(number, " ", Chomp(r.message));
    AutoPrinted(r.status, " " + Chomp(r.message));
    SkipOne(Chomp(r.message));
    GetManyLines(r.lines, rest);
    if r.lines == [] {
      NoLines();
      assert "" + rest == rest;
      assert ChompAll([]) == [] by {
        NoChomps();
      }
    }
  }

  lemma NoChomps()
    ensures ChompAll([]) == []
  {
  }

  lemma HeadLine(number: string, message: string)
    requires NoNewline(number) && NoNewline(message)
    ensures NoNewline(number + " " + message)
  {
  }

  lemma SkipOne(s: string)
    ensures SkipBlanks(" " + s) == SkipBlanks(s)
  {
    assert (" " + s)[1..] == s;
  }

  // ---------------------------------------------------------------- commands, and what each one answers

  datatype Name =
    | Update | Wrote | Flush | FlushAll | Pending | Forget | Queue | Stats | Help | Batch | Dot | Quit

  /** How a handler ends: the extra info it added and its one `send_response`. */
  datatype Outcome = Outcome(infos: seq<string>, ok: bool, message: string)

  /** One received line: no command could be split off it, or the command word is unknown,
      or it names a command; `outcome` is what that command's handler would come to, and
      `aborts` says that an UPDATE finds the daemon shut down and gives no answer. */
  datatype Line =
    | Unparsable
    | Unknown(typed: string)
    | Command(name: Name, typed: string, permitted: bool, aborts: bool, outcome: Outcome)

  /** The context column of the command table. */
  predicate ClientContext(name: Name) {
    !name.Wrote? && !name.Dot?
  }

  predicate BatchContext(name: Name) {
    name.Update? || name.Flush? || name.Forget? || name.Dot? || name.Quit?
  }

  predicate InContext(name: Name, batch: bool) {
    if batch then BatchContext(name) else ClientContext(name)
  }

  /** A handler's message is one line and its info complete lines. */
  predicate OneLine(s: string) {
    s != "" && s[|s| - 1] == '\n' && NoNewline(s[..|s| - 1])
  }

  predicate GoodOutcome(o: Outcome) {
    OneLine(o.message) && forall i :: 0 <= i < |o.infos| ==> WholeLines(o.infos[i])
  }

  predicate GoodLine(l: Line) {
    match l
    case Unparsable => true
    case Unknown(typed) => NoNewline(typed)
    case Command(_, typed, _, _, outcome) => NoNewline(typed) && GoodOutcome(outcome)
  }

  /** The line reaches the handler of `name`. */
  predicate Reaches(l: Line, name: Name, batch: bool) {
    l.Command? && l.name == name && l.permitted && InContext(name, batch)
  }

  predicate Closes(l: Line, batch: bool) {
    l.Unparsable? || Reaches(l, Quit, batch) || (Reaches(l, Update, batch) && l.aborts)
  }

  /** What a line that neither closes the connection nor starts or ends a batch answers. */
  function Answer(l: Line, batch: bool): (o: Outcome)
    requires !l.Unparsable?
  {
    if l.Unknown? then Outcome([], false, "Unknown command: " + l.typed + "\n")
    else if !l.permitted then Outcome([], false, "Permission denied.\n")
    else if !InContext(l.name, batch) then Outcome([], false, "Can't use '" + l.typed + "' here." + "\n")
    else l.outcome
  }

  lemma AnswerGood(l: Line, batch: bool)
    requires !l.Unparsable? && GoodLine(l)
    ensures GoodOutcome(Answer(l, batch))
  {
    hide NoNewline, OneLine;
    NoNewlineAround("Unknown command: ", if l.Unknown? then l.typed else "", "");
    NoNewlineAround("Permission denied.", "", "");
    NoNewlineAround("Can't use '", if l.Command? then l.typed else "", "' here.");
    OneLineIs("Unknown command: " + if l.Unknown? then l.typed else "");
    OneLineIs("Permission denied.");
    OneLineIs("Can't use '" + (if l.Command? then l.typed else "") + "' here.");
    assert "Permission denied." + "\n" == "Permission denied.\n";
  }

  lemma NoNewlineAround(before: string, s: string, after: string)
    requires NoNewline(before) && NoNewline(s) && NoNewline(after)
    ensures NoNewline(before) && NoNewline(before + s) && NoNewline(before + s + after)
  {
  }

  lemma OneLineIs(m: string)
    requires NoNewline(m)
    ensures OneLine(m + "\n")
  {
    assert (m + "\n")[..|m|] == m;
  }

  // ---------------------------------------------------------------- the protocol: a pure account of one line

  /** Outside a batch, or inside one after `count` lines with one report per failure. */
  datatype Mode = Single | Batching(count: nat, errors: seq<string>)

  const GO_AHEAD: string := "Go ahead.  End with dot '.' on its own line."

  function Trimmed(message: string): string {
    if message == "" then "" else message[..|message| - 1]
  }

  function Concat(infos: seq<string>): string {
    if infos == [] then "" else Concat(infos[..|infos| - 1]) + infos[|infos| - 1]
  }

  function Report(number: nat, message: string): string {
    Decimal(number) + " " + Trimmed(message)
  }

  /** The mode after a line that does not close the connection. */
  function NextMode(m: Mode, l: Line): Mode
    requires !Closes(l, m.Batching?)
  {
    if m.Single? then
      if Reaches(l, Batch, false) then Batching(0, []) else Single
    else if Reaches(l, Dot, true) then Single
    else
      var o := Answer(l, true);
      Batching(m.count + 1, if o.ok then m.errors else m.errors + [Report(m.count + 1, o.message)])
  }

  /** The responses sent for it. */
  function Replies(m: Mode, l: Line): seq<Response>
    requires !Closes(l, m.Batching?)
  {
    if m.Single? then
      if Reaches(l, Batch, false) then [Response(0, GO_AHEAD, [])]
      else
        var o := Answer(l, false);
        if o.ok then
          var lines := Lines(Concat(o.infos));
          [Response(|lines|, Trimmed(o.message), lines)]
        else [Response(-1, Trimmed(o.message), [])]
    else if Reaches(l, Dot, true) then [Response(|m.errors|, "errors", m.errors)]
    else []
  }

  predicate GoodMode(m: Mode) {
    m.Batching? ==> NoNewlines(m.errors)
  }

  lemma ReportGood(number: nat, message: string)
    requires OneLine(message)
    ensures NoNewline(Report(number, message))
  {
    DecimalValue(number);
  }

  lemma {:induction false} ConcatWhole(infos: seq<string>)
    requires forall i :: 0 <= i < |infos| ==> WholeLines(infos[i])
    ensures WholeLines(Concat(infos))
  {
    if infos != [] {
      ConcatWhole(infos[..|infos| - 1]);
    }
  }

  /** Every response announces exactly the lines that follow it, outside a batch every
      line gets exactly one, and inside a batch none. */
  lemma RepliesInStep(m: Mode, l: Line)
    requires GoodMode(m) && GoodLine(l) && !Closes(l, m.Batching?)
    ensures GoodMode(NextMode(m, l))
    ensures forall i :: 0 <= i < |Replies(m, l)| ==> InStep(Replies(m, l)[i])
    ensures |Replies(m, l)| == if m.Single? || NextMode(m, l).Single? then 1 else 0
  {
    hide Lines, Concat, Answer, NoNewline;
    if m.Single? {
      if Reaches(l, Batch, false) {
        GoAheadGood();
      } else {
        AnswerGood(l, false);
        ConcatWhole(Answer(l, false).infos);
        LinesOfWhole(Concat(Answer(l, false).infos));
      }
    } else if Reaches(l, Dot, true) {
      GoAheadGood();
    } else {
      AnswerGood(l, true);
      ReportGood(m.count + 1, Answer(l, true).message);
    }
  }

  lemma GoAheadGood()
    ensures NoNewline(GO_AHEAD) && NoNewline("errors")
  {
  }

  // ---------------------------------------------------------------- the code

  class ResponseSocket {
    var batchStart: bool
    var batchCmd: nat
    var wbuf: string
    var sent: string

    constructor ()
      ensures Holds(Single) && sent == ""
    {
      batchStart, batchCmd, wbuf, sent := false, 0, "", "";
    }

    ghost predicate Holds(m: Mode)
      reads this
    {
      match m
      case Single => !batchStart && wbuf == ""
      case Batching(count, errors) => batchStart && batchCmd == count && wbuf == Joined(errors)
    }

    method AddResponseInfo(info: string)
      modifies this`wbuf
      ensures wbuf == old(wbuf) + if batchStart then "" else info
    {
      if !batchStart {
        wbuf := wbuf + info;
      } else {
        assert wbuf + "" == wbuf;
      }
    }

    /** `write` may take any part of what is left. */
    method WriteOut(text: string)
      modifies this`sent
      ensures sent == old(sent) + text
    {
      var wrote: nat := 0;
      while wrote < |text|
        invariant wrote <= |text| && sent == old(sent) + text[..wrote]
      {
        var wb: nat :| 1 <= wb <= |text| - wrote;
        assert text[..wrote + wb] == text[..wrote] + text[wrote..wrote + wb];
        sent := sent + text[wrote..wrote + wb];
        wrote := wrote + wb;
      }
      assert text[..wrote] == text;
    }

    method SendResponse(ok: bool, message: string)
      modifies this`wbuf, this`sent
      ensures batchStart ==>
                && sent == old(sent)
                && wbuf == old(wbuf) + if ok then "" else Decimal(batchCmd) + " " + message
      ensures !batchStart ==>
                && wbuf == ""
                && sent == old(sent) + (Printed(if ok then |Lines(old(wbuf))| else -1) + " " + message)
                           + (if ok then old(wbuf) else "")
    {
      if batchStart && ok {
        assert wbuf + "" == wbuf;
        return;
      }
      var lines: int;
      if batchStart {
        lines := batchCmd;
      } else if ok {
        lines := CountLines(wbuf);
      } else {
        lines := -1;
      }
      var buffer := Printed(lines) + " " + message;
      if batchStart {
        wbuf := wbuf + buffer;
        return;
      }
      sent := sent + buffer;
      assert sent + "" == sent;
      if wbuf != "" && ok {
        WriteOut(wbuf);
      }
      wbuf := "";
    }

    /** A handler's extra info and response. */
    method Reply(o: Outcome)
      modifies this`wbuf, this`sent
      requires !batchStart ==> wbuf == ""
      ensures batchStart ==>
                && sent == old(sent)
                && wbuf == old(wbuf) + if o.ok then "" else Decimal(batchCmd) + " " + o.message
      ensures !batchStart ==>
                && wbuf == ""
                && sent == old(sent) + (Printed(if o.ok then |Lines(Concat(o.infos))| else -1) + " " + o.message)
                           + (if o.ok then Concat(o.infos) else "")
    {
      hide Lines, Printed, Decimal;
      var i := 0;
      while i < |o.infos|
        invariant 0 <= i <= |o.infos|
        invariant wbuf == if batchStart then old(wbuf) else Concat(o.infos[..i])
        modifies this`wbuf
      {
        AddResponseInfo(o.infos[i]);
        assert batchStart ==> old(wbuf) + "" == old(wbuf);
        assert o.infos[..i + 1][..i] == o.infos[..i];
        i := i + 1;
      }
      assert o.infos[..i] == o.infos;
      SendResponse(o.ok, o.message);
    }

    /** `batch_start` */
    method BatchStart()
      requires !batchStart && wbuf == ""
      modifies this
      ensures batchStart && batchCmd == 0 && wbuf == ""
      ensures sent == old(sent) + (Printed(0) + " " + (GO_AHEAD + "\n"))
    {
      CountNone();
      SendResponse(true, GO_AHEAD + "\n");
      assert sent == old(sent) + (Printed(0) + " " + (GO_AHEAD + "\n")) + "";
      batchStart := true;
      batchCmd := 0;
    }

    /** `batch_done` */
    method BatchDone()
      requires batchStart
      modifies this
      ensures !batchStart && wbuf == ""
      ensures sent == old(sent) + (Printed(|Lines(old(wbuf))|) + " " + "errors\n") + old(wbuf)
    {
      batchStart := false;
      batchCmd := 0;
      SendResponse(true, "errors\n");
    }

    /** The three checks of `handle_request`: a line that fails one is answered at once. */
    method Refuse(l: Line) returns (refused: bool)
      requires !l.Unparsable? && (!batchStart ==> wbuf == "")
      modifies this`wbuf, this`sent
      ensures refused <==> l.Unknown? || !l.permitted || !InContext(l.name, batchStart)
      ensures !refused ==> wbuf == old(wbuf) && sent == old(sent)
      ensures refused && batchStart ==>
                && sent == old(sent) && !Answer(l, true).ok
                && wbuf == old(wbuf) + (Decimal(batchCmd) + " " + Answer(l, true).message)
      ensures refused && !batchStart ==>
                && wbuf == "" && !Answer(l, false).ok
                && sent == old(sent) + (Printed(-1) + " " + Answer(l, false).message)
    {
      hide Lines, Printed, Decimal, Concat;
      if l.Unknown? {
        Complain("Unknown command: " + l.typed + "\n");
      } else if !l.permitted {
        Complain("Permission denied.\n");
      } else if !InContext(l.name, batchStart) {
        Complain("Can't use '" + l.typed + "' here." + "\n");
      } else {
        return false;
      }
      refused := true;
    }

    method Complain(message: string)
      requires !batchStart ==> wbuf == ""
      modifies this`wbuf, this`sent
      ensures batchStart ==> sent == old(sent) && wbuf == old(wbuf) + (Decimal(batchCmd) + " " + message)
      ensures !batchStart ==> wbuf == "" && sent == old(sent) + (Printed(-1) + " " + message)
    {
      hide Lines, Printed, Decimal;
      SendResponse(false, message);
      assert old(sent) + (Printed(-1) + " " + message) + "" == old(sent) + (Printed(-1) + " " + message);
    }

    /** One received line: nothing but the replies due is sent. */
    method HandleRequest(l: Line, ghost m: Mode) returns (status: int)
      requires Holds(m) && GoodMode(m) && GoodLine(l)
      modifies this
      ensures status != 0 <==> Closes(l, m.Batching?)
      ensures status == 0 ==> Holds(NextMode(m, l)) && sent == old(sent) + EncodeAll(Replies(m, l))
      ensures status != 0 ==> sent == old(sent)
    {
      hide Lines, Printed, Decimal, Joined, Concat, Encode, EncodeAll, GoodLine, GoodMode, Replies, Answer, Report;
      if l.Unparsable? {
        return -1;
      }
      if batchStart {
        batchCmd := batchCmd + 1;
      }
      RepliesEncoded(m, l);
      RefusalFinal(l, m.Batching?);
      var refused := Refuse(l);
      if refused {
        return 0;
      }
      AnswerIs(l, m.Batching?);
      if l.name.Quit? || (l.name.Update? && l.aborts) {
        return -1;
      } else if l.name.Batch? {
        BatchStart();
      } else if l.name.Dot? {
        BatchDone();
      } else {
        Reply(l.outcome);
      }
      status := 0;
    }

    /** Lines until the connection is closed. */
    method Session(lines: seq<Line>)
      requires Holds(Single) && sent == ""
      requires forall i :: 0 <= i < |lines| ==> GoodLine(lines[i])
      modifies this
      ensures sent == EncodeAll(Transcript(Single, lines))
    {
      hide EncodeAll, Replies, NextMode, GoodLine, Closes, Holds;
      ghost var m, replies: seq<Response> := Single, [];
      NoReplies();
      var i := 0;
      assert lines[0..] == lines;
      while i < |lines|
        invariant 0 <= i <= |lines|
        invariant Holds(m) && GoodMode(m)
        invariant sent == EncodeAll(replies)
        invariant Transcript(Single, lines) == replies + Transcript(m, lines[i..])
      {
        assert lines[i..][0] == lines[i] && lines[i..][1..] == lines[i + 1..];
        var status := HandleRequest(lines[i], m);
        if status != 0 {
          assert replies + [] == replies;
          return;
        }
        RepliesInStep(m, lines[i]);
        EncodeMore(replies, Replies(m, lines[i]));
        Assoc(replies, Replies(m, lines[i]), Transcript(NextMode(m, lines[i]), lines[i + 1..]));
        replies := replies + Replies(m, lines[i]);
        m := NextMode(m, lines[i]);
        i := i + 1;
      }
      assert replies + [] == replies;
    }
  }

  /** Everything sent on a connection, line by line until it is closed. */
  function Transcript(m: Mode, lines: seq<Line>): seq<Response>
    decreases |lines|
  {
    if lines == [] || Closes(lines[0], m.Batching?) then []
    else Replies(m, lines[0]) + Transcript(NextMode(m, lines[0]), lines[1..])
  }

  lemma AnswerIs(l: Line, batch: bool)
    requires l.Command? && l.permitted && InContext(l.name, batch)
    ensures Answer(l, batch) == l.outcome
  {
  }

  lemma RefusalFinal(l: Line, batch: bool)
    requires !l.Unparsable?
    ensures l.Unknown? || !l.permitted || !InContext(l.name, batch) ==>
      Answer(l, batch).infos == [] && !Answer(l, batch).ok && !Closes(l, batch)
  {
  }

  lemma CountNone()
    ensures |Lines("")| == 0
  {
  }

  lemma NoReplies()
    ensures EncodeAll([]) == ""
  {
  }

  lemma {:induction false} EncodeMore(a: seq<Response>, b: seq<Response>)
    ensures EncodeAll(a + b) == EncodeAll(a) + EncodeAll(b)
  {
    hide Encode;
    if a == [] {
      assert a + b == b;
      assert "" + EncodeAll(b) == EncodeAll(b);
    } else {
      EncodeMore(a[1..], b);
      assert (a + b)[1..] == a[1..] + b;
      Assoc(Encode(a[0]), EncodeAll(a[1..]), EncodeAll(b));
    }
  }

  lemma EncodeOne(r: Response)
    ensures EncodeAll([r]) == Encode(r)
  {
    assert EncodeAll([r][1..]) == "";
    assert Encode(r) + "" == Encode(r);
  }

  /** A status line with the message as given, then the lines. */
  lemma EncodeMessage(status: int, message: string, text: string)
    requires OneLine(message) && WholeLines(text)
    ensures EncodeAll([Response(status, Trimmed(message), Lines(text))])
            == Printed(status) + " " + message + text
    ensures EncodeAll([Response(status, Trimmed(message), [])]) == Printed(status) + " " + message
  {
    hide Lines, Printed, Joined, EncodeAll, NoNewline;
    var head := Printed(status) + " ";
    EncodeOne(Response(status, Trimmed(message), Lines(text)));
    EncodeOne(Response(status, Trimmed(message), []));
    LinesOfWhole(text);
    NoLines();
    assert Trimmed(message) + "\n" == message;
    Assoc(head, Trimmed(message), "\n");
    assert head + message + "" == head + message;
  }

  /** The replies and the report buffer as the text the code builds. */
  lemma RepliesEncoded(m: Mode, l: Line)
    requires GoodMode(m) && GoodLine(l) && !l.Unparsable?
    ensures m.Single? && !Closes(l, false) ==>
              if Reaches(l, Batch, false) then
                EncodeAll(Replies(m, l)) == Printed(0) + " " + (GO_AHEAD + "\n")
              else
                var o := Answer(l, false);
                EncodeAll(Replies(m, l)) ==
                  (Printed(if o.ok then |Lines(Concat(o.infos))| else -1) + " " + o.message)
                  + (if o.ok then Concat(o.infos) else "")
    ensures m.Batching? && !Closes(l, true) ==>
              if Reaches(l, Dot, true) then
                EncodeAll(Replies(m, l)) ==
                  (Printed(|Lines(Joined(m.errors))|) + " " + "errors\n") + Joined(m.errors)
              else
                var o := Answer(l, true);
                && EncodeAll(Replies(m, l)) == ""
                && Joined(NextMode(m, l).errors) ==
                   Joined(m.errors) + if o.ok then "" else Decimal(m.count + 1) + " " + o.message
    ensures Joined([]) == ""
  {
    hide Lines, Printed, Joined, Concat, EncodeAll, NoNewline, Decimal, Trimmed, OneLine, Encode;
    NoLines();
    NoReplies();
    if m.Single? && !Closes(l, false) {
      if Reaches(l, Batch, false) {
        GoAheadGood();
        TrimmedIs(GO_AHEAD);
        EncodeMessage(0, GO_AHEAD + "\n", "");
        Assoc(Printed(0), " ", GO_AHEAD + "\n");
      } else {
        var o := Answer(l, false);
        AnswerGood(l, false);
        ConcatWhole(o.infos);
        EncodeMessage(if o.ok then |Lines(Concat(o.infos))| else -1, o.message, Concat(o.infos));
        assert Printed(-1) + " " + o.message + "" == Printed(-1) + " " + o.message;
      }
    }
    if m.Batching? && !Closes(l, true) {
      if Reaches(l, Dot, true) {
        GoAheadGood();
        TrimmedIs("errors");
        assert "errors" + "\n" == "errors\n";
        JoinedWhole(m.errors);
        LinesBack(m.errors);
        EncodeMessage(|m.errors|, "errors\n", Joined(m.errors));
      } else {
        var o := Answer(l, true);
        AnswerGood(l, true);
        JoinedReport(m.errors, m.count + 1, o.message);
        assert Joined(m.errors) + "" == Joined(m.errors);
      }
    }
  }

  lemma TrimmedIs(s: string)
    requires NoNewline(s)
    ensures Trimmed(s + "\n") == s && OneLine(s + "\n")
  {
    assert (s + "\n")[..|s|] == s;
  }

  lemma JoinedWhole(lines: seq<string>)
    ensures WholeLines(Joined(lines))
  {
  }

  lemma LinesBack(lines: seq<string>)
    requires NoNewlines(lines)
    ensures Lines(Joined(lines)) == lines
  {
    LinesOfJoined(lines, "");
    NoLines();
    assert Joined(lines) + "" == Joined(lines) && lines + [] == lines;
  }

  lemma JoinedReport(errors: seq<string>, number: nat, message: string)
    requires OneLine(message)
    ensures Joined(errors + [Report(number, message)]) == Joined(errors) + (Decimal(number) + " " + message)
  {
    hide Joined, Decimal;
    JoinedLast(errors, Report(number, message));
    var head := Decimal(number) + " ";
    assert Trimmed(message) + "\n" == message;
    Assoc(head, Trimmed(message), "\n");
    Assoc(Joined(errors), head + Trimmed(message), "\n");
  }

  // ---------------------------------------------------------------- staying in step over a whole connection

  function ReadAll(stream: string, n: nat): Option<(seq<Response>, string)>
    decreases n
  {
    if n == 0 then Some(([], stream))
    else
      match Read(stream)
      case None => None
      case Some((r, rest)) =>
        match ReadAll(rest, n - 1)
        case None => None
        case Some((more, left)) => Some(([r] + more, left))
  }

  function SeenAll(rs: seq<Response>): (r: seq<Response>)
    ensures |r| == |rs|
  {
    if rs == [] then [] else [Seen(rs[0])] + SeenAll(rs[1..])
  }

  lemma {:induction false} ReadsEach(rs: seq<Response>, rest: string)
    requires forall i :: 0 <= i < |rs| ==> InStep(rs[i])
    ensures ReadAll(EncodeAll(rs) + rest, |rs|) == Some((SeenAll(rs), rest))
  {
    hide Read, Encode, InStep, Seen;
    if rs == [] {
      assert "" + rest == rest;
    } else {
      ReadsEach(rs[1..], rest);
      Assoc(Encode(rs[0]), EncodeAll(rs[1..]), rest);
      ReadsOne(rs[0], EncodeAll(rs[1..]) + rest);
    }
  }

  lemma {:induction false} TranscriptInStep(m: Mode, lines: seq<Line>)
    requires GoodMode(m) && forall i :: 0 <= i < |lines| ==> GoodLine(lines[i])
    ensures forall i :: 0 <= i < |Transcript(m, lines)| ==> InStep(Transcript(m, lines)[i])
    decreases |lines|
  {
    hide Replies, NextMode, GoodLine, Closes, InStep, GoodMode;
    if lines != [] && !Closes(lines[0], m.Batching?) {
      RepliesInStep(m, lines[0]);
      TranscriptInStep(NextMode(m, lines[0]), lines[1..]);
    }
  }

  /** For every sequence of commands, batches included, reading response after response
      returns exactly the responses sent, in order, with nothing left over. */
  lemma ClientStaysInStep(lines: seq<Line>)
    requires forall i :: 0 <= i < |lines| ==> GoodLine(lines[i])
    ensures var sent := Transcript(Single, lines);
            ReadAll(EncodeAll(sent), |sent|) == Some((SeenAll(sent), ""))
  {
    var sent := Transcript(Single, lines);
    TranscriptInStep(Single, lines);
    ReadsEach(sent, "");
    assert EncodeAll(sent) + "" == EncodeAll(sent);
  }

  // ---------------------------------------------------------------- what a batch reports

  /** A line that a batch goes on after. */
  predicate InsideBatch(l: Line) {
    !Closes(l, true) && !Reaches(l, Dot, true)
  }

  predicate AllInside(body: seq<Line>) {
    forall i :: 0 <= i < |body| ==> InsideBatch(body[i])
  }

  predicate Fails(l: Line)
    requires InsideBatch(l)
  {
    !Answer(l, true).ok
  }

  /** The failing command numbers, counted from 1. */
  function Failing(body: seq<Line>): (n: seq<nat>)
    requires AllInside(body)
  {
    if body == [] then []
    else Failing(body[..|body| - 1]) + if Fails(body[|body| - 1]) then [|body|] else []
  }

  predicate FailsAt(body: seq<Line>, k: nat)
    requires AllInside(body)
  {
    1 <= k <= |body| && Fails(body[k - 1])
  }

  /** They are increasing, and they are the failing ones. */
  lemma {:induction false} FailingIs(body: seq<Line>)
    requires AllInside(body)
    ensures forall i :: 0 <= i < |Failing(body)| ==> 1 <= Failing(body)[i] <= |body|
    ensures forall i, j :: 0 <= i < j < |Failing(body)| ==> Failing(body)[i] < Failing(body)[j]
    ensures forall k: nat :: k in Failing(body) <==> FailsAt(body, k)
  {
    hide InsideBatch, Fails;
    if body != [] {
      var m := |body| - 1;
      FailingIs(body[..m]);
      forall k: nat
        ensures k in Failing(body) <==> FailsAt(body, k)
      {
        if 1 <= k <= m {
          assert body[..m][k - 1] == body[k - 1];
        }
        assert k in Failing(body[..m]) <==> FailsAt(body[..m], k);
      }
    }
  }

  /** The report lines, one per failing command. */
  function Reports(body: seq<Line>): seq<string>
    requires AllInside(body)
  {
    if body == [] then []
    else
      var l := body[|body| - 1];
      Reports(body[..|body| - 1]) + if Fails(l) then [Report(|body|, Answer(l, true).message)] else []
  }

  predicate ReportOn(body: seq<Line>, k: nat, report: string)
    requires AllInside(body)
  {
    1 <= k <= |body| && report == Report(k, Answer(body[k - 1], true).message)
  }

  /** Report `i` is about the `i`-th failing command, and starts with its number. */
  lemma {:induction false} ReportsAre(body: seq<Line>)
    requires AllInside(body)
    ensures |Reports(body)| == |Failing(body)|
    ensures forall i :: 0 <= i < |Failing(body)| ==> ReportOn(body, Failing(body)[i], Reports(body)[i])
  {
    hide InsideBatch, Fails, Report, Answer;
    if body != [] {
      var m := |body| - 1;
      var before, earlier := Failing(body[..m]), Reports(body[..m]);
      ReportsAre(body[..m]);
      forall i | 0 <= i < |Failing(body)|
        ensures ReportOn(body, Failing(body)[i], Reports(body)[i])
      {
        if i < |before| {
          assert ReportOn(body[..m], before[i], earlier[i]);
          assert body[..m][before[i] - 1] == body[before[i] - 1];
        }
      }
    }
  }

  /** The client reads back the number, and behind it the message, of a report line. */
  lemma ReportParses(number: nat, message: string)
    ensures StrToL(Chomp(Report(number, message))) == Some((number as int, " " + Chomp(Trimmed(message))))
  {
    hide StrToL, Decimal, Chomp;
    ChompBehind(Decimal(number) + " ", Trimmed(message));
    Assoc(Decimal(number), " ", Chomp(Trimmed(message)));
    StrToLDecimal(number, " " + Chomp(Trimmed(message)));
  }

  lemma {:induction false} ChompAllAt(lines: seq<string>, i: nat)
    requires i < |lines|
    ensures ChompAll(lines)[i] == Chomp(lines[i])
  {
    if i > 0 {
      ChompAllAt(lines[1..], i - 1);
    }
  }

  lemma InsideStep(count: nat, errors: seq<string>, l: Line)
    requires InsideBatch(l)
    ensures Replies(Batching(count, errors), l) == []
    ensures NextMode(Batching(count, errors), l)
            == Batching(count + 1, errors + if Fails(l) then [Report(count + 1, Answer(l, true).message)] else [])
  {
    assert errors + [] == errors;
  }

  /** Modes after a whole run of lines. */
  lemma {:induction false} BatchRuns(body: seq<Line>, n: nat, rest: seq<Line>)
    requires AllInside(body) && n <= |body|
    ensures Transcript(Batching(0, []), body[..n] + rest)
            == Transcript(Batching(n, Reports(body[..n])), rest)
    decreases n
  {
    hide Replies, NextMode, Answer, Report;
    if n == 0 {
      assert body[..0] + rest == rest;
    } else {
      var l := body[n - 1];
      BatchRuns(body, n - 1, [l] + rest);
      assert body[..n] + rest == body[..n - 1] + ([l] + rest);
      assert body[..n][..n - 1] == body[..n - 1];
      InsideStep(n - 1, Reports(body[..n - 1]), l);
      TranscriptNext(Batching(n - 1, Reports(body[..n - 1])), l, rest);
      assert [] + Transcript(Batching(n, Reports(body[..n])), rest)
        == Transcript(Batching(n, Reports(body[..n])), rest);
    }
  }

  lemma TranscriptNext(m: Mode, l: Line, rest: seq<Line>)
    requires !Closes(l, m.Batching?)
    ensures Transcript(m, [l] + rest) == Replies(m, l) + Transcript(NextMode(m, l), rest)
  {
    assert ([l] + rest)[1..] == rest;
  }

  /** A batch is answered once when it starts and once when it ends, with one report for
      every command that failed, in increasing command order. */
  lemma BatchReport(start: Line, body: seq<Line>, dot: Line, rest: seq<Line>)
    requires Reaches(start, Batch, false) && AllInside(body) && Reaches(dot, Dot, true)
    ensures Transcript(Single, [start] + body + [dot] + rest) ==
            [Response(0, GO_AHEAD, []), Response(|Failing(body)|, "errors", Reports(body))]
            + Transcript(Single, rest)
  {
    hide Replies, NextMode, Reports, Failing;
    var m := Batching(|body|, Reports(body));
    assert [start] + body + [dot] + rest == [start] + (body + ([dot] + rest));
    TranscriptNext(Single, start, body + ([dot] + rest));
    BatchEnds(start, m, dot);
    BatchRuns(body, |body|, [dot] + rest);
    assert body[..|body|] == body;
    ReportsAre(body);
    TranscriptNext(m, dot, rest);
    Assoc([Response(0, GO_AHEAD, [])], Replies(m, dot), Transcript(Single, rest));
  }

  /** What the client reads of a batch: after the two responses nothing else has been
      consumed, and from each line of the second it can tell the command that failed. */
  lemma BatchRead(start: Line, body: seq<Line>, dot: Line, more: string)
    requires Reaches(start, Batch, false) && AllInside(body) && Reaches(dot, Dot, true)
    requires GoodLine(start) && GoodLine(dot) && forall i :: 0 <= i < |body| ==> GoodLine(body[i])
    ensures var sent := Transcript(Single, [start] + body + [dot]);
      var read := ReadAll(EncodeAll(sent) + more, 2);
      && read.Some? && read.value.1 == more
      && read.value.0[1].status == |Failing(body)| == |read.value.0[1].lines|
      && forall i :: 0 <= i < |Failing(body)| ==>
           var number := StrToL(read.value.0[1].lines[i]);
           number.Some? && number.value.0 == Failing(body)[i]
  {
    hide Transcript, EncodeAll, ReadAll, InStep, GoodLine, StrToL, Reports, Failing, InsideBatch, Reaches, ReportOn;
    var lines := [start] + body + [dot];
    var sent := Transcript(Single, lines);
    BatchReport(start, body, dot, []);
    assert lines + [] == lines;
    NoLinesLeft();
    var first, second := Response(0, GO_AHEAD, []), Response(|Failing(body)|, "errors", Reports(body));
    assert sent == [first, second];
    TranscriptInStep(Single, lines);
    ReadsEach(sent, more);
    SeenTwo(first, second);
    ReportsAre(body);
    forall i | 0 <= i < |Failing(body)|
      ensures StrToL(ChompAll(Reports(body))[i]).Some?
      ensures StrToL(ChompAll(Reports(body))[i]).value.0 == Failing(body)[i]
    {
      ChompAllAt(Reports(body), i);
      ReportReads(body, Failing(body)[i], Reports(body)[i]);
    }
  }

  lemma NoLinesLeft()
    ensures Transcript(Single, []) == []
  {
  }

  lemma SeenTwo(a: Response, b: Response)
    ensures SeenAll([a, b]) == [Seen(a), Seen(b)]
  {
    assert [a, b][1..] == [b] && [b][1..] == [];
  }

  lemma ReportReads(body: seq<Line>, k: nat, report: string)
    requires AllInside(body) && ReportOn(body, k, report)
    ensures StrToL(Chomp(report)).Some? && StrToL(Chomp(report)).value.0 == k
  {
    ReportParses(k, Answer(body[k - 1], true).message);
  }

  lemma BatchEnds(start: Line, m: Mode, dot: Line)
    requires Reaches(start, Batch, false) && m.Batching? && Reaches(dot, Dot, true)
    ensures Replies(Single, start) == [Response(0, GO_AHEAD, [])] && NextMode(Single, start) == Batching(0, [])
    ensures Replies(m, dot) == [Response(|m.errors|, "errors", m.errors)] && NextMode(m, dot) == Single
  {
  }
}
