/** Text as newline-terminated lines: the client's stream, the responses to it, and the
    journal. */
module LineText {
  import opened Text

  predicate NoNewline(s: string) {
    forall i :: 0 <= i < |s| ==> s[i] != '\n'
  }

  predicate NoNewlines(lines: seq<string>) {
    forall i :: 0 <= i < |lines| ==> NoNewline(lines[i])
  }

  /** Text made of complete lines. */
  predicate WholeLines(s: string) {
    s == "" || s[|s| - 1] == '\n'
  }

  function Joined(lines: seq<string>): string {
    if lines == [] then "" else Joined(lines[..|lines| - 1]) + lines[|lines| - 1] + "\n"
  }

  /** `strchr(s, '\n')`: where the first newline is, or the length. */
  function LineEnd(s: string): (n: nat)
    ensures n <= |s| && NoNewline(s[..n]) && (n < |s| ==> s[n] == '\n')
  {
    if s == "" || s[0] == '\n' then 0
    else
      assert s[..1 + LineEnd(s[1..])] == [s[0]] + s[1..][..LineEnd(s[1..])];
      1 + LineEnd(s[1..])
  }

  function Lines(s: string): seq<string> {
    var n := LineEnd(s);
    if n == |s| then [] else [s[..n]] + Lines(s[n + 1..])
  }

  lemma {:induction false} LineEndIs(line: string, rest: string)
    requires NoNewline(line)
    ensures LineEnd(line + "\n" + rest) == |line| && LineEnd(line) == |line|
  {
    var s := line + "\n" + rest;
    if line != "" {
      LineEndIs(line[1..], rest);
      assert s[1..] == line[1..] + "\n" + rest;
    }
  }

  lemma LinesFirst(line: string, rest: string)
    requires NoNewline(line)
    ensures Lines(line + "\n" + rest) == [line] + Lines(rest)
  {
    var s := line + "\n" + rest;
    LineEndIs(line, rest);
    assert s[..|line|] == line && s[|line| + 1..] == rest;
  }

  lemma {:induction false} JoinedFirst(line: string, lines: seq<string>)
    ensures Joined([line] + lines) == line + "\n" + Joined(lines)
  {
    if lines == [] {
      JoinedLast([], line);
      assert [line] + lines == [] + [line];
      assert line + "\n" + "" == line + "\n" == "" + line + "\n";
    } else {
      var n := |lines| - 1;
      JoinedFirst(line, lines[..n]);
      JoinedLast([line] + lines[..n], lines[n]);
      assert [line] + lines == ([line] + lines[..n]) + [lines[n]];
      Assoc(line + "\n", Joined(lines[..n]), lines[n]);
      Assoc(line + "\n", Joined(lines[..n]) + lines[n], "\n");
    }
  }

  lemma JoinedLast(lines: seq<string>, line: string)
    ensures Joined(lines + [line]) == Joined(lines) + line + "\n"
  {
    assert (lines + [line])[..|lines|] == lines;
  }

  lemma LastNewline(s: string)
    requires WholeLines(s) && s != ""
    ensures LineEnd(s) < |s|
  {
    var n := LineEnd(s);
    NoNewlineAt(s, n);
  }

  lemma NoNewlineAt(s: string, n: nat)
    requires n <= |s| && NoNewline(s[..n])
    ensures forall i :: 0 <= i < n ==> s[i] != '\n'
  {
    forall i | 0 <= i < n
      ensures s[i] != '\n'
    {
      assert s[i] == s[..n][i];
    }
  }

  lemma Cut(s: string, n: nat)
    requires n < |s|
    ensures s == s[..n] + [s[n]] + s[n + 1..]
  {
    assert s[..n] + [s[n]] == s[..n + 1];
  }

  lemma CutLine(s: string)
    requires LineEnd(s) < |s|
    ensures var n := LineEnd(s); s == s[..n] + "\n" + s[n + 1..] && (WholeLines(s) ==> WholeLines(s[n + 1..]))
  {
    hide LineEnd;
    Cut(s, LineEnd(s));
  }

  lemma {:induction false} LinesOfWhole(s: string)
    requires WholeLines(s)
    ensures Joined(Lines(s)) == s && NoNewlines(Lines(s))
  {
    hide LineEnd, Joined, WholeLines, NoNewline;
    if s == "" {
      NoLines();
    } else {
      var n := LineEnd(s);
      LastNewline(s);
      CutLine(s);
      LinesOfWhole(s[n + 1..]);
      JoinedFirst(s[..n], Lines(s[n + 1..]));
    }
  }

  lemma NoLines()
    ensures Lines("") == [] && Joined([]) == "" && LineEnd("") == 0
  {
  }

  lemma {:induction false} LinesOfJoined(lines: seq<string>, rest: string)
    requires NoNewlines(lines)
    ensures Lines(Joined(lines) + rest) == lines + Lines(rest)
  {
    hide Lines, Joined, NoNewline;
    if lines == [] {
      NoLines();
      assert "" + rest == rest;
      assert lines + Lines(rest) == Lines(rest);
    } else {
      LinesOfJoined(lines[1..], rest);
      assert lines == [lines[0]] + lines[1..];
      JoinedFirst(lines[0], lines[1..]);
      Assoc(lines[0] + "\n", Joined(lines[1..]), rest);
      LinesFirst(lines[0], Joined(lines[1..]) + rest);
      Assoc([lines[0]], lines[1..], Lines(rest));
    }
  }
}
