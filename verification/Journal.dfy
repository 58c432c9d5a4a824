/** The journal as the text it is on disk, which `fgets` reads back in pieces and which a
    crash may cut off anywhere, and the records that a run of the daemon writes. */
module Journal {
  import opened LineText
  import opened Text
  import opened Wire
  import opened Framing
  import opened CacheModel
  import opened Restart
  import opened Daemon

  // ---------------------------------------------------------------- reading the text

  /** How many bytes `fgets (entry, CMD_MAX, fh)` reads of what is left of a file. */
  function PieceSize(text: string): (n: nat)
    requires text != ""
    ensures 1 <= n <= |text| && n < CMD_MAX
  {
    var n := LineEnd(text);
    if n < |text| && n + 1 < CMD_MAX then n + 1
    else if |text| < CMD_MAX then |text|
    else CMD_MAX - 1
  }

  /** The entries replayed of a text: its pieces that end in a newline, without it. */
  function Entries(text: string): seq<string>
    decreases |text|
  {
    if text == "" then []
    else
      var n := PieceSize(text);
      (if text[n - 1] == '\n' then [text[..n - 1]] else []) + Entries(text[n..])
  }

  /** `journal_replay` on one of the journal's files; `c0` is what the files before it,
      with the entries `before`, have been replayed to. */
  method JournalReplay(cfg: Config, text: string, c0: Cache, ghost before: seq<string>, at: nat, now: int,
                       jit: nat -> int)
    returns (c: Cache)
    requires c0 == Replay(cfg, before, now, jit) && at == |before|
    ensures c == Replay(cfg, before + Entries(text), now, jit)
  {
    hide LineEnd, ReplayLine, PieceSize, Entries;
    c := c0;
    var rest, line := text, at;
    ghost var done := before;
    while rest != ""
      invariant |done| == line && done + Entries(rest) == before + Entries(text)
      invariant c == Replay(cfg, done, now, jit)
      decreases |rest|
    {
      EntriesNext(rest);
      var n := PieceSize(rest);
      var entry := rest[..n];
      rest := rest[n..];
      if entry[n - 1] != '\n' {
        // a line cut off by a crash, or too long
        continue;
      }
      Assoc(done, [entry[..n - 1]], Entries(rest));
      assert (done + [entry[..n - 1]])[..line] == done;
      c := ReplayLine(c, cfg, entry[..n - 1], now, jit(line));
      done, line := done + [entry[..n - 1]], line + 1;
    }
    NoEntries("");
    assert done + [] == done;
  }

  lemma EntriesNext(text: string)
    requires text != ""
    ensures var n := PieceSize(text);
      Entries(text) == if text[n - 1] == '\n' then [text[..n][..n - 1]] + Entries(text[n..]) else Entries(text[n..])
  {
    var n := PieceSize(text);
    assert text[..n][..n - 1] == text[..n - 1];
    assert [] + Entries(text[n..]) == Entries(text[n..]);
  }

  // ---------------------------------------------------------------- what the entries are

  lemma {:induction false} NoEntries(part: string)
    requires NoNewline(part)
    ensures Entries(part) == []
    decreases |part|
  {
    if part != "" {
      var n := PieceSize(part);
      assert part[n - 1] != '\n';
      NoEntries(part[n..]);
    }
  }

  /** What is read as an entry of a line: all of it, or what is left behind its last whole
      piece. */
  function Tail(line: string): string {
    if |line| < CMD_MAX - 1 then line else Tail(line[CMD_MAX - 1..])
  }

  lemma TailShort(line: string)
    ensures |Tail(line)| < CMD_MAX - 1
    ensures Tail(line) == line <==> |line| <= CMD_MAX - 2
  {
  }

  function Tails(lines: seq<string>): (r: seq<string>)
    ensures |r| == |lines|
  {
    seq(|lines|, i requires 0 <= i < |lines| => Tail(lines[i]))
  }

  lemma {:induction false} EntriesFirst(line: string, rest: string)
    requires NoNewline(line)
    ensures Entries(line + "\n" + rest) == [Tail(line)] + Entries(rest)
    decreases |line|
  {
    hide LineEnd;
    var text := line + "\n" + rest;
    LineEndIs(line, rest);
    if |line| < CMD_MAX - 1 {
      assert PieceSize(text) == |line| + 1 && text[|line|] == '\n';
      assert text[..|line|] == line && text[|line| + 1..] == rest;
    } else {
      var n := CMD_MAX - 1;
      assert PieceSize(text) == n && text[n - 1] == line[n - 1] != '\n';
      assert text[n..] == line[n..] + "\n" + rest;
      EntriesFirst(line[n..], rest);
      assert [] + Entries(text[n..]) == Entries(text[n..]);
    }
  }

  /** The text of some lines, and then more: one entry for each line. */
  lemma {:induction false} EntriesOfJoined(lines: seq<string>, rest: string)
    requires NoNewlines(lines)
    ensures Entries(Joined(lines) + rest) == Tails(lines) + Entries(rest)
  {
    hide Entries, Joined, NoNewline, Tail;
    if lines == [] {
      NoLines();
      assert "" + rest == rest;
      assert Tails(lines) + Entries(rest) == Entries(rest);
    } else {
      EntriesOfJoined(lines[1..], rest);
      assert lines == [lines[0]] + lines[1..];
      JoinedFirst(lines[0], lines[1..]);
      Assoc(lines[0] + "\n", Joined(lines[1..]), rest);
      EntriesFirst(lines[0], Joined(lines[1..]) + rest);
      assert Tails(lines) == [Tail(lines[0])] + Tails(lines[1..]);
      Assoc([Tail(lines[0])], Tails(lines[1..]), Entries(rest));
    }
  }

  predicate AllShort(lines: seq<string>) {
    forall i :: 0 <= i < |lines| ==> |lines[i]| <= CMD_MAX - 2
  }

  lemma TailsShort(lines: seq<string>)
    ensures Tails(lines) == lines <==> AllShort(lines)
  {
    forall i | 0 <= i < |lines|
      ensures Tails(lines)[i] == lines[i] <==> |lines[i]| <= CMD_MAX - 2
    {
      TailShort(lines[i]);
    }
    if Tails(lines) == lines {
      assert forall i :: 0 <= i < |lines| ==> Tails(lines)[i] == lines[i];
    }
  }

  /** The entries read are the lines written exactly when each line, with its newline and
      the NUL that `fgets` adds, fits the buffer. */
  lemma ReadBackExactly(lines: seq<string>)
    requires NoNewlines(lines)
    ensures Entries(Joined(lines)) == lines <==> AllShort(lines)
  {
    hide Entries, Joined, Tail, AllShort, NoNewlines;
    EntriesOfJoined(lines, "");
    NoEntries("");
    assert Joined(lines) + "" == Joined(lines) && Tails(lines) + [] == Tails(lines);
    TailsShort(lines);
  }

  // ---------------------------------------------------------------- cutting the text

  lemma JoinedAll(line: string, lines: seq<string>)
    ensures |Joined([line] + lines)| == |line| + 1 + |Joined(lines)|
    ensures Joined([line] + lines) == line + "\n" + Joined(lines)
  {
    JoinedFirst(line, lines);
  }

  /** However much of the text of some lines is there, the entries in it are those of the
      first lines, as many as fit. */
  lemma {:induction false} CutLines(lines: seq<string>, n: nat) returns (k: nat)
    requires NoNewlines(lines) && n <= |Joined(lines)|
    ensures k <= |lines| && Entries(Joined(lines)[..n]) == Tails(lines[..k])
    ensures |Joined(lines[..k])| <= n && (k < |lines| ==> n < |Joined(lines[..k + 1])|)
    decreases |lines|
  {
    hide Entries, Joined, LineEnd, NoNewline, Tail;
    NoLines();
    NoEntries("");
    if lines == [] {
      k := 0;
      assert Joined(lines)[..n] == "";
    } else {
      var line, rest := lines[0], lines[1..];
      assert lines == [line] + rest;
      JoinedAll(line, rest);
      if n <= |line| {
        k := 0;
        CutShort(line, Joined(rest), n);
        JoinedAll(line, []);
        assert lines[..1] == [line] + [];
      } else {
        var m := n - |line| - 1;
        var j := CutLines(rest, m);
        k := j + 1;
        assert Joined(lines)[..n] == line + "\n" + Joined(rest)[..m];
        EntriesFirst(line, Joined(rest)[..m]);
        assert lines[..k] == [line] + rest[..j];
        assert Tails(lines[..k]) == [Tail(line)] + Tails(rest[..j]);
        JoinedAll(line, rest[..j]);
        if k < |lines| {
          assert lines[..k + 1] == [line] + rest[..j + 1];
          JoinedAll(line, rest[..j + 1]);
        }
      }
    }
  }

  lemma CutShort(line: string, rest: string, n: nat)
    requires NoNewline(line) && n <= |line|
    ensures Entries((line + "\n" + rest)[..n]) == []
  {
    var cut := (line + "\n" + rest)[..n];
    assert cut == line[..n];
    NoEntries(cut);
  }

  // ---------------------------------------------------------------- writing a record

  datatype Saved = Overrun | Request(text: string)

  /** `strncpy (orig_buf, buffer, buffer_size)`, which keeps a request for the journal
      before it is decoded in place. The model stops where the code would leave its
      buffer. */
  method SaveRequest(args: string) returns (r: Saved)
    requires NUL !in args
    ensures r == if |args| < CMD_MAX then Request(args) else Overrun
  {
    var buffer := args + [NUL];
    var orig := new char[CMD_MAX];
    var i := 0;
    while i < |buffer|
      invariant i <= |buffer| && i <= orig.Length && forall k :: 0 <= k < i ==> orig[k] == buffer[k]
    {
      if i >= orig.Length {
        return Overrun;
      }
      orig[i] := buffer[i];
      i := i + 1;
    }
    r := Request(orig[..|args|]);
    assert r.text == args;
  }

  /** The read buffer lets lines through whose copy overruns: an UPDATE that is served and
      copied outside the buffer is one of 4096 to 8184 bytes. */
  lemma OverrunServed(args: string)
    requires Clean(args) && DropCr(args) == args
    ensures Commands("update " + args + "\n") == ["update " + args]
    ensures LinesFit("update " + args + "\n") && |args| >= CMD_MAX <==> 4096 <= |args| <= 8184
  {
    hide LinesFit, Commands, DropCr;
    var line := "update " + args;
    assert NoNewline(line);
    OneLineFits(line);
    NoCr(args);
  }

  lemma NoCr(args: string)
    requires DropCr(args) == args
    ensures DropCr("update " + args) == "update " + args
  {
    var line := "update " + args;
    assert args != "" ==> line[|line| - 1] == args[|args| - 1];
  }

  /** The longest text of an UPDATE whose record is read back. */
  const ARGS_MAX := CMD_MAX - 2 - |"update "|

  lemma UpdateRecordReadBack(args: string)
    requires NoNewline(args)
    ensures Entries(Joined(["update " + args])) == ["update " + args] <==> |args| <= 4087
  {
    hide Entries, Joined;
    var lines := ["update " + args];
    assert lines[0] == "update " + args && NoNewline("update " + args);
    ReadBackExactly(lines);
  }

  // ---------------------------------------------------------------- the records of a run

  /** The records that this daemon has written. */
  function Written(boot: Boot, s: State): seq<string> {
    if |boot.journal| <= |s.journal| then s.journal[|boot.journal|..] else []
  }

  /** No name in the daemon's memory and no record holds a newline. */
  ghost predicate Printable(s: State) {
    && (forall f :: f in s.cache.items ==> NoNewline(f))
    && (forall i :: 0 <= i < |s.flights| ==> NoNewline(s.flights[i].file))
    && (forall f :: f in s.forgetting ==> NoNewline(f))
    && NoNewlines(s.journal)
  }

  /** A decoded field has only characters of the request. */
  lemma {:induction false} FieldIsClean(s: string)
    requires NoNewline(s)
    ensures GetField(s).Field? ==> NoNewline(GetField(s).text) && NoNewline(GetField(s).rest)
    decreases |s|
  {
    if s != "" && s[0] != ' ' && s[0] != NUL {
      if s[0] != '\\' {
        FieldIsClean(s[1..]);
      } else if |s| > 1 {
        FieldIsClean(s[2..]);
      }
    }
  }

  lemma StepPrintable(cfg: Config, s: State, a: Action)
    requires Printable(s) && CacheOk(s.cache) && Enabled(cfg, s, a)
    ensures Printable(Step(cfg, s, a))
  {
    hide GetField, Accept, DueOnes, Without;
    match a
    case UpdateCmd(args, now, jit) =>
      FieldIsClean(args + [NUL]);
      assert NoNewline("update " + args);
    case FlushCmd(args) =>
    case ForgetCmd(args) => FieldIsClean(args + [NUL]);
    case RecordForget(file) => assert NoNewline("forget " + file);
    case TakeBatch(thread, jit) => assert s.cache.queue[0] in s.cache.queue;
    case RecordWrote(i) => assert NoNewline("wrote " + s.flights[i].file);
    case _ =>
  }

  lemma {:induction false} RunPrintable(cfg: Config, boot: Boot, run: seq<Action>)
    requires NoNewlines(boot.journal)
    ensures var e := Exec(cfg, boot, run); e.Some? ==> Printable(e.value)
  {
    hide Step, Enabled, Printable;
    if run != [] {
      var n := |run| - 1;
      RunPrintable(cfg, boot, run[..n]);
      RunInv(cfg, boot, run[..n]);
      var e := Exec(cfg, boot, run[..n]);
      if e.Some? && Enabled(cfg, e.value, run[n]) {
        StepPrintable(cfg, e.value, run[n]);
      }
    } else {
      StartPrintable(cfg, boot);
    }
  }

  predicate CleanNames(c: Cache) {
    forall f :: f in c.items ==> NoNewline(f)
  }

  lemma LineClean(c: Cache, cfg: Config, line: string, now: int, jit: int)
    requires CleanNames(c) && NoNewline(line)
    ensures CleanNames(ReplayLine(c, cfg, line, now, jit))
  {
    hide GetField, Accept, Without, Upper;
    FieldIsClean(line + [NUL]);
    var r := GetField(line + [NUL]);
    if r.Field? {
      FieldIsClean(r.rest);
    }
  }

  lemma {:induction false} ReplayClean(cfg: Config, lines: seq<string>, now: int, jit: nat -> int)
    requires NoNewlines(lines)
    ensures CleanNames(Replay(cfg, lines, now, jit))
  {
    if lines != [] {
      var n := |lines| - 1;
      ReplayClean(cfg, lines[..n], now, jit);
      LineClean(Replay(cfg, lines[..n], now, jit), cfg, lines[n], now, jit(n));
    }
  }

  lemma StartPrintable(cfg: Config, boot: Boot)
    requires NoNewlines(boot.journal)
    ensures Printable(Initial(cfg, boot))
  {
    hide Replay, Settled;
    ReplayClean(cfg, boot.journal, boot.clock, Drawn(cfg, boot.random));
  }

  lemma JournalGrows(cfg: Config, s: State, a: Action)
    requires Enabled(cfg, s, a)
    ensures var s' := Step(cfg, s, a);
      s'.journal == s.journal || (|s'.journal| == |s.journal| + 1 && s'.journal[..|s.journal|] == s.journal)
  {
  }

  // ---------------------------------------------------------------- reading a run back

  /** Every UPDATE that is recorded is short enough to be read back. */
  predicate ShortRun(cfg: Config, boot: Boot, run: seq<Action>) {
    if run == [] then true
    else
      var n := |run| - 1;
      && ShortRun(cfg, boot, run[..n])
      && (match Exec(cfg, boot, run[..n])
          case None => true
          case Some(s) => ShortUpdate(cfg, s, run[n]))
  }

  predicate ShortUpdate(cfg: Config, s: State, a: Action) {
    a.UpdateCmd? && UpdateTarget(s.cache, cfg, a.args + [NUL]).Some? ==> |a.args| <= ARGS_MAX
  }

  /** The entries that a daemon finds are those read from the journals of an earlier one. */
  predicate Found(boot: Boot) {
    NoNewlines(boot.journal) && AllShort(boot.journal)
  }

  lemma {:induction false} EntriesFound(text: string)
    ensures NoNewlines(Entries(text)) && AllShort(Entries(text))
    decreases |text|
  {
    hide LineEnd;
    if text != "" {
      var n := PieceSize(text);
      PieceIsLine(text);
      EntriesFound(text[n..]);
    }
  }

  lemma PieceIsLine(text: string)
    requires text != ""
    ensures NoNewline(text[..PieceSize(text) - 1])
  {
    var n := PieceSize(text);
    forall i | 0 <= i < n - 1
      ensures text[i] != '\n'
    {
      assert text[i] == text[..LineEnd(text)][i];
    }
  }

  /** No name in the daemon's memory makes a record too long, and no record is. */
  ghost predicate Brief(s: State) {
    && BriefNames(s.cache)
    && (forall i :: 0 <= i < |s.flights| ==> |s.flights[i].file| <= ARGS_MAX)
    && (forall f :: f in s.forgetting ==> |f| <= ARGS_MAX)
    && AllShort(s.journal)
  }

  predicate BriefNames(c: Cache) {
    forall f :: f in c.items ==> |f| <= ARGS_MAX
  }

  lemma StepBrief(cfg: Config, s: State, a: Action)
    requires Brief(s) && CacheOk(s.cache) && Enabled(cfg, s, a) && ShortUpdate(cfg, s, a)
    ensures Brief(Step(cfg, s, a))
  {
    hide GetField, Accept, DueOnes, Without;
    match a
    case TakeBatch(thread, jit) => assert s.cache.queue[0] in s.cache.queue;
    case _ =>
  }

  lemma LineBrief(c: Cache, cfg: Config, line: string, now: int, jit: int)
    requires BriefNames(c) && |line| <= CMD_MAX - 2
    ensures BriefNames(ReplayLine(c, cfg, line, now, jit))
  {
    hide Accept, Without;
  }

  lemma {:induction false} ReplayBrief(cfg: Config, lines: seq<string>, now: int, jit: nat -> int)
    requires AllShort(lines)
    ensures BriefNames(Replay(cfg, lines, now, jit))
  {
    if lines != [] {
      hide BriefNames, ReplayLine;
      var n := |lines| - 1;
      ReplayBrief(cfg, lines[..n], now, jit);
      LineBrief(Replay(cfg, lines[..n], now, jit), cfg, lines[n], now, jit(n));
    } else {
      NoNames();
    }
  }

  lemma NoNames()
    ensures BriefNames(Cache(map[], []))
  {
  }

  lemma LongRecorded(cfg: Config, s: State, a: Action)
    requires Enabled(cfg, s, a) && !ShortUpdate(cfg, s, a)
    ensures !AllShort(Step(cfg, s, a).journal)
  {
    var journal := Step(cfg, s, a).journal;
    assert journal[|s.journal|] == "update " + a.args;
  }

  /** All records of a run are short exactly when the UPDATEs recorded are: names of files
      never make one too long. */
  lemma {:induction false} RunBrief(cfg: Config, boot: Boot, run: seq<Action>)
    requires AllShort(boot.journal)
    ensures var e := Exec(cfg, boot, run);
      e.Some? ==>
        && (AllShort(e.value.journal) <==> ShortRun(cfg, boot, run))
        && (ShortRun(cfg, boot, run) ==> Brief(e.value))
  {
    hide Step, Enabled, Brief, ShortUpdate;
    if run != [] {
      var n := |run| - 1;
      RunBrief(cfg, boot, run[..n]);
      RunInv(cfg, boot, run[..n]);
      var e := Exec(cfg, boot, run[..n]);
      if e.Some? && Enabled(cfg, e.value, run[n]) {
        var s' := Step(cfg, e.value, run[n]);
        JournalGrows(cfg, e.value, run[n]);
        assert forall i :: 0 <= i < |e.value.journal| ==> e.value.journal[i] == s'.journal[i];
        if ShortRun(cfg, boot, run[..n]) {
          if ShortUpdate(cfg, e.value, run[n]) {
            StepBrief(cfg, e.value, run[n]);
            BriefJournal(s');
          } else {
            LongRecorded(cfg, e.value, run[n]);
          }
        }
      }
    } else {
      StartBrief(cfg, boot);
    }
  }

  lemma BriefJournal(s: State)
    requires Brief(s)
    ensures AllShort(s.journal)
  {
  }

  lemma StartBrief(cfg: Config, boot: Boot)
    requires AllShort(boot.journal)
    ensures Brief(Initial(cfg, boot)) && Initial(cfg, boot).journal == boot.journal
  {
    hide Replay, Settled;
    ReplayBrief(cfg, boot.journal, boot.clock, Drawn(cfg, boot.random));
  }

  lemma {:induction false} JournalKept(cfg: Config, boot: Boot, run: seq<Action>)
    ensures var e := Exec(cfg, boot, run); e.Some? ==> boot.journal <= e.value.journal
  {
    hide Step, Enabled;
    if run != [] {
      var n := |run| - 1;
      JournalKept(cfg, boot, run[..n]);
      var e := Exec(cfg, boot, run[..n]);
      if e.Some? && Enabled(cfg, e.value, run[n]) {
        JournalGrows(cfg, e.value, run[n]);
        var s' := Step(cfg, e.value, run[n]);
        assert s'.journal[..|boot.journal|] == e.value.journal[..|boot.journal|];
      }
    }
  }

  /** The journal of a run reads back as the records written exactly when every UPDATE
      that was recorded is short enough. */
  lemma RunReadBack(cfg: Config, boot: Boot, run: seq<Action>)
    requires Found(boot) && Exec(cfg, boot, run).Some?
    ensures var records := Written(boot, Exec(cfg, boot, run).value);
      && Exec(cfg, boot, run).value.journal == boot.journal + records && NoNewlines(records)
      && (AllShort(records) <==> ShortRun(cfg, boot, run))
      && (Entries(Joined(records)) == records <==> ShortRun(cfg, boot, run))
  {
    hide Exec, ShortRun, Entries, Joined;
    var s := Exec(cfg, boot, run).value;
    RunPrintable(cfg, boot, run);
    RunBrief(cfg, boot, run);
    JournalKept(cfg, boot, run);
    var records := Written(boot, s);
    assert s.journal == boot.journal + records;
    assert forall i :: 0 <= i < |records| ==> records[i] == s.journal[|boot.journal| + i];
    assert forall i :: 0 <= i < |boot.journal| ==> boot.journal[i] == s.journal[i];
    ReadBackExactly(records);
  }
}
