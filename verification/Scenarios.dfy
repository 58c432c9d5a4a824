/** Three short runs of the daemon that show what its design does not promise. */
module Scenarios {
  import opened Text
  import opened Wire
  import opened CacheModel
  import opened Restart
  import opened Daemon
  import opened LineText
  import opened Journal
  import opened Recovery
  import opened WriteOrder

  /** One file `f` exists, and two threads write. */
  const TWO_WRITERS: Config := Config(300, 3600, 0, {"f"}, 2, true)

  /** A first start at time 0, with no journal. */
  const FIRST_START: Boot := Boot(0, [], i => 0)

  const FIRST_VALUE: Action := UpdateCmd("f 1:1", 0, 0)
  const SECOND_VALUE: Action := UpdateCmd("f 2:2", 0, 0)
  const FLUSH_F: Action := FlushCmd("f")

  /** A second value arrives between the dequeue of the first and its "wrote" record. */
  const LATE_RUN: seq<Action> := [
    FIRST_VALUE, FLUSH_F, TakeBatch(0, 0), SECOND_VALUE, WriteBatch(0), RecordWrote(0)]

  /** Each of two threads takes a batch, and the second writes first. */
  const OVERTAKING_RUN: seq<Action> := [
    FIRST_VALUE, FLUSH_F, TakeBatch(0, 0), SECOND_VALUE, FLUSH_F, TakeBatch(1, 0), WriteBatch(1), WriteBatch(0)]

  // ---------------------------------------------------------------- small requests

  lemma SmallField(text: string, rest: string)
    requires ' ' !in text && '\\' !in text && NUL !in text
    ensures GetField(text + [NUL] + rest) == Field(text, rest)
    ensures GetField(text + " " + rest) == Field(text, rest)
  {
    PlainEscape(text);
    GetFieldEscape(text, NUL, rest);
    GetFieldEscape(text, ' ', rest);
  }

  lemma NothingLeft(stamp: int)
    ensures Accept("", stamp) == Accepted([], stamp, Complete)
  {
  }

  lemma AcceptOne(value: string, t: int, stamp: int)
    requires ' ' !in value && '\\' !in value && NUL !in value && Stamp(value) == Some(t) && stamp < t
    ensures Accept(value + [NUL], stamp) == Accepted([value], t, Complete)
  {
    hide GetField, Stamp;
    SmallField(value, "");
    assert value + [NUL] + "" == value + [NUL];
    NothingLeft(t);
    assert [value] + [] == [value];
  }

  lemma StampOf(digit: string, n: nat, rest: string)
    requires n < 10 && digit == Decimal(n)
    ensures Stamp(digit + ":" + rest) == Some(n as int)
  {
    hide StrToL;
    StrToLDecimal(n, ":" + rest);
    assert digit + (":" + rest) == digit + ":" + rest;
  }

  /** A small UPDATE of `f`: the file and its one value. */
  lemma SmallUpdate(c: Cache, value: string, t: int, stamp: int)
    requires ' ' !in value && '\\' !in value && NUL !in value && Stamp(value) == Some(t) && stamp < t
    ensures UpdateTarget(c, TWO_WRITERS, "f " + value + [NUL]) == Some(("f", value + [NUL]))
    ensures Accept(value + [NUL], stamp) == Accepted([value], t, Complete)
  {
    hide GetField, Stamp, Accept;
    SmallField("f", value + [NUL]);
    assert "f" + " " + (value + [NUL]) == "f " + value + [NUL];
    AcceptOne(value, t, stamp);
  }

  // ---------------------------------------------------------------- single steps

  /** The run has come to `s`, nothing is being forgotten, and no time has passed. */
  ghost predicate Reached(run: seq<Action>, s: State) {
    && Exec(TWO_WRITERS, FIRST_START, run) == Some(s) && DisciplinedRun(TWO_WRITERS, FIRST_START, run)
    && s.forgetting == {} && s.exited == {} && s.clock == 0 && s.phase == Running
  }

  lemma StepReached(run: seq<Action>, s: State, a: Action)
    requires Reached(run, s) && Enabled(TWO_WRITERS, s, a) && Disciplined(TWO_WRITERS, s, a)
    requires var s' := Step(TWO_WRITERS, s, a);
      s'.forgetting == {} && s'.exited == {} && s'.clock == 0 && s'.phase == Running
    ensures Reached(run + [a], Step(TWO_WRITERS, s, a))
  {
    hide Step, Enabled, Disciplined;
    assert (run + [a])[..|run|] == run;
  }

  lemma Begin()
    ensures var s := Initial(TWO_WRITERS, FIRST_START);
      Reached([], s) && s.cache == Cache(map[], []) && s.flights == [] && s.history.disk == []
  {
  }

  lemma UpdateF(run: seq<Action>, s: State, a: Action, item: Item, value: string, t: int) returns (s': State)
    requires Reached(run, s) && a == UpdateCmd("f " + value, 0, 0)
    requires (s.cache == Cache(map[], []) && item == Item([], 0, 0)) || s.cache == Cache(map["f" := item], [])
    requires item.values == [] && item.lastFlush == 0 && item.lastStamp < t
    requires ' ' !in value && '\\' !in value && NUL !in value && '\n' !in value && Stamp(value) == Some(t)
    requires |value| + 2 < CMD_MAX
    ensures s'.journal == s.journal + ["update " + ("f " + value)]
    ensures Reached(run + [a], s') && s'.cache == Cache(map["f" := Item([value], 0, t)], [])
    ensures s'.flights == s.flights && s'.history.disk == s.history.disk
  {
    hide GetField, Stamp, Accept, UpdateTarget, Reached;
    SmallUpdate(s.cache, value, t, item.lastStamp);
    assert [] + [value] == [value];
    ReachedIs(run, s);
    s' := Step(TWO_WRITERS, s, a);
    StepReached(run, s, a);
  }

  lemma ReachedBy(run: seq<Action>, s: State)
    requires Reached(run, s)
    ensures Exec(TWO_WRITERS, FIRST_START, run) == Some(s) && DisciplinedRun(TWO_WRITERS, FIRST_START, run)
  {
  }

  lemma ReachedIs(run: seq<Action>, s: State)
    requires Reached(run, s)
    ensures s.forgetting == {} && s.exited == {} && s.clock == 0 && s.phase == Running
  {
  }

  lemma FlushF(run: seq<Action>, s: State, item: Item) returns (s': State)
    requires Reached(run, s) && s.cache == Cache(map["f" := item], []) && item.values != []
    ensures Reached(run + [FLUSH_F], s') && s'.cache == Cache(map["f" := item], ["f"])
    ensures s'.flights == s.flights && s'.history.disk == s.history.disk
  {
    hide GetField, Reached;
    SmallField("f", "");
    assert "f" + [NUL] + "" == "f" + [NUL];
    assert ["f"] + [] == ["f"];
    ReachedIs(run, s);
    s' := Step(TWO_WRITERS, s, FLUSH_F);
    StepReached(run, s, FLUSH_F);
  }

  lemma TakeF(run: seq<Action>, s: State, item: Item, thread: nat) returns (s': State)
    requires Reached(run, s) && s.cache == Cache(map["f" := item], ["f"])
    requires thread == |s.flights| < 2 && forall i :: 0 <= i < |s.flights| ==> s.flights[i].thread == i
    ensures Reached(run + [TakeBatch(thread, 0)], s')
    ensures s'.cache == Cache(map["f" := Item([], 0, item.lastStamp)], [])
    ensures s'.flights == s.flights + [Flight(thread, "f", item.values, false, false, |s.history.dequeued|)]
    ensures s'.history.disk == s.history.disk && |s'.history.dequeued| == |s.history.dequeued| + 1
  {
    hide Reached;
    assert Without(["f"], "f") == Without(["f"][1..], "f");
    ReachedIs(run, s);
    s' := Step(TWO_WRITERS, s, TakeBatch(thread, 0));
    StepReached(run, s, TakeBatch(thread, 0));
  }

  lemma WriteF(run: seq<Action>, s: State, i: nat) returns (s': State)
    requires Reached(run, s) && i < |s.flights| && !s.flights[i].written
    ensures Reached(run + [WriteBatch(i)], s') && s'.cache == s.cache
    ensures s'.flights == s.flights[i := s.flights[i].(written := true)]
    ensures s'.history.disk == s.history.disk + [Write(s.flights[i].id, s.flights[i].file, s.flights[i].batch)]
  {
    hide Reached;
    ReachedIs(run, s);
    s' := Step(TWO_WRITERS, s, WriteBatch(i));
    StepReached(run, s, WriteBatch(i));
  }

  lemma RecordF(run: seq<Action>, s: State, item: Item, batch: seq<string>, id: nat) returns (s': State)
    requires Reached(run, s) && s.cache == Cache(map["f" := item], [])
    requires s.flights == [Flight(0, "f", batch, false, true, id)]
    ensures Reached(run + [RecordWrote(0)], s') && s'.cache == s.cache && s'.flights == []
    ensures Get(s'.history.lost, "f") == item.values
  {
    hide Reached;
    ReachedIs(run, s);
    s' := Step(TWO_WRITERS, s, RecordWrote(0));
    assert InFlight([], "f") + item.values == item.values;
    StepReached(run, s, RecordWrote(0));
  }

  lemma SmallStamps()
    ensures Stamp("1:1") == Some(1) && Stamp("2:2") == Some(2)
    ensures FIRST_VALUE == UpdateCmd("f " + "1:1", 0, 0) && SECOND_VALUE == UpdateCmd("f " + "2:2", 0, 0)
  {
    StampOf("1", 1, "1");
    StampOf("2", 2, "2");
    assert "1" + ":" + "1" == "1:1" && "2" + ":" + "2" == "2:2";
    assert "f " + "1:1" == "f 1:1" && "f " + "2:2" == "f 2:2";
  }

  /** The steps the two runs share: the first batch is taken, and a second value arrives. */
  lemma TakenThenUpdated() returns (run: seq<Action>, s: State)
    ensures run == [] + [FIRST_VALUE] + [FLUSH_F] + [TakeBatch(0, 0)] + [SECOND_VALUE]
    ensures Reached(run, s) && s.cache == Cache(map["f" := Item(["2:2"], 0, 2)], [])
    ensures s.flights == [Flight(0, "f", ["1:1"], false, false, s.flights[0].id)] && s.history.disk == []
  {
    hide Reached, Stamp, Initial;
    SmallStamps();
    Begin();
    var s0 := Initial(TWO_WRITERS, FIRST_START);
    var s1 := UpdateF([], s0, FIRST_VALUE, Item([], 0, 0), "1:1", 1);
    var s2 := FlushF([] + [FIRST_VALUE], s1, Item(["1:1"], 0, 1));
    var s3 := TakeF([] + [FIRST_VALUE] + [FLUSH_F], s2, Item(["1:1"], 0, 1), 0);
    run := [] + [FIRST_VALUE] + [FLUSH_F] + [TakeBatch(0, 0)];
    s := UpdateF(run, s3, SECOND_VALUE, Item([], 0, 1), "2:2", 2);
    run := run + [SECOND_VALUE];
  }

  // ---------------------------------------------------------------- the two runs

  /** Without `QuietRun` a value is lost to recovery: it is still pending, but the journal,
      where the "wrote" record comes after its UPDATE, replays to nothing. */
  lemma LateUpdateLost(now: int, jit: nat -> int)
    ensures DisciplinedRun(TWO_WRITERS, FIRST_START, LATE_RUN) && Exec(TWO_WRITERS, FIRST_START, LATE_RUN).Some?
    ensures var s := Exec(TWO_WRITERS, FIRST_START, LATE_RUN).value;
      var r := Replay(TWO_WRITERS, s.journal, now, jit);
      && "f" in s.cache.items && s.cache.items["f"].values == ["2:2"] && s.flights == []
      && "f" in r.items && r.items["f"].values == []
  {
    hide Exec, DisciplinedRun, Replay;
    var run, s4 := TakenThenUpdated();
    var s5 := WriteF(run, s4, 0);
    var s6 := RecordF(run + [WriteBatch(0)], s5, Item(["2:2"], 0, 2), ["1:1"], s4.flights[0].id);
    assert LATE_RUN == run + [WriteBatch(0)] + [RecordWrote(0)];
    RunLaw(TWO_WRITERS, FIRST_START, LATE_RUN, now, jit);
    LostIsGone(s6, Replay(TWO_WRITERS, s6.journal, now, jit), "f");
  }

  lemma LostIsGone(s: State, r: Cache, f: string)
    requires Law(s, r) && f in s.cache.items && s.flights == [] && Get(s.history.lost, f) == s.cache.items[f].values
    ensures f in r.items && r.items[f].values == []
  {
    assert FileLaw(s, r, f);
    var v := s.cache.items[f].values;
    assert |[] + v| == |v + r.items[f].values|;
  }

  /** With two writer threads the later batch can be on disk first. */
  lemma LaterBatchOvertakes()
    ensures Exec(TWO_WRITERS, FIRST_START, OVERTAKING_RUN).Some?
    ensures var h := Exec(TWO_WRITERS, FIRST_START, OVERTAKING_RUN).value.history;
      && |h.disk| == 2 && h.disk[0].values == ["2:2"] && h.disk[1].values == ["1:1"]
      && h.disk[0].file == h.disk[1].file == "f" && h.disk[1].id < h.disk[0].id
    ensures !TurnRun(TWO_WRITERS, FIRST_START, OVERTAKING_RUN, "f")
  {
    hide Exec, DisciplinedRun, TurnRun;
    var run, s4 := TakenThenUpdated();
    var s5 := FlushF(run, s4, Item(["2:2"], 0, 2));
    var s6 := TakeF(run + [FLUSH_F], s5, Item(["2:2"], 0, 2), 1);
    var s7 := WriteF(run + [FLUSH_F] + [TakeBatch(1, 0)], s6, 1);
    var s8 := WriteF(run + [FLUSH_F] + [TakeBatch(1, 0)] + [WriteBatch(1)], s7, 0);
    assert OVERTAKING_RUN == run + [FLUSH_F] + [TakeBatch(1, 0)] + [WriteBatch(1)] + [WriteBatch(0)];
    RunInv(TWO_WRITERS, FIRST_START, OVERTAKING_RUN);
    RunInv(TWO_WRITERS, FIRST_START, run + [FLUSH_F] + [TakeBatch(1, 0)]);
    var h := s8.history;
    InOrderExactly(TWO_WRITERS, FIRST_START, OVERTAKING_RUN, "f");
    assert Before(h.dequeued, h.disk[1].id, h.disk[0].id, "f");
    assert h.disk[..0] == [];
  }

  // ---------------------------------------------------------------- a long record

  function Ones(n: nat): (s: string)
    ensures |s| == n && forall i :: 0 <= i < n ==> s[i] == '1'
  {
    seq(n, i => '1')
  }

  /** The longest value that a client can send for `f`. */
  const LONG_VALUE: string := "1:" + Ones(4084)

  const LONG_UPDATE: Action := UpdateCmd("f " + LONG_VALUE, 0, 0)

  lemma LongStamp()
    ensures Stamp(LONG_VALUE) == Some(1)
    ensures ' ' !in LONG_VALUE && '\\' !in LONG_VALUE && NUL !in LONG_VALUE && NoNewline(LONG_VALUE)
  {
    StampOf("1", 1, Ones(4084));
    assert "1" + ":" + Ones(4084) == LONG_VALUE;
    assert forall i :: 0 <= i < |LONG_VALUE| ==> LONG_VALUE[i] == '1' || LONG_VALUE[i] == ':';
  }

  lemma LongEncoded()
    ensures |Encode(["update", "f", LONG_VALUE])| == REQUEST_MAX
  {
    hide Escape;
    LongStamp();
    PlainEscape("update");
    PlainEscape("f");
    PlainEscape(LONG_VALUE);
    var fields := ["update", "f", LONG_VALUE];
    assert fields[1..] == ["f", LONG_VALUE] && ["f", LONG_VALUE][1..] == [LONG_VALUE] && [LONG_VALUE][1..] == [];
    assert Encode([]) == "";
    assert Encode([LONG_VALUE]) == Escape(LONG_VALUE) + " " + Encode([]);
    assert |Encode(["f", LONG_VALUE])| == 2 + |Encode([LONG_VALUE])|;
  }

  lemma LongLine(s: State, now: int, jit: nat -> int)
    requires s.journal == ["update " + ("f " + LONG_VALUE)]
    ensures Entries(Joined(Written(FIRST_START, s))) == [""]
    ensures Replay(TWO_WRITERS, [""], now, jit) == Cache(map[], [])
  {
    hide Entries, Joined;
    LongStamp();
    var line := "update " + ("f " + LONG_VALUE);
    assert |line| == CMD_MAX - 1 && line[CMD_MAX - 1..] == "" && Tail(line) == Tail("") == "";
    assert NoNewline(line);
    EntriesOfJoined(s.journal, "");
    NoEntries("");
    assert Joined(s.journal) + "" == Joined(s.journal) && Tails(s.journal) + [] == [""];
    assert s.journal[0..] == s.journal;
    assert [""][..0] == [] && "" + [NUL] == [NUL] && GetField([NUL]) == Field("", "");
    assert Upper("") == "";
  }

  /** The client's buffer holds this request, the daemon accepts it and records it, with
      one byte more than is read back: after a crash it is gone. */
  lemma LongRecordLost(now: int, jit: nat -> int)
    ensures |Encode(["update", "f", LONG_VALUE])| == REQUEST_MAX
    ensures Exec(TWO_WRITERS, FIRST_START, [LONG_UPDATE]).Some?
    ensures DisciplinedRun(TWO_WRITERS, FIRST_START, [LONG_UPDATE]) && QuietRun(TWO_WRITERS, FIRST_START, [LONG_UPDATE])
    ensures var s := Exec(TWO_WRITERS, FIRST_START, [LONG_UPDATE]).value;
      && s.cache.items == map["f" := Item([LONG_VALUE], 0, 1)]
      && Entries(Joined(Written(FIRST_START, s))) == [""]
      && Replay(TWO_WRITERS, Entries(Joined(Written(FIRST_START, s))), now, jit) == Cache(map[], [])
  {
    hide Reached, Stamp, Entries, Joined, Encode;
    LongStamp();
    LongEncoded();
    Begin();
    var s := UpdateF([], Initial(TWO_WRITERS, FIRST_START), LONG_UPDATE, Item([], 0, 0), LONG_VALUE, 1);
    assert [] + [LONG_UPDATE] == [LONG_UPDATE];
    ReachedBy([LONG_UPDATE], s);
    LongLine(s, now, jit);
  }
}
