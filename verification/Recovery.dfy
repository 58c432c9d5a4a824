/** Crash recovery: what replaying the journal from an empty cache gives back. */
module Recovery {
  import opened Text
  import opened Wire
  import opened CacheModel
  import opened Restart
  import opened Daemon
  import opened LineText
  import opened Journal

  /** The assumptions under which the journal determines the cache. An UPDATE must not be
      admitted between the removal of its file by FORGET and the record of that FORGET;
      forgotten names need no escaping; and no idle item is purged, for purges are not
      recorded. */
  predicate Disciplined(cfg: Config, s: State, a: Action)
    requires Enabled(cfg, s, a)
  {
    match a
    case UpdateCmd(args, _, _) =>
      (match UpdateTarget(s.cache, cfg, args + [NUL])
       case None => true
       case Some((file, _)) => file !in s.forgetting)
    case ForgetCmd(args) =>
      (match GetField(args + [NUL])
       case NoField => true
       case Field(file, _) => Plain(file))
    case SweepTree(_, _) => Step(cfg, s, a).cache.items == s.cache.items
    case FinalSweep(_) => Step(cfg, s, a).cache.items == s.cache.items
    case _ => true
  }

  /** The relation between the daemon at any moment and the cache replayed from its
      journal at that moment. For each cached file the stamps agree, and the values in
      flight or pending are those replayed, preceded by `lost`: the values that were in
      flight or pending at the time of the file's last "wrote" record, which replay takes
      to cover everything recorded so far. */
  ghost predicate Law(s: State, r: Cache) {
    && (forall f :: f in s.cache.items ==> FileLaw(s, r, f))
    && (forall f :: f in r.items ==> f in s.cache.items || f in s.forgetting)
    && (forall f :: f in s.forgetting ==> f !in s.cache.items && Plain(f) && NUL !in f)
  }

  predicate FileLaw(s: State, r: Cache, f: string)
    requires f in s.cache.items
  {
    && f in r.items
    && r.items[f].lastStamp == s.cache.items[f].lastStamp
    && InFlight(s.flights, f) + s.cache.items[f].values == Get(s.history.lost, f) + r.items[f].values
  }

  // ---------------------------------------------------------------- batches in flight

  lemma {:induction false} InFlightSplit(a: seq<Flight>, b: seq<Flight>, f: string)
    ensures InFlight(a + b, f) == InFlight(a, f) + InFlight(b, f)
  {
    if b == [] {
      assert a + b == a;
    } else {
      var n := |b| - 1;
      InFlightSplit(a, b[..n], f);
      assert (a + b)[..|a| + n] == a + b[..n];
      Assoc(InFlight(a, f), InFlight(b[..n], f), if b[n].file == f && !b[n].stale then b[n].batch else []);
    }
  }

  lemma InFlightOne(fl: Flight, f: string)
    ensures InFlight([fl], f) == if fl.file == f && !fl.stale then fl.batch else []
  {
    assert [fl][..0] == [];
  }

  lemma {:induction false} InFlightNone(flights: seq<Flight>, f: string)
    requires forall i :: 0 <= i < |flights| ==> flights[i].file == f ==> flights[i].stale
    ensures InFlight(flights, f) == []
  {
    if flights != [] {
      InFlightNone(flights[..|flights| - 1], f);
    }
  }

  lemma {:induction false} InFlightStale(flights: seq<Flight>, files: set<string>, f: string)
    requires f !in files
    ensures InFlight(MarkStale(flights, files), f) == InFlight(flights, f)
  {
    if flights != [] {
      var n := |flights| - 1;
      InFlightStale(flights[..n], files, f);
      assert MarkStale(flights, files)[..n] == MarkStale(flights[..n], files);
    }
  }

  /** Replacing or removing one flight, seen from a file. */
  lemma InFlightAt(flights: seq<Flight>, i: nat, f: string)
    requires i < |flights|
    ensures InFlight(flights[i := flights[i].(written := true)], f) == InFlight(flights, f)
    ensures flights[i].file != f ==> InFlight(flights[..i] + flights[i + 1..], f) == InFlight(flights, f)
  {
    hide InFlight;
    var a, fl, b := flights[..i], flights[i], flights[i + 1..];
    var fl' := fl.(written := true);
    InFlightThree(a, fl, b, f);
    InFlightThree(a, fl', b, f);
    InFlightSplit(a, b, f);
    assert flights == a + [fl] + b && flights[i := fl'] == a + [fl'] + b;
  }

  lemma InFlightThree(a: seq<Flight>, fl: Flight, b: seq<Flight>, f: string)
    ensures InFlight(a + [fl] + b, f) ==
      InFlight(a, f) + (if fl.file == f && !fl.stale then fl.batch else []) + InFlight(b, f)
  {
    InFlightSplit(a + [fl], b, f);
    InFlightSplit(a, [fl], f);
    InFlightOne(fl, f);
  }

  // ---------------------------------------------------------------- the law, step by step

  /** The file that an UPDATE is for. */
  lemma UpdateFileLaw(cfg: Config, s: State, r: Cache, args: string, now: int, jit: int, rnow: int, rjit: int)
    requires Law(s, r) && FlightsOk(cfg, s) && UpdateTarget(s.cache, cfg, args + [NUL]).Some?
    requires UpdateTarget(s.cache, cfg, args + [NUL]).value.0 !in s.forgetting
    ensures var (file, rest) := UpdateTarget(s.cache, cfg, args + [NUL]).value;
      var s' := UpdateStep(cfg, s, args, now, jit);
      file in s'.cache.items && FileLaw(s', Update(r, cfg, rnow, rjit, file, rest), file)
  {
    hide Accept, InFlight, UpdateTarget, GetField, CacheOk;
    var (file, rest) := UpdateTarget(s.cache, cfg, args + [NUL]).value;
    if file in s.cache.items {
      assert FileLaw(s, r, file);
      var more := Accept(rest, r.items[file].lastStamp).values;
      Assoc(InFlight(s.flights, file), s.cache.items[file].values, more);
      Assoc(Get(s.history.lost, file), r.items[file].values, more);
    } else {
      InFlightNone(s.flights, file);
      assert file !in r.items;
    }
  }

  lemma UpdateReplayed(cfg: Config, s: State, r: Cache, args: string, rnow: int, rjit: int)
    requires Law(s, r) && UpdateTarget(s.cache, cfg, args + [NUL]).Some?
    ensures var (file, rest) := UpdateTarget(s.cache, cfg, args + [NUL]).value;
      ReplayLine(r, cfg, "update " + args, rnow, rjit) == Update(r, cfg, rnow, rjit, file, rest)
  {
    var file := UpdateTarget(s.cache, cfg, args + [NUL]).value.0;
    ReplayUpdate(r, cfg, args, rnow, rjit);
    assert file in s.cache.items ==> FileLaw(s, r, file);
  }

  lemma UpdateLaw(cfg: Config, s: State, r: Cache, args: string, now: int, jit: int, rnow: int, rjit: int)
    requires Law(s, r) && FlightsOk(cfg, s) && UpdateTarget(s.cache, cfg, args + [NUL]).Some?
    requires UpdateTarget(s.cache, cfg, args + [NUL]).value.0 !in s.forgetting
    ensures Law(UpdateStep(cfg, s, args, now, jit), ReplayLine(r, cfg, "update " + args, rnow, rjit))
  {
    hide Accept, InFlight, UpdateTarget, GetField, CacheOk, ReplayLine;
    var (file, rest) := UpdateTarget(s.cache, cfg, args + [NUL]).value;
    var s' := UpdateStep(cfg, s, args, now, jit);
    var r' := Update(r, cfg, rnow, rjit, file, rest);
    UpdateFileLaw(cfg, s, r, args, now, jit, rnow, rjit);
    forall f | f in s'.cache.items && f != file
      ensures FileLaw(s', r', f)
    {
      assert FileLaw(s, r, f);
    }
    UpdateReplayed(cfg, s, r, args, rnow, rjit);
  }

  lemma TakeLaw(cfg: Config, s: State, r: Cache, thread: nat, jit: int)
    requires Law(s, r) && Enabled(cfg, s, TakeBatch(thread, jit))
    ensures Law(TakeStep(s, thread, jit), r)
  {
    hide InFlight, Without;
    var s' := TakeStep(s, thread, jit);
    var file := s.cache.queue[0];
    var batch := s.cache.items[file].values;
    forall f | f in s'.cache.items
      ensures FileLaw(s', r, f)
    {
      assert FileLaw(s, r, f);
      var fl := Flight(thread, file, batch, false, false, |s.history.dequeued|);
      InFlightSplit(s.flights, [fl], f);
      InFlightOne(fl, f);
      assert f == file ==> InFlight(s'.flights, f) + [] == InFlight(s.flights, f) + batch;
    }
  }

  lemma WriteLaw(s: State, r: Cache, i: nat)
    requires Law(s, r) && i < |s.flights|
    ensures Law(WriteStep(s, i), r)
  {
    forall f | f in s.cache.items
      ensures FileLaw(WriteStep(s, i), r, f)
    {
      assert FileLaw(s, r, f);
      InFlightAt(s.flights, i, f);
    }
  }

  lemma WroteLaw(cfg: Config, s: State, r: Cache, i: nat, rnow: int, rjit: int)
    requires Law(s, r) && i < |s.flights|
    ensures Law(WroteStep(s, i), ReplayLine(r, cfg, "wrote " + s.flights[i].file, rnow, rjit))
  {
    var s' := WroteStep(s, i);
    var file := s.flights[i].file;
    ReplayWrote(r, cfg, file, rnow, rjit);
    var r' := Wrote(r, rnow, rjit, file);
    forall f | f in s'.cache.items
      ensures FileLaw(s', r', f)
    {
      assert FileLaw(s, r, f);
      InFlightAt(s.flights, i, f);
    }
  }

  lemma ForgetLaw(s: State, r: Cache, file: string)
    requires Law(s, r) && Plain(file) && NUL !in file
    ensures Law(ForgetStep(s, file), r)
  {
    var s' := ForgetStep(s, file);
    forall f | f in s'.cache.items
      ensures FileLaw(s', r, f)
    {
      assert FileLaw(s, r, f);
      if file in s.cache.items {
        InFlightStale(s.flights, {file}, f);
      }
    }
  }

  lemma RecordForgetLaw(cfg: Config, s: State, r: Cache, file: string, rnow: int, rjit: int)
    requires Law(s, r) && file in s.forgetting
    ensures Law(Step(cfg, s, RecordForget(file)), ReplayLine(r, cfg, "forget " + file, rnow, rjit))
  {
    ReplayForget(r, cfg, file, rnow, rjit);
    var s', r' := Step(cfg, s, RecordForget(file)), Forget(r, file);
    forall f | f in s'.cache.items
      ensures FileLaw(s', r', f)
    {
      assert FileLaw(s, r, f);
    }
  }

  /** Steps that change neither items nor batches. */
  lemma KeepLaw(s: State, s': State, r: Cache)
    requires Law(s, r)
    requires forall f :: f in s'.cache.items <==> f in s.cache.items
    requires forall f :: f in s.cache.items ==> s'.cache.items[f] == s.cache.items[f]
    requires s'.flights == s.flights && s'.history == s.history && s'.forgetting == s.forgetting
    ensures Law(s', r)
  {
    forall f | f in s'.cache.items
      ensures FileLaw(s', r, f)
    {
      assert FileLaw(s, r, f);
    }
  }

  /** A name decoded from a request holds no NUL. */
  lemma {:induction false} FieldHasNoNul(args: string)
    requires NUL !in args
    ensures var r := GetField(args + [NUL]); r.Field? ==> NUL !in r.text
  {
    var s := args + [NUL];
    if args != "" && args[0] != ' ' {
      if args[0] != '\\' {
        FieldHasNoNul(args[1..]);
        assert s[1..] == args[1..] + [NUL];
      } else if |args| > 1 {
        FieldHasNoNul(args[2..]);
        assert s[2..] == args[2..] + [NUL] && args[1] in args;
      } else {
        assert s[2..] == "";
      }
    }
  }

  /** The cache replayed after a step, given the one replayed before it. */
  function ReplayNext(cfg: Config, s: State, s': State, r: Cache, now: int, jit: nat -> int): Cache
    requires |s'.journal| <= |s.journal| || |s'.journal| == |s.journal| + 1
  {
    if |s'.journal| <= |s.journal| then r
    else ReplayLine(r, cfg, s'.journal[|s.journal|], now, jit(|s.journal|))
  }

  lemma StepLaw(cfg: Config, s: State, a: Action, r: Cache, now: int, jit: nat -> int)
    requires Law(s, r) && FlightsOk(cfg, s) && Enabled(cfg, s, a) && Disciplined(cfg, s, a)
    requires var s' := Step(cfg, s, a); |s'.journal| <= |s.journal| || |s'.journal| == |s.journal| + 1
    ensures Law(Step(cfg, s, a), ReplayNext(cfg, s, Step(cfg, s, a), r, now, jit))
  {
    var s' := Step(cfg, s, a);
    match a
    case UpdateCmd(args, anow, ajit) =>
      if UpdateTarget(s.cache, cfg, args + [NUL]).Some? {
        UpdateLaw(cfg, s, r, args, anow, ajit, now, jit(|s.journal|));
      }
    case FlushCmd(args) => KeepLaw(s, s', r);
    case ForgetCmd(args) =>
      FieldHasNoNul(args);
      if GetField(args + [NUL]).Field? {
        ForgetLaw(s, r, GetField(args + [NUL]).text);
      }
    case RecordForget(file) => RecordForgetLaw(cfg, s, r, file, now, jit(|s.journal|));
    case TakeBatch(thread, tjit) => TakeLaw(cfg, s, r, thread, tjit);
    case WriteBatch(i) => WriteLaw(s, r, i);
    case RecordWrote(i) => WroteLaw(cfg, s, r, i, now, jit(|s.journal|));
    case SweepTree(maxAge, order) =>
      assert s'.flights == s.flights;
      KeepLaw(s, s', r);
    case FinalSweep(order) =>
      assert s'.flights == s.flights;
      KeepLaw(s, s', r);
    case Signal => KeepLaw(s, s', r);
    case WriterExit(_) => KeepLaw(s, s', r);
    case Tick(_) => KeepLaw(s, s', r);
  }

  // ---------------------------------------------------------------- the law, over whole runs

  predicate DisciplinedRun(cfg: Config, boot: Boot, run: seq<Action>) {
    if run == [] then true
    else
      var n := |run| - 1;
      && DisciplinedRun(cfg, boot, run[..n])
      && (match Exec(cfg, boot, run[..n])
          case None => true
          case Some(s) => Enabled(cfg, s, run[n]) ==> Disciplined(cfg, s, run[n]))
  }

  /** After any disciplined run, stopped anywhere, replaying the journal gives a cache
      related to the daemon's by `Law`, whatever the clock and the jitter of the replay. */
  lemma {:induction false} RunLaw(cfg: Config, boot: Boot, run: seq<Action>, now: int, jit: nat -> int)
    requires DisciplinedRun(cfg, boot, run)
    ensures var e := Exec(cfg, boot, run); e.Some? ==> Law(e.value, Replay(cfg, e.value.journal, now, jit))
  {
    if run != [] {
      var n := |run| - 1;
      RunLaw(cfg, boot, run[..n], now, jit);
      RunInv(cfg, boot, run[..n]);
      var e := Exec(cfg, boot, run[..n]);
      if e.Some? && Enabled(cfg, e.value, run[n]) {
        var s := e.value;
        JournalGrows(cfg, s, run[n]);
        StepLaw(cfg, s, run[n], Replay(cfg, s.journal, now, jit), now, jit);
      }
    } else {
      StartLaw(cfg, boot, now, jit);
    }
  }

  /** A daemon starts with the cache that replaying the same journal again would give. */
  lemma StartLaw(cfg: Config, boot: Boot, now: int, jit: nat -> int)
    ensures Law(Initial(cfg, boot), Replay(cfg, boot.journal, now, jit))
  {
    hide Replay, Settled;
    var s, r := Initial(cfg, boot), Replay(cfg, boot.journal, now, jit);
    ReplayAlike(cfg, boot.journal, boot.clock, Drawn(cfg, boot.random), now, jit);
    forall f | f in s.cache.items
      ensures FileLaw(s, r, f)
    {
    }
  }

  /** Recovery of a file is exact when and only when nothing counts as lost. */
  lemma ExactIffNothingLost(s: State, r: Cache, f: string)
    requires Law(s, r) && f in s.cache.items
    ensures r.items[f].values == InFlight(s.flights, f) + s.cache.items[f].values <==> Get(s.history.lost, f) == []
  {
    assert FileLaw(s, r, f);
    assert [] + r.items[f].values == r.items[f].values;
  }

  /** A "wrote" record leaves recovery of its file exact when and only when, at that
      moment, no value of the file is pending and no other batch of it is in flight. */
  lemma WroteExactIff(cfg: Config, s: State, r: Cache, i: nat, rnow: int, rjit: int)
    requires Law(s, r) && i < |s.flights| && s.flights[i].file in s.cache.items
    ensures var f := s.flights[i].file;
      var s' := WroteStep(s, i);
      var r' := ReplayLine(r, cfg, "wrote " + f, rnow, rjit);
      && f in r'.items
      && (r'.items[f].values == InFlight(s'.flights, f) + s'.cache.items[f].values
          <==> s.cache.items[f].values == [] && InFlight(s.flights[..i] + s.flights[i + 1..], f) == [])
  {
    var f := s.flights[i].file;
    var s', r' := WroteStep(s, i), ReplayLine(r, cfg, "wrote " + f, rnow, rjit);
    WroteLaw(cfg, s, r, i, rnow, rjit);
    ExactIffNothingLost(s', r', f);
    assert FileLaw(s', r', f);
  }

  // ---------------------------------------------------------------- exactness over whole runs

  /** If this step records "wrote" for `f`, nothing of `f` is pending and no other batch of
      it is in flight. */
  predicate Tidy(s: State, a: Action, f: string) {
    a.RecordWrote? && a.flight < |s.flights| && s.flights[a.flight].file == f ==>
      Pending(s, f) == [] && InFlight(s.flights[..a.flight] + s.flights[a.flight + 1..], f) == []
  }

  predicate TidyRun(cfg: Config, boot: Boot, run: seq<Action>, f: string) {
    if run == [] then true
    else
      var n := |run| - 1;
      && TidyRun(cfg, boot, run[..n], f)
      && (match Exec(cfg, boot, run[..n])
          case None => true
          case Some(s) => Tidy(s, run[n], f))
  }

  predicate Exact(s: State, r: Cache, f: string) {
    f in s.cache.items ==>
      && f in r.items && r.items[f].lastStamp == s.cache.items[f].lastStamp
      && r.items[f].values == InFlight(s.flights, f) + s.cache.items[f].values
  }

  /** After this run the records replay to exactly what is in flight and pending of `f`. */
  predicate ExactAfter(cfg: Config, boot: Boot, run: seq<Action>, f: string, now: int, jit: nat -> int) {
    match Exec(cfg, boot, run)
    case None => true
    case Some(s) => Exact(s, Replay(cfg, s.journal, now, jit), f)
  }

  lemma ExactIff(s: State, r: Cache, f: string)
    requires Law(s, r)
    ensures Exact(s, r, f) <==> (f in s.cache.items ==> Get(s.history.lost, f) == [])
  {
    if f in s.cache.items {
      ExactIffNothingLost(s, r, f);
      assert FileLaw(s, r, f);
    }
  }

  /** A step makes something count as lost exactly when it is not tidy. */
  lemma LostNext(cfg: Config, s: State, a: Action, f: string)
    requires FlightsOk(cfg, s) && Enabled(cfg, s, a)
    requires f in s.cache.items ==> Get(s.history.lost, f) == []
    ensures var s' := Step(cfg, s, a);
      (f in s'.cache.items ==> Get(s'.history.lost, f) == []) <==> Tidy(s, a, f)
  {
    hide GetField, Accept, DueOnes, Without, InFlight;
    if a.RecordWrote? && s.flights[a.flight].file == f && f !in s.cache.items {
      var rest := s.flights[..a.flight] + s.flights[a.flight + 1..];
      assert forall k :: 0 <= k < |rest| ==> rest[k] == s.flights[if k < a.flight then k else k + 1];
      InFlightNone(rest, f);
    }
  }

  /** A file is recovered exactly at every moment of a disciplined run if and only if each
      of its "wrote" records found nothing pending and no other batch in flight. */
  lemma {:induction false} ExactThroughout(cfg: Config, boot: Boot, run: seq<Action>, f: string, now: int,
                                           jit: nat -> int)
    requires DisciplinedRun(cfg, boot, run) && Exec(cfg, boot, run).Some?
    ensures TidyRun(cfg, boot, run, f) <==>
      forall m :: 0 <= m <= |run| ==> ExactAfter(cfg, boot, run[..m], f, now, jit)
  {
    hide Step, Enabled, Tidy, Exact, Replay;
    var s' := Exec(cfg, boot, run).value;
    assert run[..|run|] == run;
    RunLaw(cfg, boot, run, now, jit);
    ExactIff(s', Replay(cfg, s'.journal, now, jit), f);
    if run == [] {
      assert Get(s'.history.lost, f) == [];
    } else {
      var n := |run| - 1;
      var s := Exec(cfg, boot, run[..n]).value;
      ExactThroughout(cfg, boot, run[..n], f, now, jit);
      assert forall m :: 0 <= m <= n ==> run[..n][..m] == run[..m];
      assert run[..n][..n] == run[..n];
      RunLaw(cfg, boot, run[..n], now, jit);
      RunInv(cfg, boot, run[..n]);
      ExactIff(s, Replay(cfg, s.journal, now, jit), f);
      if ExactAfter(cfg, boot, run[..n], f, now, jit) {
        LostNext(cfg, s, run[n], f);
      }
    }
  }

  // ---------------------------------------------------------------- exact recovery

  /** No UPDATE of a file is admitted while a batch of it waits for its "wrote" record. */
  predicate NotInFlight(cfg: Config, s: State, a: Action) {
    a.UpdateCmd? ==>
      match UpdateTarget(s.cache, cfg, a.args + [NUL])
      case None => true
      case Some((file, _)) => forall i :: 0 <= i < |s.flights| ==> s.flights[i].file != file
  }

  predicate QuietRun(cfg: Config, boot: Boot, run: seq<Action>) {
    if run == [] then true
    else
      var n := |run| - 1;
      && QuietRun(cfg, boot, run[..n])
      && (match Exec(cfg, boot, run[..n])
          case None => true
          case Some(s) => NotInFlight(cfg, s, run[n]))
  }

  /** At most one batch of a file is in flight, and then nothing of it is pending. */
  ghost predicate Alone(s: State) {
    && (forall i, j :: 0 <= i < j < |s.flights| ==> s.flights[i].file != s.flights[j].file)
    && (forall i :: 0 <= i < |s.flights| ==> Pending(s, s.flights[i].file) == [])
    && (forall f :: f in s.history.lost ==> s.history.lost[f] == [])
  }

  lemma WroteAlone(s: State, i: nat)
    requires Alone(s) && i < |s.flights|
    ensures Alone(WroteStep(s, i))
  {
    var rest := s.flights[..i] + s.flights[i + 1..];
    forall k | 0 <= k < |rest|
      ensures rest[k].file != s.flights[i].file
    {
      assert rest[k] == if k < i then s.flights[k] else s.flights[k + 1];
    }
    InFlightNone(rest, s.flights[i].file);
  }

  lemma TakeAlone(cfg: Config, s: State, thread: nat, jit: int)
    requires Alone(s) && CacheOk(s.cache) && Enabled(cfg, s, TakeBatch(thread, jit))
    ensures Alone(TakeStep(s, thread, jit))
  {
    var file := s.cache.queue[0];
    assert file in s.cache.queue && Pending(s, file) != [];
  }

  lemma UpdateAlone(cfg: Config, s: State, args: string, now: int, jit: int)
    requires Alone(s) && NotInFlight(cfg, s, UpdateCmd(args, now, jit))
    ensures Alone(UpdateStep(cfg, s, args, now, jit))
  {
    if UpdateTarget(s.cache, cfg, args + [NUL]).Some? {
      var (file, rest) := UpdateTarget(s.cache, cfg, args + [NUL]).value;
      var s' := UpdateStep(cfg, s, args, now, jit);
      assert forall f :: f != file ==> Pending(s', f) == Pending(s, f);
    }
  }

  /** Steps that keep the files in flight and add no pending values. */
  lemma KeepAlone(s: State, s': State)
    requires Alone(s) && |s'.flights| == |s.flights| && s'.history.lost == s.history.lost
    requires forall i :: 0 <= i < |s.flights| ==> s'.flights[i].file == s.flights[i].file
    requires forall f :: f in s'.cache.items ==>
               f in s.cache.items && s'.cache.items[f].values == s.cache.items[f].values
    ensures Alone(s')
  {
    assert forall i :: 0 <= i < |s.flights| ==> Pending(s, s.flights[i].file) == [];
  }

  lemma StepAlone(cfg: Config, s: State, a: Action)
    requires Alone(s) && CacheOk(s.cache) && Enabled(cfg, s, a) && NotInFlight(cfg, s, a)
    ensures Alone(Step(cfg, s, a))
  {
    match a
    case TakeBatch(thread, jit) => TakeAlone(cfg, s, thread, jit);
    case RecordWrote(i) => WroteAlone(s, i);
    case UpdateCmd(args, now, jit) => UpdateAlone(cfg, s, args, now, jit);
    case _ => KeepAlone(s, Step(cfg, s, a));
  }

  lemma {:induction false} RunAlone(cfg: Config, boot: Boot, run: seq<Action>)
    requires QuietRun(cfg, boot, run)
    ensures var e := Exec(cfg, boot, run); e.Some? ==> Alone(e.value)
  {
    if run != [] {
      var n := |run| - 1;
      RunAlone(cfg, boot, run[..n]);
      RunInv(cfg, boot, run[..n]);
      var e := Exec(cfg, boot, run[..n]);
      if e.Some? && Enabled(cfg, e.value, run[n]) {
        StepAlone(cfg, e.value, run[n]);
      }
    }
  }

  /** Crash recovery. Stop a disciplined run anywhere in which UPDATEs wait for the
      "wrote" records of their files and are short enough to be read back: the journals on
      disk replay to exactly the values in flight followed by those pending, with the same
      last stamp, for every cached file, and to no other file except those whose FORGET is
      still to be recorded. */
  lemma Recovery(cfg: Config, boot: Boot, run: seq<Action>, now: int, jit: nat -> int)
    requires Found(boot) && DisciplinedRun(cfg, boot, run) && QuietRun(cfg, boot, run) && ShortRun(cfg, boot, run)
    requires Exec(cfg, boot, run).Some?
    ensures var s := Exec(cfg, boot, run).value;
      Recovered(s, Replay(cfg, boot.journal + Entries(Joined(Written(boot, s))), now, jit))
  {
    hide Exec, DisciplinedRun, QuietRun, ShortRun, Entries, Joined, Replay, Written;
    var s := Exec(cfg, boot, run).value;
    var r := Replay(cfg, s.journal, now, jit);
    RunReadBack(cfg, boot, run);
    RunLaw(cfg, boot, run, now, jit);
    RunAlone(cfg, boot, run);
    forall f | f in s.cache.items
      ensures f in r.items && r.items[f].lastStamp == s.cache.items[f].lastStamp
      ensures r.items[f].values == InFlight(s.flights, f) + s.cache.items[f].values
    {
      assert FileLaw(s, r, f);
      ExactIffNothingLost(s, r, f);
    }
  }

  ghost predicate Recovered(s: State, r: Cache) {
    && (forall f :: f in s.cache.items ==>
          && f in r.items
          && r.items[f].values == InFlight(s.flights, f) + s.cache.items[f].values
          && r.items[f].lastStamp == s.cache.items[f].lastStamp)
    && (forall f :: f in r.items ==> f in s.cache.items || f in s.forgetting)
  }

  // ---------------------------------------------------------------- recovery from a torn journal

  /** Every beginning of the records of a run was all of them at some moment of the run. */
  lemma {:induction false} JournalWas(cfg: Config, boot: Boot, run: seq<Action>, k: nat) returns (m: nat)
    requires Exec(cfg, boot, run).Some? && k <= |Written(boot, Exec(cfg, boot, run).value)|
    ensures m <= |run| && Exec(cfg, boot, run[..m]).Some?
    ensures Written(boot, Exec(cfg, boot, run[..m]).value) == Written(boot, Exec(cfg, boot, run).value)[..k]
  {
    hide Step, Enabled;
    var s := Exec(cfg, boot, run).value;
    JournalKept(cfg, boot, run);
    if k == |Written(boot, s)| {
      m := |run|;
      assert run[..m] == run && Written(boot, s)[..k] == Written(boot, s);
    } else {
      StartEmpty(cfg, boot);
      var n := |run| - 1;
      var before := Exec(cfg, boot, run[..n]).value;
      JournalKept(cfg, boot, run[..n]);
      JournalGrows(cfg, before, run[n]);
      m := JournalWas(cfg, boot, run[..n], k);
      assert run[..n][..m] == run[..m];
      assert Written(boot, before)[..k] == Written(boot, s)[..k];
    }
  }

  lemma StartEmpty(cfg: Config, boot: Boot)
    ensures Exec(cfg, boot, []) == Some(Initial(cfg, boot)) && Written(boot, Initial(cfg, boot)) == []
  {
  }

  lemma {:induction false} PrefixOfRun(cfg: Config, boot: Boot, run: seq<Action>, m: nat)
    requires m <= |run| && DisciplinedRun(cfg, boot, run) && QuietRun(cfg, boot, run) && ShortRun(cfg, boot, run)
    ensures DisciplinedRun(cfg, boot, run[..m]) && QuietRun(cfg, boot, run[..m]) && ShortRun(cfg, boot, run[..m])
  {
    hide Exec, Enabled, Disciplined, NotInFlight, ShortUpdate;
    if m < |run| {
      var n := |run| - 1;
      PrefixOfRun(cfg, boot, run[..n], m);
      assert run[..n][..m] == run[..m];
    } else {
      assert run[..m] == run;
    }
  }

  /** Wherever a crash cuts the journal off, reading it back gives exactly the state the
      daemon had when it completed the last record that is left: for every file the
      values then in flight or pending, with the stamp it then had. */
  lemma TornJournal(cfg: Config, boot: Boot, run: seq<Action>, cut: nat, now: int, jit: nat -> int) returns (m: nat)
    requires Found(boot) && DisciplinedRun(cfg, boot, run) && QuietRun(cfg, boot, run) && ShortRun(cfg, boot, run)
    requires Exec(cfg, boot, run).Some? && cut <= |Joined(Written(boot, Exec(cfg, boot, run).value))|
    ensures m <= |run| && Exec(cfg, boot, run[..m]).Some?
    ensures var s := Exec(cfg, boot, run[..m]).value;
      var entries := Entries(Joined(Written(boot, Exec(cfg, boot, run).value))[..cut]);
      && entries == Written(boot, s) <= Written(boot, Exec(cfg, boot, run).value)
      && Recovered(s, Replay(cfg, boot.journal + entries, now, jit))
  {
    hide Exec, DisciplinedRun, QuietRun, ShortRun, Replay, Entries, Joined, Recovered, Written, Tail;
    var records := Written(boot, Exec(cfg, boot, run).value);
    RunReadBack(cfg, boot, run);
    var k := CutLines(records, cut);
    m := JournalWas(cfg, boot, run, k);
    PrefixOfRun(cfg, boot, run, m);
    TailsShort(records[..k]);
    RunReadBack(cfg, boot, run[..m]);
    Recovery(cfg, boot, run[..m], now, jit);
  }

  // ---------------------------------------------------------------- across a crash

  predicate NeverForgotten(run: seq<Action>, f: string) {
    forall i :: 0 <= i < |run| ==> !IsForgetOf(run[i], f)
  }

  /** In a disciplined run a file that is not forgotten keeps its item and all its values. */
  lemma {:induction false} KeptThroughout(cfg: Config, boot: Boot, run: seq<Action>, f: string)
    requires DisciplinedRun(cfg, boot, run) && NeverForgotten(run, f)
    requires Exec(cfg, boot, run).Some? && f in Initial(cfg, boot).cache.items
    ensures var s0, s := Initial(cfg, boot), Exec(cfg, boot, run).value;
      f in s.cache.items && Born(s.history, f) == Born(s0.history, f) && Kept(s0, f) <= Kept(s, f)
  {
    hide Step, Enabled, Kept, Initial;
    if run != [] {
      var n := |run| - 1;
      var s := Exec(cfg, boot, run[..n]).value;
      KeptThroughout(cfg, boot, run[..n], f);
      RunInv(cfg, boot, run[..n]);
      OnlyForgetDrops(cfg, s, run[n], f);
      StaysCached(cfg, s, run[n], f);
      KeptNext(s, Step(cfg, s, run[n]), f);
    }
  }

  lemma KeptNext(s: State, s': State, f: string)
    requires NothingDropped(s, s', f) && f in s'.cache.items
    ensures Kept(s, f) <= Kept(s', f) && Born(s'.history, f) == Born(s.history, f)
  {
  }

  lemma StaysCached(cfg: Config, s: State, a: Action, f: string)
    requires Enabled(cfg, s, a) && Disciplined(cfg, s, a) && f in s.cache.items && !IsForgetOf(a, f)
    ensures f in Step(cfg, s, a).cache.items
  {
    hide GetField, Accept, DueOnes, Without;
  }

  /** A daemon that is started again after a crash, with whatever the crash left of the
      journal, goes on with every value that was in flight or pending when the last
      complete record was made: as long as the file is not forgotten, each is pending,
      with a writer, or on disk at any later moment. */
  lemma CarriedOver(cfg: Config, boot: Boot, run: seq<Action>, cut: nat, boot': Boot, run': seq<Action>)
    returns (m: nat)
    requires Found(boot) && DisciplinedRun(cfg, boot, run) && QuietRun(cfg, boot, run) && ShortRun(cfg, boot, run)
    requires Exec(cfg, boot, run).Some? && cut <= |Joined(Written(boot, Exec(cfg, boot, run).value))|
    requires boot'.journal == boot.journal + Entries(Joined(Written(boot, Exec(cfg, boot, run).value))[..cut])
    requires DisciplinedRun(cfg, boot', run') && Exec(cfg, boot', run').Some?
    ensures Found(boot') && m <= |run| && Exec(cfg, boot, run[..m]).Some?
    ensures var s, s' := Exec(cfg, boot, run[..m]).value, Exec(cfg, boot', run').value;
      forall f, v :: f in s.cache.items && v in InFlight(s.flights, f) + s.cache.items[f].values
                     && NeverForgotten(run', f) ==>
        f in s'.cache.items && (v in s'.cache.items[f].values || OnItsWay(s', f, v))
  {
    hide Exec, DisciplinedRun, QuietRun, ShortRun, Replay, Entries, Joined, Written, InFlight, NeverForgotten, Drawn;
    var text := Joined(Written(boot, Exec(cfg, boot, run).value))[..cut];
    EntriesFound(text);
    var jit := Drawn(cfg, boot'.random);
    m := TornJournal(cfg, boot, run, cut, boot'.clock, jit);
    var s, s' := Exec(cfg, boot, run[..m]).value, Exec(cfg, boot', run').value;
    forall f, v | f in s.cache.items && v in InFlight(s.flights, f) + s.cache.items[f].values && NeverForgotten(run', f)
      ensures f in s'.cache.items && (v in s'.cache.items[f].values || OnItsWay(s', f, v))
    {
      StartsWith(cfg, boot', f);
      KeptThroughout(cfg, boot', run', f);
      RunInv(cfg, boot', run');
      KeptSomewhere(s', f, v);
    }
  }

  lemma StartsWith(cfg: Config, boot: Boot, f: string)
    ensures Initial(cfg, boot).cache == Replay(cfg, boot.journal, boot.clock, Drawn(cfg, boot.random))
    ensures f in Initial(cfg, boot).cache.items ==>
              Kept(Initial(cfg, boot), f) == Initial(cfg, boot).cache.items[f].values
  {
    hide Replay, Settled;
    var values := Pending(Initial(cfg, boot), f);
    assert [] + values == values;
  }
}
