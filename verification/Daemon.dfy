/** rrdcached as a step system at the granularity of its locks. Any number of client and
    writer threads take the steps below in any order: one step per critical section of
    `cache_lock`, with the write to disk and the journal records that are made outside
    the lock as steps of their own. */
module Daemon {
  import opened Text
  import opened Wire
  import opened CacheModel
  import opened Restart

  datatype Phase = Running | Flushing | Shutdown

  /** A batch that a writer thread has taken off the cache: the `id`-th that any thread
      took. It is stale once its item has been removed from the tree, and `written` once
      `rrd_update_r` has returned. */
  datatype Flight = Flight(thread: nat, file: string, batch: seq<string>, stale: bool, written: bool, id: nat)

  /** A batch as it was dequeued: `born` tells its item from earlier and later items of the
      same file. */
  datatype Batch = Batch(file: string, born: nat, values: seq<string>)

  /** One call of `rrd_update_r`, for the batch dequeued as the `id`-th. */
  datatype Write = Write(id: nat, file: string, values: seq<string>)

  /** What has happened so far, for stating properties; no step reads it.
      For each cached file, `life` is every value accepted since its item was created,
      `settled` are those that the journal replayed at the start records as written, and
      `born` is the number of that item, counting `births`. `dequeued` and `disk` are the
      batches in the order they were dequeued and written. `lost` is explained at `Law`. */
  datatype History = History(
    life: map<string, seq<string>>,
    settled: map<string, seq<string>>,
    born: map<string, nat>,
    births: nat,
    dequeued: seq<Batch>,
    disk: seq<Write>,
    lost: map<string, seq<string>>)

  datatype State = State(
    cache: Cache,
    flights: seq<Flight>,        // in dequeue order
    forgetting: set<string>,     // removed by FORGET, not yet recorded in the journal
    journal: seq<string>,
    clock: int,
    phase: Phase,
    exited: set<nat>,            // writer threads that have ended
    history: History)

  datatype Action =
    | UpdateCmd(args: string, now: int, jit: int)
    | FlushCmd(args: string)
    | ForgetCmd(args: string)
    | RecordForget(file: string)
    | TakeBatch(thread: nat, jit: int)
    | WriteBatch(flight: nat)
    | RecordWrote(flight: nat)
    | SweepTree(maxAge: int, order: seq<string>)
    | Signal
    | FinalSweep(order: seq<string>)
    | WriterExit(thread: nat)
    | Tick(seconds: nat)

  // ---------------------------------------------------------------- the steps

  /** The values dequeued from the item of `file` with number `born`, in order. */
  function HandedOver(dequeued: seq<Batch>, file: string, born: nat): seq<string> {
    if dequeued == [] then []
    else
      var n := |dequeued| - 1;
      var b := dequeued[n];
      HandedOver(dequeued[..n], file, born) + if b.file == file && b.born == born then b.values else []
  }

  function Born(h: History, file: string): nat {
    if file in h.born then h.born[file] else 0
  }

  /** The batches of `file`'s present item that have no "wrote" record yet. */
  function InFlight(flights: seq<Flight>, file: string): seq<string> {
    if flights == [] then []
    else
      var n := |flights| - 1;
      InFlight(flights[..n], file) +
      if flights[n].file == file && !flights[n].stale then flights[n].batch else []
  }

  function MarkStale(flights: seq<Flight>, files: set<string>): (r: seq<Flight>)
    ensures |r| == |flights|
  {
    seq(|flights|, i requires 0 <= i < |flights| =>
      if flights[i].file in files then flights[i].(stale := true) else flights[i])
  }

  function Pending(s: State, file: string): seq<string> {
    if file in s.cache.items then s.cache.items[file].values else []
  }

  predicate Busy(s: State, thread: nat) {
    exists i :: 0 <= i < |s.flights| && s.flights[i].thread == thread
  }

  /** How a daemon starts: at what time, with what journal found on disk, and with which
      random numbers. */
  datatype Boot = Boot(clock: int, journal: seq<string>, random: nat -> nat)

  /** `rrd_random() % config_write_jitter` */
  function Drawn(cfg: Config, random: nat -> nat): nat -> int {
    (i: nat) => if cfg.jitter > 0 then random(i) % cfg.jitter else 0
  }

  /** `journal_init`: the journals found are replayed, and kept. */
  function Initial(cfg: Config, boot: Boot): State {
    var jit := Drawn(cfg, boot.random);
    var c := Replay(cfg, boot.journal, boot.clock, jit);
    var settled := Settled(cfg, boot.journal, boot.clock, jit);
    State(c, [], {}, boot.journal, boot.clock, Running, {}, History(
      map f | f in c.items :: Get(settled, f) + c.items[f].values,
      settled, map f | f in c.items :: 0, 1, [], [], map[]))
  }

  predicate Enabled(cfg: Config, s: State, a: Action) {
    match a
    case UpdateCmd(args, now, jit) =>
      // `now` is the time the command (or its batch) began; a text of `CMD_MAX` bytes or
      // more overruns the buffer that keeps it for the journal
      Clean(args) && |args| < CMD_MAX && now <= s.clock && JitterOk(cfg, jit)
    case FlushCmd(args) => Clean(args)
    case ForgetCmd(args) => Clean(args)
    case RecordForget(file) => file in s.forgetting
    case TakeBatch(thread, jit) =>
      && thread < cfg.threads && thread !in s.exited && !Busy(s, thread) && JitterOk(cfg, jit)
      && s.cache.queue != [] && s.cache.queue[0] in s.cache.items
    case WriteBatch(i) => i < |s.flights| && !s.flights[i].written
    case RecordWrote(i) => i < |s.flights| && s.flights[i].written
    case SweepTree(maxAge, order) => Traversal(s.cache, order)
    case Signal => s.phase == Running
    case FinalSweep(order) => s.phase == Flushing && Traversal(s.cache, order)
    case WriterExit(thread) =>
      && thread < cfg.threads && thread !in s.exited && !Busy(s, thread)
      && s.phase == Shutdown && !(s.cache.queue != [] && cfg.flushAtShutdown)
    case Tick(_) => true
  }

  function Step(cfg: Config, s: State, a: Action): State
    requires Enabled(cfg, s, a)
  {
    match a
    case UpdateCmd(args, now, jit) => UpdateStep(cfg, s, args, now, jit)
    case FlushCmd(args) =>
      (match GetField(args + [NUL])
       case NoField => s
       case Field(file, _) => s.(cache := Flush(s.cache, file)))
    case ForgetCmd(args) =>
      (match GetField(args + [NUL])
       case NoField => s
       case Field(file, _) => ForgetStep(s, file))
    case RecordForget(file) =>
      s.(forgetting := s.forgetting - {file}, journal := s.journal + ["forget " + file])
    case TakeBatch(thread, jit) => TakeStep(s, thread, jit)
    case WriteBatch(i) => WriteStep(s, i)
    case RecordWrote(i) => WroteStep(s, i)
    case SweepTree(maxAge, order) => SweepStep(cfg, s, maxAge, order)
    case Signal => s.(phase := Flushing)
    case FinalSweep(order) =>
      (if cfg.flushAtShutdown then SweepStep(cfg, s, -1, order) else s).(phase := Shutdown)
    case WriterExit(thread) => s.(exited := s.exited + {thread})
    case Tick(seconds) => s.(clock := s.clock + seconds)
  }

  /** The journal gets the request as it was received; values are accepted under the
      same lock. */
  function UpdateStep(cfg: Config, s: State, args: string, now: int, jit: int): State {
    match UpdateTarget(s.cache, cfg, args + [NUL])
    case None => s
    case Some((file, rest)) =>
      var h := s.history;
      var old' := file in s.cache.items;
      var a := Accept(rest, ItemFor(s.cache, file, now, jit).lastStamp);
      s.(cache := Update(s.cache, cfg, now, jit, file, rest),
         journal := s.journal + ["update " + args],
         history := h.(
           life := h.life[file := (if old' then Get(h.life, file) else []) + a.values],
           settled := h.settled[file := if old' then Get(h.settled, file) else []],
           born := h.born[file := if old' then Born(h, file) else h.births],
           births := if old' then h.births else h.births + 1,
           lost := h.lost[file := if old' then Get(h.lost, file) else []]))
  }

  function ForgetStep(s: State, file: string): State {
    if file !in s.cache.items then s
    else s.(cache := Forget(s.cache, file),
            flights := MarkStale(s.flights, {file}),
            forgetting := s.forgetting + {file})
  }

  function TakeStep(s: State, thread: nat, jit: int): State
    requires s.cache.queue != [] && s.cache.queue[0] in s.cache.items
  {
    var file := s.cache.queue[0];
    var batch := s.cache.items[file].values;
    var h := s.history;
    s.(cache := Dequeue(s.cache, s.clock, jit),
       flights := s.flights + [Flight(thread, file, batch, false, false, |h.dequeued|)],
       history := h.(dequeued := h.dequeued + [Batch(file, Born(h, file), batch)]))
  }

  function WriteStep(s: State, i: nat): State
    requires i < |s.flights|
  {
    var fl := s.flights[i];
    s.(flights := s.flights[i := fl.(written := true)],
       history := s.history.(disk := s.history.disk + [Write(fl.id, fl.file, fl.batch)]))
  }

  function WroteStep(s: State, i: nat): State
    requires i < |s.flights|
  {
    var file := s.flights[i].file;
    var flights' := s.flights[..i] + s.flights[i + 1..];
    s.(flights := flights',
       journal := s.journal + ["wrote " + file],
       history := s.history.(lost := s.history.lost[file := InFlight(flights', file) + Pending(s, file)]))
  }

  function SweepStep(cfg: Config, s: State, maxAge: int, order: seq<string>): State {
    var cache' := Sweep(s.cache, cfg, s.phase == Running, s.clock, maxAge, order);
    s.(cache := cache', flights := MarkStale(s.flights, s.cache.items.Keys - cache'.items.Keys))
  }

  /** The state after a run, if every step of it was possible. */
  function Exec(cfg: Config, boot: Boot, run: seq<Action>): Option<State> {
    if run == [] then Some(Initial(cfg, boot))
    else
      var n := |run| - 1;
      match Exec(cfg, boot, run[..n])
      case None => None
      case Some(s) => if Enabled(cfg, s, run[n]) then Some(Step(cfg, s, run[n])) else None
  }

  // ---------------------------------------------------------------- conservation

  /** Every value accepted for a cached file was settled at the start, has been dequeued
      from its item or is pending there, in this order, and the stamps increase strictly up
      to the item's last stamp. */
  predicate ItemOk(s: State, file: string)
    requires file in s.cache.items
  {
    var ci := s.cache.items[file];
    && file in s.history.born && s.history.born[file] < s.history.births
    && Get(s.history.life, file) ==
         Get(s.history.settled, file) + (HandedOver(s.history.dequeued, file, s.history.born[file]) + ci.values)
    && Clocked(Get(s.history.life, file)) == Some(ci.lastStamp)
  }

  ghost predicate Conserved(cfg: Config, s: State) {
    && CacheOk(s.cache)
    && (forall f :: f in s.cache.items ==> ItemOk(s, f) && s.cache.items[f].lastFlush <= s.clock + cfg.jitter)
    && (forall i :: 0 <= i < |s.history.dequeued| ==> s.history.dequeued[i].born < s.history.births)
  }

  /** Each batch in flight is with a live writer thread that has no other, and is stale if
      its item is gone. */
  ghost predicate FlightsOk(cfg: Config, s: State) {
    && (forall i :: 0 <= i < |s.flights| ==>
         && (s.flights[i].stale || s.flights[i].file in s.cache.items)
         && s.flights[i].thread < cfg.threads && s.flights[i].thread !in s.exited)
    && (forall i, j :: 0 <= i < j < |s.flights| ==> s.flights[i].thread != s.flights[j].thread)
  }

  /** `id`, `file` and `values` are those of a batch as it was dequeued. */
  predicate IsBatch(dequeued: seq<Batch>, id: nat, file: string, values: seq<string>) {
    id < |dequeued| && dequeued[id].file == file && dequeued[id].values == values
  }

  ghost predicate Waiting(flights: seq<Flight>, id: nat) {
    exists i :: 0 <= i < |flights| && flights[i].id == id && !flights[i].written
  }

  ghost predicate OnDisk(disk: seq<Write>, id: nat) {
    exists k :: 0 <= k < |disk| && disk[k].id == id
  }

  /** What a writer holds and what it writes is a batch exactly as it was dequeued, no
      batch is written twice, and each batch dequeued is on disk or still to be written. */
  ghost predicate DiskOk(s: State) {
    var d := s.history.dequeued;
    && (forall i :: 0 <= i < |s.flights| ==> IsBatch(d, s.flights[i].id, s.flights[i].file, s.flights[i].batch))
    && (forall i, j :: 0 <= i < j < |s.flights| ==> s.flights[i].id < s.flights[j].id)
    && (forall k :: 0 <= k < |s.history.disk| ==>
         IsBatch(d, s.history.disk[k].id, s.history.disk[k].file, s.history.disk[k].values))
    && (forall j, k :: 0 <= j < k < |s.history.disk| ==> s.history.disk[j].id != s.history.disk[k].id)
    && (forall id: nat :: id < |d| ==> (OnDisk(s.history.disk, id) <==> !Waiting(s.flights, id)))
  }

  lemma HandedOverNext(dequeued: seq<Batch>, b: Batch, file: string, born: nat)
    ensures HandedOver(dequeued + [b], file, born) ==
      HandedOver(dequeued, file, born) + if b.file == file && b.born == born then b.values else []
  {
    assert (dequeued + [b])[..|dequeued|] == dequeued;
  }

  /** Nothing has been dequeued from an item that is new. */
  lemma {:induction false} NothingHandedOver(dequeued: seq<Batch>, file: string, born: nat)
    requires forall i :: 0 <= i < |dequeued| ==> dequeued[i].born < born
    ensures HandedOver(dequeued, file, born) == []
  {
    if dequeued != [] {
      NothingHandedOver(dequeued[..|dequeued| - 1], file, born);
    }
  }

  lemma UpdateItemOk(cfg: Config, s: State, args: string, now: int, jit: int)
    requires UpdateTarget(s.cache, cfg, args + [NUL]).Some?
    requires var file := UpdateTarget(s.cache, cfg, args + [NUL]).value.0;
      file in s.cache.items ==> ItemOk(s, file)
    requires forall i :: 0 <= i < |s.history.dequeued| ==> s.history.dequeued[i].born < s.history.births
    ensures var file := UpdateTarget(s.cache, cfg, args + [NUL]).value.0;
      var s' := UpdateStep(cfg, s, args, now, jit);
      file in s'.cache.items && ItemOk(s', file)
  {
    hide HandedOver, Accept, Clocked, UpdateTarget;
    var (file, rest) := UpdateTarget(s.cache, cfg, args + [NUL]).value;
    var ci := ItemFor(s.cache, file, now, jit);
    var h := s.history;
    if file in s.cache.items {
      AcceptOk(Get(h.life, file), Get(h.settled, file), HandedOver(h.dequeued, file, Born(h, file)), ci.values,
               ci.lastStamp, rest);
    } else {
      NothingHandedOver(h.dequeued, file, h.births);
      NothingClocked();
      AcceptOk([], [], HandedOver(h.dequeued, file, h.births), ci.values, ci.lastStamp, rest);
    }
  }

  lemma AcceptOk(life: seq<string>, settled: seq<string>, handed: seq<string>, values: seq<string>, stamp: int,
                 rest: string)
    requires life == settled + (handed + values) && Clocked(life) == Some(stamp)
    ensures life + Accept(rest, stamp).values == settled + (handed + (values + Accept(rest, stamp).values))
    ensures Clocked(life + Accept(rest, stamp).values) == Some(Accept(rest, stamp).stamp)
  {
    AcceptClocked(rest, life, stamp);
    Assoc(handed, values, Accept(rest, stamp).values);
    Assoc(settled, handed + values, Accept(rest, stamp).values);
  }

  lemma UpdateConserved(cfg: Config, s: State, args: string, now: int, jit: int)
    requires Conserved(cfg, s) && Enabled(cfg, s, UpdateCmd(args, now, jit))
    ensures Conserved(cfg, UpdateStep(cfg, s, args, now, jit))
  {
    hide HandedOver, Accept, Clocked, UpdateTarget, GetField, CacheOk;
    if UpdateTarget(s.cache, cfg, args + [NUL]).Some? {
      var s' := UpdateStep(cfg, s, args, now, jit);
      var (file, rest) := UpdateTarget(s.cache, cfg, args + [NUL]).value;
      UpdateOk(s.cache, cfg, now, jit, file, rest);
      UpdateItemOk(cfg, s, args, now, jit);
      forall f | f in s'.cache.items
        ensures ItemOk(s', f) && s'.cache.items[f].lastFlush <= s'.clock + cfg.jitter
      {
        if f != file {
          assert ItemOk(s, f);
        }
      }
    }
  }

  lemma TakeConserved(cfg: Config, s: State, thread: nat, jit: int)
    requires Conserved(cfg, s) && Enabled(cfg, s, TakeBatch(thread, jit))
    ensures Conserved(cfg, TakeStep(s, thread, jit))
  {
    hide HandedOver, Clocked, CacheOk, Without, ItemOk;
    var s' := TakeStep(s, thread, jit);
    DequeueOk(s.cache, s.clock, jit);
    assert Born(s.history, s.cache.queue[0]) < s.history.births by {
      assert ItemOk(s, s.cache.queue[0]);
      BornBefore(s, s.cache.queue[0]);
    }
    forall f | f in s'.cache.items
      ensures ItemOk(s', f) && s'.cache.items[f].lastFlush <= s'.clock + cfg.jitter
    {
      assert ItemOk(s, f);
      TakeItemOk(s, thread, jit, f);
    }
  }

  lemma BornBefore(s: State, file: string)
    requires file in s.cache.items && ItemOk(s, file)
    ensures Born(s.history, file) < s.history.births
  {
  }

  lemma TakeItemOk(s: State, thread: nat, jit: int, f: string)
    requires CacheOk(s.cache) && s.cache.queue != [] && f in s.cache.items && ItemOk(s, f)
    ensures ItemOk(TakeStep(s, thread, jit), f)
  {
    hide HandedOver, Clocked, Without;
    var s' := TakeStep(s, thread, jit);
    var file := s.cache.queue[0];
    var b := Batch(file, Born(s.history, file), s.cache.items[file].values);
    HandedOverNext(s.history.dequeued, b, f, s.history.born[f]);
    var handed := HandedOver(s'.history.dequeued, f, s.history.born[f]);
    assert handed + [] == handed;
  }

  /** Steps that neither accept nor hand over values. */
  lemma KeepConserved(cfg: Config, s: State, s': State)
    requires Conserved(cfg, s) && CacheOk(s'.cache) && s.clock <= s'.clock
    requires forall f :: f in s'.cache.items ==> f in s.cache.items && s'.cache.items[f] == s.cache.items[f]
    requires s'.history.life == s.history.life && s'.history.born == s.history.born
    requires s'.history.settled == s.history.settled
    requires s'.history.births == s.history.births && s'.history.dequeued == s.history.dequeued
    ensures Conserved(cfg, s')
  {
    forall f | f in s'.cache.items
      ensures ItemOk(s', f) && s'.cache.items[f].lastFlush <= s'.clock + cfg.jitter
    {
      assert ItemOk(s, f);
    }
  }

  lemma ConservedCache(cfg: Config, s: State)
    requires Conserved(cfg, s)
    ensures CacheOk(s.cache)
  {
  }

  lemma StepConserved(cfg: Config, s: State, a: Action)
    requires Conserved(cfg, s) && Enabled(cfg, s, a)
    ensures Conserved(cfg, Step(cfg, s, a))
  {
    hide Conserved, CacheOk, UpdateStep, TakeStep, GetField, InFlight, Traversal, Clean;
    assert CacheOk(s.cache) by {
      ConservedCache(cfg, s);
    }
    match a
    case UpdateCmd(args, now, jit) => UpdateConserved(cfg, s, args, now, jit);
    case TakeBatch(thread, jit) => TakeConserved(cfg, s, thread, jit);
    case FlushCmd(args) =>
      if GetField(args + [NUL]).Field? {
        FlushOk(s.cache, GetField(args + [NUL]).text);
      }
      KeepConserved(cfg, s, Step(cfg, s, a));
    case ForgetCmd(args) =>
      if GetField(args + [NUL]).Field? {
        ForgetOk(s.cache, GetField(args + [NUL]).text);
      }
      KeepConserved(cfg, s, Step(cfg, s, a));
    case SweepTree(maxAge, order) =>
      SweepOk(s.cache, cfg, s.phase == Running, s.clock, maxAge, order);
      KeepConserved(cfg, s, Step(cfg, s, a));
    case FinalSweep(order) =>
      SweepOk(s.cache, cfg, s.phase == Running, s.clock, -1, order);
      KeepConserved(cfg, s, Step(cfg, s, a));
    case _ => KeepConserved(cfg, s, Step(cfg, s, a));
  }

  lemma WroteFlights(cfg: Config, s: State, i: nat)
    requires FlightsOk(cfg, s) && i < |s.flights|
    ensures FlightsOk(cfg, WroteStep(s, i))
  {
    var s' := WroteStep(s, i);
    assert forall j :: 0 <= j < |s'.flights| ==> s'.flights[j] == if j < i then s.flights[j] else s.flights[j + 1];
  }

  lemma TakeFlights(cfg: Config, s: State, thread: nat, jit: int)
    requires FlightsOk(cfg, s) && Enabled(cfg, s, TakeBatch(thread, jit))
    ensures FlightsOk(cfg, TakeStep(s, thread, jit))
  {
    hide Without;
  }

  lemma StepFlights(cfg: Config, s: State, a: Action)
    requires FlightsOk(cfg, s) && Enabled(cfg, s, a)
    ensures FlightsOk(cfg, Step(cfg, s, a))
  {
    hide GetField, Accept, DueOnes, TakeStep, WroteStep;
    match a
    case TakeBatch(thread, jit) => TakeFlights(cfg, s, thread, jit);
    case RecordWrote(i) => WroteFlights(cfg, s, i);
    case _ =>
  }

  lemma TakeDisk(s: State, thread: nat, jit: int)
    requires DiskOk(s) && s.cache.queue != [] && s.cache.queue[0] in s.cache.items
    ensures DiskOk(TakeStep(s, thread, jit))
  {
    var s', d := TakeStep(s, thread, jit), s.history.dequeued;
    forall id: nat | id < |d| + 1
      ensures OnDisk(s'.history.disk, id) <==> !Waiting(s'.flights, id)
    {
      if id < |d| {
        WaitingNext(s.flights, s'.flights[|s.flights|], id);
      } else {
        assert s'.flights[|s.flights|].id == id;
      }
    }
  }

  lemma WaitingNext(flights: seq<Flight>, fl: Flight, id: nat)
    requires fl.id != id
    ensures Waiting(flights + [fl], id) <==> Waiting(flights, id)
  {
    if Waiting(flights, id) {
      var i :| 0 <= i < |flights| && flights[i].id == id && !flights[i].written;
      assert (flights + [fl])[i] == flights[i];
    }
  }

  lemma OnDiskNext(disk: seq<Write>, w: Write, id: nat)
    ensures OnDisk(disk + [w], id) <==> OnDisk(disk, id) || w.id == id
  {
    if OnDisk(disk, id) {
      var k :| 0 <= k < |disk| && disk[k].id == id;
      assert (disk + [w])[k] == disk[k];
    }
    assert (disk + [w])[|disk|] == w;
  }

  /** With distinct ids, marking flight `i` as written takes just its id off the waiting. */
  lemma WaitingWritten(flights: seq<Flight>, i: nat, id: nat)
    requires i < |flights| && forall j, k :: 0 <= j < k < |flights| ==> flights[j].id < flights[k].id
    ensures Waiting(flights[i := flights[i].(written := true)], id) <==> Waiting(flights, id) && id != flights[i].id
  {
    var after := flights[i := flights[i].(written := true)];
    if Waiting(flights, id) && id != flights[i].id {
      var j :| 0 <= j < |flights| && flights[j].id == id && !flights[j].written;
      assert after[j] == flights[j];
    }
    if Waiting(after, id) {
      var j :| 0 <= j < |after| && after[j].id == id && !after[j].written;
      assert flights[j] == after[j];
    }
  }

  /** Removing a written flight changes nothing about the waiting. */
  lemma WaitingRemoved(flights: seq<Flight>, i: nat, id: nat)
    requires i < |flights| && flights[i].written
    ensures Waiting(flights[..i] + flights[i + 1..], id) <==> Waiting(flights, id)
  {
    var after := flights[..i] + flights[i + 1..];
    if Waiting(flights, id) {
      var j :| 0 <= j < |flights| && flights[j].id == id && !flights[j].written;
      assert after[if j < i then j else j - 1] == flights[j];
    }
    if Waiting(after, id) {
      var j :| 0 <= j < |after| && after[j].id == id && !after[j].written;
      assert flights[if j < i then j else j + 1] == after[j];
    }
  }

  lemma WriteDisk(s: State, i: nat)
    requires DiskOk(s) && i < |s.flights| && !s.flights[i].written
    ensures DiskOk(WriteStep(s, i))
  {
    var s', fl := WriteStep(s, i), s.flights[i];
    forall id: nat | id < |s.history.dequeued|
      ensures OnDisk(s'.history.disk, id) <==> !Waiting(s'.flights, id)
    {
      OnDiskNext(s.history.disk, Write(fl.id, fl.file, fl.batch), id);
      WaitingWritten(s.flights, i, id);
    }
    assert Waiting(s.flights, fl.id);
    forall k | 0 <= k < |s.history.disk|
      ensures s.history.disk[k].id != fl.id
    {
      assert s.history.disk[k].id == fl.id ==> OnDisk(s.history.disk, fl.id);
    }
  }

  lemma WroteDisk(s: State, i: nat)
    requires DiskOk(s) && i < |s.flights| && s.flights[i].written
    ensures DiskOk(WroteStep(s, i))
  {
    var s' := WroteStep(s, i);
    forall id: nat | id < |s.history.dequeued|
      ensures OnDisk(s'.history.disk, id) <==> !Waiting(s'.flights, id)
    {
      WaitingRemoved(s.flights, i, id);
    }
    assert forall j :: 0 <= j < |s'.flights| ==> s'.flights[j] == if j < i then s.flights[j] else s.flights[j + 1];
  }

  lemma StaleDisk(s: State, s': State, files: set<string>)
    requires DiskOk(s) && s'.flights == MarkStale(s.flights, files)
    requires s'.history.dequeued == s.history.dequeued && s'.history.disk == s.history.disk
    ensures DiskOk(s')
  {
    forall id: nat | id < |s.history.dequeued|
      ensures Waiting(s'.flights, id) <==> Waiting(s.flights, id)
    {
      if Waiting(s.flights, id) {
        var j :| 0 <= j < |s.flights| && s.flights[j].id == id && !s.flights[j].written;
        assert s'.flights[j].id == id;
      }
      if Waiting(s'.flights, id) {
        var j :| 0 <= j < |s'.flights| && s'.flights[j].id == id && !s'.flights[j].written;
        assert s.flights[j].id == id;
      }
    }
  }

  lemma StepDisk(cfg: Config, s: State, a: Action)
    requires DiskOk(s) && Enabled(cfg, s, a)
    ensures DiskOk(Step(cfg, s, a))
  {
    match a
    case TakeBatch(thread, jit) => TakeDisk(s, thread, jit);
    case WriteBatch(i) => WriteDisk(s, i);
    case RecordWrote(i) => WroteDisk(s, i);
    case ForgetCmd(args) =>
      var r := GetField(args + [NUL]);
      if r.Field? && r.text in s.cache.items {
        StaleDisk(s, Step(cfg, s, a), {r.text});
      }
    case SweepTree(maxAge, order) =>
      StaleDisk(s, Step(cfg, s, a), s.cache.items.Keys - Step(cfg, s, a).cache.items.Keys);
    case FinalSweep(order) =>
      if cfg.flushAtShutdown {
        StaleDisk(s, Step(cfg, s, a), s.cache.items.Keys - Step(cfg, s, a).cache.items.Keys);
      }
    case _ => assert Step(cfg, s, a).flights == s.flights;
  }

  ghost predicate Inv(cfg: Config, s: State) {
    Conserved(cfg, s) && FlightsOk(cfg, s) && DiskOk(s)
  }

  /** Conservation, in every run of any number of threads. */
  lemma {:induction false} RunInv(cfg: Config, boot: Boot, run: seq<Action>)
    ensures var r := Exec(cfg, boot, run); r.Some? ==> Inv(cfg, r.value)
  {
    if run != [] {
      var n := |run| - 1;
      RunInv(cfg, boot, run[..n]);
      var r := Exec(cfg, boot, run[..n]);
      if r.Some? && Enabled(cfg, r.value, run[n]) {
        StepConserved(cfg, r.value, run[n]);
        StepFlights(cfg, r.value, run[n]);
        StepDisk(cfg, r.value, run[n]);
      }
    } else {
      InitialInv(cfg, boot);
    }
  }

  /** However a daemon starts, also after a crash. */
  lemma InitialInv(cfg: Config, boot: Boot)
    ensures Inv(cfg, Initial(cfg, boot))
  {
    hide Replay, Settled, Clocked, CacheOk;
    var s, jit := Initial(cfg, boot), Drawn(cfg, boot.random);
    ReplayOk(cfg, boot.journal, boot.clock, jit);
    forall f | f in s.cache.items
      ensures ItemOk(s, f) && s.cache.items[f].lastFlush <= s.clock + cfg.jitter
    {
      assert ItemReplayed(s.cache, s.history.settled, s.clock + cfg.jitter, f);
      var values := s.cache.items[f].values;
      assert [] + values == values;
    }
  }

  /** In every run, the stamps accepted for a cached file increase strictly. */
  lemma AcceptedStampsIncrease(cfg: Config, boot: Boot, run: seq<Action>, file: string, i: nat, j: nat)
    requires Exec(cfg, boot, run).Some?
    requires file in Exec(cfg, boot, run).value.cache.items
    requires i < j < |Get(Exec(cfg, boot, run).value.history.life, file)|
    ensures var life := Get(Exec(cfg, boot, run).value.history.life, file);
      && Stamp(life[i]).Some? && Stamp(life[j]).Some?
      && 0 < Stamp(life[i]).value < Stamp(life[j]).value
      && Stamp(life[j]).value <= Exec(cfg, boot, run).value.cache.items[file].lastStamp
  {
    var s := Exec(cfg, boot, run).value;
    RunInv(cfg, boot, run);
    assert ItemOk(s, file);
    ClockedIncreases(Get(s.history.life, file), i, j);
  }

  predicate IsForgetOf(a: Action, file: string) {
    a.ForgetCmd? && GetField(a.args + [NUL]).Field? && GetField(a.args + [NUL]).text == file
  }

  /** All values of a file's present item that a writer took or that are pending. */
  function Kept(s: State, file: string): seq<string> {
    HandedOver(s.history.dequeued, file, Born(s.history, file)) + Pending(s, file)
  }

  /** What was dequeued and written stays so; `file` keeps its item with every value taken
      or pending, or its item is removed when no value is pending. */
  predicate NothingDropped(s: State, s': State, file: string) {
    && s.history.dequeued <= s'.history.dequeued && s.history.disk <= s'.history.disk
    && if file in s'.cache.items then Born(s'.history, file) == Born(s.history, file) && Kept(s, file) <= Kept(s', file)
       else Pending(s, file) == []
  }

  lemma UpdateDropsNothing(cfg: Config, s: State, args: string, now: int, jit: int, file: string)
    requires file in s.cache.items
    ensures NothingDropped(s, UpdateStep(cfg, s, args, now, jit), file)
  {
    hide HandedOver, Accept, GetField;
    if UpdateTarget(s.cache, cfg, args + [NUL]).Some? {
      var (f, rest) := UpdateTarget(s.cache, cfg, args + [NUL]).value;
      var handed := HandedOver(s.history.dequeued, file, Born(s.history, file));
      assert Update(s.cache, cfg, now, jit, f, rest).items.Keys == s.cache.items.Keys + {f};
      if f == file {
        Assoc(handed, Pending(s, file), Accept(rest, s.cache.items[file].lastStamp).values);
      }
    }
  }

  lemma SweepDropsNothing(cfg: Config, s: State, maxAge: int, order: seq<string>, phase: Phase, file: string)
    requires file in s.cache.items
    ensures NothingDropped(s, SweepStep(cfg, s, maxAge, order).(phase := phase), file)
  {
    hide HandedOver;
    if file !in SweepStep(cfg, s, maxAge, order).cache.items {
      assert Stale(s.cache, cfg, file, s.clock);
    }
  }

  lemma KeepsAll(s: State, s': State, file: string)
    requires file in s'.cache.items && Pending(s', file) == Pending(s, file)
    requires s'.history.born == s.history.born
    requires s.history.dequeued == s'.history.dequeued && s.history.disk <= s'.history.disk
    ensures NothingDropped(s, s', file)
  {
  }

  lemma TakeDropsNothing(s: State, thread: nat, jit: int, file: string)
    requires s.cache.queue != [] && s.cache.queue[0] in s.cache.items && file in s.cache.items
    ensures NothingDropped(s, TakeStep(s, thread, jit), file)
  {
    hide HandedOver, Without;
    var s', head := TakeStep(s, thread, jit), s.cache.queue[0];
    var b := Batch(head, Born(s.history, head), s.cache.items[head].values);
    HandedOverNext(s.history.dequeued, b, file, Born(s.history, file));
    var handed := HandedOver(s'.history.dequeued, file, Born(s.history, file));
    assert handed + [] == handed;
  }

  lemma ForgetDropsOnlyIts(s: State, f: string, file: string)
    requires f != file && file in s.cache.items
    ensures NothingDropped(s, ForgetStep(s, f), file)
  {
  }

  lemma FlushKeepsAll(s: State, f: string, file: string)
    requires file in s.cache.items
    ensures NothingDropped(s, s.(cache := Flush(s.cache, f)), file)
  {
  }

  /** Only FORGET drops pending values; the idle purge, in particular, never does. Nothing
      drops a batch: whatever has been dequeued is on disk or still to be written. */
  lemma OnlyForgetDrops(cfg: Config, s: State, a: Action, file: string)
    requires Inv(cfg, s) && Enabled(cfg, s, a) && file in s.cache.items && !IsForgetOf(a, file)
    ensures NothingDropped(s, Step(cfg, s, a), file)
    ensures Inv(cfg, Step(cfg, s, a))
  {
    hide DiskOk, Conserved, FlightsOk, HandedOver, Clocked, UpdateStep, TakeStep, ForgetStep, NothingDropped, Flush;
    StepConserved(cfg, s, a);
    StepFlights(cfg, s, a);
    StepDisk(cfg, s, a);
    match a
    case UpdateCmd(args, now, jit) => UpdateDropsNothing(cfg, s, args, now, jit, file);
    case TakeBatch(thread, jit) => TakeDropsNothing(s, thread, jit, file);
    case SweepTree(maxAge, order) => SweepDropsNothing(cfg, s, maxAge, order, s.phase, file);
    case FinalSweep(order) =>
      if cfg.flushAtShutdown {
        SweepDropsNothing(cfg, s, -1, order, Shutdown, file);
      } else {
        KeepsAll(s, Step(cfg, s, a), file);
      }
    case FlushCmd(args) =>
      var r := GetField(args + [NUL]);
      if r.Field? {
        FlushKeepsAll(s, r.text, file);
      } else {
        KeepsAll(s, s, file);
      }
    case ForgetCmd(args) =>
      var r := GetField(args + [NUL]);
      if r.Field? {
        ForgetDropsOnlyIts(s, r.text, file);
      } else {
        KeepsAll(s, s, file);
      }
    case _ => KeepsAll(s, Step(cfg, s, a), file);
  }

  /** Value `v` is in a batch of the present item of `file` that a writer has still to
      write, or in one on disk. */
  ghost predicate OnItsWay(s: State, file: string, v: string) {
    var d, born := s.history.dequeued, Born(s.history, file);
    || (exists i :: 0 <= i < |s.flights| && !s.flights[i].written && v in s.flights[i].batch
          && s.flights[i].id < |d| && d[s.flights[i].id].file == s.flights[i].file == file
          && d[s.flights[i].id].born == born)
    || (exists k :: 0 <= k < |s.history.disk| && v in s.history.disk[k].values
          && s.history.disk[k].id < |d| && d[s.history.disk[k].id].file == s.history.disk[k].file == file
          && d[s.history.disk[k].id].born == born)
  }

  /** At any moment of any run, every value accepted for a cached file is pending, in a
      batch of its present item that is with a writer or on disk, or recorded as written
      in the journal found at the start. */
  lemma EveryValueSomewhere(cfg: Config, boot: Boot, run: seq<Action>, file: string, v: string)
    requires Exec(cfg, boot, run).Some?
    requires file in Exec(cfg, boot, run).value.cache.items
    requires v in Get(Exec(cfg, boot, run).value.history.life, file)
    ensures var s := Exec(cfg, boot, run).value;
      v in Get(s.history.settled, file) || v in s.cache.items[file].values || OnItsWay(s, file, v)
  {
    var s := Exec(cfg, boot, run).value;
    RunInv(cfg, boot, run);
    assert ItemOk(s, file);
    if v !in Get(s.history.settled, file) {
      KeptSomewhere(s, file, v);
    }
  }

  lemma KeptSomewhere(s: State, f: string, v: string)
    requires DiskOk(s) && f in s.cache.items && v in Kept(s, f)
    ensures v in s.cache.items[f].values || OnItsWay(s, f, v)
  {
    if v !in s.cache.items[f].values {
      var id := BatchWith(s.history.dequeued, f, Born(s.history, f), v);
      BatchOnItsWay(s, f, v, id);
    }
  }

  lemma BatchOnItsWay(s: State, file: string, v: string, id: nat)
    requires DiskOk(s) && id < |s.history.dequeued| && v in s.history.dequeued[id].values
    requires s.history.dequeued[id].file == file && s.history.dequeued[id].born == Born(s.history, file)
    ensures OnItsWay(s, file, v)
  {
    if OnDisk(s.history.disk, id) {
      var k :| 0 <= k < |s.history.disk| && s.history.disk[k].id == id;
      assert s.history.disk[k].file == file && v in s.history.disk[k].values;
    } else {
      assert Waiting(s.flights, id);
      var i :| 0 <= i < |s.flights| && s.flights[i].id == id && !s.flights[i].written;
      assert s.flights[i].file == file && v in s.flights[i].batch;
    }
  }

  /** A value handed over is in one of the batches of its file. */
  lemma {:induction false} BatchWith(dequeued: seq<Batch>, file: string, born: nat, v: string) returns (id: nat)
    requires v in HandedOver(dequeued, file, born)
    ensures id < |dequeued| && dequeued[id].file == file && dequeued[id].born == born && v in dequeued[id].values
  {
    var n := |dequeued| - 1;
    if v in HandedOver(dequeued[..n], file, born) {
      id := BatchWith(dequeued[..n], file, born, v);
    } else {
      id := n;
    }
  }
}
