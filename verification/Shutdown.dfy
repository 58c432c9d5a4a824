/** Flushing everything: what `flush_old_values (-1)` and an orderly shutdown achieve. */
module Shutdown {
  import opened Text
  import opened Wire
  import opened CacheModel
  import opened Restart
  import opened Daemon

  ghost predicate AllQueued(c: Cache) {
    forall f :: f in c.items && c.items[f].values != [] ==> f in c.queue
  }

  /** FLUSHALL, in any state of any run: every file with pending values is queued, behind
      what was queued before, and no pending value is lost. */
  lemma FlushAllQueuesAll(cfg: Config, boot: Boot, run: seq<Action>, order: seq<string>)
    requires Exec(cfg, boot, run).Some?
    requires Traversal(Exec(cfg, boot, run).value.cache, order)
    ensures var s := Exec(cfg, boot, run).value;
      var c := SweepStep(cfg, s, -1, order).cache;
      && AllQueued(c) && s.cache.queue <= c.queue
      && forall f :: f in s.cache.items && s.cache.items[f].values != [] ==>
           f in c.items && c.items[f] == s.cache.items[f]
  {
    var s := Exec(cfg, boot, run).value;
    RunInv(cfg, boot, run);
    SweepQueuesAll(s.cache, cfg, s.phase == Running, s.clock, order);
  }

  /** After the final sweep everything pending is queued; once a writer thread has ended
      nothing is left in the queue. */
  ghost predicate Draining(s: State) {
    && (s.phase == Phase.Shutdown ==> AllQueued(s.cache))
    && (s.exited != {} ==> s.phase == Phase.Shutdown && s.cache.queue == [])
  }

  lemma SweepOfQueued(c: Cache, order: seq<string>, running: bool, timeout: int)
    requires AllQueued(c)
    ensures DueOnes(c, order, running, timeout) == []
  {
  }

  lemma SweepDraining(cfg: Config, s: State, maxAge: int, order: seq<string>)
    requires Draining(s)
    ensures Draining(SweepStep(cfg, s, maxAge, order))
  {
    if s.phase == Phase.Shutdown {
      SweepOfQueued(s.cache, order, false, AbsTimeout(cfg, s.clock, maxAge));
    }
  }

  lemma TakeDraining(cfg: Config, s: State, thread: nat, jit: int)
    requires Draining(s) && s.cache.queue != [] && s.cache.queue[0] in s.cache.items
    ensures Draining(TakeStep(s, thread, jit))
  {
    WithoutProps(s.cache.queue, s.cache.queue[0]);
  }

  lemma ForgetDraining(s: State, file: string)
    requires Draining(s)
    ensures Draining(ForgetStep(s, file))
  {
    WithoutProps(s.cache.queue, file);
  }

  lemma FlushDraining(s: State, file: string)
    requires Draining(s)
    ensures Draining(s.(cache := Flush(s.cache, file)))
  {
    WithoutProps(s.cache.queue, file);
  }

  lemma FinalDraining(cfg: Config, s: State, order: seq<string>)
    requires Draining(s) && Conserved(cfg, s) && cfg.flushAtShutdown
    requires s.phase == Flushing && Traversal(s.cache, order)
    ensures Draining(SweepStep(cfg, s, -1, order).(phase := Phase.Shutdown))
  {
    assert forall f :: f in s.cache.items ==> ItemOk(s, f) && s.cache.items[f].lastFlush <= s.clock + cfg.jitter;
    SweepQueuesAll(s.cache, cfg, false, s.clock, order);
  }

  lemma StepDraining(cfg: Config, s: State, a: Action)
    requires Draining(s) && Conserved(cfg, s) && cfg.flushAtShutdown
    requires Enabled(cfg, s, a) && (a.UpdateCmd? ==> s.phase != Phase.Shutdown)
    ensures Draining(Step(cfg, s, a))
  {
    match a
    case FlushCmd(args) =>
      if GetField(args + [NUL]).Field? {
        FlushDraining(s, GetField(args + [NUL]).text);
      }
    case ForgetCmd(args) =>
      if GetField(args + [NUL]).Field? {
        ForgetDraining(s, GetField(args + [NUL]).text);
      }
    case TakeBatch(thread, jit) => TakeDraining(cfg, s, thread, jit);
    case SweepTree(maxAge, order) => SweepDraining(cfg, s, maxAge, order);
    case FinalSweep(order) => FinalDraining(cfg, s, order);
    case UpdateCmd(args, now, jit) => assert UpdateStep(cfg, s, args, now, jit).phase == s.phase;
    case _ =>
  }

  /** No UPDATE follows the final sweep. */
  predicate SettledRun(cfg: Config, boot: Boot, run: seq<Action>) {
    if run == [] then true
    else
      var n := |run| - 1;
      && SettledRun(cfg, boot, run[..n])
      && (match Exec(cfg, boot, run[..n])
          case None => true
          case Some(s) => run[n].UpdateCmd? ==> s.phase != Phase.Shutdown)
  }

  lemma {:induction false} RunDraining(cfg: Config, boot: Boot, run: seq<Action>)
    requires SettledRun(cfg, boot, run) && cfg.flushAtShutdown
    ensures var e := Exec(cfg, boot, run); e.Some? ==> Draining(e.value)
  {
    if run != [] {
      var n := |run| - 1;
      RunDraining(cfg, boot, run[..n]);
      RunInv(cfg, boot, run[..n]);
      var e := Exec(cfg, boot, run[..n]);
      if e.Some? && Enabled(cfg, e.value, run[n]) {
        StepDraining(cfg, e.value, run[n]);
      }
    }
  }

  lemma FlightHasThread(cfg: Config, s: State)
    requires FlightsOk(cfg, s) && s.flights != []
    ensures exists t: nat :: t < cfg.threads && t !in s.exited
  {
    var thread := s.flights[0].thread;
    assert thread < cfg.threads && thread !in s.exited;
  }

  /** Value `v` is on disk in a batch of the present item of `file`. */
  ghost predicate WrittenFor(s: State, file: string, v: string) {
    exists k :: 0 <= k < |s.history.disk| && v in s.history.disk[k].values
      && s.history.disk[k].id < |s.history.dequeued| && s.history.disk[k].file == file
      && s.history.dequeued[s.history.disk[k].id].file == file
      && s.history.dequeued[s.history.disk[k].id].born == Born(s.history, file)
  }

  /** Clean shutdown: with flushing at shutdown, once every writer thread has ended, the
      queue and all pending lists are empty and nothing is in flight; every value accepted
      for a cached file is on disk in a batch of its present item, or was recorded as
      written before the start, and each batch dequeued has been written exactly once and
      as it was dequeued. */
  lemma CleanShutdown(cfg: Config, boot: Boot, run: seq<Action>)
    requires SettledRun(cfg, boot, run) && cfg.flushAtShutdown && cfg.threads > 0
    requires Exec(cfg, boot, run).Some?
    requires forall t: nat :: t < cfg.threads ==> t in Exec(cfg, boot, run).value.exited
    ensures var s := Exec(cfg, boot, run).value;
      && s.cache.queue == [] && s.flights == []
      && (forall f :: f in s.cache.items ==>
            && s.cache.items[f].values == []
            && Get(s.history.life, f) ==
                 Get(s.history.settled, f) + HandedOver(s.history.dequeued, f, Born(s.history, f)))
      && DiskOk(s) && (forall id: nat :: id < |s.history.dequeued| ==> OnDisk(s.history.disk, id))
      && (forall f, v :: f in s.cache.items && v in Get(s.history.life, f) ==>
            v in Get(s.history.settled, f) || WrittenFor(s, f, v))
  {
    var s := Exec(cfg, boot, run).value;
    RunDraining(cfg, boot, run);
    RunInv(cfg, boot, run);
    assert 0 in s.exited;
    if s.flights != [] {
      FlightHasThread(cfg, s);
    }
    forall f | f in s.cache.items
      ensures s.cache.items[f].values == []
      ensures Get(s.history.life, f) ==
        Get(s.history.settled, f) + HandedOver(s.history.dequeued, f, Born(s.history, f))
    {
      assert ItemOk(s, f);
      var handed := HandedOver(s.history.dequeued, f, Born(s.history, f));
      assert handed + [] == handed;
    }
    forall f, v | f in s.cache.items && v in Get(s.history.life, f)
      ensures v in Get(s.history.settled, f) || WrittenFor(s, f, v)
    {
      EveryValueSomewhere(cfg, boot, run, f, v);
    }
  }
}
