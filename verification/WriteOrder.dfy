/** In which order the batches of one file reach the disk. Writers write outside the lock,
    so with several of them the order of dequeuing need not be kept. */
module WriteOrder {
  import opened Wire
  import opened CacheModel
  import opened Restart
  import opened Daemon
  import opened Recovery
  import opened Shutdown

  // ---------------------------------------------------------------- keeping the order

  /** Batch `id` is a batch of `file` dequeued before batch `later`. */
  predicate Before(dequeued: seq<Batch>, id: nat, later: nat, file: string) {
    id < later && id < |dequeued| && dequeued[id].file == file
  }

  /** Each write of `file` comes after the writes of all its batches dequeued earlier. */
  ghost predicate Orderly(disk: seq<Write>, dequeued: seq<Batch>, file: string) {
    forall k, id: nat :: 0 <= k < |disk| && disk[k].file == file && Before(dequeued, id, disk[k].id, file) ==>
      OnDisk(disk[..k], id)
  }

  /** A write of `file` is in turn if no batch of the file taken earlier is still unwritten
      when it begins. */
  predicate InTurn(s: State, a: Action, file: string) {
    a.WriteBatch? && a.flight < |s.flights| && s.flights[a.flight].file == file ==>
      forall j :: 0 <= j < a.flight && s.flights[j].file == file ==> s.flights[j].written
  }

  lemma OrderlyNext(disk: seq<Write>, w: Write, dequeued: seq<Batch>, file: string)
    ensures Orderly(disk + [w], dequeued, file) <==>
      && Orderly(disk, dequeued, file)
      && (w.file == file ==>
            forall id: nat :: Before(dequeued, id, w.id, file) ==> OnDisk(disk, id))
  {
    hide OnDisk;
    var after, n := disk + [w], |disk|;
    assert forall k :: 0 <= k < n ==> after[k] == disk[k] && after[..k] == disk[..k];
    assert after[n] == w && after[..n] == disk;
    if Orderly(after, dequeued, file) {
      forall k, id: nat | 0 <= k < n && disk[k].file == file && Before(dequeued, id, disk[k].id, file)
        ensures OnDisk(disk[..k], id)
      {
        assert after[k] == disk[k];
      }
    }
  }

  /** A step that writes nothing does not disturb the order. */
  lemma OrderlyKept(disk: seq<Write>, dequeued: seq<Batch>, more: seq<Batch>, file: string)
    requires dequeued <= more && forall k :: 0 <= k < |disk| ==> disk[k].id < |dequeued|
    ensures Orderly(disk, more, file) <==> Orderly(disk, dequeued, file)
  {
    hide OnDisk;
    if Orderly(disk, more, file) {
      forall k, id: nat | 0 <= k < |disk| && disk[k].file == file && Before(dequeued, id, disk[k].id, file)
        ensures OnDisk(disk[..k], id)
      {
        assert Before(more, id, disk[k].id, file);
      }
    }
  }

  /** A write keeps the order exactly when it is in turn. */
  lemma WriteOrderly(s: State, i: nat, file: string)
    requires DiskOk(s) && i < |s.flights| && !s.flights[i].written
    ensures Orderly(WriteStep(s, i).history.disk, s.history.dequeued, file) <==>
      Orderly(s.history.disk, s.history.dequeued, file) && InTurn(s, WriteBatch(i), file)
  {
    hide Orderly, OnDisk, Waiting;
    var fl, d := s.flights[i], s.history.dequeued;
    OrderlyNext(s.history.disk, Write(fl.id, fl.file, fl.batch), d, file);
    if fl.file == file {
      EarlierOnDisk(s, i);
    }
  }

  lemma EarlierOnDisk(s: State, i: nat)
    requires DiskOk(s) && i < |s.flights|
    ensures var fl := s.flights[i];
      InTurn(s, WriteBatch(i), fl.file) <==>
        forall id: nat :: Before(s.history.dequeued, id, fl.id, fl.file) ==> OnDisk(s.history.disk, id)
  {
    hide OnDisk;
    var fl := s.flights[i];
    if InTurn(s, WriteBatch(i), fl.file) {
      forall id: nat | Before(s.history.dequeued, id, fl.id, fl.file)
        ensures OnDisk(s.history.disk, id)
      {
        forall j | 0 <= j < |s.flights| && s.flights[j].id == id
          ensures s.flights[j].written
        {
          assert j < i;
        }
        assert !Waiting(s.flights, id);
      }
    } else {
      var j :| 0 <= j < i && s.flights[j].file == fl.file && !s.flights[j].written;
      assert Waiting(s.flights, s.flights[j].id) && Before(s.history.dequeued, s.flights[j].id, fl.id, fl.file);
      assert !OnDisk(s.history.disk, s.flights[j].id);
    }
  }

  lemma StepOrderly(cfg: Config, s: State, a: Action, file: string)
    requires DiskOk(s) && Enabled(cfg, s, a)
    ensures var s' := Step(cfg, s, a);
      Orderly(s'.history.disk, s'.history.dequeued, file) <==>
        Orderly(s.history.disk, s.history.dequeued, file) && InTurn(s, a, file)
  {
    hide Orderly, GetField, Accept, DueOnes;
    var s' := Step(cfg, s, a);
    if a.WriteBatch? {
      WriteOrderly(s, a.flight, file);
    } else {
      assert s'.history.disk == s.history.disk && s.history.dequeued <= s'.history.dequeued;
      OrderlyKept(s.history.disk, s.history.dequeued, s'.history.dequeued, file);
    }
  }

  /** Every write of `file` is in turn. */
  predicate TurnRun(cfg: Config, boot: Boot, run: seq<Action>, file: string) {
    if run == [] then true
    else
      var n := |run| - 1;
      && TurnRun(cfg, boot, run[..n], file)
      && (match Exec(cfg, boot, run[..n])
          case None => true
          case Some(s) => InTurn(s, run[n], file))
  }

  /** After any run, the writes of a file are in the order of dequeuing, without gaps,
      exactly when each of them was in turn. */
  lemma {:induction false} InOrderExactly(cfg: Config, boot: Boot, run: seq<Action>, file: string)
    requires Exec(cfg, boot, run).Some?
    ensures var h := Exec(cfg, boot, run).value.history;
      Orderly(h.disk, h.dequeued, file) <==> TurnRun(cfg, boot, run, file)
  {
    hide Step, Enabled, InTurn;
    if run != [] {
      var n := |run| - 1;
      var s := Exec(cfg, boot, run[..n]).value;
      InOrderExactly(cfg, boot, run[..n], file);
      RunInv(cfg, boot, run[..n]);
      StepOrderly(cfg, s, run[n], file);
    } else {
      NothingWritten(cfg, boot, file);
    }
  }

  lemma NothingWritten(cfg: Config, boot: Boot, file: string)
    ensures Orderly(Initial(cfg, boot).history.disk, Initial(cfg, boot).history.dequeued, file)
  {
  }

  // ---------------------------------------------------------------- as sequences

  /** The batches of `file` in the order they were written. */
  function WrittenIds(disk: seq<Write>, file: string): seq<nat> {
    if disk == [] then []
    else
      var n := |disk| - 1;
      WrittenIds(disk[..n], file) + if disk[n].file == file then [disk[n].id] else []
  }

  /** The batches of `file` in the order they were dequeued. */
  function TakenIds(dequeued: seq<Batch>, file: string): seq<nat> {
    if dequeued == [] then []
    else
      var n := |dequeued| - 1;
      TakenIds(dequeued[..n], file) + if dequeued[n].file == file then [n] else []
  }

  predicate Increasing(ids: seq<nat>) {
    forall i, j :: 0 <= i < j < |ids| ==> ids[i] < ids[j]
  }

  lemma {:induction false} TakenIdsAre(dequeued: seq<Batch>, file: string)
    ensures forall id: nat :: id in TakenIds(dequeued, file) <==> id < |dequeued| && dequeued[id].file == file
    ensures Increasing(TakenIds(dequeued, file))
  {
    if dequeued != [] {
      var n := |dequeued| - 1;
      var front := TakenIds(dequeued[..n], file);
      TakenIdsAre(dequeued[..n], file);
      assert forall i :: 0 <= i < |front| ==> front[i] in front;
    }
  }

  lemma {:induction false} WrittenIdsAre(disk: seq<Write>, dequeued: seq<Batch>, file: string)
    requires forall k :: 0 <= k < |disk| ==> IsBatch(dequeued, disk[k].id, disk[k].file, disk[k].values)
    ensures forall id: nat :: id in WrittenIds(disk, file) <==>
      OnDisk(disk, id) && id < |dequeued| && dequeued[id].file == file
  {
    if disk != [] {
      var n := |disk| - 1;
      WrittenIdsAre(disk[..n], dequeued, file);
      assert disk == disk[..n] + [disk[n]];
      forall id: nat
        ensures id in WrittenIds(disk, file) <==> OnDisk(disk, id) && id < |dequeued| && dequeued[id].file == file
      {
        OnDiskNext(disk[..n], disk[n], id);
      }
    }
  }

  /** Appending to a prefix of an increasing list. */
  lemma PrefixNext(ids: seq<nat>, id: nat, all: seq<nat>)
    requires Increasing(all) && ids <= all && id in all && id !in ids
    ensures ids + [id] <= all <==> forall x :: x in all && x < id ==> x in ids
  {
    var n := |ids|;
    var p :| 0 <= p < |all| && all[p] == id;
    assert p >= n;
    if forall x :: x in all && x < id ==> x in ids {
      if p > n {
        var q := IndexOf(ids, all[n]);
      }
    }
    if ids + [id] <= all {
      assert all[n] == (ids + [id])[n] == id;
      forall x | x in all && x < id
        ensures x in ids
      {
        var q := IndexOf(all, x);
        assert q < n && ids[q] == all[q];
      }
    }
  }

  lemma IndexOf(ids: seq<nat>, x: nat) returns (q: nat)
    requires x in ids
    ensures q < |ids| && ids[q] == x
  {
    q :| q < |ids| && ids[q] == x;
  }

  /** Being orderly means that the writes of the file are a prefix of its batches. */
  lemma {:induction false} OrderlyIsPrefix(disk: seq<Write>, dequeued: seq<Batch>, file: string)
    requires forall k :: 0 <= k < |disk| ==> IsBatch(dequeued, disk[k].id, disk[k].file, disk[k].values)
    requires forall j, k :: 0 <= j < k < |disk| ==> disk[j].id != disk[k].id
    ensures Orderly(disk, dequeued, file) <==> WrittenIds(disk, file) <= TakenIds(dequeued, file)
  {
    hide OnDisk, TakenIds, Orderly;
    if disk == [] {
      NothingOrderly(dequeued, file);
    } else {
      var n := |disk| - 1;
      var before, w := disk[..n], disk[n];
      var ids, all := WrittenIds(before, file), TakenIds(dequeued, file);
      assert disk == before + [w];
      OrderlyIsPrefix(before, dequeued, file);
      OrderlyNext(before, w, dequeued, file);
      TakenIdsAre(dequeued, file);
      WrittenIdsAre(before, dequeued, file);
      if w.file == file {
        NotYetWritten(disk, n);
        if ids <= all {
          PrefixNext(ids, w.id, all);
        }
        assert ids <= ids + [w.id];
      } else {
        assert WrittenIds(disk, file) == ids + [] == ids;
      }
    }
  }

  lemma NothingOrderly(dequeued: seq<Batch>, file: string)
    ensures Orderly([], dequeued, file)
  {
  }

  lemma NotYetWritten(disk: seq<Write>, k: nat)
    requires k < |disk| && forall i, j :: 0 <= i < j < |disk| ==> disk[i].id != disk[j].id
    ensures !OnDisk(disk[..k], disk[k].id)
  {
  }

  // ---------------------------------------------------------------- as values

  /** The values written from the item of `file` with number `born`, in the order in which
      they reached the disk. */
  function DiskValues(disk: seq<Write>, dequeued: seq<Batch>, file: string, born: nat): seq<string> {
    if disk == [] then []
    else
      var n := |disk| - 1;
      var w := disk[n];
      DiskValues(disk[..n], dequeued, file, born)
      + if w.file == file && w.id < |dequeued| && dequeued[w.id].born == born then w.values else []
  }

  /** The values of the batches `ids` that come from item `born`. */
  function ValuesOf(dequeued: seq<Batch>, ids: seq<nat>, born: nat): seq<string> {
    if ids == [] then []
    else
      var n := |ids| - 1;
      var id := ids[n];
      ValuesOf(dequeued, ids[..n], born)
      + if id < |dequeued| && dequeued[id].born == born then dequeued[id].values else []
  }

  lemma ValuesOfNext(dequeued: seq<Batch>, ids: seq<nat>, id: nat, born: nat)
    ensures ValuesOf(dequeued, ids + [id], born) == ValuesOf(dequeued, ids, born)
      + if id < |dequeued| && dequeued[id].born == born then dequeued[id].values else []
  {
    assert (ids + [id])[..|ids|] == ids;
  }

  lemma {:induction false} DiskValuesAre(disk: seq<Write>, dequeued: seq<Batch>, file: string, born: nat)
    requires forall k :: 0 <= k < |disk| ==> IsBatch(dequeued, disk[k].id, disk[k].file, disk[k].values)
    ensures DiskValues(disk, dequeued, file, born) == ValuesOf(dequeued, WrittenIds(disk, file), born)
  {
    if disk != [] {
      var n := |disk| - 1;
      var ids := WrittenIds(disk[..n], file);
      DiskValuesAre(disk[..n], dequeued, file, born);
      ValuesOfNext(dequeued, ids, disk[n].id, born);
      assert ids + [] == ids;
    }
  }

  lemma {:induction false} ValuesOfLonger(dequeued: seq<Batch>, b: Batch, ids: seq<nat>, born: nat)
    requires forall i :: 0 <= i < |ids| ==> ids[i] < |dequeued|
    ensures ValuesOf(dequeued + [b], ids, born) == ValuesOf(dequeued, ids, born)
  {
    if ids != [] {
      ValuesOfLonger(dequeued, b, ids[..|ids| - 1], born);
    }
  }

  lemma NoValues(dequeued: seq<Batch>, born: nat)
    ensures ValuesOf(dequeued, [], born) == []
  {
  }

  lemma TakenIdsNext(dequeued: seq<Batch>, b: Batch, file: string)
    ensures TakenIds(dequeued + [b], file) ==
      TakenIds(dequeued, file) + if b.file == file then [|dequeued|] else []
    ensures TakenIds([], file) == []
  {
    assert (dequeued + [b])[..|dequeued|] == dequeued;
  }

  lemma {:induction false} HandedOverIs(dequeued: seq<Batch>, file: string, born: nat)
    ensures HandedOver(dequeued, file, born) == ValuesOf(dequeued, TakenIds(dequeued, file), born)
  {
    if dequeued == [] {
      NoValues(dequeued, born);
    } else {
      hide ValuesOf, TakenIds, HandedOver;
      var n := |dequeued| - 1;
      var front, b := dequeued[..n], dequeued[n];
      var ids := TakenIds(front, file);
      assert dequeued == front + [b];
      HandedOverIs(front, file, born);
      TakenIdsAre(front, file);
      assert forall i :: 0 <= i < |ids| ==> ids[i] in ids;
      HandedOverNext(front, b, file, born);
      TakenIdsNext(front, b, file);
      ValuesOfLonger(front, b, ids, born);
      ValuesOfNext(dequeued, ids, n, born);
      assert ids + [] == ids;
    }
  }

  lemma {:induction false} ValuesOfPrefix(dequeued: seq<Batch>, ids: seq<nat>, all: seq<nat>, born: nat)
    requires ids <= all
    ensures ValuesOf(dequeued, ids, born) <= ValuesOf(dequeued, all, born)
    decreases |all|
  {
    if |ids| < |all| {
      ValuesOfPrefix(dequeued, ids, all[..|all| - 1], born);
    } else {
      assert ids == all;
    }
  }

  /** When every write of a file is in turn, what the disk holds of it, behind the values
      settled before the start, is at any moment a prefix of what was accepted for it, in
      the order of acceptance. */
  lemma DiskFollowsAcceptance(cfg: Config, boot: Boot, run: seq<Action>, file: string)
    requires Exec(cfg, boot, run).Some? && TurnRun(cfg, boot, run, file)
    requires file in Exec(cfg, boot, run).value.cache.items
    ensures var h := Exec(cfg, boot, run).value.history;
      Get(h.settled, file) + DiskValues(h.disk, h.dequeued, file, Born(h, file)) <= Get(h.life, file)
  {
    hide Orderly, OnDisk;
    var s := Exec(cfg, boot, run).value;
    var h, born := s.history, Born(s.history, file);
    RunInv(cfg, boot, run);
    InOrderExactly(cfg, boot, run, file);
    OrderlyIsPrefix(h.disk, h.dequeued, file);
    DiskValuesAre(h.disk, h.dequeued, file, born);
    HandedOverIs(h.dequeued, file, born);
    ValuesOfPrefix(h.dequeued, WrittenIds(h.disk, file), TakenIds(h.dequeued, file), born);
    assert ItemOk(s, file);
  }

  /** After a clean shutdown the batches of a file are on disk in the order in which they
      were dequeued exactly when each write was in turn; and then, behind the values settled
      before the start, the disk holds the values accepted, all of them and in order. */
  lemma CleanShutdownInOrder(cfg: Config, boot: Boot, run: seq<Action>, file: string)
    requires SettledRun(cfg, boot, run) && cfg.flushAtShutdown && cfg.threads > 0
    requires Exec(cfg, boot, run).Some?
    requires forall t: nat :: t < cfg.threads ==> t in Exec(cfg, boot, run).value.exited
    ensures var s := Exec(cfg, boot, run).value;
      var h := s.history;
      && (WrittenIds(h.disk, file) == TakenIds(h.dequeued, file) <==> TurnRun(cfg, boot, run, file))
      && (TurnRun(cfg, boot, run, file) && file in s.cache.items ==>
            Get(h.settled, file) + DiskValues(h.disk, h.dequeued, file, Born(h, file)) == Get(h.life, file))
  {
    hide Orderly, OnDisk, TakenIds, WrittenIds, TurnRun;
    var s := Exec(cfg, boot, run).value;
    var h, born := s.history, Born(s.history, file);
    CleanShutdown(cfg, boot, run);
    InOrderExactly(cfg, boot, run, file);
    OrderlyIsPrefix(h.disk, h.dequeued, file);
    TakenIdsAre(h.dequeued, file);
    WrittenIdsAre(h.disk, h.dequeued, file);
    AllOfPrefix(WrittenIds(h.disk, file), TakenIds(h.dequeued, file));
    DiskValuesAre(h.disk, h.dequeued, file, born);
    HandedOverIs(h.dequeued, file, born);
  }

  /** A prefix of an increasing list with all its elements is the list. */
  lemma AllOfPrefix(ids: seq<nat>, all: seq<nat>)
    requires Increasing(all) && forall x :: x in all ==> x in ids
    ensures ids <= all <==> ids == all
  {
    if ids <= all && |ids| < |all| {
      var q := IndexOf(ids, all[|ids|]);
    }
  }

  // ---------------------------------------------------------------- when writes are in turn

  /** With one writer thread every write is in turn. */
  lemma {:induction false} OneThreadInTurn(cfg: Config, boot: Boot, run: seq<Action>, file: string)
    requires cfg.threads == 1 && Exec(cfg, boot, run).Some?
    ensures TurnRun(cfg, boot, run, file)
  {
    hide Step;
    if run != [] {
      var n := |run| - 1;
      OneThreadInTurn(cfg, boot, run[..n], file);
      RunInv(cfg, boot, run[..n]);
      var s := Exec(cfg, boot, run[..n]).value;
      assert FlightsOk(cfg, s);
      assert forall i :: 0 <= i < |s.flights| ==> s.flights[i].thread == 0;
    }
  }

  /** So it is, with any number of threads, if UPDATEs wait for the "wrote" records. */
  lemma {:induction false} QuietInTurn(cfg: Config, boot: Boot, run: seq<Action>, file: string)
    requires QuietRun(cfg, boot, run) && Exec(cfg, boot, run).Some?
    ensures TurnRun(cfg, boot, run, file)
  {
    hide Step;
    if run != [] {
      var n := |run| - 1;
      QuietInTurn(cfg, boot, run[..n], file);
      RunAlone(cfg, boot, run[..n]);
    }
  }
}
