/** When files are queued and when they leave the cache: what the intervals of the
    configuration mean, on the queue and the items and in the order of events. */
module CacheTimes {
  import opened Text
  import opened Wire
  import opened CacheModel

  // ---------------------------------------------------------------- UPDATE

  /** A completely accepted UPDATE leaves its file queued exactly if it was before, or if it
      has pending values and was last flushed a write interval ago or earlier; a new entry
      stands behind all older ones, and nothing else in the queue changes. A new item
      counts as flushed at its creation, later by the jitter. */
  lemma QueuedExactly(c: Cache, cfg: Config, now: int, jit: int, file: string, rest: string)
    ensures var c' := Update(c, cfg, now, jit, file, rest);
      var flushed := if file in c.items then c.items[file].lastFlush else now + jit;
      var verdict := Accept(rest, if file in c.items then c.items[file].lastStamp else 0).verdict;
      && file in c'.items && c'.items[file].lastFlush == flushed
      && (c'.queue == c.queue || (file !in c.queue && c'.queue == c.queue + [file]))
      && (verdict.Complete? ==>
           (file in c'.queue <==>
             file in c.queue || (c'.items[file].values != [] && flushed + cfg.writeInterval <= now)))
      && (!verdict.Complete? ==> c'.queue == c.queue)
  {
    hide Accept;
  }

  // ---------------------------------------------------------------- the sweep

  /** The sweep removes exactly the unqueued files without pending values that were last
      flushed a flush interval ago or earlier. */
  lemma RemovedExactly(c: Cache, cfg: Config, running: bool, now: int, maxAge: int, order: seq<string>, f: string)
    requires Traversal(c, order) && f in c.items
    ensures f !in Sweep(c, cfg, running, now, maxAge, order).items <==>
      f !in c.queue && c.items[f].values == [] && c.items[f].lastFlush + cfg.flushInterval <= now
  {
  }

  /** It queues, behind what was queued, exactly the unqueued files with pending values:
      with a positive age those last flushed that long ago or earlier, and all of them
      without one or when the daemon is ending. */
  lemma SweptExactly(c: Cache, cfg: Config, running: bool, now: int, maxAge: int, order: seq<string>, f: string)
    requires Traversal(c, order) && f in c.items && f !in c.queue && c.items[f].lastFlush <= now + cfg.jitter
    ensures var q := Sweep(c, cfg, running, now, maxAge, order).queue;
      && c.queue <= q
      && (f in q <==>
           c.items[f].values != [] && (maxAge <= 0 || !running || c.items[f].lastFlush + maxAge <= now))
  {
    DueOnesProps(c, order, running, AbsTimeout(cfg, now, maxAge));
  }

  // ---------------------------------------------------------------- after a batch has been taken

  lemma Taken(c: Cache, t: int, jit: int)
    requires CacheOk(c) && c.queue != []
    ensures var f, c1 := c.queue[0], Dequeue(c, t, jit);
      && f in c1.items && f !in c1.queue && c1.items[f].values == [] && c1.items[f].lastFlush == t + jit
      && c1.items[f].lastStamp == c.items[f].lastStamp
  {
    WithoutProps(c.queue, c.queue[0]);
  }

  /** Values for a file whose batch was taken at `t` queue it again exactly from a write
      interval later on. */
  lemma QueuedAgain(c: Cache, cfg: Config, t: int, jit: int, u: int, jit': int, rest: string)
    requires CacheOk(c) && c.queue != []
    requires var a := Accept(rest, c.items[c.queue[0]].lastStamp); a.verdict.Complete? && a.values != []
    ensures var f, c1 := c.queue[0], Dequeue(c, t, jit);
      f in Update(c1, cfg, u, jit', f, rest).queue <==> u >= t + jit + cfg.writeInterval
  {
    hide Accept, Update, Dequeue;
    var f, c1 := c.queue[0], Dequeue(c, t, jit);
    Taken(c, t, jit);
    QueuedExactly(c1, cfg, u, jit', f, rest);
    ValuesAfter(c1, cfg, u, jit', f, rest);
  }

  lemma ValuesAfter(c: Cache, cfg: Config, now: int, jit: int, file: string, rest: string)
    requires file in c.items
    ensures Update(c, cfg, now, jit, file, rest).items[file].values
      == c.items[file].values + Accept(rest, c.items[file].lastStamp).values
  {
    hide Accept;
  }

  /** If no values come, a sweep removes it exactly from a flush interval later on. */
  lemma IdleAgain(c: Cache, cfg: Config, t: int, jit: int, running: bool, u: int, maxAge: int, order: seq<string>)
    requires CacheOk(c) && c.queue != [] && Traversal(Dequeue(c, t, jit), order)
    ensures c.queue[0] !in Sweep(Dequeue(c, t, jit), cfg, running, u, maxAge, order).items
      <==> u >= t + jit + cfg.flushInterval
  {
    hide Sweep, Dequeue, Traversal;
    Taken(c, t, jit);
    RemovedExactly(Dequeue(c, t, jit), cfg, running, u, maxAge, order, c.queue[0]);
  }

  /** A "wrote" record in replay has the same effect on the times as taking a batch. */
  lemma WroteFlushes(c: Cache, t: int, jit: int, f: string)
    requires f in c.items
    ensures var c1 := Wrote(c, t, jit, f);
      f in c1.items && f !in c1.queue && c1.items[f] == Item([], t + jit, c.items[f].lastStamp)
  {
    WithoutProps(c.queue, f);
  }
}
