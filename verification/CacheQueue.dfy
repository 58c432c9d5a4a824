/** The daemon's cache as it is in memory: items in a tree, some of them linked through
    their own `prev` and `next` fields into the write queue. Every critical section is
    proved to compute the function of the same name in `CacheModel`. */
module CacheQueue {
  import opened Text
  import opened Wire
  import opened CacheModel
  import opened UpdateRequest

  class CacheItem {
    const file: string
    var values: seq<string>
    var lastFlush: int
    var lastStamp: int
    var inQueue: bool
    var prev: CacheItem?
    var next: CacheItem?

    constructor (file: string)
      ensures this.file == file && values == [] && lastFlush == 0 && lastStamp == 0
      ensures !inQueue && prev == null && next == null
    {
      this.file := file;
      values, lastFlush, lastStamp, inQueue, prev, next := [], 0, 0, false, null, null;
    }
  }

  ghost function Files(queue: seq<CacheItem>): seq<string> {
    seq(|queue|, i requires 0 <= i < |queue| => queue[i].file)
  }

  ghost function ItemView(ci: CacheItem): Item
    reads ci`values, ci`lastFlush, ci`lastStamp
  {
    Item(ci.values, ci.lastFlush, ci.lastStamp)
  }

  /** `head`, `tail` and the links of the items spell out `queue`. */
  ghost predicate Linked(queue: seq<CacheItem>, head: CacheItem?, tail: CacheItem?)
    reads queue`prev, queue`next
  {
    && (if queue == [] then head == null && tail == null
        else head == queue[0] && tail == queue[|queue| - 1] && head.prev == null && tail.next == null)
    && (forall i {:trigger queue[i].prev} :: 1 <= i < |queue| ==> queue[i].prev == queue[i - 1])
    && (forall i {:trigger queue[i].next} :: 0 <= i < |queue| - 1 ==> queue[i].next == queue[i + 1])
    && (forall i, j :: 0 <= i < j < |queue| ==> queue[i] != queue[j])
  }

  lemma LinkedDistinct(queue: seq<CacheItem>, head: CacheItem?, tail: CacheItem?)
    requires Linked(queue, head, tail)
    ensures forall i, j :: 0 <= i < j < |queue| ==> queue[i] != queue[j]
  {
  }

  lemma {:induction false} WithoutAt(files: seq<string>, k: nat)
    requires k < |files| && Distinct(files)
    ensures Without(files, files[k]) == files[..k] + files[k + 1..]
  {
    if k == 0 {
      WithoutProps(files[1..], files[0]);
    } else {
      WithoutAt(files[1..], k - 1);
      assert files[1..][..k - 1] == files[1..k] && files[1..][k..] == files[k + 1..];
    }
  }

  lemma FilesWithoutAt(queue: seq<CacheItem>, k: nat)
    requires k < |queue| && Distinct(Files(queue))
    ensures Files(Cut(queue, k)) == Without(Files(queue), queue[k].file)
  {
    WithoutAt(Files(queue), k);
  }

  /** The position of a queued item. */
  ghost function Position(queue: seq<CacheItem>, ci: CacheItem): (k: nat)
    requires ci in queue
    ensures k < |queue| && queue[k] == ci
  {
    var k: nat :| k < |queue| && queue[k] == ci;
    k
  }

  lemma FilesPushed(queue: seq<CacheItem>, ci: CacheItem)
    ensures Files([ci] + queue) == [ci.file] + Files(queue)
    ensures Files(queue + [ci]) == Files(queue) + [ci.file]
  {
  }

  ghost function Cut(queue: seq<CacheItem>, k: nat): seq<CacheItem>
    requires k < |queue|
  {
    queue[..k] + queue[k + 1..]
  }

  lemma CutMembers(queue: seq<CacheItem>, k: nat)
    requires k < |queue| && forall i, j :: 0 <= i < j < |queue| ==> queue[i] != queue[j]
    ensures forall x :: x in Cut(queue, k) <==> x in queue && x != queue[k]
    ensures forall i :: 0 <= i < |Cut(queue, k)| ==> Cut(queue, k)[i] in queue
  {
    var q := Cut(queue, k);
    assert queue == queue[..k] + [queue[k]] + queue[k + 1..];
    assert forall i :: 0 <= i < |q| ==> q[i] == if i < k then queue[i] else queue[i + 1];
  }

  lemma CutLength(queue: seq<CacheItem>, k: nat)
    requires k < |queue|
    ensures |Cut(queue, k)| == |queue| - 1
  {
  }

  /** Where the links of position `i` lead. */
  ghost function Before(queue: seq<CacheItem>, i: nat): CacheItem?
    requires i < |queue|
  {
    if i == 0 then null else queue[i - 1]
  }

  ghost function After(queue: seq<CacheItem>, i: nat): CacheItem?
    requires i < |queue|
  {
    if i == |queue| - 1 then null else queue[i + 1]
  }

  lemma LinkedIs(queue: seq<CacheItem>, head: CacheItem?, tail: CacheItem?)
    requires Linked(queue, head, tail) && queue != []
    ensures head == queue[0] && tail == queue[|queue| - 1]
    ensures forall i {:trigger queue[i].prev} :: 0 <= i < |queue| ==> queue[i].prev == Before(queue, i)
    ensures forall i {:trigger queue[i].next} :: 0 <= i < |queue| ==> queue[i].next == After(queue, i)
    ensures forall i, j :: 0 <= i < j < |queue| ==> queue[i] != queue[j]
  {
  }

  lemma CutLinked(queue: seq<CacheItem>, k: nat, head: CacheItem?, tail: CacheItem?)
    requires k < |queue| && forall i, j :: 0 <= i < j < |queue| ==> queue[i] != queue[j]
    requires head == if k == 0 then After(queue, 0) else queue[0]
    requires tail == if k == |queue| - 1 then Before(queue, k) else queue[|queue| - 1]
    requires forall i {:trigger queue[i].prev} :: 0 <= i < |queue| && i != k ==>
               queue[i].prev == if i == k + 1 then Before(queue, k) else Before(queue, i)
    requires forall i {:trigger queue[i].next} :: 0 <= i < |queue| && i != k ==>
               queue[i].next == if i + 1 == k then After(queue, k) else After(queue, i)
    ensures Linked(Cut(queue, k), head, tail)
  {
    var q := Cut(queue, k);
    assert forall i :: 0 <= i < |q| ==> q[i] == queue[if i < k then i else i + 1];
  }

  /** An UPDATE finds the item that has just been made for it. */
  lemma UpdateInserted(c: Cache, cfg: Config, now: int, jit: int, file: string, request: string)
    ensures Update(c, cfg, now, jit, file, request) ==
      Update(c.(items := c.items[file := ItemFor(c, file, now, jit)]), cfg, now, 0, file, request)
  {
    hide Accept;
    var ci := ItemFor(c, file, now, jit);
    var a := Accept(request, ci.lastStamp);
    var ci' := ci.(values := ci.values + a.values, lastStamp := a.stamp);
    assert c.items[file := ci][file := ci'] == c.items[file := ci'];
  }

  class CacheTree {
    var tree: map<string, CacheItem>
    var head: CacheItem?
    var tail: CacheItem?
    var queueLength: int
    ghost var queue: seq<CacheItem>
    ghost var items: set<CacheItem>

    /** The tree holds `items`, each under its own name. */
    ghost predicate TreeOk()
      reads this`tree, this`items
    {
      && (forall f :: f in tree ==> tree[f] in items && tree[f].file == f)
      && (forall x :: x in items ==> x.file in tree && tree[x.file] == x)
    }

    /** The links and the counter spell out a queue of items of the tree. */
    ghost predicate QueueOk()
      reads this`head, this`tail, this`queue, this`queueLength, this`items, queue`prev, queue`next
    {
      && Linked(queue, head, tail)
      && queueLength == |queue|
      && forall i :: 0 <= i < |queue| ==> queue[i] in items
    }

    /** The flag tells the queued items; the others are not linked. */
    ghost predicate FlagsOk()
      reads this`queue, this`items, items`inQueue, items`prev, items`next
    {
      forall x :: x in items ==>
        && (x.inQueue <==> x in queue)
        && (!x.inQueue ==> x.prev == null && x.next == null)
    }

    /** The shape of tree and queue. Between wiping an item and taking it off the queue
        this holds, but `Valid` does not. */
    ghost predicate Shape()
      reads this, items, queue
    {
      TreeOk() && QueueOk() && FlagsOk()
    }

    ghost predicate Valid()
      reads this, items, queue
    {
      Shape() && forall x :: x in queue ==> x.values != []
    }

    ghost function Items(): map<string, Item>
      reads this`tree, this`items, items`values, items`lastFlush, items`lastStamp
      requires TreeOk()
    {
      map f | f in tree :: ItemView(tree[f])
    }

    ghost function View(): Cache
      reads this`tree, this`items, this`queue, items`values, items`lastFlush, items`lastStamp
      requires TreeOk()
    {
      Cache(Items(), Files(queue))
    }

    constructor ()
      ensures Valid() && View() == Cache(map[], [])
    {
      tree, head, tail, queueLength, queue, items := map[], null, null, 0, [], {};
      new;
      assert View().items == map[];
    }

    /** The links around position `k` are closed and the item there is unlinked. */
    method Unlink(ci: CacheItem, ghost k: nat)
      requires Linked(queue, head, tail) && k < |queue| && queue[k] == ci
      modifies this`head, this`tail, this`queue, queue`prev, queue`next
      ensures queue == Cut(old(queue), k) && Linked(queue, head, tail)
      ensures ci.prev == null && ci.next == null
    {
      hide Linked, Cut;
      ghost var q := queue;
      LinkedIs(queue, head, tail);
      if ci.prev == null {
        head := ci.next;
      } else {
        ci.prev.next := ci.next;
      }
      if ci.next == null {
        tail := ci.prev;
      } else {
        ci.next.prev := ci.prev;
      }
      ci.next, ci.prev := null, null;
      queue := Cut(q, k);
      CutLinked(q, k, head, tail);
    }

    lemma QueueDistinct()
      requires Shape()
      ensures Distinct(Files(queue))
    {
      forall i, j | 0 <= i < j < |queue|
        ensures queue[i].file != queue[j].file
      {
        assert queue[i] in queue && queue[j] in queue;
      }
    }

    /** `remove_from_queue`, for an item at position `k`. */
    method RemoveQueued(ci: CacheItem, ghost k: nat)
      requires Shape() && ci in items && k < |queue| && queue[k] == ci
      modifies this`head, this`tail, this`queue, this`queueLength
      modifies items`prev, items`next, ci`inQueue
      ensures Shape() && !ci.inQueue && queue == Cut(old(queue), k)
    {
      hide Linked, TreeOk, Cut;
      LinkedDistinct(queue, head, tail);
      CutMembers(queue, k);
      CutLength(queue, k);
      assert forall x :: x in queue ==> x in items;
      Unlink(ci, k);
      ci.inQueue := false;
      assert queueLength > 0;
      queueLength := queueLength - 1;
      assert QueueOk();
      FlagsCleared(old(queue), k);
    }

    /** After an item has been cut out, its flag cleared and its links reset. */
    lemma FlagsCleared(before: seq<CacheItem>, k: nat)
      requires k < |before| && queue == Cut(before, k)
      requires forall i, j :: 0 <= i < j < |before| ==> before[i] != before[j]
      requires forall x :: x in items ==> (x.inQueue <==> x in before && x != before[k])
      requires forall x :: x in items && !x.inQueue ==> x.prev == null && x.next == null
      ensures FlagsOk()
    {
      CutMembers(before, k);
    }

    /** `remove_from_queue` */
    method RemoveFromQueue(ci: CacheItem)
      requires Shape() && ci in items
      modifies this`head, this`tail, this`queue, this`queueLength
      modifies items`prev, items`next, ci`inQueue
      ensures Shape() && !ci.inQueue
      ensures forall x :: x in queue <==> x in old(queue) && x != ci
      ensures Files(queue) == Without(old(Files(queue)), ci.file)
    {
      if ci.inQueue {
        ghost var k := Position(queue, ci);
        QueueDistinct();
        FilesWithoutAt(queue, k);
        CutMembers(queue, k);
        RemoveQueued(ci, k);
      } else {
        NotQueued(ci);
      }
    }

    lemma NotQueued(ci: CacheItem)
      requires Shape() && ci in items && ci !in queue
      ensures Without(Files(queue), ci.file) == Files(queue)
    {
      assert forall x :: x in queue ==> x.file != ci.file;
      WithoutProps(Files(queue), ci.file);
    }

    method LinkHead(ci: CacheItem)
      requires Linked(queue, head, tail) && ci !in queue
      modifies this`head, this`tail, this`queue, queue`prev, ci`prev, ci`next
      ensures queue == [ci] + old(queue) && Linked(queue, head, tail)
      ensures forall x :: x in queue <==> x in old(queue) || x == ci
    {
      ci.prev := null;
      ci.next := head;
      if ci.next != null {
        ci.next.prev := ci;
      }
      head := ci;
      if tail == null {
        tail := head;
      }
      queue := [ci] + queue;
    }

    method LinkTail(ci: CacheItem)
      requires Linked(queue, head, tail) && ci !in queue && ci.next == null
      modifies this`head, this`tail, this`queue, queue`next, ci`prev
      ensures queue == old(queue) + [ci] && Linked(queue, head, tail)
      ensures forall x :: x in queue <==> x in old(queue) || x == ci
    {
      ci.prev := tail;
      if tail == null {
        head := ci;
      } else {
        tail.next := ci;
      }
      tail := ci;
      queue := queue + [ci];
    }

    /** An item that is not queued becomes the head, or the tail, of the queue. */
    method Push(ci: CacheItem, atHead: bool)
      requires Shape() && ci in items && !ci.inQueue
      modifies this`head, this`tail, this`queue, this`queueLength
      modifies items`prev, items`next, ci`inQueue
      ensures Shape()
      ensures forall x :: x in queue <==> x in old(queue) || x == ci
      ensures Files(queue) == if atHead then [ci.file] + old(Files(queue)) else old(Files(queue)) + [ci.file]
    {
      hide Linked, TreeOk;
      FilesPushed(queue, ci);
      assert ci !in queue && ci.prev == null && ci.next == null;
      if atHead {
        LinkHead(ci);
      } else {
        LinkTail(ci);
      }
      ci.inQueue := true;
      queueLength := queueLength + 1;
    }

    /** An item is queued exactly when its name is. */
    lemma FilesOf(ci: CacheItem)
      requires Shape() && ci in items
      ensures ci in queue <==> ci.file in Files(queue)
      ensures ci in queue <==> ci.inQueue
      ensures head == ci <==> queue != [] && queue[0] == ci
      ensures ci.file in tree && tree[ci.file] == ci
      ensures queue != [] ==> (queue[0] == ci <==> Files(queue)[0] == ci.file)
    {
      if ci in queue {
        assert Files(queue)[Position(queue, ci)] == ci.file;
      }
      forall i | 0 <= i < |queue| && queue[i].file == ci.file
        ensures queue[i] == ci
      {
        assert queue[i] in queue;
      }
    }

    /** `enqueue_cache_item` */
    method EnqueueCacheItem(ci: CacheItem, atHead: bool)
      requires Valid() && ci in items
      modifies this`head, this`tail, this`queue, this`queueLength
      modifies items`prev, items`next, ci`inQueue
      ensures Valid()
      ensures View() == if atHead then EnqueueHead(old(View()), ci.file) else EnqueueTail(old(View()), ci.file)
    {
      hide Linked, QueueOk, TreeOk, Without;
      ghost var c := View();
      FilesOf(ci);
      assert c.items[ci.file] == ItemView(ci);
      if |ci.values| != 0 && !(if atHead then head == ci else ci.inQueue) {
        if atHead {
          RemoveFromQueue(ci);
        }
        Push(ci, atHead);
      }
      assert Items() == c.items;
    }

    // -------------------------------------------------------------- the critical sections

    /** `wipe_ci_values` */
    method WipeCiValues(ci: CacheItem, when: int, jit: int)
      requires Shape() && ci in items
      modifies ci`values, ci`lastFlush
      ensures Shape() && Items() == old(Items())[ci.file := Wiped(old(ItemView(ci)), when + jit)]
    {
      hide Linked;
      ci.values := [];
      ci.lastFlush := when + jit;
    }

    /** The critical section of `queue_thread_main`. */
    method TakeBatch(now: int, jit: int) returns (file: string, values: seq<string>)
      requires Valid() && head != null
      modifies this, items
      ensures Valid() && items == old(items)
      ensures old(View().queue) != [] && file == old(View().queue[0]) && file in old(View().items)
      ensures values == old(View()).items[file].values && values != []
      ensures View() == Dequeue(old(View()), now, jit)
    {
      hide FlagsOk, Without;
      var ci := head;
      assert ci == queue[0] && ci in items && Files(queue)[0] == ci.file;
      file, values := ci.file, ci.values;
      assert |values| > 0;
      WipeCiValues(ci, now, jit);
      RemoveFromQueue(ci);
    }

    /** `handle_request_wrote` */
    method HandleWrote(file: string, now: int, jit: int)
      requires Valid()
      modifies this, items
      ensures Valid() && items == old(items)
      ensures View() == Wrote(old(View()), now, jit, file)
    {
      hide Linked, QueueOk, FlagsOk, Without;
      if file in tree {
        var ci := tree[file];
        WipeCiValues(ci, now, jit);
        RemoveFromQueue(ci);
      }
    }

    /** An item that is not queued leaves the tree. */
    method DropItem(ci: CacheItem)
      requires Shape() && ci in items && !ci.inQueue
      modifies this`tree, this`items
      ensures Shape() && items == old(items) - {ci} && Items() == old(Items()) - {ci.file}
    {
      assert ci !in queue;
      tree, items := tree - {ci.file}, items - {ci};
    }

    /** `g_tree_remove`, which frees the item. */
    method RemoveItem(file: string) returns (found: bool)
      requires Valid()
      modifies this, items
      ensures Valid() && items <= old(items)
      ensures found == (file in old(View()).items) && View() == Forget(old(View()), file)
    {
      hide Linked, QueueOk, FlagsOk, Without;
      found := file in tree;
      if found {
        var ci := tree[file];
        RemoveFromQueue(ci);
        DropItem(ci);
      }
    }

    /** `flush_file` */
    method FlushFile(file: string)
      requires Valid()
      modifies this, items
      ensures Valid() && items == old(items)
      ensures View() == Flush(old(View()), file)
    {
      if file in tree {
        EnqueueCacheItem(tree[file], true);
      }
    }

    /** A new item joins the tree. */
    method InsertItem(ci: CacheItem)
      requires Valid() && ci !in items && ci.file !in tree
      requires !ci.inQueue && ci.prev == null && ci.next == null
      modifies this`tree, this`items
      ensures Valid() && items == old(items) + {ci}
      ensures Items() == old(Items())[ci.file := ItemView(ci)]
    {
      hide Linked;
      assert ci !in queue;
      tree, items := tree[ci.file := ci], items + {ci};
    }

    /** After `stat`, when the lock has been taken again: `tmp` joins the tree, unless another
        UPDATE has added an item of the file in the meantime. */
    method InsertOrKeep(tmp: CacheItem, now: int, jit: int) returns (ci: CacheItem)
      requires Valid() && tmp !in items && ItemView(tmp) == Item([], now + jit, 0)
      requires !tmp.inQueue && tmp.prev == null && tmp.next == null
      modifies this`tree, this`items
      ensures Valid() && ci in items && ci.file == tmp.file && items <= old(items) + {tmp}
      ensures queue == old(queue)
      ensures Items() == old(Items())[tmp.file := ItemFor(old(View()), tmp.file, now, jit)]
    {
      hide Linked, QueueOk, FlagsOk;
      if tmp.file in tree {
        ci := tree[tmp.file];
        assert Items()[tmp.file] == ItemView(ci);
      } else {
        ci := tmp;
        InsertItem(ci);
      }
    }

    /** The value loop of `handle_request_update`. */
    method AppendValues(ci: CacheItem, request: string) returns (verdict: Verdict, o: Outcome)
      modifies ci`values, ci`lastStamp
      ensures var a := Accept(request, old(ci.lastStamp));
        verdict == a.verdict && ci.values == old(ci.values) + a.values && ci.lastStamp == a.stamp
      ensures o == Answered(request, old(ci.lastStamp), 0)
    {
      hide Stamp, GetField;
      var rest, n := request, 0;
      ghost var a := Accept(request, ci.lastStamp);
      while true
        invariant a == Accept(rest, ci.lastStamp).(values := a.values)
        invariant ci.values + Accept(rest, ci.lastStamp).values == old(ci.values) + a.values
        invariant Answered(rest, ci.lastStamp, n) == Answered(request, old(ci.lastStamp), 0)
        decreases |rest|
      {
        match GetField(rest)
        case NoField => return Complete, Finished(n);
        case Field(value, more) =>
          match Stamp(value) {
            case None => return NoStamp, NoTimestamp(value);
            case Some(t) =>
              if t <= ci.lastStamp {
                return OldStamp, TooOld(t, ci.lastStamp);
              }
              Assoc(ci.values, [value], Accept(more, t).values);
              ci.lastStamp := t;
              ci.values := ci.values + [value];
              rest, n := more, n + 1;
          }
      }
    }

    method UpdateItem(ci: CacheItem, request: string) returns (verdict: Verdict, o: Outcome)
      requires Valid() && ci in items
      modifies ci`values, ci`lastStamp
      ensures Valid()
      ensures var a := Accept(request, old(ci.lastStamp));
        && verdict == a.verdict
        && Items() == old(Items())[ci.file := Item(old(ci.values) + a.values, ci.lastFlush, a.stamp)]
      ensures o == Answered(request, old(ci.lastStamp), 0)
    {
      hide Linked, Accept, Stamp, GetField, Answered;
      verdict, o := AppendValues(ci, request);
    }

    /** The second half of `handle_request_update`: the values are taken into the item. */
    method FinishUpdate(cfg: Config, now: int, ci: CacheItem, request: string) returns (o: Outcome)
      requires Valid() && ci in items
      modifies this, items
      ensures Valid() && items == old(items)
      ensures View() == Update(old(View()), cfg, now, 0, ci.file, request)
      ensures o == Answered(request, old(ci.lastStamp), 0)
    {
      hide Linked, QueueOk, FlagsOk, Accept, Stamp, GetField, Answered;
      ghost var c := View();
      ghost var item, a := ItemView(ci), Accept(request, ci.lastStamp);
      assert c.items[ci.file] == item;
      var verdict;
      verdict, o := UpdateItem(ci, request);
      ghost var item' := Item(item.values + a.values, item.lastFlush, a.stamp);
      assert Items() == c.items[ci.file := item'];
      assert View().items[ci.file] == ItemView(ci);
      FilesOf(ci);
      if verdict.Complete? && now - ci.lastFlush >= cfg.writeInterval && !ci.inQueue && |ci.values| > 0 {
        EnqueueCacheItem(ci, false);
      }
    }

    /** UPDATE of a file whose item the first lookup finds: one critical section. */
    method UpdateKnown(cfg: Config, now: int, jit: int, file: string, request: string) returns (found: bool, o: Outcome)
      requires Valid()
      modifies this, items
      ensures Valid() && items == old(items) && found == (file in old(View()).items)
      ensures found ==>
                && View() == Update(old(View()), cfg, now, jit, file, request)
                && o == Answered(request, ItemFor(old(View()), file, now, jit).lastStamp, 0)
      ensures !found ==> View() == old(View())
    {
      hide Linked, QueueOk, FlagsOk, Accept, Answered;
      found := file in tree;
      if found {
        assert View().items[file] == ItemView(tree[file]);
        o := FinishUpdate(cfg, now, tree[file], request);
      } else {
        o := Finished(0);
      }
    }

    /** UPDATE of a file whose item it did not find: the lock has been released for `stat`
        and taken again, so the cache is any valid one now. */
    method UpdateNew(cfg: Config, now: int, jit: int, tmp: CacheItem, request: string) returns (o: Outcome)
      requires Valid() && tmp !in items && ItemView(tmp) == Item([], now + jit, 0)
      requires !tmp.inQueue && tmp.prev == null && tmp.next == null
      modifies this, items, tmp
      ensures Valid() && items <= old(items) + {tmp}
      ensures View() == Update(old(View()), cfg, now, jit, tmp.file, request)
      ensures o == Answered(request, ItemFor(old(View()), tmp.file, now, jit).lastStamp, 0)
    {
      hide Linked, QueueOk, FlagsOk, Accept, Answered;
      ghost var c := View();
      var ci := InsertOrKeep(tmp, now, jit);
      ghost var item := ItemFor(c, tmp.file, now, jit);
      assert View() == Cache(c.items[tmp.file := item], c.queue);
      assert Items()[tmp.file] == item == ItemView(ci);
      UpdateInserted(c, cfg, now, jit, tmp.file, request);
      o := FinishUpdate(cfg, now, ci, request);
    }

    /** `handle_request_update`, from the lookup of the file on, when nothing intervenes. */
    method HandleUpdate(cfg: Config, now: int, jit: int, file: string, request: string) returns (o: Outcome)
      requires Valid()
      modifies this, items
      ensures Valid() && fresh(items - old(items))
      ensures View() == Update(old(View()), cfg, now, jit, file, request)
      ensures o == Answered(request, ItemFor(old(View()), file, now, jit).lastStamp, 0)
    {
      hide Linked, QueueOk, FlagsOk, TreeOk, Update, Answered;
      var found;
      found, o := UpdateKnown(cfg, now, jit, file, request);
      if !found {
        var tmp := new CacheItem(file);
        tmp.lastFlush := now + jit;
        o := UpdateNew(cfg, now, jit, tmp, request);
      }
    }

    /** `tree_callback_flush`: the item is queued, marked for removal, or left alone. */
    method VisitItem(cfg: Config, running: bool, now: int, timeout: int, file: string) returns (stale: bool)
      requires Valid() && file in tree
      modifies this, items
      ensures Valid() && items == old(items) && tree == old(tree) && Items() == old(Items())
      ensures Files(queue) == old(Files(queue)) + if Due(old(View()), file, running, timeout) then [file] else []
      ensures stale == Stale(old(View()), cfg, file, now)
    {
      var ci := tree[file];
      FilesOf(ci);
      stale := false;
      if !ci.inQueue {
        if |ci.values| > 0 && (ci.lastFlush <= timeout || !running) {
          EnqueueCacheItem(ci, false);
        } else if now - ci.lastFlush >= cfg.flushInterval && |ci.values| == 0 {
          stale := true;
        }
      }
    }

    /** `g_tree_foreach` of `tree_callback_flush`: the keys found stale, which are exactly
        `gone`, are returned. */
    method VisitAll(cfg: Config, running: bool, now: int, timeout: int, order: seq<string>)
      returns (keys: seq<string>)
      requires Valid() && Traversal(View(), order)
      modifies this, items
      ensures Valid() && items == old(items) && tree == old(tree) && Items() == old(Items())
      ensures Files(queue) == old(Files(queue)) + DueOnes(old(View()), order, running, timeout)
      ensures Distinct(keys)
      ensures forall f :: f in keys <==> f in order && Stale(old(View()), cfg, f, now)
    {
      hide Linked, QueueOk, FlagsOk, TreeOk, DueOnes, Due, Stale, Distinct;
      ghost var c := View();
      NothingDue(c, order, running, timeout);
      keys := [];
      var i := 0;
      while i < |order|
        invariant i <= |order| && Valid() && items == old(items) && tree == old(tree)
        invariant Items() == c.items
        invariant Files(queue) == c.queue + DueOnes(c, order[..i], running, timeout)
        invariant Distinct(keys) && forall f :: f in keys <==> f in order[..i] && Stale(c, cfg, f, now)
      {
        SweepNext(c, cfg, order, i, now, running, timeout, View());
        var stale := VisitItem(cfg, running, now, timeout, order[i]);
        if stale {
          DistinctConcat(keys, [order[i]]);
          keys := keys + [order[i]];
        }
        i := i + 1;
      }
      assert order[..i] == order;
    }

    /** `flush_old_values`: the tree is traversed in `order`; items found stale are
        removed afterwards. */
    method FlushOldValues(cfg: Config, running: bool, now: int, maxAge: int, order: seq<string>)
      requires Valid() && Traversal(View(), order)
      modifies this, items
      ensures Valid() && items <= old(items)
      ensures View() == Sweep(old(View()), cfg, running, now, maxAge, order)
    {
      hide Linked, QueueOk, FlagsOk, TreeOk, DueOnes, Due, Stale, Distinct;
      ghost var c := View();
      var timeout := if maxAge > 0 then now - maxAge else now + 2 * cfg.jitter + 1;
      var keys := VisitAll(cfg, running, now, timeout, order);
      ghost var gone := set f | f in keys;
      StaleNotQueued(c, cfg, running, now, timeout, order);
      assert forall f :: f in keys ==> f in c.items && f in tree;
      SweepIs(c, cfg, running, now, maxAge, order, gone);
      ghost var c' := Sweep(c, cfg, running, now, maxAge, order);
      assert c'.items == Items() - gone && c'.queue == Files(queue);
      RemoveAll(keys, gone);
      assert View().items == c'.items && View().queue == c'.queue;
    }

    /** The second loop of `flush_old_values`. */
    method RemoveAll(keys: seq<string>, ghost gone: set<string>)
      requires Valid() && Distinct(keys)
      requires forall f :: f in keys <==> f in gone
      requires forall f :: f in keys ==> f in tree && f !in Files(queue)
      modifies this, items
      ensures Valid() && items <= old(items)
      ensures Items() == old(Items()) - gone && Files(queue) == old(Files(queue))
    {
      hide Linked, QueueOk, FlagsOk, TreeOk, Distinct;
      ghost var m, q := Items(), Files(queue);
      ghost var done: set<string> := {};
      var k := 0;
      while k < |keys|
        invariant k <= |keys| && Valid() && items <= old(items)
        invariant forall f :: f in done <==> f in keys[..k]
        invariant Items() == m - done && Files(queue) == q
      {
        var f := keys[k];
        DistinctAt(keys, k);
        assert f in m;
        WithoutProps(q, f);
        var status := RemoveItem(f);
        assert status;
        done := done + {f};
        k := k + 1;
      }
      assert keys[..k] == keys && done == gone;
    }
  }

  lemma DistinctAt(keys: seq<string>, k: nat)
    requires Distinct(keys) && k < |keys|
    ensures keys[k] in keys && keys[k] !in keys[..k]
    ensures forall f :: f in keys[..k + 1] <==> f in keys[..k] || f == keys[k]
  {
    assert keys[..k + 1] == keys[..k] + [keys[k]];
    assert forall i :: 0 <= i < k ==> keys[..k][i] != keys[k];
  }

  lemma NothingDue(c: Cache, order: seq<string>, running: bool, timeout: int)
    ensures DueOnes(c, order[..0], running, timeout) == [] && c.queue + [] == c.queue && Distinct([])
  {
  }

  lemma SweepIs(c: Cache, cfg: Config, running: bool, now: int, maxAge: int, order: seq<string>, gone: set<string>)
    requires forall f :: f in gone <==> f in order && Stale(c, cfg, f, now)
    ensures Sweep(c, cfg, running, now, maxAge, order).items == c.items - gone
  {
  }

  /** What the sweep removes it does not queue. */
  lemma StaleNotQueued(c: Cache, cfg: Config, running: bool, now: int, timeout: int, order: seq<string>)
    requires Traversal(c, order)
    ensures forall f :: f in order && Stale(c, cfg, f, now) ==> f !in c.queue + DueOnes(c, order, running, timeout)
  {
    DueOnesProps(c, order, running, timeout);
  }

  /** Queueing the files visited so far does not change what happens to the others. */
  lemma SweepNext(c: Cache, cfg: Config, order: seq<string>, i: nat, now: int, running: bool, timeout: int, c': Cache)
    requires Traversal(c, order) && i < |order|
    requires c' == Cache(c.items, c.queue + DueOnes(c, order[..i], running, timeout))
    ensures order[i] in c.items && order[i] !in order[..i]
    ensures Due(c', order[i], running, timeout) == Due(c, order[i], running, timeout)
    ensures Stale(c', cfg, order[i], now) == Stale(c, cfg, order[i], now)
    ensures DueOnes(c, order[..i + 1], running, timeout) ==
      DueOnes(c, order[..i], running, timeout) + if Due(c, order[i], running, timeout) then [order[i]] else []
    ensures forall f :: f in order[..i + 1] <==> f in order[..i] || f == order[i]
  {
    DueOnesProps(c, order[..i], running, timeout);
    assert order[..i + 1] == order[..i] + [order[i]];
    assert order[..i + 1][..i] == order[..i];
  }
}