/** The critical sections of rrdcached, each as a function on the value of the cache: the
    tree of cached files and the write queue. `CacheQueue` proves that the pointer
    structure of the daemon computes these functions; `Daemon` interleaves them. */
module CacheModel {
  import opened Text
  import opened Wire

  datatype Item = Item(values: seq<string>, lastFlush: int, lastStamp: int)

  datatype Cache = Cache(items: map<string, Item>, queue: seq<string>)

  /** `known` is the set of file names for which `stat` and `access` succeed. */
  datatype Config = Config(
    writeInterval: int,
    flushInterval: int,
    jitter: nat,
    known: set<string>,
    threads: nat,
    flushAtShutdown: bool)

  /** A value of `rrd_random() % config_write_jitter`, or nothing without jitter. */
  predicate JitterOk(cfg: Config, jit: int) {
    0 <= jit && (jit == 0 || jit < cfg.jitter)
  }

  // ---------------------------------------------------------------- values and their stamps

  /** The time stamp that starts an update value, if it is followed by a colon. */
  function Stamp(value: string): Option<int> {
    match StrToL(value)
    case Some((t, rest)) => if rest != "" && rest[0] == ':' then Some(t) else None
    case None => None
  }

  /** A value with a printed time and a colon in front has that time as its stamp; with
      anything else behind the time it has none. */
  lemma StampIs(n: nat, rest: string)
    requires rest != "" ==> !IsDigit(rest[0])
    ensures Stamp(Decimal(n) + rest) == if rest != "" && rest[0] == ':' then Some(n as int) else None
  {
    hide StrToL;
    StrToLDecimal(n, rest);
  }

  datatype Verdict = Complete | NoStamp | OldStamp

  datatype Accepted = Accepted(values: seq<string>, stamp: int, verdict: Verdict)

  /** The value loop of `handle_request_update`: which of the request's remaining fields
      are accepted after `stamp`, the new last stamp, and how the loop ended. */
  function Accept(rest: string, stamp: int): Accepted
    decreases |rest|
  {
    match GetField(rest)
    case NoField => Accepted([], stamp, Complete)
    case Field(value, more) =>
      match Stamp(value)
      case None => Accepted([], stamp, NoStamp)
      case Some(t) =>
        if t <= stamp then Accepted([], stamp, OldStamp)
        else var a := Accept(more, t); a.(values := [value] + a.values)
  }

  /** The last stamp of a list of values with strictly increasing positive stamps. */
  function Clocked(values: seq<string>): Option<int> {
    if values == [] then Some(0)
    else
      match (Clocked(values[..|values| - 1]), Stamp(values[|values| - 1]))
      case (Some(t), Some(u)) => if t < u then Some(u) else None
      case _ => None
  }

  lemma {:induction false} ClockedIncreases(values: seq<string>, i: nat, j: nat)
    requires Clocked(values).Some? && i < j < |values|
    ensures Stamp(values[i]).Some? && Stamp(values[j]).Some?
    ensures 0 < Stamp(values[i]).value < Stamp(values[j]).value <= Clocked(values).value
  {
    var n := |values| - 1;
    var front := values[..n];
    if j < n {
      ClockedIncreases(front, i, j);
    } else if i < n - 1 {
      ClockedIncreases(front, i, n - 1);
    } else {
      ClockedPositive(front[..n - 1]);
    }
  }

  lemma ClockedPositive(values: seq<string>)
    ensures Clocked(values).Some? ==> Clocked(values).value >= 0
  {
  }

  /** Accepting more values keeps the stamps strictly increasing. */
  lemma {:induction false} AcceptClocked(rest: string, values: seq<string>, stamp: int)
    requires Clocked(values) == Some(stamp)
    ensures Clocked(values + Accept(rest, stamp).values) == Some(Accept(rest, stamp).stamp)
    decreases |rest|
  {
    var a := Accept(rest, stamp);
    if a.values == [] {
      assert values + a.values == values;
    } else {
      var r := GetField(rest);
      var v, t := r.text, Stamp(r.text).value;
      assert (values + [v])[..|values|] == values;
      AcceptClocked(r.rest, values + [v], t);
      Assoc(values, [v], Accept(r.rest, t).values);
    }
  }

  // ---------------------------------------------------------------- the queue

  function Without(queue: seq<string>, file: string): seq<string> {
    if queue == [] then []
    else if queue[0] == file then Without(queue[1..], file)
    else [queue[0]] + Without(queue[1..], file)
  }

  predicate Distinct(queue: seq<string>) {
    forall i, j :: 0 <= i < j < |queue| ==> queue[i] != queue[j]
  }

  /** `enqueue_cache_item (ci, TAIL)` */
  function EnqueueTail(c: Cache, file: string): Cache
    requires file in c.items
  {
    if c.items[file].values == [] || file in c.queue then c
    else c.(queue := c.queue + [file])
  }

  /** `enqueue_cache_item (ci, HEAD)` */
  function EnqueueHead(c: Cache, file: string): Cache
    requires file in c.items
  {
    if c.items[file].values == [] || (c.queue != [] && c.queue[0] == file) then c
    else c.(queue := [file] + Without(c.queue, file))
  }

  // ---------------------------------------------------------------- the requests

  /** The file of an UPDATE that gets as far as the cache, and the fields left. */
  function UpdateTarget(c: Cache, cfg: Config, request: string): Option<(string, string)> {
    match GetField(request)
    case NoField => None
    case Field(file, rest) =>
      if file in c.items || file in cfg.known then Some((file, rest)) else None
  }

  function ItemFor(c: Cache, file: string, now: int, jit: int): Item {
    if file in c.items then c.items[file] else Item([], now + jit, 0)
  }

  /** UPDATE, from the lookup of `file` on. */
  function Update(c: Cache, cfg: Config, now: int, jit: int, file: string, rest: string): Cache {
    var ci := ItemFor(c, file, now, jit);
    var a := Accept(rest, ci.lastStamp);
    var ci' := ci.(values := ci.values + a.values, lastStamp := a.stamp);
    var c' := c.(items := c.items[file := ci']);
    if a.verdict.Complete? && now - ci'.lastFlush >= cfg.writeInterval then EnqueueTail(c', file) else c'
  }

  function Wiped(ci: Item, when: int): Item {
    ci.(values := [], lastFlush := when)
  }

  /** The critical section of `queue_thread_main`: the head's values leave the cache. */
  function Dequeue(c: Cache, now: int, jit: int): Cache
    requires c.queue != [] && c.queue[0] in c.items
  {
    var file := c.queue[0];
    Cache(c.items[file := Wiped(c.items[file], now + jit)], Without(c.queue, file))
  }

  /** WROTE, in journal replay. */
  function Wrote(c: Cache, now: int, jit: int, file: string): Cache {
    if file !in c.items then c
    else Cache(c.items[file := Wiped(c.items[file], now + jit)], Without(c.queue, file))
  }

  /** FORGET: `g_tree_remove` frees the item, which takes it off the queue. */
  function Forget(c: Cache, file: string): Cache {
    if file !in c.items then c
    else Cache(c.items - {file}, Without(c.queue, file))
  }

  /** FLUSH */
  function Flush(c: Cache, file: string): Cache {
    if file in c.items then EnqueueHead(c, file) else c
  }

  // ---------------------------------------------------------------- the sweep

  function AbsTimeout(cfg: Config, now: int, maxAge: int): int {
    if maxAge > 0 then now - maxAge else now + 2 * cfg.jitter + 1
  }

  predicate Due(c: Cache, file: string, running: bool, timeout: int) {
    && file in c.items && file !in c.queue
    && c.items[file].values != [] && (c.items[file].lastFlush <= timeout || !running)
  }

  predicate Stale(c: Cache, cfg: Config, file: string, now: int) {
    && file in c.items && file !in c.queue
    && c.items[file].values == [] && now - c.items[file].lastFlush >= cfg.flushInterval
  }

  function DueOnes(c: Cache, order: seq<string>, running: bool, timeout: int): seq<string> {
    if order == [] then []
    else
      var n := |order| - 1;
      var front := DueOnes(c, order[..n], running, timeout);
      if Due(c, order[n], running, timeout) then front + [order[n]] else front
  }

  /** `flush_old_values`, visiting the tree in `order`. */
  function Sweep(c: Cache, cfg: Config, running: bool, now: int, maxAge: int, order: seq<string>): Cache {
    Cache(
      map f | f in c.items && !(f in order && Stale(c, cfg, f, now)) :: c.items[f],
      c.queue + DueOnes(c, order, running, AbsTimeout(cfg, now, maxAge)))
  }

  /** `order` is a traversal of the tree. */
  predicate Traversal(c: Cache, order: seq<string>) {
    Distinct(order) && (forall f :: f in order ==> f in c.items) && (forall f :: f in c.items ==> f in order)
  }

  // ---------------------------------------------------------------- what every section keeps

  /** What the assertions of the daemon rely on: the queue holds files of the tree, each
      once and each with pending values. */
  predicate CacheOk(c: Cache) {
    && Distinct(c.queue)
    && forall f :: f in c.queue ==> f in c.items && c.items[f].values != []
  }

  lemma DistinctConcat(a: seq<string>, b: seq<string>)
    requires Distinct(a) && Distinct(b) && forall f :: f in a ==> f !in b
    ensures Distinct(a + b)
  {
    forall i, j | 0 <= i < j < |a + b|
      ensures (a + b)[i] != (a + b)[j]
    {
      if i < |a| && j >= |a| {
        assert a[i] in a && b[j - |a|] in b;
      }
    }
  }

  lemma {:induction false} WithoutProps(queue: seq<string>, file: string)
    ensures forall f :: f in Without(queue, file) <==> f in queue && f != file
    ensures Distinct(queue) ==> Distinct(Without(queue, file))
    ensures file !in queue ==> Without(queue, file) == queue
  {
    if queue != [] {
      WithoutProps(queue[1..], file);
      assert queue == [queue[0]] + queue[1..];
      if Distinct(queue) && queue[0] != file {
        DistinctConcat([queue[0]], Without(queue[1..], file));
      }
    }
  }

  lemma {:induction false} DueOnesProps(c: Cache, order: seq<string>, running: bool, timeout: int)
    requires Distinct(order)
    ensures forall f :: f in DueOnes(c, order, running, timeout) <==> f in order && Due(c, f, running, timeout)
    ensures Distinct(DueOnes(c, order, running, timeout))
  {
    if order != [] {
      var n := |order| - 1;
      DueOnesProps(c, order[..n], running, timeout);
      assert order == order[..n] + [order[n]];
    }
  }

  lemma UpdateOk(c: Cache, cfg: Config, now: int, jit: int, file: string, rest: string)
    requires CacheOk(c)
    ensures CacheOk(Update(c, cfg, now, jit, file, rest))
  {
  }

  lemma DequeueOk(c: Cache, now: int, jit: int)
    requires CacheOk(c) && c.queue != []
    ensures CacheOk(Dequeue(c, now, jit))
    ensures Dequeue(c, now, jit).queue == c.queue[1..]
  {
    var file := c.queue[0];
    WithoutProps(c.queue, file);
    WithoutProps(c.queue[1..], file);
  }

  lemma WroteOk(c: Cache, now: int, jit: int, file: string)
    requires CacheOk(c)
    ensures CacheOk(Wrote(c, now, jit, file))
  {
    WithoutProps(c.queue, file);
  }

  lemma ForgetOk(c: Cache, file: string)
    requires CacheOk(c)
    ensures CacheOk(Forget(c, file))
  {
    WithoutProps(c.queue, file);
  }

  lemma FlushOk(c: Cache, file: string)
    requires CacheOk(c)
    ensures CacheOk(Flush(c, file))
  {
    WithoutProps(c.queue, file);
  }

  lemma SweepOk(c: Cache, cfg: Config, running: bool, now: int, maxAge: int, order: seq<string>)
    requires CacheOk(c) && Traversal(c, order)
    ensures CacheOk(Sweep(c, cfg, running, now, maxAge, order))
  {
    var due := DueOnes(c, order, running, AbsTimeout(cfg, now, maxAge));
    DueOnesProps(c, order, running, AbsTimeout(cfg, now, maxAge));
    DistinctConcat(c.queue, due);
  }

  /** Moving a file to the head keeps the order of the others; nothing is queued twice. */
  lemma FlushKeepsOrder(c: Cache, file: string)
    requires CacheOk(c) && file in c.items && c.items[file].values != []
    ensures var q := Flush(c, file).queue; q != [] && q[0] == file && q[1..] == Without(c.queue, file)
  {
    if c.queue != [] && c.queue[0] == file {
      WithoutProps(c.queue[1..], file);
    }
  }

  /** A file that is not cached or has no pending values is not queued, and no item changes. */
  lemma FlushChangesQueueOnly(c: Cache, file: string)
    ensures Flush(c, file).items == c.items
    ensures file !in c.items || c.items[file].values == [] ==> Flush(c, file) == c
  {
  }

  /** "Flush everything" leaves every file with pending values in the queue, although the
      last flush times may lie in the future by the write jitter. */
  lemma SweepQueuesAll(c: Cache, cfg: Config, running: bool, now: int, order: seq<string>)
    requires CacheOk(c) && Traversal(c, order)
    requires forall f :: f in c.items ==> c.items[f].lastFlush <= now + cfg.jitter
    ensures var c' := Sweep(c, cfg, running, now, -1, order);
      && c.queue <= c'.queue
      && (forall f :: f in c.items && c.items[f].values != [] ==> f in c'.items && f in c'.queue)
      && (forall f :: f in c'.items ==> f in c.items && c'.items[f] == c.items[f])
  {
    DueOnesProps(c, order, running, AbsTimeout(cfg, now, -1));
  }

  // ---------------------------------------------------------------- journal replay

  function Upper(s: string): string {
    seq(|s|, i requires 0 <= i < |s| => if 'a' <= s[i] <= 'z' then (s[i] as int - 32) as char else s[i])
  }

  /** `handle_request` on a line of the journal: the commands allowed there. */
  function ReplayLine(c: Cache, cfg: Config, line: string, now: int, jit: int): Cache {
    match GetField(line + [NUL])
    case NoField => c
    case Field(word, rest) =>
      if Upper(word) == "UPDATE" then
        match UpdateTarget(c, cfg, rest)
        case None => c
        case Some((file, values)) => Update(c, cfg, now, jit, file, values)
      else if Upper(word) == "WROTE" then
        // the handler takes the text as it stands, without decoding it
        if rest == "" then c else Wrote(c, now, jit, rest[..|rest| - 1])
      else if Upper(word) == "FORGET" then
        match GetField(rest)
        case NoField => c
        case Field(file, _) => Forget(c, file)
      else c
  }

  /** `journal_replay` into an empty cache; `jit(i)` is the jitter drawn for line `i`. */
  function Replay(cfg: Config, lines: seq<string>, now: int, jit: nat -> int): Cache {
    if lines == [] then Cache(map[], [])
    else
      var n := |lines| - 1;
      ReplayLine(Replay(cfg, lines[..n], now, jit), cfg, lines[n], now, jit(n))
  }

  lemma LineWord(word: string, rest: string)
    requires NUL !in word && ' ' !in word && '\\' !in word
    ensures GetField(word + " " + rest + [NUL]) == Field(word, rest + [NUL])
  {
    PlainEscape(word);
    GetFieldEscape(word, ' ', rest + [NUL]);
    assert Escape(word) + [' '] + (rest + [NUL]) == word + " " + rest + [NUL];
  }

  lemma ReplayUpdate(c: Cache, cfg: Config, args: string, now: int, jit: int)
    ensures ReplayLine(c, cfg, "update " + args, now, jit) ==
      match UpdateTarget(c, cfg, args + [NUL])
      case None => c
      case Some((file, values)) => Update(c, cfg, now, jit, file, values)
  {
    LineWord("update", args);
    assert "update" + " " + args == "update " + args;
    assert Upper("update") == "UPDATE";
  }

  /** The two words are the same but for the case of their letters. */
  predicate SameLetters(a: string, b: string) {
    && |a| == |b|
    && forall i :: 0 <= i < |a| ==>
         a[i] == b[i] || ('a' <= a[i] <= 'z' && b[i] as int == a[i] as int - 32)
         || ('a' <= b[i] <= 'z' && a[i] as int == b[i] as int - 32)
  }

  lemma SameUpper(a: string, b: string)
    requires SameLetters(a, b)
    ensures Upper(a) == Upper(b)
  {
  }

  /** The case of the command word makes no difference in replay. */
  lemma ReplayAnyCase(c: Cache, cfg: Config, word: string, word': string, args: string, now: int, jit: int)
    requires SameLetters(word, word')
    requires NUL !in word + word' && ' ' !in word + word' && '\\' !in word + word'
    ensures ReplayLine(c, cfg, word + " " + args, now, jit) == ReplayLine(c, cfg, word' + " " + args, now, jit)
  {
    hide Upper, SameLetters, GetField, UpdateTarget, Update, Wrote, Forget;
    LineWord(word, args);
    LineWord(word', args);
    SameUpper(word, word');
  }

  lemma UpperSame(word: string, known: string)
    requires known in {"update", "wrote", "forget"} && Upper(word) == Upper(known)
    ensures SameLetters(word, known)
  {
    forall i | 0 <= i < |word|
      ensures word[i] == known[i] || ('a' <= known[i] <= 'z' && word[i] as int == known[i] as int - 32)
    {
      assert Upper(word)[i] == Upper(known)[i] && 'a' <= known[i] <= 'z';
    }
  }

  /** No other command has an effect there. */
  lemma ReplayOthers(c: Cache, cfg: Config, word: string, args: string, now: int, jit: int)
    requires NUL !in word && ' ' !in word && '\\' !in word
    requires forall known :: known in {"update", "wrote", "forget"} ==> !SameLetters(word, known)
    ensures ReplayLine(c, cfg, word + " " + args, now, jit) == c
  {
    hide GetField, UpdateTarget, Update, Wrote, Forget, SameLetters;
    LineWord(word, args);
    assert Upper("update") == "UPDATE" && Upper("wrote") == "WROTE" && Upper("forget") == "FORGET";
    forall known | known in {"update", "wrote", "forget"}
      ensures Upper(word) != Upper(known)
    {
      if Upper(word) == Upper(known) {
        UpperSame(word, known);
      }
    }
  }

  lemma ReplayWrote(c: Cache, cfg: Config, file: string, now: int, jit: int)
    ensures ReplayLine(c, cfg, "wrote " + file, now, jit) == Wrote(c, now, jit, file)
  {
    LineWord("wrote", file);
    assert "wrote" + " " + file == "wrote " + file;
    assert Upper("wrote") == "WROTE";
    assert (file + [NUL])[..|file|] == file;
  }

  /** A name that needs no escaping; only such a name survives the "forget" record, which
      is written unescaped and read back with escapes decoded. */
  predicate Plain(name: string) {
    ' ' !in name && '\\' !in name
  }

  /** A "forget" record removes the file that its raw name decodes to: the one forgotten
      exactly when its name needs no escaping, and otherwise one with a shorter name, if
      any. */
  lemma ReplayForget(c: Cache, cfg: Config, file: string, now: int, jit: int)
    requires NUL !in file
    ensures ReplayLine(c, cfg, "forget " + file, now, jit) ==
      match GetField(file + [NUL])
      case NoField => c
      case Field(other, _) => Forget(c, other)
    ensures Plain(file) <==> GetField(file + [NUL]).Field? && GetField(file + [NUL]).text == file
    ensures !Plain(file) && GetField(file + [NUL]).Field? ==> |GetField(file + [NUL]).text| < |file|
  {
    hide GetField, Forget;
    LineWord("forget", file);
    assert "forget" + " " + file == "forget " + file;
    assert Upper("forget") == "FORGET";
    RawNameDecodes(file);
    if !Plain(file) {
      RawNameShrinks(file);
    }
  }

  /** Replaying the FORGET of `a b` removes `a`. */
  lemma ForgetsAnother(c: Cache, cfg: Config, now: int, jit: int)
    ensures ReplayLine(c, cfg, "forget a b", now, jit) == Forget(c, "a")
  {
    hide GetField;
    ReplayForget(c, cfg, "a b", now, jit);
    assert "forget " + "a b" == "forget a b";
    PlainEscape("a");
    GetFieldEscape("a", ' ', "b" + [NUL]);
    assert "a" + [' '] + ("b" + [NUL]) == "a b" + [NUL];
  }
}
