/** What the daemon starts with after a crash: the cache replayed from the journal. */
module Restart {
  import opened Text
  import opened Wire
  import opened CacheModel

  function Get<T>(m: map<string, seq<T>>, file: string): seq<T> {
    if file in m then m[file] else []
  }

  /** After a line that takes `c` to `c'`: for each file the values that "wrote" records
      have taken off its item, in order. */
  function SettledNext(c: Cache, c': Cache, settled: map<string, seq<string>>): map<string, seq<string>> {
    map f | f in c'.items ::
      if f !in c.items then []
      else Get(settled, f) + if c.items[f].values <= c'.items[f].values then [] else c.items[f].values
  }

  function Settled(cfg: Config, lines: seq<string>, now: int, jit: nat -> int): map<string, seq<string>> {
    if lines == [] then map[]
    else
      var n := |lines| - 1;
      SettledNext(Replay(cfg, lines[..n], now, jit), Replay(cfg, lines, now, jit), Settled(cfg, lines[..n], now, jit))
  }

  // ---------------------------------------------------------------- what replay keeps

  /** The stamps of a file's values, settled and pending, increase up to its last stamp,
      and no flush time lies further in the future than the jitter allows. */
  predicate ItemReplayed(c: Cache, settled: map<string, seq<string>>, latest: int, f: string)
    requires f in c.items
  {
    && Clocked(Get(settled, f) + c.items[f].values) == Some(c.items[f].lastStamp)
    && c.items[f].lastFlush <= latest
  }

  ghost predicate Replayed(c: Cache, settled: map<string, seq<string>>, latest: int) {
    CacheOk(c) && forall f :: f in c.items ==> ItemReplayed(c, settled, latest, f)
  }

  lemma UpdateReplays(c: Cache, settled: map<string, seq<string>>, cfg: Config, now: int, jit: int, file: string,
                      rest: string)
    requires Replayed(c, settled, now + cfg.jitter) && JitterOk(cfg, jit)
    ensures var c' := Update(c, cfg, now, jit, file, rest);
      Replayed(c', SettledNext(c, c', settled), now + cfg.jitter)
  {
    hide Clocked, Accept, CacheOk;
    var c' := Update(c, cfg, now, jit, file, rest);
    var settled' := SettledNext(c, c', settled);
    UpdateOk(c, cfg, now, jit, file, rest);
    forall f | f in c'.items
      ensures ItemReplayed(c', settled', now + cfg.jitter, f)
    {
      assert Get(settled, f) + [] == Get(settled, f);
      if f == file {
        UpdatedReplays(c, settled, cfg, now, jit, file, rest);
      } else {
        assert ItemReplayed(c, settled, now + cfg.jitter, f);
      }
    }
  }

  /** The values of the file itself. */
  lemma UpdatedReplays(c: Cache, settled: map<string, seq<string>>, cfg: Config, now: int, jit: int, file: string,
                       rest: string)
    requires JitterOk(cfg, jit) && (file in c.items ==> ItemReplayed(c, settled, now + cfg.jitter, file))
    ensures var c' := Update(c, cfg, now, jit, file, rest);
      file in c'.items && ItemReplayed(c', SettledNext(c, c', settled), now + cfg.jitter, file)
  {
    hide Clocked, Accept;
    var ci := ItemFor(c, file, now, jit);
    var before := if file in c.items then Get(settled, file) else [];
    var a := Accept(rest, ci.lastStamp);
    NothingClocked();
    assert before + [] == before && [] + ci.values == ci.values;
    assert Clocked(before + ci.values) == Some(ci.lastStamp);
    AcceptClocked(rest, before + ci.values, ci.lastStamp);
    Assoc(before, ci.values, a.values);
  }

  lemma NothingClocked()
    ensures Clocked([]) == Some(0)
  {
  }

  lemma WroteReplays(c: Cache, settled: map<string, seq<string>>, cfg: Config, now: int, jit: int, file: string)
    requires Replayed(c, settled, now + cfg.jitter) && JitterOk(cfg, jit)
    ensures var c' := Wrote(c, now, jit, file);
      Replayed(c', SettledNext(c, c', settled), now + cfg.jitter)
  {
    hide Clocked, CacheOk;
    var c' := Wrote(c, now, jit, file);
    var settled' := SettledNext(c, c', settled);
    WroteOk(c, now, jit, file);
    forall f | f in c'.items
      ensures ItemReplayed(c', settled', now + cfg.jitter, f)
    {
      assert ItemReplayed(c, settled, now + cfg.jitter, f);
      assert Get(settled, f) + [] == Get(settled, f);
      if f == file {
        assert Get(settled', f) + [] == Get(settled', f);
      }
    }
  }

  lemma FewerReplay(c: Cache, c': Cache, settled: map<string, seq<string>>, latest: int)
    requires Replayed(c, settled, latest) && CacheOk(c')
    requires forall f :: f in c'.items ==> f in c.items && c'.items[f] == c.items[f]
    ensures Replayed(c', SettledNext(c, c', settled), latest)
  {
    hide Clocked, CacheOk;
    var settled' := SettledNext(c, c', settled);
    forall f | f in c'.items
      ensures ItemReplayed(c', settled', latest, f)
    {
      assert ItemReplayed(c, settled, latest, f);
      assert Get(settled, f) + [] == Get(settled, f);
    }
  }

  lemma LineReplays(c: Cache, settled: map<string, seq<string>>, cfg: Config, line: string, now: int, jit: int)
    requires Replayed(c, settled, now + cfg.jitter) && JitterOk(cfg, jit)
    ensures var c' := ReplayLine(c, cfg, line, now, jit);
      Replayed(c', SettledNext(c, c', settled), now + cfg.jitter)
  {
    hide GetField, Upper, Replayed, SettledNext, Update, Wrote, Forget;
    assert CacheOk(c) by {
      ReplayedCache(c, settled, now + cfg.jitter);
    }
    Unchanged(c, settled, now + cfg.jitter);
    match GetField(line + [NUL])
    case NoField =>
    case Field(word, rest) =>
      if Upper(word) == "UPDATE" {
        if UpdateTarget(c, cfg, rest).Some? {
          var (file, values) := UpdateTarget(c, cfg, rest).value;
          UpdateReplays(c, settled, cfg, now, jit, file, values);
        }
      } else if Upper(word) == "WROTE" {
        if rest != "" {
          WroteReplays(c, settled, cfg, now, jit, rest[..|rest| - 1]);
        }
      } else if Upper(word) == "FORGET" {
        if GetField(rest).Field? {
          ForgetReplays(c, settled, now + cfg.jitter, GetField(rest).text);
        }
      }
  }

  lemma ReplayedCache(c: Cache, settled: map<string, seq<string>>, latest: int)
    requires Replayed(c, settled, latest)
    ensures CacheOk(c)
  {
  }

  lemma Unchanged(c: Cache, settled: map<string, seq<string>>, latest: int)
    requires Replayed(c, settled, latest)
    ensures Replayed(c, SettledNext(c, c, settled), latest)
  {
    FewerReplay(c, c, settled, latest);
  }

  lemma ForgetReplays(c: Cache, settled: map<string, seq<string>>, latest: int, file: string)
    requires Replayed(c, settled, latest)
    ensures Replayed(Forget(c, file), SettledNext(c, Forget(c, file), settled), latest)
  {
    ForgetOk(c, file);
    FewerReplay(c, Forget(c, file), settled, latest);
  }

  /** Replaying any text whatever gives a cache that every step of the daemon accepts. */
  lemma {:induction false} ReplayOk(cfg: Config, lines: seq<string>, now: int, jit: nat -> int)
    requires forall i :: JitterOk(cfg, jit(i))
    ensures Replayed(Replay(cfg, lines, now, jit), Settled(cfg, lines, now, jit), now + cfg.jitter)
  {
    if lines != [] {
      hide Replayed, SettledNext, ReplayLine;
      var n := |lines| - 1;
      ReplayOk(cfg, lines[..n], now, jit);
      LineReplays(Replay(cfg, lines[..n], now, jit), Settled(cfg, lines[..n], now, jit), cfg, lines[n], now, jit(n));
    }
  }

  // ---------------------------------------------------------------- clock and jitter do not matter

  /** The same files, with the same values and the same last stamps. */
  ghost predicate Alike(c: Cache, d: Cache) {
    && c.items.Keys == d.items.Keys
    && forall f :: f in c.items ==>
         c.items[f].values == d.items[f].values && c.items[f].lastStamp == d.items[f].lastStamp
  }

  lemma LineAlike(c: Cache, d: Cache, cfg: Config, line: string, now: int, jit: int, now': int, jit': int)
    requires Alike(c, d)
    ensures Alike(ReplayLine(c, cfg, line, now, jit), ReplayLine(d, cfg, line, now', jit'))
  {
    hide GetField, Accept, Without, Upper;
  }

  /** Replaying a journal at another time gives the same values and stamps. */
  lemma {:induction false} ReplayAlike(cfg: Config, lines: seq<string>, now: int, jit: nat -> int, now': int,
                                       jit': nat -> int)
    ensures Alike(Replay(cfg, lines, now, jit), Replay(cfg, lines, now', jit'))
  {
    if lines != [] {
      hide Alike, ReplayLine;
      var n := |lines| - 1;
      ReplayAlike(cfg, lines[..n], now, jit, now', jit');
      LineAlike(Replay(cfg, lines[..n], now, jit), Replay(cfg, lines[..n], now', jit'), cfg, lines[n], now, jit(n),
                now', jit'(n));
    } else {
      AlikeNothing();
    }
  }

  lemma AlikeNothing()
    ensures Alike(Cache(map[], []), Cache(map[], []))
  {
  }
}
