/** An UPDATE from the client's list of values to what the daemon enqueues and answers. */
module UpdateRequest {
  import opened Text
  import opened Wire
  import opened Framing
  import opened CacheModel
  import Responses

  type Outcome = Responses.Outcome

  // ---------------------------------------------------------------- the answer

  /** The answer after `n` values have been accepted, the last at `stamp`, when `rest` is
      left of the request. */
  function Answered(rest: string, stamp: int, n: nat): Outcome
    decreases |rest|
  {
    match GetField(rest)
    case NoField => Finished(n)
    case Field(value, more) =>
      match Stamp(value)
      case None => NoTimestamp(value)
      case Some(t) => if t <= stamp then TooOld(t, stamp) else Answered(more, t, n + 1)
  }

  function Finished(n: nat): Outcome {
    if n < 1 then Responses.Outcome([], false, "No values updated.\n")
    else Responses.Outcome([], true, "errors, enqueued " + Decimal(n) + " value(s).\n")
  }

  function NoTimestamp(value: string): Outcome {
    Responses.Outcome([], false, "Cannot find timestamp in '" + value + "'!\n")
  }

  function TooOld(t: int, stamp: int): Outcome {
    Responses.Outcome([], false,
      "illegal attempt to update using time " + Responses.Printed(t) + " when last update time is "
      + Responses.Printed(stamp) + " (minimum one second step)\n")
  }

  // ---------------------------------------------------------------- what a list of values comes to

  /** The stamp that value `i` of a list must exceed, if the list is accepted up to there. */
  function Before(values: seq<string>, i: nat, stamp: int): int
    requires i <= |values|
  {
    if i == 0 then stamp
    else match Stamp(values[i - 1]) case Some(t) => t case None => 0
  }

  /** Each value has a stamp, and they increase strictly, all above `stamp`. */
  predicate Rising(values: seq<string>, stamp: int) {
    forall i :: 0 <= i < |values| ==> Stamp(values[i]).Some? && Before(values, i, stamp) < Stamp(values[i]).value
  }

  lemma RisingFirst(v: string, more: seq<string>, stamp: int)
    ensures Rising([v] + more, stamp) <==>
      Stamp(v).Some? && stamp < Stamp(v).value && Rising(more, Stamp(v).value)
  {
    hide Stamp;
    var all := [v] + more;
    if Stamp(v).Some? {
      var t := Stamp(v).value;
      assert forall i :: 0 <= i < |more| ==> all[i + 1] == more[i] && Before(all, i + 1, stamp) == Before(more, i, t);
      if Rising(all, stamp) {
        assert all[0] == v && Before(all, 0, stamp) == stamp;
        forall i | 0 <= i < |more|
          ensures Stamp(more[i]).Some? && Before(more, i, t) < Stamp(more[i]).value
        {
          assert Stamp(all[i + 1]).Some? && Before(all, i + 1, stamp) < Stamp(all[i + 1]).value;
        }
      }
      if Rising(more, t) && stamp < t {
        forall i | 0 <= i < |all|
          ensures Stamp(all[i]).Some? && Before(all, i, stamp) < Stamp(all[i]).value
        {
          if i > 0 {
            assert Stamp(more[i - 1]).Some? && Before(more, i - 1, t) < Stamp(more[i - 1]).value;
          }
        }
      }
    } else {
      assert all[0] == v;
    }
  }

  /** The fields behind the file name of a request with these values. */
  function Rest(values: seq<string>): string {
    if values == [] then "" else Terminated(values, [NUL])
  }

  lemma RestFirst(values: seq<string>)
    requires values != [] && NUL !in values[0]
    ensures GetField(Rest(values)) == Field(values[0], Rest(values[1..]))
  {
    var f, more := values[0], Rest(values[1..]);
    if |values| == 1 {
      GetFieldEscape(f, NUL, "");
      assert Escape(f) + [NUL] + "" == Rest(values);
    } else {
      GetFieldEscape(f, ' ', more);
      assert Rest(values) == Escape(f) + [' '] + more;
    }
  }

  lemma AcceptFirst(values: seq<string>, stamp: int)
    requires values != [] && NUL !in values[0]
    ensures Accept(Rest(values), stamp) ==
      match Stamp(values[0])
      case None => Accepted([], stamp, NoStamp)
      case Some(t) =>
        if t <= stamp then Accepted([], stamp, OldStamp)
        else
          var a := Accept(Rest(values[1..]), t);
          Accepted([values[0]] + a.values, a.stamp, a.verdict)
  {
    hide GetField, Stamp, Rest;
    RestFirst(values);
  }

  /** Of a list of values the longest beginning with increasing stamps is accepted, and the
      loop ends for the reason that stops it there. */
  lemma {:induction false} AcceptsRising(values: seq<string>, stamp: int)
    requires forall i :: 0 <= i < |values| ==> NUL !in values[i]
    ensures var a := Accept(Rest(values), stamp);
      var k := |a.values|;
      && a.values <= values && Rising(a.values, stamp) && a.stamp == Before(values, k, stamp)
      && (k < |values| ==> !Rising(values[..k + 1], stamp))
      && a.verdict == if k == |values| then Complete else if Stamp(values[k]).None? then NoStamp else OldStamp
  {
    hide Accept, Stamp, Rising, Rest;
    if values == [] {
      NothingLeft(stamp);
    } else {
      var v, more := values[0], values[1..];
      assert values == [v] + more;
      AcceptFirst(values, stamp);
      RisingNone(stamp);
      assert values[..1] == [v] + [];
      RisingFirst(v, [], stamp);
      if Stamp(v).Some? && stamp < Stamp(v).value {
        var t := Stamp(v).value;
        AcceptsRising(more, t);
        var a := Accept(Rest(more), t);
        var k := |a.values|;
        RisingFirst(v, a.values, stamp);
        assert Before(values, k + 1, stamp) == Before(more, k, t);
        if k < |more| {
          assert values[..k + 2] == [v] + more[..k + 1] && values[k + 1] == more[k];
          RisingFirst(v, more[..k + 1], stamp);
        }
      }
    }
  }

  lemma NothingLeft(stamp: int)
    ensures Accept(Rest([]), stamp) == Accepted([], stamp, Complete) && Rising([], stamp)
  {
  }

  lemma RisingNone(stamp: int)
    ensures Rising([], stamp)
  {
  }

  lemma AnsweredFirst(values: seq<string>, stamp: int, n: nat)
    requires values != [] && NUL !in values[0]
    ensures Answered(Rest(values), stamp, n) ==
      match Stamp(values[0])
      case None => NoTimestamp(values[0])
      case Some(t) => if t <= stamp then TooOld(t, stamp) else Answered(Rest(values[1..]), t, n + 1)
  {
    hide GetField, Stamp, Rest, NoTimestamp, TooOld;
    RestFirst(values);
  }

  lemma {:induction false} AnsweredIs(values: seq<string>, stamp: int, n: nat)
    requires forall i :: 0 <= i < |values| ==> NUL !in values[i]
    ensures var k := |Accept(Rest(values), stamp).values|;
      && k <= |values|
      && Answered(Rest(values), stamp, n) ==
           if k == |values| then Finished(n + k)
           else if Stamp(values[k]).None? then NoTimestamp(values[k])
           else TooOld(Stamp(values[k]).value, Before(values, k, stamp))
  {
    hide Accept, Answered, Stamp, Rest, Finished, NoTimestamp, TooOld;
    if values == [] {
      NothingLeft(stamp);
      NothingAnswered(stamp, n);
    } else {
      var v, more := values[0], values[1..];
      AcceptFirst(values, stamp);
      AnsweredFirst(values, stamp, n);
      if Stamp(v).Some? && stamp < Stamp(v).value {
        var t := Stamp(v).value;
        AnsweredIs(more, t, n + 1);
        var k := |Accept(Rest(more), t).values|;
        if k < |more| {
          assert more[k] == values[k + 1] && Before(values, k + 1, stamp) == Before(more, k, t);
        }
      }
    }
  }

  /** The answer to a list of values tells how many were enqueued exactly when all were,
      and otherwise names the first that was not. */
  lemma AnswersRising(values: seq<string>, stamp: int, n: nat)
    requires forall i :: 0 <= i < |values| ==> NUL !in values[i]
    ensures var k := |Accept(Rest(values), stamp).values|;
      && k <= |values|
      && var o := Answered(Rest(values), stamp, n);
         if k == |values| then o == Finished(n + k)
         else
           && !o.ok && o.infos == []
           && o.message ==
                if Stamp(values[k]).None? then "Cannot find timestamp in '" + values[k] + "'!\n"
                else
                  "illegal attempt to update using time " + Responses.Printed(Stamp(values[k]).value)
                  + " when last update time is " + Responses.Printed(Before(values, k, stamp))
                  + " (minimum one second step)\n"
  {
    hide Accept, Answered, Stamp, Rest, Finished, Before, Responses.Printed;
    AnsweredIs(values, stamp, n);
  }

  lemma NothingAnswered(stamp: int, n: nat)
    ensures Answered(Rest([]), stamp, n) == Finished(n)
  {
  }

  // ---------------------------------------------------------------- from the client to the cache

  lemma {:induction false} TerminatedCons(f: string, more: seq<string>, end: string)
    requires more != []
    ensures Terminated([f] + more, end) == Escape(f) + " " + Terminated(more, end)
  {
    assert ([f] + more)[1..] == more;
  }

  /** What follows the command word in the request for these values. */
  function Args(file: string, values: seq<string>): string {
    Terminated([file] + values, "")
  }

  /** The client's request for `values` is a single line, an UPDATE with `Args`; at the cache
      it is about `file`, and what is left of it are the values. */
  lemma RequestIs(file: string, values: seq<string>, c: Cache, cfg: Config)
    requires Clean(file) && forall i :: 0 <= i < |values| ==> Clean(values[i])
    ensures Terminated(["update", file] + values, "\n") == "update " + Args(file, values) + "\n"
    ensures UpdateTarget(c, cfg, Args(file, values) + [NUL]) ==
      if file in c.items || file in cfg.known then Some((file, Rest(values))) else None
  {
    hide GetField, Terminated, Escape, Rest;
    var fields := [file] + values;
    assert ["update", file] + values == ["update"] + fields;
    CommandWord(fields);
    TerminatedSplit(fields, [NUL]);
    assert fields[0] == file && fields[1..] == values;
    RestIs(fields);
    RestFirst(fields);
  }

  lemma CommandWord(fields: seq<string>)
    requires fields != []
    ensures Terminated(["update"] + fields, "\n") == "update " + Terminated(fields, "") + "\n"
  {
    hide Terminated, Escape;
    PlainEscape("update");
    TerminatedCons("update", fields, "\n");
    TerminatedSplit(fields, "\n");
    assert "update" + " " == "update ";
    Assoc("update ", Terminated(fields, ""), "\n");
  }

  lemma RestIs(fields: seq<string>)
    requires fields != []
    ensures Rest(fields) == Terminated(fields, [NUL])
  {
  }

  /** The answer is OK exactly if there are values and all are accepted. */
  lemma OkExactly(values: seq<string>, stamp: int)
    requires forall i :: 0 <= i < |values| ==> NUL !in values[i]
    ensures var o := Answered(Rest(values), stamp, 0);
      var a := Accept(Rest(values), stamp);
      && (o.ok <==> values != [] && Rising(values, stamp))
      && (o.ok ==> o.message == "errors, enqueued " + Decimal(|values|) + " value(s).\n" && a.values == values)
      && a.values <= values
  {
    hide Rest, Rising, Stamp, Accept, Answered, Finished, NoTimestamp, TooOld, Before;
    AcceptsRising(values, stamp);
    AnswersRising(values, stamp, 0);
    var k := |Accept(Rest(values), stamp).values|;
    OnlyFinishedIsOk(k);
    if k < |values| {
      NotRising(values, k, stamp);
    } else {
      assert Accept(Rest(values), stamp).values == values;
    }
  }

  /** An UPDATE of a file that is there is answered with OK and the number of its values
      exactly when there is one and their stamps increase from the last one on; and then
      these values, all and in order, are now behind the pending ones. */
  lemma EnqueuedExactly(file: string, values: seq<string>, c: Cache, cfg: Config, now: int, jit: int)
    requires Clean(file) && forall i :: 0 <= i < |values| ==> Clean(values[i])
    requires file in c.items || file in cfg.known
    ensures var ci := ItemFor(c, file, now, jit);
      var o := Answered(Rest(values), ci.lastStamp, 0);
      var ci' := Update(c, cfg, now, jit, file, Rest(values)).items[file];
      && (o.ok <==> values != [] && Rising(values, ci.lastStamp))
      && (o.ok ==> o.message == "errors, enqueued " + Decimal(|values|) + " value(s).\n")
      && (o.ok ==> ci'.values == ci.values + values)
      && ci.values <= ci'.values <= ci.values + values
  {
    hide Rest, Rising, Accept, Answered, Update;
    CleanHasNoNul(values);
    var ci := ItemFor(c, file, now, jit);
    OkExactly(values, ci.lastStamp);
    ItemAfter(c, cfg, now, jit, file, Rest(values));
    PrefixBehind(ci.values, Accept(Rest(values), ci.lastStamp).values, values);
  }

  lemma OnlyFinishedIsOk(n: nat)
    ensures Finished(n).ok <==> n >= 1
    ensures n >= 1 ==> Finished(n).message == "errors, enqueued " + Decimal(n) + " value(s).\n"
    ensures forall value :: !NoTimestamp(value).ok
    ensures forall t, stamp :: !TooOld(t, stamp).ok
  {
  }

  lemma PrefixBehind(a: seq<string>, b: seq<string>, c: seq<string>)
    requires b <= c
    ensures a <= a + b <= a + c
  {
  }

  lemma CleanHasNoNul(values: seq<string>)
    requires forall i :: 0 <= i < |values| ==> Clean(values[i])
    ensures forall i :: 0 <= i < |values| ==> NUL !in values[i]
  {
  }

  lemma ItemAfter(c: Cache, cfg: Config, now: int, jit: int, file: string, rest: string)
    ensures file in Update(c, cfg, now, jit, file, rest).items
    ensures var ci := ItemFor(c, file, now, jit);
      Update(c, cfg, now, jit, file, rest).items[file].values == ci.values + Accept(rest, ci.lastStamp).values
  {
    hide Accept;
  }

  lemma NotRising(values: seq<string>, k: nat, stamp: int)
    requires k < |values| && !Rising(values[..k + 1], stamp)
    ensures !Rising(values, stamp)
  {
    hide Stamp;
    var front := values[..k + 1];
    var i :| 0 <= i < |front| && !(Stamp(front[i]).Some? && Before(front, i, stamp) < Stamp(front[i]).value);
    assert values[i] == front[i] && Before(values, i, stamp) == Before(front, i, stamp);
  }
}
