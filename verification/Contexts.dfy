/** Which commands the daemon takes where: inside a batch and outside one, stated of what
    is then answered. */
module Contexts {
  import opened LineText
  import opened Text
  import opened Responses

  /** A permitted command for a single file whose handler gives an answer. */
  predicate BulkCommand(l: Line) {
    l.Command? && l.permitted && !l.aborts && (l.name.Update? || l.name.Flush? || l.name.Forget?)
  }

  /** The handler ends with an error. */
  predicate HandlerFails(l: Line) {
    l.Command? && !l.outcome.ok
  }

  /** What the handler says. */
  function Message(l: Line): string {
    if l.Command? then l.outcome.message else ""
  }

  predicate Allowed(l: Line, name: Name) {
    l.Command? && l.permitted && l.name == name
  }

  // ---------------------------------------------------------------- inside a batch

  /** A batch goes on after UPDATE, FLUSH and FORGET, and counts as failed what their
      handlers say. */
  lemma BulkInside(l: Line)
    requires BulkCommand(l)
    ensures InsideBatch(l) && Answer(l, true).message == Message(l) && (Fails(l) <==> HandlerFails(l))
  {
  }

  /** A bulk load: the reports are about exactly the commands whose handlers failed, in
      order, with their numbers and messages. */
  lemma BulkLoad(start: Line, body: seq<Line>, dot: Line, rest: seq<Line>)
    requires Allowed(start, Batch) && Allowed(dot, Dot)
    requires forall i :: 0 <= i < |body| ==> BulkCommand(body[i])
    ensures AllInside(body)
    ensures forall k: nat :: k in Failing(body) <==> 1 <= k <= |body| && HandlerFails(body[k - 1])
    ensures |Reports(body)| == |Failing(body)|
    ensures forall i :: 0 <= i < |Failing(body)| ==>
              && 1 <= Failing(body)[i] <= |body|
              && Reports(body)[i] == Report(Failing(body)[i], Message(body[Failing(body)[i] - 1]))
    ensures Transcript(Single, [start] + body + [dot] + rest) ==
              [Response(0, GO_AHEAD, []), Response(|Failing(body)|, "errors", Reports(body))]
              + Transcript(Single, rest)
  {
    hide Answer, Fails, BulkCommand, HandlerFails, Message, Reports, Failing, Transcript, Report;
    forall i | 0 <= i < |body|
      ensures InsideBatch(body[i]) && Answer(body[i], true).message == Message(body[i])
      ensures Fails(body[i]) <==> HandlerFails(body[i])
    {
      BulkInside(body[i]);
    }
    FailingIs(body);
    ReportsAre(body);
    forall i | 0 <= i < |Failing(body)|
      ensures Reports(body)[i] == Report(Failing(body)[i], Message(body[Failing(body)[i] - 1]))
    {
      assert ReportOn(body, Failing(body)[i], Reports(body)[i]);
    }
    Starts(start, dot);
    BatchReport(start, body, dot, rest);
  }

  lemma Starts(start: Line, dot: Line)
    requires Allowed(start, Batch) && Allowed(dot, Dot)
    ensures Reaches(start, Batch, false) && Reaches(dot, Dot, true)
  {
  }

  /** If all of them succeed, nothing is reported. */
  lemma BulkSuccess(start: Line, body: seq<Line>, dot: Line, rest: seq<Line>)
    requires Allowed(start, Batch) && Allowed(dot, Dot)
    requires forall i :: 0 <= i < |body| ==> BulkCommand(body[i]) && !HandlerFails(body[i])
    ensures Transcript(Single, [start] + body + [dot] + rest) ==
              [Response(0, GO_AHEAD, []), Response(0, "errors", [])] + Transcript(Single, rest)
  {
    hide BulkCommand, Transcript, Reports, Failing;
    BulkLoad(start, body, dot, rest);
    NoMember(Failing(body));
    assert Reports(body) == [];
  }

  lemma NoMember(s: seq<nat>)
    ensures s == [] || exists k: nat :: k in s
  {
    if s != [] {
      assert s[0] in s;
    }
  }

  /** Every other command but the end of the batch and QUIT is refused in it, whatever its
      handler would have done, and counts as failed. */
  lemma RefusedInside(l: Line)
    requires l.Command? && l.permitted
    requires l.name in {Wrote, FlushAll, Pending, Queue, Stats, Help, Batch}
    ensures InsideBatch(l) && Fails(l) && Answer(l, true).message == "Can't use '" + l.typed + "' here." + "\n"
  {
  }

  // ---------------------------------------------------------------- outside a batch

  /** Outside, all commands of the client are answered by their handlers. */
  lemma AnsweredOutside(l: Line, rest: seq<Line>)
    requires l.Command? && l.permitted && !l.aborts
    requires l.name in {Update, Flush, FlushAll, Pending, Forget, Queue, Stats, Help}
    ensures var info := Lines(Concat(l.outcome.infos));
      Transcript(Single, [l] + rest) ==
        [if l.outcome.ok then Response(|info|, Trimmed(l.outcome.message), info)
         else Response(-1, Trimmed(l.outcome.message), [])] + Transcript(Single, rest)
  {
    hide Lines, Concat, Trimmed;
    TranscriptNext(Single, l, rest);
  }

  /** The record of a write and the end of a batch are refused there. */
  lemma RefusedOutside(l: Line, rest: seq<Line>)
    requires l.Command? && l.permitted && l.name in {Wrote, Dot}
    ensures Transcript(Single, [l] + rest) ==
      [Response(-1, "Can't use '" + l.typed + "' here.", [])] + Transcript(Single, rest)
  {
    TranscriptNext(Single, l, rest);
  }

  // ---------------------------------------------------------------- in both

  /** QUIT ends the connection, and so does an UPDATE that finds the daemon shut down; no
      later line is answered. */
  lemma Ends(m: Mode, l: Line, rest: seq<Line>)
    requires Allowed(l, Quit) || (Allowed(l, Update) && l.aborts)
    ensures Transcript(m, [l] + rest) == []
  {
    assert ([l] + rest)[0] == l;
  }

  /** Without permission no handler is reached, and every command is answered alike. */
  lemma Denied(l: Line, rest: seq<Line>)
    requires l.Command? && !l.permitted
    ensures Transcript(Single, [l] + rest) == [Response(-1, "Permission denied.", [])] + Transcript(Single, rest)
    ensures InsideBatch(l) && Fails(l) && Answer(l, true).message == "Permission denied.\n"
  {
    assert "Permission denied.\n" == "Permission denied." + "\n";
    TrimmedIs("Permission denied.");
    TranscriptNext(Single, l, rest);
  }
}
