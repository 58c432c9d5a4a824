/** Splitting the byte stream of a client connection into commands: the read buffer of
    `listen_socket_t`, `next_cmd`, and the read loop of `connection_thread_main`. */
module Framing {
  import opened LineText
  import opened Text
  import opened Wire

  const RBUF_SIZE := 2 * CMD_MAX

  // ---------------------------------------------------------------- the stream, read at once

  /** A line without the carriage return that may end it. */
  function DropCr(line: string): string {
    if line != "" && line[|line| - 1] == '\r' then line[..|line| - 1] else line
  }

  /** The commands of a byte stream: its newline-terminated lines. */
  function Commands(s: string): seq<string>
    decreases |s|
  {
    var n := LineEnd(s);
    if n == |s| then [] else [DropCr(s[..n])] + Commands(s[n + 1..])
  }

  /** The bytes after the last newline. */
  function Partial(s: string): string
    decreases |s|
  {
    var n := LineEnd(s);
    if n == |s| then s else Partial(s[n + 1..])
  }

  /** Reading more bytes: commands already complete stay, the rest comes from the
      unfinished line followed by the new bytes. */
  lemma {:induction false} CommandsAppend(a: string, b: string)
    ensures Commands(a + b) == Commands(a) + Commands(Partial(a) + b)
    ensures Partial(a + b) == Partial(Partial(a) + b)
    decreases |a|
  {
    var n := LineEnd(a);
    if n < |a| {
      var line, rest := a[..n], a[n + 1..];
      assert a + b == line + ['\n'] + (rest + b);
      LineEndIs(line, rest + b);
      assert (a + b)[..n] == line && (a + b)[n + 1..] == rest + b;
      CommandsAppend(rest, b);
      Assoc([DropCr(line)], Commands(rest), Commands(Partial(rest) + b));
      assert Partial(a) == Partial(rest);
    } else {
      assert [] + Commands(a + b) == Commands(a + b);
    }
  }

  /** The fields the daemon's handlers decode from a command. */
  function Decoded(command: string): seq<string> {
    Fields(command + [NUL]).0
  }

  function DecodedAll(commands: seq<string>): (r: seq<seq<string>>)
    ensures |r| == |commands|
  {
    seq(|commands|, i requires 0 <= i < |commands| => Decoded(commands[i]))
  }

  /** `requests` are the ones handled of `all`, numbered from `first`: up to and including
      the first whose handler ends the connection, or all of them if none does. */
  ghost predicate Until(all: seq<seq<string>>, requests: seq<seq<string>>, closed: bool, first: nat,
                        closing: nat -> bool)
  {
    && requests <= all
    && (if closed then requests != [] && closing(first + |requests| - 1) else requests == all)
    && (forall i :: first <= i < first + |requests| - (if closed then 1 else 0) ==> !closing(i))
  }

  lemma UntilBehind(a: seq<seq<string>>, b: seq<seq<string>>, requests: seq<seq<string>>, closed: bool,
                    closing: nat -> bool)
    requires Until(a, a, false, 0, closing) && Until(b, requests, closed, |a|, closing)
    ensures Until(a + b, a + requests, closed, 0, closing)
  {
  }

  lemma DecodedAllCons(done: seq<seq<string>>, first: string, more: seq<string>)
    ensures done + DecodedAll([first] + more) == done + [Decoded(first)] + DecodedAll(more)
  {
    assert DecodedAll([first] + more) == [Decoded(first)] + DecodedAll(more);
  }

  lemma CommandsFirst(s: string, n: nat)
    requires n == LineEnd(s) < |s|
    ensures Commands(s) == [DropCr(s[..n])] + Commands(s[n + 1..])
    ensures Partial(s) == Partial(s[n + 1..])
  {
  }

  lemma DrainNext(done: seq<seq<string>>, s: string, n: nat)
    requires n == LineEnd(s) < |s|
    ensures done + DecodedAll(Commands(s)) == done + [Decoded(DropCr(s[..n]))] + DecodedAll(Commands(s[n + 1..]))
    ensures Partial(s) == Partial(s[n + 1..])
  {
    CommandsFirst(s, n);
    DecodedAllCons(done, DropCr(s[..n]), Commands(s[n + 1..]));
  }

  lemma DrainEnd(done: seq<seq<string>>, s: string)
    requires LineEnd(s) == |s|
    ensures done + DecodedAll(Commands(s)) == done && Partial(s) == s
  {
    assert s[..|s|] == s;
  }

  // ---------------------------------------------------------------- the read buffer

  ghost predicate At(buffer: array<char>, pos: int, text: string)
    reads buffer
  {
    && 0 <= pos <= pos + |text| <= buffer.Length
    && forall k :: pos <= k < pos + |text| ==> buffer[k] == text[k - pos]
  }

  class ListenSocket {
    const rbuf: array<char>
    var nextCmd: nat
    var nextRead: nat
    /** The bytes received and not yet taken. */
    ghost var unread: string

    /** The byte before the next command, if any, is the NUL put over the last newline. */
    ghost predicate Valid()
      reads this, rbuf
    {
      && rbuf.Length == RBUF_SIZE
      && nextCmd <= nextRead <= RBUF_SIZE
      && |unread| == nextRead - nextCmd && At(rbuf, nextCmd, unread)
      && (nextCmd > 0 ==> rbuf[nextCmd - 1] == NUL)
    }

    constructor ()
      ensures Valid() && fresh(rbuf) && unread == "" && nextRead == 0
    {
      rbuf := new char[RBUF_SIZE](_ => NUL);
      nextCmd, nextRead, unread := 0, 0, "";
    }

    /** `memchr(rbuf + next_cmd, '\n', next_read - next_cmd)` */
    method FindNewline() returns (n: nat)
      requires Valid()
      ensures n == LineEnd(unread)
    {
      n := LineEnd(rbuf[nextCmd..nextRead]);
      assert rbuf[nextCmd..nextRead] == unread;
    }

    /** `memmove(rbuf, rbuf + next_cmd, next_read - next_cmd)` */
    method MoveToFront()
      requires Valid()
      modifies rbuf, `nextCmd, `nextRead
      ensures Valid() && nextCmd == 0 && nextRead == |unread|
    {
      forall i | 0 <= i < nextRead - nextCmd {
        rbuf[i] := rbuf[nextCmd + i];
      }
      nextRead, nextCmd := nextRead - nextCmd, 0;
    }

    /** The branch of `next_cmd` that finds a newline after `line`. The length is an
        `int`: that it is never negative is part of what is proved. */
    method TakeLine(n: nat, ghost line: string) returns (start: nat, len: int)
      requires Valid() && n < |unread| && line == unread[..n]
      modifies this, rbuf
      ensures Valid() && unread == old(unread)[n + 1..] && nextRead == old(nextRead)
      ensures 0 <= len == |DropCr(line)| && start + len < nextCmd
      ensures At(rbuf, start, DropCr(line)) && rbuf[start + len] == NUL
    {
      start := nextCmd;
      var eol := nextCmd + n;
      assert At(rbuf, start, line);
      rbuf[eol] := NUL;
      nextCmd, unread := eol + 1, unread[n + 1..];
      if eol > 0 && rbuf[eol - 1] == '\r' {
        eol := eol - 1;
        rbuf[eol] := NUL;
      }
      len := eol - start;
    }

    /** `next_cmd`: the next complete command, in place and NUL-terminated, or none, in
        which case the unfinished line is moved to the front of the buffer. */
    method NextCmd() returns (found: bool, start: nat, len: int)
      requires Valid()
      modifies this, rbuf
      ensures Valid()
      ensures var s, n := old(unread), LineEnd(old(unread));
        if n < |s| then
          && found && 0 <= len == |DropCr(s[..n])| && start + len < nextCmd
          && At(rbuf, start, DropCr(s[..n])) && rbuf[start + len] == NUL
          && unread == s[n + 1..]
        else !found && nextCmd == 0 && unread == s
    {
      var n := FindNewline();
      if n == nextRead - nextCmd {
        MoveToFront();
        return false, 0, 0;
      }
      found := true;
      start, len := TakeLine(n, unread[..n]);
    }

    /** One `read`: `chunk` goes behind the bytes already there. */
    method Receive(chunk: string)
      requires Valid() && |chunk| <= RBUF_SIZE - nextRead
      modifies this, rbuf
      ensures Valid() && unread == old(unread) + chunk
      ensures nextCmd == old(nextCmd)
    {
      forall i | 0 <= i < |chunk| {
        rbuf[nextRead + i] := chunk[i];
      }
      nextRead := nextRead + |chunk|;
      unread := unread + chunk;
    }

    /** The handlers decode a command over itself; what is still unread is not touched. */
    method HandleCommand(start: nat, len: nat, ghost cmd: string) returns (fields: seq<string>)
      requires Valid() && start + len < nextCmd && len == |cmd| && At(rbuf, start, cmd) && rbuf[start + len] == NUL
      modifies rbuf
      ensures Valid()
      ensures fields == Decoded(cmd)
    {
      assert rbuf[start..start + len + 1] == cmd + [NUL];
      var left;
      fields, left := DecodeRequest(rbuf, start, len + 1);
    }

    /** The inner loop of `connection_thread_main`: every complete command is taken and
        decoded in place, until the handler of one ends the connection. `first` requests
        have been handled before; `closing(k)` says whether request `k` ends it. */
    method Drain(closing: nat -> bool, first: nat) returns (requests: seq<seq<string>>, closed: bool)
      requires Valid()
      modifies this, rbuf
      ensures Valid()
      ensures Until(DecodedAll(Commands(old(unread))), requests, closed, first, closing)
      ensures !closed ==> nextCmd == 0 && unread == Partial(old(unread))
    {
      hide Commands, DecodedAll, Partial, At, DropCr;
      requests, closed := [], false;
      ghost var all, last := DecodedAll(Commands(unread)), Partial(unread);
      while true
        invariant Valid()
        invariant requests + DecodedAll(Commands(unread)) == all && Partial(unread) == last
        invariant forall i :: first <= i < first + |requests| ==> !closing(i)
        decreases |unread|
      {
        ghost var s, n := unread, LineEnd(unread);
        var found, start, len := NextCmd();
        if !found {
          DrainEnd(requests, s);
          break;
        }
        DrainNext(requests, s, n);
        var fields := HandleCommand(start, len, DropCr(s[..n]));
        requests := requests + [fields];
        if closing(first + |requests| - 1) {
          return requests, true;
        }
      }
    }
  }

  // ---------------------------------------------------------------- the connection

  /** No line of the stream overruns the read buffer. */
  ghost predicate LinesFit(stream: string) {
    forall i :: 0 <= i < |stream| ==> |Partial(stream[..i])| < RBUF_SIZE
  }

  /** A single line reaches its handler exactly when it fits the read buffer with its
      newline. */
  lemma OneLineFits(line: string)
    requires NoNewline(line)
    ensures LinesFit(line + "\n") <==> |line| < RBUF_SIZE
    ensures Commands(line + "\n") == [DropCr(line)]
  {
    hide LineEnd, Commands, Partial, DropCr;
    var stream := line + "\n";
    assert stream == line + "\n" + "";
    LineEndIs(line, "");
    CommandsFirst(stream, |line|);
    assert stream[..|line|] == line && stream[|line| + 1..] == "";
    NothingComplete("");
    assert [DropCr(line)] + [] == [DropCr(line)];
    forall i | 0 <= i < |stream|
      ensures Partial(stream[..i]) == stream[..i]
    {
      assert stream[..i] == line[..i];
      NothingComplete(line[..i]);
    }
    assert stream[..|line|] == line;
  }

  lemma NothingComplete(s: string)
    requires NoNewline(s)
    ensures Partial(s) == s && Commands(s) == []
  {
    LineEndIs(s, "");
  }

  lemma {:induction false} PartialLength(a: string, b: string)
    ensures |Partial(a + b)| <= |Partial(a)| + |b|
  {
    CommandsAppend(a, b);
    PartialShorter(Partial(a) + b);
  }

  lemma PartialShorter(s: string)
    ensures |Partial(s)| <= |s|
    decreases |s|
  {
    if LineEnd(s) < |s| {
      PartialShorter(s[LineEnd(s) + 1..]);
    }
  }

  /** How much the next `read` returns: what the network has ready, at least one byte,
      at most what fits. */
  function ReadSize(ready: nat, room: nat, left: nat): (n: nat)
    requires room > 0 && left > 0
    ensures 1 <= n <= room && n <= left
  {
    var n := if ready == 0 then 1 else ready;
    var m := if n > room then room else n;
    if m > left then left else m
  }

  /** `connection_thread_main` on a client that sends `stream` and closes; `ready` says
      how many bytes each `read` finds, and `closing` which requests end the connection.
      Whatever the sizes of the reads, the requests handled are the lines of the stream up
      to the first that ends it; otherwise the connection is given up early exactly when a
      line overruns the buffer, and then after the lines before it. */
  method Serve(stream: string, ready: nat -> nat, closing: nat -> bool)
    returns (requests: seq<seq<string>>, consumed: nat, closed: bool)
    ensures consumed <= |stream|
    ensures Until(DecodedAll(Commands(stream[..consumed])), requests, closed, 0, closing)
    ensures !closed ==> (consumed == |stream| <==> LinesFit(stream))
    ensures !closed && consumed < |stream| ==> |Partial(stream[..consumed])| == RBUF_SIZE
  {
    hide Commands, DecodedAll, Partial;
    NothingRead();
    var sock := new ListenSocket();
    var i := 0;
    requests, consumed, closed := [], 0, false;
    while consumed < |stream| && sock.nextRead < RBUF_SIZE
      invariant consumed <= |stream| && sock.Valid() && fresh(sock) && fresh(sock.rbuf)
      invariant sock.nextCmd == 0 && sock.unread == Partial(stream[..consumed])
      invariant Until(DecodedAll(Commands(stream[..consumed])), requests, false, 0, closing)
      invariant forall k :: 0 <= k < consumed ==> |Partial(stream[..k])| < RBUF_SIZE
    {
      var n := ReadSize(ready(i), RBUF_SIZE - sock.nextRead, |stream| - consumed);
      var chunk := stream[consumed..consumed + n];
      sock.Receive(chunk);
      ghost var s := sock.unread;
      var more, ended := sock.Drain(closing, |requests|);
      ReadNext(stream, consumed, n);
      UntilBehind(requests, DecodedAll(Commands(s)), more, ended, closing);
      requests, consumed, i := requests + more, consumed + n, i + 1;
      if ended {
        return requests, consumed, true;
      }
    }
  }

  lemma NothingRead()
    ensures Partial("") == "" && DecodedAll(Commands("")) == []
  {
  }

  lemma ReadNext(stream: string, at: nat, n: nat)
    requires at + n <= |stream| && |Partial(stream[..at])| + n <= RBUF_SIZE
    ensures var s := Partial(stream[..at]) + stream[at..at + n];
      && DecodedAll(Commands(stream[..at + n])) == DecodedAll(Commands(stream[..at])) + DecodedAll(Commands(s))
      && Partial(stream[..at + n]) == Partial(s)
    ensures forall k :: at <= k < at + n ==> |Partial(stream[..k])| < RBUF_SIZE
  {
    hide Commands, Partial, DecodedAll;
    var a, b := stream[..at], stream[at..at + n];
    assert stream[..at + n] == a + b;
    CommandsAppend(a, b);
    DecodedAllAppend(Commands(a), Commands(Partial(a) + b));
    forall k | at <= k < at + n
      ensures |Partial(stream[..k])| < RBUF_SIZE
    {
      assert stream[..k] == a + stream[at..k];
      PartialLength(a, stream[at..k]);
    }
  }

  lemma DecodedAllAppend(a: seq<string>, b: seq<string>)
    ensures DecodedAll(a + b) == DecodedAll(a) + DecodedAll(b)
  {
  }

  // ---------------------------------------------------------------- client to daemon

  lemma {:induction false} TerminatedSplit(fields: seq<string>, end: string)
    requires fields != []
    ensures Terminated(fields, end) == Terminated(fields, "") + end
  {
    if |fields| > 1 {
      TerminatedSplit(fields[1..], end);
      Assoc(Escape(fields[0]) + " ", Terminated(fields[1..], ""), end);
    }
  }

  lemma {:induction false} EscapeLast(s: string)
    ensures '\n' !in s ==> '\n' !in Escape(s)
    ensures s != "" ==> Escape(s) != "" && Escape(s)[|Escape(s)| - 1] == s[|s| - 1]
    ensures DropCr(Escape(s)) == Escape(DropCr(s))
  {
    if s != "" {
      var n := |s| - 1;
      EscapeSplit(s, n);
      assert s[n..] == [s[n]] && Escape(s[n..]) == EscapeChar(s[n]) + Escape("");
      if s[n] == '\r' {
        assert Escape(s) == Escape(s[..n]) + ['\r'];
      }
      if '\n' !in s {
        EscapeLast(s[1..]);
      }
    }
  }

  /** The last field loses the carriage return that ends it. */
  function Received(fields: seq<string>): seq<string>
    requires fields != []
  {
    fields[..|fields| - 1] + [DropCr(fields[|fields| - 1])]
  }

  lemma {:induction false} DropCrTerminated(fields: seq<string>)
    requires fields != [] && forall f :: f in fields ==> Clean(f)
    ensures '\n' !in Terminated(fields, "")
    ensures DropCr(Terminated(fields, "")) == Terminated(Received(fields), "")
  {
    var f := fields[0];
    assert f in fields && Clean(f);
    EscapeLast(f);
    if |fields| == 1 {
      assert Terminated(fields, "") == Escape(f) && Received(fields) == [DropCr(f)];
      assert Terminated([DropCr(f)], "") == Escape(DropCr(f));
      assert f == "" ==> DropCr(f) == f && Escape(f) == "";
    } else {
      var more := fields[1..];
      DropCrTerminated(more);
      assert Received(fields)[0] == f && Received(fields)[1..] == Received(more);
      DropCrBehind(Escape(f), Terminated(more, ""));
    }
  }

  lemma DropCrBehind(a: string, b: string)
    ensures DropCr(a + " " + b) == a + " " + DropCr(b)
  {
    if b == "" {
      assert a + " " + b == a + " ";
    }
  }

  /** The list arrives intact exactly when its last string does not end in a carriage
      return. */
  lemma ReceivedIntact(fields: seq<string>)
    requires fields != []
    ensures Received(fields) == fields <==>
      var last := fields[|fields| - 1]; last == "" || last[|last| - 1] != '\r'
  {
    var last := fields[|fields| - 1];
    assert fields == fields[..|fields| - 1] + [last];
    assert Received(fields)[|fields| - 1] == DropCr(last);
  }

  /** A request written by the client and read by the daemon: exactly one command, whose
      fields are the client's, except that a carriage return ending the last is lost. */
  lemma RequestRoundTrip(fields: seq<string>)
    requires fields != [] && forall f :: f in fields ==> Clean(f)
    ensures DecodedAll(Commands(Terminated(fields, "\n"))) == [Received(fields)]
    ensures Partial(Terminated(fields, "\n")) == ""
  {
    var line, s := Terminated(fields, ""), Terminated(fields, "\n");
    TerminatedSplit(fields, "\n");
    DropCrTerminated(fields);
    assert s == line + ['\n'] + "";
    LineEndIs(line, "");
    CommandsFirst(s, |line|);
    assert s[..|line|] == line && s[|line| + 1..] == "";
    TerminatedSplit(Received(fields), [NUL]);
    var last := fields[|fields| - 1];
    assert Clean(last) && forall f :: f in Received(fields) ==> f in fields || f == DropCr(last);
    FieldsOfTerminated(Received(fields));
    assert Commands(s) == [DropCr(line)];
  }

  /** A whole session of requests, however the network cuts it up. */
  lemma {:induction false} SessionRoundTrip(lists: seq<seq<string>>, stream: string)
    requires forall i :: 0 <= i < |lists| ==> lists[i] != [] && forall f :: f in lists[i] ==> Clean(f)
    requires stream == Session(lists)
    ensures |DecodedAll(Commands(stream))| == |lists|
    ensures forall i :: 0 <= i < |lists| ==> DecodedAll(Commands(stream))[i] == Received(lists[i])
    ensures Partial(stream) == ""
  {
    if lists != [] {
      var s, t := Terminated(lists[0], "\n"), Session(lists[1..]);
      RequestRoundTrip(lists[0]);
      SessionRoundTrip(lists[1..], t);
      CommandsAppend(s, t);
      assert "" + t == t;
      DecodedAllAppend(Commands(s), Commands(t));
    }
  }

  function Session(lists: seq<seq<string>>): string
    requires forall i :: 0 <= i < |lists| ==> lists[i] != []
  {
    if lists == [] then "" else Terminated(lists[0], "\n") + Session(lists[1..])
  }
}
