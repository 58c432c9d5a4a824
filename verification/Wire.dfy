/** The rrdcached wire format: the client escapes every field with `buffer_add_string`
    and separates fields by blanks; the daemon unescapes them in place, one at a time,
    with `buffer_get_field`. */
module Wire {
  import opened Text

  /** The daemon's buffers for one command. */
  const CMD_MAX := 4096

  // ---------------------------------------------------------------- escaping

  predicate Special(c: char) {
    c == ' ' || c == '\\'
  }

  function EscapeChar(c: char): string {
    if Special(c) then ['\\', c] else [c]
  }

  function Escape(s: string): string {
    if s == "" then "" else EscapeChar(s[0]) + Escape(s[1..])
  }

  /** No byte that a C string or a request line cannot hold. */
  predicate Clean(s: string) {
    NUL !in s && '\n' !in s
  }

  datatype FieldResult = NoField | Field(text: string, rest: string)

  /** The field at the front of the request bytes `s`, and the bytes after it. A field
      ends at the first unescaped blank or NUL; there is none if the bytes run out. */
  function GetField(s: string): (r: FieldResult)
    ensures r.Field? ==> |r.text| + |r.rest| < |s|
  {
    if s == "" then NoField
    else if s[0] == ' ' || s[0] == NUL then Field("", s[1..])
    else if s[0] == '\\' then
      if |s| == 1 then NoField else Prepend(s[1], GetField(s[2..]))
    else Prepend(s[0], GetField(s[1..]))
  }

  function Prepend(c: char, r: FieldResult): FieldResult {
    match r
    case NoField => NoField
    case Field(text, rest) => Field([c] + text, rest)
  }

  /** All fields of a request, and the bytes left when no further field is found. */
  function Fields(s: string): (seq<string>, string)
    decreases |s|
  {
    match GetField(s)
    case NoField => ([], s)
    case Field(text, rest) => var (more, left) := Fields(rest); ([text] + more, left)
  }

  /** What the client writes for a list of fields. */
  function Encode(fields: seq<string>): string {
    if fields == [] then ""
    else Escape(fields[0]) + " " + Encode(fields[1..])
  }

  lemma {:induction false} EscapeSplit(s: string, n: nat)
    requires n <= |s|
    ensures Escape(s) == Escape(s[..n]) + Escape(s[n..])
  {
    if n > 0 {
      EscapeSplit(s[1..], n - 1);
      assert s[..n][1..] == s[1..][..n - 1] && s[1..][n - 1..] == s[n..];
    } else {
      assert s[..0] == "" && s[0..] == s;
    }
  }

  /** Unescaping undoes escaping, whichever byte ends the field. */
  lemma {:induction false} GetFieldEscape(text: string, end: char, rest: string)
    requires NUL !in text && (end == ' ' || end == NUL)
    ensures GetField(Escape(text) + [end] + rest) == Field(text, rest)
  {
    var s := Escape(text) + [end] + rest;
    if text == "" {
      assert s == [end] + rest && s[1..] == rest;
    } else {
      GetFieldEscape(text[1..], end, rest);
      var tail := Escape(text[1..]) + [end] + rest;
      Assoc(EscapeChar(text[0]), Escape(text[1..]), [end]);
      Assoc(EscapeChar(text[0]), Escape(text[1..]) + [end], rest);
      if Special(text[0]) {
        assert s == ['\\', text[0]] + tail && s[2..] == tail;
      } else {
        assert s == [text[0]] + tail && s[1..] == tail;
      }
      assert [text[0]] + text[1..] == text;
    }
  }

  lemma PlainEscape(s: string)
    ensures Escape(s) == s <==> ' ' !in s && '\\' !in s
  {
    EscapeLength(s);
    if s != "" {
      PlainEscape(s[1..]);
      EscapeLength(s[1..]);
      assert s == [s[0]] + s[1..];
      if Special(s[0]) {
        assert |Escape(s)| > |s|;
      } else {
        assert Escape(s)[1..] == Escape(s[1..]);
        assert Escape(s) == s ==> Escape(s[1..]) == s[1..];
      }
    }
  }

  lemma EscapeLength(s: string)
    ensures |Escape(s)| >= |s|
  {
  }

  /** A raw name survives field decoding exactly when it needs no escaping. */
  lemma {:induction false} RawNameDecodes(name: string)
    requires NUL !in name
    ensures GetField(name + [NUL]) == Field(name, "") <==> ' ' !in name && '\\' !in name
  {
    if ' ' !in name && '\\' !in name {
      PlainEscape(name);
      GetFieldEscape(name, NUL, "");
      assert Escape(name) + [NUL] + "" == name + [NUL];
    } else {
      RawNameShrinks(name);
    }
  }

  lemma {:induction false} RawNameShrinks(name: string)
    requires NUL !in name && (' ' in name || '\\' in name)
    ensures GetField(name + [NUL]).Field? ==> |GetField(name + [NUL]).text| < |name|
  {
    var s := name + [NUL];
    var r := GetField(s);
    if name[0] == '\\' {
      assert |s[2..]| + 2 == |s|;
    } else if name[0] != ' ' {
      RawNameShrinks(name[1..]);
      assert s[1..] == name[1..] + [NUL];
    }
  }

  // ---------------------------------------------------------------- round trip

  /** `Encode` with the last blank replaced by `end`: what reaches the parser. */
  function Terminated(fields: seq<string>, end: string): string
    requires fields != []
  {
    if |fields| == 1 then Escape(fields[0]) + end
    else Escape(fields[0]) + " " + Terminated(fields[1..], end)
  }

  lemma WithoutLast(f: string, t: string)
    requires t != ""
    ensures (f + t)[|f + t| - 1] == t[|t| - 1] && (f + t)[..|f + t| - 1] == f + t[..|t| - 1]
  {
  }

  lemma {:induction false} EncodeTerminated(fields: seq<string>, end: string)
    requires fields != []
    ensures Encode(fields) != "" && Encode(fields)[|Encode(fields)| - 1] == ' '
    ensures Encode(fields)[..|Encode(fields)| - 1] + end == Terminated(fields, end)
  {
    hide Escape;
    var e := Encode(fields);
    if |fields| == 1 {
      assert Encode(fields[1..]) == "";
      assert e == Escape(fields[0]) + " ";
      assert e[..|e| - 1] == Escape(fields[0]);
    } else {
      var t := Encode(fields[1..]);
      EncodeTerminated(fields[1..], end);
      var f := Escape(fields[0]) + " ";
      WithoutLast(f, t);
      Assoc(f, t[..|t| - 1], end);
    }
  }

  /** Decoding a terminated request gives back the list, with no byte left. */
  lemma {:induction false} FieldsOfTerminated(fields: seq<string>)
    requires fields != [] && forall f :: f in fields ==> NUL !in f
    ensures Fields(Terminated(fields, [NUL])) == (fields, "")
  {
    var f, more := fields[0], fields[1..];
    if more == [] {
      GetFieldEscape(f, NUL, "");
      assert Escape(f) + [NUL] + "" == Terminated(fields, [NUL]);
      assert Fields("") == ([], "");
    } else {
      GetFieldEscape(f, ' ', Terminated(more, [NUL]));
      FieldsOfTerminated(more);
      assert Terminated(fields, [NUL]) == Escape(f) + [' '] + Terminated(more, [NUL]);
    }
    assert [f] + more == fields;
  }

  // ---------------------------------------------------------------- the client's writer

  /** `buffer` is `before` with `text` written over it from `pos` on. */
  ghost predicate Overwritten(buffer: array<char>, before: string, pos: nat, text: string)
    reads buffer
  {
    && |before| == buffer.Length && pos + |text| <= buffer.Length
    && (forall k :: 0 <= k < pos ==> buffer[k] == before[k])
    && (forall k :: pos <= k < pos + |text| ==> buffer[k] == text[k - pos])
    && (forall k :: pos + |text| <= k < buffer.Length ==> buffer[k] == before[k])
  }

  lemma EscapeEmpty()
    ensures Escape("") == ""
  {
  }

  lemma EscapeNext(str: string, i: nat, done: string)
    requires i < |str| && Escape(str) == done + Escape(str[i..])
    ensures Escape(str) == (done + EscapeChar(str[i])) + Escape(str[i + 1..])
  {
    assert str[i..][1..] == str[i + 1..];
    Assoc(done, EscapeChar(str[i]), Escape(str[i + 1..]));
  }

  /** `buffer_add_string`: appends one escaped field and its blank at `pos`, or fails
      leaving the cursor where it was. */
  method BufferAddString(str: string, buffer: array<char>, pos: nat, free: nat)
    returns (ok: bool, pos': nat, free': nat)
    requires pos + free <= buffer.Length
    requires NUL !in str
    modifies buffer
    ensures ok <==> |Escape(str)| + 1 <= free
    ensures ok ==> pos' == pos + |Escape(str)| + 1 && pos' + free' == pos + free
    ensures ok ==> Overwritten(buffer, old(buffer[..]), pos, Escape(str) + " ")
    ensures !ok ==> pos' == pos && free' == free
    ensures forall k :: 0 <= k < pos || pos + free <= k < buffer.Length ==> buffer[k] == old(buffer[k])
  {
    hide Escape;
    EscapeEmpty();
    var p, i := pos, 0;
    ok := false;
    ghost var before := buffer[..];
    ghost var done := "";
    while p < pos + free
      invariant i <= |str| && p == pos + |done| <= pos + free
      invariant Escape(str) == done + Escape(str[i..])
      invariant Overwritten(buffer, before, pos, done)
      decreases |str| - i
    {
      if i == |str| {
        assert str[i..] == "" && done + "" == done;
        buffer[p] := ' ';
        p := p + 1;
        ok := true;
        break;
      }
      EscapeNext(str, i, done);
      if str[i] == ' ' || str[i] == '\\' {
        if p + 1 >= pos + free {
          break;
        }
        buffer[p] := '\\';
        p := p + 1;
      }
      buffer[p] := str[i];
      p, done := p + 1, done + EscapeChar(str[i]);
      i := i + 1;
    }
    pos', free' := if ok then p else pos, if ok then pos + free - p else free;
  }

  // ---------------------------------------------------------------- the daemon's reader

  /** `GetField` in the loop's own terms: `text` is what has been unescaped of `s[..p]`. */
  ghost function Scan(s: string, p: nat, text: string): FieldResult
    requires p <= |s|
    decreases |s| - p
  {
    if p == |s| then NoField
    else if s[p] == ' ' || s[p] == NUL then Field(text, s[p + 1..])
    else if s[p] != '\\' then Scan(s, p + 1, text + [s[p]])
    else if p + 1 == |s| then NoField
    else Scan(s, p + 2, text + [s[p + 1]])
  }

  lemma {:induction false} ScanIsGetField(s: string, p: nat, text: string)
    requires p <= |s|
    ensures Scan(s, p, text) == PrependAll(text, GetField(s[p..]))
    decreases |s| - p
  {
    if p < |s| {
      assert s[p..][1..] == s[p + 1..];
      if s[p] == ' ' || s[p] == NUL {
        assert text + "" == text;
      } else if s[p] != '\\' {
        ScanIsGetField(s, p + 1, text + [s[p]]);
        PrependAllOne(text, s[p], GetField(s[p + 1..]));
      } else if p + 1 < |s| {
        assert s[p..][2..] == s[p + 2..];
        ScanIsGetField(s, p + 2, text + [s[p + 1]]);
        PrependAllOne(text, s[p + 1], GetField(s[p + 2..]));
      }
    }
  }

  /** One round of the loop: the field ends, a byte is taken, or an escaped byte is. */
  lemma ScanNext(s: string, p: nat, text: string)
    requires p < |s|
    ensures s[p] == ' ' || s[p] == NUL ==> Scan(s, p, text) == Field(text, s[p + 1..])
    ensures s[p] != ' ' && s[p] != NUL && s[p] != '\\' ==> Scan(s, p, text) == Scan(s, p + 1, text + [s[p]])
    ensures s[p] == '\\' && p + 1 == |s| ==> Scan(s, p, text) == NoField
    ensures s[p] == '\\' && p + 1 < |s| ==> Scan(s, p, text) == Scan(s, p + 2, text + [s[p + 1]])
  {
  }

  lemma ScanEnd(s: string, text: string)
    ensures Scan(s, |s|, text) == NoField
  {
  }

  /** The loop of `buffer_get_field`: `p` bytes are consumed and `n` are left in the
      field's place. */
  method Unescape(buffer: array<char>, pos: nat, size: nat, ghost s: string)
    returns (found: bool, p: nat, n: nat, ghost text: string)
    requires 0 < size && pos + size <= buffer.Length && buffer[pos + size - 1] == NUL
    requires |s| == size && forall k :: 0 <= k < size ==> s[k] == buffer[pos + k]
    modifies buffer
    ensures p <= size && |text| == n && (if found then n < p else n < size)
    ensures Scan(s, 0, "") == if found then Field(text, s[p..]) else NoField
    ensures Overwritten(buffer, old(buffer[..]), pos, if found then text + [NUL] else text)
  {
    hide GetField, Scan;
    ghost var before := buffer[..];
    p, n, text, found := 0, 0, "", false;
    while p < size
      invariant n <= p <= size && n == |text| && (p == size ==> n < size)
      invariant Scan(s, 0, "") == Scan(s, p, text)
      invariant Overwritten(buffer, before, pos, text)
    {
      ScanNext(s, p, text);
      assert buffer[pos + p] == s[p];
      if buffer[pos + p] == ' ' || buffer[pos + p] == NUL {
        buffer[pos + n] := NUL;
        p := p + 1;
        found := true;
        return;
      } else if buffer[pos + p] == '\\' {
        if p >= size - 1 {
          return;
        }
        p := p + 1;
      }
      buffer[pos + n] := buffer[pos + p];
      n, text := n + 1, text + [s[p]];
      p := p + 1;
    }
    ScanEnd(s, text);
  }

  lemma {:induction false} GetFieldRest(s: string)
    ensures var r := GetField(s); r.Field? ==> r.rest == s[|s| - |r.rest|..]
    decreases |s|
  {
    if s != "" && s[0] != ' ' && s[0] != NUL {
      if s[0] != '\\' {
        GetFieldRest(s[1..]);
      } else if |s| > 1 {
        GetFieldRest(s[2..]);
      }
    }
  }

  /** `buffer_get_field`: unescapes the field at `pos` over itself and NUL-terminates
      it. The bytes after the field, and the NUL that ends the request, are kept. */
  method BufferGetField(buffer: array<char>, pos: nat, size: nat)
    returns (ok: bool, field: string, pos': nat, size': nat)
    requires pos + size <= buffer.Length
    requires size > 0 ==> buffer[pos + size - 1] == NUL
    modifies buffer
    ensures var r := GetField(old(buffer[pos..pos + size]));
      if ok then r.Field? && field == r.text && size' == |r.rest| else r.NoField? && size' == size
    ensures pos' + size' == pos + size
    ensures ok ==> pos + |field| < pos' && Overwritten(buffer, old(buffer[..]), pos, field + [NUL])
    ensures size > 0 ==> buffer[pos + size - 1] == NUL
    ensures forall k :: 0 <= k < pos || pos + size <= k < buffer.Length ==> buffer[k] == old(buffer[k])
  {
    if size == 0 {
      return false, "", pos, size;
    }
    hide Scan, GetField;
    ghost var s := buffer[pos..pos + size];
    ScanIsGetField(s, 0, "");
    assert s[0..] == s && PrependAll("", GetField(s)) == GetField(s);
    var p, n;
    ghost var text;
    ok, p, n, text := Unescape(buffer, pos, size, s);
    if !ok {
      return false, "", pos, size;
    }
    field, pos', size' := buffer[pos..pos + n], pos + p, size - p;
    assert field == text;
  }

  ghost function PrependAll(text: string, r: FieldResult): FieldResult {
    match r
    case NoField => NoField
    case Field(more, rest) => Field(text + more, rest)
  }

  lemma PrependAllOne(text: string, c: char, r: FieldResult)
    ensures PrependAll(text, Prepend(c, r)) == PrependAll(text + [c], r)
  {
    if r.Field? {
      assert text + ([c] + r.text) == (text + [c]) + r.text;
    }
  }

  /** The handlers' loop: fields are taken off the request until none is found. */
  method DecodeRequest(buffer: array<char>, pos: nat, size: nat)
    returns (fields: seq<string>, left: nat)
    requires pos + size <= buffer.Length
    requires size > 0 ==> buffer[pos + size - 1] == NUL
    modifies buffer
    ensures fields == Fields(old(buffer[pos..pos + size])).0
    ensures left == |Fields(old(buffer[pos..pos + size])).1|
    ensures size > 0 ==> buffer[pos + size - 1] == NUL
    ensures forall k :: 0 <= k < pos || pos + size <= k < buffer.Length ==> buffer[k] == old(buffer[k])
  {
    hide GetField, Fields;
    var p: nat, n: nat := pos, size;
    fields := [];
    ghost var t := buffer[pos..pos + size];
    ghost var all, last := Fields(t).0, Fields(t).1;
    assert [] + all == all;
    while true
      invariant p + n == pos + size && n == |t|
      invariant size > 0 ==> buffer[pos + size - 1] == NUL
      invariant forall k :: p <= k < p + n ==> buffer[k] == t[k - p]
      invariant fields + Fields(t).0 == all && Fields(t).1 == last
      invariant forall k :: 0 <= k < pos || pos + size <= k < buffer.Length ==> buffer[k] == old(buffer[k])
      decreases n
    {
      assert buffer[p..p + n] == t;
      var ok, field, p', n' := BufferGetField(buffer, p, n);
      if !ok {
        FieldsEnd(t);
        assert fields + [] == fields;
        left := n;
        break;
      }
      FieldsNext(fields, t);
      t, fields := GetField(t).rest, fields + [field];
      p, n := p', n';
    }
  }

  lemma FieldsEnd(s: string)
    requires GetField(s).NoField?
    ensures Fields(s) == ([], s)
  {
  }

  lemma FieldsNext(done: seq<string>, s: string)
    requires GetField(s).Field?
    ensures var r := GetField(s);
      && done + Fields(s).0 == done + [r.text] + Fields(r.rest).0
      && Fields(s).1 == Fields(r.rest).1
      && r.rest == s[|s| - |r.rest|..]
  {
    var r := GetField(s);
    GetFieldRest(s);
    Assoc(done, [r.text], Fields(r.rest).0);
  }

  // ---------------------------------------------------------------- the client's request

  const REQUEST_MAX := 4096

  /** `buffer_add_value`: "N:" stands for the current time; the text is cut to the
      temporary buffer. */
  function ValueText(value: string, now: nat): string {
    var text := if "N:" <= value then Decimal(now) + ":" + value[2..] else value;
    if |text| < REQUEST_MAX then text else text[..REQUEST_MAX - 1]
  }

  function UpdateFields(filename: string, values: seq<string>, now: nat): seq<string> {
    ["update", filename] + seq(|values|, i requires 0 <= i < |values| => ValueText(values[i], now))
  }

  lemma {:induction false} EncodeSnoc(fields: seq<string>, f: string)
    ensures Encode(fields + [f]) == Encode(fields) + (Escape(f) + " ")
  {
    if fields == [] {
      assert [f][1..] == [] && Encode([]) == "";
    } else {
      EncodeSnoc(fields[1..], f);
      assert (fields + [f])[1..] == fields[1..] + [f];
      Assoc(Escape(fields[0]) + " ", Encode(fields[1..]), Escape(f) + " ");
    }
  }

  lemma {:induction false} EncodePrefixFits(fields: seq<string>, n: nat)
    requires n <= |fields|
    ensures |Encode(fields[..n])| <= |Encode(fields)|
  {
    if n < |fields| {
      var k := |fields| - 1;
      EncodePrefixFits(fields[..k], n);
      EncodeSnoc(fields[..k], fields[k]);
      assert fields[..k][..n] == fields[..n] && fields[..k] + [fields[k]] == fields;
    } else {
      assert fields[..n] == fields;
    }
  }

  lemma EncodeNext(fields: seq<string>, i: nat)
    requires i < |fields|
    ensures Encode(fields[..i + 1]) == Encode(fields[..i]) + (Escape(fields[i]) + " ")
    ensures |Encode(fields[..i + 1])| <= |Encode(fields)|
  {
    EncodeSnoc(fields[..i], fields[i]);
    assert fields[..i + 1] == fields[..i] + [fields[i]];
    EncodePrefixFits(fields, i + 1);
  }

  lemma EncodeNone()
    ensures Encode([]) == ""
  {
  }

  /** The requests of the client: one field after the other goes into the buffer, and
      the last blank becomes a newline. */
  method EncodeRequest(fields: seq<string>) returns (ok: bool, request: string)
    requires fields != [] && forall f :: f in fields ==> NUL !in f
    ensures ok <==> |Encode(fields)| <= REQUEST_MAX
    ensures ok ==> request == Terminated(fields, "\n")
  {
    hide Encode, Escape, Terminated;
    EncodeNone();
    var buffer := new char[REQUEST_MAX](_ => NUL);
    var pos: nat, free: nat := 0, REQUEST_MAX;
    var i := 0;
    ghost var text := "";
    assert fields[..0] == [];
    while i < |fields|
      invariant i <= |fields| && pos + free == REQUEST_MAX && pos == |text|
      invariant text == Encode(fields[..i])
      invariant forall k :: 0 <= k < pos ==> buffer[k] == text[k]
    {
      EncodeNext(fields, i);
      ok, pos, free := BufferAddString(fields[i], buffer, pos, free);
      if !ok {
        return false, "";
      }
      i, text := i + 1, text + (Escape(fields[i]) + " ");
    }
    assert fields[..i] == fields;
    EncodeTerminated(fields, "\n");
    buffer[pos - 1] := '\n';
    ok, request := true, buffer[..pos];
    assert request == text[..pos - 1] + "\n";
  }

  /** `get_path`: the daemon at `address` is local or not; a local one gets absolute names,
      as `realpath` resolves them, and a remote one must not. */
  function GetPath(path: string, address: Option<string>, realpath: string -> Option<string>): Option<string> {
    match address
    case None => None
    case Some(sd) =>
      if (sd != "" && sd[0] == '/') || "unix:" <= sd then realpath(path)
      else if path != "" && path[0] == '/' then None
      else Some(path)
  }

  datatype Sending = Sent(request: string) | NoPath | NoBuffer

  /** `rrdc_update`: the request is sent exactly when the daemon may be given the file's
      name and the whole encoding fits. */
  method RrdcUpdate(filename: string, values: seq<string>, now: nat, address: Option<string>,
                    realpath: string -> Option<string>)
    returns (r: Sending)
    requires var path := GetPath(filename, address, realpath);
      path.Some? ==> forall f :: f in UpdateFields(path.value, values, now) ==> NUL !in f
    ensures var path := GetPath(filename, address, realpath);
      r == if path.None? then NoPath
           else if |Encode(UpdateFields(path.value, values, now))| > REQUEST_MAX then NoBuffer
           else Sent(Terminated(UpdateFields(path.value, values, now), "\n"))
  {
    hide Encode, Terminated, UpdateFields;
    var path := GetPath(filename, address, realpath);
    if path.None? {
      return NoPath;
    }
    FieldsToSend(path.value, values, now);
    var ok, request := EncodeRequest(UpdateFields(path.value, values, now));
    r := if ok then Sent(request) else NoBuffer;
  }

  lemma FieldsToSend(filename: string, values: seq<string>, now: nat)
    ensures UpdateFields(filename, values, now) != []
  {
  }

  /** A value sent for the current time carries that time, and other short values are sent
      as they are. */
  lemma NowIsSent(value: string, now: nat)
    ensures |Decimal(now)| + 1 + |value| < REQUEST_MAX ==> ValueText("N:" + value, now) == Decimal(now) + ":" + value
    ensures |value| < REQUEST_MAX && (|value| < 2 || value[0] != 'N' || value[1] != ':') ==>
              ValueText(value, now) == value
  {
    assert ("N:" + value)[2..] == value;
  }

  /** A remote daemon is only given relative names, as they are; a local one what `realpath`
      makes of them. */
  lemma PathGiven(path: string, sd: string, realpath: string -> Option<string>)
    ensures (exists rest :: sd == "/" + rest || sd == "unix:" + rest) ==>
              GetPath(path, Some(sd), realpath) == realpath(path)
    ensures !(exists rest :: sd == "/" + rest || sd == "unix:" + rest) ==>
              GetPath(path, Some(sd), realpath) == if exists rest :: path == "/" + rest then None else Some(path)
    ensures GetPath(path, None, realpath) == None
  {
    if sd != "" && sd[0] == '/' {
      assert sd == "/" + sd[1..];
    } else if "unix:" <= sd {
      assert sd == "unix:" + sd[5..];
    }
    if path != "" && path[0] == '/' {
      assert path == "/" + path[1..];
    }
  }
}
