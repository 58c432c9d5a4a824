/** What an option string means: it is read back as the list of options it was written for,
    and each kind of option takes the argument it should. */
module OptionStrings {
  import opened Text
  import opened GetOpt

  /** An option character and whether it takes an argument. */
  datatype Opt = Opt(c: char, kind: Kind)

  function Spelled(o: Opt): string {
    match o.kind
    case Required => [o.c, ':']
    case Optional => [o.c, ':', ':']
    case _ => [o.c]
  }

  /** The option string for a list of options; a colon in front asks for ':' as the code of a
      missing argument. */
  function OptString(colon: bool, os: seq<Opt>): string {
    (if colon then ":" else "") + SpelledAll(os)
  }

  function SpelledAll(os: seq<Opt>): string {
    if os == [] then "" else Spelled(os[0]) + SpelledAll(os[1..])
  }

  predicate GoodOptions(os: seq<Opt>) {
    && (forall i :: 0 <= i < |os| ==> os[i].c != ':' && os[i].kind != Unknown)
    && (forall i, j :: 0 <= i < j < |os| ==> os[i].c != os[j].c)
  }

  /** The kind listed for a character. */
  function Listed(os: seq<Opt>, c: char): Kind {
    if os == [] then Unknown else if os[0].c == c then os[0].kind else Listed(os[1..], c)
  }

  lemma {:induction false} ListedIs(os: seq<Opt>, c: char)
    requires GoodOptions(os)
    ensures forall i :: 0 <= i < |os| && os[i].c == c ==> Listed(os, c) == os[i].kind
    ensures (forall i :: 0 <= i < |os| ==> os[i].c != c) ==> Listed(os, c) == Unknown
  {
    if os != [] {
      ListedIs(os[1..], c);
    }
  }

  // ---------------------------------------------------------------- reading the string back

  lemma {:induction false} IndexBehind(pre: string, s: string, c: char)
    requires c !in pre
    ensures Index(pre + s, c) == |pre| + Index(s, c)
  {
    if pre != "" {
      IndexBehind(pre[1..], s, c);
      assert (pre + s)[1..] == pre[1..] + s;
    } else {
      assert pre + s == s;
    }
  }

  lemma KindBehind(pre: string, s: string, c: char)
    requires c !in pre
    ensures KindOf(pre + s, c) == KindOf(s, c)
  {
    IndexBehind(pre, s, c);
  }

  lemma KindFirst(o: Opt, s: string)
    requires o.c != ':' && o.kind != Unknown && (s == "" || s[0] != ':')
    ensures KindOf(Spelled(o) + s, o.c) == o.kind
  {
    assert Index(Spelled(o) + s, o.c) == 0;
  }

  lemma SpelledFirst(os: seq<Opt>)
    requires GoodOptions(os)
    ensures SpelledAll(os) == "" || SpelledAll(os)[0] != ':'
  {
  }

  /** Every character has the kind it is listed with, and all others are unknown. */
  lemma {:induction false} KindsReadBack(colon: bool, os: seq<Opt>, c: char)
    requires GoodOptions(os)
    ensures KindOf(OptString(colon, os), c) == if c == ':' then Unknown else Listed(os, c)
  {
    hide KindOf, SpelledAll;
    if c == ':' {
      ColonUnknown(OptString(colon, os));
    } else {
      if colon {
        KindBehind(":", SpelledAll(os), c);
      } else {
        assert "" + SpelledAll(os) == SpelledAll(os);
      }
      KindsOf(os, c);
    }
  }

  lemma ColonUnknown(s: string)
    ensures KindOf(s, ':') == Unknown
  {
  }

  lemma {:induction false} KindsOf(os: seq<Opt>, c: char)
    requires GoodOptions(os) && c != ':'
    ensures KindOf(SpelledAll(os), c) == Listed(os, c)
  {
    if os != [] {
      hide KindOf, Index;
      SpelledFirst(os[1..]);
      if os[0].c == c {
        KindFirst(os[0], SpelledAll(os[1..]));
      } else {
        KindBehind(Spelled(os[0]), SpelledAll(os[1..]), c);
        KindsOf(os[1..], c);
      }
    }
  }

  // ---------------------------------------------------------------- what each kind takes

  function Element(c: char, text: string): string {
    ['-', c] + text
  }

  /** `getopt` is called with this option string, and `c` is listed with this kind. */
  predicate Called(g: Grammar, colon: bool, os: seq<Opt>, c: char, kind: Kind) {
    GoodOptions(os) && g.optstring == OptString(colon, os) && c != '-' && c != ':' && Listed(os, c) == kind
  }

  lemma CalledKind(g: Grammar, colon: bool, os: seq<Opt>, c: char, kind: Kind, text: string)
    requires Called(g, colon, os, c, kind)
    ensures KindOf(g.optstring, c) == kind
    ensures var e := Element(c, text);
      !IsNonOption(e) && e != "--" && !IsLong(g, e) && e[1..] == [c] + text && e[1..][0] == c && e[1..][1..] == text
  {
    KindsReadBack(colon, os, c);
    var e := Element(c, text);
    assert e[1] == c && "--"[1] == '-';
    assert e[1..] == [c] + text;
  }

  lemma Front(e: string, rest: seq<string>)
    ensures ([e] + rest)[0] == e && ([e] + rest)[1..] == rest
    ensures rest != [] ==> ([e] + rest)[1] == rest[0] && ([e] + rest)[2..] == rest[1..]
    ensures rest != [] ==> ([e] + rest)[..2] == [e, rest[0]]
  {
  }

  /** A required argument is the rest of the element, or the next element if nothing is left
      of it; then that is no non-option, even if it looks like one. */
  lemma RequiredTakes(g: Grammar, colon: bool, os: seq<Opt>, c: char, text: string, rest: seq<string>)
    requires Called(g, colon, os, c, Required)
    ensures var args := [Element(c, text)] + rest;
      && (text != "" ==>
           && Finds(g, args) == [Short(c, Some(text))] + Finds(g, rest)
           && Partition(g, args) == Split([Element(c, text)] + Partition(g, rest).options, Partition(g, rest).rest))
      && (text == "" && rest != [] ==>
           && Finds(g, args) == [Short(c, Some(rest[0]))] + Finds(g, rest[1..])
           && Partition(g, args) ==
                Split([Element(c, text), rest[0]] + Partition(g, rest[1..]).options, Partition(g, rest[1..]).rest))
      && (text == "" && rest == [] ==>
           Finds(g, args) == [Missing(if colon then ':' else '?', c)] && Partition(g, args) == Split(args, []))
  {
    hide KindOf, SpelledAll, IsLong, IsNonOption;
    CalledKind(g, colon, os, c, Required, text);
    Front(Element(c, text), rest);
    if text == "" && rest == [] {
      MissingIs(g, colon, os);
      NothingFound(g);
    }
  }

  lemma NothingFound(g: Grammar)
    ensures Finds(g, []) == [] && Partition(g, []) == Split([], [])
  {
  }

  lemma MissingIs(g: Grammar, colon: bool, os: seq<Opt>)
    requires GoodOptions(os) && g.optstring == OptString(colon, os)
    ensures MissingCode(g) == if colon then ':' else '?'
  {
    SpelledFirst(os);
  }

  /** An optional argument is the rest of the element, and never the next one. */
  lemma OptionalTakes(g: Grammar, colon: bool, os: seq<Opt>, c: char, text: string, rest: seq<string>)
    requires Called(g, colon, os, c, Optional)
    ensures var args := [Element(c, text)] + rest;
      && Finds(g, args) == [Short(c, if text == "" then None else Some(text))] + Finds(g, rest)
      && Partition(g, args) == Split([Element(c, text)] + Partition(g, rest).options, Partition(g, rest).rest)
  {
    hide KindOf, SpelledAll, IsLong, IsNonOption;
    CalledKind(g, colon, os, c, Optional, text);
    Front(Element(c, text), rest);
  }

  lemma ClusterLast(g: Grammar, c: char, kind: Kind, next: Option<string>)
    requires KindOf(g.optstring, c) == kind && (kind == Plain || kind == Unknown)
    ensures ClusterFinds(g, [c], next) == [if kind == Plain then Short(c, None) else Invalid(c)]
    ensures !ClusterWants(g, [c])
  {
    hide KindOf;
    assert [c][1..] == "" && ClusterFinds(g, "", next) == [];
  }

  /** An option without argument, or an unknown one, takes nothing: what is left of the
      element is scanned as if it stood in an element of its own. */
  lemma OthersTakeNothing(g: Grammar, colon: bool, os: seq<Opt>, c: char, kind: Kind, text: string,
                          rest: seq<string>)
    requires Called(g, colon, os, c, kind) && (kind == Plain || kind == Unknown)
    requires text == "" || text[0] != '-'
    ensures var args, found := [Element(c, text)] + rest, if kind == Plain then Short(c, None) else Invalid(c);
      && (text == "" ==>
           && Finds(g, args) == [found] + Finds(g, rest)
           && Partition(g, args) == Split([Element(c, text)] + Partition(g, rest).options, Partition(g, rest).rest))
      && (text != "" ==> Finds(g, args) == [found] + Finds(g, [['-'] + text] + rest))
  {
    hide KindOf, SpelledAll;
    CalledKind(g, colon, os, c, kind, text);
    Front(Element(c, text), rest);
    if text != "" {
      var e := ['-'] + text;
      assert e[1..] == text && e != "--" && !IsNonOption(e) && !IsLong(g, e);
      Front(e, rest);
      assert Wants(g, e) == Wants(g, Element(c, text));
      var next := if rest != [] then Some(rest[0]) else None;
      Assoc([if kind == Plain then Short(c, None) else Invalid(c)], ClusterFinds(g, text, next),
            Finds(g, if Wants(g, e) && rest != [] then rest[1..] else rest));
    } else {
      var next := if rest != [] then Some(rest[0]) else None;
      ClusterLast(g, c, kind, next);
      assert [c] + text == [c];
    }
  }

  // ---------------------------------------------------------------- what is no option

  /** Non-options are the elements that are not a dash and more. */
  lemma NonOptionsAre(e: string)
    ensures IsNonOption(e) <==> !exists c, text :: e == Element(c, text)
  {
    if !IsNonOption(e) {
      assert e == Element(e[1], e[2..]);
    }
  }

  /** Behind two dashes nothing is an option. */
  lemma StopsAtDashes(g: Grammar, rest: seq<string>)
    ensures Finds(g, ["--"] + rest) == [] && Partition(g, ["--"] + rest) == Split(["--"], rest)
  {
    Front("--", rest);
  }
}
