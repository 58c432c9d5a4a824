/** `getopt` in PERMUTE order: the in-place block exchange, and scanning to -1 as a
    stable partition of the argument vector. */
module GetOpt {
  import opened Text

  /** `longWants` is `None` when `longopts` is NULL; otherwise it says of a `--` element
      whether the table gives it a separate argument (`has_arg == 1`, no `=`, found). */
  datatype Grammar = Grammar(optstring: string, longWants: Option<string -> bool>)

  datatype Kind = Unknown | Plain | Optional | Required

  /** One return of `getopt`: `Long(element, next)` for a `--` element and the element
      taken as its argument, if any. */
  datatype Found =
    | Short(c: char, optarg: Option<string>)
    | Invalid(optopt: char)
    | Missing(code: char, optopt: char)
    | Long(element: string, next: Option<string>)

  // ---------------------------------------------------------------- what the arguments mean

  function Index(s: string, c: char): (i: nat)
    ensures i <= |s|
  {
    if s == "" || s[0] == c then 0 else 1 + Index(s[1..], c)
  }

  function KindOf(optstring: string, c: char): Kind {
    var i := Index(optstring, c);
    if i == |optstring| || c == ':' then Unknown
    else if i + 1 < |optstring| && optstring[i + 1] == ':' then
      if i + 2 < |optstring| && optstring[i + 2] == ':' then Optional else Required
    else Plain
  }

  predicate IsNonOption(e: string) {
    e == "" || e[0] != '-' || |e| == 1
  }

  predicate IsLong(g: Grammar, e: string) {
    g.longWants.Some? && |e| > 1 && e[1] == '-'
  }

  /** Whether a run of short options ends in one that must take the next element. */
  predicate ClusterWants(g: Grammar, cluster: string) {
    if cluster == "" then false
    else match KindOf(g.optstring, cluster[0])
      case Unknown => ClusterWants(g, cluster[1..])
      case Plain => ClusterWants(g, cluster[1..])
      case Optional => false
      case Required => |cluster| == 1
  }

  predicate Wants(g: Grammar, e: string) {
    if IsLong(g, e) then g.longWants.value(e) else e != "" && ClusterWants(g, e[1..])
  }

  datatype Split = Split(options: seq<string>, rest: seq<string>)

  /** The reference: options with their arguments (and a `--`) on one side, everything
      else on the other, each in the order given. */
  function Partition(g: Grammar, args: seq<string>): Split
    decreases |args|
  {
    if args == [] then Split([], [])
    else if IsNonOption(args[0]) then
      var p := Partition(g, args[1..]);
      Split(p.options, [args[0]] + p.rest)
    else if args[0] == "--" then Split(["--"], args[1..])
    else if Wants(g, args[0]) && |args| > 1 then
      var p := Partition(g, args[2..]);
      Split(args[..2] + p.options, p.rest)
    else
      var p := Partition(g, args[1..]);
      Split([args[0]] + p.options, p.rest)
  }

  function ClusterFinds(g: Grammar, cluster: string, next: Option<string>): seq<Found> {
    if cluster == "" then []
    else
      var c, text := cluster[0], cluster[1..];
      match KindOf(g.optstring, c)
      case Unknown => [Invalid(c)] + ClusterFinds(g, text, next)
      case Plain => [Short(c, None)] + ClusterFinds(g, text, next)
      case Optional => [Short(c, if text == "" then None else Some(text))]
      case Required =>
        if text != "" then [Short(c, Some(text))]
        else if next.Some? then [Short(c, next)]
        else [Missing(MissingCode(g), c)]
  }

  function MissingCode(g: Grammar): char {
    if g.optstring != "" && g.optstring[0] == ':' then ':' else '?'
  }

  /** The reference: what `getopt` returns for these arguments, in their own order. */
  function Finds(g: Grammar, args: seq<string>): seq<Found>
    decreases |args|
  {
    if args == [] then []
    else if IsNonOption(args[0]) then Finds(g, args[1..])
    else if args[0] == "--" then []
    else
      var next := if |args| > 1 then Some(args[1]) else None;
      var taken := Wants(g, args[0]) && next.Some?;
      var after := Finds(g, if taken then args[2..] else args[1..]);
      if IsLong(g, args[0]) then [Long(args[0], if taken then next else None)] + after
      else ClusterFinds(g, args[0][1..], next) + after
  }

  // ---------------------------------------------------------------- what the reference partition is

  /** Which elements go to the option side. */
  function Sides(g: Grammar, args: seq<string>): seq<bool>
    decreases |args|
  {
    if args == [] then []
    else if IsNonOption(args[0]) then [false] + Sides(g, args[1..])
    else if args[0] == "--" then [true] + seq(|args| - 1, i => false)
    else if Wants(g, args[0]) && |args| > 1 then [true, true] + Sides(g, args[2..])
    else [true] + Sides(g, args[1..])
  }

  /** The elements marked `side`, in order. */
  function Pick(args: seq<string>, sides: seq<bool>, side: bool): seq<string>
    requires |args| == |sides|
  {
    if args == [] then []
    else (if sides[0] == side then [args[0]] else []) + Pick(args[1..], sides[1..], side)
  }

  lemma {:induction false} PickAll(args: seq<string>, sides: seq<bool>, side: bool, b: bool)
    requires |args| == |sides| && forall i :: 0 <= i < |sides| ==> sides[i] == b
    ensures Pick(args, sides, side) == if side == b then args else []
  {
    if args != [] {
      PickAll(args[1..], sides[1..], side, b);
    }
  }

  /** The partition is stable: each side is the marked elements in their own order, and
      every element is on one side. */
  lemma {:induction false} PartitionIsStable(g: Grammar, args: seq<string>)
    ensures |Sides(g, args)| == |args|
    ensures Partition(g, args) ==
            Split(Pick(args, Sides(g, args), true), Pick(args, Sides(g, args), false))
    decreases |args|
  {
    var sides := Sides(g, args);
    if args == [] {
    } else if IsNonOption(args[0]) {
      PartitionIsStable(g, args[1..]);
      assert sides[1..] == Sides(g, args[1..]);
    } else if args[0] == "--" {
      PickAll(args[1..], sides[1..], true, false);
      PickAll(args[1..], sides[1..], false, false);
    } else if Wants(g, args[0]) && |args| > 1 {
      PartitionIsStable(g, args[2..]);
      assert sides[1..][1..] == Sides(g, args[2..]) && args[1..][1..] == args[2..];
      assert args[..2] == [args[0]] + [args[1]];
      Assoc([args[0]], [args[1]], Partition(g, args[2..]).options);
    } else {
      PartitionIsStable(g, args[1..]);
      assert sides[1..] == Sides(g, args[1..]);
    }
  }

  /** The last option still lacks its argument when the vector ends. */
  predicate Dangles(g: Grammar, args: seq<string>)
    decreases |args|
  {
    if args == [] then false
    else if IsNonOption(args[0]) then Dangles(g, args[1..])
    else if args[0] == "--" then false
    else if Wants(g, args[0]) then |args| == 1 || Dangles(g, args[2..])
    else Dangles(g, args[1..])
  }

  lemma PartitionTwo(g: Grammar, two: seq<string>, tail: seq<string>)
    requires |two| == 2 && !IsNonOption(two[0]) && two[0] != "--" && Wants(g, two[0])
    ensures Partition(g, two + tail) == Split(two + Partition(g, tail).options, Partition(g, tail).rest)
    ensures Dangles(g, two + tail) == Dangles(g, tail)
  {
    assert (two + tail)[2..] == tail && (two + tail)[..2] == two;
  }

  lemma PartitionOne(g: Grammar, e: string, tail: seq<string>)
    requires !IsNonOption(e) && e != "--" && (Wants(g, e) ==> tail == [])
    ensures Partition(g, [e] + tail) == Split([e] + Partition(g, tail).options, Partition(g, tail).rest)
    ensures Dangles(g, [e] + tail) == (Wants(g, e) || Dangles(g, tail))
  {
    assert ([e] + tail)[1..] == tail;
  }

  predicate Kept(g: Grammar, options: seq<string>, rest: seq<string>) {
    Partition(g, options + rest) == Split(options, rest)
  }

  lemma KeptTwo(g: Grammar, two: seq<string>, options: seq<string>, rest: seq<string>)
    requires |two| == 2 && !IsNonOption(two[0]) && two[0] != "--" && Wants(g, two[0])
    ensures Kept(g, two + options, rest) <==> Kept(g, options, rest)
  {
    Assoc(two, options, rest);
    PartitionTwo(g, two, options + rest);
    SamePrefix(two, Partition(g, options + rest).options, options);
  }

  lemma KeptOne(g: Grammar, e: string, options: seq<string>, rest: seq<string>)
    requires !IsNonOption(e) && e != "--" && !Wants(g, e)
    ensures Kept(g, [e] + options, rest) <==> Kept(g, options, rest)
  {
    Assoc([e], options, rest);
    PartitionOne(g, e, options + rest);
    SamePrefix([e], Partition(g, options + rest).options, options);
  }

  lemma KeptLast(g: Grammar, e: string, rest: seq<string>)
    requires !IsNonOption(e) && e != "--" && Wants(g, e)
    ensures Kept(g, [e], rest) <==> rest == []
  {
    if rest == [] {
      assert [e] + rest == [e];
      PartitionOne(g, e, []);
    } else {
      var two := [e] + rest[..1];
      assert [e] + rest == two + rest[1..];
      PartitionTwo(g, two, rest[1..]);
      assert |Partition(g, [e] + rest).options| >= 2;
    }
  }

  /** Scanning the permuted vector once more keeps it, unless the last option lacked its
      argument: then it takes the first non-option that the permuting put behind it. */
  lemma {:induction false} ScannedAgain(g: Grammar, args: seq<string>, before: seq<string>)
    requires forall i :: 0 <= i < |before| ==> IsNonOption(before[i])
    ensures var p := Partition(g, args);
            Kept(g, p.options, before + p.rest) <==> !(Dangles(g, args) && before + p.rest != [])
    decreases |args|
  {
    hide Wants, Kept;
    var p := Partition(g, args);
    if args == [] {
      AllNonOptions(g, before);
      assert [] + (before + p.rest) == before == before + p.rest;
      assert Kept(g, p.options, before + p.rest) by {
        KeptNone(g, before);
      }
    } else if IsNonOption(args[0]) {
      ScannedAgain(g, args[1..], before + [args[0]]);
      Assoc(before, [args[0]], Partition(g, args[1..]).rest);
    } else if args[0] == "--" {
      KeptStop(g, before + p.rest);
    } else if Wants(g, args[0]) && |args| > 1 {
      var q := Partition(g, args[2..]);
      ScannedAgain(g, args[2..], before);
      KeptTwo(g, args[..2], q.options, before + q.rest);
    } else if Wants(g, args[0]) {
      var q := Partition(g, args[1..]);
      assert q.options == [] && q.rest == [];
      assert p.options == [args[0]] && before + p.rest == before;
      KeptLast(g, args[0], before);
    } else {
      var q := Partition(g, args[1..]);
      ScannedAgain(g, args[1..], before);
      KeptOne(g, args[0], q.options, before + q.rest);
    }
  }

  lemma KeptNone(g: Grammar, rest: seq<string>)
    requires Partition(g, rest) == Split([], rest)
    ensures Kept(g, [], rest)
  {
    assert [] + rest == rest;
  }

  lemma KeptStop(g: Grammar, rest: seq<string>)
    ensures Kept(g, ["--"], rest)
  {
    assert (["--"] + rest)[1..] == rest;
  }

  lemma SamePrefix(a: seq<string>, x: seq<string>, y: seq<string>)
    ensures a + x == a + y <==> x == y
  {
    assert (a + x)[|a|..] == x && (a + y)[|a|..] == y;
  }

  lemma {:induction false} AllNonOptions(g: Grammar, args: seq<string>)
    requires forall i :: 0 <= i < |args| ==> IsNonOption(args[i])
    ensures Partition(g, args) == Split([], args)
  {
    if args != [] {
      AllNonOptions(g, args[1..]);
    }
  }

  // ---------------------------------------------------------------- the scan's state

  // Options so far are at [1..f) and [l..o), non-options so far at [f..l).

  predicate Bounds(a: seq<string>, f: int, l: int, o: int) {
    1 <= f <= l <= o <= |a|
  }

  /** The split the scan is heading for: what is behind `o` as it lies now, and the
      reference partition of what is ahead. */
  function Whole(g: Grammar, a: seq<string>, f: int, l: int, o: int): Split
    requires Bounds(a, f, l, o)
  {
    var p := Partition(g, a[o..]);
    Split(a[1..f] + a[l..o] + p.options, a[f..l] + p.rest)
  }

  /** The returns still to come; `nextchar` is the unscanned part of element `o`. */
  function Coming(g: Grammar, a: seq<string>, o: int, nextchar: string): seq<Found>
    requires 0 <= o <= |a| && (nextchar != "" ==> o < |a|)
  {
    if nextchar == "" then Finds(g, a[o..])
    else
      var next := if o + 1 < |a| then Some(a[o + 1]) else None;
      var taken := ClusterWants(g, nextchar) && next.Some?;
      ClusterFinds(g, nextchar, next) + Finds(g, if taken then a[o + 2..] else a[o + 1..])
  }

  /** `nextchar` is an unscanned tail of the short options in element `o`. */
  predicate Inside(g: Grammar, a: seq<string>, o: int, nextchar: string)
    requires 0 <= o <= |a|
  {
    nextchar != "" ==>
      o < |a| && !IsNonOption(a[o]) && a[o] != "--" && !IsLong(g, a[o])
      && Wants(g, a[o]) == ClusterWants(g, nextchar)
  }

  /** Swapping the blocks [f..l) and [l..o). */
  function Exchanged(a: seq<string>, f: int, l: int, o: int): (r: seq<string>)
    requires 0 <= f <= l <= o <= |a|
    ensures |r| == |a|
  {
    a[..f] + a[l..o] + a[f..l] + a[o..]
  }

  /** Swapping the blocks [b..m) and [m..t) of `a` is what is left to reach `target`. */
  predicate Heading(a: seq<string>, target: seq<string>, b: int, m: int, t: int) {
    && |a| == |target| && 0 <= b <= m <= t <= |a|
    && (forall k :: 0 <= k < |a| && !(b <= k < t) ==> a[k] == target[k])
    && (forall k :: b <= k < m ==> a[k] == target[k + (t - m)])
    && (forall k :: m <= k < t ==> a[k] == target[k - (m - b)])
  }

  predicate RangesSwapped(a: seq<string>, r: seq<string>, x: int, y: int, len: int) {
    && |r| == |a| && 0 <= len && 0 <= x && x + len <= y && y + len <= |a|
    && (forall k :: x <= k < x + len ==> r[k] == a[k - x + y])
    && (forall k :: y <= k < y + len ==> r[k] == a[k - y + x])
    && (forall k :: 0 <= k < |a| && !(x <= k < x + len) && !(y <= k < y + len) ==> r[k] == a[k])
  }

  lemma ExchangeHeads(a: seq<string>, f: int, l: int, o: int)
    requires 0 <= f <= l <= o <= |a|
    ensures Heading(a, Exchanged(a, f, l, o), f, l, o)
  {
  }

  lemma ShortBottom(a: seq<string>, r: seq<string>, target: seq<string>, b: int, m: int, t: int)
    requires Heading(a, target, b, m, t) && t - m > m - b
    requires RangesSwapped(a, r, b, t - (m - b), m - b)
    ensures Heading(r, target, b, m, t - (m - b))
  {
  }

  lemma ShortTop(a: seq<string>, r: seq<string>, target: seq<string>, b: int, m: int, t: int)
    requires Heading(a, target, b, m, t) && t - m <= m - b
    requires RangesSwapped(a, r, b, m, t - m)
    ensures Heading(r, target, b + (t - m), m, t)
  {
  }

  lemma Arrived(a: seq<string>, target: seq<string>, b: int, m: int, t: int)
    requires Heading(a, target, b, m, t) && (t == m || m == b)
    ensures a == target
  {
  }

  lemma ExchangeKeeps(g: Grammar, a: seq<string>, f: int, l: int, o: int)
    requires Bounds(a, f, l, o)
    ensures Exchanged(a, f, l, o)[0] == a[0] && Exchanged(a, f, l, o)[o..] == a[o..]
    ensures Whole(g, Exchanged(a, f, l, o), f + (o - l), o, o) == Whole(g, a, f, l, o)
  {
    var b := Exchanged(a, f, l, o);
    var m := f + (o - l);
    assert b[o..] == a[o..];
    assert b[1..m] + b[o..o] == a[1..f] + a[l..o];
    assert b[m..o] == a[f..l];
  }

  lemma NonOptionJoins(g: Grammar, a: seq<string>, f: int, o: int)
    requires Bounds(a, f, o, o) && o < |a| && IsNonOption(a[o])
    ensures Whole(g, a, f, o + 1, o + 1) == Whole(g, a, f, o, o)
    ensures Finds(g, a[o + 1..]) == Finds(g, a[o..])
  {
    assert a[o..][1..] == a[o + 1..];
    var p := Partition(g, a[o + 1..]);
    assert a[f..o] + ([a[o]] + p.rest) == a[f..o + 1] + p.rest;
    assert a[o..o] == a[o + 1..o + 1];
  }

  /** With no non-options in between, the boundary may move up to `o`. */
  lemma BoundaryMoves(g: Grammar, a: seq<string>, f: int, o: int)
    requires Bounds(a, f, f, o)
    ensures Whole(g, a, o, o, o) == Whole(g, a, f, f, o)
  {
    assert a[1..o] + a[o..o] == a[1..f] + a[f..o];
    assert a[f..f] == a[o..o];
  }

  lemma OptionJoins(g: Grammar, a: seq<string>, f: int, l: int, o: int, q: int)
    requires Bounds(a, f, l, o) && o < |a| && !IsNonOption(a[o]) && a[o] != "--"
    requires q == if Wants(g, a[o]) && o + 1 < |a| then o + 2 else o + 1
    ensures Whole(g, a, f, l, q) == Whole(g, a, f, l, o)
  {
    var p := Partition(g, a[q..]);
    assert a[o..][q - o..] == a[q..] && a[o..][..q - o] == a[o..q];
    assert a[o..q] == if q == o + 1 then [a[o]] else a[o..][..2];
    assert a[1..f] + a[l..o] + (a[o..q] + p.options) == a[1..f] + a[l..q] + p.options;
  }

  /** One short option: what it returns, and where the scan then stands. */
  lemma ShortFinds(g: Grammar, a: seq<string>, o: int, nextchar: string)
    requires 0 <= o < |a| && nextchar != ""
    ensures var c, text := nextchar[0], nextchar[1..];
            var kind := KindOf(g.optstring, c);
            var q := if ClusterWants(g, nextchar) && o + 1 < |a| then o + 2 else o + 1;
            Coming(g, a, o, nextchar) ==
              if kind.Unknown? then [Invalid(c)] + (if text == "" then Finds(g, a[q..]) else Coming(g, a, o, text))
              else if kind.Plain? then
                [Short(c, None)] + (if text == "" then Finds(g, a[q..]) else Coming(g, a, o, text))
              else ClusterFinds(g, nextchar, if o + 1 < |a| then Some(a[o + 1]) else None) + Finds(g, a[q..])
  {
    var c, text := nextchar[0], nextchar[1..];
    var next := if o + 1 < |a| then Some(a[o + 1]) else None;
    var q := if ClusterWants(g, nextchar) && o + 1 < |a| then o + 2 else o + 1;
    Assoc([Invalid(c)], ClusterFinds(g, text, next), Finds(g, a[q..]));
    Assoc([Short(c, None)], ClusterFinds(g, text, next), Finds(g, a[q..]));
    assert ClusterFinds(g, "", next) + Finds(g, a[q..]) == Finds(g, a[q..]);
  }

  lemma FindsOfElement(g: Grammar, a: seq<string>, o: int)
    requires 0 <= o < |a| && !IsNonOption(a[o]) && a[o] != "--"
    ensures !IsLong(g, a[o]) ==> Finds(g, a[o..]) == Coming(g, a, o, a[o][1..])
    ensures !IsLong(g, a[o]) ==> Inside(g, a, o, a[o][1..])
    ensures IsLong(g, a[o]) ==>
              var taken := Wants(g, a[o]) && o + 1 < |a|;
              Finds(g, a[o..]) == [Long(a[o], if taken then Some(a[o + 1]) else None)]
                                  + Finds(g, if taken then a[o + 2..] else a[o + 1..])
  {
    assert a[o..][1..] == a[o + 1..];
    if o + 1 < |a| {
      assert a[o..][2..] == a[o + 2..];
    }
  }

  /** The options up to `optind` and the rest behind it. */
  predicate Stopped(a: seq<string>, optind: int, split: Split) {
    1 <= optind <= |a| && a[1..optind] == split.options && a[optind..] == split.rest
  }

  lemma DashDashStops(g: Grammar, a: seq<string>, f: int, o: int)
    requires Bounds(a, f, o, o) && o < |a| && a[o] == "--"
    ensures Finds(g, a[o..]) == []
    ensures Stopped(Exchanged(a, f, o, o + 1), f + 1, Whole(g, a, f, o, o))
    ensures Exchanged(a, f, o, o + 1)[0] == a[0]
    ensures f == o ==> Exchanged(a, f, o, o + 1) == a
  {
    assert a[o..][1..] == a[o + 1..];
    var b := Exchanged(a, f, o, o + 1);
    assert b[1..f + 1] == a[1..f] + a[o..o] + ["--"];
    assert b[f + 1..] == a[f..o] + a[o + 1..];
  }

  lemma EndStops(g: Grammar, a: seq<string>, f: int)
    requires Bounds(a, f, |a|, |a|)
    ensures Finds(g, a[|a|..]) == []
    ensures Stopped(a, f, Whole(g, a, f, |a|, |a|))
  {
    assert a[1..f] + a[|a|..] + [] == a[1..f];
    assert a[f..|a|] + [] == a[f..];
  }

  // ---------------------------------------------------------------- the code

  class Scanner {
    const g: Grammar
    const argv: array<string>
    var firstNonopt: int
    var lastNonopt: int
    var optind: int
    var nextchar: string

    ghost predicate Valid()
      reads this, argv
    {
      && Bounds(argv[..], firstNonopt, lastNonopt, optind)
      && Inside(g, argv[..], optind, nextchar)
    }

    ghost function Target(): Split
      requires Valid()
      reads this, argv
    {
      Whole(g, argv[..], firstNonopt, lastNonopt, optind)
    }

    ghost function Rest(): seq<Found>
      requires Valid()
      reads this, argv
    {
      Coming(g, argv[..], optind, nextchar)
    }

    constructor (argv: array<string>, g: Grammar)
      requires argv.Length >= 1
      requires g.optstring == "" || (g.optstring[0] != '-' && g.optstring[0] != '+')
      requires forall i :: 1 <= i < |g.optstring| ==>
                 !(g.optstring[i - 1] == 'W' && g.optstring[i] == ';')
      ensures this.argv == argv && this.g == g && Valid()
      ensures Target() == Partition(g, argv[1..]) && Rest() == Finds(g, argv[1..])
    {
      this.argv := argv;
      this.g := g;
      firstNonopt, lastNonopt, optind := 1, 1, 1;
      nextchar := "";
      new;
      assert argv[..][1..] == argv[1..];
    }

    /** Swaps the adjacent blocks of non-options and of the options after them. */
    method Exchange()
      requires 0 <= firstNonopt <= lastNonopt <= optind <= argv.Length
      modifies this`firstNonopt, this`lastNonopt, argv
      ensures argv[..] == Exchanged(old(argv[..]), old(firstNonopt), old(lastNonopt), optind)
      ensures firstNonopt == old(firstNonopt) + (optind - old(lastNonopt))
      ensures lastNonopt == optind
    {
      hide Exchanged, Heading, RangesSwapped;
      var bottom, middle, top := firstNonopt, lastNonopt, optind;
      ghost var target := Exchanged(argv[..], bottom, middle, top);
      assert Heading(argv[..], target, bottom, middle, top) by {
        ExchangeHeads(argv[..], bottom, middle, top);
      }
      while top > middle && middle > bottom
        invariant 0 <= bottom <= middle <= top <= argv.Length
        invariant Heading(argv[..], target, bottom, middle, top)
        decreases top - bottom
        modifies argv
      {
        ghost var a := argv[..];
        if top - middle > middle - bottom {
          var len := middle - bottom;
          SwapRanges(argv, bottom, top - (middle - bottom), len);
          ShortBottom(a, argv[..], target, bottom, middle, top);
          top := top - len;
        } else {
          var len := top - middle;
          SwapRanges(argv, bottom, middle, len);
          ShortTop(a, argv[..], target, bottom, middle, top);
          bottom := bottom + len;
        }
      }
      Arrived(argv[..], target, bottom, middle, top);
      firstNonopt := firstNonopt + (optind - lastNonopt);
      lastNonopt := optind;
    }

    /** Exchanges what was just processed with the non-options before it, then skips
        further non-options. */
    method Permute()
      requires Valid() && nextchar == ""
      modifies this`firstNonopt, this`lastNonopt, this`optind, argv
      ensures Valid() && lastNonopt == optind
      ensures optind < argv.Length ==> !IsNonOption(argv[optind])
      ensures argv[0] == old(argv[0])
      ensures Target() == old(Target()) && Rest() == old(Rest())
    {
      hide Partition, Finds, Exchanged, Whole;
      if firstNonopt != lastNonopt && lastNonopt != optind {
        ExchangeKeeps(g, argv[..], firstNonopt, lastNonopt, optind);
        Exchange();
      } else if lastNonopt != optind {
        BoundaryMoves(g, argv[..], firstNonopt, optind);
        firstNonopt := optind;
      }
      ghost var a, start := argv[..], optind;
      while optind < argv.Length && IsNonOption(argv[optind])
        invariant 1 <= firstNonopt <= start <= optind <= argv.Length
        invariant Whole(g, a, firstNonopt, optind, optind) == Whole(g, a, firstNonopt, start, start)
        invariant Finds(g, a[optind..]) == Finds(g, a[start..])
        modifies this`optind
      {
        NonOptionJoins(g, a, firstNonopt, optind);
        optind := optind + 1;
      }
      lastNonopt := optind;
      assert argv[..] == a;
    }

    /** Moves to the next option element; `true` when there is none left. */
    method NextElement() returns (finished: bool)
      requires Valid() && nextchar == ""
      modifies this`firstNonopt, this`lastNonopt, this`optind, argv
      ensures argv[0] == old(argv[0])
      ensures !finished ==>
                && Valid() && optind < argv.Length
                && !IsNonOption(argv[optind]) && argv[optind] != "--"
                && Target() == old(Target()) && Rest() == old(Rest())
      ensures finished ==>
                && old(Rest()) == []
                && Stopped(argv[..], optind, old(Target()))
    {
      hide Partition, Finds, Exchanged, Whole;
      Permute();
      ghost var a := argv[..];
      if optind != argv.Length && argv[optind] == "--" {
        DashDashStops(g, a, firstNonopt, optind);
        optind := optind + 1;
        if firstNonopt != lastNonopt && lastNonopt != optind {
          Exchange();
        } else if firstNonopt == lastNonopt {
          firstNonopt := optind;
        }
        lastNonopt := argv.Length;
        optind := argv.Length;
      } else if optind == argv.Length {
        EndStops(g, a, firstNonopt);
      }
      if optind == argv.Length {
        if firstNonopt != lastNonopt {
          optind := firstNonopt;
        }
        return true;
      }
      return false;
    }

    /** One call: an option, or `None` for -1. */
    method GetOpt() returns (found: Option<Found>)
      requires Valid()
      modifies this`firstNonopt, this`lastNonopt, this`optind, this`nextchar, argv
      ensures argv[0] == old(argv[0])
      ensures found.Some? ==>
                && Valid() && Target() == old(Target())
                && old(Rest()) == [found.value] + Rest()
      ensures found.None? ==>
                && old(Rest()) == []
                && Stopped(argv[..], optind, old(Target()))
    {
      if nextchar == "" {
        var finished := NextElement();
        if finished {
          return None;
        }
        FindsOfElement(g, argv[..], optind);
        if IsLong(g, argv[optind]) {
          var long := LongOption();
          return Some(long);
        }
        nextchar := argv[optind][1..];
      }
      var short := ShortOption();
      return Some(short);
    }

    method LongOption() returns (found: Found)
      requires Valid() && nextchar == "" && optind < argv.Length
      requires !IsNonOption(argv[optind]) && argv[optind] != "--" && IsLong(g, argv[optind])
      modifies this`optind
      ensures Valid() && Target() == old(Target())
      ensures old(Rest()) == [found] + Rest()
    {
      FindsOfElement(g, argv[..], optind);
      var element := argv[optind];
      ghost var o := optind;
      optind := optind + 1;
      if g.longWants.value(element) && optind < argv.Length {
        found := Long(element, Some(argv[optind]));
        optind := optind + 1;
      } else {
        found := Long(element, None);
      }
      OptionJoins(g, argv[..], firstNonopt, lastNonopt, o, optind);
    }

    method ShortOption() returns (found: Found)
      requires Valid() && nextchar != ""
      modifies this`optind, this`nextchar
      ensures Valid() && Target() == old(Target())
      ensures old(Rest()) == [found] + Rest()
    {
      hide Finds, Partition, KindOf, Index;
      ghost var a, o := argv[..], optind;
      ShortFinds(g, a, o, nextchar);
      var c := nextchar[0];
      nextchar := nextchar[1..];
      if nextchar == "" {
        optind := optind + 1;
      }
      var kind := KindOf(g.optstring, c);
      match kind {
        case Unknown => found := Invalid(c);
        case Plain => found := Short(c, None);
        case Optional =>
          if nextchar != "" {
            found := Short(c, Some(nextchar));
            optind := optind + 1;
          } else {
            found := Short(c, None);
          }
          nextchar := "";
        case Required =>
          if nextchar != "" {
            found := Short(c, Some(nextchar));
            optind := optind + 1;
          } else if optind == argv.Length {
            found := Missing(MissingCode(g), c);
          } else {
            found := Short(c, Some(argv[optind]));
            optind := optind + 1;
          }
          nextchar := "";
      }
      if nextchar == "" {
        OptionJoins(g, a, firstNonopt, lastNonopt, o, optind);
      }
      assert argv[..] == a;
    }
  }

  lemma Next(finds: seq<Found>, found: seq<Found>, r: Found, rest: seq<Found>)
    requires finds == found + ([r] + rest)
    ensures finds == (found + [r]) + rest && |found| < |finds|
  {
  }

  /** Calling until -1: the vector is stably partitioned with `optind` at the boundary,
      and the permuting never changes which options are returned. */
  method ScanAll(argv: array<string>, g: Grammar) returns (optind: int, found: seq<Found>)
    requires argv.Length >= 1
    requires g.optstring == "" || (g.optstring[0] != '-' && g.optstring[0] != '+')
    requires forall i :: 1 <= i < |g.optstring| ==>
               !(g.optstring[i - 1] == 'W' && g.optstring[i] == ';')
    modifies argv
    ensures var split := Partition(g, old(argv[1..]));
            argv[..] == [old(argv[0])] + split.options + split.rest && optind == 1 + |split.options|
    ensures found == Finds(g, old(argv[1..]))
  {
    hide Finds, Partition, Whole, Coming, Scanner.Valid, Scanner.Target, Scanner.Rest;
    var scanner := new Scanner(argv, g);
    ghost var split := Partition(g, argv[1..]);
    ghost var finds := Finds(g, argv[1..]);
    found := [];
    var next := scanner.GetOpt();
    while next.Some?
      invariant next.Some? ==>
                  && scanner.Valid() && scanner.Target() == split
                  && finds == found + ([next.value] + scanner.Rest())
      invariant next.None? ==> finds == found && Stopped(argv[..], scanner.optind, split)
      invariant argv[0] == old(argv[0])
      decreases |finds| - |found|, next.Some?
    {
      Next(finds, found, next.value, scanner.Rest());
      found := found + [next.value];
      next := scanner.GetOpt();
    }
    optind := scanner.optind;
    assert argv[..] == [argv[0]] + argv[1..optind] + argv[optind..];
  }

  method SwapRanges(a: array<string>, x: int, y: int, len: int)
    requires 0 <= len && 0 <= x && x + len <= y && y + len <= a.Length
    modifies a
    ensures RangesSwapped(old(a[..]), a[..], x, y, len)
  {
    var i := 0;
    while i < len
      invariant 0 <= i <= len
      invariant forall k :: x <= k < x + i ==> a[k] == old(a[k - x + y])
      invariant forall k :: y <= k < y + i ==> a[k] == old(a[k - y + x])
      invariant forall k :: 0 <= k < a.Length && !(x <= k < x + i) && !(y <= k < y + i) ==> a[k] == old(a[k])
    {
      var tem := a[x + i];
      a[x + i] := a[y + i];
      a[y + i] := tem;
      i := i + 1;
    }
  }
}
