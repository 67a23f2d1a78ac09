/** The argument scanner of libbench/getopt.c in its default ordering, PERMUTE: argv is permuted
    while it is scanned, so that in the end the options come first.
  */
module Getopt {
  import opened Options
  import opened Strings

  // ----- what a scan of the arguments means -----

  /** `struct option`; flag is the variable, if any, that receives val instead of its being returned. */
  datatype LongOption = LongOption(name: string, hasArg: int, flag: Option<int>, val: int)

  /** The option characters and, for getopt_long, the long options. */
  datatype Grammar = Grammar(optstring: string, longopts: Option<seq<LongOption>>)

  /** What one call returns: an option character ('?' and ':' included) or the value of a long
      option (0 when it has a flag), with optarg. */
  datatype Event =
    | Char(c: char, arg: Option<string>)
    | Value(v: int, arg: Option<string>)

  /** A character of a C string; '\\0' past the end. */
  function CharAt(s: string, i: nat): char { if i < |s| then s[i] else '\0' }

  /** The optstring asks for the default ordering and has no "W;" (libbench/getopt.c:408-417, 805). */
  predicate Plain(g: Grammar) {
    && CharAt(g.optstring, 0) != '-' && CharAt(g.optstring, 0) != '+'
    && match Index(g.optstring, 'W') case None => true case Some(p) => CharAt(g.optstring, p + 1) != ';'
  }

  /** The grammars that the scanner is proved for. */
  type PlainGrammar = g: Grammar | Plain(g) witness Grammar("", None)

  /** NONOPTION_P (libbench/getopt.c:547) */
  predicate NonOption(arg: string) { CharAt(arg, 0) != '-' || |arg| < 2 }

  datatype Match = NotFound | Ambiguous | Found(index: nat)

  predicate SameAction(o: LongOption, p: LongOption) {
    o.hasArg == p.hasArg && o.flag == p.flag && o.val == p.val
  }

  /** A long option is found by its exact name, or by a prefix of it when all the options with
      that prefix do the same. */
  ghost predicate Matches(opts: seq<LongOption>, name: string, r: Match) {
    match r
    case NotFound => forall i :: 0 <= i < |opts| ==> !(name <= opts[i].name)
    case Found(k) =>
      && k < |opts| && name <= opts[k].name
      && (forall i :: 0 <= i < k ==> opts[i].name != name)
      && (opts[k].name == name || (
            && (forall i :: 0 <= i < |opts| ==> opts[i].name != name)
            && (forall i :: 0 <= i < k ==> !(name <= opts[i].name))
            && (forall i :: k < i < |opts| && name <= opts[i].name ==> SameAction(opts[k], opts[i]))))
    case Ambiguous =>
      && (forall i :: 0 <= i < |opts| ==> opts[i].name != name)
      && exists k, i :: 0 <= k < i < |opts| && name <= opts[k].name && name <= opts[i].name
                        && !SameAction(opts[k], opts[i])
  }

  lemma MatchUnique(opts: seq<LongOption>, name: string, r: Match, s: Match)
    requires Matches(opts, name, r) && Matches(opts, name, s)
    ensures r == s
  {
    if r.Found? && s.Found? {
      assert r.index < s.index || s.index < r.index || r == s;
    }
  }

  function FirstExact(opts: seq<LongOption>, name: string): (r: Option<nat>)
    ensures r.Some? ==> r.value < |opts| && opts[r.value].name == name && forall i :: 0 <= i < r.value ==> opts[i].name != name
    ensures r.None? ==> forall i :: 0 <= i < |opts| ==> opts[i].name != name
  {
    if opts == [] then None
    else if opts[0].name == name then Some(0)
    else match FirstExact(opts[1..], name) case None => None case Some(i) => Some(i + 1)
  }

  function FirstPrefix(opts: seq<LongOption>, name: string): (r: Option<nat>)
    ensures r.Some? ==> r.value < |opts| && name <= opts[r.value].name && forall i :: 0 <= i < r.value ==> !(name <= opts[i].name)
    ensures r.None? ==> forall i :: 0 <= i < |opts| ==> !(name <= opts[i].name)
  {
    if opts == [] then None
    else if name <= opts[0].name then Some(0)
    else match FirstPrefix(opts[1..], name) case None => None case Some(i) => Some(i + 1)
  }

  function Lookup(opts: seq<LongOption>, name: string): (r: Match)
    ensures Matches(opts, name, r)
  {
    if FirstExact(opts, name).Some? then Found(FirstExact(opts, name).value)
    else
      match FirstPrefix(opts, name)
      case None => NotFound
      case Some(k) =>
        if exists i :: k < i < |opts| && name <= opts[i].name && !SameAction(opts[k], opts[i]) then Ambiguous
        else Found(k)
  }

  /** libbench/getopt.c:659-683 */
  method FindLong(opts: seq<LongOption>, name: string) returns (r: Match)
    ensures r == Lookup(opts, name)
  {
    r := NotFound;
    var ambig, exact := false, false;
    var i := 0;
    while i < |opts| && !exact
      invariant 0 <= i <= |opts|
      invariant exact ==> Matches(opts, name, r) && r.Found?
      invariant !exact ==> !r.Ambiguous? && forall j :: 0 <= j < i ==> opts[j].name != name
      invariant !exact && r.NotFound? ==> !ambig && forall j :: 0 <= j < i ==> !(name <= opts[j].name)
      invariant !exact && r.Found? ==>
        && r.index < i && name <= opts[r.index].name
        && (forall j :: 0 <= j < r.index ==> !(name <= opts[j].name))
        && (ambig <==> exists j :: r.index < j < i && name <= opts[j].name && !SameAction(opts[r.index], opts[j]))
    {
      if name <= opts[i].name {
        if |name| == |opts[i].name| {
          r, exact := Found(i), true;
        } else if r == NotFound {
          r := Found(i);
        } else if !SameAction(opts[r.index], opts[i]) {
          ambig := true;
        }
      }
      i := i + 1;
    }
    if ambig && !exact {
      r := Ambiguous;
    }
    MatchUnique(opts, name, r, Lookup(opts, name));
  }

  /** The name part of a long option, up to '='. */
  function NameLength(s: string): (n: nat)
    ensures n <= |s|
  {
    if s == [] || s[0] == '=' then 0 else 1 + NameLength(s[1..])
  }

  /** What an option element gives: the events, and whether it takes the next element. */
  datatype Decoded = Decoded(events: seq<Event>, takesNext: bool)

  /** The rest of a cluster of short options, followed by the element next (libbench/getopt.c:781-965). */
  function Cluster(g: Grammar, rest: string, next: Option<string>): Decoded {
    if rest == [] then Decoded([], false)
    else
      var (c, t) := (rest[0], rest[1..]);
      var p := Index(g.optstring, c);
      if p.None? || c == ':' then
        var d := Cluster(g, t, next);
        Decoded([Char('?', None)] + d.events, d.takesNext)
      else if CharAt(g.optstring, p.value + 1) != ':' then
        var d := Cluster(g, t, next);
        Decoded([Char(c, None)] + d.events, d.takesNext)
      else if CharAt(g.optstring, p.value + 2) == ':' then
        Decoded([Char(c, if t != [] then Some(t) else None)], false)
      else if t != [] then Decoded([Char(c, Some(t))], false)
      else if next.None? then Decoded([Char(Missing(g), None)], false)
      else Decoded([Char(c, next)], true)
  }

  /** What is returned for a missing argument. */
  function Missing(g: Grammar): char { if CharAt(g.optstring, 0) == ':' then ':' else '?' }

  /** A long option (libbench/getopt.c:645-776). */
  function Long(g: Grammar, opts: seq<LongOption>, s: string, next: Option<string>): Decoded {
    var k := NameLength(s);
    match Lookup(opts, s[..k])
    case NotFound => Decoded([Char('?', None)], false)
    case Ambiguous => Decoded([Char('?', None)], false)
    case Found(i) =>
      var o := opts[i];
      var v := if o.flag.Some? then 0 else o.val;
      if k < |s| then Decoded([if o.hasArg != 0 then Value(v, Some(s[k + 1..])) else Char('?', None)], false)
      else if o.hasArg != 1 then Decoded([Value(v, None)], false)
      else if next.None? then Decoded([Char(Missing(g), None)], false)
      else Decoded([Value(v, next)], true)
  }

  predicate IsLong(g: Grammar, arg: string) { g.longopts.Some? && CharAt(arg, 1) == '-' }

  function DecodeElement(g: Grammar, arg: string, next: Option<string>): Decoded
    requires !NonOption(arg)
  {
    if IsLong(g, arg) then Long(g, g.longopts.value, arg[2..], next) else Cluster(g, arg[1..], next)
  }

  /** The arguments sorted: options with their arguments, the others, and the events. */
  datatype Parsed = Parsed(options: seq<string>, others: seq<string>, events: seq<Event>)

  /** The meaning of a whole list of arguments. */
  function Parse(g: Grammar, args: seq<string>): (r: Parsed)
    ensures multiset(r.options) + multiset(r.others) == multiset(args)
    decreases |args|
  {
    if args == [] then Parsed([], [], [])
    else
      var (a, t) := (args[0], args[1..]);
      assert args == [a] + t;
      if NonOption(a) then
        var r := Parse(g, t);
        Parsed(r.options, [a] + r.others, r.events)
      else if a == "--" then Parsed([a], t, [])
      else
        var d := DecodeElement(g, a, NextOf(t));
        if d.takesNext && t != [] then
          assert args == [a, t[0]] + t[1..];
          var r := Parse(g, t[1..]);
          Parsed([a, t[0]] + r.options, r.others, d.events + r.events)
        else
          var r := Parse(g, t);
          Parsed([a] + r.options, r.others, d.events + r.events)
  }

  function NextOf(t: seq<string>): Option<string> { if t == [] then None else Some(t[0]) }

  /** s is made of a and b, each in its own order. */
  ghost predicate Interleaved(a: seq<string>, b: seq<string>, s: seq<string>) {
    if s == [] then a == [] && b == []
    else (a != [] && a[0] == s[0] && Interleaved(a[1..], b, s[1..])) || (b != [] && b[0] == s[0] && Interleaved(a, b[1..], s[1..]))
  }

  lemma {:induction false} AllRight(s: seq<string>)
    ensures Interleaved([], s, s)
  {
    if s != [] { AllRight(s[1..]); }
  }

  lemma InterleavedLeft(x: string, a: seq<string>, b: seq<string>, s: seq<string>)
    requires Interleaved(a, b, s)
    ensures Interleaved([x] + a, b, [x] + s)
  {
    assert ([x] + a)[1..] == a && ([x] + s)[1..] == s;
  }

  lemma InterleavedRight(x: string, a: seq<string>, b: seq<string>, s: seq<string>)
    requires Interleaved(a, b, s)
    ensures Interleaved(a, [x] + b, [x] + s)
  {
    assert ([x] + b)[1..] == b && ([x] + s)[1..] == s;
  }

  lemma InterleavedTwo(x: string, y: string, a: seq<string>, b: seq<string>, s: seq<string>)
    requires s != [] && s[0] == y && Interleaved(a, b, s[1..])
    ensures Interleaved([x, y] + a, b, [x] + s)
  {
    hide Interleaved;
    InterleavedLeft(y, a, b, s[1..]);
    assert s == [y] + s[1..];
    InterleavedLeft(x, [y] + a, b, s);
    assert [x] + ([y] + a) == [x, y] + a;
  }

  /** Sorting the arguments is stable: options and the others keep their own orders. */
  lemma {:induction false} ParseStable(g: Grammar, args: seq<string>)
    ensures Interleaved(Parse(g, args).options, Parse(g, args).others, args)
    decreases |args|
  {
    hide Interleaved, DecodeElement, NonOption;
    if args == [] {
      AllRight([]);
    } else {
      var (a, t) := (args[0], args[1..]);
      assert args == [a] + t;
      if NonOption(a) {
        ParseStable(g, t);
        InterleavedRight(a, Parse(g, t).options, Parse(g, t).others, t);
      } else if a == "--" {
        AllRight(t);
        InterleavedLeft(a, [], t, t);
        assert [a] + [] == [a];
      } else {
        ParseOption(g, args);
        hide Parse;
        if DecodeElement(g, a, NextOf(t)).takesNext && t != [] {
          var r := Parse(g, t[1..]);
          assert t[1..] == args[2..];
          ParseStable(g, t[1..]);
          InterleavedTwo(a, t[0], r.options, r.others, t);
        } else {
          ParseStable(g, t);
          InterleavedLeft(a, Parse(g, t).options, Parse(g, t).others, t);
        }
      }
    }
  }

  /** A non-option that was sorted as one stands before the first "--"; if there is none, all of
      them look like non-options. */
  lemma {:induction false} OthersAreNonOptions(g: Grammar, args: seq<string>)
    requires "--" !in args
    ensures forall x :: x in Parse(g, args).others ==> NonOption(x)
    decreases |args|
  {
    hide DecodeElement, NonOption;
    if args != [] {
      var (a, t) := (args[0], args[1..]);
      OthersAreNonOptions(g, t);
      if t != [] { OthersAreNonOptions(g, t[1..]); }
    }
  }

  // ----- exchange -----

  /** Cells p.. and q.. of length len change places. */
  method SwapBlocks(argv: array<string>, p: nat, q: nat, len: nat)
    requires p + len <= q && q + len <= argv.Length
    modifies argv
    ensures BlocksSwapped(old(argv[..]), argv[..], p, q, len)
  {
    for i := 0 to len
      invariant forall k :: 0 <= k < argv.Length ==>
        argv[k] == (
          if p <= k < p + i then old(argv[k + (q - p)])
          else if q <= k < q + i then old(argv[k - (q - p)])
          else old(argv[k]))
    {
      argv[p + i], argv[q + i] := argv[q + i], argv[p + i];
    }
  }

  /** What the array will be when the blocks of [bottom, top) have changed places. */
  ghost function Rotated(s: seq<string>, bottom: nat, middle: nat, top: nat): seq<string>
    requires bottom <= middle <= top <= |s|
  {
    s[..bottom] + (s[middle..top] + s[bottom..middle]) + s[top..]
  }

  ghost predicate BlocksSwapped(s: seq<string>, t: seq<string>, p: nat, q: nat, len: nat) {
    && p + len <= q && q + len <= |s| == |t|
    && t[p..p + len] == s[q..q + len] && t[q..q + len] == s[p..p + len]
    && t[..p] == s[..p] && t[p + len..q] == s[p + len..q] && t[q + len..] == s[q + len..]
  }

  /** The shorter bottom block goes to its place at the top. */
  lemma BottomPlaced(s: seq<string>, t: seq<string>, bottom: nat, middle: nat, top: nat)
    requires bottom <= middle <= top <= |s| && top - middle > middle - bottom
    requires BlocksSwapped(s, t, bottom, top - (middle - bottom), middle - bottom)
    ensures Rotated(t, bottom, middle, top - (middle - bottom)) == Rotated(s, bottom, middle, top)
  {
    var q := top - (middle - bottom);
    assert s[middle..top] == s[middle..q] + s[q..top];
    assert t[q..] == t[q..top] + t[top..];
  }

  /** The shorter top block goes to its place at the bottom. */
  lemma TopPlaced(s: seq<string>, t: seq<string>, bottom: nat, middle: nat, top: nat)
    requires bottom <= middle <= top <= |s| && top - middle <= middle - bottom
    requires BlocksSwapped(s, t, bottom, middle, top - middle)
    ensures Rotated(t, bottom + (top - middle), middle, top) == Rotated(s, bottom, middle, top)
  {
    var p := bottom + (top - middle);
    assert s[bottom..middle] == s[bottom..p] + s[p..middle];
    assert t[..p] == t[..bottom] + t[bottom..p];
  }

  /** libbench/getopt.c:341-377: the adjacent blocks [bottom, middle) and [middle, top) change places. */
  method Exchange(argv: array<string>, bottom0: nat, middle: nat, top0: nat)
    requires bottom0 <= middle <= top0 <= argv.Length
    modifies argv
    ensures argv[..] == old(Rotated(argv[..], bottom0, middle, top0))
  {
    hide Rotated;
    var bottom, top := bottom0, top0;
    while top > middle && middle > bottom
      invariant bottom0 <= bottom <= middle <= top <= top0
      invariant Rotated(argv[..], bottom, middle, top) == old(Rotated(argv[..], bottom0, middle, top0))
      decreases top - bottom
    {
      ghost var s := argv[..];
      if top - middle > middle - bottom {
        var len := middle - bottom;
        SwapBlocks(argv, bottom, top - len, len);
        BottomPlaced(s, argv[..], bottom, middle, top);
        top := top - len;
      } else {
        var len := top - middle;
        SwapBlocks(argv, bottom, middle, len);
        TopPlaced(s, argv[..], bottom, middle, top);
        bottom := bottom + len;
      }
    }
    RotatedDone(argv[..], bottom, middle, top);
  }

  lemma RotatedDone(s: seq<string>, bottom: nat, middle: nat, top: nat)
    requires bottom <= middle <= top <= |s| && (top == middle || middle == bottom)
    ensures Rotated(s, bottom, middle, top) == s
  {}

  // ----- the scan -----

  function Concat(options: seq<string>, others: seq<string>, events: seq<Event>, r: Parsed): Parsed {
    Parsed(options + r.options, others + r.others, events + r.events)
  }

  /** What remains when the cluster args[0] has been scanned up to rest. */
  function ParseFrom(g: Grammar, rest: string, args: seq<string>): Parsed {
    if rest == [] || args == [] then Parse(g, args)
    else
      var (a, t) := (args[0], args[1..]);
      var d := Cluster(g, rest, NextOf(t));
      if d.takesNext && t != [] then Concat([a, t[0]], [], d.events, Parse(g, t[1..]))
      else Concat([a], [], d.events, Parse(g, t))
  }

  lemma ParseCluster(g: Grammar, args: seq<string>)
    requires args != [] && !NonOption(args[0]) && args[0] != "--" && !IsLong(g, args[0])
    ensures ParseFrom(g, args[0][1..], args) == Parse(g, args)
  {}

  lemma ConcatEmpty(r: Parsed)
    ensures Concat([], [], [], r) == r
  {}

  lemma ConcatConcat(o1: seq<string>, n1: seq<string>, e1: seq<Event>, o2: seq<string>, n2: seq<string>, e2: seq<Event>, r: Parsed)
    ensures Concat(o1, n1, e1, Concat(o2, n2, e2, r)) == Concat(o1 + o2, n1 + n2, e1 + e2, r)
  {}

  /** One option character that takes no argument. */
  lemma ClusterPlain(g: Grammar, rest: string, args: seq<string>, event: Event)
    requires rest != [] && args != []
    requires var p := Index(g.optstring, rest[0]);
             if p.None? || rest[0] == ':' then event == Char('?', None)
             else event == Char(rest[0], None) && CharAt(g.optstring, p.value + 1) != ':'
    ensures ParseFrom(g, rest, args)
         == if rest[1..] == [] then Concat(args[..1], [], [event], Parse(g, args[1..]))
            else Concat([], [], [event], ParseFrom(g, rest[1..], args))
  {
    hide Parse;
    assert args[..1] == [args[0]];
    var d := Cluster(g, rest[1..], NextOf(args[1..]));
    assert Cluster(g, rest, NextOf(args[1..])) == Decoded([event] + d.events, d.takesNext);
    if rest[1..] == [] {
      assert d == Decoded([], false);
    }
  }

  /** One option character that ends the cluster. */
  lemma ClusterLast(g: Grammar, rest: string, args: seq<string>)
    requires rest != [] && args != []
    requires var p := Index(g.optstring, rest[0]);
             p.Some? && rest[0] != ':' && CharAt(g.optstring, p.value + 1) == ':'
    ensures var d := Cluster(g, rest, NextOf(args[1..]));
            var k := if d.takesNext then 2 else 1;
            |d.events| == 1 && k <= |args| && ParseFrom(g, rest, args) == Concat(args[..k], [], d.events, Parse(g, args[k..]))
  {
    hide Parse;
    assert args[..1] == [args[0]];
    if |args| > 1 { assert args[1..][1..] == args[2..] && args[..2] == [args[0], args[1..][0]]; }
  }

  /** An element that is an option. */
  lemma ParseOption(g: Grammar, args: seq<string>)
    requires args != [] && !NonOption(args[0]) && args[0] != "--"
    ensures var d := DecodeElement(g, args[0], NextOf(args[1..]));
            Parse(g, args) == if d.takesNext && |args| > 1
                              then Concat([args[0], args[1]], [], d.events, Parse(g, args[2..]))
                              else Concat([args[0]], [], d.events, Parse(g, args[1..]))
  {
    hide NonOption, DecodeElement;
    var (a, t) := (args[0], args[1..]);
    assert |args| > 1 ==> t[1..] == args[2..] && t[0] == args[1];
  }

  lemma ParseLong(g: Grammar, args: seq<string>)
    requires args != [] && !NonOption(args[0]) && args[0] != "--" && IsLong(g, args[0])
    ensures var d := Long(g, g.longopts.value, args[0][2..], NextOf(args[1..]));
            var k := if d.takesNext then 2 else 1;
            |d.events| == 1 && k <= |args| && Parse(g, args) == Concat(args[..k], [], d.events, Parse(g, args[k..]))
  {
    LongShape(g, g.longopts.value, args[0][2..], NextOf(args[1..]));
    hide Long, Lookup, Cluster, NonOption, Parse, Concat, CharAt;
    ParseOption(g, args);
    FirstElements(args);
  }

  lemma FirstElements(args: seq<string>)
    requires args != []
    ensures args[..1] == [args[0]] && (|args| > 1 ==> args[..2] == [args[0], args[1]])
    ensures NextOf(args[1..]).Some? ==> |args| > 1
  {}

  lemma LongShape(g: Grammar, opts: seq<LongOption>, s: string, next: Option<string>)
    ensures var d := Long(g, opts, s, next); |d.events| == 1 && (d.takesNext ==> next.Some?)
  {
    hide Lookup, NameLength;
  }

  lemma LongerThanOne(arg: string)
    requires !NonOption(arg)
    ensures arg[1..] != []
  {}

  lemma NextOfFirst(t: seq<string>)
    ensures NextOf(t) == if t == [] then None else Some(t[0])
  {}

  /** What a long option returns, and how many elements it takes (libbench/getopt.c:684-776). */
  method LongEvent(g: Grammar, opts: seq<LongOption>, s: string, next: Option<string>) returns (event: Event, k: nat)
    ensures k == 1 || k == 2
    ensures Long(g, opts, s, next) == Decoded([event], k == 2)
  {
    hide Lookup, NameLength;
    k := 1;
    var nameEnd := NameLength(s);
    var m := FindLong(opts, s[..nameEnd]);
    if m == Ambiguous || m == NotFound {
      event := Char('?', None);
    } else {
      var p := opts[m.index];
      var v := if p.flag.Some? then 0 else p.val;
      if nameEnd < |s| {
        event := if p.hasArg != 0 then Value(v, Some(s[nameEnd + 1..])) else Char('?', None);
      } else if p.hasArg == 1 {
        if next.Some? {
          event, k := Value(v, next), 2;
        } else {
          event := Char(Missing(g), None);
        }
      } else {
        event := Value(v, None);
      }
    }
  }

  /** What an option character with an argument returns, and how many elements are done with
      (libbench/getopt.c:928-964). */
  method ArgumentEvent(g: Grammar, rest: string, temp: nat, next: Option<string>) returns (event: Event, k: nat)
    requires rest != [] && rest[0] != ':'
    requires Index(g.optstring, rest[0]) == Some(temp) && CharAt(g.optstring, temp + 1) == ':'
    ensures k == 1 || k == 2
    ensures Cluster(g, rest, next) == Decoded([event], k == 2)
  {
    hide Index, CharAt;
    k := 1;
    var (c, text) := (rest[0], rest[1..]);
    if CharAt(g.optstring, temp + 2) == ':' {
      event := Char(c, if text != [] then Some(text) else None);
    } else if text != [] {
      event := Char(c, Some(text));
    } else if next.None? {
      event := Char(Missing(g), None);
    } else {
      event, k := Char(c, next), 2;
    }
  }

  /** The scanner's variables; the empty string stands for a nextchar that is NULL or at the end. */
  class Scanner {
    const g: PlainGrammar
    const argv: array<string>
    var optind: int
    var firstNonopt: int
    var lastNonopt: int
    var nextchar: string
    ghost const orig: seq<string>
    ghost var emitted: seq<Event>

    constructor (g: PlainGrammar, argv: array<string>)
      requires argv.Length >= 1
      ensures Valid() && this.g == g && this.argv == argv && orig == argv[..] && emitted == []
    {
      hide Parse, Concat, ParseFrom, IsLong, Plain;
      this.g, this.argv, this.orig := g, argv, argv[..];
      optind, firstNonopt, lastNonopt, nextchar, emitted := 1, 1, 1, "", [];
      new;
      ConcatEmpty(Parse(g, orig[1..]));
      ParseFromNothing(g, orig[1..]);
      assert argv[1..1] == [] && argv[1..1] + argv[1..1] == [];
    }

    /** The options among what has been scanned, wherever they stand at the moment. */
    ghost function OptionsSoFar(): seq<string>
      requires 1 <= firstNonopt <= lastNonopt <= optind <= argv.Length
      reads this, argv
    {
      argv[1..firstNonopt] + argv[lastNonopt..optind]
    }

    /** The meaning of all the arguments is what has been sorted and returned so far, and then the
        meaning of what remains. */
    ghost predicate Valid()
      reads this, argv
    {
      && 1 <= firstNonopt <= lastNonopt <= optind <= argv.Length == |orig|
      && argv[0] == orig[0] && argv[optind..] == orig[optind..]
      && (nextchar != [] ==> optind < argv.Length && !IsLong(g, argv[optind]))
      && Parse(g, orig[1..])
         == Concat(OptionsSoFar(), argv[firstNonopt..lastNonopt], emitted, ParseFrom(g, nextchar, orig[optind..]))
    }

    /** The end of the scan: argv is sorted and optind is at the first non-option. */
    ghost predicate Ended()
      reads this, argv
    {
      && argv.Length == |orig| >= 1 && argv[0] == orig[0]
      && var r := Parse(g, orig[1..]);
      && argv[1..] == r.options + r.others
      && optind == 1 + |r.options|
      && emitted == r.events
    }

    /** libbench/getopt.c:305-383: the options scanned since the last exchange move before the
        non-options. */
    method ExchangeArgs()
      requires 1 <= firstNonopt <= lastNonopt <= optind <= argv.Length
      modifies this`firstNonopt, this`lastNonopt, argv
      ensures 1 <= firstNonopt <= lastNonopt == optind
      ensures argv[0] == old(argv[0]) && argv[optind..] == old(argv[optind..])
      ensures argv[1..firstNonopt] == old(argv[1..firstNonopt] + argv[lastNonopt..optind])
      ensures argv[firstNonopt..optind] == old(argv[firstNonopt..lastNonopt])
    {
      Exchange(argv, firstNonopt, lastNonopt, optind);
      RotatedParts(old(argv[..]), firstNonopt, lastNonopt, optind);
      firstNonopt := firstNonopt + (optind - lastNonopt);
      lastNonopt := optind;
      assert argv[..][1..firstNonopt] == argv[1..firstNonopt] && argv[..][firstNonopt..optind] == argv[firstNonopt..optind];
      assert argv[..][optind..] == argv[optind..] && argv[..][0] == argv[0];
      assert old(argv[..])[optind..] == old(argv[optind..]);
      assert old(argv[..][firstNonopt..lastNonopt]) == old(argv[firstNonopt..lastNonopt]);
      assert old(argv[..][1..firstNonopt] + argv[..][lastNonopt..optind]) == old(OptionsSoFar());
    }

    /** What has been sorted and returned, when nothing is scanned after the non-options. */
    ghost predicate Sorted()
      reads this, argv
    {
      && 1 <= firstNonopt <= optind <= argv.Length == |orig|
      && argv[0] == orig[0] && argv[optind..] == orig[optind..]
      && Parse(g, orig[1..])
         == Concat(argv[1..firstNonopt], argv[firstNonopt..optind], emitted, Parse(g, orig[optind..]))
    }

    /** libbench/getopt.c:554-569 */
    method Settle()
      requires Valid() && nextchar == []
      modifies this`firstNonopt, this`lastNonopt, argv
      ensures Sorted()
    {
      hide Parse, NonOption, IsLong, ParseFrom, Concat;
      ParseFromNothing(g, orig[optind..]);
      // the tests for an optind that the caller moved back
      lastNonopt := if lastNonopt > optind then optind else lastNonopt;
      firstNonopt := if firstNonopt > optind then optind else firstNonopt;
      if firstNonopt != lastNonopt && lastNonopt != optind {
        ExchangeArgs();
      } else if lastNonopt != optind {
        assert OptionsSoFar() == argv[1..optind] && argv[firstNonopt..lastNonopt] == argv[optind..optind];
        firstNonopt := optind;
      } else {
        assert OptionsSoFar() == argv[1..firstNonopt];
      }
    }

    /** The element at optind is one more non-option. */
    lemma OneMoreNonOption()
      requires Sorted() && optind < argv.Length && NonOption(argv[optind])
      ensures orig[optind] == argv[optind] && argv[optind + 1..] == orig[optind + 1..]
      ensures Parse(g, orig[1..])
           == Concat(argv[1..firstNonopt], argv[firstNonopt..optind + 1], emitted, Parse(g, orig[optind + 1..]))
    {
      hide Parse, NonOption, Concat;
      assert argv[optind] == argv[optind..][0] == orig[optind] && argv[optind + 1..] == argv[optind..][1..];
      SkipNonOption(g, orig, optind);
      ConcatConcat(argv[1..firstNonopt], argv[firstNonopt..optind], emitted, [], [argv[optind]], [], Parse(g, orig[optind + 1..]));
      assert argv[firstNonopt..optind + 1] == argv[firstNonopt..optind] + [argv[optind]];
      AppendNothing(argv[1..firstNonopt], emitted);
    }

    /** libbench/getopt.c:574-576 */
    method SkipNonOptions()
      requires Sorted()
      modifies this`optind, this`lastNonopt
      ensures Sorted() && lastNonopt == optind
      ensures optind < argv.Length ==> !NonOption(argv[optind])
    {
      hide Parse, NonOption, Concat;
      while optind < argv.Length && NonOption(argv[optind])
        invariant Sorted()
      {
        OneMoreNonOption();
        optind := optind + 1;
      }
      lastNonopt := optind;
    }

    /** libbench/getopt.c:550-607: on to the next element, or to the end. */
    method Advance() returns (end: bool)
      requires Valid() && nextchar == []
      modifies this`optind, this`firstNonopt, this`lastNonopt, argv
      ensures end ==> Ended()
      ensures !end ==> Valid() && optind < argv.Length && !NonOption(argv[optind]) && argv[optind] != "--"
      ensures !end ==> lastNonopt == optind
    {
      hide Parse, NonOption, IsLong, Ended, Concat;
      Settle();
      SkipNonOptions();
      end := optind == argv.Length;
      if optind != argv.Length && argv[optind] == "--" {
        AtTerminator();
        EndOfOptions(Parse(g, orig[1..]));
        end := true;
      } else if end {
        NothingRemains();
      } else {
        assert OptionsSoFar() == argv[1..firstNonopt];
        ParseFromNothing(g, orig[optind..]);
      }
      if end {
        BackUp();
      }
    }

    /** The argument vector is sorted at firstNonopt, and nothing remains. */
    ghost predicate SortedToTheEnd()
      reads this, argv
    {
      && 1 <= firstNonopt <= lastNonopt == optind == argv.Length == |orig| && argv[0] == orig[0]
      && Parse(g, orig[1..]) == Parsed(argv[1..firstNonopt], argv[firstNonopt..], emitted)
    }

    lemma NothingRemains()
      requires Sorted() && lastNonopt == optind == argv.Length
      ensures SortedToTheEnd()
    {
      hide Parse;
      ParseNothing(g);
      assert orig[optind..] == [] && argv[firstNonopt..optind] == argv[firstNonopt..];
      AppendNothing(argv[1..firstNonopt], emitted);
      AppendNothing(argv[firstNonopt..], emitted);
    }

    /** libbench/getopt.c:600-607 */
    method BackUp()
      requires SortedToTheEnd()
      modifies this`optind
      ensures Ended()
    {
      hide Parse;
      SplitAt(argv[..], 1, firstNonopt);
      assert argv[..][1..] == argv[1..] && argv[..][firstNonopt..] == argv[firstNonopt..];
      assert argv[..][1..firstNonopt] == argv[1..firstNonopt];
      if firstNonopt != lastNonopt {
        optind := firstNonopt;
      }
    }

    /** libbench/getopt.c:588-591 */
    method ExchangeOrReset()
      requires 1 <= firstNonopt <= lastNonopt < optind <= argv.Length
      modifies this`firstNonopt, this`lastNonopt, argv
      ensures 1 <= firstNonopt <= optind
      ensures argv[0] == old(argv[0]) && argv[optind..] == old(argv[optind..])
      ensures argv[1..firstNonopt] == old(argv[1..firstNonopt] + argv[lastNonopt..optind])
      ensures argv[firstNonopt..optind] == old(argv[firstNonopt..lastNonopt])
    {
      if firstNonopt != lastNonopt && lastNonopt != optind {
        ExchangeArgs();
      } else if firstNonopt == lastNonopt {
        assert OptionsSoFar() == argv[1..optind];
        firstNonopt := optind;
      }
    }

    lemma AtTerminator()
      requires Sorted() && lastNonopt == optind < argv.Length && argv[optind] == "--"
      ensures Parse(g, orig[1..]) == Parsed(argv[1..firstNonopt] + argv[lastNonopt..optind + 1],
                                            argv[firstNonopt..lastNonopt] + argv[optind + 1..], emitted)
    {
      hide Parse, Concat;
      assert argv[lastNonopt..optind + 1] == ["--"];
      ParseAtEnd(g, orig, argv[..], optind, argv[1..firstNonopt], argv[firstNonopt..optind], emitted);
    }

    /** libbench/getopt.c:584-595: "--" is sorted like an option, and everything after it like a
        non-option. */
    method EndOfOptions(ghost total: Parsed)
      requires 1 <= firstNonopt <= lastNonopt == optind < argv.Length
      requires total == Parsed(argv[1..firstNonopt] + argv[lastNonopt..optind + 1],
                               argv[firstNonopt..lastNonopt] + argv[optind + 1..], emitted)
      modifies this`optind, this`firstNonopt, this`lastNonopt, argv
      ensures 1 <= firstNonopt <= lastNonopt == optind == argv.Length && argv[0] == old(argv[0])
      ensures total == Parsed(argv[1..firstNonopt], argv[firstNonopt..], emitted)
    {
      hide *;
      ghost var options := argv[1..firstNonopt] + argv[lastNonopt..optind + 1];
      ghost var (others, rest) := (argv[firstNonopt..lastNonopt], argv[optind + 1..]);
      optind := optind + 1;
      ExchangeOrReset();
      assert argv[1..firstNonopt] == options && argv[firstNonopt..optind] == others && argv[optind..] == rest;
      assert argv[firstNonopt..] == argv[firstNonopt..optind] + argv[optind..];
      lastNonopt := argv.Length;
      optind := argv.Length;
    }

    /** The k elements at optind have been scanned, with these events. */
    ghost predicate Scanned(events: seq<Event>, k: nat)
      requires 1 <= firstNonopt <= lastNonopt <= optind && optind + k <= argv.Length == |orig|
      reads this, argv
    {
      && argv[0] == orig[0] && argv[optind..] == orig[optind..]
      && Parse(g, orig[1..])
         == Concat(OptionsSoFar(), argv[firstNonopt..lastNonopt], emitted,
              Concat(orig[optind..][..k], [], events, Parse(g, orig[optind..][k..])))
    }

    /** The end of every return path that leaves the element: optind moves past it. */
    method Leave(event: Event, k: nat)
      requires 1 <= firstNonopt <= lastNonopt <= optind && optind + k <= argv.Length == |orig|
      requires Scanned([event], k)
      modifies this`optind, this`nextchar, this`emitted
      ensures Valid() && nextchar == [] && emitted == old(emitted) + [event]
    {
      hide Parse, ParseFrom, Concat, IsLong;
      TakeElements(Parse(g, orig[1..]), OptionsSoFar(), argv[firstNonopt..lastNonopt], emitted,
                   orig[optind..][..k], [event], Parse(g, orig[optind..][k..]));
      ExtendOptions(orig, argv[..], firstNonopt, lastNonopt, optind, k);
      ParseFromNothing(g, orig[optind + k..]);
      optind := optind + k;
      nextchar := [];
      emitted := emitted + [event];
    }

    /** The elements at optind and what follows them. */
    lemma Ahead()
      requires Valid() && optind < argv.Length
      ensures orig[optind..] == argv[optind..] && orig[optind..][0] == argv[optind]
      ensures NextOf(orig[optind..][1..]) == if optind + 1 < argv.Length then Some(argv[optind + 1]) else None
    {
      hide Parse, ParseFrom, Concat, IsLong, OptionsSoFar;
      assert argv[optind..][0] == argv[optind];
      assert optind + 1 < argv.Length ==> argv[optind..][1..][0] == argv[optind + 1];
      NextOfFirst(orig[optind..][1..]);
    }

    lemma LongScanned(event: Event, k: nat)
      requires Valid() && nextchar == [] && optind < argv.Length
      requires !NonOption(argv[optind]) && argv[optind] != "--" && IsLong(g, argv[optind])
      requires g.longopts.Some?
      requires Long(g, g.longopts.value, argv[optind][2..], NextOf(orig[optind..][1..])) == Decoded([event], k == 2)
      requires k == 1 || k == 2
      ensures optind + k <= argv.Length && Scanned([event], k)
    {
      hide Parse, ParseFrom, IsLong, NonOption, Concat, Long, NextOf, CharAt;
      assert argv[optind..][0] == argv[optind];
      ParseFromNothing(g, orig[optind..]);
      ParseLong(g, orig[optind..]);
    }

    lemma LastScanned(event: Event, k: nat)
      requires Valid() && nextchar != []
      requires var p := Index(g.optstring, nextchar[0]);
               p.Some? && nextchar[0] != ':' && CharAt(g.optstring, p.value + 1) == ':'
      requires Cluster(g, nextchar, NextOf(orig[optind..][1..])) == Decoded([event], k == 2)
      requires k == 1 || k == 2
      ensures optind + k <= argv.Length && Scanned([event], k)
    {
      hide Parse, ParseFrom, IsLong, Concat, Cluster, NextOf, CharAt, Index;
      ClusterLast(g, nextchar, orig[optind..]);
    }

    /** libbench/getopt.c:645-776 */
    method ScanLong() returns (event: Event)
      requires Valid() && nextchar == [] && optind < argv.Length
      requires !NonOption(argv[optind]) && argv[optind] != "--" && IsLong(g, argv[optind])
      modifies this`optind, this`nextchar, this`emitted
      ensures Valid() && emitted == old(emitted) + [event]
    {
      Ahead();
      var next := if optind + 1 < argv.Length then Some(argv[optind + 1]) else None;
      var k;
      event, k := LongEvent(g, g.longopts.value, argv[optind][2..], next);
      hide *;
      LongScanned(event, k);
      Leave(event, k);
    }

    /** libbench/getopt.c:781-927 */
    method ScanShort() returns (event: Event)
      requires Valid() && nextchar != []
      modifies this`optind, this`nextchar, this`emitted
      ensures Valid() && emitted == old(emitted) + [event]
    {
      hide Parse, IsLong, NonOption, Concat, ParseFrom, Index, CharAt;
      var c := nextchar[0];
      var temp := Index(g.optstring, c);
      if temp.None? || c == ':' || CharAt(g.optstring, temp.value + 1) != ':' {
        event := Char(if temp.None? || c == ':' then '?' else c, None);
        ScanPlain(event);
      } else {
        event := ScanWithArgument(temp.value);
      }
    }

    /** A character without an argument: on to the next one, or to the next element. */
    method ScanPlain(event: Event)
      requires Valid() && nextchar != []
      requires var p := Index(g.optstring, nextchar[0]);
               if p.None? || nextchar[0] == ':' then event == Char('?', None)
               else event == Char(nextchar[0], None) && CharAt(g.optstring, p.value + 1) != ':'
      modifies this`optind, this`nextchar, this`emitted
      ensures Valid() && emitted == old(emitted) + [event]
    {
      hide Parse, IsLong, NonOption, Concat, ParseFrom, Index, CharAt;
      ghost var args := orig[optind..];
      ClusterPlain(g, nextchar, args, event);
      if nextchar[1..] == [] {
        Leave(event, 1);
      } else {
        StillInside(args, nextchar, event);
        nextchar := nextchar[1..];
        emitted := emitted + [event];
      }
    }

    /** libbench/getopt.c:928-964: a character that takes an argument ends the cluster. */
    method ScanWithArgument(temp: nat) returns (event: Event)
      requires Valid() && nextchar != [] && nextchar[0] != ':'
      requires Index(g.optstring, nextchar[0]) == Some(temp) && CharAt(g.optstring, temp + 1) == ':'
      modifies this`optind, this`nextchar, this`emitted
      ensures Valid() && emitted == old(emitted) + [event]
    {
      hide Parse, IsLong, Concat, ParseFrom, Index, CharAt;
      Ahead();
      var next := if optind + 1 < argv.Length then Some(argv[optind + 1]) else None;
      var k;
      event, k := ArgumentEvent(g, nextchar, temp, next);
      LastScanned(event, k);
      Leave(event, k);
    }

    lemma StillInside(args: seq<string>, rest: string, event: Event)
      requires 1 <= firstNonopt <= lastNonopt <= optind < argv.Length == |orig| && rest != []
      requires Parse(g, orig[1..]) == Concat(OptionsSoFar(), argv[firstNonopt..lastNonopt], emitted, ParseFrom(g, rest, args))
      requires ParseFrom(g, rest, args) == Concat([], [], [event], ParseFrom(g, rest[1..], args))
      ensures Parse(g, orig[1..])
           == Concat(OptionsSoFar(), argv[firstNonopt..lastNonopt], emitted + [event], ParseFrom(g, rest[1..], args))
    {
      hide Parse, ParseFrom;
      ConcatConcat(OptionsSoFar(), argv[firstNonopt..lastNonopt], emitted, [], [], [event], ParseFrom(g, rest[1..], args));
      assert OptionsSoFar() + [] == OptionsSoFar() && argv[firstNonopt..lastNonopt] + [] == argv[firstNonopt..lastNonopt];
    }

    /** libbench/getopt.c:512-967: one call. */
    method Next() returns (r: Option<Event>)
      requires Valid()
      modifies this`optind, this`firstNonopt, this`lastNonopt, this`nextchar, this`emitted, argv
      ensures r.None? ==> Ended() && emitted == old(emitted)
      ensures r.Some? ==> Valid() && emitted == old(emitted) + [r.value]
    {
      hide Parse, NonOption, Concat, ParseFrom, Ended;
      if nextchar == [] {
        var end := Advance();
        if end {
          return None;
        }
        if IsLong(g, argv[optind]) {
          var e := ScanLong();
          return Some(e);
        }
        EnterCluster();
      }
      var e := ScanShort();
      return Some(e);
    }

    /** libbench/getopt.c:623 */
    method EnterCluster()
      requires Valid() && nextchar == [] && optind < argv.Length
      requires !NonOption(argv[optind]) && argv[optind] != "--" && !IsLong(g, argv[optind])
      modifies this`nextchar
      ensures Valid() && nextchar != []
    {
      hide Parse, ParseFrom, Concat, IsLong;
      LongerThanOne(argv[optind]);
      hide NonOption, CharAt;
      assert orig[optind..][0] == argv[optind..][0] == argv[optind];
      ParseFromNothing(g, orig[optind..]);
      ParseCluster(g, orig[optind..]);
      nextchar := argv[optind][1..];
    }

    /** The meaning of the whole argument vector. */
    ghost function Total(): Parsed {
      if |orig| >= 1 then Parse(g, orig[1..]) else Parsed([], [], [])
    }

    lemma EventsRemain()
      requires Valid()
      ensures |orig| >= 1 && |emitted| <= |Total().events|
    {
      hide Parse, ParseFrom, IsLong;
    }

    /** A whole run, as a caller makes it: the loop ends, returns every option with its argument
        in order, and leaves argv sorted. */
    method Run() returns (events: seq<Event>)
      requires Valid() && emitted == []
      modifies this`optind, this`firstNonopt, this`lastNonopt, this`nextchar, this`emitted, argv
      ensures Ended() && events == Total().events
    {
      hide Parse, Valid;
      events := [];
      var more := true;
      while more
        invariant events == emitted
        invariant if more then Valid() else Ended()
        decreases more, |Total().events| - |emitted|
      {
        EventsRemain();
        var r := Next();
        if r.Some? {
          events := events + [r.value];
          EventsRemain();
        } else {
          more := false;
        }
      }
    }
  }

  lemma TakeElements(total: Parsed, o: seq<string>, n: seq<string>, e: seq<Event>,
                     taken: seq<string>, events: seq<Event>, r: Parsed)
    requires total == Concat(o, n, e, Concat(taken, [], events, r))
    ensures total == Concat(o + taken, n, e + events, r)
  {
    ConcatConcat(o, n, e, taken, [], events, r);
    assert n + [] == n;
  }

  lemma ExtendOptions(orig: seq<string>, s: seq<string>, first: int, last: int, i: int, k: nat)
    requires 1 <= first <= last <= i && i + k <= |s| == |orig| && s[i..] == orig[i..]
    ensures s[1..first] + s[last..i] + orig[i..][..k] == s[1..first] + s[last..i + k]
    ensures s[i + k..] == orig[i + k..] == orig[i..][k..]
  {
    assert s[i..][..k] == s[i..i + k] && s[i..][k..] == s[i + k..];
  }

  lemma ParseAtEnd(g: Grammar, orig: seq<string>, s: seq<string>, i: int, options: seq<string>, others: seq<string>, events: seq<Event>)
    requires 1 <= i < |orig| == |s| && s[i..] == orig[i..] && s[i] == "--"
    requires Parse(g, orig[1..]) == Concat(options, others, events, Parse(g, orig[i..]))
    ensures Parse(g, orig[1..]) == Parsed(options + ["--"], others + s[i + 1..], events)
  {
    assert s[i..][0] == orig[i..][0] && s[i + 1..] == s[i..][1..] == orig[i + 1..];
    ParseEnd(g, orig, i);
    AppendNothing(options, events);
    hide Parse;
  }

  lemma SplitAt(s: seq<string>, i: nat, k: nat)
    requires i <= k <= |s|
    ensures s[i..] == s[i..k] + s[k..]
  {}

  lemma AppendNothing(o: seq<string>, e: seq<Event>)
    ensures o + [] == o && e + [] == e
  {}

  lemma RotatedParts(s: seq<string>, bottom: nat, middle: nat, top: nat)
    requires 1 <= bottom <= middle <= top <= |s|
    ensures var (t, b) := (Rotated(s, bottom, middle, top), bottom + (top - middle));
            && |t| == |s| && t[0] == s[0] && t[top..] == s[top..]
            && t[1..b] == s[1..bottom] + s[middle..top]
            && t[b..top] == s[bottom..middle]
  {}

  lemma ParseFromNothing(g: Grammar, args: seq<string>)
    ensures ParseFrom(g, [], args) == Parse(g, args)
  {}

  lemma ParseNothing(g: Grammar)
    ensures Parse(g, []) == Parsed([], [], [])
  {}

  lemma SkipNonOption(g: Grammar, args: seq<string>, i: nat)
    requires i < |args| && NonOption(args[i])
    ensures Parse(g, args[i..]) == Concat([], [args[i]], [], Parse(g, args[i + 1..]))
  {
    assert args[i..][1..] == args[i + 1..];
  }

  lemma ParseEnd(g: Grammar, args: seq<string>, i: nat)
    requires i < |args| && args[i] == "--"
    ensures Parse(g, args[i..]) == Parsed(["--"], args[i + 1..], [])
  {
    assert args[i..][1..] == args[i + 1..];
  }
}
