/** What the scanner of libbench/getopt.c makes of an argument, put together from its parts: elements
    are written as concatenations, and the events follow.
  */
module GetoptMeaning {
  import opened Options
  import opened Strings
  import opened Getopt

  // ----- one element in front of others -----

  /** r, with elements of an option in front. */
  function After(options: seq<string>, events: seq<Event>, r: Parsed): Parsed {
    Parsed(options + r.options, r.others, events + r.events)
  }

  /** What a missing argument gives: ':' if the option characters begin with one, '?' otherwise. */
  predicate MissingIs(g: Grammar, c: char) {
    c == if g.optstring != [] && g.optstring[0] == ':' then ':' else '?'
  }

  lemma First(a: string, rest: seq<string>)
    ensures ([a] + rest)[0] == a && ([a] + rest)[1..] == rest
    ensures rest != [] ==> ([a] + rest)[2..] == rest[1..] && ([a] + rest)[1] == rest[0]
  {}

  /** The element itself gives what is decoded. */
  lemma Decodes(g: Grammar, a: string, rest: seq<string>)
    requires !NonOption(a) && a != "--"
    ensures var d := DecodeElement(g, a, NextOf(rest));
            Parse(g, [a] + rest)
            == if d.takesNext && rest != [] then After([a, rest[0]], d.events, Parse(g, rest[1..]))
               else After([a], d.events, Parse(g, rest))
  {
    First(a, rest);
    ParseOption(g, [a] + rest);
    hide Parse, NonOption, DecodeElement;
    assert |[a] + rest| > 1 <==> rest != [];
    EmptyOthers(Parse(g, rest).others);
    if rest != [] { EmptyOthers(Parse(g, rest[1..]).others); }
  }

  lemma EmptyOthers(s: seq<string>)
    ensures [] + s == s
  {}

  /** An element that does not begin with '-', or is "-" alone, is no option; "--" ends the options. */
  lemma OtherElement(g: Grammar, a: string, rest: seq<string>)
    requires a == "" || a == "-" || a[0] != '-'
    ensures var r := Parse(g, rest);
            Parse(g, [a] + rest) == Parsed(r.options, [a] + r.others, r.events)
  {
    First(a, rest);
    hide DecodeElement;
  }

  lemma EndElement(g: Grammar, rest: seq<string>)
    ensures Parse(g, ["--"] + rest) == Parsed(["--"], rest, [])
  {
    First("--", rest);
    hide DecodeElement;
  }

  // ----- long options -----

  /** The value that a long option returns. */
  predicate ReturnIs(o: LongOption, v: int) { v == if o.flag.Some? then 0 else o.val }

  lemma {:induction false} NameBeforeEquals(name: string, rest: string)
    requires '=' !in name && (rest == [] || rest[0] == '=')
    ensures NameLength(name + rest) == |name|
  {
    if name == [] {
      assert name + rest == rest;
    } else {
      NameBeforeEquals(name[1..], rest);
      assert (name + rest)[0] == name[0] && (name + rest)[1..] == name[1..] + rest;
    }
  }

  lemma LongShape(g: Grammar, name: string, rest: string)
    requires g.longopts.Some? && (name != [] || rest != [])
    ensures var a := "--" + name + rest;
            !NonOption(a) && a != "--" && IsLong(g, a) && a[2..] == name + rest
  {
    var a := "--" + name + rest;
    assert a[0] == '-' && a[1] == '-' && |a| > 2;
  }

  /** The option, if any, is the one that the description of the matching allows. */
  lemma Looked(opts: seq<LongOption>, name: string, m: Match)
    requires Matches(opts, name, m)
    ensures Lookup(opts, name) == m
  {
    MatchUnique(opts, name, m, Lookup(opts, name));
  }

  /** `--name=x` */
  lemma LongWithValue(g: Grammar, name: string, x: string, rest: seq<string>, m: Match, v: int)
    requires g.longopts.Some? && '=' !in name && Matches(g.longopts.value, name, m)
    requires m.Found? ==> ReturnIs(g.longopts.value[m.index], v)
    ensures var a := "--" + name + ("=" + x);
            Parse(g, [a] + rest)
            == After([a], [if m.Found? && g.longopts.value[m.index].hasArg != 0 then Value(v, Some(x)) else Char('?', None)], Parse(g, rest))
  {
    var a := "--" + name + ("=" + x);
    LongShape(g, name, "=" + x);
    Decodes(g, a, rest);
    hide NonOption, Parse, IsLong, Lookup;
    NameBeforeEquals(name, "=" + x);
    Looked(g.longopts.value, name, m);
    var s := name + ("=" + x);
    assert s[..|name|] == name && s[|name| + 1..] == x && |name| < |s|;
    hide NameLength, Matches;
    assert DecodeElement(g, a, NextOf(rest)) == Long(g, g.longopts.value, s, NextOf(rest));
  }

  /** `--name`, without an argument of its own: an option that requires one takes the next element. */
  lemma LongAlone(g: Grammar, name: string, rest: seq<string>, m: Match, v: int, missing: char)
    requires g.longopts.Some? && name != [] && '=' !in name && Matches(g.longopts.value, name, m)
    requires (m.Found? ==> ReturnIs(g.longopts.value[m.index], v)) && MissingIs(g, missing)
    ensures var a := "--" + name;
            Parse(g, [a] + rest) ==
              if !m.Found? then After([a], [Char('?', None)], Parse(g, rest))
              else if g.longopts.value[m.index].hasArg != 1 then After([a], [Value(v, None)], Parse(g, rest))
              else if rest == [] then After([a], [Char(missing, None)], Parse(g, rest))
              else After([a, rest[0]], [Value(v, Some(rest[0]))], Parse(g, rest[1..]))
  {
    var a := "--" + name;
    assert a == "--" + name + [] && name + [] == name;
    LongShape(g, name, []);
    Decodes(g, a, rest);
    hide NonOption, Parse, IsLong, Lookup;
    NameBeforeEquals(name, []);
    Looked(g.longopts.value, name, m);
    assert name[..|name|] == name;
    hide NameLength, Matches;
    assert DecodeElement(g, a, NextOf(rest)) == Long(g, g.longopts.value, name, NextOf(rest));
  }

  // ----- option characters -----

  /** How the option characters declare c: not at all, alone, with ':' or with "::" after it. */
  predicate Undeclared(g: Grammar, c: char) { c == ':' || c !in g.optstring }

  ghost predicate Declared(g: Grammar, c: char, colons: string) {
    c != ':' && exists pre: string, post: string :: DeclaredAt(g, c, colons, pre, post)
  }

  predicate DeclaredAt(g: Grammar, c: char, colons: string, pre: string, post: string) {
    g.optstring == pre + [c] + colons + post && c !in pre && (post != [] && |colons| < 2 ==> post[0] != ':')
  }

  lemma DeclaredIndex(g: Grammar, c: char, colons: string)
    requires Declared(g, c, colons) && (colons == "" || colons == ":" || colons == "::")
    ensures var p := Index(g.optstring, c);
            && p.Some? && c != ':'
            && (CharAt(g.optstring, p.value + 1) == ':' <==> |colons| >= 1)
            && (|colons| >= 1 ==> (CharAt(g.optstring, p.value + 2) == ':' <==> |colons| == 2))
  {
    var pre: string, post: string :| DeclaredAt(g, c, colons, pre, post);
    var t := colons + post;
    assert g.optstring == pre + [c] + t;
    IndexFirst(pre, c, t);
    hide Index;
    var o := g.optstring;
    assert |pre| + 1 < |o| ==> o[|pre| + 1] == t[0];
    assert |pre| + 2 < |o| ==> o[|pre| + 2] == t[1];
  }

  lemma {:induction false} UndeclaredIndex(s: string, c: char)
    requires c !in s
    ensures Index(s, c).None?
  {
    if s != [] { UndeclaredIndex(s[1..], c); }
  }

  /** A character that stands for itself in a cluster: declared alone, or not declared. */
  ghost predicate StandsAlone(g: Grammar, c: char) { Declared(g, c, "") || Undeclared(g, c) }

  /** The event that it gives. */
  ghost function PlainEvent(g: Grammar, c: char): Event {
    if Undeclared(g, c) then Char('?', None) else Char(c, None)
  }

  ghost function PlainEvents(g: Grammar, cs: string): seq<Event> {
    seq(|cs|, i requires 0 <= i < |cs| => PlainEvent(g, cs[i]))
  }

  /** Plain characters give one event each, and then comes what follows them. */
  lemma {:induction false} ClusterOfPlain(g: Grammar, cs: string, tail: string, next: Option<string>)
    requires forall c :: c in cs ==> StandsAlone(g, c)
    ensures var d := Cluster(g, tail, next);
            Cluster(g, cs + tail, next) == Decoded(PlainEvents(g, cs) + d.events, d.takesNext)
  {
    hide Cluster, StandsAlone, PlainEvents;
    NoPlainEvents(g, Cluster(g, tail, next).events);
    if cs == [] {
      assert cs + tail == tail;
    } else {
      var (c, rest) := (cs[0], cs[1..]);
      ClusterOfPlain(g, rest, tail, next);
      assert [c] + (rest + tail) == cs + tail;
      PlainCharacter(g, c, rest + tail, next);
      MorePlainEvents(g, cs, Cluster(g, tail, next).events);
    }
  }

  lemma NoPlainEvents(g: Grammar, events: seq<Event>)
    ensures PlainEvents(g, []) + events == events
  {}

  lemma MorePlainEvents(g: Grammar, cs: string, events: seq<Event>)
    requires cs != []
    ensures [PlainEvent(g, cs[0])] + (PlainEvents(g, cs[1..]) + events) == PlainEvents(g, cs) + events
  {
    hide PlainEvent;
  }

  lemma PlainCharacter(g: Grammar, c: char, tail: string, next: Option<string>)
    requires StandsAlone(g, c)
    ensures var d := Cluster(g, tail, next);
            Cluster(g, [c] + tail, next) == Decoded([PlainEvent(g, c)] + d.events, d.takesNext)
  {
    assert ([c] + tail)[0] == c && ([c] + tail)[1..] == tail;
    if Undeclared(g, c) {
      if c != ':' { UndeclaredIndex(g.optstring, c); }
    } else {
      DeclaredIndex(g, c, "");
    }
    hide Index, CharAt, Declared;
  }

  /** A character with an argument ends the cluster. */
  lemma LastCharacter(g: Grammar, c: char, colons: string, x: string, next: Option<string>, missing: char)
    requires (colons == ":" || colons == "::") && Declared(g, c, colons) && MissingIs(g, missing)
    ensures Cluster(g, [c] + x, next) ==
            if x != [] then Decoded([Char(c, Some(x))], false)
            else if colons == "::" then Decoded([Char(c, None)], false)
            else if next.None? then Decoded([Char(missing, None)], false)
            else Decoded([Char(c, next)], true)
  {
    assert ([c] + x)[0] == c && ([c] + x)[1..] == x;
    DeclaredIndex(g, c, colons);
    assert Missing(g) == missing;
    hide Index, CharAt, Declared, Missing;
  }

  /** An element of option characters: '-' and then s, which is not taken for a long option. */
  predicate ShortElement(g: Grammar, s: string) { s != [] && s != "-" && !(g.longopts.Some? && s[0] == '-') }

  lemma ShortDecodes(g: Grammar, s: string, rest: seq<string>)
    requires ShortElement(g, s)
    ensures var (a, d) := ("-" + s, Cluster(g, s, NextOf(rest)));
            Parse(g, [a] + rest)
            == if d.takesNext && rest != [] then After([a, rest[0]], d.events, Parse(g, rest[1..]))
               else After([a], d.events, Parse(g, rest))
  {
    var a := "-" + s;
    assert a[0] == '-' && a[1] == s[0] && a[1..] == s;
    assert "--"[1..] == "-";
    assert !NonOption(a) && !IsLong(g, a);
    assert DecodeElement(g, a, NextOf(rest)) == Cluster(g, s, NextOf(rest));
    hide NonOption, Parse, Cluster;
    Decodes(g, a, rest);
  }

  /** `-abc`: one event for each plain character. */
  lemma PlainElement(g: Grammar, cs: string, rest: seq<string>)
    requires ShortElement(g, cs) && forall c :: c in cs ==> StandsAlone(g, c)
    ensures Parse(g, ["-" + cs] + rest) == After(["-" + cs], PlainEvents(g, cs), Parse(g, rest))
  {
    ShortDecodes(g, cs, rest);
    ClusterOfPlain(g, cs, [], NextOf(rest));
    assert cs + [] == cs && Cluster(g, [], NextOf(rest)) == Decoded([], false);
    assert PlainEvents(g, cs) + [] == PlainEvents(g, cs);
    hide Parse, Cluster;
  }

  /** `-abcx`: after plain characters one with an argument, which is the rest of the element or else,
      if it is required, the next element. */
  lemma ArgumentElement(g: Grammar, cs: string, c: char, colons: string, x: string, rest: seq<string>, missing: char)
    requires ShortElement(g, cs + ([c] + x)) && forall d :: d in cs ==> StandsAlone(g, d)
    requires (colons == ":" || colons == "::") && Declared(g, c, colons) && MissingIs(g, missing)
    ensures var (a, events) := ("-" + (cs + ([c] + x)), PlainEvents(g, cs));
            Parse(g, [a] + rest) ==
              if x != [] then After([a], events + [Char(c, Some(x))], Parse(g, rest))
              else if colons == "::" then After([a], events + [Char(c, None)], Parse(g, rest))
              else if rest == [] then After([a], events + [Char(missing, None)], Parse(g, rest))
              else After([a, rest[0]], events + [Char(c, Some(rest[0]))], Parse(g, rest[1..]))
  {
    ShortDecodes(g, cs + ([c] + x), rest);
    ClusterOfPlain(g, cs, [c] + x, NextOf(rest));
    LastCharacter(g, c, colons, x, NextOf(rest), missing);
    hide Parse, Cluster, Declared, StandsAlone, PlainEvents;
  }
}
