/** What the reader of tools/menuconfig/confdata.c makes of a line, put together from its parts, and
    what the writer writes.
  */
module ConfigMeaning {
  import opened Options
  import opened Strings
  import opened KconfigExpr
  import opened ConfigFile

  type State = map<string, Setting>

  type Types = map<string, SymbolType>

  // ----- lines and files -----

  /** A file is read line by line. */
  lemma FirstLine(types: Types, line: string, rest: string, state: State)
    requires '\n' !in line
    ensures ReadAll(types, line + "\n" + rest, state) == ReadAll(types, rest, ReadLine(types, line + "\n", state))
    ensures ReadAll(types, "", state) == state
  {
    var s := line + ['\n'] + rest;
    LineEnds(line, rest);
    hide ReadLine, LineLength;
    assert s == line + "\n" + rest && s[..|line| + 1] == line + "\n" && s[|line| + 1..] == rest;
  }

  /** The value of a line, without the newline and a carriage return before it. */
  lemma ValueOfLine(value: string)
    requires '\n' !in value
    ensures ValueOf(value + "\n") == if value != [] && value[|value| - 1] == '\r' then value[..|value| - 1] else value
    ensures ValueOf(value + "\r\n") == value
  {
    assert value + "\n" == value + ['\n'] + [];
    IndexFirst(value, '\n', []);
    var w := value + ['\r'];
    assert value + "\r\n" == w + ['\n'] + [];
    IndexFirst(w, '\n', []);
    hide Index;
    assert (value + "\n")[..|value|] == value;
    if value != [] { assert (value + "\n")[..|value| - 1] == value[..|value| - 1]; }
    assert (value + "\r\n")[..|value|] == value;
  }

  /** A line that assigns. */
  lemma AssignmentLine(types: Types, name: string, p: string, state: State)
    requires '=' !in name
    ensures ReadLine(types, "CONFIG_" + name + "=" + p, state) ==
            if name !in types then state
            else match SetSymVal(types[name], ValueOf(p)) case None => state case Some(v) => state[name := v]
  {
    var line := "CONFIG_" + name + "=" + p;
    var t := name + ['='] + p;
    assert line[..7] == "CONFIG_" == PREFIX && line[7..] == t && line[0] == 'C';
    IndexFirst(name, '=', p);
    hide SetSymVal, ValueOf, Index;
    assert t[..|name|] == name && t[|name| + 1..] == p;
  }

  // ----- lines that change nothing -----

  lemma UnknownName(types: Types, name: string, p: string, state: State)
    requires '=' !in name && name !in types
    ensures ReadLine(types, "CONFIG_" + name + "=" + p, state) == state
  {
    AssignmentLine(types, name, p, state);
    hide ReadLine;
  }

  lemma {:induction false} NowhereFound(s: string, c: char)
    requires c !in s
    ensures Index(s, c).None?
  {
    if s != [] { NowhereFound(s[1..], c); }
  }

  lemma NoEquals(types: Types, p: string, state: State)
    requires '=' !in p
    ensures ReadLine(types, "CONFIG_" + p, state) == state
  {
    var line := "CONFIG_" + p;
    assert line[..7] == "CONFIG_" == PREFIX && line[7..] == p && line[0] == 'C';
    NowhereFound(p, '=');
  }

  /** A line that begins neither with "CONFIG_" nor with '#'. */
  lemma OtherLine(types: Types, line: string, state: State)
    requires !("CONFIG_" <= line) && (line == [] || line[0] != '#')
    ensures ReadLine(types, line, state) == state
  {}

  // ----- booleans and tristates -----

  /** The letter of a value. */
  predicate LetterIs(c: char, t: Tri) { (c == 'n' && t == NO) || (c == 'm' && t == MOD) || (c == 'y' && t == YES) }

  lemma FirstOfValue(c: char, rest: string)
    requires '\n' !in rest && c != '\n' && c != '\r'
    ensures ValueOf([c] + rest + "\n") != [] && ValueOf([c] + rest + "\n")[0] == c
  {
    ValueOfLine([c] + rest);
    hide ValueOf;
  }

  /** `CONFIG_FOO=m`: only the first letter counts, and a boolean cannot be m. */
  lemma TristateLine(types: Types, name: string, c: char, t: Tri, rest: string, state: State)
    requires '=' !in name && name in types && (types[name] == Boolean || types[name] == Tristate)
    requires LetterIs(c, t) && '\n' !in rest
    ensures ReadLine(types, "CONFIG_" + name + "=" + ([c] + rest + "\n"), state)
         == if types[name] == Boolean && t == MOD then state else state[name := TriValue(t)]
  {
    AssignmentLine(types, name, [c] + rest + "\n", state);
    FirstOfValue(c, rest);
    hide ReadLine, ValueOf;
  }

  /** Any other letter, or none, changes nothing. */
  lemma OtherLetterLine(types: Types, name: string, value: string, state: State)
    requires '=' !in name && name in types && (types[name] == Boolean || types[name] == Tristate) && '\n' !in value
    requires value == [] || value[0] !in "nmy"
    ensures ReadLine(types, "CONFIG_" + name + "=" + (value + "\n"), state) == state
  {
    AssignmentLine(types, name, value + "\n", state);
    ValueOfLine(value);
    hide ReadLine, ValueOf;
  }

  // ----- comments -----

  lemma CommentParts(c: char, p: string)
    ensures var line := ['#', c] + "CONFIG_" + p;
            line[0] == '#' && |line| >= 9 && line[2..] == "CONFIG_" + p && line[9..] == p && PREFIX <= line[2..]
  {
    var line := ['#', c] + "CONFIG_" + p;
    assert line[2..] == "CONFIG_" + p;
    assert line[2..][..7] == PREFIX;
  }

  /** `# CONFIG_FOO is not set` sets a boolean or tristate to n; the second character does not matter. */
  lemma NotSetLine(types: Types, c: char, name: string, rest: string, state: State)
    requires ' ' !in name
    ensures ReadLine(types, ['#', c] + "CONFIG_" + (name + [' '] + ("is not set" + rest)), state)
         == if name in types && (types[name] == Boolean || types[name] == Tristate) then state[name := TriValue(NO)] else state
  {
    var tail := "is not set" + rest;
    var p := name + [' '] + tail;
    CommentParts(c, p);
    IndexFirst(name, ' ', tail);
    hide Index, ReadAssignment;
    assert p[..|name|] == name && p[|name| + 1..] == tail && tail[..10] == "is not set";
  }

  /** No other comment changes anything: one that is not about a symbol, */
  lemma CommentElsewhere(types: Types, c: char, p: string, state: State)
    requires !("CONFIG_" <= p)
    ensures ReadLine(types, ['#', c] + p, state) == state && ReadLine(types, "#", state) == state
  {
    assert (['#', c] + p)[2..] == p;
    hide ReadComment, ReadAssignment;
  }

  /** one with nothing after the name, */
  lemma CommentOfName(types: Types, c: char, p: string, state: State)
    requires ' ' !in p
    ensures ReadLine(types, ['#', c] + "CONFIG_" + p, state) == state
  {
    CommentParts(c, p);
    NowhereFound(p, ' ');
    hide Index, ReadAssignment;
  }

  /** or one with something else there. */
  lemma CommentOfOther(types: Types, c: char, name: string, rest: string, state: State)
    requires ' ' !in name && !("is not set" <= rest)
    ensures ReadLine(types, ['#', c] + "CONFIG_" + (name + [' '] + rest), state) == state
  {
    var p := name + [' '] + rest;
    CommentParts(c, p);
    IndexFirst(name, ' ', rest);
    hide Index, ReadAssignment;
    assert p[|name| + 1..] == rest;
  }

  // ----- strings -----

  /** s with a backslash before the characters that are marked. */
  function Marked(s: string, marks: seq<bool>): string
    requires |marks| == |s|
  {
    if s == [] then [] else (if marks[0] then ['\\', s[0]] else [s[0]]) + Marked(s[1..], marks[1..])
  }

  /** Quotes and backslashes must be marked; everything else may be. */
  predicate Guarded(s: string, marks: seq<bool>) {
    |marks| == |s| && forall i :: 0 <= i < |s| && (s[i] == '"' || s[i] == '\\') ==> marks[i]
  }

  lemma MarkedStep(s: string, marks: seq<bool>, tail: string)
    requires s != [] && |marks| == |s|
    ensures Marked(s, marks) + tail == (if marks[0] then ['\\', s[0]] else [s[0]]) + (Marked(s[1..], marks[1..]) + tail)
  {}

  lemma PrependStep(s: string, r: Reading)
    ensures PrependAll(s, r) == if s == [] then r else Prepend(s[0], PrependAll(s[1..], r))
  {
    if r.Closed? && s != [] { assert s == [s[0]] + s[1..]; }
  }

  /** Reading the marked text leaves the text, whatever follows. */
  lemma {:induction false} MarkedTail(s: string, marks: seq<bool>, tail: string)
    requires Guarded(s, marks)
    ensures Unescape(Marked(s, marks) + tail) == PrependAll(s, Unescape(tail))
  {
    hide Unescape, Prepend, PrependAll;
    PrependStep(s, Unescape(tail));
    if s == [] {
      assert Marked(s, marks) + tail == tail;
    } else {
      MarkedTail(s[1..], marks[1..], tail);
      MarkedStep(s, marks, tail);
      HeadRead(s[0], marks[0], Marked(s[1..], marks[1..]) + tail);
    }
  }

  lemma MarkedRead(s: string, marks: seq<bool>, rest: string)
    requires Guarded(s, marks)
    ensures Unescape(Marked(s, marks) + ("\"" + rest)) == Closed(s)
  {
    MarkedTail(s, marks, "\"" + rest);
    assert Unescape("\"" + rest) == Closed([]);
    hide Unescape, Marked;
    assert s + [] == s;
  }

  lemma MarkedUnclosed(s: string, marks: seq<bool>, end: string)
    requires Guarded(s, marks) && (end == "" || end == "\\")
    ensures Unescape(Marked(s, marks) + end) == Unclosed
  {
    MarkedTail(s, marks, end);
    assert Unescape(end) == Unclosed;
    hide Unescape, Marked;
  }

  lemma HeadRead(c: char, mark: bool, rest: string)
    requires (c == '"' || c == '\\') ==> mark
    ensures Unescape((if mark then ['\\', c] else [c]) + rest) == Prepend(c, Unescape(rest))
  {
    if mark {
      assert (['\\', c] + rest)[2..] == rest;
    } else {
      assert ([c] + rest)[1..] == rest;
    }
  }

  lemma QuotedSet(s: string, marks: seq<bool>, junk: string)
    requires Guarded(s, marks)
    ensures SetSymVal(Str, "\"" + Marked(s, marks) + "\"" + junk) == Some(Text(s))
  {
    MarkedRead(s, marks, junk);
    hide Unescape, Marked;
    var value := "\"" + Marked(s, marks) + "\"" + junk;
    assert value[1..] == Marked(s, marks) + ("\"" + junk) && value[0] == '"';
  }

  /** The value of the line is quoted too. */
  lemma QuotedValue(s: string, marks: seq<bool>, junk: string) returns (less: string)
    requires |marks| == |s| && '\n' !in Marked(s, marks) && '\n' !in junk
    ensures ValueOf("\"" + Marked(s, marks) + "\"" + junk + "\n") == "\"" + Marked(s, marks) + "\"" + less
  {
    hide Marked;
    var head := "\"" + Marked(s, marks) + "\"";
    ValueOfLine(head + junk);
    hide ValueOf;
    less := if junk != [] && junk[|junk| - 1] == '\r' then junk[..|junk| - 1] else junk;
    if junk != [] {
      assert (head + junk)[|head + junk| - 1] == junk[|junk| - 1];
      assert (head + junk)[..|head + junk| - 1] == head + junk[..|junk| - 1];
    } else {
      assert head + junk == head && head[|head| - 1] == '"';
    }
  }

  /** `CONFIG_FOO="text"junk`: the text up to the closing quote, with every backslash taken out. */
  lemma StringLine(types: Types, name: string, s: string, marks: seq<bool>, junk: string, state: State)
    requires '=' !in name && name in types && types[name] == Str && Guarded(s, marks) && '\n' !in Marked(s, marks) && '\n' !in junk
    ensures ReadLine(types, "CONFIG_" + name + "=" + ("\"" + Marked(s, marks) + "\"" + junk + "\n"), state) == state[name := Text(s)]
  {
    AssignmentLine(types, name, "\"" + Marked(s, marks) + "\"" + junk + "\n", state);
    var less := QuotedValue(s, marks, junk);
    QuotedSet(s, marks, less);
    hide ReadLine, ValueOf, SetSymVal, Marked;
  }

  /** Without an opening quote, or without a closing one, a string is not set. */
  lemma UnquotedLine(types: Types, name: string, value: string, state: State)
    requires '=' !in name && name in types && types[name] == Str && '\n' !in value
    requires value == [] || value[0] != '"'
    ensures ReadLine(types, "CONFIG_" + name + "=" + (value + "\n"), state) == state
  {
    AssignmentLine(types, name, value + "\n", state);
    ValueOfLine(value);
    hide ReadLine, ValueOf;
  }

  lemma UnclosedSet(s: string, marks: seq<bool>, end: string)
    requires Guarded(s, marks) && (end == "" || end == "\\")
    ensures SetSymVal(Str, "\"" + Marked(s, marks) + end).None?
  {
    MarkedUnclosed(s, marks, end);
    hide Unescape, Marked;
    var text := Marked(s, marks) + end;
    assert "\"" + Marked(s, marks) + end == "\"" + text;
    UnclosedText(text);
  }

  lemma UnclosedText(text: string)
    requires Unescape(text) == Unclosed
    ensures SetSymVal(Str, "\"" + text).None?
  {
    assert ("\"" + text)[1..] == text && ("\"" + text)[0] == '"';
    hide Unescape;
  }

  lemma UnclosedValue(s: string, marks: seq<bool>, end: string)
    requires |marks| == |s| && '\n' !in Marked(s, marks)
    requires (end == "" && (s == [] || s[|s| - 1] != '\r')) || end == "\\"
    ensures var value := "\"" + Marked(s, marks) + end; ValueOf(value + "\n") == value
  {
    MarkedEnd(s, marks);
    hide Marked;
    var (m, value) := (Marked(s, marks), "\"" + Marked(s, marks) + end);
    ValueOfLine(value);
    hide ValueOf;
    if end == "" {
      assert value == "\"" + m;
      assert m != [] ==> value[|value| - 1] == m[|m| - 1];
    } else {
      assert value[|value| - 1] == '\\';
    }
  }

  lemma UnclosedLine(types: Types, name: string, s: string, marks: seq<bool>, end: string, state: State)
    requires '=' !in name && name in types && types[name] == Str && Guarded(s, marks) && '\n' !in Marked(s, marks)
    requires (end == "" && (s == [] || s[|s| - 1] != '\r')) || end == "\\"
    ensures ReadLine(types, "CONFIG_" + name + "=" + ("\"" + Marked(s, marks) + end + "\n"), state) == state
  {
    AssignmentLine(types, name, "\"" + Marked(s, marks) + end + "\n", state);
    UnclosedValue(s, marks, end);
    UnclosedSet(s, marks, end);
    hide ReadLine, ValueOf, SetSymVal, Marked;
  }

  lemma {:induction false} MarkedEnd(s: string, marks: seq<bool>)
    requires |marks| == |s|
    ensures if s == [] then Marked(s, marks) == [] else Marked(s, marks) != [] && Marked(s, marks)[|Marked(s, marks)| - 1] == s[|s| - 1]
  {
    if s != [] {
      MarkedEnd(s[1..], marks[1..]);
      if |s| > 1 { assert s[1..][|s| - 2] == s[|s| - 1]; }
    }
  }

  // ----- numbers -----

  /** An optional minus and digits without a leading zero. */
  predicate DecimalOf(s: string, sign: string, ds: string) {
    && (sign == "" || sign == "-") && s == sign + ds && ds != []
    && (forall c :: c in ds ==> c in "0123456789") && (ds[0] == '0' ==> ds == "0")
  }

  ghost predicate Decimal(s: string) { exists sign: string, ds: string :: DecimalOf(s, sign, ds) }

  predicate HexadecimalOf(s: string, pre: string, ds: string) {
    && (pre == "" || pre == "0x" || pre == "0X") && s == pre + ds && ds != []
    && (forall c :: c in ds ==> c in "0123456789abcdefABCDEF")
  }

  ghost predicate Hexadecimal(s: string) { exists pre: string, ds: string :: HexadecimalOf(s, pre, ds) }

  lemma DigitsAre(s: string)
    ensures AllDigits(s) <==> forall c :: c in s ==> c in "0123456789"
    ensures AllXdigits(s) <==> forall c :: c in s ==> c in "0123456789abcdefABCDEF"
  {
    forall c: char
      ensures IsDigit(c) <==> c in "0123456789"
      ensures IsXdigit(c) <==> c in "0123456789abcdefABCDEF"
    {}
    hide IsDigit, IsXdigit;
  }

  lemma DecimalExactly(s: string)
    ensures StringValid(Int, s) <==> Decimal(s)
  {
    var sign := if s != [] && s[0] == '-' then "-" else "";
    var d := s[|sign|..];
    assert s == sign + d;
    DigitsAre(d);
    if StringValid(Int, s) {
      if d[0] == '0' { assert d == "0"; }
      assert DecimalOf(s, sign, d);
    }
    if Decimal(s) {
      var sg: string, ds: string :| DecimalOf(s, sg, ds);
      assert ds[0] in ds;
      assert s[0] == if sg == "-" then '-' else ds[0];
      assert sg == sign && ds == d;
    }
  }

  lemma HexadecimalExactly(s: string)
    ensures StringValid(Hex, s) <==> Hexadecimal(s)
  {
    var pre := if |s| >= 2 && s[0] == '0' && (s[1] == 'x' || s[1] == 'X') then s[..2] else "";
    var d := s[|pre|..];
    assert s == pre + d;
    DigitsAre(d);
    hide AllXdigits, AllDigits;
    if StringValid(Hex, s) {
      assert HexadecimalOf(s, pre, d);
    }
    if Hexadecimal(s) {
      var p: string, ds: string :| HexadecimalOf(s, p, ds);
      OnePrefix(s, pre, d, p, ds);
    }
  }

  /** No digit is an x. */
  lemma NoMark(ds: string)
    requires |ds| >= 2 && forall c :: c in ds ==> c in "0123456789abcdefABCDEF"
    ensures ds[1] != 'x' && ds[1] != 'X'
  {
    assert ds[1] in ds;
  }

  lemma OnePrefix(s: string, pre: string, d: string, p: string, ds: string)
    requires HexadecimalOf(s, p, ds) && s == pre + d
    requires pre == if |s| >= 2 && s[0] == '0' && (s[1] == 'x' || s[1] == 'X') then s[..2] else ""
    ensures pre == p && d == ds
  {
    if p == "" {
      assert s == ds;
      if |s| >= 2 { NoMark(s); }
      assert pre == "";
    } else {
      assert s[0] == p[0] == '0' && s[1] == p[1];
      assert s[..2] == p;
    }
    assert ds == s[|p|..] && d == s[|pre|..];
  }

  /** A number is set exactly when it is one. */
  lemma NumberLine(types: Types, name: string, value: string, state: State)
    requires '=' !in name && name in types && (types[name] == Int || types[name] == Hex)
    requires '\n' !in value && (value == [] || value[|value| - 1] != '\r')
    ensures ReadLine(types, "CONFIG_" + name + "=" + (value + "\n"), state)
         == if (if types[name] == Int then Decimal(value) else Hexadecimal(value)) then state[name := Text(value)] else state
  {
    AssignmentLine(types, name, value + "\n", state);
    ValueOfLine(value);
    DecimalExactly(value);
    HexadecimalExactly(value);
    hide ReadLine, ValueOf, StringValid, Decimal, Hexadecimal;
  }

  // ----- what is written -----

  /** The printed lines. */
  lemma PrintedForms(name: string, typ: SymbolType, s: string)
    ensures PrintSymbol(Assignment(name, typ, TriValue(NO))) == "# CONFIG_" + name + " is not set\n"
    ensures PrintSymbol(Assignment(name, typ, TriValue(MOD))) == "CONFIG_" + name + "=m\n"
    ensures PrintSymbol(Assignment(name, typ, TriValue(YES))) == "CONFIG_" + name + "=y\n"
    ensures typ != Str ==> PrintSymbol(Assignment(name, typ, Text(s))) == "CONFIG_" + name + "=" + s + "\n"
  {
    assert "# " + "CONFIG_" + name + " is not set\n" == "# CONFIG_" + name + " is not set\n";
    assert "CONFIG_" + name + "=" + "m" + "\n" == "CONFIG_" + name + "=m\n";
    assert "CONFIG_" + name + "=" + "y" + "\n" == "CONFIG_" + name + "=y\n";
    hide Escape;
  }

  /** A string is printed in quotes, with a backslash before every quote and every backslash. */
  lemma PrintedString(name: string, s: string, marks: seq<bool>)
    requires |marks| == |s| && forall i :: 0 <= i < |s| ==> (marks[i] <==> s[i] == '"' || s[i] == '\\')
    ensures PrintSymbol(Assignment(name, Str, Text(s))) == "CONFIG_" + name + "=" + ("\"" + Marked(s, marks) + "\"") + "\n"
  {
    EscapeMarks(s, marks);
    hide EscapeBody, Marked;
  }

  /** The escaper marks quotes and backslashes, and nothing else. */
  lemma {:induction false} EscapeMarks(s: string, marks: seq<bool>)
    requires |marks| == |s| && forall i :: 0 <= i < |s| ==> (marks[i] <==> s[i] == '"' || s[i] == '\\')
    ensures EscapeBody(s) == Marked(s, marks)
  {
    if s != [] { EscapeMarks(s[1..], marks[1..]); }
  }
}
