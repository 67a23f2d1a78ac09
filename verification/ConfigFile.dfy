/** Strings in a configuration file: the escaper of tools/menuconfig/symbol.c, the reader of
    tools/menuconfig/confdata.c that undoes it in place, and the file that is written and read.
    A C string ends at the first NUL, so no string here contains one.
  */
module ConfigFile {
  import opened KconfigExpr
  import opened Options
  import opened Strings

  // ----- escaping -----

  /** The characters that strcspn and strpbrk look for. */
  predicate Special(c: char) { c == '"' || c == '\\' }

  function EscapeBody(s: string): string {
    if s == [] then []
    else (if Special(s[0]) then ['\\', s[0]] else [s[0]]) + EscapeBody(s[1..])
  }

  function Escape(s: string): string { ['"'] + EscapeBody(s) + ['"'] }

  /** The first special character at i or after. */
  function NextSpecial(s: string, i: nat): (r: nat)
    requires i <= |s|
    ensures i <= r <= |s| && (r < |s| ==> Special(s[r])) && forall k :: i <= k < r ==> !Special(s[k])
    decreases |s| - i
  {
    if i == |s| || Special(s[i]) then i else NextSpecial(s, i + 1)
  }

  lemma {:induction false} EscapePlain(s: string, i: nat, j: nat)
    requires i <= j <= |s| && forall k :: i <= k < j ==> !Special(s[k])
    ensures EscapeBody(s[i..]) == s[i..j] + EscapeBody(s[j..])
    decreases j - i
  {
    if i < j {
      EscapePlain(s, i + 1, j);
      assert s[i..][1..] == s[i + 1..];
      assert s[i..j] == [s[i]] + s[i + 1..j];
    } else {
      assert s[i..j] == [];
    }
  }

  lemma EscapeSpecial(s: string, i: nat)
    requires i < |s| && Special(s[i])
    ensures EscapeBody(s[i..]) == ['\\', s[i]] + EscapeBody(s[i + 1..])
  {
    assert s[i..][1..] == s[i + 1..];
  }

  /** The length that is counted first (tools/menuconfig/symbol.c:910-922). */
  method EscapedLength(s: string) returns (reslen: nat)
    ensures reslen == |Escape(s)| + 1
  {
    reslen := |s| + 2 + 1;
    var p := 0;
    assert s[0..] == s;
    while true
      invariant 0 <= p <= |s| && reslen == |s| + 3 + |EscapeBody(s)| - |EscapeBody(s[p..])| - p
      decreases |s| - p
    {
      var q := NextSpecial(s, p);
      EscapePlain(s, p, q);
      p := q;
      if p == |s| {
        assert s[p..] == [];
        break;
      }
      EscapeSpecial(s, p);
      reslen := reslen + 1;
      p := p + 1;
    }
  }

  /** strncat: t is appended to the string of length used0; total is what will be written. */
  method Append(res: array<char>, used0: nat, t: string, ghost rest: string, ghost total: string) returns (used: nat)
    requires used0 + |t| < res.Length && res[..used0] + (t + rest) == total
    modifies res
    ensures used == used0 + |t| && res[used] == '\0' && res[..used] + rest == total
  {
    for i := 0 to |t|
      invariant res[..used0 + i] == old(res[..used0]) + t[..i]
    {
      res[used0 + i] := t[i];
    }
    used := used0 + |t|;
    res[used] := '\0';
    assert t[..|t|] == t;
    assert res[..used] + rest == old(res[..used0]) + (t + rest);
  }

  /** tools/menuconfig/symbol.c:903-944: the buffer is filled exactly. */
  method SymEscapeStringValue(s: string) returns (res: array<char>)
    ensures fresh(res) && res[..] == Escape(s) + ['\0']
  {
    var reslen := EscapedLength(s);
    ghost var total := Escape(s);
    EscapeParts(s);
    hide EscapeBody, Escape;
    res := new char[reslen];
    assert res[..0] == [];
    var used := Append(res, 0, ['"'], EscapeBody(s[0..]) + ['"'], total);
    var p := 0;
    while true
      invariant 0 <= p <= |s| && 0 <= used < res.Length && used + |EscapeBody(s[p..])| + 2 == res.Length
      invariant res[..used] + (EscapeBody(s[p..]) + ['"']) == total
      decreases |s| - p
    {
      var q := NextSpecial(s, p);
      EscapePlain(s, p, q);
      Moved(s[p..q], EscapeBody(s[q..]), ['"']);
      used := Append(res, used, s[p..q], EscapeBody(s[q..]) + ['"'], total);
      p := q;
      if p == |s| {
        break;
      }
      EscapeSpecial(s, p);
      EscapePair(s[p], EscapeBody(s[p + 1..]));
      used := Append(res, used, ['\\'], [s[p]] + (EscapeBody(s[p + 1..]) + ['"']), total);
      used := Append(res, used, [s[p]], EscapeBody(s[p + 1..]) + ['"'], total);
      p := p + 1;
    }
    NothingToEscape(s);
    assert [] + ['"'] == ['"'] + [];
    used := Append(res, used, ['"'], [], total);
    assert res[..] == res[..used] + [] + [res[used]];
  }

  lemma Moved(a: string, t: string, r: string)
    ensures (a + t) + r == a + (t + r)
  {}

  lemma EscapeParts(s: string)
    ensures s[0..] == s && Escape(s) == [] + (['"'] + (EscapeBody(s) + ['"']))
  {}

  lemma EscapePair(c: char, r: string)
    ensures ['\\', c] + r + ['"'] == ['\\'] + ([c] + (r + ['"']))
  {}

  lemma NothingToEscape(s: string)
    ensures EscapeBody(s[|s|..]) == []
  {}

  // ----- unescaping -----

  /** What stands after an opening quote: a text up to the closing quote, or no closing quote. */
  datatype Reading = Closed(text: string) | Unclosed

  function Prepend(c: char, r: Reading): Reading {
    match r
    case Closed(t) => Closed([c] + t)
    case Unclosed => Unclosed
  }

  function Unescape(s: string): Reading {
    if s == [] then Unclosed
    else if s[0] == '"' then Closed([])
    else if s[0] == '\\' then if |s| == 1 then Unclosed else Prepend(s[1], Unescape(s[2..]))
    else Prepend(s[0], Unescape(s[1..]))
  }

  /** Unescaping undoes escaping, for every string. */
  lemma {:induction false} UnescapeEscape(s: string, rest: string)
    ensures Unescape(EscapeBody(s) + ['"'] + rest) == Closed(s)
  {
    if s != [] {
      var t := EscapeBody(s[1..]) + ['"'] + rest;
      UnescapeEscape(s[1..], rest);
      if Special(s[0]) {
        assert (EscapeBody(s) + ['"'] + rest)[2..] == t;
      } else {
        assert (EscapeBody(s) + ['"'] + rest)[1..] == t;
      }
    } else {
      assert EscapeBody(s) + ['"'] + rest == ['"'] + rest;
    }
  }

  function PrependAll(t: string, r: Reading): Reading {
    match r
    case Closed(u) => Closed(t + u)
    case Unclosed => Unclosed
  }

  lemma PrependMore(t: string, c: char, r: Reading)
    ensures PrependAll(t, Prepend(c, r)) == PrependAll(t + [c], r)
  {
    if r.Closed? {
      assert t + ([c] + r.text) == (t + [c]) + r.text;
    }
  }

  lemma {:induction false} UnescapePlain(s: string, i: nat)
    requires i <= |s| && forall k :: 0 <= k < i ==> !Special(s[k])
    ensures Unescape(s) == PrependAll(s[..i], Unescape(s[i..]))
    decreases i
  {
    if i == 0 {
      assert s[..0] == [] && s[0..] == s;
    } else {
      UnescapePlain(s, i - 1);
      assert s[i - 1..][1..] == s[i..];
      PrependMore(s[..i - 1], s[i - 1], Unescape(s[i..]));
      assert s[..i - 1] + [s[i - 1]] == s[..i];
    }
  }

  /** memmove of n cells within one buffer. */
  method MoveLeft(buf: array<char>, d: nat, s: nat, n: nat)
    requires d <= s && s + n <= buf.Length
    modifies buf
    ensures forall k {:trigger buf[k]} :: 0 <= k < buf.Length ==> buf[k] == if d <= k < d + n then old(buf[k + (s - d)]) else old(buf[k])
  {
    for i := 0 to n
      invariant forall k {:trigger buf[k]} :: 0 <= k < buf.Length ==> buf[k] == if d <= k < d + i then old(buf[k + (s - d)]) else old(buf[k])
    {
      buf[d + i] := buf[s + i];
    }
  }

  /** strpbrk(p2, "\"\\"): the first special character before the terminator at end. */
  method FindSpecial(buf: array<char>, from: nat, end: nat) returns (r: nat)
    requires from <= end < buf.Length
    ensures from <= r <= end && (r < end ==> buf[r] == '"' || buf[r] == '\\') && forall k :: from <= k < r ==> !Special(buf[k])
  {
    r := from;
    while r < end && !Special(buf[r])
      invariant from <= r <= end && forall k :: from <= k < r ==> !Special(buf[k])
    {
      r := r + 1;
    }
  }

  /** The backslash at p2 is taken out. */
  method TakeOut(buf: array<char>, p: nat, p2: nat, end: nat, ghost total: Reading)
    requires p <= p2 < end < buf.Length && buf[p2] == '\\' && buf[end] == '\0'
    requires total == PrependAll(buf[p..p2], Unescape(buf[p2..end]))
    modifies buf
    ensures buf[..p] == old(buf[..p])
    ensures p2 + 1 == end ==> total == Unclosed
    ensures p2 + 1 < end ==> buf[end - 1] == '\0' && total == PrependAll(buf[p..p2 + 1], Unescape(buf[p2 + 1..end - 1]))
  {
    hide Unescape, PrependAll;
    ghost var s := buf[..];
    assert s[p..p2] == buf[p..p2] && s[p2..end] == buf[p2..end];
    MoveLeft(buf, p2, p2 + 1, end - p2);
    if p2 + 1 == end {
      BackslashLast(s[p..p2], s[p2..end]);
    } else {
      BackslashRead(s, buf[..], p, p2, end, total);
    }
    assert buf[..p] == buf[..][..p];
  }

  /** tools/menuconfig/confdata.c:158-168: the text after the opening quote, which starts at p and
      is terminated at end0, is unescaped where it stands; the result is terminated at stop. */
  method UnescapeInPlace(buf: array<char>, p: nat, end0: nat) returns (stop: Option<nat>)
    requires p <= end0 < buf.Length && buf[end0] == '\0' && '\0' !in buf[p..end0]
    modifies buf
    ensures buf[..p] == old(buf[..p])
    ensures match old(Unescape(buf[p..end0]))
            case Closed(text) => stop.Some? && p <= stop.value <= end0 && buf[stop.value] == '\0' && buf[p..stop.value] == text
            case Unclosed => stop == None
  {
    hide Unescape, PrependAll, Special;
    var p2, end := p, end0;
    ghost var total := Unescape(buf[p..end0]);
    NothingRead(buf[..], p, end);
    while true
      invariant p <= p2 <= end <= end0 && buf[end] == '\0'
      invariant buf[..p] == old(buf[..p])
      invariant total == PrependAll(buf[p..p2], Unescape(buf[p2..end]))
      decreases end - p2
    {
      var q := FindSpecial(buf, p2, end);
      PlainRead(buf[..], p, p2, q, end);
      p2 := q;
      if p2 == end {
        UnescapeEnds(buf[p..p2]);
        assert buf[p2..end] == [];
        return None;
      }
      if buf[p2] == '"' {
        UnescapeQuote(buf[p..p2], buf[p2..end]);
        ghost var text := buf[p..p2];
        buf[p2] := '\0';
        assert buf[p..p2] == text;
        return Some(p2);
      }
      TakeOut(buf, p, p2, end, total);
      p2 := p2 + 1;
      if p2 == end {
        // a backslash right before the terminator, of which one copy stays where it was
        return None;
      }
      end := end - 1;
    }
  }

  lemma NothingRead(s: string, p: nat, end: nat)
    requires p <= end <= |s|
    ensures Unescape(s[p..end]) == PrependAll(s[p..p], Unescape(s[p..end]))
  {
    hide Unescape;
  }

  lemma PrependTwice(t: string, u: string, r: Reading)
    ensures PrependAll(t, PrependAll(u, r)) == PrependAll(t + u, r)
  {
    if r.Closed? {
      assert t + (u + r.text) == (t + u) + r.text;
    }
  }

  lemma PlainRead(s: string, p: nat, p2: nat, q: nat, end: nat)
    requires p <= p2 <= q <= end <= |s| && forall k :: p2 <= k < q ==> !Special(s[k])
    ensures PrependAll(s[p..p2], Unescape(s[p2..end])) == PrependAll(s[p..q], Unescape(s[q..end]))
  {
    UnescapePlain(s[p2..end], q - p2);
    assert s[p2..end][..q - p2] == s[p2..q] && s[p2..end][q - p2..] == s[q..end];
    PrependTwice(s[p..p2], s[p2..q], Unescape(s[q..end]));
    assert s[p..p2] + s[p2..q] == s[p..q];
  }

  lemma UnescapeEnds(t: string)
    ensures PrependAll(t, Unescape([])) == Unclosed
  {}

  lemma UnescapeQuote(t: string, s: string)
    requires s != [] && s[0] == '"'
    ensures PrependAll(t, Unescape(s)) == Closed(t)
  {
    assert t + [] == t;
  }

  lemma BackslashLast(t: string, s: string)
    requires |s| == 1 && s[0] == '\\'
    ensures PrependAll(t, Unescape(s)) == Unclosed
  {}

  lemma Shifted(s: string, t: string, p: nat, p2: nat, end: nat)
    requires p <= p2 && p2 + 1 < end < |s| && s[end] == '\0'
    requires |t| == |s| && forall k {:trigger t[k]} :: 0 <= k < |s| ==> t[k] == if p2 <= k < end then s[k + 1] else s[k]
    ensures t[end - 1] == '\0' && t[..p] == s[..p]
    ensures s[p2..end][2..] == t[p2 + 1..end - 1] && s[p2..end][1] == s[p2 + 1] && s[p2..end][0] == s[p2]
    ensures s[p..p2] + [s[p2 + 1]] == t[p..p2 + 1]
  {
    assert t[end - 1] == s[end] && t[p2] == s[p2 + 1];
    assert t[p..p2 + 1] == t[p..p2] + [t[p2]] && t[p..p2] == s[p..p2];
    assert s[p2..end][2..] == s[p2 + 2..end];
    assert forall k :: p2 + 1 <= k < end - 1 ==> t[k] == s[k + 1];
  }

  /** A backslash is taken out, and the character after it is skipped. */
  lemma BackslashRead(s: string, t: string, p: nat, p2: nat, end: nat, total: Reading)
    requires p <= p2 && p2 + 1 < end < |s| && s[p2] == '\\' && s[end] == '\0'
    requires |t| == |s| && forall k {:trigger t[k]} :: 0 <= k < |s| ==> t[k] == if p2 <= k < end then s[k + 1] else s[k]
    requires total == PrependAll(s[p..p2], Unescape(s[p2..end]))
    ensures p2 + 1 <= end - 1 && t[end - 1] == '\0' && t[..p] == s[..p]
    ensures total == PrependAll(t[p..p2 + 1], Unescape(t[p2 + 1..end - 1]))
  {
    hide Unescape, PrependAll;
    Shifted(s, t, p, p2, end);
    UnescapeBackslash(s[p2..end]);
    PrependMore(s[p..p2], s[p2 + 1], Unescape(t[p2 + 1..end - 1]));
  }

  lemma UnescapeBackslash(s: string)
    requires |s| >= 2 && s[0] == '\\'
    ensures Unescape(s) == Prepend(s[1], Unescape(s[2..]))
  {}

  /** The escaped value is read back from the buffer that holds it. */
  method EscapedIsReadBack(s: string) returns (value: string)
    requires '\0' !in s
    ensures value == s
  {
    var buf := SymEscapeStringValue(s);
    var end := buf.Length - 1;
    EscapeHasNoNul(s);
    UnescapeEscape(s, []);
    assert buf[1..end] == EscapeBody(s) + ['"'] + [];
    assert buf[end] == buf[..][end];
    var stop := UnescapeInPlace(buf, 1, end);
    value := buf[1..stop.value];
  }

  lemma {:induction false} EscapeHasNoNul(s: string)
    requires '\0' !in s
    ensures '\0' !in EscapeBody(s)
  {
    if s != [] { EscapeHasNoNul(s[1..]); }
  }

  // ----- the file -----

  /** The types that a symbol read for its user value can have. */
  type SymbolType = k: Kind | k != Unknown && k != Other witness Boolean

  datatype Setting = TriValue(t: Tri) | Text(s: string)

  datatype Assignment = Assignment(name: string, typ: SymbolType, setting: Setting)

  const PREFIX := "CONFIG_"

  predicate IsDigit(c: char) { '0' <= c <= '9' }

  predicate IsXdigit(c: char) { IsDigit(c) || 'a' <= c <= 'f' || 'A' <= c <= 'F' }

  predicate AllDigits(s: string) { forall i :: 0 <= i < |s| ==> IsDigit(s[i]) }

  predicate AllXdigits(s: string) { forall i :: 0 <= i < |s| ==> IsXdigit(s[i]) }

  /** tools/menuconfig/symbol.c:540-581 for the types that hold a string. */
  predicate StringValid(typ: SymbolType, s: string) {
    match typ
    case Str => true
    case Int =>
      var d := if s != [] && s[0] == '-' then s[1..] else s;
      d != [] && IsDigit(d[0]) && (d[0] == '0' ==> |d| == 1) && AllDigits(d)
    case Hex =>
      var d := if |s| >= 2 && s[0] == '0' && (s[1] == 'x' || s[1] == 'X') then s[2..] else s;
      d != [] && AllXdigits(d)
    case _ => false
  }

  /** tools/menuconfig/confdata.c:126-180: what the value p sets a symbol to, if anything. */
  function SetSymVal(typ: SymbolType, p: string): Option<Setting> {
    match typ
    case Boolean => YesOrNo(p)
    case Tristate => if p != [] && p[0] == 'm' then Some(TriValue(MOD)) else YesOrNo(p)
    case Str =>
      if p == [] || p[0] != '"' then None
      else (match Unescape(p[1..]) case Closed(t) => Some(Text(t)) case _ => None)
    case _ => if StringValid(typ, p) then Some(Text(p)) else None
  }

  function YesOrNo(p: string): Option<Setting> {
    if p != [] && p[0] == 'y' then Some(TriValue(YES))
    else if p != [] && p[0] == 'n' then Some(TriValue(NO))
    else None
  }

  /** The value of a line: up to the newline, without a carriage return before it
      (tools/menuconfig/confdata.c:348-353). */
  function ValueOf(p: string): string {
    match Index(p, '\n')
    case None => p
    case Some(i) =>
      IndexBound(p, '\n');
      if i > 0 && p[i - 1] == '\r' then p[..i - 1] else p[..i]
  }

  /** One line (tools/menuconfig/confdata.c:311-374); types are the symbols that exist. */
  function ReadLine(types: map<string, SymbolType>, line: string, state: map<string, Setting>): map<string, Setting> {
    if line != [] && line[0] == '#' then
      if |line| >= 2 && PREFIX <= line[2..] then ReadComment(types, line[2 + |PREFIX|..], state) else state
    else if PREFIX <= line then ReadAssignment(types, line[|PREFIX|..], state)
    else state
  }

  function ReadComment(types: map<string, SymbolType>, p: string, state: map<string, Setting>): map<string, Setting> {
    IndexBound(p, ' ');
    match Index(p, ' ')
    case None => state
    case Some(i) =>
      var name := p[..i];
      if "is not set" <= p[i + 1..] && name in types && (types[name] == Boolean || types[name] == Tristate)
      then state[name := TriValue(NO)] else state
  }

  function ReadAssignment(types: map<string, SymbolType>, p: string, state: map<string, Setting>): map<string, Setting> {
    IndexBound(p, '=');
    match Index(p, '=')
    case None => state
    case Some(i) =>
      var name := p[..i];
      if name !in types then state
      else match SetSymVal(types[name], ValueOf(p[i + 1..])) case None => state case Some(v) => state[name := v]
  }

  /** The length of the first line, with its newline. */
  function LineLength(s: string): (n: nat)
    ensures n <= |s| && (s != [] ==> n > 0)
  {
    if s == [] then 0 else if s[0] == '\n' then 1 else 1 + LineLength(s[1..])
  }

  function ReadAll(types: map<string, SymbolType>, s: string, state: map<string, Setting>): map<string, Setting>
    decreases |s|
  {
    if s == [] then state
    else ReadAll(types, s[LineLength(s)..], ReadLine(types, s[..LineLength(s)], state))
  }

  /** compat_getline (tools/menuconfig/confdata.c:208-240): the bytes up to a newline or the end. */
  method GetLine(s: string, pos: nat) returns (line: string, next: nat)
    requires pos <= |s|
    ensures line == s[pos..][..LineLength(s[pos..])] && next == pos + LineLength(s[pos..])
  {
    line, next := "", pos;
    while next < |s|
      invariant pos <= next <= |s| && line == s[pos..next]
      invariant LineLength(s[pos..]) == next - pos + LineLength(s[next..])
    {
      var c := s[next];
      assert s[next..][1..] == s[next + 1..];
      line, next := line + [c], next + 1;
      if c == '\n' {
        assert s[pos..][..next - pos] == line;
        return;
      }
    }
    assert s[pos..][..next - pos] == line;
  }

  /** The loop of conf_read_simple (tools/menuconfig/confdata.c:308-374). */
  method ReadConfig(types: map<string, SymbolType>, s: string, start: map<string, Setting>) returns (state: map<string, Setting>)
    ensures state == ReadAll(types, s, start)
  {
    hide ReadLine;
    state := start;
    var pos := 0;
    assert s[0..] == s;
    while pos < |s|
      invariant pos <= |s| && ReadAll(types, s[pos..], state) == ReadAll(types, s, start)
    {
      var line, next := GetLine(s, pos);
      assert s[pos..][next - pos..] == s[next..];
      state := ReadLine(types, line, state);
      pos := next;
    }
  }

  /** kconfig_print_symbol for a symbol with this value (tools/menuconfig/confdata.c:478-499, 620-639). */
  function PrintSymbol(a: Assignment): string {
    match a.setting
    case TriValue(t) =>
      if t == NO then "# " + PREFIX + a.name + " is not set\n"
      else PREFIX + a.name + "=" + Letter(t) + "\n"
    case Text(s) => PREFIX + a.name + "=" + (if a.typ == Str then Escape(s) else s) + "\n"
  }

  function WriteAll(l: seq<Assignment>): string {
    if l == [] then [] else PrintSymbol(l[0]) + WriteAll(l[1..])
  }

  predicate IsName(s: string) { '=' !in s && ' ' !in s && '\n' !in s }

  /** A symbol and a value that it can have. */
  predicate Assignable(types: map<string, SymbolType>, a: Assignment) {
    && IsName(a.name) && a.name in types && types[a.name] == a.typ
    && (if a.typ == Boolean then a.setting.TriValue? && a.setting.t != MOD
        else if a.typ == Tristate then a.setting.TriValue?
        else a.setting.Text? && StringValid(a.typ, a.setting.s))
  }

  /** The values that are kept by writing and reading: those without a newline. */
  predicate OneLine(a: Assignment) { a.setting.Text? ==> '\n' !in a.setting.s }

  function Assign(l: seq<Assignment>, state: map<string, Setting>): map<string, Setting> {
    if l == [] then state else Assign(l[1..], state[l[0].name := l[0].setting])
  }

  lemma {:induction false} LineEnds(s: string, rest: string)
    requires '\n' !in s
    ensures LineLength(s + ['\n'] + rest) == |s| + 1
  {
    if s == [] {
      assert s + ['\n'] + rest == ['\n'] + rest;
    } else {
      LineEnds(s[1..], rest);
      assert (s + ['\n'] + rest)[1..] == s[1..] + ['\n'] + rest;
    }
  }

  lemma {:induction false} EscapeKeepsLine(s: string)
    requires '\n' !in s
    ensures '\n' !in EscapeBody(s)
  {
    if s != [] { EscapeKeepsLine(s[1..]); }
  }

  lemma PrefixFacts()
    ensures |PREFIX| == 7 && PREFIX[0] == 'C' && '\n' !in PREFIX
  {}

  /** A line with an assignment. */
  lemma AssignmentRead(types: map<string, SymbolType>, name: string, value: string, v: Setting, state: map<string, Setting>)
    requires IsName(name) && name in types && '\n' !in value && value != [] && value[|value| - 1] != '\r'
    requires SetSymVal(types[name], value) == Some(v)
    ensures var line := PREFIX + name + "=" + value + "\n";
            ReadLine(types, line, state) == state[name := v]
  {
    hide SetSymVal;
    PrefixFacts();
    var line := PREFIX + name + "=" + value + "\n";
    var p := name + ['='] + (value + ['\n']);
    assert line[|PREFIX|..] == p && line[..|PREFIX|] == PREFIX && line[0] == PREFIX[0];
    hide PREFIX;
    IndexFirst(name, '=', value + ['\n']);
    assert p[..|name|] == name && p[|name| + 1..] == value + ['\n'];
    IndexFirst(value, '\n', []);
    assert value + ['\n'] + [] == value + ['\n'];
    hide Index;
    assert ValueOf(value + ['\n']) == value by {
      assert (value + ['\n'])[..|value|] == value;
    }
  }

  lemma CommentRead(types: map<string, SymbolType>, name: string, state: map<string, Setting>)
    requires IsName(name) && name in types && (types[name] == Boolean || types[name] == Tristate)
    ensures ReadLine(types, "# " + PREFIX + name + " is not set\n", state) == state[name := TriValue(NO)]
  {
    PrefixFacts();
    var line := "# " + PREFIX + name + " is not set\n";
    var tail := "is not set\n";
    assert " is not set\n" == [' '] + tail;
    var p := name + [' '] + tail;
    assert line[2 + |PREFIX|..] == p && line[2..][..|PREFIX|] == PREFIX && line[0] == '#';
    hide PREFIX;
    IndexFirst(name, ' ', tail);
    assert p[..|name|] == name && p[|name| + 1..] == tail;
    assert "is not set" == tail[..10];
  }

  lemma NotCarriageReturn(typ: SymbolType, s: string)
    requires (typ == Int || typ == Hex) && StringValid(typ, s)
    ensures s != [] && s[|s| - 1] != '\r'
  {}

  /** Each line that is written sets its symbol. */
  lemma PrintedIsRead(types: map<string, SymbolType>, a: Assignment, state: map<string, Setting>)
    requires Assignable(types, a) && OneLine(a)
    ensures ReadLine(types, PrintSymbol(a), state) == state[a.name := a.setting]
  {
    hide ReadLine, IsName, Unescape, Escape, Special;
    if a.setting.TriValue? {
      if a.setting.t == NO {
        CommentRead(types, a.name, state);
      } else {
        AssignmentRead(types, a.name, Letter(a.setting.t), a.setting, state);
      }
    } else if a.typ == Str {
      EscapedValue(a.setting.s);
      AssignmentRead(types, a.name, Escape(a.setting.s), a.setting, state);
    } else {
      NotCarriageReturn(a.typ, a.setting.s);
      AssignmentRead(types, a.name, a.setting.s, a.setting, state);
    }
  }

  lemma EscapedValue(s: string)
    ensures var v := Escape(s);
            && v != [] && v[0] == '"' && v[|v| - 1] == '"' && Unescape(v[1..]) == Closed(s)
            && ('\n' !in s ==> '\n' !in v)
  {
    UnescapeEscape(s, []);
    assert Escape(s)[1..] == EscapeBody(s) + ['"'] + [];
    if '\n' !in s { EscapeKeepsLine(s); }
  }

  lemma PrintedLine(types: map<string, SymbolType>, a: Assignment, rest: string)
    requires Assignable(types, a) && OneLine(a)
    ensures PrintSymbol(a) != [] && LineLength(PrintSymbol(a) + rest) == |PrintSymbol(a)|
  {
    var line := PrintSymbol(a);
    var s := line[..|line| - 1];
    assert line == s + ['\n'];
    assert '\n' !in s by {
      PrefixFacts();
      hide PREFIX;
      if a.setting.Text? { EscapedValue(a.setting.s); }
    }
    LineEnds(s, rest);
  }

  /** Reading what was written gives every symbol the value that was written. */
  lemma {:induction false} WriteRead(types: map<string, SymbolType>, l: seq<Assignment>, state: map<string, Setting>)
    requires forall a :: a in l ==> Assignable(types, a) && OneLine(a)
    ensures ReadAll(types, WriteAll(l), state) == Assign(l, state)
  {
    hide ReadLine, PrintSymbol, Assignable, LineLength, OneLine;
    if l != [] {
      var (line, rest) := (PrintSymbol(l[0]), WriteAll(l[1..]));
      PrintedLine(types, l[0], rest);
      PrintedIsRead(types, l[0], state);
      assert (line + rest)[..|line|] == line && (line + rest)[|line|..] == rest;
      WriteRead(types, l[1..], state[l[0].name := l[0].setting]);
    }
  }

  // ----- values with a newline -----

  ghost predicate OneLineSettings(state: map<string, Setting>) {
    forall name :: name in state && state[name].Text? ==> '\n' !in state[name].s
  }

  lemma {:induction false} UnescapeKeepsLine(s: string)
    requires '\n' !in s && Unescape(s).Closed?
    ensures '\n' !in Unescape(s).text
    decreases |s|
  {
    if s != [] && s[0] != '"' {
      if s[0] == '\\' {
        UnescapeKeepsLine(s[2..]);
      } else {
        UnescapeKeepsLine(s[1..]);
      }
    }
  }

  lemma SetKeepsLine(typ: SymbolType, p: string)
    requires '\n' !in p
    ensures match SetSymVal(typ, p) case Some(Text(s)) => '\n' !in s case _ => true
  {
    hide Unescape, StringValid;
    if p != [] && Unescape(p[1..]).Closed? {
      UnescapeKeepsLine(p[1..]);
    }
  }

  lemma ReadLineKeeps(types: map<string, SymbolType>, line: string, state: map<string, Setting>)
    requires OneLineSettings(state)
    ensures OneLineSettings(ReadLine(types, line, state))
  {
    hide ReadAssignment, PREFIX;
    if PREFIX <= line {
      AssignmentKeeps(types, line[|PREFIX|..], state);
    }
  }

  lemma AssignmentKeeps(types: map<string, SymbolType>, p: string, state: map<string, Setting>)
    requires OneLineSettings(state)
    ensures OneLineSettings(ReadAssignment(types, p, state))
  {
    hide SetSymVal, Index;
    IndexBound(p, '=');
    if Index(p, '=').Some? {
      var (name, q) := (p[..Index(p, '=').value], p[Index(p, '=').value + 1..]);
      IndexBound(q, '\n');
      if name in types {
        SetKeepsLine(types[name], ValueOf(q));
      }
    }
  }

  lemma {:induction false} ReadKeepsLines(types: map<string, SymbolType>, s: string, state: map<string, Setting>)
    requires OneLineSettings(state)
    ensures OneLineSettings(ReadAll(types, s, state))
    decreases |s|
  {
    hide ReadLine, OneLineSettings;
    if s != [] {
      ReadLineKeeps(types, s[..LineLength(s)], state);
      ReadKeepsLines(types, s[LineLength(s)..], ReadLine(types, s[..LineLength(s)], state));
    }
  }

  /** A value is read back from a file with its line if and only if it has no newline. */
  lemma ReadBackExactly(types: map<string, SymbolType>, a: Assignment)
    requires Assignable(types, a)
    ensures var state := ReadAll(types, PrintSymbol(a), map[]);
            (a.name in state && state[a.name] == a.setting) <==> OneLine(a)
  {
    hide ReadAll, PrintSymbol, Assignable;
    ReadKeepsLines(types, PrintSymbol(a), map[]);
    if OneLine(a) {
      WriteRead(types, [a], map[]);
      assert WriteAll([a]) == PrintSymbol(a) + [] == PrintSymbol(a);
      assert [a][1..] == [];
    }
  }

  ghost predicate DistinctNames(l: seq<Assignment>) {
    forall i, j :: 0 <= i < j < |l| ==> l[i].name != l[j].name
  }

  lemma {:induction false} AssignKeeps(l: seq<Assignment>, state: map<string, Setting>, name: string)
    requires name in state && forall a :: a in l ==> a.name != name
    ensures name in Assign(l, state) && Assign(l, state)[name] == state[name]
  {
    if l != [] {
      AssignKeeps(l[1..], state[l[0].name := l[0].setting], name);
    }
  }

  lemma {:induction false} AssignHas(l: seq<Assignment>, state: map<string, Setting>, i: nat)
    requires DistinctNames(l) && i < |l|
    ensures l[i].name in Assign(l, state) && Assign(l, state)[l[i].name] == l[i].setting
  {
    var next := state[l[0].name := l[0].setting];
    if i == 0 {
      AssignKeeps(l[1..], next, l[0].name);
    } else {
      AssignHas(l[1..], next, i - 1);
    }
  }

  /** A whole file of distinct symbols is read back as it was written if and only if none of the
      values has a newline. */
  lemma FileReadBackExactly(types: map<string, SymbolType>, l: seq<Assignment>)
    requires DistinctNames(l) && forall a :: a in l ==> Assignable(types, a)
    ensures ReadAll(types, WriteAll(l), map[]) == Assign(l, map[]) <==> forall a :: a in l ==> OneLine(a)
  {
    hide ReadAll, WriteAll, Assignable, Assign;
    ReadKeepsLines(types, WriteAll(l), map[]);
    if forall a :: a in l ==> OneLine(a) {
      WriteRead(types, l, map[]);
    } else {
      var i: nat :| i < |l| && !OneLine(l[i]);
      AssignHas(l, map[], i);
    }
  }
}
