/** Dependency expressions of tools/menuconfig/expr.c over three values, and their rewriting.

    A `struct expr` tree is a value of type Expr.  Where the source takes the address of a
    node, the model takes the tree and a position in it.
  */
module KconfigExpr {
  import opened Options

  // ----- symbols, expressions and their values -----

  datatype Kind = Unknown | Boolean | Tristate | Int | Hex | Str | Other

  /** The three constants of symbol.c:14-25 and every other symbol. */
  datatype Symbol = Yes | Mod | No | Named(name: string, kind: Kind, isConst: bool)

  function KindOf(s: Symbol): Kind { if s.Named? then s.kind else Unknown }

  /** SYMBOL_CONST (symbol.c:14-25, 786-825): sym_lookup returns the built-in symbols for the
      names "y", "m" and "n", and what it creates for a quoted word has no type. */
  predicate IsConst(s: Symbol) {
    !s.Named? || (s.isConst && s.kind == Unknown && s.name != "y" && s.name != "m" && s.name != "n")
  }

  datatype Conn = Or | And

  datatype Expr =
    | Sym(s: Symbol)
    | Not(e: Expr)
    | Bin(op: Conn, l: Expr, r: Expr)
    | Equal(a: Symbol, b: Symbol)
    | Unequal(a: Symbol, b: Symbol)

  /** n, m and y are 0, 1 and 2. */
  type Tri = x: int | 0 <= x <= 2

  const NO: Tri := 0
  const MOD: Tri := 1
  const YES: Tri := 2

  /** The current value of every symbol, as a tristate and as a string. */
  datatype Valuation = Valuation(tri: Symbol -> Tri, str: Symbol -> string)

  function Letter(t: Tri): string { if t == NO then "n" else if t == MOD then "m" else "y" }

  ghost predicate SymbolLaw(v: Valuation, s: Symbol) {
    && (KindOf(s) == Boolean ==> v.tri(s) != MOD)
    && (KindOf(s) == Boolean || KindOf(s) == Tristate ==> v.str(s) == Letter(v.tri(s)))
  }

  ghost predicate ConstLaw(v: Valuation, s: Symbol, t: Symbol) {
    IsConst(s) && IsConst(t) && s != t ==> v.str(s) != v.str(t)
  }

  /** What sym_calc_value establishes: the constants have their values, a boolean symbol is
      never m, the string of a boolean or tristate symbol follows its value, and distinct
      constants have distinct strings. */
  ghost predicate WellFormed(v: Valuation) {
    && v.tri(Yes) == YES && v.tri(Mod) == MOD && v.tri(No) == NO
    && v.str(Yes) == "y" && v.str(Mod) == "m" && v.str(No) == "n"
    && (forall s :: SymbolLaw(v, s))
    && (forall s, t :: ConstLaw(v, s, t))
  }

  /** A valuation in which every symbol of a boolean or tristate type has the value given. */
  ghost function Chosen(t: Symbol -> Tri): Valuation {
    Valuation(
      (s: Symbol) => match s case Yes => YES case Mod => MOD case No => NO case Named(_, _, _) => t(s),
      (s: Symbol) => match s case Yes => "y" case Mod => "m" case No => "n"
        case Named(name, kind, _) => if kind == Boolean || kind == Tristate then Letter(t(s)) else name)
  }

  /** Well-formed valuations leave the boolean symbols free among n and y, and the tristate ones
      among all three values. */
  lemma ChosenWellFormed(t: Symbol -> Tri)
    requires forall s :: KindOf(s) == Boolean ==> t(s) != MOD
    ensures WellFormed(Chosen(t))
    ensures forall s :: KindOf(s) == Boolean || KindOf(s) == Tristate ==> Chosen(t).tri(s) == t(s)
  {
    forall s
      ensures SymbolLaw(Chosen(t), s)
    {
      assert s.Named? ==> Chosen(t).tri(s) == t(s);
    }
  }

  function Min(a: Tri, b: Tri): Tri { if a < b then a else b }

  function Max(a: Tri, b: Tri): Tri { if a > b then a else b }

  function Join(op: Conn, a: Tri, b: Tri): Tri { if op == Or then Max(a, b) else Min(a, b) }

  /** What expr_calc_value (expr.c:938-977) returns once the symbols are calculated. */
  function Value(e: Expr, v: Valuation): Tri {
    match e
    case Sym(s) => v.tri(s)
    case Not(x) => 2 - Value(x, v)
    case Bin(op, l, r) => Join(op, Value(l, v), Value(r, v))
    case Equal(a, b) => if v.str(a) == v.str(b) then YES else NO
    case Unequal(a, b) => if v.str(a) == v.str(b) then NO else YES
  }

  /** expr.c:773-795 */
  predicate Contains(e: Expr, s: Symbol) {
    match e
    case Bin(_, l, r) => Contains(l, s) || Contains(r, s)
    case Not(x) => Contains(x, s)
    case Sym(a) => a == s
    case Equal(a, b) => a == s || b == s
    case Unequal(a, b) => a == s || b == s
  }

  /** Both expressions have the same value everywhere. */
  ghost predicate Equivalent(e: Expr, f: Expr) {
    forall v: Valuation :: WellFormed(v) ==> Value(e, v) == Value(f, v)
  }

  /** The number of nodes. */
  function Size(e: Expr): nat {
    match e
    case Not(x) => 1 + Size(x)
    case Bin(_, l, r) => 1 + Size(l) + Size(r)
    case _ => 1
  }

  /** The constant that changes nothing under op, and the one that decides it. */
  function Neutral(op: Conn): Expr { Sym(if op == Or then No else Yes) }

  function Absorbing(op: Conn): Expr { Sym(if op == Or then Yes else No) }

  predicate IsBin(e: Expr, op: Conn) { e.Bin? && e.op == op }

  /** Equal types in the source's sense. */
  predicate SameType(e: Expr, f: Expr) {
    match e
    case Sym(_) => f.Sym?
    case Not(_) => f.Not?
    case Bin(op, _, _) => IsBin(f, op)
    case Equal(_, _) => f.Equal?
    case Unequal(_, _) => f.Unequal?
  }

  // ----- expr_eliminate_yn -----

  predicate IsYn(e: Expr) { e == Sym(Yes) || e == Sym(No) }

  /** No connective has a constant y or n as an operand. */
  predicate YnFree(e: Expr) {
    e.Bin? ==> !IsYn(e.l) && !IsYn(e.r) && YnFree(e.l) && YnFree(e.r)
  }

  /** expr.c:231-312 */
  function EliminateYn(e: Expr): (r: Expr)
    ensures YnFree(r)
    ensures Size(r) <= Size(e)
    ensures !YnFree(e) ==> Size(r) < Size(e)
  {
    if !e.Bin? then e
    else
      var l, r := EliminateYn(e.l), EliminateYn(e.r);
      if l == Absorbing(e.op) then Absorbing(e.op)
      else if l == Neutral(e.op) then r
      else if r == Absorbing(e.op) then Absorbing(e.op)
      else if r == Neutral(e.op) then l
      else Bin(e.op, l, r)
  }

  lemma {:induction false} EliminateYnValue(e: Expr, v: Valuation)
    requires WellFormed(v)
    ensures Value(EliminateYn(e), v) == Value(e, v)
  {
    if e.Bin? {
      EliminateYnValue(e.l, v);
      EliminateYnValue(e.r, v);
      YesValue(v);
      hide WellFormed, Value;
      BinValue(e.op, e.l, e.r, v);
      BinValue(e.op, EliminateYn(e.l), EliminateYn(e.r), v);
    }
  }

  // ----- expr_eq and expr_eliminate_eq -----

  /** expr.c:130-162: operands of op that occur on both sides become neutral on both. */
  function EliminateEqUnder(op: Conn, e1: Expr, e2: Expr): (r: (Expr, Expr))
    ensures Size(r.0) <= Size(e1) && Size(r.1) <= Size(e2)
    ensures (IsBin(r.0, op) <==> IsBin(e1, op)) && (IsBin(r.1, op) <==> IsBin(e2, op))
    decreases Size(e1) + Size(e2), if IsBin(e1, op) || IsBin(e2, op) then 0 else 3
  {
    if IsBin(e1, op) then
      var (l, f) := EliminateEqUnder(op, e1.l, e2);
      var (r, g) := EliminateEqUnder(op, e1.r, f);
      (Bin(op, l, r), g)
    else if IsBin(e2, op) then
      var (f, l) := EliminateEqUnder(op, e1, e2.l);
      var (g, r) := EliminateEqUnder(op, f, e2.r);
      (g, Bin(op, l, r))
    else if e1 == e2 && IsYn(e1) then (e1, e2)
    else if !ExprEq(e1, e2) then (e1, e2)
    else (Neutral(op), Neutral(op))
  }

  /** expr.c:164-184 */
  function EliminateEq(e1: Expr, e2: Expr): (r: (Expr, Expr))
    ensures Size(r.0) <= Size(e1) && Size(r.1) <= Size(e2)
    decreases Size(e1) + Size(e2), 1
  {
    var (f1, f2) := if e1.Bin? then EliminateEqUnder(e1.op, e1, e2) else (e1, e2);
    var (g1, g2) := if !SameType(f1, f2) && f2.Bin? then EliminateEqUnder(f2.op, f1, f2) else (f1, f2);
    (EliminateYn(g1), EliminateYn(g2))
  }

  /** expr.c:189-229 */
  predicate ExprEq(e1: Expr, e2: Expr)
    decreases Size(e1) + Size(e2), 2
  {
    SameType(e1, e2) &&
    match e1
    case Sym(s) => s == e2.s
    case Not(x) => ExprEq(x, e2.e)
    case Bin(_, _, _) =>
      var (f1, f2) := EliminateEq(e1, e2);
      f1.Sym? && f2.Sym? && f1.s == f2.s
    case Equal(a, b) => a == e2.a && b == e2.b
    case Unequal(a, b) => a == e2.a && b == e2.b
  }

  /** Both sides lose one and the same operand c of op. */
  ghost predicate Factors(op: Conn, c: Expr, e1: Expr, e2: Expr, f1: Expr, f2: Expr) {
    Equivalent(e1, Bin(op, c, f1)) && Equivalent(e2, Bin(op, c, f2))
  }

  lemma FactorsCompose(op: Conn, c1: Expr, c2: Expr, l: Expr, r: Expr, e: Expr, l': Expr, r': Expr, f: Expr, g: Expr)
    requires Factors(op, c1, l, e, l', f) && Factors(op, c2, r, f, r', g)
    ensures Factors(op, Bin(op, c1, c2), Bin(op, l, r), e, Bin(op, l', r'), g)
    ensures Factors(op, Bin(op, c1, c2), e, Bin(op, l, r), g, Bin(op, l', r'))
  {
    hide WellFormed;
    forall v: Valuation | WellFormed(v)
      ensures Value(Bin(op, l, r), v) == Value(Bin(op, Bin(op, c1, c2), Bin(op, l', r')), v)
      ensures Value(e, v) == Value(Bin(op, Bin(op, c1, c2), g), v)
    {
      hide Value, Equivalent, Join;
      EquivalentAt(l, Bin(op, c1, l'), v);
      EquivalentAt(r, Bin(op, c2, r'), v);
      EquivalentAt(e, Bin(op, c1, f), v);
      EquivalentAt(f, Bin(op, c2, g), v);
      BinValue(op, c1, l', v);
      BinValue(op, c2, r', v);
      BinValue(op, c1, f, v);
      BinValue(op, c2, g, v);
      BinValue(op, l, r, v);
      BinValue(op, c1, c2, v);
      BinValue(op, l', r', v);
      BinValue(op, Bin(op, c1, c2), Bin(op, l', r'), v);
      BinValue(op, Bin(op, c1, c2), g, v);
      JoinFour(op, Value(c1, v), Value(l', v), Value(c2, v), Value(r', v));
      JoinFour(op, Value(c1, v), NO, Value(c2, v), Value(g, v));
    }
  }

  lemma EquivalentAt(e: Expr, f: Expr, v: Valuation)
    requires Equivalent(e, f) && WellFormed(v)
    ensures Value(e, v) == Value(f, v)
  {}

  lemma BinValue(op: Conn, l: Expr, r: Expr, v: Valuation)
    ensures Value(Bin(op, l, r), v) == Join(op, Value(l, v), Value(r, v))
  {}

  lemma NotValue(s: Symbol, v: Valuation)
    ensures Value(Not(Sym(s)), v) == 2 - v.tri(s) && Value(Sym(s), v) == v.tri(s)
  {
    assert Value(Sym(s), v) == v.tri(s);
  }

  lemma JoinFour(op: Conn, a: Tri, b: Tri, c: Tri, d: Tri)
    ensures Join(op, Join(op, a, b), Join(op, c, d)) == Join(op, Join(op, a, c), Join(op, b, d))
    ensures Join(op, a, Join(op, c, d)) == Join(op, Join(op, a, c), d)
  {}

  lemma {:induction false} EliminateEqUnderFactors(op: Conn, e1: Expr, e2: Expr) returns (c: Expr)
    ensures var r := EliminateEqUnder(op, e1, e2); Factors(op, c, e1, e2, r.0, r.1)
    decreases Size(e1) + Size(e2), if IsBin(e1, op) || IsBin(e2, op) then 0 else 3
  {
    hide Equivalent, WellFormed;
    if IsBin(e1, op) {
      hide Factors;
      var (l, f) := EliminateEqUnder(op, e1.l, e2);
      var (r, g) := EliminateEqUnder(op, e1.r, f);
      var c1 := EliminateEqUnderFactors(op, e1.l, e2);
      var c2 := EliminateEqUnderFactors(op, e1.r, f);
      c := Bin(op, c1, c2);
      FactorsCompose(op, c1, c2, e1.l, e1.r, e2, l, r, f, g);
    } else if IsBin(e2, op) {
      var (f, l) := EliminateEqUnder(op, e1, e2.l);
      var (g, r) := EliminateEqUnder(op, f, e2.r);
      var c1 := EliminateEqUnderFactors(op, e1, e2.l);
      var c2 := EliminateEqUnderFactors(op, f, e2.r);
      c := Bin(op, c1, c2);
      FactorsCompose(op, c1, c2, e2.l, e2.r, e1, l, r, f, g);
    } else if !(e1 == e2 && IsYn(e1)) && ExprEq(e1, e2) {
      ExprEqSound(e1, e2);
      FactorsWhole(op, e1, e2);
      c := e1;
    } else {
      FactorsNothing(op, e1, e2);
      c := Neutral(op);
    }
  }

  lemma FactorsWhole(op: Conn, e1: Expr, e2: Expr)
    requires Equivalent(e1, e2)
    ensures Factors(op, e1, e1, e2, Neutral(op), Neutral(op))
  {}

  lemma FactorsNothing(op: Conn, e1: Expr, e2: Expr)
    ensures Factors(op, Neutral(op), e1, e2, e1, e2)
  {}

  /** expr_eq is sound. */
  lemma {:induction false} ExprEqSound(e1: Expr, e2: Expr)
    requires ExprEq(e1, e2)
    ensures Equivalent(e1, e2)
    decreases Size(e1) + Size(e2), 2
  {
    if e1.Not? {
      ExprEqSound(e1.e, e2.e);
    } else if e1.Bin? {
      var op := e1.op;
      var (f1, f2) := EliminateEqUnder(op, e1, e2);
      var c := EliminateEqUnderFactors(op, e1, e2);
      forall v: Valuation | WellFormed(v)
        ensures Value(e1, v) == Value(e2, v)
      {
        EliminateYnValue(f1, v);
        EliminateYnValue(f2, v);
      }
    }
  }

  /** The two rounds of EliminateEq before the constants go. */
  function FirstRound(e1: Expr, e2: Expr): (Expr, Expr) {
    if e1.Bin? then EliminateEqUnder(e1.op, e1, e2) else (e1, e2)
  }

  function SecondRound(f1: Expr, f2: Expr): (Expr, Expr) {
    if !SameType(f1, f2) && f2.Bin? then EliminateEqUnder(f2.op, f1, f2) else (f1, f2)
  }

  lemma EliminateEqRounds(e1: Expr, e2: Expr, v: Valuation)
    requires WellFormed(v)
    ensures var f := FirstRound(e1, e2);
            var g := SecondRound(f.0, f.1);
            EliminateEq(e1, e2) == (EliminateYn(g.0), EliminateYn(g.1)) && Value(EliminateEq(e1, e2).1, v) == Value(g.1, v)
  {
    var f := FirstRound(e1, e2);
    var g := SecondRound(f.0, f.1);
    hide WellFormed, EliminateYn, EliminateEqUnder, SameType, Value;
    EliminateYnValue(g.1, v);
  }

  /** If eliminating what the two sides share leaves y on the second side, the first side
      implies the second (the sub-menu test of menu.c:333-340). */
  lemma EliminateEqImplies(e1: Expr, e2: Expr, v: Valuation)
    requires EliminateEq(e1, e2).1 == Sym(Yes) && WellFormed(v)
    ensures Value(e1, v) <= Value(e2, v)
  {
    hide *;
    EliminateEqRounds(e1, e2, v);
    YesValue(v);
    var f := FirstRound(e1, e2);
    AtMostYes(Value(SecondRound(f.0, f.1).0, v));
    SecondRoundOrder(f.0, f.1, v);
    FirstRoundOrder(e1, e2, v);
  }

  lemma AtMostYes(t: Tri)
    ensures t <= YES
  {}

  lemma FirstRoundOrder(e1: Expr, e2: Expr, v: Valuation)
    requires WellFormed(v)
    ensures var r := FirstRound(e1, e2); Value(r.0, v) <= Value(r.1, v) ==> Value(e1, v) <= Value(e2, v)
  {
    hide WellFormed, EliminateEqUnder, Value;
    if e1.Bin? {
      EliminateEqUnderOrder(e1.op, e1, e2, v);
    }
  }

  lemma SecondRoundOrder(f1: Expr, f2: Expr, v: Valuation)
    requires WellFormed(v)
    ensures var r := SecondRound(f1, f2); Value(r.0, v) <= Value(r.1, v) ==> Value(f1, v) <= Value(f2, v)
  {
    hide WellFormed, EliminateEqUnder, Value, SameType;
    if f2.Bin? {
      EliminateEqUnderOrder(f2.op, f1, f2, v);
    }
  }

  lemma EliminateEqUnderOrder(op: Conn, e1: Expr, e2: Expr, v: Valuation)
    requires WellFormed(v)
    ensures var r := EliminateEqUnder(op, e1, e2);
            Value(r.0, v) <= Value(r.1, v) ==> Value(e1, v) <= Value(e2, v)
  {
    var r := EliminateEqUnder(op, e1, e2);
    hide WellFormed, EliminateEqUnder, Value, Equivalent;
    var c := EliminateEqUnderFactors(op, e1, e2);
    EquivalentAt(e1, Bin(op, c, r.0), v);
    EquivalentAt(e2, Bin(op, c, r.1), v);
    BinValue(op, c, r.0, v);
    BinValue(op, c, r.1, v);
  }

  lemma YesValue(v: Valuation)
    requires WellFormed(v)
    ensures Value(Sym(Yes), v) == YES && Value(Sym(No), v) == NO && Value(Sym(Mod), v) == MOD
  {}

  // ----- expr_join_or and expr_join_and -----

  /** The symbol that the first operand of a join is about (expr.c:353-363, 417-426). */
  function FirstSymbol(e: Expr): Option<Symbol> {
    match e
    case Sym(s) => Some(s)
    case Equal(a, _) => Some(a)
    case Unequal(a, _) => Some(a)
    case Not(x) => (match x
      case Sym(s) => Some(s)
      case Equal(a, _) => Some(a)
      case Unequal(a, _) => Some(a)
      case _ => None)
    case Bin(_, _, _) => None
  }

  /** The symbol that the second operand is about (expr.c:355-356, 364-369). */
  function SecondSymbol(e: Expr): Option<Symbol> {
    match e
    case Sym(s) => Some(s)
    case Equal(a, _) => Some(a)
    case Unequal(a, _) => Some(a)
    case Not(x) => if x.Sym? then Some(x.s) else None
    case Bin(_, _, _) => None
  }

  /** One operand compares with b and the other with c. */
  predicate Pair(x: Symbol, z: Symbol, b: Symbol, c: Symbol) {
    (x == b && z == c) || (x == c && z == b)
  }

  /** expr.c:346-408 */
  function JoinOr(e1: Expr, e2: Expr): Option<Expr> {
    if ExprEq(e1, e2) then Some(e1)
    else if FirstSymbol(e1).None? || FirstSymbol(e1) != SecondSymbol(e2) then None
    else
      var s := FirstSymbol(e1).value;
      if KindOf(s) == Tristate && e1.Equal? && e2.Equal? && Pair(e1.b, e2.b, Yes, Mod) then Some(Unequal(s, No))
      else if KindOf(s) == Tristate && e1.Equal? && e2.Equal? && Pair(e1.b, e2.b, Yes, No) then Some(Unequal(s, Mod))
      else if KindOf(s) == Tristate && e1.Equal? && e2.Equal? && Pair(e1.b, e2.b, Mod, No) then Some(Unequal(s, Yes))
      else if KindOf(s) == Boolean
        && ((e1.Not? && e1.e.Sym? && e2.Sym?) || (e2.Not? && e2.e.Sym? && e1.Sym?)) then Some(Sym(Yes))
      else None
  }

  /** One operand is the symbol itself, the other compares it with b. */
  predicate SymAndUnequal(e1: Expr, e2: Expr, b: Symbol) {
    (e1.Sym? && e2.Unequal? && e2.b == b) || (e2.Sym? && e1.Unequal? && e1.b == b)
  }

  predicate SymAndEqual(e1: Expr, e2: Expr, b: Symbol) {
    (e1.Sym? && e2.Equal? && e2.b == b) || (e2.Sym? && e1.Equal? && e1.b == b)
  }

  /** expr.c:410-502 */
  function JoinAnd(e1: Expr, e2: Expr): Option<Expr> {
    if ExprEq(e1, e2) then Some(e1)
    else if FirstSymbol(e1).None? || FirstSymbol(e1) != SecondSymbol(e2) then None
    else
      var s := FirstSymbol(e1).value;
      if KindOf(s) != Boolean && KindOf(s) != Tristate then None
      else if SymAndEqual(e1, e2, Yes) then Some(Equal(s, Yes))
      else if SymAndUnequal(e1, e2, No) then Some(Sym(s))
      else if SymAndUnequal(e1, e2, Mod) then Some(Equal(s, Yes))
      else if KindOf(s) != Tristate then None
      else if e1.Equal? && e2.Unequal? && IsConst(e2.b) && IsConst(e1.b) then
        Some(if e1.b != e2.b then Equal(s, e1.b) else Sym(No))
      else if e1.Unequal? && e2.Equal? && IsConst(e1.b) && IsConst(e2.b) then
        Some(if e2.b != e1.b then Equal(s, e2.b) else Sym(No))
      else if e1.Unequal? && e2.Unequal? && Pair(e1.b, e2.b, Yes, No) then Some(Equal(s, Mod))
      else if e1.Unequal? && e2.Unequal? && Pair(e1.b, e2.b, Yes, Mod) then Some(Equal(s, No))
      else if e1.Unequal? && e2.Unequal? && Pair(e1.b, e2.b, Mod, No) then Some(Equal(s, Yes))
      else None
  }

  function JoinTerms(op: Conn, e1: Expr, e2: Expr): Option<Expr> {
    if op == Or then JoinOr(e1, e2) else JoinAnd(e1, e2)
  }

  lemma JoinOrValue(e1: Expr, e2: Expr, v: Valuation)
    requires JoinOr(e1, e2).Some? && WellFormed(v)
    ensures Value(JoinOr(e1, e2).value, v) == Max(Value(e1, v), Value(e2, v))
  {
    if ExprEq(e1, e2) {
      ExprEqSound(e1, e2);
    } else {
      hide ExprEq;
      assert SymbolLaw(v, FirstSymbol(e1).value);
    }
  }

  lemma JoinAndValue(e1: Expr, e2: Expr, v: Valuation)
    requires JoinAnd(e1, e2).Some? && WellFormed(v)
    ensures Value(JoinAnd(e1, e2).value, v) == Min(Value(e1, v), Value(e2, v))
  {
    if ExprEq(e1, e2) {
      ExprEqSound(e1, e2);
    } else {
      hide ExprEq;
      assert SymbolLaw(v, FirstSymbol(e1).value);
      if (e1.Equal? && e2.Unequal?) || (e1.Unequal? && e2.Equal?) {
        assert ConstLaw(v, e1.b, e2.b);
      }
    }
  }

  /** Every rewrite of two joined terms is an equality of values, and saves a node. */
  lemma JoinTermsValue(op: Conn, e1: Expr, e2: Expr)
    requires JoinTerms(op, e1, e2).Some?
    ensures Equivalent(JoinTerms(op, e1, e2).value, Bin(op, e1, e2))
    ensures 1 + Size(JoinTerms(op, e1, e2).value) <= Size(e1) + Size(e2)
  {
    hide WellFormed, JoinOr, JoinAnd, ExprEq;
    forall v: Valuation | WellFormed(v)
      ensures Value(JoinTerms(op, e1, e2).value, v) == Value(Bin(op, e1, e2), v)
    {
      if op == Or {
        JoinOrValue(e1, e2, v);
      } else {
        JoinAndValue(e1, e2, v);
      }
    }
    JoinTermsSize(op, e1, e2);
  }

  lemma JoinTermsSize(op: Conn, e1: Expr, e2: Expr)
    requires JoinTerms(op, e1, e2).Some?
    ensures 1 + Size(JoinTerms(op, e1, e2).value) <= Size(e1) + Size(e2)
  {
    hide ExprEq;
  }
}
