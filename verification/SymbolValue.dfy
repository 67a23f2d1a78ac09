/** The memoised calculation of symbol values of tools/menuconfig/symbol.c, without choice symbols
    and ranges and for a fixed value of the symbol that enables modules.
  */
module SymbolValue {
  import opened KconfigExpr
  import opened Options
  import opened SymbolCheck

  // ----- the values that the dependencies ask for -----

  /** The configuration, the `depends on` conditions, and modules_val. */
  datatype System = System(g: Config, dirDep: Symbol -> Option<Expr>, modules: Tri)

  /** A value that the user has set: sym_has_value and def[S_DEF_USER]. */
  datatype UserValue = UserValue(tri: Tri, str: string)

  type User = map<Symbol, UserValue>

  predicate IsTristate(s: Symbol) { KindOf(s) == Boolean || KindOf(s) == Tristate }

  predicate IsString(s: Symbol) { KindOf(s) == Int || KindOf(s) == Hex || KindOf(s) == Str }

  /** sym_get_type(sym) == S_BOOLEAN (symbol.c:63-74) */
  predicate IsBoolean(sys: System, s: Symbol) {
    KindOf(s) == Boolean || (KindOf(s) == Tristate && sys.modules == NO)
  }

  /** The properties with a text: for_all_prompts. */
  predicate IsPrompt(p: Property) { p.kind == Prompt || p.kind == Comment || p.kind == Menu }

  function Condition(e: Option<Expr>, otherwise: Tri, v: Valuation): Tri {
    if e.Some? then Value(e.value, v) else otherwise
  }

  function Prompted(ps: seq<Property>, v: Valuation): Tri {
    if ps == [] then NO
    else
      var p := ps[|ps| - 1];
      Max(Prompted(ps[..|ps| - 1], v), if IsPrompt(p) then Condition(p.visible, YES, v) else NO)
  }

  /** sym->visible (symbol.c:194-204) */
  function Visible(sys: System, s: Symbol, v: Valuation): Tri {
    var t := Prompted(sys.g.props(s), v);
    if t == MOD && (KindOf(s) != Tristate || sys.modules == NO) then YES else t
  }

  /** sym->dir_dep.tri (symbol.c:208-216) */
  function DirDep(sys: System, s: Symbol, v: Valuation): Tri {
    var t := Condition(sys.dirDep(s), YES, v);
    if t == MOD then YES else t
  }

  /** sym->rev_dep.tri: the value that selects ask for (symbol.c:217-225). */
  function RevDep(sys: System, s: Symbol, v: Valuation): Tri {
    var t := Condition(sys.g.revDep(s), NO, v);
    if t == MOD && IsBoolean(sys, s) then YES else t
  }

  /** The default that applies: the first one that is visible (symbol.c:115-125). */
  function FirstDefault(ps: seq<Property>, v: Valuation): Option<Property> {
    if ps == [] then None
    else if ps[0].kind == Default && Condition(ps[0].visible, YES, v) != NO then Some(ps[0])
    else FirstDefault(ps[1..], v)
  }

  function DefaultTri(p: Option<Property>, v: Valuation): Tri {
    if p.Some? then Min(Condition(p.value.expr, YES, v), Condition(p.value.visible, YES, v)) else NO
  }

  /** The value of a boolean or tristate symbol (symbol.c:330-375). */
  function NewTri(sys: System, user: User, s: Symbol, v: Valuation): Tri {
    var visible := Visible(sys, s, v);
    var t := if visible != NO && s in user then Min(user[s].tri, visible)
             else DefaultTri(FirstDefault(sys.g.props(s), v), v);
    var u := Max(t, RevDep(sys, s, v));
    if u == MOD && IsBoolean(sys, s) then YES else u
  }

  /** curr.val of a symbol; that of a boolean or tristate symbol stays "n". */
  function RawString(s: Symbol, v: Valuation): string { if IsTristate(s) then "n" else v.str(s) }

  function DefaultString(p: Option<Property>, v: Valuation): string {
    if p.Some? && p.value.expr.Some? && p.value.expr.value.Sym? then RawString(p.value.expr.value.s, v) else ""
  }

  /** The value of a string, int or hex symbol (symbol.c:376-395). */
  function NewString(sys: System, user: User, s: Symbol, v: Valuation): string {
    if Visible(sys, s, v) != NO && s in user then user[s].str
    else DefaultString(FirstDefault(sys.g.props(s), v), v)
  }

  /** SYMBOL_WRITE: whether the symbol goes into the configuration file. */
  predicate Written(sys: System, user: User, s: Symbol, v: Valuation) {
    var visible := Visible(sys, s, v);
    var p := FirstDefault(sys.g.props(s), v);
    || visible != NO
    || (IsTristate(s) && (RevDep(sys, s, v) != NO || p.Some?))
    || (IsString(s) && p.Some? && p.value.expr.Some? && p.value.expr.value.Sym?)
  }

  function TriOf(sys: System, user: User, s: Symbol, v: Valuation): Tri {
    match s
    case Yes => YES
    case Mod => MOD
    case No => NO
    case Named(_, _, _) => if IsTristate(s) then NewTri(sys, user, s, v) else NO
  }

  /** sym_get_string_value (symbol.c:748-770) */
  function TriString(sys: System, t: Tri): string {
    if t == NO then "n" else if t == MOD then (if sys.modules == NO then "n" else "m") else "y"
  }

  function StringOf(sys: System, user: User, s: Symbol, v: Valuation): string {
    match s
    case Yes => "y"
    case Mod => "m"
    case No => "n"
    case Named(name, _, _) =>
      if IsTristate(s) then TriString(sys, NewTri(sys, user, s, v))
      else if IsString(s) then NewString(sys, user, s, v) else name
  }

  /** v gives every symbol the value that the values of the others ask for. */
  ghost predicate Solves(sys: System, user: User, v: Valuation) {
    forall s :: SolvesAt(sys, user, v, s)
  }

  ghost predicate SolvesAt(sys: System, user: User, v: Valuation, s: Symbol) {
    v.tri(s) == TriOf(sys, user, s, v) && v.str(s) == StringOf(sys, user, s, v)
  }

  // ----- an acyclic configuration has exactly one solution -----

  /** The symbols that the calculation of s asks for. */
  function Needs(sys: System, s: Symbol): seq<Symbol> {
    Deps(sys.g, s) + OptionSymbols(sys.dirDep(s))
  }

  ghost predicate Below(sys: System, rank: Symbol -> nat, s: Symbol) {
    forall d :: d in Needs(sys, s) ==> rank(d) < rank(s)
  }

  ghost predicate Acyclic(sys: System, rank: Symbol -> nat) {
    forall s :: Below(sys, rank, s)
  }

  ghost predicate Agree(v: Valuation, w: Valuation, ss: seq<Symbol>) {
    forall s :: s in ss ==> v.tri(s) == w.tri(s) && v.str(s) == w.str(s)
  }

  lemma {:induction false} ValueAgrees(e: Expr, v: Valuation, w: Valuation)
    requires Agree(v, w, ExprSymbols(e))
    ensures Value(e, v) == Value(e, w)
  {
    match e
    case Not(x) => ValueAgrees(x, v, w);
    case Bin(_, l, r) =>
      ValueAgrees(l, v, w);
      ValueAgrees(r, v, w);
    case _ =>
  }

  lemma ConditionAgrees(e: Option<Expr>, otherwise: Tri, v: Valuation, w: Valuation)
    requires Agree(v, w, OptionSymbols(e))
    ensures Condition(e, otherwise, v) == Condition(e, otherwise, w)
  {
    if e.Some? { ValueAgrees(e.value, v, w); }
  }

  ghost predicate PropertiesAgree(v: Valuation, w: Valuation, ps: seq<Property>) {
    forall i :: 0 <= i < |ps| ==> Agree(v, w, PropertySymbols(ps[i]))
  }

  lemma PropertyAgrees(p: Property, v: Valuation, w: Valuation)
    requires Agree(v, w, PropertySymbols(p))
    ensures IsPrompt(p) || p.kind == Default ==> Condition(p.visible, YES, v) == Condition(p.visible, YES, w)
    ensures p.kind == Default ==> Agree(v, w, OptionSymbols(p.expr))
  {
    if p.kind != Choice && p.kind != Select { ConditionAgrees(p.visible, YES, v, w); }
  }

  lemma {:induction false} PromptedAgrees(ps: seq<Property>, v: Valuation, w: Valuation)
    requires PropertiesAgree(v, w, ps)
    ensures Prompted(ps, v) == Prompted(ps, w)
  {
    hide Condition, Agree;
    if ps != [] {
      PropertyAgrees(ps[|ps| - 1], v, w);
      PromptedAgrees(ps[..|ps| - 1], v, w);
    }
  }

  lemma {:induction false} DefaultAgrees(ps: seq<Property>, v: Valuation, w: Valuation)
    requires PropertiesAgree(v, w, ps)
    ensures FirstDefault(ps, v) == FirstDefault(ps, w)
    ensures var p := FirstDefault(ps, v);
            DefaultTri(p, v) == DefaultTri(p, w) && DefaultString(p, v) == DefaultString(p, w)
  {
    if ps != [] {
      hide Condition, RawString;
      PropertyAgrees(ps[0], v, w);
      if ps[0].kind == Default {
        ConditionAgrees(ps[0].expr, YES, v, w);
        DefaultStringAgrees(ps[0], v, w);
      }
      DefaultAgrees(ps[1..], v, w);
    }
  }

  lemma DefaultStringAgrees(p: Property, v: Valuation, w: Valuation)
    requires Agree(v, w, OptionSymbols(p.expr))
    ensures DefaultString(Some(p), v) == DefaultString(Some(p), w)
  {
    if p.expr.Some? && p.expr.value.Sym? {
      assert p.expr.value.s in OptionSymbols(p.expr);
    }
  }

  lemma NeedsSplit(sys: System, s: Symbol, v: Valuation, w: Valuation)
    requires Agree(v, w, Needs(sys, s))
    ensures Agree(v, w, OptionSymbols(sys.g.revDep(s))) && Agree(v, w, OptionSymbols(sys.dirDep(s)))
    ensures PropertiesAgree(v, w, sys.g.props(s))
  {
    var ps := sys.g.props(s);
    forall i | 0 <= i < |ps|
      ensures Agree(v, w, PropertySymbols(ps[i]))
    {
      PropertyOf(ps, i);
    }
  }

  /** What is asked for depends only on the symbols that are asked. */
  lemma StepAgrees(sys: System, user: User, s: Symbol, v: Valuation, w: Valuation)
    requires Agree(v, w, Needs(sys, s))
    ensures TriOf(sys, user, s, v) == TriOf(sys, user, s, w)
    ensures StringOf(sys, user, s, v) == StringOf(sys, user, s, w)
    ensures Visible(sys, s, v) == Visible(sys, s, w) && RevDep(sys, s, v) == RevDep(sys, s, w)
  {
    NeedsSplit(sys, s, v, w);
    hide Agree, Needs, PropertiesAgree, Condition, Prompted, FirstDefault, DefaultTri, DefaultString;
    PromptedAgrees(sys.g.props(s), v, w);
    DefaultAgrees(sys.g.props(s), v, w);
    ConditionAgrees(sys.g.revDep(s), NO, v, w);
  }

  /** The value of a symbol by direct recursion, without any memory. */
  ghost function DirectTri(sys: System, user: User, rank: Symbol -> nat, s: Symbol): Tri
    decreases rank(s), 1
  {
    TriOf(sys, user, s, Direct(sys, user, rank, rank(s)))
  }

  ghost function DirectString(sys: System, user: User, rank: Symbol -> nat, s: Symbol): string
    decreases rank(s), 1
  {
    StringOf(sys, user, s, Direct(sys, user, rank, rank(s)))
  }

  /** The direct values of the symbols of a rank below r. */
  ghost function Direct(sys: System, user: User, rank: Symbol -> nat, r: nat): Valuation
    decreases r, 0
  {
    Valuation(
      s => if rank(s) < r then DirectTri(sys, user, rank, s) else NO,
      s => if rank(s) < r then DirectString(sys, user, rank, s) else "")
  }

  ghost function Solution(sys: System, user: User, rank: Symbol -> nat): Valuation {
    Valuation(s => DirectTri(sys, user, rank, s), s => DirectString(sys, user, rank, s))
  }

  lemma SolutionSolves(sys: System, user: User, rank: Symbol -> nat)
    requires Acyclic(sys, rank)
    ensures Solves(sys, user, Solution(sys, user, rank))
  {
    hide TriOf, StringOf, Needs;
    var v := Solution(sys, user, rank);
    forall s
      ensures SolvesAt(sys, user, v, s)
    {
      assert Below(sys, rank, s);
      StepAgrees(sys, user, s, v, Direct(sys, user, rank, rank(s)));
    }
  }

  predicate SameSetting(user1: User, user2: User, s: Symbol) {
    (s in user1 <==> s in user2) && (s in user1 ==> user1[s] == user2[s])
  }

  /** Two users who agree on the symbols below r get the same values there. */
  lemma {:induction false} SolutionUnique(sys: System, user1: User, user2: User, rank: Symbol -> nat, v: Valuation, w: Valuation, s: Symbol, r: nat)
    requires Acyclic(sys, rank) && Solves(sys, user1, v) && Solves(sys, user2, w)
    requires forall t :: rank(t) < r ==> SameSetting(user1, user2, t)
    requires rank(s) < r
    ensures v.tri(s) == w.tri(s) && v.str(s) == w.str(s)
    decreases rank(s)
  {
    hide Needs;
    assert Below(sys, rank, s);
    forall d | d in Needs(sys, s)
      ensures v.tri(d) == w.tri(d) && v.str(d) == w.str(d)
    {
      SolutionUnique(sys, user1, user2, rank, v, w, d, r);
    }
    assert SolvesAt(sys, user1, v, s) && SolvesAt(sys, user2, w, s);
    StepAgrees(sys, user1, s, v, w);
    SameUser(sys, user1, user2, s, w);
  }

  lemma SameUser(sys: System, user1: User, user2: User, s: Symbol, v: Valuation)
    requires SameSetting(user1, user2, s)
    ensures TriOf(sys, user1, s, v) == TriOf(sys, user2, s, v) && StringOf(sys, user1, s, v) == StringOf(sys, user2, s, v)
  {
    hide Visible, RevDep, FirstDefault, DefaultTri, DefaultString;
  }

  /** A boolean symbol is never m, and the string of a tristate symbol is that of its value. */
  lemma SolutionLaw(sys: System, user: User, v: Valuation, s: Symbol)
    requires Solves(sys, user, v)
    ensures SymbolLaw(v, s)
  {
    hide Visible, FirstDefault, DefaultTri, DefaultString, RevDep;
    assert SolvesAt(sys, user, v, s);
  }

  lemma SolutionConst(sys: System, user: User, v: Valuation, s: Symbol, t: Symbol)
    requires Solves(sys, user, v)
    ensures ConstLaw(v, s, t)
  {
    hide Visible, FirstDefault, DefaultTri, DefaultString, RevDep;
    assert SolvesAt(sys, user, v, s) && SolvesAt(sys, user, v, t);
  }

  /** What the calculation arrives at is what the rewriting of expressions relies on. */
  lemma SolutionWellFormed(sys: System, user: User, v: Valuation)
    requires Solves(sys, user, v)
    ensures WellFormed(v)
  {
    assert SolvesAt(sys, user, v, Yes) && SolvesAt(sys, user, v, Mod) && SolvesAt(sys, user, v, No);
    hide Solves, SolvesAt, SymbolLaw, ConstLaw;
    forall s
      ensures SymbolLaw(v, s)
    {
      SolutionLaw(sys, user, v, s);
    }
    forall s, t
      ensures ConstLaw(v, s, t)
    {
      SolutionConst(sys, user, v, s, t);
    }
  }

  // ----- what a user value does -----

  /** The values that sym_tristate_within_range admits (symbol.c:462-479). */
  predicate Allows(sys: System, s: Symbol, v: Valuation, val: Tri) {
    && Visible(sys, s, v) != NO && IsTristate(s) && !(IsBoolean(sys, s) && val == MOD)
    && Visible(sys, s, v) > RevDep(sys, s, v)
    && RevDep(sys, s, v) <= val <= Visible(sys, s, v)
  }

  /** Setting a symbol changes nothing that the symbol asks for. */
  lemma AskedUnchanged(sys: System, rank: Symbol -> nat, user: User, v: Valuation, w: Valuation, s: Symbol, set_: UserValue)
    requires Acyclic(sys, rank) && Solves(sys, user, v) && Solves(sys, user[s := set_], w)
    ensures Visible(sys, s, v) == Visible(sys, s, w) && RevDep(sys, s, v) == RevDep(sys, s, w)
  {
    hide Needs, Visible, RevDep;
    assert Below(sys, rank, s);
    forall d | d in Needs(sys, s)
      ensures v.tri(d) == w.tri(d) && v.str(d) == w.str(d)
    {
      SolutionUnique(sys, user, user[s := set_], rank, v, w, d, rank(s));
    }
    StepAgrees(sys, user, s, v, w);
  }

  /** For a symbol that can be changed, the next calculation gives exactly the value set if and only if
      the value is within range. */
  lemma SetExact(sys: System, rank: Symbol -> nat, user: User, v: Valuation, w: Valuation, s: Symbol, set_: UserValue)
    requires Acyclic(sys, rank) && Solves(sys, user, v) && Solves(sys, user[s := set_], w)
    requires IsTristate(s) && Visible(sys, s, v) > RevDep(sys, s, v)
    ensures w.tri(s) == set_.tri <==> Allows(sys, s, v, set_.tri)
  {
    AskedUnchanged(sys, rank, user, v, w, s, set_);
    hide Prompted, Condition, FirstDefault, DefaultTri, StringOf;
    assert SolvesAt(sys, user[s := set_], w, s);
  }

  /** Setting a symbol to the value it has leaves all values as they are, which is what the source
      relies on when it then keeps them, if and only if the value is no more than the visibility,
      or comes from a select, or the symbol is invisible. */
  lemma SetSame(sys: System, rank: Symbol -> nat, user: User, v: Valuation, s: Symbol, set_: UserValue)
    requires Acyclic(sys, rank) && Solves(sys, user, v)
    requires IsTristate(s) && set_.tri == v.tri(s)
    ensures Solves(sys, user[s := set_], v)
       <==> (Visible(sys, s, v) == NO || v.tri(s) <= Visible(sys, s, v) || v.tri(s) == RevDep(sys, s, v))
  {
    var user' := user[s := set_];
    assert SolvesAt(sys, user, v, s);
    assert NewTri(sys, user', s, v) == v.tri(s) <==>
      (Visible(sys, s, v) == NO || v.tri(s) <= Visible(sys, s, v) || v.tri(s) == RevDep(sys, s, v)) by {
      hide Prompted, Condition, FirstDefault, DefaultTri;
    }
    hide NewTri, Visible, RevDep, NewString, TriString;
    if NewTri(sys, user', s, v) == v.tri(s) {
      forall t
        ensures SolvesAt(sys, user', v, t)
      {
        assert SolvesAt(sys, user, v, t);
        if t != s {
          SameUser(sys, user, user', t, v);
        }
      }
    } else {
      assert !SolvesAt(sys, user', v, s);
    }
  }

  /** A prompt that is visible as m, and a default of y that always applies. */
  function PromptBelowDefault(s: Symbol): System {
    System(Config(_ => None, t => if t == s then
                                    [Property(Prompt, Some(Sym(Mod)), None), Property(Default, None, Some(Sym(Yes)))]
                                  else []),
           _ => None, YES)
  }

  /** There the value is y; once the user has set y it would be m, but the y is kept. */
  lemma StaleAfterSet(s: Symbol, v: Valuation, set_: UserValue)
    requires s.Named? && s.kind == Tristate && set_.tri == YES
    requires Solves(PromptBelowDefault(s), map[], v)
    ensures v.tri(s) == YES && !Solves(PromptBelowDefault(s), map[s := set_], v)
  {
    var sys := PromptBelowDefault(s);
    var ps := sys.g.props(s);
    assert SolvesAt(sys, map[], v, s) && SolvesAt(sys, map[], v, Yes) && SolvesAt(sys, map[], v, Mod);
    PromptOf(ps, v);
    DefaultOf(ps, v);
    assert NewTri(sys, map[], s, v) == YES;
    assert NewTri(sys, map[s := set_], s, v) == MOD;
    assert !SolvesAt(sys, map[s := set_], v, s);
  }

  lemma DefaultOf(ps: seq<Property>, v: Valuation)
    requires |ps| == 2 && ps[0].kind == Prompt && ps[1] == Property(Default, None, Some(Sym(Yes))) && v.tri(Yes) == YES
    ensures DefaultTri(FirstDefault(ps, v), v) == YES
  {
    assert ps[1..][0] == ps[1];
    assert FirstDefault(ps[1..], v) == Some(ps[1]);
  }

  lemma PromptOf(ps: seq<Property>, v: Valuation)
    requires |ps| == 2 && ps[0] == Property(Prompt, Some(Sym(Mod)), None) && ps[1].kind == Default && v.tri(Mod) == MOD
    ensures Prompted(ps, v) == MOD
  {
    assert ps[..1] == [ps[0]] && ps[..1][..0] == [];
    assert Prompted([], v) == NO;
    assert Prompted(ps[..1], v) == MOD;
  }

  // ----- the symbol table -----

  /** The fields of a symbol that the calculation keeps. */
  datatype Entry = Entry(valid: bool, tri: Tri, val: string, visible: Tri, dirDep: Tri, revDep: Tri, write: bool)

  /** A valid entry holds what the solution says. */
  ghost predicate Right(sys: System, user: User, v: Valuation, s: Symbol, x: Entry) {
    && x.valid && x.tri == v.tri(s) && x.val == RawString(s, v)
    && (IsTristate(s) || IsString(s) ==>
          && x.visible == Visible(sys, s, v) && x.dirDep == DirDep(sys, s, v) && x.revDep == RevDep(sys, s, v)
          && x.write == Written(sys, user, s, v))
  }

  ghost predicate ClosedUnder(sys: System, symbols: set<Symbol>) {
    forall s :: s in symbols ==> s.Named? && forall d :: d in Needs(sys, s) && d.Named? ==> d in symbols
  }

  /** Symbols of a rank below r; but for the constants, they are in the table. */
  ghost predicate AllBelow(ds: seq<Symbol>, symbols: set<Symbol>, rank: Symbol -> nat, r: nat) {
    forall d :: d in ds ==> rank(d) < r && (d.Named? ==> d in symbols)
  }

  class SymbolTable {
    const sys: System
    ghost const rank: Symbol -> nat
    var user: User
    var st: map<Symbol, Entry>

    constructor (sys: System, ghost rank: Symbol -> nat, user: User, st: map<Symbol, Entry>)
      ensures this.sys == sys && this.rank == rank && this.user == user && this.st == st
    {
      this.sys, this.rank, this.user, this.st := sys, rank, user, st;
    }

    /** The configuration has no cycle, and every symbol that is asked for is in the table; the
        three constants have their values outside of it. */
    ghost predicate Shape()
      reads this
    {
      Acyclic(sys, rank) && ClosedUnder(sys, st.Keys)
    }

    predicate Known(s: Symbol)
      reads this
    {
      s.Named? ==> s in st
    }

    /** The valid entries of a rank below r are right. */
    ghost predicate Sound(v: Valuation, r: nat)
      reads this
    {
      forall s :: s in st && rank(s) < r && st[s].valid ==> Right(sys, user, v, s, st[s])
    }

    /** Only invalid entries of a rank below r have changed since before. */
    ghost predicate Kept(before: map<Symbol, Entry>, r: nat)
      reads this
    {
      && st.Keys == before.Keys
      && forall s :: s in before && (rank(s) >= r || before[s].valid) ==> st[s] == before[s]
    }

    /** While s is calculated: like Kept, but for the entry of s. */
    ghost predicate KeptBut(before: map<Symbol, Entry>, s: Symbol)
      reads this
    {
      && st.Keys == before.Keys
      && forall t :: t in before && t != s && (rank(t) >= rank(s) || before[t].valid) ==> st[t] == before[t]
    }

    function TriNow(s: Symbol): Tri
      requires Known(s)
      reads this
    {
      match s case Yes => YES case Mod => MOD case No => NO case Named(_, _, _) => st[s].tri
    }

    /** sym_get_string_value (symbol.c:748-770) */
    function StringNow(s: Symbol): string
      requires Known(s)
      reads this
    {
      match s
      case Yes => "y"
      case Mod => "m"
      case No => "n"
      case Named(_, _, _) => if IsTristate(s) then TriString(sys, st[s].tri) else st[s].val
    }

    /** A calculated symbol has the value of the solution. */
    lemma ValueNow(v: Valuation, s: Symbol)
      requires Known(s) && Solves(sys, user, v)
      requires s.Named? ==> Right(sys, user, v, s, st[s])
      ensures TriNow(s) == v.tri(s) && StringNow(s) == v.str(s)
    {
      hide Visible, DirDep, RevDep, Written, NewTri, NewString;
      assert SolvesAt(sys, user, v, s);
    }

    /** expr_calc_value (expr.c:938-977) */
    method CalcExpr(e: Expr, ghost v: Valuation, ghost r: nat) returns (t: Tri)
      requires Shape() && Solves(sys, user, v) && Sound(v, r)
      requires AllBelow(ExprSymbols(e), st.Keys, rank, r)
      modifies this`st
      ensures t == Value(e, v)
      ensures Shape() && Sound(v, r) && Kept(old(st), r)
      decreases r, 1, e
    {
      hide Right, Solves, Needs, Acyclic;
      match e
      case Sym(s) =>
        Calc(s, v, r);
        t := TriNow(s);
      case Not(x) =>
        t := CalcExpr(x, v, r);
        t := 2 - t;
      case Bin(op, a, b) =>
        var t1 := CalcExpr(a, v, r);
        var t2 := CalcExpr(b, v, r);
        t := Join(op, t1, t2);
      case Equal(a, b) =>
        Calc(a, v, r);
        ghost var now := StringNow(a);
        Calc(b, v, r);
        StillCalculated(v, a);
        t := if StringNow(a) == StringNow(b) then YES else NO;
      case Unequal(a, b) =>
        Calc(a, v, r);
        Calc(b, v, r);
        StillCalculated(v, a);
        t := if StringNow(a) == StringNow(b) then NO else YES;
    }

    lemma StillCalculated(v: Valuation, s: Symbol)
      requires Known(s) && Solves(sys, user, v) && (s.Named? ==> st[s].valid) && Sound(v, rank(s) + 1)
      ensures TriNow(s) == v.tri(s) && StringNow(s) == v.str(s)
    {
      hide Right, Solves;
      ValueNow(v, s);
    }

    /** sym_calc_value for a symbol of a rank below r; the constants are always valid. */
    method Calc(s: Symbol, ghost v: Valuation, ghost r: nat)
      requires Shape() && Solves(sys, user, v) && Sound(v, r)
      requires rank(s) < r && Known(s)
      modifies this`st
      ensures Shape() && Sound(v, r) && Kept(old(st), r)
      ensures Known(s) && (s.Named? ==> st[s].valid)
      ensures TriNow(s) == v.tri(s) && StringNow(s) == v.str(s)
      decreases r, 0
    {
      hide Right, Solves, Needs, Acyclic;
      if s.Named? {
        CalcValue(s, v);
      }
      StillCalculated(v, s);
    }

    /** A condition of a symbol s that is being calculated. */
    method CalcCondition(e: Option<Expr>, otherwise: Tri, ghost v: Valuation, ghost r: nat) returns (t: Tri)
      requires Shape() && Solves(sys, user, v) && Sound(v, r)
      requires AllBelow(OptionSymbols(e), st.Keys, rank, r)
      modifies this`st
      ensures t == Condition(e, otherwise, v)
      ensures Shape() && Sound(v, r) && Kept(old(st), r)
      decreases r, 2
    {
      hide Right, Solves, Needs, Acyclic;
      t := otherwise;
      if e.Some? {
        t := CalcExpr(e.value, v, r);
      }
    }

    /** The symbols of the conditions of s have a lower rank. */
    lemma Lower(s: Symbol)
      requires Shape() && s in st
      ensures AllBelow(OptionSymbols(sys.g.revDep(s)), st.Keys, rank, rank(s)) && AllBelow(OptionSymbols(sys.dirDep(s)), st.Keys, rank, rank(s))
      ensures forall i :: 0 <= i < |sys.g.props(s)| ==> AllBelow(PropertySymbols(sys.g.props(s)[i]), st.Keys, rank, rank(s))
    {
      assert Below(sys, rank, s);
      forall i | 0 <= i < |sys.g.props(s)|
        ensures Within(PropertySymbols(sys.g.props(s)[i]), Needs(sys, s))
      {
        PropertyOf(sys.g.props(s), i);
      }
    }

    lemma LowerProperty(s: Symbol, i: nat)
      requires Shape() && s in st && i < |sys.g.props(s)|
      requires IsPrompt(sys.g.props(s)[i]) || sys.g.props(s)[i].kind == Default
      ensures AllBelow(OptionSymbols(sys.g.props(s)[i].visible), st.Keys, rank, rank(s))
      ensures sys.g.props(s)[i].kind == Default ==> AllBelow(OptionSymbols(sys.g.props(s)[i].expr), st.Keys, rank, rank(s))
    {
      Lower(s);
    }

    /** The prompts of s (symbol.c:194-198). */
    method CalcPrompts(s: Symbol, ghost v: Valuation) returns (t: Tri)
      requires Shape() && s in st && Solves(sys, user, v) && Sound(v, rank(s))
      modifies this`st
      ensures t == Prompted(sys.g.props(s), v)
      ensures Shape() && Sound(v, rank(s)) && Kept(old(st), rank(s))
      decreases rank(s), 3
    {
      hide Right, Solves, Needs, Acyclic, Condition, Sound, Shape, AllBelow, OptionSymbols;
      var ps := sys.g.props(s);
      t := NO;
      for i := 0 to |ps|
        invariant t == Prompted(ps[..i], v)
        invariant Shape() && Sound(v, rank(s)) && Kept(old(st), rank(s))
      {
        assert ps[..i + 1][..i] == ps[..i];
        if IsPrompt(ps[i]) {
          LowerProperty(s, i);
          var u := CalcCondition(ps[i].visible, YES, v, rank(s));
          t := Max(t, u);
        }
      }
      assert ps[..|ps|] == ps;
    }

    /** sym_get_default_prop (symbol.c:115-125) */
    method CalcDefault(s: Symbol, ghost v: Valuation) returns (p: Option<Property>, visible: Tri)
      requires Shape() && s in st && Solves(sys, user, v) && Sound(v, rank(s))
      modifies this`st
      ensures p == FirstDefault(sys.g.props(s), v)
      ensures p.Some? ==> visible == Condition(p.value.visible, YES, v)
      ensures p.Some? ==> AllBelow(OptionSymbols(p.value.expr), st.Keys, rank, rank(s))
      ensures Shape() && Sound(v, rank(s)) && Kept(old(st), rank(s))
      decreases rank(s), 3
    {
      hide Right, Solves, Needs, Acyclic, Condition, Sound, Shape, AllBelow, OptionSymbols;
      var ps := sys.g.props(s);
      assert ps[0..] == ps;
      for i := 0 to |ps|
        invariant FirstDefault(ps, v) == FirstDefault(ps[i..], v)
        invariant Shape() && Sound(v, rank(s)) && Kept(old(st), rank(s))
      {
        assert ps[i..][0] == ps[i] && ps[i..][1..] == ps[i + 1..];
        if ps[i].kind == Default {
          LowerProperty(s, i);
          visible := CalcCondition(ps[i].visible, YES, v, rank(s));
          if visible != NO {
            LowerProperty(s, i);
            return Some(ps[i]), visible;
          }
        }
      }
      return None, NO;
    }

    /** While s is calculated: the entry of s, and what is known of the others. */
    ghost predicate Calculating(v: Valuation, s: Symbol, before: map<Symbol, Entry>, x: Entry)
      reads this
    {
      Shape() && s in st && Sound(v, rank(s)) && KeptBut(before, s) && st[s] == x
    }

    lemma AskedOthers(v: Valuation, s: Symbol, before: map<Symbol, Entry>, mid: map<Symbol, Entry>)
      requires Shape() && Sound(v, rank(s)) && Kept(mid, rank(s))
      requires s in mid && mid.Keys == before.Keys
      requires forall t :: t in before && t != s && (rank(t) >= rank(s) || before[t].valid) ==> mid[t] == before[t]
      ensures Calculating(v, s, before, mid[s])
    {
      hide Right, Acyclic, Needs;
    }

    /** A field of s is written. */
    method Store(s: Symbol, x: Entry, ghost v: Valuation, ghost before: map<Symbol, Entry>)
      requires s in st && Calculating(v, s, before, st[s])
      modifies this`st
      ensures Calculating(v, s, before, x)
    {
      hide Right, Acyclic, Needs;
      ghost var was := st;
      st := st[s := x];
      assert st.Keys == was.Keys;
      assert forall t :: t in was && t != s ==> st[t] == was[t];
      assert Sound(v, rank(s));
    }

    /** A condition that s asks for. */
    method AskCondition(s: Symbol, e: Option<Expr>, otherwise: Tri, ghost v: Valuation, ghost before: map<Symbol, Entry>) returns (t: Tri)
      requires s in st && Calculating(v, s, before, st[s]) && Solves(sys, user, v)
      requires AllBelow(OptionSymbols(e), st.Keys, rank, rank(s))
      modifies this`st
      ensures t == Condition(e, otherwise, v)
      ensures Calculating(v, s, before, old(st[s]))
      decreases rank(s), 4
    {
      hide Right, Solves, Needs, Acyclic, Condition;
      ghost var mid := st;
      t := CalcCondition(e, otherwise, v, rank(s));
      AskedOthers(v, s, before, mid);
    }

    method AskPrompts(s: Symbol, ghost v: Valuation, ghost before: map<Symbol, Entry>) returns (t: Tri)
      requires s in st && Calculating(v, s, before, st[s]) && Solves(sys, user, v)
      modifies this`st
      ensures t == Prompted(sys.g.props(s), v)
      ensures Calculating(v, s, before, old(st[s]))
      decreases rank(s), 4
    {
      hide Right, Solves, Needs, Acyclic, Prompted;
      ghost var mid := st;
      t := CalcPrompts(s, v);
      AskedOthers(v, s, before, mid);
    }

    /** sym_calc_visibility (symbol.c:188-226) */
    method CalcVisibility(s: Symbol, ghost v: Valuation, ghost before: map<Symbol, Entry>)
      requires s in st && Calculating(v, s, before, st[s]) && Solves(sys, user, v)
      modifies this`st
      ensures Calculating(v, s, before, old(st[s]).(visible := Visible(sys, s, v), dirDep := DirDep(sys, s, v), revDep := RevDep(sys, s, v)))
      decreases rank(s), 6
    {
      hide Right, Solves, Needs, Acyclic, Condition, Prompted, Sound, KeptBut, Shape, DirDep, RevDep;
      var t := AskPrompts(s, v, before);
      if t == MOD && (KindOf(s) != Tristate || sys.modules == NO) {
        t := YES;
      }
      Store(s, st[s].(visible := t), v, before);
      CalcDirDep(s, v, before);
      CalcRevDep(s, v, before);
    }

    /** symbol.c:208-216 */
    method CalcDirDep(s: Symbol, ghost v: Valuation, ghost before: map<Symbol, Entry>)
      requires s in st && Calculating(v, s, before, st[s]) && Solves(sys, user, v)
      modifies this`st
      ensures Calculating(v, s, before, old(st[s]).(dirDep := DirDep(sys, s, v)))
      decreases rank(s), 5
    {
      hide Right, Solves, Needs, Acyclic, Condition, Sound, KeptBut, Shape, AllBelow, OptionSymbols;
      Lower(s);
      var t := AskCondition(s, sys.dirDep(s), YES, v, before);
      if t == MOD {
        t := YES;
      }
      Store(s, st[s].(dirDep := t), v, before);
    }

    /** symbol.c:217-225 */
    method CalcRevDep(s: Symbol, ghost v: Valuation, ghost before: map<Symbol, Entry>)
      requires s in st && Calculating(v, s, before, st[s]) && Solves(sys, user, v)
      modifies this`st
      ensures Calculating(v, s, before, old(st[s]).(revDep := RevDep(sys, s, v)))
      decreases rank(s), 5
    {
      hide Right, Solves, Needs, Acyclic, Condition, Sound, KeptBut, Shape, AllBelow, OptionSymbols;
      Lower(s);
      var t := AskCondition(s, sys.g.revDep(s), NO, v, before);
      if t == MOD && IsBoolean(sys, s) {
        t := YES;
      }
      Store(s, st[s].(revDep := t), v, before);
    }

    /** The value of a default that applies, evaluated now. */
    method CalcDefaultTri(s: Symbol, ghost v: Valuation, ghost before: map<Symbol, Entry>) returns (found: bool, t: Tri)
      requires s in st && Calculating(v, s, before, st[s]) && Solves(sys, user, v)
      modifies this`st
      ensures Calculating(v, s, before, old(st[s]))
      ensures found == FirstDefault(sys.g.props(s), v).Some?
      ensures t == DefaultTri(FirstDefault(sys.g.props(s), v), v)
      decreases rank(s), 4
    {
      hide Right, Solves, Needs, Acyclic, Condition, FirstDefault;
      ghost var mid := st;
      var p, visible := CalcDefault(s, v);
      AskedOthers(v, s, before, mid);
      found, t := p.Some?, NO;
      if p.Some? {
        mid := st;
        t := CalcCondition(p.value.expr, YES, v, rank(s));
        AskedOthers(v, s, before, mid);
        t := Min(t, visible);
      }
    }

    /** symbol.c:330-375 */
    method CalcTri(s: Symbol, ghost v: Valuation, ghost before: map<Symbol, Entry>) returns (t: Tri)
      requires s in st && Calculating(v, s, before, st[s]) && Solves(sys, user, v) && IsTristate(s)
      requires st[s].visible == Visible(sys, s, v) && st[s].revDep == RevDep(sys, s, v) && !st[s].write
      modifies this`st
      ensures t == NewTri(sys, user, s, v)
      ensures Calculating(v, s, before, old(st[s]).(write := Written(sys, user, s, v)))
      decreases rank(s), 5
    {
      hide Right, Solves, Needs, Acyclic, FirstDefault, DefaultTri, Visible, RevDep;
      if st[s].visible != NO {
        Store(s, st[s].(write := true), v, before);
      }
      if st[s].visible != NO && s in user {
        t := Min(user[s].tri, st[s].visible);
      } else {
        if st[s].revDep != NO {
          Store(s, st[s].(write := true), v, before);
        }
        var found;
        found, t := CalcDefaultTri(s, v, before);
        if found {
          Store(s, st[s].(write := true), v, before);
        } else {
          NoDefault(sys.g.props(s), v);
        }
      }
      t := Max(t, st[s].revDep);
      if t == MOD && IsBoolean(sys, s) {
        t := YES;
      }
    }

    /** symbol.c:376-395 */
    method CalcString(s: Symbol, ghost v: Valuation, ghost before: map<Symbol, Entry>) returns (val: string)
      requires s in st && Calculating(v, s, before, st[s]) && Solves(sys, user, v) && IsString(s)
      requires st[s].visible == Visible(sys, s, v) && !st[s].write
      modifies this`st
      ensures val == NewString(sys, user, s, v)
      ensures Calculating(v, s, before, old(st[s]).(write := Written(sys, user, s, v)))
      decreases rank(s), 5
    {
      hide Right, Solves, Needs, Acyclic, FirstDefault, Visible, RawString, Condition;
      if st[s].visible != NO {
        Store(s, st[s].(write := true), v, before);
        if s in user {
          return user[s].str;
        }
      }
      ghost var mid := st;
      var p, visible := CalcDefault(s, v);
      AskedOthers(v, s, before, mid);
      val := "";
      if p.Some? && p.value.expr.Some? && p.value.expr.value.Sym? {
        var ds := p.value.expr.value.s;
        Store(s, st[s].(write := true), v, before);
        mid := st;
        assert ds in OptionSymbols(p.value.expr);
        Calc(ds, v, rank(s));
        AskedOthers(v, s, before, mid);
        val := if ds.Named? then st[ds].val else StringNow(ds);
        RawNow(v, ds);
      }
    }

    lemma RawNow(v: Valuation, s: Symbol)
      requires Known(s) && Solves(sys, user, v) && (s.Named? ==> st[s].valid) && Sound(v, rank(s) + 1)
      ensures (if s.Named? then st[s].val else StringNow(s)) == RawString(s, v)
    {
      hide Solves, Visible, DirDep, RevDep, Written;
      StillCalculated(v, s);
    }

    /** sym_calc_value (symbol.c:292-428) */
    method CalcValue(s: Symbol, ghost v: Valuation)
      requires Shape() && s in st && Solves(sys, user, v) && Sound(v, rank(s) + 1)
      modifies this`st
      ensures Shape() && Sound(v, rank(s) + 1) && Kept(old(st), rank(s) + 1)
      ensures s in st && st[s].valid
      decreases rank(s), 7
    {
      if st[s].valid {
        return;
      }
      ghost var before := st;
      hide Right, Needs, Acyclic, Solves, NewTri, NewString, Visible, DirDep, RevDep, Written;
      Store(s, st[s].(valid := true), v, before);
      if !IsTristate(s) && !IsString(s) {
        Store(s, st[s].(val := s.name, tri := NO), v, before);
        OtherRight(sys, user, v, s, st[s]);
      } else {
        Store(s, st[s].(write := false), v, before);
        CalcVisibility(s, v, before);
        Store(s, st[s].(tri := NO, val := if IsTristate(s) then "n" else ""), v, before);
        if IsTristate(s) {
          var t := CalcTri(s, v, before);
          Store(s, st[s].(tri := t), v, before);
        } else {
          var val := CalcString(s, v, before);
          Store(s, st[s].(val := val), v, before);
        }
        NewRight(sys, user, v, s, st[s]);
      }
      Calculated(v, s, before);
    }

    lemma Calculated(v: Valuation, s: Symbol, before: map<Symbol, Entry>)
      requires s in st && Calculating(v, s, before, st[s]) && Right(sys, user, v, s, st[s])
      requires s in before && !before[s].valid
      requires forall t :: t in before && rank(t) < rank(s) + 1 && before[t].valid ==> Right(sys, user, v, t, before[t])
      ensures Shape() && Sound(v, rank(s) + 1) && Kept(before, rank(s) + 1)
    {
      hide Right, Needs, Acyclic;
    }

    // ----- the operations of a user -----

    /** Every valid entry is right. */
    ghost predicate Current(v: Valuation)
      reads this
    {
      forall s :: s in st && st[s].valid ==> Right(sys, user, v, s, st[s])
    }

    /** Symbols are calculated in any order: each gets its direct recursive value. */
    method CalcInOrder(order: seq<Symbol>)
      requires Shape() && Current(Solution(sys, user, rank)) && forall s :: s in order ==> s in st
      modifies this`st
      ensures Shape() && Current(Solution(sys, user, rank)) && st.Keys == old(st.Keys)
      ensures forall s :: s in order ==> s in st && Right(sys, user, Solution(sys, user, rank), s, st[s])
    {
      hide Right, Needs, Acyclic, Solves, Solution, ClosedUnder;
      ghost var v := Solution(sys, user, rank);
      SolutionSolves(sys, user, rank);
      for i := 0 to |order|
        invariant Shape() && Current(v) && st.Keys == old(st.Keys)
        invariant forall j :: 0 <= j < i ==> order[j] in st && st[order[j]].valid
      {
        ghost var before := st;
        CalcValue(order[i], v);
        assert forall s :: s in before && before[s].valid ==> st[s] == before[s];
      }
    }

    /** symbol.c:462-479 */
    predicate WithinRange(s: Symbol, val: Tri)
      requires s in st
      reads this
    {
      if st[s].visible == NO then false
      else if !IsTristate(s) then false
      else if IsBoolean(sys, s) && val == MOD then false
      else if st[s].visible <= st[s].revDep then false
      else st[s].revDep <= val <= st[s].visible
    }

    /** symbol.c:430-440, but for the symbol that enables modules. */
    method ClearAllValid()
      modifies this`st
      ensures st.Keys == old(st.Keys) && forall s :: s in st ==> st[s] == old(st[s]).(valid := false)
    {
      st := map s | s in st :: st[s].(valid := false);
    }

    /** symbol.c:481-515 */
    method SetTristateValue(s: Symbol, val: Tri) returns (ok: bool)
      requires s in st
      modifies this
      ensures ok <==> old(st[s].tri == val || WithinRange(s, val))
      ensures !ok ==> user == old(user)
      ensures ok ==> user == old(user)[s := UserValue(val, if s in old(user) then old(user)[s].str else "")]
      ensures st.Keys == old(st.Keys)
      ensures !ok || old(st[s].tri) == val ==> st == old(st)
      ensures ok && old(st[s].tri) != val ==> forall t :: t in st ==> !st[t].valid
    {
      var oldval := st[s].tri;
      if oldval != val && !WithinRange(s, val) {
        return false;
      }
      user := user[s := UserValue(val, if s in user then user[s].str else "")];
      if oldval != val {
        ClearAllValid();
      }
      return true;
    }

    /** From an up-to-date state, a value that is accepted as a change is the value that the next
        calculation returns, and one that is refused changes nothing. */
    method SetThenCalc(s: Symbol, val: Tri) returns (ok: bool, now: Tri)
      requires Shape() && Current(Solution(sys, user, rank)) && s in st && st[s].valid && st[s].tri != val
      modifies this
      ensures ok <==> Allows(sys, s, old(Solution(sys, user, rank)), val)
      ensures ok ==> now == val
      ensures !ok ==> now == old(st[s].tri) && user == old(user)
      ensures Shape() && Current(Solution(sys, user, rank))
    {
      hide Needs, Acyclic, Solves, Solution, ClosedUnder, Right;
      ghost var v := Solution(sys, user, rank);
      SolutionSolves(sys, user, rank);
      RightRange(s, val, v);
      ok := SetTristateValue(s, val);
      ghost var w := Solution(sys, user, rank);
      SolutionSolves(sys, user, rank);
      CalcInOrder([s]);
      now := st[s].tri;
      RightTri(sys, user, w, s, st[s]);
      if ok {
        SetExactly(v, w, old(user), s, user[s]);
      }
    }

    lemma RightRange(s: Symbol, val: Tri, v: Valuation)
      requires s in st && Right(sys, user, v, s, st[s])
      ensures WithinRange(s, val) <==> Allows(sys, s, v, val)
      ensures st[s].tri == v.tri(s)
    {
      hide Visible, RevDep, DirDep, Written;
    }

    lemma SetExactly(v: Valuation, w: Valuation, before: User, s: Symbol, set_: UserValue)
      requires Acyclic(sys, rank) && Solves(sys, before, v) && Solves(sys, before[s := set_], w)
      requires Allows(sys, s, v, set_.tri)
      ensures w.tri(s) == set_.tri
    {
      hide Acyclic, Solves, Visible, RevDep;
      SetExact(sys, rank, before, v, w, s, set_);
    }
  }

  lemma NoDefault(ps: seq<Property>, v: Valuation)
    ensures FirstDefault(ps, v).None? ==> DefaultTri(FirstDefault(ps, v), v) == NO
  {}

  lemma RightTri(sys: System, user: User, v: Valuation, s: Symbol, x: Entry)
    requires Right(sys, user, v, s, x)
    ensures x.tri == v.tri(s)
  {}

  lemma OtherRight(sys: System, user: User, v: Valuation, s: Symbol, x: Entry)
    requires Solves(sys, user, v) && s.Named? && !IsTristate(s) && !IsString(s)
    requires x.valid && x.tri == NO && x.val == s.name
    ensures Right(sys, user, v, s, x)
  {
    assert SolvesAt(sys, user, v, s);
  }

  lemma NewRight(sys: System, user: User, v: Valuation, s: Symbol, x: Entry)
    requires Solves(sys, user, v) && s.Named? && (IsTristate(s) || IsString(s)) && x.valid
    requires if IsTristate(s) then x.tri == NewTri(sys, user, s, v) && x.val == "n" else x.tri == NO && x.val == NewString(sys, user, s, v)
    requires x.visible == Visible(sys, s, v) && x.dirDep == DirDep(sys, s, v) && x.revDep == RevDep(sys, s, v)
    requires x.write == Written(sys, user, s, v)
    ensures Right(sys, user, v, s, x)
  {
    hide NewTri, NewString, Visible, DirDep, RevDep, Written;
    assert SolvesAt(sys, user, v, s);
  }

  // ----- the check before the calculation -----

  /** The conditions of `depends on` mention no symbol that the search does not visit. */
  ghost predicate Visited(sys: System) {
    forall s :: Within(OptionSymbols(sys.dirDep(s)), Deps(sys.g, s))
  }

  /** A search that reports nothing leaves a rank for which the configuration is acyclic. */
  lemma OrderedAcyclic(sys: System, order: seq<Symbol>)
    requires Ordered(sys.g, order) && Visited(sys)
    requires forall s :: s in order || Needs(sys, s) == []
    ensures Acyclic(sys, RankIn(order))
  {
    hide Deps, Ordered, OptionSymbols;
    forall s
      ensures Below(sys, RankIn(order), s)
    {
      assert Within(OptionSymbols(sys.dirDep(s)), Deps(sys.g, s));
      if s in order {
        forall d | d in Needs(sys, s)
          ensures RankIn(order)(d) < RankIn(order)(s)
        {
          DependencyEarlier(sys.g, order, s, d);
        }
      }
    }
  }

  /** The symbols of the configuration are all, besides the constants. */
  ghost predicate Complete(sys: System, all: seq<Symbol>) {
    && (forall s :: s in all || Needs(sys, s) == [])
    && ClosedUnder(sys, Elements(all))
  }

  lemma CompleteUniverse(sys: System, all: seq<Symbol>)
    requires Complete(sys, all)
    ensures Closed(sys.g, Elements(all) + {Yes, Mod, No})
    ensures forall s :: s in all || Deps(sys.g, s) == []
  {
    hide Deps;
    forall s, d | d in Deps(sys.g, s)
      ensures d in Elements(all) + {Yes, Mod, No}
    {
      assert d in Needs(sys, s);
    }
    forall s
      ensures s in all || Deps(sys.g, s) == []
    {
      assert s !in all ==> Needs(sys, s) == [];
    }
  }

  /** zconf.tab.c:2293-2296 and then symbol.c:292-428: either a cycle is reported, or every symbol
      gets its value in a solution of the configuration. */
  method CheckThenCalc(sys: System, user: User, all: seq<Symbol>) returns (st: Option<map<Symbol, Entry>>)
    requires Complete(sys, all) && Visited(sys)
    ensures st.None? <==> exists c :: Cycle(sys.g, Elements(all) + {Yes, Mod, No}, c)
    ensures st.Some? ==> exists v :: Solves(sys, user, v) && forall s :: s in all ==> s in st.value && Right(sys, user, v, s, st.value[s])
  {
    hide Deps, Ordered, Cycle, Closed, Right, Solves, Needs, Visited, Solution, Acyclic;
    CompleteUniverse(sys, all);
    var checker := new Checker(sys.g, Elements(all) + {Yes, Mod, No});
    var errors := checker.CheckAll(all);
    if checker.reports != [] {
      return None;
    }
    ghost var order := checker.finished;
    OrderedAcyclic(sys, order);
    SolutionSolves(sys, user, RankIn(order));
    var table := new SymbolTable(sys, RankIn(order), user, map s | s in all :: Entry(false, NO, "", NO, NO, NO, false));
    assert table.st.Keys == Elements(all);
    table.CalcInOrder(all);
    st := Some(table.st);
  }
}
