/** The test of tools/menuconfig/menu.c for the entries of a sub-menu, with expr_trans_compare,
    expr_contains_symbol and expr_depends_symbol of tools/menuconfig/expr.c.
  */
module KconfigMenu {
  import opened KconfigExpr
  import opened Options
  import opened KconfigTransform
  import opened KconfigDups

  // ----- expr_trans_compare -----

  /** expr.c:887-935: e = s when equal is set, e != s otherwise, for one of the constants s. */
  function TransCompare(e: Expr, equal: bool, s: Symbol): Expr
    requires !s.Named?
  {
    match e
    case Bin(op, l, r) =>
      var f, g := TransCompare(l, true, s), TransCompare(r, true, s);
      var t := if s == Yes then Bin(op, f, g) else if s == No then Bin(Dual(op), f, g) else e;
      if equal then t else Not(t)
    case Not(x) => TransCompare(x, !equal, s)
    case Sym(a) => if equal then Equal(a, s) else Unequal(a, s)
    case _ =>
      if s == Mod then Sym(if equal then No else Yes)
      else if equal == (s == Yes) then e
      else Not(e)
  }

  /** expr.c:881-886: a missing expression counts as the constant itself. */
  function CompareOption(e: Option<Expr>, equal: bool, s: Symbol): Expr
    requires !s.Named?
  {
    match e
    case Some(x) => TransCompare(x, equal, s)
    case None => if equal then Sym(s) else Not(Sym(s))
  }

  /** Every symbol that stands alone has the string "n" when, and only when, its value is n. */
  predicate Comparable(e: Expr, v: Valuation) {
    match e
    case Sym(a) => v.str(a) == "n" <==> v.tri(a) == NO
    case Not(x) => Comparable(x, v)
    case Bin(_, l, r) => Comparable(l, v) && Comparable(r, v)
    case _ => true
  }

  /** What e != n comes to when NOT is taken for the opposite of that. */
  predicate Holds(e: Expr, v: Valuation) {
    match e
    case Not(x) => !Holds(x, v)
    case Bin(op, l, r) => if op == Or then Holds(l, v) || Holds(r, v) else Holds(l, v) && Holds(r, v)
    case _ => Value(e, v) != NO
  }

  /** The comparison with n is n or y, and says whether e holds. */
  lemma {:induction false} TransCompareValue(e: Expr, equal: bool, v: Valuation)
    requires WellFormed(v) && Comparable(e, v)
    ensures Value(TransCompare(e, equal, No), v) == if Holds(e, v) != equal then YES else NO
  {
    match e
    case Bin(_, l, r) =>
      TransCompareValue(l, true, v);
      TransCompareValue(r, true, v);
      hide WellFormed;
    case Not(x) =>
      TransCompareValue(x, !equal, v);
    case _ =>
  }

  /** What e = y comes to when NOT is taken for the opposite of that. */
  predicate Certain(e: Expr, v: Valuation) {
    match e
    case Sym(a) => v.str(a) == "y"
    case Not(x) => !Certain(x, v)
    case Bin(op, l, r) => if op == Or then Certain(l, v) || Certain(r, v) else Certain(l, v) && Certain(r, v)
    case _ => Value(e, v) == YES
  }

  /** The comparison with y is n or y, and says whether e is certain. */
  lemma {:induction false} TransCompareYes(e: Expr, equal: bool, v: Valuation)
    requires WellFormed(v)
    ensures Value(TransCompare(e, equal, Yes), v) == if Certain(e, v) == equal then YES else NO
  {
    match e
    case Bin(_, l, r) =>
      TransCompareYes(l, true, v);
      TransCompareYes(r, true, v);
      hide WellFormed;
    case Not(x) =>
      TransCompareYes(x, !equal, v);
    case _ =>
  }

  /** The comparison of a connective with m is not made: it is y when, and only when, the connective is,
      so it answers rightly exactly when that is n. */
  lemma TransCompareMod(op: Conn, l: Expr, r: Expr, v: Valuation)
    ensures var e := Bin(op, l, r);
            (Value(TransCompare(e, true, Mod), v) == YES <==> Value(e, v) == MOD) <==> Value(e, v) == NO
  {}

  /** That of a symbol is made, and a comparison is never m. */
  lemma TransCompareModAtoms(a: Symbol, b: Symbol, v: Valuation)
    requires WellFormed(v) && KindOf(a) == Tristate
    ensures Value(TransCompare(Sym(a), true, Mod), v) == YES <==> v.tri(a) == MOD
    ensures Value(TransCompare(Equal(a, b), true, Mod), v) == NO && Value(TransCompare(Unequal(a, b), true, Mod), v) == NO
    ensures Value(TransCompare(Equal(a, b), false, Mod), v) == YES && Value(TransCompare(Unequal(a, b), false, Mod), v) == YES
  {
    assert SymbolLaw(v, a);
  }

  /** No operand of NOT has the value m. */
  predicate NegationsDecided(e: Expr, v: Valuation) {
    match e
    case Not(x) => Value(x, v) != MOD && NegationsDecided(x, v)
    case Bin(_, l, r) => NegationsDecided(l, v) && NegationsDecided(r, v)
    case _ => true
  }

  /** Then the comparison with n is right. */
  lemma {:induction false} HoldsDecided(e: Expr, v: Valuation)
    requires NegationsDecided(e, v)
    ensures Holds(e, v) <==> Value(e, v) != NO
  {
    match e
    case Not(x) => HoldsDecided(x, v);
    case Bin(_, l, r) => HoldsDecided(l, v); HoldsDecided(r, v);
    case _ =>
  }

  /** On transformed expressions it errs only to one side. */
  lemma {:induction false} HoldsNormal(e: Expr, v: Valuation)
    requires NegationNormal(e) && Holds(e, v)
    ensures Value(e, v) != NO
  {
    match e
    case Bin(op, l, r) =>
      if Holds(l, v) { HoldsNormal(l, v); }
      if Holds(r, v) { HoldsNormal(r, v); }
    case _ =>
  }

  /** !FOO != n becomes FOO = n, which is wrong exactly when FOO is m. */
  lemma CompareUnderNot(foo: Symbol, v: Valuation)
    requires WellFormed(v) && KindOf(foo) == Tristate
    ensures var e := Not(Sym(foo));
            && TransCompare(e, false, No) == Equal(foo, No)
            && ((Value(TransCompare(e, false, No), v) == YES <==> Value(e, v) != NO) <==> v.tri(foo) != MOD)
  {
    assert SymbolLaw(v, foo);
    assert TransCompare(Not(Sym(foo)), false, No) == TransCompare(Sym(foo), true, No);
  }

  // ----- the entries of a sub-menu -----

  /** expr.c:797-824 */
  predicate Depends(e: Expr, s: Symbol) {
    match e
    case Bin(op, l, r) => op == And && (Depends(l, s) || Depends(r, s))
    case Sym(a) => a == s
    case Equal(a, b) => a == s && (b == Yes || b == Mod)
    case Unequal(a, b) => a == s && b == No
    case Not(_) => false
  }

  /** menu.c:323-324, 332-333 */
  function Visibility(e: Option<Expr>): Expr { Reduced(Transform(CompareOption(e, false, No))) }

  /** menu.c:334-337: what the prompt of the parent asks for is among what the entry asks for. */
  predicate Implied(base: Option<Expr>, dep: Expr) {
    EliminateEq(Visibility(Some(dep)), Visibility(base)).1 == Sym(Yes)
  }

  /** menu.c:326-341: the entry with the dependency dep goes below the menu of s, whose prompt is
      visible under base. */
  predicate IsSubMenu(base: Option<Expr>, dep: Expr, s: Symbol) {
    Contains(dep, s) && (Depends(dep, s) || Implied(base, dep))
  }

  lemma {:induction false} DependsVisible(e: Expr, s: Symbol, v: Valuation)
    requires WellFormed(v) && Depends(e, s) && (KindOf(s) == Boolean || KindOf(s) == Tristate)
    requires Value(e, v) != NO
    ensures v.tri(s) != NO
  {
    assert SymbolLaw(v, s);
    if e.Bin? {
      if Depends(e.l, s) { DependsVisible(e.l, s, v); } else { DependsVisible(e.r, s, v); }
    }
  }

  /** e with t in the place of s. */
  function Replaced(e: Expr, s: Symbol, t: Symbol): Expr {
    match e
    case Sym(a) => Sym(if a == s then t else a)
    case Not(x) => Not(Replaced(x, s, t))
    case Bin(op, l, r) => Bin(op, Replaced(l, s, t), Replaced(r, s, t))
    case Equal(a, b) => Equal(if a == s then t else a, if b == s then t else b)
    case Unequal(a, b) => Unequal(if a == s then t else a, if b == s then t else b)
  }

  /** expr_contains_symbol says yes exactly when putting another symbol in the place of s makes a
      difference. */
  lemma {:induction false} ContainsReplaced(e: Expr, s: Symbol, t: Symbol)
    requires s != t
    ensures Contains(e, s) <==> Replaced(e, s, t) != e
  {
    match e
    case Not(x) => ContainsReplaced(x, s, t);
    case Bin(_, l, r) => ContainsReplaced(l, s, t); ContainsReplaced(r, s, t);
    case _ =>
  }

  /** An entry that does not mention s ends its sub-menu. */
  lemma UnrelatedEntry(base: Option<Expr>, dep: Expr, s: Symbol, t: Symbol)
    requires s != t && Replaced(dep, s, t) == dep
    ensures !IsSubMenu(base, dep, s)
  {
    ContainsReplaced(dep, s, t);
    hide Implied, Contains, Depends, Replaced;
  }

  /** The conditions that e joins with &&. */
  function Conjuncts(e: Expr): seq<Expr> {
    if IsBin(e, And) then Conjuncts(e.l) + Conjuncts(e.r) else [e]
  }

  /** expr_depends_symbol says yes exactly when one of them asks for s, as itself or by comparison. */
  lemma {:induction false} DependsExactly(e: Expr, s: Symbol)
    ensures Depends(e, s) <==>
            || Sym(s) in Conjuncts(e) || Equal(s, Yes) in Conjuncts(e) || Equal(s, Mod) in Conjuncts(e)
            || Unequal(s, No) in Conjuncts(e)
  {
    if IsBin(e, And) {
      DependsExactly(e.l, s);
      DependsExactly(e.r, s);
    }
  }

  /** An entry that asks for s goes into the menu of s, whatever its prompt is under. */
  lemma DependentEntry(base: Option<Expr>, dep: Expr, s: Symbol)
    requires Sym(s) in Conjuncts(dep) || Equal(s, Yes) in Conjuncts(dep) || Equal(s, Mod) in Conjuncts(dep) || Unequal(s, No) in Conjuncts(dep)
    ensures IsSubMenu(base, dep, s)
  {
    DependsExactly(dep, s);
    DependsContains(dep, s);
    hide Implied, Contains, Depends, Conjuncts;
  }

  lemma {:induction false} DependsContains(e: Expr, s: Symbol)
    requires Depends(e, s)
    ensures Contains(e, s)
  {
    if e.Bin? {
      if Depends(e.l, s) { DependsContains(e.l, s); } else { DependsContains(e.r, s); }
    }
  }

  predicate ComparableOption(e: Option<Expr>, v: Valuation) { e.Some? ==> Comparable(e.value, v) }

  predicate HoldsOption(e: Option<Expr>, v: Valuation) { e.Some? ==> Holds(e.value, v) }

  /** The whole pipeline of comparison, transformation and elimination says whether e holds. */
  lemma VisibilityValue(e: Option<Expr>, v: Valuation)
    requires WellFormed(v) && ComparableOption(e, v)
    ensures Value(Visibility(e), v) == if HoldsOption(e, v) then YES else NO
  {
    var f := CompareOption(e, false, No);
    if e.Some? {
      TransCompareValue(e.value, false, v);
    }
    assert Value(f, v) == if HoldsOption(e, v) then YES else NO;
    TransformValue(f, v);
    hide WellFormed, CompareOption, Reduced, Transform;
    ReducedValue(Transform(f), v);
  }

  /** When an entry that was put into the menu of s is visible, then s is not n or the prompt of s
      is visible too, unless an operand of NOT in the entry's dependency is m. */
  lemma SubMenuVisible(base: Option<Expr>, dep: Expr, s: Symbol, v: Valuation)
    requires WellFormed(v) && (KindOf(s) == Boolean || KindOf(s) == Tristate)
    requires Comparable(dep, v) && ComparableOption(base, v)
    requires NegationsDecided(dep, v) && (base.Some? ==> NegationNormal(base.value))
    requires IsSubMenu(base, dep, s) && Value(dep, v) != NO
    ensures v.tri(s) != NO || (base.Some? ==> Value(base.value, v) != NO)
  {
    hide WellFormed, Comparable, NegationsDecided, NegationNormal, Visibility;
    if Depends(dep, s) {
      DependsVisible(dep, s, v);
    } else {
      HoldsDecided(dep, v);
      VisibilityValue(Some(dep), v);
      VisibilityValue(base, v);
      EliminateEqImplies(Visibility(Some(dep)), Visibility(base), v);
      if base.Some? {
        HoldsNormal(base.value, v);
      }
    }
  }

  // ----- an entry in an invisible menu -----

  lemma UnequalTransformed(a: Symbol)
    requires KindOf(a) == Tristate
    ensures Transform(Unequal(a, No)) == Unequal(a, No)
    ensures Transform(Not(Unequal(a, No))) == Equal(a, No)
  {
    var x := Unequal(a, No);
    assert Transform(x) == x;
    assert TransformOperands(Not(x)) == Not(x);
    assert Transform(Not(x)) == Equal(a, No);
  }

  lemma NotOrTransformed(a: Symbol, s: Symbol)
    requires KindOf(a) == Tristate && KindOf(s) == Tristate
    ensures Transform(Not(Bin(Or, Unequal(a, No), Unequal(s, No)))) == Bin(And, Equal(a, No), Equal(s, No))
  {
    var (x, z) := (Unequal(a, No), Unequal(s, No));
    UnequalTransformed(a);
    UnequalTransformed(s);
    assert Transform(Bin(Or, x, z)) == Bin(Or, x, z);
    assert TransformOperands(Not(Bin(Or, x, z))) == Not(Bin(Or, x, z));
    assert TransformOperands(Bin(And, Not(x), Not(z))) == Bin(And, Equal(a, No), Equal(s, No));
    assert Transform(Bin(And, Not(x), Not(z))) == Bin(And, Equal(a, No), Equal(s, No));
  }

  lemma EqualsKept(a: Symbol, s: Symbol)
    requires a != s
    ensures Reduced(Bin(And, Equal(a, No), Equal(s, No))) == Bin(And, Equal(a, No), Equal(s, No))
  {
    var (x, z) := (Equal(a, No), Equal(s, No));
    DifferentEquals(a, s);
    DifferentEquals(s, a);
    PairReduced(And, x, z);
    hide Reduced;
  }

  lemma DifferentEquals(a: Symbol, s: Symbol)
    requires a != s
    ensures JoinTerms(And, Equal(a, No), Equal(s, No)).None?
  {
    var (x, z) := (Equal(a, No), Equal(s, No));
    assert !ExprEq(x, z);
    assert FirstSymbol(x) == Some(a) && SecondSymbol(z) == Some(s);
  }

  lemma CompareNot(a: Symbol)
    ensures TransCompare(Not(Sym(a)), true, No) == Unequal(a, No)
  {
    assert TransCompare(Sym(a), false, No) == Unequal(a, No);
  }

  /** !A && !S != n becomes A=n && S=n. */
  lemma NeitherCompared(a: Symbol, s: Symbol)
    requires KindOf(a) == Tristate && KindOf(s) == Tristate && a != s
    ensures Visibility(Some(Neither(And, a, s))) == Bin(And, Equal(a, No), Equal(s, No))
  {
    CompareNot(a);
    CompareNot(s);
    assert TransCompare(Neither(And, a, s), false, No) == Not(Bin(Or, Unequal(a, No), Unequal(s, No)));
    NotOrTransformed(a, s);
    EqualsKept(a, s);
    hide Transform, Reduced;
  }

  lemma EqualCompared(a: Symbol)
    requires KindOf(a) == Tristate
    ensures Visibility(Some(Equal(a, No))) == Equal(a, No)
  {
    assert Transform(Equal(a, No)) == Equal(a, No);
  }

  /** Still the test puts an entry under !A && !S into the menu of S when the prompt of S is under A=n. */
  lemma NeitherBelowEqual(a: Symbol, s: Symbol)
    requires KindOf(a) == Tristate && KindOf(s) == Tristate && a != s
    ensures IsSubMenu(Some(Equal(a, No)), Neither(And, a, s), s)
  {
    NeitherCompared(a, s);
    EqualCompared(a);
    var (x, z, t) := (Equal(a, No), Equal(s, No), Sym(Yes));
    assert ExprEq(x, x);
    assert EliminateEqUnder(And, x, x) == (t, t);
    DifferentTypes(z, t);
    assert EliminateEqUnder(And, z, t) == (z, t);
    assert EliminateEqUnder(And, Bin(And, x, z), x) == (Bin(And, t, z), t);
    assert EliminateEq(Bin(And, x, z), x).1 == t;
    hide Visibility;
    assert Contains(Not(Sym(s)), s);
  }

  /** When A is m and S is n, that entry is visible although neither S nor its prompt is. */
  lemma SubMenuWithM(a: Symbol, s: Symbol)
    requires KindOf(a) == Tristate && KindOf(s) == Tristate && a != s
    ensures IsSubMenu(Some(Equal(a, No)), Neither(And, a, s), s)
    ensures exists v :: WellFormed(v) && Value(Neither(And, a, s), v) != NO && v.tri(s) == NO && Value(Equal(a, No), v) == NO
  {
    NeitherBelowEqual(a, s);
    var t := (b: Symbol) => if b == a then MOD else NO;
    ChosenWellFormed(t);
    var v := Chosen(t);
    assert SymbolLaw(v, a);
    hide WellFormed, IsSubMenu, Chosen;
    NotValue(a, v);
    NotValue(s, v);
    BinValue(And, Not(Sym(a)), Not(Sym(s)), v);
    assert v.str(a) != v.str(No) by { assert v.str(a) == "m"; }
  }
}
