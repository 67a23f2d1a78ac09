/** expr_transform, expr_trans_bool and expr_extract_eq of tools/menuconfig/expr.c. */
module KconfigTransform {
  import opened KconfigExpr
  import opened Options

  function Dual(op: Conn): Conn { if op == Or then And else Or }

  /** A weight that a De Morgan step reduces although it adds a node. */
  function Weight(e: Expr): (w: nat)
    ensures w >= 1
  {
    match e
    case Sym(_) => 1
    case Not(x) => 2 * Weight(x)
    case Bin(_, l, r) => 1 + Weight(l) + Weight(r)
    case Equal(_, _) => 2
    case Unequal(_, _) => 2
  }

  lemma DeMorganWeight(op: Conn, l: Expr, r: Expr)
    ensures Weight(Bin(Dual(op), Not(l), Not(r))) < Weight(Not(Bin(op, l, r)))
  {
    assert Weight(Not(l)) == 2 * Weight(l) && Weight(Not(r)) == 2 * Weight(r);
    assert Weight(Bin(op, l, r)) == 1 + Weight(l) + Weight(r);
  }

  /** NOT stands only before a symbol other than y, m and n. */
  predicate NegationNormal(e: Expr) {
    match e
    case Not(x) => x.Sym? && x.s.Named?
    case Bin(_, l, r) => NegationNormal(l) && NegationNormal(r)
    case _ => true
  }

  /** The first switch of expr.c:642-651: the operands are transformed first. */
  function TransformOperands(e: Expr): (r: Expr)
    ensures Weight(r) <= Weight(e)
    ensures r.Not? ==> NegationNormal(r.e)
    ensures !r.Not? ==> NegationNormal(r)
    decreases Weight(e), 0
  {
    match e
    case Not(x) => Not(Transform(x))
    case Bin(op, l, r) => Bin(op, Transform(l), Transform(r))
    case _ => e
  }

  /** expr.c:636-771 */
  function Transform(e: Expr): (r: Expr)
    ensures Weight(r) <= Weight(e)
    ensures NegationNormal(r)
    decreases Weight(e), 1
  {
    var t := TransformOperands(e);
    match t
    case Equal(a, b) =>
      if KindOf(a) != Boolean then t
      else if b == No then Not(Sym(a))
      else if b == Mod then Sym(No)
      else if b == Yes then Sym(a)
      else t
    case Unequal(a, b) =>
      if KindOf(a) != Boolean then t
      else if b == No then Sym(a)
      else if b == Mod then Sym(Yes)
      else if b == Yes then Not(Sym(a))
      else t
    case Not(x) => (match x
      case Not(z) => Transform(z)
      case Equal(a, b) => Unequal(a, b)
      case Unequal(a, b) => Equal(a, b)
      case Bin(op, l, r) =>
        DeMorganWeight(op, l, r);
        Transform(Bin(Dual(op), Not(l), Not(r)))
      case Sym(s) =>
        if s == Yes then Sym(No)
        else if s == Mod then Sym(Mod)
        else if s == No then Sym(Yes)
        else t)
    case _ => t
  }

  lemma {:induction false} TransformOperandsValue(e: Expr, v: Valuation)
    requires WellFormed(v)
    ensures Value(TransformOperands(e), v) == Value(e, v)
    decreases Weight(e), 0
  {
    match e
    case Not(x) => TransformValue(x, v);
    case Bin(op, l, r) => TransformValue(l, v); TransformValue(r, v);
    case _ =>
  }

  lemma NotBinValue(op: Conn, l: Expr, r: Expr, v: Valuation)
    ensures Value(Not(Bin(op, l, r)), v) == Value(Bin(Dual(op), Not(l), Not(r)), v)
  {}

  /** expr_transform keeps the value under every valuation. */
  lemma {:induction false} TransformValue(e: Expr, v: Valuation)
    requires WellFormed(v)
    ensures Value(Transform(e), v) == Value(e, v)
    decreases Weight(e), 1
  {
    var t := TransformOperands(e);
    TransformOperandsValue(e, v);
    if t.Not? && t.e.Not? {
      TransformValue(t.e.e, v);
    } else if t.Not? && t.e.Bin? {
      var op, l, r := t.e.op, t.e.l, t.e.r;
      DeMorganWeight(op, l, r);
      TransformValue(Bin(Dual(op), Not(l), Not(r)), v);
      NotBinValue(op, l, r, v);
    } else {
      TransformAtomValue(e, t, v);
    }
  }

  lemma TransformAtomValue(e: Expr, t: Expr, v: Valuation)
    requires WellFormed(v) && t == TransformOperands(e) && (t.Not? ==> !t.e.Not? && !t.e.Bin?)
    ensures Value(Transform(e), v) == Value(t, v)
  {
    match t
    case Equal(a, b) => assert SymbolLaw(v, a);
    case Unequal(a, b) => assert SymbolLaw(v, a);
    case _ =>
  }

  /** No boolean is compared with y, m or n. */
  predicate BooleansAlone(e: Expr) {
    match e
    case Not(x) => BooleansAlone(x)
    case Bin(_, l, r) => BooleansAlone(l) && BooleansAlone(r)
    case Equal(a, b) => KindOf(a) == Boolean ==> b != Yes && b != Mod && b != No
    case Unequal(a, b) => KindOf(a) == Boolean ==> b != Yes && b != Mod && b != No
    case Sym(_) => true
  }

  /** expr_transform leaves no boolean compared with a constant. */
  lemma {:induction false} TransformAlone(e: Expr)
    ensures BooleansAlone(Transform(e))
    decreases Weight(e), 1
  {
    var t := TransformOperands(e);
    TransformOperandsAlone(e);
    if t.Not? && t.e.Not? {
      TransformAlone(t.e.e);
    } else if t.Not? && t.e.Bin? {
      DeMorganWeight(t.e.op, t.e.l, t.e.r);
      TransformAlone(Bin(Dual(t.e.op), Not(t.e.l), Not(t.e.r)));
    }
  }

  lemma {:induction false} TransformOperandsAlone(e: Expr)
    ensures e.Not? || e.Bin? ==> BooleansAlone(TransformOperands(e))
    decreases Weight(e), 0
  {
    match e
    case Not(x) => TransformAlone(x);
    case Bin(_, l, r) => TransformAlone(l); TransformAlone(r);
    case _ =>
  }

  /** An expression in that form is left as it is; so expr_transform done twice is done once. */
  lemma {:induction false} TransformFixed(e: Expr)
    requires NegationNormal(e) && BooleansAlone(e)
    ensures Transform(e) == e
    decreases e
  {
    match e
    case Not(x) => assert Transform(x) == x;
    case Bin(_, l, r) => TransformFixed(l); TransformFixed(r);
    case _ =>
  }

  lemma TransformTwice(e: Expr)
    ensures Transform(Transform(e)) == Transform(e)
  {
    TransformAlone(e);
    TransformFixed(Transform(e));
    hide Transform;
  }

  // ----- expr_trans_bool -----

  /** expr.c:317-341 */
  function TransBool(e: Expr): Expr {
    match e
    case Not(x) => Not(TransBool(x))
    case Bin(op, l, r) => Bin(op, TransBool(l), TransBool(r))
    case Unequal(a, b) => if KindOf(a) == Tristate && b == No then Sym(a) else e
    case _ => e
  }

  /** On a transformed expression expr_trans_bool keeps whether the value is n. */
  lemma {:induction false} TransBoolVisible(e: Expr, v: Valuation)
    requires WellFormed(v) && NegationNormal(e)
    ensures Value(TransBool(e), v) == NO <==> Value(e, v) == NO
  {
    match e
    case Bin(_, l, r) => TransBoolVisible(l, v); TransBoolVisible(r, v);
    case Unequal(a, _) => assert SymbolLaw(v, a);
    case _ =>
  }

  /** Under NOT it does not: with FOO at m, !(FOO!=n) is n but !FOO is m. */
  lemma TransBoolUnderNot(v: Valuation, foo: Symbol)
    requires WellFormed(v) && KindOf(foo) == Tristate
    ensures var e := Not(Unequal(foo, No));
            (Value(TransBool(e), v) == NO <==> Value(e, v) == NO) <==> v.tri(foo) != MOD
  {
    assert SymbolLaw(v, foo);
    assert TransBool(Not(Unequal(foo, No))) == Not(TransBool(Unequal(foo, No)));
  }

  // ----- expr_extract_eq -----

  /** expr.c:848-875: the shared operands move into acc. */
  function ExtractEqUnder(op: Conn, acc: Option<Expr>, e1: Expr, e2: Expr): (r: (Option<Expr>, Expr, Expr))
    ensures Size(r.1) <= Size(e1) && Size(r.2) <= Size(e2)
    decreases Size(e1) + Size(e2)
  {
    if IsBin(e1, op) then
      var (a, l, f) := ExtractEqUnder(op, acc, e1.l, e2);
      var (b, r, g) := ExtractEqUnder(op, a, e1.r, f);
      (b, Bin(op, l, r), g)
    else if IsBin(e2, op) then
      var (a, f, l) := ExtractEqUnder(op, acc, e1, e2.l);
      var (b, g, r) := ExtractEqUnder(op, a, f, e2.r);
      (b, g, Bin(op, l, r))
    else if ExprEq(e1, e2) then
      (Some(if acc.Some? then Bin(op, acc.value, e1) else e1), Neutral(op), Neutral(op))
    else (acc, e1, e2)
  }

  /** expr.c:826-846 */
  function ExtractEq(op: Conn, e1: Expr, e2: Expr): (Option<Expr>, Expr, Expr) {
    var (acc, f1, f2) := ExtractEqUnder(op, None, e1, e2);
    if acc.Some? then (acc, EliminateYn(f1), EliminateYn(f2)) else (acc, f1, f2)
  }

  function OrNeutral(op: Conn, acc: Option<Expr>): Expr {
    if acc.Some? then acc.value else Neutral(op)
  }

  lemma AppendShared(op: Conn, acc: Option<Expr>, c: Expr)
    ensures Equivalent(OrNeutral(op, Some(if acc.Some? then Bin(op, acc.value, c) else c)), Bin(op, OrNeutral(op, acc), c))
    ensures Equivalent(OrNeutral(op, acc), Bin(op, OrNeutral(op, acc), Neutral(op)))
  {
    forall v: Valuation | WellFormed(v)
      ensures Value(OrNeutral(op, acc), v) == Value(Bin(op, OrNeutral(op, acc), Neutral(op)), v)
      ensures Value(if acc.Some? then Bin(op, acc.value, c) else c, v) == Value(Bin(op, OrNeutral(op, acc), c), v)
    {
      YesValue(v);
      hide WellFormed;
    }
  }

  lemma AppendBoth(op: Conn, a: Expr, b: Expr, d: Expr, c1: Expr, c2: Expr)
    requires Equivalent(b, Bin(op, a, c1)) && Equivalent(d, Bin(op, b, c2))
    ensures Equivalent(d, Bin(op, a, Bin(op, c1, c2)))
  {
    hide WellFormed;
    forall v: Valuation | WellFormed(v)
      ensures Value(d, v) == Value(Bin(op, a, Bin(op, c1, c2)), v)
    {
      hide Value, Equivalent, Join;
      EquivalentAt(b, Bin(op, a, c1), v);
      EquivalentAt(d, Bin(op, b, c2), v);
      BinValue(op, a, c1, v);
      BinValue(op, b, c2, v);
      BinValue(op, c1, c2, v);
      BinValue(op, a, Bin(op, c1, c2), v);
      JoinFour(op, Value(a, v), NO, Value(c1, v), Value(c2, v));
    }
  }

  /** What is extracted is shared: both sides lose c, and acc gains it. */
  lemma {:induction false} ExtractEqUnderFactors(op: Conn, acc: Option<Expr>, e1: Expr, e2: Expr) returns (c: Expr)
    ensures var r := ExtractEqUnder(op, acc, e1, e2);
            && Factors(op, c, e1, e2, r.1, r.2)
            && Equivalent(OrNeutral(op, r.0), Bin(op, OrNeutral(op, acc), c))
    decreases Size(e1) + Size(e2)
  {
    hide Equivalent, WellFormed, OrNeutral;
    AppendShared(op, acc, e1);
    if IsBin(e1, op) {
      var (a, l, f) := ExtractEqUnder(op, acc, e1.l, e2);
      var (b, r, g) := ExtractEqUnder(op, a, e1.r, f);
      var c1 := ExtractEqUnderFactors(op, acc, e1.l, e2);
      var c2 := ExtractEqUnderFactors(op, a, e1.r, f);
      c := Bin(op, c1, c2);
      FactorsCompose(op, c1, c2, e1.l, e1.r, e2, l, r, f, g);
      AppendBoth(op, OrNeutral(op, acc), OrNeutral(op, a), OrNeutral(op, b), c1, c2);
    } else if IsBin(e2, op) {
      var (a, f, l) := ExtractEqUnder(op, acc, e1, e2.l);
      var (b, g, r) := ExtractEqUnder(op, a, f, e2.r);
      var c1 := ExtractEqUnderFactors(op, acc, e1, e2.l);
      var c2 := ExtractEqUnderFactors(op, a, f, e2.r);
      c := Bin(op, c1, c2);
      FactorsCompose(op, c1, c2, e2.l, e2.r, e1, l, r, f, g);
      AppendBoth(op, OrNeutral(op, acc), OrNeutral(op, a), OrNeutral(op, b), c1, c2);
    } else if ExprEq(e1, e2) {
      ExprEqSound(e1, e2);
      FactorsWhole(op, e1, e2);
      c := e1;
    } else {
      FactorsNothing(op, e1, e2);
      c := Neutral(op);
    }
  }

  /** If everything of e1 is extracted, e2 implies e1 (op And) or e1 implies e2 (op Or). */
  lemma ExtractedImplies(op: Conn, e1: Expr, e2: Expr, v: Valuation)
    requires WellFormed(v) && ExtractEq(op, e1, e2).1 == Neutral(op)
    ensures if op == And then Value(e2, v) <= Value(e1, v) else Value(e1, v) <= Value(e2, v)
  {
    var (acc, f1, f2) := ExtractEqUnder(op, None, e1, e2);
    ExtractedNeutral(op, e1, e2, v);
    hide *;
    var c := ExtractEqUnderFactors(op, None, e1, e2);
    FactorsAt(op, c, e1, e2, f1, f2, v);
    JoinNeutral(op, Value(c, v), Value(f1, v), Value(f2, v));
  }

  lemma ExtractedNeutral(op: Conn, e1: Expr, e2: Expr, v: Valuation)
    requires WellFormed(v) && ExtractEq(op, e1, e2).1 == Neutral(op)
    ensures Value(ExtractEqUnder(op, None, e1, e2).1, v) == if op == And then YES else NO
  {
    EliminateYnValue(ExtractEqUnder(op, None, e1, e2).1, v);
    YesValue(v);
    hide WellFormed, ExtractEqUnder, EliminateYn;
  }

  lemma JoinNeutral(op: Conn, c: Tri, f1: Tri, f2: Tri)
    requires f1 == if op == And then YES else NO
    ensures if op == And then Join(op, c, f2) <= Join(op, c, f1) else Join(op, c, f1) <= Join(op, c, f2)
  {}

  lemma FactorsAt(op: Conn, c: Expr, e1: Expr, e2: Expr, f1: Expr, f2: Expr, v: Valuation)
    requires Factors(op, c, e1, e2, f1, f2) && WellFormed(v)
    ensures Value(e1, v) == Join(op, Value(c, v), Value(f1, v))
    ensures Value(e2, v) == Join(op, Value(c, v), Value(f2, v))
  {
    hide WellFormed, Equivalent, Value, Join;
    EquivalentAt(e1, Bin(op, c, f1), v);
    EquivalentAt(e2, Bin(op, c, f2), v);
    BinValue(op, c, f1, v);
    BinValue(op, c, f2, v);
  }
}
