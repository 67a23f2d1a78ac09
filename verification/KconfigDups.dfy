/** expr_eliminate_dups of tools/menuconfig/expr.c.

    The source walks one tree with two pointers ep1 and ep2 into it.  The model holds the tree
    and two positions on its spine: the operands reached from the root through nodes of one
    connective only.
  */
module KconfigDups {
  import opened KconfigExpr
  import opened Options
  import opened KconfigTransform

  // ----- positions on a spine -----

  /** false for the left operand, true for the right one. */
  type Path = seq<bool>

  function Child(e: Expr, right: bool): Expr
    requires e.Bin?
  {
    if right then e.r else e.l
  }

  function WithChild(e: Expr, right: bool, x: Expr): Expr
    requires e.Bin?
  {
    if right then Bin(e.op, e.l, x) else Bin(e.op, x, e.r)
  }

  predicate OnSpine(op: Conn, e: Expr, p: Path) {
    p == [] || (IsBin(e, op) && OnSpine(op, Child(e, p[0]), p[1..]))
  }

  function At(op: Conn, e: Expr, p: Path): Expr
    requires OnSpine(op, e, p)
  {
    if p == [] then e else At(op, Child(e, p[0]), p[1..])
  }

  function Put(op: Conn, e: Expr, p: Path, x: Expr): Expr
    requires OnSpine(op, e, p)
  {
    if p == [] then x else WithChild(e, p[0], Put(op, Child(e, p[0]), p[1..], x))
  }

  /** The operands hang from the same spine. */
  predicate SameSpine(op: Conn, e: Expr, f: Expr) {
    && (IsBin(e, op) <==> IsBin(f, op))
    && (IsBin(e, op) ==> SameSpine(op, e.l, f.l) && SameSpine(op, e.r, f.r))
  }

  function SpineSize(op: Conn, e: Expr): nat {
    if IsBin(e, op) then 1 + SpineSize(op, e.l) + SpineSize(op, e.r) else 0
  }

  lemma {:induction false} SameSpineReflexive(op: Conn, e: Expr)
    ensures SameSpine(op, e, e)
  {
    if IsBin(e, op) {
      SameSpineReflexive(op, e.l);
      SameSpineReflexive(op, e.r);
    }
  }

  lemma {:induction false} SameSpineTransitive(op: Conn, e: Expr, f: Expr, g: Expr)
    requires SameSpine(op, e, f) && SameSpine(op, f, g)
    ensures SameSpine(op, e, g)
  {
    if IsBin(e, op) {
      SameSpineTransitive(op, e.l, f.l, g.l);
      SameSpineTransitive(op, e.r, f.r, g.r);
    }
  }

  lemma {:induction false} SameSpineAt(op: Conn, e: Expr, f: Expr, p: Path)
    requires SameSpine(op, e, f) && OnSpine(op, e, p)
    ensures OnSpine(op, f, p) && SameSpine(op, At(op, e, p), At(op, f, p))
  {
    if p != [] {
      SameSpineAt(op, Child(e, p[0]), Child(f, p[0]), p[1..]);
    }
  }

  lemma {:induction false} SameSpineSize(op: Conn, e: Expr, f: Expr)
    requires SameSpine(op, e, f)
    ensures SpineSize(op, e) == SpineSize(op, f)
  {
    if IsBin(e, op) {
      SameSpineSize(op, e.l, f.l);
      SameSpineSize(op, e.r, f.r);
    }
  }

  /** One step further down the spine. */
  lemma {:induction false} SpineStep(op: Conn, e: Expr, p: Path, right: bool)
    requires OnSpine(op, e, p) && IsBin(At(op, e, p), op)
    ensures OnSpine(op, e, p + [right]) && At(op, e, p + [right]) == Child(At(op, e, p), right)
  {
    if p == [] {
      assert p + [right] == [right] && [right][1..] == [];
    } else {
      SpineStep(op, Child(e, p[0]), p[1..], right);
      assert (p + [right])[1..] == p[1..] + [right] && (p + [right])[0] == p[0];
    }
  }

  /** Replacing an operand by one that is no node of the spine. */
  lemma {:induction false} PutSpine(op: Conn, e: Expr, p: Path, x: Expr)
    requires OnSpine(op, e, p) && !IsBin(At(op, e, p), op) && !IsBin(x, op)
    ensures SameSpine(op, e, Put(op, e, p, x))
    ensures OnSpine(op, Put(op, e, p, x), p) && At(op, Put(op, e, p, x), p) == x
    ensures Size(Put(op, e, p, x)) == Size(e) - Size(At(op, e, p)) + Size(x)
  {
    if p != [] {
      PutSpine(op, Child(e, p[0]), p[1..], x);
      SameSpineReflexive(op, Child(e, !p[0]));
    }
  }

  lemma TailsDiffer(p: Path, q: Path)
    requires p != [] && q != [] && p != q && p[0] == q[0]
    ensures p[1..] != q[1..]
  {
    assert p == [p[0]] + p[1..] && q == [q[0]] + q[1..];
  }

  /** Two operands at different positions do not overlap. */
  lemma {:induction false} PutApart(op: Conn, e: Expr, p: Path, q: Path, x: Expr)
    requires OnSpine(op, e, p) && OnSpine(op, e, q) && p != q
    requires !IsBin(At(op, e, p), op) && !IsBin(At(op, e, q), op) && !IsBin(x, op)
    ensures OnSpine(op, Put(op, e, p, x), q) && At(op, Put(op, e, p, x), q) == At(op, e, q)
  {
    if p != [] && q != [] && p[0] == q[0] {
      TailsDiffer(p, q);
      PutApart(op, Child(e, p[0]), p[1..], q[1..], x);
    }
  }

  lemma {:induction false} OperandSmaller(op: Conn, e: Expr, p: Path)
    requires OnSpine(op, e, p)
    ensures Size(At(op, e, p)) <= Size(e)
    ensures p != [] ==> Size(At(op, e, p)) < Size(e)
  {
    if p != [] {
      OperandSmaller(op, Child(e, p[0]), p[1..]);
    }
  }

  // ----- values along a spine -----

  /** What the rest of the spine contributes when the operand at p is taken away. */
  function RestOf(op: Conn, e: Expr, p: Path, v: Valuation): Tri
    requires OnSpine(op, e, p)
  {
    if p == [] then (if op == Or then NO else YES)
    else Join(op, RestOf(op, Child(e, p[0]), p[1..], v), Value(Child(e, !p[0]), v))
  }

  lemma WithChildValue(e: Expr, right: bool, x: Expr, v: Valuation)
    requires e.Bin?
    ensures Value(WithChild(e, right, x), v) == Join(e.op, Value(x, v), Value(Child(e, !right), v))
    ensures WithChild(e, right, Child(e, right)) == e
  {}

  lemma JoinRotate(op: Conn, a: Tri, b: Tri, c: Tri, d: Tri)
    ensures Join(op, Join(op, a, b), c) == Join(op, a, Join(op, b, c))
    ensures Join(op, Join(op, a, b), Join(op, c, d)) == Join(op, Join(op, a, c), Join(op, b, d))
    ensures Join(op, a, if op == Or then NO else YES) == a
    ensures Join(op, a, b) == Join(op, b, a)
  {}

  lemma {:induction false} PutValue(op: Conn, e: Expr, p: Path, x: Expr, v: Valuation)
    requires OnSpine(op, e, p)
    ensures Value(Put(op, e, p, x), v) == Join(op, Value(x, v), RestOf(op, e, p, v))
    ensures Value(e, v) == Join(op, Value(At(op, e, p), v), RestOf(op, e, p, v))
  {
    hide Value, Join;
    if p == [] {
      JoinRotate(op, Value(x, v), NO, NO, NO);
      JoinRotate(op, Value(e, v), NO, NO, NO);
    } else {
      var c, q := Child(e, p[0]), p[1..];
      PutValue(op, c, q, x, v);
      WithChildValue(e, p[0], Put(op, c, q, x), v);
      WithChildValue(e, p[0], c, v);
      var (r, s) := (RestOf(op, c, q, v), Value(Child(e, !p[0]), v));
      JoinRotate(op, Value(x, v), r, s, NO);
      JoinRotate(op, Value(At(op, c, q), v), r, s, NO);
    }
  }

  lemma {:induction false} PutTwoValue(op: Conn, e: Expr, p: Path, q: Path, x: Expr, z: Expr, v: Valuation)
    requires OnSpine(op, e, p) && OnSpine(op, e, q) && p != q
    requires !IsBin(At(op, e, p), op) && !IsBin(At(op, e, q), op) && !IsBin(z, op)
    requires OnSpine(op, Put(op, e, q, z), p)
    requires Join(op, Value(x, v), Value(z, v)) == Join(op, Value(At(op, e, p), v), Value(At(op, e, q), v))
    ensures Value(Put(op, Put(op, e, q, z), p, x), v) == Value(e, v)
  {
    hide Value, Join;
    var c, f := Child(e, p[0]), Put(op, e, q, z);
    if p[0] == q[0] {
      TailsDiffer(p, q);
      PutTwoValue(op, c, p[1..], q[1..], x, z, v);
      WithChildValue(e, p[0], Put(op, Put(op, c, q[1..], z), p[1..], x), v);
      WithChildValue(e, p[0], c, v);
    } else {
      var d := Child(e, q[0]);
      PutValue(op, c, p[1..], x, v);
      PutValue(op, d, q[1..], z, v);
      WithChildValue(f, p[0], Put(op, c, p[1..], x), v);
      WithChildValue(e, p[0], c, v);
      var (r, s) := (RestOf(op, c, p[1..], v), RestOf(op, d, q[1..], v));
      JoinRotate(op, Value(x, v), r, Value(z, v), s);
      JoinRotate(op, Value(At(op, e, p), v), r, Value(At(op, e, q), v), s);
    }
  }

  // ----- constants left behind -----

  lemma {:induction false} PutLeavesConstant(op: Conn, e: Expr, p: Path, x: Expr)
    requires OnSpine(op, e, p)
    requires (p != [] && IsYn(x)) || !YnFree(x)
    ensures !YnFree(Put(op, e, p, x))
  {
    if p != [] {
      if p[1..] != [] || !IsYn(x) {
        PutLeavesConstant(op, Child(e, p[0]), p[1..], x);
      }
    }
  }

  // ----- expr_eliminate_dups1 -----

  lemma JoinTermsOperand(op: Conn, e1: Expr, e2: Expr)
    requires JoinTerms(op, e1, e2).Some? && !IsBin(e1, op)
    ensures !IsBin(JoinTerms(op, e1, e2).value, op)
  {
    hide ExprEq;
  }

  /** expr.c:527-547: the operands x at p and z at q are joined, if they can be. */
  function JoinOperands(op: Conn, e: Expr, p: Path, q: Path): (r: (Expr, nat))
    requires OnSpine(op, e, p) && OnSpine(op, e, q) && p != q
    requires !IsBin(At(op, e, p), op) && !IsBin(At(op, e, q), op)
    ensures SameSpine(op, e, r.0) && Size(r.0) <= Size(e)
    ensures r.1 == 0 ==> r.0 == e
    ensures r.1 > 0 ==> !YnFree(r.0)
  {
    var (x, z) := (At(op, e, p), At(op, e, q));
    match JoinTerms(op, x, z)
    case None => SameSpineReflexive(op, e); (e, 0)
    case Some(t) =>
      JoinOperandsStep(op, e, p, q, t);
      (Put(op, Put(op, e, q, t), p, Neutral(op)), 1)
  }

  lemma JoinOperandsStep(op: Conn, e: Expr, p: Path, q: Path, t: Expr)
    requires OnSpine(op, e, p) && OnSpine(op, e, q) && p != q
    requires !IsBin(At(op, e, p), op) && !IsBin(At(op, e, q), op)
    requires JoinTerms(op, At(op, e, p), At(op, e, q)) == Some(t)
    ensures !IsBin(t, op)
    ensures OnSpine(op, Put(op, e, q, t), p)
    ensures var f := Put(op, Put(op, e, q, t), p, Neutral(op));
            SameSpine(op, e, f) && Size(f) <= Size(e) && !YnFree(f)
  {
    hide ExprEq, JoinOr, JoinAnd, YnFree;
    var (x, z) := (At(op, e, p), At(op, e, q));
    JoinTermsOperand(op, x, z);
    JoinTermsValue(op, x, z);
    PutSpine(op, e, q, t);
    PutApart(op, e, q, p, t);
    var f := Put(op, e, q, t);
    PutSpine(op, f, p, Neutral(op));
    SameSpineTransitive(op, e, f, Put(op, f, p, Neutral(op)));
    PutLeavesConstant(op, f, p, Neutral(op));
  }

  /** expr.c:504-554, with the number of times trans_count is bumped. */
  function Dups1(op: Conn, e: Expr, p: Path, q: Path): (r: (Expr, nat))
    requires OnSpine(op, e, p) && OnSpine(op, e, q)
    ensures SameSpine(op, e, r.0) && Size(r.0) <= Size(e)
    ensures r.1 == 0 ==> r.0 == e
    ensures r.1 > 0 ==> !YnFree(r.0)
    decreases Size(e), SpineSize(op, At(op, e, p)) + SpineSize(op, At(op, e, q))
  {
    if IsBin(At(op, e, p), op) then
      SpineStep(op, e, p, false);
      SpineStep(op, e, p, true);
      var (f, j) := Dups1(op, e, p + [false], q);
      SpineKept(op, e, f, p + [true], q);
      var (g, k) := Dups1(op, f, p + [true], q);
      SameSpineTransitive(op, e, f, g);
      (g, j + k)
    else if IsBin(At(op, e, q), op) then
      SpineStep(op, e, q, false);
      SpineStep(op, e, q, true);
      var (f, j) := Dups1(op, e, p, q + [false]);
      SpineKept(op, e, f, p, q + [true]);
      var (g, k) := Dups1(op, f, p, q + [true]);
      SameSpineTransitive(op, e, f, g);
      (g, j + k)
    else if p == q then SameSpineReflexive(op, e); (e, 0)
    else
      var x := At(op, e, p);
      OperandSmaller(op, e, p);
      var (x', j) := if x.Bin? then Dups1(x.op, x, [], []) else (x, 0);
      OperandKept(op, e, p, q, x', j);
      var f := Put(op, e, p, x');
      var (g, k) := JoinOperands(op, f, p, q);
      SameSpineTransitive(op, e, f, g);
      (g, j + k)
  }

  lemma SpineKept(op: Conn, e: Expr, f: Expr, p: Path, q: Path)
    requires SameSpine(op, e, f) && OnSpine(op, e, p) && OnSpine(op, e, q)
    ensures OnSpine(op, f, p) && OnSpine(op, f, q)
    ensures SpineSize(op, At(op, f, p)) == SpineSize(op, At(op, e, p))
    ensures SpineSize(op, At(op, f, q)) == SpineSize(op, At(op, e, q))
  {
    SameSpineAt(op, e, f, p);
    SameSpineAt(op, e, f, q);
    SameSpineSize(op, At(op, e, p), At(op, f, p));
    SameSpineSize(op, At(op, e, q), At(op, f, q));
  }

  /** An operand is rewritten in place. */
  lemma OperandKept(op: Conn, e: Expr, p: Path, q: Path, x: Expr, j: nat)
    requires OnSpine(op, e, p) && OnSpine(op, e, q) && p != q
    requires !IsBin(At(op, e, p), op) && !IsBin(At(op, e, q), op) && !IsBin(x, op)
    requires Size(x) <= Size(At(op, e, p)) && (j == 0 ==> x == At(op, e, p)) && (j > 0 ==> !YnFree(x))
    ensures var f := Put(op, e, p, x);
            && SameSpine(op, e, f) && Size(f) <= Size(e)
            && OnSpine(op, f, p) && OnSpine(op, f, q)
            && At(op, f, p) == x && At(op, f, q) == At(op, e, q)
            && (j == 0 ==> f == e) && (j > 0 ==> !YnFree(f))
  {
    hide YnFree;
    PutSpine(op, e, p, x);
    PutApart(op, e, p, q, x);
    if j == 0 {
      PutSelf(op, e, p);
    } else {
      PutLeavesConstant(op, e, p, x);
    }
  }

  lemma {:induction false} PutSelf(op: Conn, e: Expr, p: Path)
    requires OnSpine(op, e, p)
    ensures Put(op, e, p, At(op, e, p)) == e
  {
    if p != [] {
      PutSelf(op, Child(e, p[0]), p[1..]);
    }
  }

  lemma JoinOperandsValue(op: Conn, e: Expr, p: Path, q: Path, v: Valuation)
    requires OnSpine(op, e, p) && OnSpine(op, e, q) && p != q && WellFormed(v)
    requires !IsBin(At(op, e, p), op) && !IsBin(At(op, e, q), op)
    ensures Value(JoinOperands(op, e, p, q).0, v) == Value(e, v)
  {
    hide WellFormed, ExprEq, JoinOr, JoinAnd, Equivalent, Value, SameSpine;
    var (x, z) := (At(op, e, p), At(op, e, q));
    match JoinTerms(op, x, z)
    case None =>
    case Some(t) =>
      JoinOperandsStep(op, e, p, q, t);
      JoinTermsValue(op, x, z);
      EquivalentAt(t, Bin(op, x, z), v);
      BinValue(op, x, z, v);
      NeutralValue(op, t, v);
      PutTwoValue(op, e, p, q, Neutral(op), t, v);
  }

  lemma NeutralValue(op: Conn, t: Expr, v: Valuation)
    requires WellFormed(v)
    ensures Join(op, Value(Neutral(op), v), Value(t, v)) == Value(t, v)
  {}

  /** expr_eliminate_dups1 keeps the value under every valuation, m included. */
  lemma {:induction false} Dups1Value(op: Conn, e: Expr, p: Path, q: Path, v: Valuation)
    requires OnSpine(op, e, p) && OnSpine(op, e, q) && WellFormed(v)
    ensures Value(Dups1(op, e, p, q).0, v) == Value(e, v)
    decreases Size(e), SpineSize(op, At(op, e, p)) + SpineSize(op, At(op, e, q))
  {
    hide WellFormed, Value, YnFree;
    if IsBin(At(op, e, p), op) {
      SpineStep(op, e, p, false);
      SpineStep(op, e, p, true);
      var (f, j) := Dups1(op, e, p + [false], q);
      SpineKept(op, e, f, p + [true], q);
      Dups1Value(op, e, p + [false], q, v);
      Dups1Value(op, f, p + [true], q, v);
    } else if IsBin(At(op, e, q), op) {
      SpineStep(op, e, q, false);
      SpineStep(op, e, q, true);
      var (f, j) := Dups1(op, e, p, q + [false]);
      SpineKept(op, e, f, p, q + [true]);
      Dups1Value(op, e, p, q + [false], v);
      Dups1Value(op, f, p, q + [true], v);
    } else if p != q {
      var x := At(op, e, p);
      OperandSmaller(op, e, p);
      var (x', j) := if x.Bin? then Dups1(x.op, x, [], []) else (x, 0);
      if x.Bin? {
        Dups1Value(x.op, x, [], [], v);
      }
      OperandKept(op, e, p, q, x', j);
      PutValue(op, e, p, x', v);
      JoinOperandsValue(op, Put(op, e, p, x'), p, q, v);
    }
  }

  // ----- expr_eliminate_dups2 -----

  /** expr.c:574-604: the operand x at p is decided when everything of its transformed negation
      is shared with the operand at q. */
  predicate Decided(op: Conn, x: Expr, z: Expr) {
    ExtractEq(op, Transform(Not(x)), z).1 == Neutral(op)
  }

  /** expr.c:556-610, with the number of times trans_count is bumped. */
  function Dups2(op: Conn, e: Expr, p: Path, q: Path): (r: (Expr, nat))
    requires OnSpine(op, e, p) && OnSpine(op, e, q)
    ensures SameSpine(op, e, r.0) && Size(r.0) <= Size(e)
    ensures r.1 == 0 ==> r.0 == e
    ensures r.1 > 0 ==> !YnFree(r.0)
    decreases Size(e), SpineSize(op, At(op, e, p)) + SpineSize(op, At(op, e, q)), 1
  {
    if IsBin(At(op, e, p), op) then
      SpineStep(op, e, p, false);
      SpineStep(op, e, p, true);
      var (f, j) := Dups2(op, e, p + [false], q);
      SpineKept(op, e, f, p + [true], q);
      var (g, k) := Dups2(op, f, p + [true], q);
      SameSpineTransitive(op, e, f, g);
      (g, j + k)
    else
      var (f, j) := Dups2Below(op, e, p, q);
      SpineKept(op, e, f, p, q);
      SameSpineAt(op, e, f, p);
      if p == q || !At(op, f, p).Bin? then (f, j)
      else
        OperandSmaller(op, f, p);
        ProperOperand(op, f, p, q);
        var (x, k) := Dups2(At(op, f, p).op, At(op, f, p), [], []);
        RewriteOperand(op, f, p, x, k);
        var g := Put(op, f, p, x);
        SameSpineTransitive(op, e, f, g);
        SameSpineAt(op, e, g, q);
        if Decided(op, x, At(op, g, q)) then
          RewriteOperand(op, g, p, Absorbing(op), 1);
          SameSpineTransitive(op, e, g, Put(op, g, p, Absorbing(op)));
          (Put(op, g, p, Absorbing(op)), j + k + 1)
        else (g, j + k)
  }

  /** expr.c:567-570: a node of the spine at q is entered, but not returned from. */
  function Dups2Below(op: Conn, e: Expr, p: Path, q: Path): (r: (Expr, nat))
    requires OnSpine(op, e, p) && OnSpine(op, e, q) && !IsBin(At(op, e, p), op)
    ensures SameSpine(op, e, r.0) && Size(r.0) <= Size(e)
    ensures r.1 == 0 ==> r.0 == e
    ensures r.1 > 0 ==> !YnFree(r.0)
    decreases Size(e), SpineSize(op, At(op, e, p)) + SpineSize(op, At(op, e, q)), 0
  {
    if IsBin(At(op, e, q), op) then
      SpineStep(op, e, q, false);
      SpineStep(op, e, q, true);
      var (f, j) := Dups2(op, e, p, q + [false]);
      SpineKept(op, e, f, p, q + [true]);
      var (g, k) := Dups2(op, f, p, q + [true]);
      SameSpineTransitive(op, e, f, g);
      (g, j + k)
    else SameSpineReflexive(op, e); (e, 0)
  }

  lemma ProperOperand(op: Conn, e: Expr, p: Path, q: Path)
    requires OnSpine(op, e, p) && OnSpine(op, e, q) && p != q && !IsBin(At(op, e, p), op)
    ensures p != [] && Size(At(op, e, p)) < Size(e)
  {
    OperandSmaller(op, e, p);
  }

  lemma RewriteOperand(op: Conn, e: Expr, p: Path, x: Expr, j: nat)
    requires OnSpine(op, e, p) && !IsBin(At(op, e, p), op) && !IsBin(x, op)
    requires Size(x) <= Size(At(op, e, p)) && (j == 0 ==> x == At(op, e, p))
    requires j > 0 ==> !YnFree(x) || (p != [] && IsYn(x))
    ensures var f := Put(op, e, p, x);
            && SameSpine(op, e, f) && Size(f) <= Size(e)
            && OnSpine(op, f, p) && At(op, f, p) == x
            && (j == 0 ==> f == e) && (j > 0 ==> !YnFree(f))
  {
    hide YnFree;
    PutSpine(op, e, p, x);
    if j == 0 {
      PutSelf(op, e, p);
    } else {
      PutLeavesConstant(op, e, p, x);
    }
  }

  // ----- what connectives combine -----

  /** A property that holds of an expression when it holds of what its connectives combine. */
  predicate Atoms(ok: Expr -> bool, e: Expr) {
    if e.Bin? then Atoms(ok, e.l) && Atoms(ok, e.r) else ok(e)
  }

  /** ... and that the rewrites cannot lose. */
  ghost predicate Stable(ok: Expr -> bool) {
    ok(Sym(Yes)) && ok(Sym(No)) && forall a, b :: ok(Equal(a, b)) && ok(Unequal(a, b))
  }

  lemma {:induction false} AtomsPut(ok: Expr -> bool, op: Conn, e: Expr, p: Path, x: Expr)
    requires Atoms(ok, e) && OnSpine(op, e, p)
    ensures Atoms(ok, At(op, e, p))
    ensures Atoms(ok, x) ==> Atoms(ok, Put(op, e, p, x))
  {
    if p != [] {
      AtomsPut(ok, op, Child(e, p[0]), p[1..], x);
    }
  }

  lemma AtomsJoin(ok: Expr -> bool, op: Conn, e1: Expr, e2: Expr)
    requires Stable(ok) && Atoms(ok, e1) && Atoms(ok, e2) && JoinTerms(op, e1, e2).Some?
    ensures Atoms(ok, JoinTerms(op, e1, e2).value)
  {
    hide ExprEq;
  }

  lemma {:induction false} AtomsYn(ok: Expr -> bool, e: Expr)
    requires Stable(ok) && Atoms(ok, e)
    ensures Atoms(ok, EliminateYn(e))
  {
    if e.Bin? {
      AtomsYn(ok, e.l);
      AtomsYn(ok, e.r);
    }
  }

  lemma {:induction false} AtomsDups1(ok: Expr -> bool, op: Conn, e: Expr, p: Path, q: Path)
    requires OnSpine(op, e, p) && OnSpine(op, e, q) && Stable(ok) && Atoms(ok, e)
    ensures Atoms(ok, Dups1(op, e, p, q).0)
    decreases Size(e), SpineSize(op, At(op, e, p)) + SpineSize(op, At(op, e, q))
  {
    hide YnFree, JoinTerms, Stable;
    if IsBin(At(op, e, p), op) {
      SpineStep(op, e, p, false);
      SpineStep(op, e, p, true);
      var (f, j) := Dups1(op, e, p + [false], q);
      SpineKept(op, e, f, p + [true], q);
      AtomsDups1(ok, op, e, p + [false], q);
      AtomsDups1(ok, op, f, p + [true], q);
    } else if IsBin(At(op, e, q), op) {
      SpineStep(op, e, q, false);
      SpineStep(op, e, q, true);
      var (f, j) := Dups1(op, e, p, q + [false]);
      SpineKept(op, e, f, p, q + [true]);
      AtomsDups1(ok, op, e, p, q + [false]);
      AtomsDups1(ok, op, f, p, q + [true]);
    } else if p != q {
      var x := At(op, e, p);
      OperandSmaller(op, e, p);
      var (x', j) := if x.Bin? then Dups1(x.op, x, [], []) else (x, 0);
      AtomsPut(ok, op, e, p, x');
      if x.Bin? {
        AtomsDups1(ok, x.op, x, [], []);
      }
      OperandKept(op, e, p, q, x', j);
      AtomsJoinOperands(ok, op, Put(op, e, p, x'), p, q);
    }
  }

  lemma AtomsJoinOperands(ok: Expr -> bool, op: Conn, e: Expr, p: Path, q: Path)
    requires OnSpine(op, e, p) && OnSpine(op, e, q) && p != q && Stable(ok) && Atoms(ok, e)
    requires !IsBin(At(op, e, p), op) && !IsBin(At(op, e, q), op)
    ensures Atoms(ok, JoinOperands(op, e, p, q).0)
  {
    assert Atoms(ok, Neutral(op));
    hide YnFree, JoinTerms, Stable, Neutral;
    AtomsPut(ok, op, e, p, e);
    var (x, z) := (At(op, e, p), At(op, e, q));
    match JoinTerms(op, x, z)
    case None =>
    case Some(t) =>
      JoinOperandsStep(op, e, p, q, t);
      AtomsPut(ok, op, e, q, t);
      AtomsJoin(ok, op, x, z);
      AtomsPut(ok, op, Put(op, e, q, t), p, Neutral(op));
  }

  lemma {:induction false} AtomsDups2(ok: Expr -> bool, op: Conn, e: Expr, p: Path, q: Path)
    requires OnSpine(op, e, p) && OnSpine(op, e, q) && Stable(ok) && Atoms(ok, e)
    ensures Atoms(ok, Dups2(op, e, p, q).0)
    decreases Size(e), SpineSize(op, At(op, e, p)) + SpineSize(op, At(op, e, q)), 1
  {
    assert Atoms(ok, Absorbing(op));
    hide YnFree, Stable, Decided, Absorbing;
    if IsBin(At(op, e, p), op) {
      SpineStep(op, e, p, false);
      SpineStep(op, e, p, true);
      var (f, j) := Dups2(op, e, p + [false], q);
      SpineKept(op, e, f, p + [true], q);
      AtomsDups2(ok, op, e, p + [false], q);
      AtomsDups2(ok, op, f, p + [true], q);
    } else {
      var (f, j) := Dups2Below(op, e, p, q);
      AtomsDups2Below(ok, op, e, p, q);
      SpineKept(op, e, f, p, q);
      SameSpineAt(op, e, f, p);
      if p != q && At(op, f, p).Bin? {
        OperandSmaller(op, f, p);
        ProperOperand(op, f, p, q);
        var (x, k) := Dups2(At(op, f, p).op, At(op, f, p), [], []);
        AtomsPut(ok, op, f, p, x);
        AtomsDups2(ok, At(op, f, p).op, At(op, f, p), [], []);
        RewriteOperand(op, f, p, x, k);
        AtomsPut(ok, op, Put(op, f, p, x), p, Absorbing(op));
      }
    }
  }

  lemma {:induction false} AtomsDups2Below(ok: Expr -> bool, op: Conn, e: Expr, p: Path, q: Path)
    requires OnSpine(op, e, p) && OnSpine(op, e, q) && !IsBin(At(op, e, p), op) && Stable(ok) && Atoms(ok, e)
    ensures Atoms(ok, Dups2Below(op, e, p, q).0)
    decreases Size(e), SpineSize(op, At(op, e, p)) + SpineSize(op, At(op, e, q)), 0
  {
    if IsBin(At(op, e, q), op) {
      SpineStep(op, e, q, false);
      SpineStep(op, e, q, true);
      var (f, j) := Dups2(op, e, p, q + [false]);
      SpineKept(op, e, f, p, q + [true]);
      AtomsDups2(ok, op, e, p, q + [false]);
      AtomsDups2(ok, op, f, p, q + [true]);
    }
  }

  /** A decided operand x at p: the spine has the deciding value, unless it has the value m. */
  lemma DecidedExact(op: Conn, e: Expr, p: Path, q: Path, v: Valuation)
    requires OnSpine(op, e, p) && OnSpine(op, e, q) && WellFormed(v)
    requires Decided(op, At(op, e, p), At(op, e, q))
    ensures Value(Put(op, e, p, Absorbing(op)), v) == Value(e, v) <==> Value(e, v) != MOD
    ensures Value(At(op, e, p), v) != MOD ==> Value(e, v) != MOD
  {
    var (x, z) := (At(op, e, p), At(op, e, q));
    TransformValue(Not(x), v);
    ExtractedImplies(op, Transform(Not(x)), z, v);
    PutValue(op, e, p, Absorbing(op), v);
    PutValue(op, e, q, z, v);
    YesValue(v);
    hide WellFormed, RestOf, Put, Transform, ExtractEq, At;
    assert Value(Not(x), v) == 2 - Value(x, v);
  }

  /** Where an operand that is m does not show in the value, no other value of it does. */
  lemma JoinDecided(op: Conn, a: Tri, b: Tri, rest: Tri)
    requires Join(op, a, rest) != MOD && (a != MOD ==> b == a)
    ensures Join(op, b, rest) == Join(op, a, rest)
  {}

  /** expr_eliminate_dups2 keeps every value but m, whatever the values of the symbols. */
  lemma {:induction false} Dups2Value(op: Conn, e: Expr, p: Path, q: Path, v: Valuation)
    requires OnSpine(op, e, p) && OnSpine(op, e, q) && WellFormed(v) && Value(e, v) != MOD
    ensures Value(Dups2(op, e, p, q).0, v) == Value(e, v)
    decreases Size(e), SpineSize(op, At(op, e, p)) + SpineSize(op, At(op, e, q)), 1
  {
    hide WellFormed, Value, YnFree, Decided;
    if IsBin(At(op, e, p), op) {
      SpineStep(op, e, p, false);
      SpineStep(op, e, p, true);
      var (f, j) := Dups2(op, e, p + [false], q);
      SpineKept(op, e, f, p + [true], q);
      Dups2Value(op, e, p + [false], q, v);
      Dups2Value(op, f, p + [true], q, v);
    } else {
      var (f, j) := Dups2Below(op, e, p, q);
      Dups2BelowValue(op, e, p, q, v);
      SpineKept(op, e, f, p, q);
      SameSpineAt(op, e, f, p);
      if p != q && At(op, f, p).Bin? {
        Dups2OperandValue(op, f, p, q, v, Size(e), SpineSize(op, At(op, e, p)) + SpineSize(op, At(op, e, q)));
      }
    }
  }

  lemma {:induction false} Dups2BelowValue(op: Conn, e: Expr, p: Path, q: Path, v: Valuation)
    requires OnSpine(op, e, p) && OnSpine(op, e, q) && !IsBin(At(op, e, p), op)
    requires WellFormed(v) && Value(e, v) != MOD
    ensures Value(Dups2Below(op, e, p, q).0, v) == Value(e, v)
    decreases Size(e), SpineSize(op, At(op, e, p)) + SpineSize(op, At(op, e, q)), 0
  {
    hide WellFormed, Value, YnFree, Decided;
    if IsBin(At(op, e, q), op) {
      SpineStep(op, e, q, false);
      SpineStep(op, e, q, true);
      var (f, j) := Dups2(op, e, p, q + [false]);
      SpineKept(op, e, f, p, q + [true]);
      Dups2Value(op, e, p, q + [false], v);
      Dups2Value(op, f, p, q + [true], v);
    }
  }

  /** The operand at p is rewritten on its own spine, and then decided or not. */
  lemma {:induction false} Dups2OperandValue(op: Conn, e: Expr, p: Path, q: Path, v: Valuation, size: nat, spine: nat)
    requires OnSpine(op, e, p) && OnSpine(op, e, q) && p != q && !IsBin(At(op, e, p), op) && At(op, e, p).Bin?
    requires WellFormed(v) && Value(e, v) != MOD && Size(e) <= size
    ensures var x := Dups2(At(op, e, p).op, At(op, e, p), [], []).0;
            && !IsBin(x, op) && OnSpine(op, Put(op, e, p, x), p) && OnSpine(op, Put(op, e, p, x), q)
            && Value(Put(op, e, p, x), v) == Value(e, v)
            && (Decided(op, x, At(op, Put(op, e, p, x), q)) ==>
                  Value(Put(op, Put(op, e, p, x), p, Absorbing(op)), v) == Value(e, v))
    decreases size, spine, 0
  {
    hide WellFormed, Value, YnFree, Decided, Absorbing, Join;
    var a := At(op, e, p);
    ProperOperand(op, e, p, q);
    var (x, k) := Dups2(a.op, a, [], []);
    if Value(a, v) != MOD {
      Dups2Value(a.op, a, [], [], v);
    }
    RewriteOperand(op, e, p, x, k);
    var g := Put(op, e, p, x);
    SameSpineAt(op, e, g, q);
    PutValue(op, e, p, x, v);
    JoinDecided(op, Value(a, v), Value(x, v), RestOf(op, e, p, v));
    if Decided(op, x, At(op, g, q)) {
      DecidedExact(op, g, p, q, v);
    }
  }

  // ----- expr_eliminate_dups -----

  /** One round of the loop of expr.c:619-631. */
  function Pass(e: Expr): (r: (Expr, nat))
    ensures Size(r.0) <= Size(e)
    ensures r.1 == 0 ==> r.0 == e
    ensures r.1 > 0 ==> Size(EliminateYn(r.0)) < Size(e)
  {
    if e.Bin? then
      var (f, j) := Dups1(e.op, e, [], []);
      var (g, k) := Dups2(f.op, f, [], []);
      (g, j + k)
    else (e, 0)
  }

  /** The round without its second half. */
  function FirstPass(e: Expr): (r: (Expr, nat))
    ensures Size(r.0) <= Size(e)
    ensures r.1 > 0 ==> Size(EliminateYn(r.0)) < Size(e)
  {
    if e.Bin? then Dups1(e.op, e, [], []) else (e, 0)
  }

  /** A round keeps every value but m, and its first half keeps that too. */
  lemma PassValue(e: Expr, v: Valuation)
    requires WellFormed(v)
    ensures Value(FirstPass(e).0, v) == Value(e, v)
    ensures Value(e, v) != MOD ==> Value(Pass(e).0, v) == Value(e, v)
  {
    hide WellFormed, Value, Dups1, Dups2;
    if e.Bin? {
      Dups1Value(e.op, e, [], [], v);
      if Value(e, v) != MOD {
        Dups2Value(e.op, Dups1(e.op, e, [], []).0, [], [], v);
      }
    }
  }

  /** What the loop returns. */
  function Reduced(e: Expr): (r: Expr)
    ensures Size(r) <= Size(e) && Pass(r).1 == 0
    decreases Size(e)
  {
    var (f, k) := Pass(e);
    if k == 0 then e else Reduced(EliminateYn(f))
  }

  /** expr.c:612-634.  The loop ends because every round that counts a rewrite loses a node. */
  method EliminateDups(e0: Expr) returns (e: Expr)
    ensures e == Reduced(e0)
  {
    hide Pass, Size;
    e := e0;
    while true
      invariant Reduced(e) == Reduced(e0)
      decreases Size(e)
    {
      var (f, transCount) := Pass(e);
      if transCount == 0 {
        e := f;
        break;
      }
      e := EliminateYn(f);
    }
  }

  /** The same loop without expr_eliminate_dups2. */
  function FirstReduced(e: Expr): (r: Expr)
    decreases Size(e)
  {
    var (f, k) := FirstPass(e);
    if k == 0 then f else FirstReduced(EliminateYn(f))
  }

  /** expr_eliminate_dups keeps every value but m, whatever the values of the symbols. */
  lemma {:induction false} ReducedValue(e: Expr, v: Valuation)
    requires WellFormed(v) && Value(e, v) != MOD
    ensures Value(Reduced(e), v) == Value(e, v)
    decreases Size(e)
  {
    hide WellFormed, Value, Pass;
    var (f, k) := Pass(e);
    if k != 0 {
      PassValue(e, v);
      EliminateYnValue(f, v);
      ReducedValue(EliminateYn(f), v);
    }
  }

  /** No symbol that stands alone in e has the value m. */
  predicate TwoValued(e: Expr, v: Valuation) {
    match e
    case Sym(s) => v.tri(s) != MOD
    case Not(x) => TwoValued(x, v)
    case Bin(_, l, r) => TwoValued(l, v) && TwoValued(r, v)
    case _ => true
  }

  lemma {:induction false} TwoValuedValue(e: Expr, v: Valuation)
    requires TwoValued(e, v)
    ensures Value(e, v) != MOD
  {
    match e
    case Not(x) => TwoValuedValue(x, v);
    case Bin(_, l, r) => TwoValuedValue(l, v); TwoValuedValue(r, v);
    case _ =>
  }

  /** In particular it keeps the value where no symbol that stands alone is m. */
  lemma ReducedTwoValued(e: Expr, v: Valuation)
    requires WellFormed(v) && TwoValued(e, v)
    ensures Value(Reduced(e), v) == Value(e, v) && Value(e, v) != MOD
  {
    TwoValuedValue(e, v);
    ReducedValue(e, v);
  }

  /** What an operand that decides the spine makes of the value. */
  lemma AbsorbedValue(op: Conn, e: Expr, p: Path, v: Valuation)
    requires OnSpine(op, e, p) && At(op, e, p) == Absorbing(op) && WellFormed(v)
    ensures Value(e, v) == if op == Or then YES else NO
  {
    PutValue(op, e, p, Absorbing(op), v);
    YesValue(v);
    hide WellFormed, RestOf, Put, At;
  }

  /** The converse for the outermost spine: once the first round has decided an operand of it, every
      value of m is lost, and no other value is. */
  lemma ReducedLosesM(e: Expr, p: Path, v: Valuation)
    requires e.Bin? && Pass(e).1 > 0 && WellFormed(v)
    requires OnSpine(e.op, Pass(e).0, p) && At(e.op, Pass(e).0, p) == Absorbing(e.op)
    ensures Value(Reduced(e), v) == if e.op == Or then YES else NO
    ensures Value(Reduced(e), v) == Value(e, v) <==> Value(e, v) != MOD
  {
    var f := Pass(e).0;
    AbsorbedValue(e.op, f, p, v);
    EliminateYnValue(f, v);
    hide WellFormed, Pass, At, Absorbing;
    ReducedValue(EliminateYn(f), v);
    if Value(e, v) != MOD {
      ReducedValue(e, v);
    }
  }

  /** Without its second half it keeps the value under every valuation. */
  lemma {:induction false} FirstReducedValue(e: Expr, v: Valuation)
    requires WellFormed(v)
    ensures Value(FirstReduced(e), v) == Value(e, v)
    decreases Size(e)
  {
    hide WellFormed, Value, FirstPass;
    var (f, k) := FirstPass(e);
    PassValue(e, v);
    if k != 0 {
      EliminateYnValue(f, v);
      FirstReducedValue(EliminateYn(f), v);
    }
  }

  lemma {:induction false} NormalAtoms(e: Expr)
    ensures NegationNormal(e) <==> Atoms(x => NegationNormal(x), e)
  {
    if e.Bin? {
      NormalAtoms(e.l);
      NormalAtoms(e.r);
    }
  }

  /** Negations stay where expr_transform has put them. */
  lemma {:induction false} ReducedNormal(e: Expr)
    requires NegationNormal(e)
    ensures NegationNormal(Reduced(e))
    decreases Size(e)
  {
    hide NegationNormal, Dups1, Dups2, EliminateYn;
    var ok := (x: Expr) => NegationNormal(x);
    NormalStable();
    var (f, k) := Pass(e);
    if k != 0 && e.Bin? {
      NormalAtoms(e);
      AtomsDups1(ok, e.op, e, [], []);
      AtomsDups2(ok, e.op, Dups1(e.op, e, [], []).0, [], []);
      AtomsYn(ok, f);
      NormalAtoms(EliminateYn(f));
      ReducedNormal(EliminateYn(f));
    }
  }

  lemma NormalStable()
    ensures Stable(x => NegationNormal(x))
  {}

  /** The visibility of a prompt of a boolean symbol (menu.c:306-310): the rewriting pipeline keeps
      whether the conjunction of the two dependencies is n, unless it is m. */
  lemma PipelineVisible(base: Expr, dep: Expr, v: Valuation)
    requires WellFormed(v) && NegationNormal(base) && Min(Value(base, v), Value(dep, v)) != MOD
    ensures var e := Bin(And, base, Transform(dep));
            Value(TransBool(Reduced(e)), v) == NO <==> Value(base, v) == NO || Value(dep, v) == NO
  {
    var e := Bin(And, base, Transform(dep));
    TransformValue(dep, v);
    ReducedValue(e, v);
    ReducedNormal(e);
    TransBoolVisible(Reduced(e), v);
    hide WellFormed, Reduced, TransBool, Transform;
  }

  // ----- a value of m that is lost -----

  /** A || B and !A && !B, or with both connectives exchanged. */
  function Either(op: Conn, a: Symbol, b: Symbol): Expr { Bin(Dual(op), Sym(a), Sym(b)) }

  function Neither(op: Conn, a: Symbol, b: Symbol): Expr { Bin(op, Not(Sym(a)), Not(Sym(b))) }

  function Both(op: Conn, a: Symbol, b: Symbol): Expr { Bin(op, Either(op, a, b), Neither(op, a, b)) }

  lemma NotEither(op: Conn, a: Symbol, b: Symbol)
    requires a.Named? && b.Named?
    ensures Transform(Not(Either(op, a, b))) == Neither(op, a, b)
  {
    var (x, z) := (Either(op, a, b), Neither(op, a, b));
    assert Transform(Sym(a)) == Sym(a) && Transform(Sym(b)) == Sym(b);
    assert Transform(Not(Sym(a))) == Not(Sym(a)) && Transform(Not(Sym(b))) == Not(Sym(b));
    assert Transform(x) == x;
    assert Transform(z) == z;
    assert TransformOperands(Not(x)) == Not(x);
    assert Transform(Not(x)) == Transform(z);
  }

  lemma DifferentTypes(e: Expr, f: Expr)
    requires !SameType(e, f)
    ensures !ExprEq(e, f)
  {}

  lemma NegationsDiffer(op: Conn, a: Symbol, b: Symbol)
    requires a != b
    ensures var na, nb, t := Not(Sym(a)), Not(Sym(b)), Neutral(op);
            && ExprEq(na, na) && ExprEq(nb, nb) && !ExprEq(na, nb) && !ExprEq(nb, na)
            && !ExprEq(t, nb) && !ExprEq(nb, t) && EliminateYn(na) == na && EliminateYn(nb) == nb
  {
    var na, nb, t := Not(Sym(a)), Not(Sym(b)), Neutral(op);
    DifferentTypes(t, nb);
    DifferentTypes(nb, t);
    assert ExprEq(Sym(a), Sym(a)) && ExprEq(Sym(b), Sym(b)) && !ExprEq(Sym(a), Sym(b));
  }

  lemma ExtractWhole(op: Conn, a: Symbol, b: Symbol)
    requires a != b
    ensures var z := Neither(op, a, b); ExtractEq(op, z, z).1 == Neutral(op)
  {
    var na, nb, t, z := Not(Sym(a)), Not(Sym(b)), Neutral(op), Neither(op, a, b);
    NegationsDiffer(op, a, b);
    hide ExprEq;
    var f := Bin(op, t, nb);
    assert ExtractEqUnder(op, None, na, na) == (Some(na), t, t);
    assert ExtractEqUnder(op, Some(na), t, nb) == (Some(na), t, nb);
    assert ExtractEqUnder(op, None, na, Bin(op, na, nb)) == (Some(na), t, f);
    assert ExtractEqUnder(op, Some(na), nb, t) == (Some(na), nb, t);
    assert ExtractEqUnder(op, Some(na), nb, nb) == (Some(Bin(op, na, nb)), t, t);
    assert ExtractEqUnder(op, Some(na), nb, f) == (Some(Bin(op, na, nb)), t, Bin(op, t, t));
    assert ExtractEqUnder(op, None, z, z) == (Some(z), Bin(op, t, t), Bin(op, t, t));
    assert EliminateYn(t) == t && EliminateYn(Bin(op, t, t)) == t;
    assert ExtractEq(op, z, z) == (Some(z), t, t);
  }

  lemma ExtractPart(op: Conn, a: Symbol, b: Symbol)
    requires a != b
    ensures forall s :: s == a || s == b ==> ExtractEq(op, Neither(op, a, b), Not(Sym(s))).1 != Neutral(op)
  {
    var na, nb, t, z := Not(Sym(a)), Not(Sym(b)), Neutral(op), Neither(op, a, b);
    NegationsDiffer(op, a, b);
    hide ExprEq;
    var f := Bin(op, t, nb);
    assert ExtractEqUnder(op, None, na, na) == (Some(na), t, t);
    assert ExtractEqUnder(op, Some(na), nb, t) == (Some(na), nb, t);
    assert ExtractEqUnder(op, None, z, na) == (Some(na), f, t);
    assert ExtractEqUnder(op, None, na, nb) == (None, na, nb);
    assert ExtractEqUnder(op, None, nb, nb) == (Some(nb), t, t);
    assert ExtractEqUnder(op, None, z, nb) == (Some(nb), Bin(op, na, t), t);
    assert EliminateYn(t) == t && EliminateYn(f) == nb && EliminateYn(Bin(op, na, t)) == na;
  }

  predicate IsOperand(op: Conn, e: Expr, p: Path) {
    OnSpine(op, e, p) && !IsBin(At(op, e, p), op)
  }

  /** No two operands of the spine can be joined, and none can be rewritten on its own. */
  ghost predicate Idle(op: Conn, e: Expr) {
    && (forall p, q :: IsOperand(op, e, p) && IsOperand(op, e, q) && p != q ==> JoinTerms(op, At(op, e, p), At(op, e, q)).None?)
    && (forall p :: IsOperand(op, e, p) && At(op, e, p).Bin? ==> Dups1(At(op, e, p).op, At(op, e, p), [], []) == (At(op, e, p), 0))
  }

  lemma {:induction false} Dups1Idle(op: Conn, e: Expr, p: Path, q: Path)
    requires OnSpine(op, e, p) && OnSpine(op, e, q) && Idle(op, e)
    ensures Dups1(op, e, p, q) == (e, 0)
    decreases SpineSize(op, At(op, e, p)) + SpineSize(op, At(op, e, q))
  {
    hide YnFree, JoinTerms;
    if IsBin(At(op, e, p), op) {
      SpineStep(op, e, p, false);
      SpineStep(op, e, p, true);
      Dups1Idle(op, e, p + [false], q);
      Dups1Idle(op, e, p + [true], q);
    } else if IsBin(At(op, e, q), op) {
      SpineStep(op, e, q, false);
      SpineStep(op, e, q, true);
      Dups1Idle(op, e, p, q + [false]);
      Dups1Idle(op, e, p, q + [true]);
    } else if p != q {
      PutSelf(op, e, p);
      assert IsOperand(op, e, p) && IsOperand(op, e, q);
    }
  }

  /** An operand that is no connective decides nothing. */
  lemma {:induction false} Dups2Leaf(op: Conn, e: Expr, p: Path, q: Path)
    requires OnSpine(op, e, p) && OnSpine(op, e, q) && !At(op, e, p).Bin?
    ensures Dups2(op, e, p, q) == (e, 0) && Dups2Below(op, e, p, q) == (e, 0)
    decreases SpineSize(op, At(op, e, q))
  {
    hide YnFree, Decided;
    if IsBin(At(op, e, q), op) {
      SpineStep(op, e, q, false);
      SpineStep(op, e, q, true);
      Dups2Leaf(op, e, p, q + [false]);
      Dups2Leaf(op, e, p, q + [true]);
    }
  }

  lemma OperandBelow(op: Conn, l: Expr, r: Expr, p: Path)
    requires IsOperand(op, Bin(op, l, r), p)
    ensures p != [] && p == [p[0]] + p[1..]
    ensures IsOperand(op, if p[0] then r else l, p[1..])
    ensures At(op, Bin(op, l, r), p) == At(op, if p[0] then r else l, p[1..])
  {}

  lemma OperandItself(op: Conn, e: Expr, p: Path)
    requires IsOperand(op, e, p) && !IsBin(e, op)
    ensures p == [] && At(op, e, p) == e
  {}

  /** Two operands that are no connectives and cannot be joined are left alone. */
  lemma PairIdle(op: Conn, x: Expr, z: Expr)
    requires !x.Bin? && !z.Bin? && JoinTerms(op, x, z).None? && JoinTerms(op, z, x).None?
    ensures Dups1(op, Bin(op, x, z), [], []) == (Bin(op, x, z), 0)
  {
    var e := Bin(op, x, z);
    hide JoinTerms;
    forall p | IsOperand(op, e, p)
      ensures (p == [false] && At(op, e, p) == x) || (p == [true] && At(op, e, p) == z)
    {
      OperandBelow(op, x, z, p);
      OperandItself(op, if p[0] then z else x, p[1..]);
    }
    Dups1Idle(op, e, [], []);
  }

  lemma PairKept(op: Conn, x: Expr, z: Expr)
    requires !x.Bin? && !z.Bin?
    ensures Dups2(op, Bin(op, x, z), [], []) == (Bin(op, x, z), 0)
  {
    hide YnFree, Decided;
    var e := Bin(op, x, z);
    assert [] + [false] == [false] && [] + [true] == [true];
    SpineStep(op, e, [], false);
    SpineStep(op, e, [], true);
    Dups2Leaf(op, e, [false], []);
    Dups2Leaf(op, e, [true], []);
  }

  lemma PairReduced(op: Conn, x: Expr, z: Expr)
    requires !x.Bin? && !z.Bin? && JoinTerms(op, x, z).None? && JoinTerms(op, z, x).None?
    ensures Reduced(Bin(op, x, z)) == Bin(op, x, z)
  {
    PairIdle(op, x, z);
    PairKept(op, x, z);
    hide JoinTerms, Dups1, Dups2;
  }

  lemma EitherIdle(op: Conn, a: Symbol, b: Symbol)
    requires a != b
    ensures Dups1(Dual(op), Either(op, a, b), [], []) == (Either(op, a, b), 0)
  {
    PairIdle(Dual(op), Sym(a), Sym(b));
    hide Dups1;
  }

  lemma BothOperand(op: Conn, a: Symbol, b: Symbol, p: Path)
    requires IsOperand(op, Both(op, a, b), p)
    ensures || (p == [false] && At(op, Both(op, a, b), p) == Either(op, a, b))
            || (p == [true, false] && At(op, Both(op, a, b), p) == Not(Sym(a)))
            || (p == [true, true] && At(op, Both(op, a, b), p) == Not(Sym(b)))
  {
    OperandBelow(op, Either(op, a, b), Neither(op, a, b), p);
    if p[0] {
      var q := p[1..];
      OperandBelow(op, Not(Sym(a)), Not(Sym(b)), q);
      OperandItself(op, Not(Sym(if q[0] then b else a)), q[1..]);
    } else {
      OperandItself(op, Either(op, a, b), p[1..]);
    }
  }

  lemma NotEqual(a: Symbol, b: Symbol)
    requires a != b
    ensures !ExprEq(Not(Sym(a)), Not(Sym(b)))
  {
    assert !ExprEq(Sym(a), Sym(b));
  }

  lemma NotJoined(op: Conn, a: Symbol, b: Symbol, x: Expr, z: Expr)
    requires a != b && x != z
    requires x in {Either(op, a, b), Not(Sym(a)), Not(Sym(b))} && z in {Either(op, a, b), Not(Sym(a)), Not(Sym(b))}
    ensures JoinTerms(op, x, z).None?
  {
    if x.Not? && z.Not? {
      NotEqual(x.e.s, z.e.s);
    } else {
      DifferentTypes(x, z);
    }
    hide ExprEq, SameType;
    assert FirstSymbol(x) == if x.Not? then Some(x.e.s) else None;
    assert SecondSymbol(z) == if z.Not? then Some(z.e.s) else None;
  }

  lemma BothIdle(op: Conn, a: Symbol, b: Symbol)
    requires a != b
    ensures Dups1(op, Both(op, a, b), [], []) == (Both(op, a, b), 0)
  {
    var e := Both(op, a, b);
    EitherIdle(op, a, b);
    hide IsOperand, JoinTerms, Dups1;
    forall p, q | IsOperand(op, e, p) && IsOperand(op, e, q) && p != q
      ensures JoinTerms(op, At(op, e, p), At(op, e, q)).None?
    {
      BothOperand(op, a, b, p);
      BothOperand(op, a, b, q);
      NotJoined(op, a, b, At(op, e, p), At(op, e, q));
    }
    forall p | IsOperand(op, e, p) && At(op, e, p).Bin?
      ensures Dups1(At(op, e, p).op, At(op, e, p), [], []) == (At(op, e, p), 0)
    {
      BothOperand(op, a, b, p);
    }
    Dups1Idle(op, e, [], []);
  }

  /** The first operand against one that does not decide it, or against itself. */
  lemma EitherUndecided(op: Conn, a: Symbol, b: Symbol, q: Path)
    requires IsOperand(op, Both(op, a, b), q) && (q == [false] || !Decided(op, Either(op, a, b), At(op, Both(op, a, b), q)))
    ensures Dups2(op, Both(op, a, b), [false], q) == (Both(op, a, b), 0)
  {
    hide YnFree, Decided;
    PairKept(Dual(op), Sym(a), Sym(b));
    PutSelf(op, Both(op, a, b), [false]);
  }

  lemma EitherDecided(op: Conn, a: Symbol, b: Symbol)
    requires a.Named? && b.Named? && a != b
    ensures Decided(op, Either(op, a, b), Neither(op, a, b))
    ensures !Decided(op, Either(op, a, b), Not(Sym(a))) && !Decided(op, Either(op, a, b), Not(Sym(b)))
  {
    NotEither(op, a, b);
    ExtractWhole(op, a, b);
    ExtractPart(op, a, b);
    hide Transform, ExtractEq;
  }

  /** With m the second half is not an equality: (A || B) && (!A && !B) becomes n, which is its
      value exactly when the larger of A and B is not m; (A && B) || (!A || !B) becomes y, which is
      its value exactly when the smaller of them is not m. */
  lemma DecidedWithM(op: Conn, a: Symbol, b: Symbol, v: Valuation)
    requires a.Named? && b.Named? && a != b && WellFormed(v)
    ensures Decided(op, Either(op, a, b), Neither(op, a, b))
    ensures Value(Both(op, a, b), v) == (if op == And then NO else YES) <==> (if op == And then Max(v.tri(a), v.tri(b)) else Min(v.tri(a), v.tri(b))) != MOD
  {
    EitherDecided(op, a, b);
    hide WellFormed, Decided;
    NotValue(a, v);
    NotValue(b, v);
    BinValue(Dual(op), Sym(a), Sym(b), v);
    BinValue(op, Not(Sym(a)), Not(Sym(b)), v);
    BinValue(op, Either(op, a, b), Neither(op, a, b), v);
    hide Value;
  }

  lemma OperandsWithNeither(op: Conn, x: Expr, a: Symbol, b: Symbol)
    requires !IsBin(x, op)
    ensures var e := Bin(op, x, Neither(op, a, b));
            && IsOperand(op, e, [false]) && At(op, e, [false]) == x
            && IsOperand(op, e, [true, false]) && At(op, e, [true, false]) == Not(Sym(a))
            && IsOperand(op, e, [true, true]) && At(op, e, [true, true]) == Not(Sym(b))
            && OnSpine(op, e, [true]) && At(op, e, [true]) == Neither(op, a, b)
  {
    var e := Bin(op, x, Neither(op, a, b));
    assert [] + [false] == [false] && [] + [true] == [true];
    assert [true] + [false] == [true, false] && [true] + [true] == [true, true];
    SpineStep(op, e, [], false);
    SpineStep(op, e, [], true);
    SpineStep(op, e, [true], false);
    SpineStep(op, e, [true], true);
  }

  /** Against the operand on the right, as a whole, the first operand is decided. */
  lemma FirstDecided(op: Conn, a: Symbol, b: Symbol)
    requires a.Named? && b.Named? && a != b
    ensures var e := Both(op, a, b);
            && OnSpine(op, e, [false]) && OnSpine(op, e, [true])
            && Dups2(op, e, [false], [true]) == (Bin(op, Absorbing(op), Neither(op, a, b)), 1)
            && Dups2(op, e, [false], [false]) == (e, 0)
  {
    hide YnFree, Decided;
    var e := Both(op, a, b);
    EitherDecided(op, a, b);
    PairKept(Dual(op), Sym(a), Sym(b));
    OperandsWithNeither(op, Either(op, a, b), a, b);
    assert [true] + [false] == [true, false] && [true] + [true] == [true, true];
    EitherUndecided(op, a, b, [false]);
    EitherUndecided(op, a, b, [true, false]);
    EitherUndecided(op, a, b, [true, true]);
    assert Dups2Below(op, e, [false], [true]) == (e, 0);
    PutSelf(op, e, [false]);
    assert Put(op, e, [false], Absorbing(op)) == Bin(op, Absorbing(op), Neither(op, a, b));
  }

  /** Then what is left of the first operand is a constant, and decides nothing more. */
  lemma RestDecidesNothing(op: Conn, a: Symbol, b: Symbol)
    ensures var f := Bin(op, Absorbing(op), Neither(op, a, b));
            OnSpine(op, f, [true]) && Dups2(op, f, [true], []) == (f, 0)
  {
    hide YnFree, Decided;
    var f := Bin(op, Absorbing(op), Neither(op, a, b));
    OperandsWithNeither(op, Absorbing(op), a, b);
    assert [true] + [false] == [true, false] && [true] + [true] == [true, true];
    Dups2Leaf(op, f, [true, false], []);
    Dups2Leaf(op, f, [true, true], []);
  }

  lemma FirstAgainstAll(op: Conn, a: Symbol, b: Symbol)
    requires a.Named? && b.Named? && a != b
    ensures OnSpine(op, Both(op, a, b), [false]) && Dups2(op, Both(op, a, b), [false], []) == (Bin(op, Absorbing(op), Neither(op, a, b)), 1)
  {
    hide YnFree, Decided;
    var e := Both(op, a, b);
    var f := Bin(op, Absorbing(op), Neither(op, a, b));
    FirstDecided(op, a, b);
    OperandsWithNeither(op, Either(op, a, b), a, b);
    OperandsWithNeither(op, Absorbing(op), a, b);
    assert [] + [false] == [false] && [] + [true] == [true];
    assert Dups2Below(op, e, [false], []) == (f, 1);
    assert At(op, f, [false]) == Absorbing(op);
    assert Dups2(op, e, [false], []) == (f, 1);
  }

  lemma BothDecided(op: Conn, a: Symbol, b: Symbol)
    requires a.Named? && b.Named? && a != b
    ensures Dups2(op, Both(op, a, b), [], []) == (Bin(op, Absorbing(op), Neither(op, a, b)), 1)
  {
    hide YnFree, Decided, Dups2Below, OnSpine;
    FirstAgainstAll(op, a, b);
    RestDecidesNothing(op, a, b);
    assert [] + [false] == [false] && [] + [true] == [true];
  }

  /** The loop makes n of (A || B) && (!A && !B) and y of (A && B) || (!A || !B), so a value of m is
      lost there. */
  lemma ReducedWithM(op: Conn, a: Symbol, b: Symbol, v: Valuation)
    requires a.Named? && b.Named? && a != b && WellFormed(v)
    ensures Reduced(Both(op, a, b)) == Sym(if op == And then No else Yes)
    ensures Value(Reduced(Both(op, a, b)), v) == Value(Both(op, a, b), v) <==> (if op == And then Max(v.tri(a), v.tri(b)) else Min(v.tri(a), v.tri(b))) != MOD
  {
    var e := Both(op, a, b);
    BothIdle(op, a, b);
    BothDecided(op, a, b);
    assert Pass(e) == (Bin(op, Absorbing(op), Neither(op, a, b)), 1);
    assert EliminateYn(Neither(op, a, b)) == Neither(op, a, b);
    assert Reduced(e) == Reduced(Absorbing(op)) == Absorbing(op);
    DecidedWithM(op, a, b, v);
    YesValue(v);
  }

  /** So expr_eliminate_dups is no equivalence over three values. */
  lemma ReducedNotEquivalent(op: Conn, a: Symbol, b: Symbol)
    requires a != b && KindOf(a) == Tristate && KindOf(b) == Tristate
    ensures !Equivalent(Reduced(Both(op, a, b)), Both(op, a, b))
  {
    var t := (s: Symbol) => if KindOf(s) == Tristate then MOD else NO;
    ChosenWellFormed(t);
    ReducedWithM(op, a, b, Chosen(t));
  }
}
