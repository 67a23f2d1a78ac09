/** expr_eliminate_eq and expr_eq of tools/menuconfig/expr.c on lists of operands, and what
    expr_eliminate_dups leaves of repeated operands.
  */
module KconfigOperands {
  import opened KconfigExpr
  import opened Options
  import opened KconfigTransform
  import opened KconfigDups
  import opened KconfigMenu

  // ----- operands as lists -----

  /** The operands on the spine of e, from left to right. */
  function Operands(op: Conn, e: Expr): (r: seq<Expr>)
    ensures r != [] && |r| == Count(op, e) && forall x :: x in r ==> !IsBin(x, op) && Size(x) <= Size(e)
  {
    if IsBin(e, op) then Operands(op, e.l) + Operands(op, e.r) else [e]
  }

  function Count(op: Conn, e: Expr): nat { if IsBin(e, op) then Count(op, e.l) + Count(op, e.r) else 1 }

  /** The spine of e with these operands. */
  function Filled(op: Conn, e: Expr, xs: seq<Expr>): Expr
    requires |xs| == Count(op, e)
  {
    if IsBin(e, op) then
      var n := Count(op, e.l);
      Bin(op, Filled(op, e.l, xs[..n]), Filled(op, e.r, xs[n..]))
    else xs[0]
  }

  predicate NoneBin(op: Conn, xs: seq<Expr>) { forall x :: x in xs ==> !IsBin(x, op) }

  lemma {:induction false} FilledSelf(op: Conn, e: Expr)
    ensures Filled(op, e, Operands(op, e)) == e
  {
    if IsBin(e, op) {
      FilledSelf(op, e.l);
      FilledSelf(op, e.r);
      var (a, b) := (Operands(op, e.l), Operands(op, e.r));
      assert (a + b)[..|a|] == a && (a + b)[|a|..] == b;
    }
  }

  /** Two operands: equal ones become neutral, but for y and n. */
  function Cancelled(op: Conn, x: Expr, z: Expr): (Expr, Expr) {
    if (x == z && IsYn(x)) || !ExprEq(x, z) then (x, z) else (Neutral(op), Neutral(op))
  }

  /** One operand on the left against a list on the right. */
  function CancelOne(op: Conn, x: Expr, zs: seq<Expr>): (r: (Expr, seq<Expr>))
    ensures |r.1| == |zs|
    decreases |zs|
  {
    if zs == [] then (x, [])
    else
      var (f, g) := Cancelled(op, x, zs[0]);
      var (h, rest) := CancelOne(op, f, zs[1..]);
      (h, [g] + rest)
  }

  /** One after the other. */
  function CancelAll(op: Conn, xs: seq<Expr>, zs: seq<Expr>): (r: (seq<Expr>, seq<Expr>))
    ensures |r.0| == |xs| && |r.1| == |zs|
  {
    if xs == [] then ([], zs)
    else
      var (f, us) := CancelOne(op, xs[0], zs);
      var (rest, ws) := CancelAll(op, xs[1..], us);
      ([f] + rest, ws)
  }

  lemma CancelledNoneBin(op: Conn, x: Expr, z: Expr)
    requires !IsBin(x, op) && !IsBin(z, op)
    ensures !IsBin(Cancelled(op, x, z).0, op) && !IsBin(Cancelled(op, x, z).1, op)
  {
    hide ExprEq;
  }

  lemma {:induction false} CancelOneNoneBin(op: Conn, x: Expr, zs: seq<Expr>)
    requires !IsBin(x, op) && NoneBin(op, zs)
    ensures !IsBin(CancelOne(op, x, zs).0, op) && NoneBin(op, CancelOne(op, x, zs).1)
    decreases |zs|
  {
    hide ExprEq, Cancelled;
    if zs != [] {
      CancelledNoneBin(op, x, zs[0]);
      CancelOneNoneBin(op, Cancelled(op, x, zs[0]).0, zs[1..]);
    }
  }

  lemma {:induction false} CancelOneSplit(op: Conn, x: Expr, a: seq<Expr>, b: seq<Expr>)
    ensures var (f, us) := CancelOne(op, x, a);
            var (g, ws) := CancelOne(op, f, b);
            CancelOne(op, x, a + b) == (g, us + ws)
    decreases |a|
  {
    hide Cancelled;
    if a == [] {
      assert a + b == b;
      assert [] + CancelOne(op, x, b).1 == CancelOne(op, x, b).1;
    } else {
      var (f, g) := Cancelled(op, x, a[0]);
      CancelOneSplit(op, f, a[1..], b);
      assert (a + b)[0] == a[0] && (a + b)[1..] == a[1..] + b;
      var (h, us) := CancelOne(op, f, a[1..]);
      var ws := CancelOne(op, h, b).1;
      assert [g] + (us + ws) == ([g] + us) + ws;
    }
  }

  lemma {:induction false} CancelAllSplit(op: Conn, a: seq<Expr>, b: seq<Expr>, zs: seq<Expr>)
    ensures var (f, us) := CancelAll(op, a, zs);
            var (g, ws) := CancelAll(op, b, us);
            CancelAll(op, a + b, zs) == (f + g, ws)
  {
    hide CancelOne;
    if a == [] {
      assert a + b == b;
      assert [] + CancelAll(op, b, zs).0 == CancelAll(op, b, zs).0;
    } else {
      var (f, us) := CancelOne(op, a[0], zs);
      CancelAllSplit(op, a[1..], b, us);
      assert (a + b)[0] == a[0] && (a + b)[1..] == a[1..] + b;
      var (rest, vs) := CancelAll(op, a[1..], us);
      var g := CancelAll(op, b, vs).0;
      assert [f] + (rest + g) == ([f] + rest) + g;
    }
  }

  /** The recursion over both trees is the loop over both lists: one operand on the left. */
  lemma {:induction false} UnderOne(op: Conn, x: Expr, shape: Expr, zs: seq<Expr>)
    requires !IsBin(x, op) && |zs| == Count(op, shape) && NoneBin(op, zs)
    ensures var r := CancelOne(op, x, zs);
            EliminateEqUnder(op, x, Filled(op, shape, zs)) == (r.0, Filled(op, shape, r.1))
    decreases shape
  {
    hide ExprEq;
    if IsBin(shape, op) {
      hide Cancelled, CancelOne;
      var n := Count(op, shape.l);
      var (a, b) := (zs[..n], zs[n..]);
      UnderOne(op, x, shape.l, a);
      CancelOneNoneBin(op, x, a);
      var (f, us) := CancelOne(op, x, a);
      UnderOne(op, f, shape.r, b);
      CancelOneSplit(op, x, a, b);
      assert a + b == zs;
      var ws := CancelOne(op, f, b).1;
      assert (us + ws)[..n] == us && (us + ws)[n..] == ws;
    } else {
      assert zs == [zs[0]] && zs[1..] == [];
      assert CancelOne(op, Cancelled(op, x, zs[0]).0, []) == (Cancelled(op, x, zs[0]).0, []);
    }
  }

  lemma {:induction false} FilledNoneBin(op: Conn, e: Expr, xs: seq<Expr>)
    requires |xs| == Count(op, e) && NoneBin(op, xs)
    ensures IsBin(Filled(op, e, xs), op) <==> IsBin(e, op)
  {
    if !IsBin(e, op) { assert xs[0] in xs; }
  }

  /** ... and all of them. */
  lemma {:induction false} UnderAll(op: Conn, left: Expr, xs: seq<Expr>, right: Expr, zs: seq<Expr>)
    requires |xs| == Count(op, left) && NoneBin(op, xs) && |zs| == Count(op, right) && NoneBin(op, zs)
    ensures var r := CancelAll(op, xs, zs);
            EliminateEqUnder(op, Filled(op, left, xs), Filled(op, right, zs)) == (Filled(op, left, r.0), Filled(op, right, r.1))
    ensures NoneBin(op, CancelAll(op, xs, zs).0) && NoneBin(op, CancelAll(op, xs, zs).1)
    decreases left
  {
    hide ExprEq, Cancelled, CancelOne;
    if IsBin(left, op) {
      var n := Count(op, left.l);
      var (a, b) := (xs[..n], xs[n..]);
      UnderAll(op, left.l, a, right, zs);
      var (f, us) := CancelAll(op, a, zs);
      UnderAll(op, left.r, b, right, us);
      CancelAllSplit(op, a, b, zs);
      assert a + b == xs;
      var g := CancelAll(op, b, us).0;
      assert (f + g)[..n] == f && (f + g)[n..] == g;
      hide EliminateEqUnder;
      UnderBin(op, Filled(op, left.l, a), Filled(op, left.r, b), Filled(op, right, zs));
    } else {
      assert xs == [xs[0]] && xs[1..] == [];
      UnderOne(op, xs[0], right, zs);
      CancelOneNoneBin(op, xs[0], zs);
    }
  }

  lemma UnderBin(op: Conn, l: Expr, r: Expr, e: Expr)
    ensures var (f, g) := EliminateEqUnder(op, l, e);
            var (h, k) := EliminateEqUnder(op, r, g);
            EliminateEqUnder(op, Bin(op, l, r), e) == (Bin(op, f, h), k)
  {}

  // ----- expr_eq is reflexive -----

  /** What is left of an operand that meets its equal. */
  function Blank(op: Conn, x: Expr): Expr { if IsYn(x) then x else Neutral(op) }

  function Blanks(op: Conn, xs: seq<Expr>): (r: seq<Expr>)
    ensures |r| == |xs|
  {
    seq(|xs|, i requires 0 <= i < |xs| => Blank(op, xs[i]))
  }

  predicate AllYn(xs: seq<Expr>) { forall x :: x in xs ==> IsYn(x) }

  /** A constant y or n leaves every list as it is. */
  lemma {:induction false} YnCancelsNothing(op: Conn, x: Expr, zs: seq<Expr>)
    requires IsYn(x)
    ensures CancelOne(op, x, zs) == (x, zs)
    decreases |zs|
  {
    if zs != [] {
      assert Cancelled(op, x, zs[0]) == (x, zs[0]);
      YnCancelsNothing(op, x, zs[1..]);
      assert [zs[0]] + zs[1..] == zs;
    }
  }

  /** Nothing meets its equal in a list of constants y and n. */
  lemma {:induction false} YnNotCancelled(op: Conn, x: Expr, zs: seq<Expr>)
    requires AllYn(zs)
    ensures CancelOne(op, x, zs) == (x, zs)
    decreases |zs|
  {
    if zs != [] {
      assert IsYn(zs[0]);
      assert Cancelled(op, x, zs[0]) == (x, zs[0]);
      YnNotCancelled(op, x, zs[1..]);
      assert [zs[0]] + zs[1..] == zs;
    }
  }

  /** x meets its equal after constants. */
  lemma CancelFirst(op: Conn, x: Expr, done: seq<Expr>, rest: seq<Expr>)
    requires ExprEq(x, x) && AllYn(done)
    ensures CancelOne(op, x, done + [x] + rest) == (Blank(op, x), done + [Blank(op, x)] + rest)
  {
    CancelledSelf(op, x);
    hide ExprEq, CancelOne, Cancelled, Blank;
    YnNotCancelled(op, x, done);
    CancelOneSplit(op, x, done, [x] + rest);
    CancelOneStep(op, x, x, rest);
    YnCancelsNothing(op, Blank(op, x), rest);
    assert done + ([x] + rest) == done + [x] + rest;
    assert done + ([Blank(op, x)] + rest) == done + [Blank(op, x)] + rest;
  }

  lemma CancelledSelf(op: Conn, x: Expr)
    requires ExprEq(x, x)
    ensures Cancelled(op, x, x) == (Blank(op, x), Blank(op, x)) && IsYn(Blank(op, x))
  {
    hide ExprEq;
  }

  lemma CancelOneStep(op: Conn, x: Expr, z: Expr, rest: seq<Expr>)
    ensures var (f, g) := Cancelled(op, x, z);
            var r := CancelOne(op, f, rest);
            CancelOne(op, x, [z] + rest) == (r.0, [g] + r.1)
  {
    hide Cancelled;
    assert ([z] + rest)[0] == z && ([z] + rest)[1..] == rest;
  }

  /** A list against itself becomes constants on both sides. */
  lemma {:induction false} CancelSelf(op: Conn, xs: seq<Expr>, done: seq<Expr>)
    requires AllYn(done) && forall x :: x in xs ==> ExprEq(x, x)
    ensures CancelAll(op, xs, done + xs) == (Blanks(op, xs), done + Blanks(op, xs))
    decreases |xs|
  {
    hide ExprEq, CancelOne;
    if xs == [] {
      assert done + xs == done && done + Blanks(op, xs) == done;
    } else {
      var (x, rest) := (xs[0], xs[1..]);
      CancelFirst(op, x, done, rest);
      assert done + [x] + rest == done + xs;
      CancelSelf(op, rest, done + [Blank(op, x)]);
      assert Blanks(op, xs) == [Blank(op, x)] + Blanks(op, rest);
      assert done + [Blank(op, x)] + Blanks(op, rest) == done + Blanks(op, xs);
    }
  }

  lemma BlanksYn(op: Conn, xs: seq<Expr>)
    ensures AllYn(Blanks(op, xs)) && NoneBin(op, Blanks(op, xs))
  {}

  /** A spine of constants is eliminated to a constant. */
  lemma {:induction false} FilledYn(op: Conn, e: Expr, xs: seq<Expr>)
    requires |xs| == Count(op, e) && AllYn(xs)
    ensures IsYn(EliminateYn(Filled(op, e, xs)))
    decreases e
  {
    if IsBin(e, op) {
      var n := Count(op, e.l);
      FilledYn(op, e.l, xs[..n]);
      FilledYn(op, e.r, xs[n..]);
    } else {
      assert xs[0] in xs;
    }
  }

  /** expr_eq says yes of every expression and itself. */
  lemma {:induction false} ExprEqReflexive(e: Expr)
    ensures ExprEq(e, e)
    decreases Size(e)
  {
    if e.Not? {
      ExprEqReflexive(e.e);
    } else if e.Bin? {
      var (op, xs) := (e.op, Operands(e.op, e));
      forall x | x in xs
        ensures ExprEq(x, x)
      {
        OperandSize(op, e, x);
        ExprEqReflexive(x);
      }
      EliminatedSelf(op, e, xs);
      hide EliminateEqUnder, EliminateYn;
    }
  }

  lemma {:induction false} OperandSize(op: Conn, e: Expr, x: Expr)
    requires IsBin(e, op) && x in Operands(op, e)
    ensures Size(x) < Size(e)
  {}

  lemma EliminatedSelf(op: Conn, e: Expr, xs: seq<Expr>)
    requires IsBin(e, op) && xs == Operands(op, e) && forall x :: x in xs ==> ExprEq(x, x)
    ensures var r := EliminateEqUnder(op, e, e); r.0 == r.1 && IsYn(EliminateYn(r.0))
    ensures var r := EliminateEq(e, e); r.0 == r.1 && IsYn(r.0)
  {
    hide ExprEq, EliminateEqUnder, EliminateYn, CancelAll;
    FilledSelf(op, e);
    UnderAll(op, e, xs, e, xs);
    CancelSelf(op, xs, []);
    assert [] + xs == xs && [] + Blanks(op, xs) == Blanks(op, xs);
    BlanksYn(op, xs);
    FilledYn(op, e, Blanks(op, xs));
    SameTypeSelf(EliminateEqUnder(op, e, e).0);
  }

  lemma SameTypeSelf(e: Expr)
    ensures SameType(e, e)
  {}

  // ----- what both sides ask for is eliminated -----

  lemma NeutralStays(op: Conn, x: Expr)
    ensures Cancelled(op, Neutral(op), x) == (Neutral(op), x) && Cancelled(op, x, Neutral(op)) == (x, Neutral(op))
  {
    assert ExprEq(Neutral(op), x) ==> x == Neutral(op);
    assert ExprEq(x, Neutral(op)) ==> x == Neutral(op);
  }

  lemma {:induction false} CancelOneShared(op: Conn, x: Expr, zs: seq<Expr>)
    requires x in zs && !IsYn(x)
    ensures CancelOne(op, x, zs).0 == Neutral(op)
    decreases |zs|
  {
    ExprEqReflexive(x);
    hide ExprEq;
    if ExprEq(x, zs[0]) {
      YnCancelsNothing(op, Neutral(op), zs[1..]);
    } else {
      CancelOneShared(op, x, zs[1..]);
    }
  }

  lemma {:induction false} CancelAllNeutral(op: Conn, xs: seq<Expr>)
    ensures CancelAll(op, xs, [Neutral(op)]) == (xs, [Neutral(op)])
  {
    if xs != [] {
      NeutralStays(op, xs[0]);
      hide Cancelled, ExprEq;
      CancelOneStep(op, xs[0], Neutral(op), []);
      assert [Neutral(op)] + [] == [Neutral(op)];
      CancelAllNeutral(op, xs[1..]);
      assert [xs[0]] + xs[1..] == xs;
    }
  }

  lemma {:induction false} CancelAllShared(op: Conn, xs: seq<Expr>, x: Expr)
    requires x in xs && !IsYn(x)
    ensures CancelAll(op, xs, [x]).1 == [Neutral(op)]
  {
    var (f, g) := Cancelled(op, xs[0], x);
    CancelOneStep(op, xs[0], x, []);
    assert [g] + [] == [g] && [x] + [] == [x];
    ExprEqReflexive(x);
    hide ExprEq;
    if ExprEq(xs[0], x) {
      CancelAllNeutral(op, xs[1..]);
    } else {
      CancelAllShared(op, xs[1..], x);
    }
  }

  /** Of a condition and a list of conditions that contains it, nothing is left of the condition,
      whichever of them comes first. */
  lemma SharedOperand(op: Conn, e: Expr, x: Expr)
    requires IsBin(e, op) && x in Operands(op, e) && !x.Bin? && !IsYn(x)
    ensures EliminateEq(x, e).0 == Neutral(op) && EliminateEq(e, x).1 == Neutral(op)
  {
    var xs := Operands(op, e);
    FilledSelf(op, e);
    CancelOneShared(op, x, xs);
    CancelAllShared(op, xs, x);
    hide CancelOne, CancelAll, ExprEq, Operands;
    UnderOne(op, x, e, xs);
    UnderAll(op, e, xs, x, [x]);
    assert Filled(op, x, [x]) == x && Filled(op, x, [Neutral(op)]) == Neutral(op);
  }

  /** An entry that mentions s, and asks among other things for what the prompt of s asks for, goes
      into the menu of s. */
  lemma SharedCondition(base: Option<Expr>, dep: Expr, s: Symbol)
    requires Contains(dep, s)
    requires !Visibility(base).Bin? && !IsYn(Visibility(base))
    requires IsBin(Visibility(Some(dep)), And) && Visibility(base) in Operands(And, Visibility(Some(dep)))
    ensures IsSubMenu(base, dep, s)
  {
    hide Visibility, Contains, EliminateEq;
    SharedOperand(And, Visibility(Some(dep)), Visibility(base));
  }

  // ----- what expr_eliminate_dups leaves -----

  predicate Ymn(s: Symbol) { s == Yes || s == Mod || s == No }

  /** Two operands of which expr_join_or or expr_join_and makes one: the same twice, a boolean and its
      negation, or two terms about one symbol that say no more than a single term. */
  predicate Redundant(op: Conn, x: Expr, z: Expr) {
    || x == z
    || (op == Or && x.Sym? && z == Not(x) && KindOf(x.s) == Boolean)
    || (op == Or && x.Equal? && z.Equal? && x.a == z.a && KindOf(x.a) == Tristate && Ymn(x.b) && Ymn(z.b))
    || (op == And && x.Sym? && (KindOf(x.s) == Boolean || KindOf(x.s) == Tristate)
        && (z == Equal(x.s, Yes) || z == Unequal(x.s, No) || z == Unequal(x.s, Mod)))
    || (op == And && x.Equal? && z.Unequal? && x.a == z.a && KindOf(x.a) == Tristate && IsConst(x.b) && IsConst(z.b))
    || (op == And && x.Unequal? && z.Unequal? && x.a == z.a && KindOf(x.a) == Tristate && Ymn(x.b) && Ymn(z.b))
  }

  /** Such a pair is joined, in either order. */
  lemma RedundantJoined(op: Conn, x: Expr, z: Expr)
    requires Redundant(op, x, z)
    ensures JoinTerms(op, x, z).Some? && JoinTerms(op, z, x).Some?
  {
    ExprEqReflexive(x);
    hide ExprEq;
  }

  /** No spine has a redundant pair of operands. */
  ghost predicate Tidy(e: Expr)
    decreases Size(e)
  {
    e.Bin? ==>
      && (forall p, q :: IsOperand(e.op, e, p) && IsOperand(e.op, e, q) && p != q ==> !Redundant(e.op, At(e.op, e, p), At(e.op, e, q)))
      && (forall p :: IsOperand(e.op, e, p) && Size(At(e.op, e, p)) < Size(e) ==> Tidy(At(e.op, e, p)))
  }

  /** The operands below positions p and q have been compared, and nothing was to be done. */
  ghost predicate Quiet(op: Conn, e: Expr, p: Path, q: Path) {
    forall a: Path, b: Path {:trigger IsOperand(op, e, p + a), IsOperand(op, e, q + b)} ::
      IsOperand(op, e, p + a) && IsOperand(op, e, q + b) && p + a != q + b ==> QuietPair(op, At(op, e, p + a), At(op, e, q + b))
  }

  predicate QuietPair(op: Conn, x: Expr, z: Expr) {
    JoinTerms(op, x, z).None? && (x.Bin? ==> Dups1(x.op, x, [], []).1 == 0)
  }

  lemma {:induction false} OperandBeyond(op: Conn, e: Expr, p: Path, a: Path)
    requires IsOperand(op, e, p + a) && OnSpine(op, e, p)
    ensures if IsBin(At(op, e, p), op) then a != [] && p + a == (p + [a[0]]) + a[1..] else a == []
  {
    if p == [] {
      assert p + a == a;
      if a != [] { assert a == [a[0]] + a[1..]; }
    } else {
      assert (p + a)[0] == p[0] && (p + a)[1..] == p[1..] + a;
      OperandBeyond(op, Child(e, p[0]), p[1..], a);
      if a != [] { assert a == [a[0]] + a[1..]; }
    }
  }

  lemma QuietLeft(op: Conn, e: Expr, p: Path, q: Path)
    requires OnSpine(op, e, p) && IsBin(At(op, e, p), op)
    requires Quiet(op, e, p + [false], q) && Quiet(op, e, p + [true], q)
    ensures Quiet(op, e, p, q)
  {
    hide QuietPair, IsBin;
    forall a: Path, b: Path | IsOperand(op, e, p + a) && IsOperand(op, e, q + b) && p + a != q + b
      ensures QuietPair(op, At(op, e, p + a), At(op, e, q + b))
    {
      OperandBeyond(op, e, p, a);
      if a[0] {
        assert p + a == (p + [true]) + a[1..];
        assert IsOperand(op, e, (p + [true]) + a[1..]);
      } else {
        assert p + a == (p + [false]) + a[1..];
        assert IsOperand(op, e, (p + [false]) + a[1..]);
      }
    }
  }

  lemma QuietRight(op: Conn, e: Expr, p: Path, q: Path)
    requires OnSpine(op, e, q) && IsBin(At(op, e, q), op)
    requires Quiet(op, e, p, q + [false]) && Quiet(op, e, p, q + [true])
    ensures Quiet(op, e, p, q)
  {
    hide QuietPair, IsBin;
    forall a: Path, b: Path | IsOperand(op, e, p + a) && IsOperand(op, e, q + b) && p + a != q + b
      ensures QuietPair(op, At(op, e, p + a), At(op, e, q + b))
    {
      OperandBeyond(op, e, q, b);
      if b[0] {
        assert q + b == (q + [true]) + b[1..];
        assert IsOperand(op, e, (q + [true]) + b[1..]);
      } else {
        assert q + b == (q + [false]) + b[1..];
        assert IsOperand(op, e, (q + [false]) + b[1..]);
      }
    }
  }

  lemma QuietLeaves(op: Conn, e: Expr, p: Path, q: Path)
    requires IsOperand(op, e, p) && IsOperand(op, e, q) && (p == q || QuietPair(op, At(op, e, p), At(op, e, q)))
    ensures Quiet(op, e, p, q)
  {
    hide QuietPair;
    forall a: Path, b: Path | IsOperand(op, e, p + a) && IsOperand(op, e, q + b) && p + a != q + b
      ensures QuietPair(op, At(op, e, p + a), At(op, e, q + b))
    {
      OperandBeyond(op, e, p, a);
      OperandBeyond(op, e, q, b);
      assert p + a == p && q + b == q;
    }
  }

  /** A round that counts nothing has found nothing to join, in any pair of operands. */
  lemma {:induction false} NothingJoined(op: Conn, e: Expr, p: Path, q: Path)
    requires OnSpine(op, e, p) && OnSpine(op, e, q) && Dups1(op, e, p, q).1 == 0
    ensures Quiet(op, e, p, q)
    decreases SpineSize(op, At(op, e, p)) + SpineSize(op, At(op, e, q))
  {
    hide YnFree, JoinTerms, Quiet, QuietPair;
    if IsBin(At(op, e, p), op) {
      SpineStep(op, e, p, false);
      SpineStep(op, e, p, true);
      assert Dups1(op, e, p + [false], q).1 == 0 && Dups1(op, e, p + [false], q).0 == e;
      NothingJoined(op, e, p + [false], q);
      NothingJoined(op, e, p + [true], q);
      QuietLeft(op, e, p, q);
    } else if IsBin(At(op, e, q), op) {
      SpineStep(op, e, q, false);
      SpineStep(op, e, q, true);
      assert Dups1(op, e, p, q + [false]).1 == 0 && Dups1(op, e, p, q + [false]).0 == e;
      NothingJoined(op, e, p, q + [false]);
      NothingJoined(op, e, p, q + [true]);
      QuietRight(op, e, p, q);
    } else {
      if p != q { PairNotJoined(op, e, p, q); }
      QuietLeaves(op, e, p, q);
    }
  }

  lemma PairNotJoined(op: Conn, e: Expr, p: Path, q: Path)
    requires IsOperand(op, e, p) && IsOperand(op, e, q) && p != q && Dups1(op, e, p, q).1 == 0
    ensures QuietPair(op, At(op, e, p), At(op, e, q))
  {
    hide YnFree, JoinTerms;
    var x := At(op, e, p);
    OperandSmaller(op, e, p);
    var (x', j) := if x.Bin? then Dups1(x.op, x, [], []) else (x, 0);
    OperandKept(op, e, p, q, x', j);
    PutSelf(op, e, p);
  }

  lemma OtherOperand(op: Conn, e: Expr, p: Path) returns (q: Path)
    requires IsBin(e, op) && IsOperand(op, e, p)
    ensures IsOperand(op, e, q) && p != q
  {
    OperandBelow(op, e.l, e.r, p);
    q := SomeOperand(op, Child(e, !p[0]));
    q := [!p[0]] + q;
    assert q[1..] == q[1..] && q[0] == !p[0];
  }

  lemma {:induction false} SomeOperand(op: Conn, e: Expr) returns (q: Path)
    ensures IsOperand(op, e, q)
  {
    if IsBin(e, op) {
      var r := SomeOperand(op, e.l);
      q := [false] + r;
      assert q[1..] == r;
    } else {
      q := [];
    }
  }

  lemma {:induction false} QuietIsTidy(e: Expr)
    requires e.Bin? ==> Dups1(e.op, e, [], []).1 == 0
    ensures Tidy(e)
    decreases Size(e)
  {
    if e.Bin? {
      var op := e.op;
      NothingJoined(op, e, [], []);
      hide Dups1, Redundant, JoinTerms;
      forall p, q | IsOperand(op, e, p) && IsOperand(op, e, q) && p != q
        ensures !Redundant(op, At(op, e, p), At(op, e, q))
        ensures QuietPair(op, At(op, e, p), At(op, e, q))
      {
        assert [] + p == p && [] + q == q;
        assert IsOperand(op, e, [] + p) && IsOperand(op, e, [] + q);
        if Redundant(op, At(op, e, p), At(op, e, q)) { RedundantJoined(op, At(op, e, p), At(op, e, q)); }
      }
      forall p | IsOperand(op, e, p) && Size(At(op, e, p)) < Size(e)
        ensures Tidy(At(op, e, p))
      {
        var q := OtherOperand(op, e, p);
        assert QuietPair(op, At(op, e, p), At(op, e, q));
        QuietIsTidy(At(op, e, p));
      }
    }
  }

  /** The loop of expr_eliminate_dups leaves no redundant pair of operands, on any spine. */
  lemma ReducedIsTidy(e: Expr)
    ensures Tidy(Reduced(e))
  {
    var r := Reduced(e);
    assert Pass(r).1 == 0;
    hide Reduced, Tidy, Dups1, Dups2;
    QuietIsTidy(r);
  }

  lemma TwicePositions(op: Conn, x: Expr, z: Expr)
    requires !IsBin(x, op) && !IsBin(z, op)
    ensures var e := Bin(op, x, z);
            && OnSpine(op, e, [false]) && At(op, e, [false]) == x && OnSpine(op, e, [true]) && At(op, e, [true]) == z
  {
    assert [] + [false] == [false] && [] + [true] == [true];
    SpineStep(op, Bin(op, x, z), [], false);
    SpineStep(op, Bin(op, x, z), [], true);
  }

  lemma TwiceJoined(op: Conn, s: Symbol)
    requires s.Named?
    ensures Dups1(op, Bin(op, Sym(s), Sym(s)), [], []) == (Bin(op, Neutral(op), Sym(s)), 1)
  {
    var (x, t) := (Sym(s), Neutral(op));
    var (e, f) := (Bin(op, x, x), Bin(op, t, x));
    TwicePositions(op, x, x);
    TwicePositions(op, t, x);
    assert ExprEq(x, x) && !ExprEq(x, t);
    assert JoinTerms(op, x, x) == Some(x) && JoinTerms(op, x, t) == None;
    hide JoinTerms, ExprEq, YnFree;
    assert [] + [false] == [false] && [] + [true] == [true];
    PutSelf(op, e, [false]);
    PutSelf(op, f, [true]);
    PutSelf(op, e, [true]);
    assert Put(op, e, [false], t) == f && Put(op, e, [true], x) == e;
    assert JoinOperands(op, e, [false], [true]) == (f, 1);
    assert Dups1(op, e, [false], [true]) == (f, 1);
    assert Dups1(op, e, [false], []) == (f, 1);
    assert Dups1(op, f, [true], [false]) == (f, 0);
    assert Dups1(op, f, [true], []) == (f, 0);
  }

  /** FOO && FOO and FOO || FOO are FOO. */
  lemma RepeatedOnce(op: Conn, s: Symbol)
    requires s.Named?
    ensures Reduced(Bin(op, Sym(s), Sym(s))) == Sym(s)
  {
    var e := Bin(op, Sym(s), Sym(s));
    var f := Bin(op, Neutral(op), Sym(s));
    TwiceJoined(op, s);
    PairKept(op, Neutral(op), Sym(s));
    hide Dups1, Dups2;
    assert Pass(e) == (f, 1);
    assert EliminateYn(f) == Sym(s);
    assert Pass(Sym(s)) == (Sym(s), 0);
  }

  /** A condition that is compared with n comes out without NOT before a connective or a comparison, and
      without redundant operands. */
  lemma VisibilityTidy(e: Option<Expr>)
    ensures Tidy(Visibility(e)) && NegationNormal(Visibility(e))
  {
    var f := Transform(CompareOption(e, false, No));
    hide Transform, Reduced, Tidy, NegationNormal, CompareOption;
    ReducedIsTidy(f);
    ReducedNormal(f);
  }
}
