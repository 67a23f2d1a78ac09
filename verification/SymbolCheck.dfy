/** The search for recursive dependencies of tools/menuconfig/symbol.c, without choice symbols. */
module SymbolCheck {
  import opened KconfigExpr
  import opened Options

  datatype PropType = Prompt | Comment | Menu | Default | Choice | Select | Range | Env | SymbolProp

  datatype Property = Property(kind: PropType, visible: Option<Expr>, expr: Option<Expr>)

  /** The symbols of an expression in the order in which expr.c and symbol.c visit them. */
  function ExprSymbols(e: Expr): seq<Symbol> {
    match e
    case Sym(s) => [s]
    case Not(x) => ExprSymbols(x)
    case Bin(_, l, r) => ExprSymbols(l) + ExprSymbols(r)
    case Equal(a, b) => [a, b]
    case Unequal(a, b) => [a, b]
  }

  function OptionSymbols(e: Option<Expr>): seq<Symbol> {
    if e.Some? then ExprSymbols(e.value) else []
  }

  /** The symbols on which a property makes its owner depend. */
  function PropertySymbols(p: Property): seq<Symbol> {
    if p.kind == Choice || p.kind == Select then []
    else OptionSymbols(p.visible) + if p.kind == Default then OptionSymbols(p.expr) else []
  }

  function AllPropertySymbols(ps: seq<Property>): seq<Symbol> {
    if ps == [] then [] else PropertySymbols(ps[0]) + AllPropertySymbols(ps[1..])
  }

  /** A configuration: what select edges (rev_dep) and properties each symbol has. */
  datatype Config = Config(revDep: Symbol -> Option<Expr>, props: Symbol -> seq<Property>)

  /** The symbols that s depends on. */
  function Deps(g: Config, s: Symbol): seq<Symbol> {
    OptionSymbols(g.revDep(s)) + AllPropertySymbols(g.props(s))
  }

  ghost predicate Closed(g: Config, universe: set<Symbol>) {
    forall s, d :: s in universe && d in Deps(g, s) ==> d in universe
  }

  predicate Path(g: Config, p: seq<Symbol>) {
    forall i :: 0 < i < |p| ==> p[i] in Deps(g, p[i - 1])
  }

  /** Each symbol of c depends on the next one and the last one on the first. */
  predicate Cycle(g: Config, universe: set<Symbol>, c: seq<Symbol>) {
    && c != [] && (forall s :: s in c ==> s in universe)
    && Path(g, c) && c[0] in Deps(g, c[|c| - 1])
  }

  predicate Distinct(p: seq<Symbol>) {
    forall i, j :: 0 <= i < j < |p| ==> p[i] != p[j]
  }

  function Elements(p: seq<Symbol>): set<Symbol> { set s | s in p }

  /** Every symbol comes after all the symbols it depends on. */
  ghost predicate Ordered(g: Config, order: seq<Symbol>) {
    forall i :: 0 <= i < |order| ==> DepsWithin(g, order[i], order[..i])
  }

  ghost predicate DepsWithin(g: Config, s: Symbol, known: seq<Symbol>) {
    forall d :: d in Deps(g, s) ==> d in known
  }

  // ----- dependencies as a rank -----

  /** s occurs in e. */
  predicate Mentions(e: Option<Expr>, s: Symbol) { e.Some? && Contains(e.value, s) }

  /** rank falls from s to what it depends on: the conditions of its selects, those of its properties,
      and its default values; neither choices nor selects count. */
  ghost predicate FallsAt(g: Config, rank: Symbol -> nat, s: Symbol) {
    && (forall d :: Mentions(g.revDep(s), d) ==> rank(d) < rank(s))
    && (forall p, d :: p in g.props(s) && p.kind != Choice && p.kind != Select && Mentions(p.visible, d) ==> rank(d) < rank(s))
    && (forall p, d :: p in g.props(s) && p.kind == Default && Mentions(p.expr, d) ==> rank(d) < rank(s))
  }

  ghost predicate Falls(g: Config, universe: set<Symbol>, rank: Symbol -> nat) {
    forall s :: s in universe ==> FallsAt(g, rank, s)
  }

  /** expr_contains_symbol says yes of exactly the symbols that the searches visit. */
  lemma {:induction false} ContainsExactly(e: Expr, s: Symbol)
    ensures Contains(e, s) <==> s in ExprSymbols(e)
  {
    match e
    case Not(x) => ContainsExactly(x, s);
    case Bin(_, l, r) => ContainsExactly(l, s); ContainsExactly(r, s);
    case _ =>
  }

  lemma MentionsExactly(e: Option<Expr>, s: Symbol)
    ensures Mentions(e, s) <==> s in OptionSymbols(e)
  {
    if e.Some? { ContainsExactly(e.value, s); }
  }

  lemma {:induction false} PropertiesExactly(ps: seq<Property>, d: Symbol)
    ensures d in AllPropertySymbols(ps) <==>
            exists p :: p in ps && p.kind != Choice && p.kind != Select
                        && (Mentions(p.visible, d) || (p.kind == Default && Mentions(p.expr, d)))
  {
    hide Mentions, OptionSymbols;
    if ps != [] {
      MentionsExactly(ps[0].visible, d);
      MentionsExactly(ps[0].expr, d);
      PropertiesExactly(ps[1..], d);
    }
  }

  /** A rank falls exactly where it falls along every dependency that is searched. */
  lemma FallsExactly(g: Config, rank: Symbol -> nat, s: Symbol)
    ensures FallsAt(g, rank, s) <==> forall d :: d in Deps(g, s) ==> rank(d) < rank(s)
  {
    hide Mentions, AllPropertySymbols, OptionSymbols;
    forall d
      ensures Mentions(g.revDep(s), d) <==> d in OptionSymbols(g.revDep(s))
      ensures d in AllPropertySymbols(g.props(s)) <==>
              exists p :: p in g.props(s) && p.kind != Choice && p.kind != Select
                          && (Mentions(p.visible, d) || (p.kind == Default && Mentions(p.expr, d)))
    {
      MentionsExactly(g.revDep(s), d);
      PropertiesExactly(g.props(s), d);
    }
  }

  lemma {:induction false} RankFalls(g: Config, universe: set<Symbol>, rank: Symbol -> nat, c: seq<Symbol>, i: nat)
    requires Falls(g, universe, rank) && Path(g, c) && i < |c| && forall s :: s in c ==> s in universe
    ensures rank(c[i]) <= rank(c[0]) - i
  {
    hide Deps, FallsAt;
    if i > 0 {
      RankFalls(g, universe, rank, c, i - 1);
      assert c[i - 1] in universe && c[i] in Deps(g, c[i - 1]);
      FallsExactly(g, rank, c[i - 1]);
    }
  }

  /** Where a rank falls there is no cycle. */
  lemma RankHasNoCycle(g: Config, universe: set<Symbol>, rank: Symbol -> nat, c: seq<Symbol>)
    requires Falls(g, universe, rank)
    ensures !Cycle(g, universe, c)
  {
    hide Deps, FallsAt;
    if Cycle(g, universe, c) {
      RankFalls(g, universe, rank, c, |c| - 1);
      assert c[|c| - 1] in universe;
      FallsExactly(g, rank, c[|c| - 1]);
    }
  }

  /** The order in which the search finishes the symbols, as a rank. */
  ghost function RankIn(order: seq<Symbol>): Symbol -> nat {
    s => if s in order then 1 + Position(order, s) else 0
  }

  /** The symbols that the search has finished in order are ranked by that order. */
  lemma OrderFalls(g: Config, universe: set<Symbol>, order: seq<Symbol>)
    requires Ordered(g, order) && forall s :: s in universe ==> s in order || Deps(g, s) == []
    ensures Falls(g, universe, RankIn(order))
  {
    hide Deps, Ordered, FallsAt;
    forall s | s in universe
      ensures FallsAt(g, RankIn(order), s)
    {
      forall d | d in Deps(g, s)
        ensures RankIn(order)(d) < RankIn(order)(s)
      {
        DependencyEarlier(g, order, s, d);
      }
      FallsExactly(g, RankIn(order), s);
    }
  }

  // ----- an ordering excludes cycles -----

  ghost function Position(order: seq<Symbol>, s: Symbol): (i: nat)
    requires s in order
    ensures i < |order| && order[i] == s && s !in order[..i]
  {
    if order[0] == s then 0 else
      assert order == [order[0]] + order[1..];
      1 + Position(order[1..], s)
  }

  lemma EarlierPosition(order: seq<Symbol>, i: nat, d: Symbol)
    requires i <= |order| && d in order[..i]
    ensures d in order && Position(order, d) < i
  {
    var j :| 0 <= j < i && order[j] == d;
  }

  lemma DependencyEarlier(g: Config, order: seq<Symbol>, s: Symbol, d: Symbol)
    requires Ordered(g, order) && s in order && d in Deps(g, s)
    ensures d in order && Position(order, d) < Position(order, s)
  {
    hide Deps;
    var i := Position(order, s);
    assert DepsWithin(g, order[i], order[..i]);
    EarlierPosition(order, i, d);
  }

  lemma {:induction false} PathDescends(g: Config, order: seq<Symbol>, c: seq<Symbol>, i: nat)
    requires Ordered(g, order) && Path(g, c) && i < |c| && c[0] in order
    ensures c[i] in order && Position(order, c[i]) <= Position(order, c[0])
  {
    hide Deps, Ordered;
    if i > 0 {
      PathDescends(g, order, c, i - 1);
      DependencyEarlier(g, order, c[i - 1], c[i]);
    }
  }

  lemma OrderedHasNoCycle(g: Config, universe: set<Symbol>, order: seq<Symbol>, c: seq<Symbol>)
    requires Ordered(g, order) && c != [] && c[0] in order
    ensures !Cycle(g, universe, c)
  {
    hide Deps, Ordered;
    if Cycle(g, universe, c) {
      PathDescends(g, order, c, |c| - 1);
      DependencyEarlier(g, order, c[|c| - 1], c[0]);
    }
  }

  lemma ElementsAppend(p: seq<Symbol>, s: Symbol)
    ensures Elements(p + [s]) == Elements(p) + {s}
  {}

  /** The stack grows by a symbol that its top depends on. */
  lemma Pushed(g: Config, p: seq<Symbol>, s: Symbol)
    requires Distinct(p) && Path(g, p) && s !in p && (p != [] ==> s in Deps(g, p[|p| - 1]))
    ensures Distinct(p + [s]) && Path(g, p + [s]) && Elements(p + [s]) == Elements(p) + {s} && (p + [s])[..|p|] == p
  {
    hide Deps;
  }

  // ----- lists of dependencies -----

  ghost predicate Within(ds: seq<Symbol>, known: seq<Symbol>) {
    forall d :: d in ds ==> d in known
  }

  lemma DepsSplit(g: Config, s: Symbol)
    ensures Within(OptionSymbols(g.revDep(s)), Deps(g, s))
    ensures Within(AllPropertySymbols(g.props(s)), Deps(g, s))
    ensures forall known :: Within(OptionSymbols(g.revDep(s)), known) && Within(AllPropertySymbols(g.props(s)), known)
              ==> DepsWithin(g, s, known)
  {}

  lemma WithinMore(ds: seq<Symbol>, known: seq<Symbol>, more: seq<Symbol>)
    requires Within(ds, known) && known <= more
    ensures Within(ds, more)
  {
    forall d | d in ds
      ensures d in more
    {
      assert d in known;
    }
  }

  lemma {:induction false} PropertyOf(ps: seq<Property>, i: nat)
    requires i < |ps|
    ensures Within(PropertySymbols(ps[i]), AllPropertySymbols(ps))
  {
    hide PropertySymbols;
    if i > 0 {
      PropertyOf(ps[1..], i - 1);
      assert ps[1..][i - 1] == ps[i];
    }
  }

  lemma {:induction false} AllWithin(ps: seq<Property>, known: seq<Symbol>)
    requires forall j :: 0 <= j < |ps| ==> Within(PropertySymbols(ps[j]), known)
    ensures Within(AllPropertySymbols(ps), known)
  {
    if ps != [] {
      AllWithin(ps[1..], known);
    }
  }

  lemma FinishOrder(g: Config, order: seq<Symbol>, s: Symbol)
    ensures Ordered(g, order) && DepsWithin(g, s, order) ==> Ordered(g, order + [s])
  {
    hide Deps, DepsWithin;
    var next := order + [s];
    forall i | 0 <= i < |next|
      ensures next[..i] == if i < |order| then order[..i] else order
    {}
  }

  /** The flags and the stack of the search. */
  class Checker {
    const g: Config
    ghost const universe: set<Symbol>
    // SYMBOL_CHECK and SYMBOL_CHECKED
    var check: set<Symbol>
    var checked: set<Symbol>
    // check_top, bottom first
    var stack: seq<Symbol>
    // the cycles printed so far
    var reports: seq<seq<Symbol>>
    // the symbols whose search has returned, in that order
    ghost var finished: seq<Symbol>

    constructor (g: Config, ghost universe: set<Symbol>)
      requires Closed(g, universe)
      ensures Valid({}) && this.g == g && this.universe == universe && stack == [] && reports == [] && checked == {}
    {
      this.g, this.universe := g, universe;
      check, checked, stack, reports, finished := {}, {}, [], [], [];
    }

    /** SYMBOL_CHECK marks the symbols on the stack (and those in entering, about to be pushed);
        the stack is a path of dependencies; every report is a cycle; and as long as there is
        none, what has been finished is ordered by dependency. */
    ghost predicate Valid(entering: set<Symbol>)
      reads this
    {
      && Closed(g, universe)
      && checked <= universe
      && check == Elements(stack) + entering && check <= checked
      && Distinct(stack) && Path(g, stack)
      && Elements(finished) == checked - check
      && (forall c :: c in reports ==> Cycle(g, universe, c))
      && (reports == [] ==> Ordered(g, finished))
    }

    /** What every part of the search leaves as it was, or only extends. */
    twostate predicate Searched()
      reads this
    {
      && stack == old(stack) && check == old(check)
      && old(checked) <= checked
      && old(reports) <= reports
      && old(finished) <= finished
    }

    /** symbol.c:1018-1088: the loop of the stack from last upwards is reported. */
    method PrintRecursive(last: Symbol)
      requires Valid({}) && last in check && stack != [] && last in Deps(g, stack[|stack| - 1])
      modifies this`reports
      ensures Valid({}) && old(reports) < reports
      ensures exists k :: 0 <= k < |stack| && stack[k] == last && reports == old(reports) + [stack[k..]]
    {
      hide Deps, Ordered;
      var k := |stack| - 1;
      while stack[k] != last
        invariant 0 <= k < |stack| && last in stack[..k + 1]
        decreases k
      {
        assert stack[..k + 1] == stack[..k] + [stack[k]];
        k := k - 1;
      }
      reports := reports + [stack[k..]];
    }

    /** symbol.c:1192-1224 */
    method CheckDeps(s: Symbol) returns (r: Option<Symbol>)
      requires Valid({}) && s in universe && (stack != [] ==> s in Deps(g, stack[|stack| - 1]))
      modifies this
      ensures Valid({}) && Searched()
      ensures r.Some? ==> r.value in check && reports != []
      ensures r.None? && reports == [] ==> s in finished
      decreases universe - checked, 0
    {
      hide Deps, Ordered, Path, Closed;
      if s in check {
        PrintRecursive(s);
        return Some(s);
      }
      if s in checked {
        assert s in Elements(finished);
        return None;
      }
      check, checked := check + {s}, checked + {s};
      r := CheckSymDeps(s);
      check := check - {s};
      FinishOrder(g, finished, s);
      ElementsAppend(finished, s);
      finished := finished + [s];
      if r == Some(s) {
        r := None;
      }
    }

    /** symbol.c:1121-1153 */
    method CheckSymDeps(s: Symbol) returns (r: Option<Symbol>)
      requires Valid({s}) && s in universe && s !in stack && (stack != [] ==> s in Deps(g, stack[|stack| - 1]))
      modifies this
      ensures Valid({s}) && Searched()
      ensures r.Some? ==> r.value in check && reports != []
      ensures r.None? && reports == [] ==> DepsWithin(g, s, finished)
      decreases universe - checked, 3
    {
      hide Deps, Ordered, Closed, Path, Distinct, Elements, Cycle, DepsWithin;
      Pushed(g, stack, s);
      stack := stack + [s];
      r := CheckTop(s);
      assert stack == old(stack) + [s] && stack[..|stack| - 1] == old(stack);
      stack := stack[..|stack| - 1];
    }

    /** The searches while s is on top of the stack. */
    method CheckTop(s: Symbol) returns (r: Option<Symbol>)
      requires Valid({}) && stack != [] && stack[|stack| - 1] == s && s in universe
      modifies this
      ensures Valid({}) && Searched()
      ensures r.Some? ==> r.value in check && reports != []
      ensures r.None? && reports == [] ==> DepsWithin(g, s, finished)
      decreases universe - checked, 3, 0
    {
      hide Deps, Ordered, Closed, Path, Distinct, Elements, Cycle, Within, DepsWithin, OptionSymbols, AllPropertySymbols;
      DepsSplit(g, s);
      r := CheckOptionDeps(s, g.revDep(s));
      if r.None? {
        ghost var known := finished;
        r := CheckPropDeps(s, g.props(s));
        if r.None? && reports == [] {
          WithinMore(OptionSymbols(g.revDep(s)), known, finished);
        }
      }
    }

    /** One property (symbol.c:1134-1146). */
    method CheckProperty(ghost s: Symbol, p: Property) returns (r: Option<Symbol>)
      requires Valid({}) && stack != [] && stack[|stack| - 1] == s && s in universe
      requires Within(PropertySymbols(p), Deps(g, s))
      modifies this
      ensures Valid({}) && Searched()
      ensures r.Some? ==> r.value in check && reports != []
      ensures r.None? && reports == [] ==> Within(PropertySymbols(p), finished)
      decreases universe - checked, 1
    {
      hide Deps, Ordered, Closed, OptionSymbols;
      r := None;
      if p.kind != Choice && p.kind != Select {
        r := CheckOptionDeps(s, p.visible);
        if r.None? && p.kind == Default {
          r := CheckOptionDeps(s, p.expr);
        }
      }
    }

    /** symbol.c:1133-1147 */
    method CheckPropDeps(ghost s: Symbol, ps: seq<Property>) returns (r: Option<Symbol>)
      requires Valid({}) && stack != [] && stack[|stack| - 1] == s && s in universe
      requires Within(AllPropertySymbols(ps), Deps(g, s))
      modifies this
      ensures Valid({}) && Searched()
      ensures r.Some? ==> r.value in check && reports != []
      ensures r.None? && reports == [] ==> Within(AllPropertySymbols(ps), finished)
      decreases universe - checked, 2
    {
      hide Deps, Ordered, Closed, PropertySymbols, AllPropertySymbols;
      r := None;
      var i := 0;
      while r.None? && i < |ps|
        invariant 0 <= i <= |ps| && Valid({}) && Searched()
        invariant r.Some? ==> r.value in check && reports != []
        invariant r.None? && reports == [] ==> forall j :: 0 <= j < i ==> Within(PropertySymbols(ps[j]), finished)
        decreases |ps| - i
      {
        PropertyOf(ps, i);
        r := CheckProperty(s, ps[i]);
        i := i + 1;
      }
      if r.None? && reports == [] {
        AllWithin(ps, finished);
      }
    }

    method CheckOptionDeps(ghost s: Symbol, e: Option<Expr>) returns (r: Option<Symbol>)
      requires Valid({}) && stack != [] && stack[|stack| - 1] == s && s in universe
      requires Within(OptionSymbols(e), Deps(g, s))
      modifies this
      ensures Valid({}) && Searched()
      ensures r.Some? ==> r.value in check && reports != []
      ensures r.None? && reports == [] ==> Within(OptionSymbols(e), finished)
      decreases universe - checked, 1, 1
    {
      if e.None? {
        return None;
      }
      r := CheckExprDeps(s, e.value);
    }

    /** symbol.c:1090-1118 */
    method CheckExprDeps(ghost s: Symbol, e: Expr) returns (r: Option<Symbol>)
      requires Valid({}) && stack != [] && stack[|stack| - 1] == s && s in universe
      requires Within(ExprSymbols(e), Deps(g, s))
      modifies this
      ensures Valid({}) && Searched()
      ensures r.Some? ==> r.value in check && reports != []
      ensures r.None? && reports == [] ==> Within(ExprSymbols(e), finished)
      decreases universe - checked, 1, 0, e
    {
      hide Deps, Ordered, Path;
      match e
      case Bin(_, left, right) =>
        r := CheckExprDeps(s, left);
        if r.None? {
          r := CheckExprDeps(s, right);
        }
      case Not(x) =>
        r := CheckExprDeps(s, x);
      case Equal(a, b) =>
        assert a in ExprSymbols(e) && b in ExprSymbols(e);
        r := CheckDeps(a);
        if r.None? {
          r := CheckDeps(b);
        }
      case Unequal(a, b) =>
        assert a in ExprSymbols(e) && b in ExprSymbols(e);
        r := CheckDeps(a);
        if r.None? {
          r := CheckDeps(b);
        }
      case Sym(t) =>
        assert t in ExprSymbols(e);
        r := CheckDeps(t);
    }

    /** zconf.tab.c:2293-2296.  A cycle is reported exactly when there is one; the error count is
        never raised, because the head of a cycle clears the result (symbol.c:1220-1221). */
    method CheckAll(all: seq<Symbol>) returns (errors: int)
      requires Valid({}) && stack == [] && checked == {} && reports == []
      requires Elements(all) <= universe && forall s :: s in universe ==> s in all || Deps(g, s) == []
      modifies this
      ensures Valid({}) && stack == [] && errors == 0
      ensures reports != [] <==> exists c :: Cycle(g, universe, c)
      ensures reports == [] ==> Ordered(g, finished) && forall s :: s in all ==> s in finished
      ensures reports == [] <==> exists rank :: Falls(g, universe, rank)
    {
      hide Deps, Ordered, Path, Closed, Cycle;
      errors := 0;
      for i := 0 to |all|
        invariant Valid({}) && stack == [] && check == {} && errors == 0
        invariant reports == [] ==> forall j :: 0 <= j < i ==> all[j] in finished
      {
        var r := CheckDeps(all[i]);
        if r.Some? {
          errors := errors + 1;
        }
      }
      if reports == [] {
        forall c
          ensures !Cycle(g, universe, c)
        {
          FinishedHasNoCycle(g, universe, all, finished, c);
        }
        OrderFalls(g, universe, finished);
      } else {
        var c := reports[0];
        assert c in reports && Cycle(g, universe, c);
        forall rank
          ensures !Falls(g, universe, rank)
        {
          if Falls(g, universe, rank) { RankHasNoCycle(g, universe, rank, c); }
        }
      }
    }
  }

  lemma FinishedHasNoCycle(g: Config, universe: set<Symbol>, all: seq<Symbol>, order: seq<Symbol>, c: seq<Symbol>)
    requires Ordered(g, order) && forall s :: s in all ==> s in order
    requires forall s :: s in universe ==> s in all || Deps(g, s) == []
    ensures !Cycle(g, universe, c)
  {
    hide Deps, Ordered;
    if Cycle(g, universe, c) {
      assert c[0] in universe && Deps(g, c[0]) != [] by {
        if |c| > 1 { assert c[1] in Deps(g, c[0]); }
      }
      OrderedHasNoCycle(g, universe, order, c);
    }
  }

  // ----- a cycle that raises no error -----

  /** A configuration with one symbol whose prompt depends on itself. */
  function Recursive(foo: Symbol): Config {
    Config(s => None, s => if s == foo then [Property(Prompt, Some(Sym(foo)), None)] else [])
  }

  lemma RecursiveDeps(foo: Symbol)
    ensures Deps(Recursive(foo), foo) == [foo]
    ensures forall s :: s != foo ==> Deps(Recursive(foo), s) == []
    ensures Closed(Recursive(foo), {foo}) && Cycle(Recursive(foo), {foo}, [foo])
  {
    var p := Property(Prompt, Some(Sym(foo)), None);
    assert AllPropertySymbols([p]) == PropertySymbols(p) == [foo];
  }

  /** There a cycle is reported, and the error count is 0. */
  method CheckRecursive(foo: Symbol) returns (errors: int, reports: seq<seq<Symbol>>)
    ensures errors == 0 && reports != [] && forall c :: c in reports ==> Cycle(Recursive(foo), {foo}, c)
  {
    RecursiveDeps(foo);
    hide Cycle, Closed, Recursive, Deps;
    var checker := new Checker(Recursive(foo), {foo});
    errors := checker.CheckAll([foo]);
    reports := checker.reports;
  }

  /** A selects B, and neither depends on anything else. */
  function Selecting(a: Symbol, b: Symbol): Config {
    Config(s => if s == b then Some(Sym(a)) else None,
           s => if s == a then [Property(Select, None, Some(Sym(b)))] else [])
  }

  lemma SelectingDeps(a: Symbol, b: Symbol)
    requires a != b
    ensures Closed(Selecting(a, b), {a, b})
    ensures Falls(Selecting(a, b), {a, b}, s => if s == b then 1 else 0)
  {
    var g := Selecting(a, b);
    var p := Property(Select, None, Some(Sym(b)));
    assert AllPropertySymbols([p]) == PropertySymbols(p) == [];
    hide AllPropertySymbols, PropertySymbols;
    assert Deps(g, b) == [a] && Deps(g, a) == [];
  }

  /** B depends on A and not A on B: no cycle is reported. */
  method CheckSelecting(a: Symbol, b: Symbol) returns (errors: int, reports: seq<seq<Symbol>>)
    requires a != b
    ensures errors == 0 && reports == []
  {
    hide *;
    SelectingDeps(a, b);
    ghost var rank := (s: Symbol) => if s == b then 1 else 0;
    assert Falls(Selecting(a, b), {a, b}, rank);
    var checker := new Checker(Selecting(a, b), {a, b});
    BothListed(a, b);
    errors := checker.CheckAll([a, b]);
    reports := checker.reports;
  }

  lemma BothListed(a: Symbol, b: Symbol)
    ensures Elements([a, b]) == {a, b} && forall s :: s in {a, b} ==> s in [a, b]
  {}
}
