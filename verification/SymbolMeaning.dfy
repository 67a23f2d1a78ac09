/** What the values of tools/menuconfig/symbol.c mean to the author of a configuration: prompts, user
    values, defaults and selects, described on the properties alone.
  */
module SymbolMeaning {
  import opened KconfigExpr
  import opened Options
  import opened SymbolCheck
  import opened SymbolValue

  // ----- the words of the description -----

  /** The value of a condition; one that is not given always holds. */
  function Asked(e: Option<Expr>, v: Valuation): Tri {
    match e case None => YES case Some(x) => Value(x, v)
  }

  predicate Least(t: Tri, a: Tri, b: Tri) { t <= a && t <= b && (t == a || t == b) }

  predicate Greatest(t: Tri, a: Tri, b: Tri) { t >= a && t >= b && (t == a || t == b) }

  /** A symbol that cannot be m: a boolean, or a tristate while modules are off. */
  predicate NeverMod(sys: System, s: Symbol) {
    s.Named? && (s.kind == Boolean || (s.kind == Tristate && sys.modules == NO))
  }

  predicate HasTri(s: Symbol) { s.Named? && (s.kind == Boolean || s.kind == Tristate) }

  predicate HasText(s: Symbol) { s.Named? && (s.kind == Int || s.kind == Hex || s.kind == Str) }

  function Raised(raise: bool, t: Tri): Tri { if raise && t == MOD then YES else t }

  predicate Shown(p: Property) { p.kind == Prompt || p.kind == Comment || p.kind == Menu }

  /** t is the largest condition of a prompt, and n without one. */
  ghost predicate LargestPrompt(ps: seq<Property>, v: Valuation, t: Tri) {
    && (forall p :: p in ps && Shown(p) ==> Asked(p.visible, v) <= t)
    && (t == NO || exists p :: p in ps && Shown(p) && Asked(p.visible, v) == t)
  }

  /** sym->visible: m counts as y unless the symbol can be m. */
  ghost predicate VisibilityMeant(sys: System, s: Symbol, v: Valuation, t: Tri) {
    exists u: Tri :: LargestPrompt(sys.g.props(s), v, u) && t == Raised(KindOf(s) != Tristate || sys.modules == NO, u)
  }

  /** What the selects ask for. */
  predicate SelectedMeant(sys: System, s: Symbol, v: Valuation, t: Tri) {
    var e := sys.g.revDep(s);
    t == Raised(NeverMod(sys, s), if e.Some? then Value(e.value, v) else NO)
  }

  predicate DependsMeant(sys: System, s: Symbol, v: Valuation, t: Tri) {
    t == Raised(true, Asked(sys.dirDep(s), v))
  }

  predicate Applies(p: Property, v: Valuation) { p.kind == Default && Asked(p.visible, v) != NO }

  /** Property i is the first default with a condition that is not n. */
  ghost predicate FirstApplying(ps: seq<Property>, i: nat, v: Valuation) {
    i < |ps| && Applies(ps[i], v) && forall j :: 0 <= j < i ==> !Applies(ps[j], v)
  }

  ghost predicate NoneApplies(ps: seq<Property>, v: Valuation) { forall p :: p in ps ==> !Applies(p, v) }

  /** The value before selects: that of the user as far as it is visible, else the default as far as
      its condition holds, else n. */
  ghost predicate OwnMeant(sys: System, user: User, s: Symbol, v: Valuation, visible: Tri, t: Tri) {
    var ps := sys.g.props(s);
    if visible != NO && s in user then Least(t, user[s].tri, visible)
    else if NoneApplies(ps, v) then t == NO
    else exists i: nat :: FirstApplying(ps, i, v) && Least(t, Asked(ps[i].expr, v), Asked(ps[i].visible, v))
  }

  /** The value: the larger of that and what the selects ask for, with m raised where there is no m. */
  ghost predicate TriMeant(sys: System, user: User, s: Symbol, v: Valuation, visible: Tri, selected: Tri, t: Tri) {
    exists own: Tri, top: Tri ::
      OwnMeant(sys, user, s, v, visible, own) && Greatest(top, own, selected) && t == Raised(NeverMod(sys, s), top)
  }

  predicate NamesSymbol(p: Property) { p.expr.Some? && p.expr.value.Sym? }

  /** The string of the symbol that a default names; the string of a boolean or tristate symbol is kept
      as "n" there. */
  function NamedString(p: Property, v: Valuation): string
    requires NamesSymbol(p)
  {
    if HasTri(p.expr.value.s) then "n" else v.str(p.expr.value.s)
  }

  ghost predicate TextMeant(sys: System, user: User, s: Symbol, v: Valuation, visible: Tri, t: string) {
    var ps := sys.g.props(s);
    if visible != NO && s in user then t == user[s].str
    else if NoneApplies(ps, v) then t == ""
    else exists i: nat :: FirstApplying(ps, i, v) && t == if NamesSymbol(ps[i]) then NamedString(ps[i], v) else ""
  }

  /** A symbol is written if it is visible or selected, or if a default applies; the default of a
      string must name a symbol. */
  ghost predicate WrittenMeant(sys: System, s: Symbol, v: Valuation, visible: Tri, selected: Tri, write: bool) {
    var ps := sys.g.props(s);
    write <==>
      || visible != NO
      || (HasTri(s) && (selected != NO || exists i: nat :: FirstApplying(ps, i, v)))
      || (HasText(s) && exists i: nat :: FirstApplying(ps, i, v) && NamesSymbol(ps[i]))
  }

  /** All that a calculated entry says. */
  ghost predicate EntryMeant(sys: System, user: User, s: Symbol, v: Valuation, x: Entry) {
    && (HasTri(s) || HasText(s) ==>
          && VisibilityMeant(sys, s, v, x.visible) && SelectedMeant(sys, s, v, x.revDep)
          && DependsMeant(sys, s, v, x.dirDep) && WrittenMeant(sys, s, v, x.visible, x.revDep, x.write))
    && (HasTri(s) ==> TriMeant(sys, user, s, v, x.visible, x.revDep, x.tri) && x.val == "n")
    && (HasText(s) ==> TextMeant(sys, user, s, v, x.visible, x.val) && x.tri == NO)
    && (s.Named? && !HasTri(s) && !HasText(s) ==> x.tri == NO && x.val == s.name)
  }

  // ----- the calculation agrees with it -----

  lemma MinIsLeast(a: Tri, b: Tri)
    ensures Least(Min(a, b), a, b) && Greatest(Max(a, b), a, b)
  {}

  lemma {:induction false} PromptedIsLargest(ps: seq<Property>, v: Valuation)
    ensures LargestPrompt(ps, v, Prompted(ps, v))
  {
    hide Value;
    if ps != [] {
      var (rest, p) := (ps[..|ps| - 1], ps[|ps| - 1]);
      PromptedIsLargest(rest, v);
      assert ps == rest + [p];
      assert forall q :: q in ps <==> q in rest || q == p;
    }
  }

  lemma {:induction false} DefaultIsFirst(ps: seq<Property>, v: Valuation)
    ensures match FirstDefault(ps, v)
            case None => NoneApplies(ps, v)
            case Some(p) => exists i: nat :: FirstApplying(ps, i, v) && ps[i] == p
  {
    hide Value;
    if ps != [] {
      DefaultIsFirst(ps[1..], v);
      if Applies(ps[0], v) {
        assert FirstApplying(ps, 0, v);
      } else if FirstDefault(ps[1..], v).Some? {
        var i: nat :| FirstApplying(ps[1..], i, v) && ps[1..][i] == FirstDefault(ps[1..], v).value;
        assert FirstApplying(ps, i + 1, v) && ps[i + 1] == ps[1..][i];
      }
    }
  }

  lemma ApplyingUnique(ps: seq<Property>, v: Valuation)
    ensures forall i: nat, j: nat :: FirstApplying(ps, i, v) && FirstApplying(ps, j, v) ==> i == j
    ensures forall i: nat :: FirstApplying(ps, i, v) ==> !NoneApplies(ps, v)
  {
    hide Applies;
    forall i: nat, j: nat | FirstApplying(ps, i, v) && FirstApplying(ps, j, v)
      ensures i == j
    {
      assert !(i < j) && !(j < i);
    }
  }

  lemma VisibleMeaning(sys: System, s: Symbol, v: Valuation)
    ensures VisibilityMeant(sys, s, v, Visible(sys, s, v))
    ensures SelectedMeant(sys, s, v, RevDep(sys, s, v)) && DependsMeant(sys, s, v, DirDep(sys, s, v))
  {
    PromptedIsLargest(sys.g.props(s), v);
    hide Prompted, LargestPrompt, Value;
  }

  lemma OwnMeaning(sys: System, user: User, s: Symbol, v: Valuation)
    ensures var visible := Visible(sys, s, v);
            OwnMeant(sys, user, s, v, visible,
                     if visible != NO && s in user then Min(user[s].tri, visible) else DefaultTri(FirstDefault(sys.g.props(s), v), v))
  {
    var ps := sys.g.props(s);
    DefaultIsFirst(ps, v);
    ApplyingUnique(ps, v);
    hide Visible, FirstDefault, FirstApplying, NoneApplies, Value;
  }

  lemma TriMeaning(sys: System, user: User, s: Symbol, v: Valuation)
    requires HasTri(s)
    ensures TriMeant(sys, user, s, v, Visible(sys, s, v), RevDep(sys, s, v), NewTri(sys, user, s, v))
  {
    OwnMeaning(sys, user, s, v);
    var visible := Visible(sys, s, v);
    var own := if visible != NO && s in user then Min(user[s].tri, visible) else DefaultTri(FirstDefault(sys.g.props(s), v), v);
    MinIsLeast(own, RevDep(sys, s, v));
    hide OwnMeant, Visible, RevDep, FirstDefault, DefaultTri, Greatest, Max;
    assert NewTri(sys, user, s, v) == Raised(NeverMod(sys, s), Max(own, RevDep(sys, s, v)));
  }

  lemma TextMeaning(sys: System, user: User, s: Symbol, v: Valuation)
    requires HasText(s)
    ensures TextMeant(sys, user, s, v, Visible(sys, s, v), NewString(sys, user, s, v))
  {
    DefaultIsFirst(sys.g.props(s), v);
    ApplyingUnique(sys.g.props(s), v);
    hide Visible, FirstDefault, FirstApplying, NoneApplies;
  }

  lemma WrittenMeaning(sys: System, user: User, s: Symbol, v: Valuation)
    requires HasTri(s) || HasText(s)
    ensures WrittenMeant(sys, s, v, Visible(sys, s, v), RevDep(sys, s, v), Written(sys, user, s, v))
  {
    var ps := sys.g.props(s);
    DefaultIsFirst(ps, v);
    ApplyingUnique(ps, v);
    hide Visible, RevDep, FirstDefault, FirstApplying, NoneApplies;
  }

  /** A right entry says what is meant. */
  lemma EntryMeaning(sys: System, user: User, s: Symbol, v: Valuation, x: Entry)
    requires Solves(sys, user, v) && Right(sys, user, v, s, x)
    ensures EntryMeant(sys, user, s, v, x)
  {
    assert SolvesAt(sys, user, v, s);
    VisibleMeaning(sys, s, v);
    if HasTri(s) {
      TriMeaning(sys, user, s, v);
      WrittenMeaning(sys, user, s, v);
    }
    if HasText(s) {
      TextMeaning(sys, user, s, v);
      WrittenMeaning(sys, user, s, v);
    }
    hide Solves, VisibilityMeant, SelectedMeant, DependsMeant, WrittenMeant, TriMeant, TextMeant, Visible, RevDep, DirDep, NewTri, NewString, Written;
  }

  // ----- defaults -----

  /** No value of the user applies and no select asks for anything. */
  ghost predicate LeftToDefault(sys: System, user: User, s: Symbol, v: Valuation) {
    (s !in user || VisibilityMeant(sys, s, v, NO)) && SelectedMeant(sys, s, v, NO)
  }

  lemma LargestUnique(ps: seq<Property>, v: Valuation, t: Tri, u: Tri)
    requires LargestPrompt(ps, v, t) && LargestPrompt(ps, v, u)
    ensures t == u
  {}

  lemma LeftVisible(sys: System, user: User, s: Symbol, v: Valuation)
    requires s !in user || VisibilityMeant(sys, s, v, NO)
    ensures Visible(sys, s, v) == NO || s !in user
  {
    VisibleMeaning(sys, s, v);
    hide LargestPrompt, Visible, Value;
    if s in user {
      var t: Tri :| LargestPrompt(sys.g.props(s), v, t) && NO == Raised(KindOf(s) != Tristate || sys.modules == NO, t);
      var u: Tri :| LargestPrompt(sys.g.props(s), v, u) && Visible(sys, s, v) == Raised(KindOf(s) != Tristate || sys.modules == NO, u);
      LargestUnique(sys.g.props(s), v, t, u);
    }
  }

  /** A boolean or tristate symbol that is left to its defaults has the value of the first one that
      applies, as far as its condition holds; without one it is n. */
  lemma DefaultValue(sys: System, user: User, v: Valuation, s: Symbol)
    requires Solves(sys, user, v) && HasTri(s) && LeftToDefault(sys, user, s, v)
    ensures NoneApplies(sys.g.props(s), v) ==> v.tri(s) == NO
    ensures forall i: nat :: FirstApplying(sys.g.props(s), i, v) ==>
              exists t: Tri :: Least(t, Asked(sys.g.props(s)[i].expr, v), Asked(sys.g.props(s)[i].visible, v))
                               && v.tri(s) == Raised(NeverMod(sys, s), t)
  {
    assert SolvesAt(sys, user, v, s);
    LeftVisible(sys, user, s, v);
    VisibleMeaning(sys, s, v);
    assert RevDep(sys, s, v) == NO;
    TriMeaning(sys, user, s, v);
    ApplyingUnique(sys.g.props(s), v);
    hide Visible, RevDep, NewTri, FirstApplying, NoneApplies, LeftToDefault, Solves, Asked;
  }

  /** A string, int or hex symbol that the user has not set has the string of the symbol that the first
      applying default names, and is empty without one. */
  lemma DefaultText(sys: System, user: User, v: Valuation, s: Symbol)
    requires Solves(sys, user, v) && HasText(s) && (s !in user || VisibilityMeant(sys, s, v, NO))
    ensures NoneApplies(sys.g.props(s), v) ==> v.str(s) == ""
    ensures forall i: nat :: FirstApplying(sys.g.props(s), i, v) ==>
              v.str(s) == if NamesSymbol(sys.g.props(s)[i]) then NamedString(sys.g.props(s)[i], v) else ""
  {
    assert SolvesAt(sys, user, v, s);
    LeftVisible(sys, user, s, v);
    TextMeaning(sys, user, s, v);
    ApplyingUnique(sys.g.props(s), v);
    hide Visible, NewString, FirstApplying, NoneApplies, Solves, NamedString;
  }

  /** `default d if c` and nothing else. */
  lemma OneDefault(sys: System, user: User, v: Valuation, s: Symbol, d: Symbol, c: Option<Expr>)
    requires Solves(sys, user, v) && HasTri(s) && s !in user && sys.g.revDep(s) == None
    requires sys.g.props(s) == [Property(Default, c, Some(Sym(d)))]
    ensures Least(v.tri(s), v.tri(d), Asked(c, v)) || (v.tri(s) == YES && NeverMod(sys, s) && Least(MOD, v.tri(d), Asked(c, v)))
    ensures v.tri(d) == NO ==> v.tri(s) == NO
  {
    var ps := sys.g.props(s);
    DefaultValue(sys, user, v, s);
    assert Asked(ps[0].expr, v) == v.tri(d);
    hide Solves;
    if Asked(c, v) != NO {
      assert FirstApplying(ps, 0, v);
    } else {
      assert NoneApplies(ps, v);
    }
  }
}
