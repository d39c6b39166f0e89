/** What the value of a symbol is: sym_calc_value as a definition by recursion along
    the dependencies, with nothing cached (scripts/kconfig/symbol.c). */
module SymbolValues {
  import opened Options
  import opened Tristates
  import opened Exprs
  import opened SymbolDecls
  import ExprTransform

  /** struct symbol_value: of a boolean or tristate symbol only `tri` counts. */
  datatype Content = Content(tri: Tristate, text: string)

  /** What the user set, and whether it counts (SYMBOL_NEW clear). */
  datatype Setting = Setting(given: bool, tri: Tristate, text: string)

  /** Everything the value of a symbol depends on. */
  datatype World = World(table: Table, user: map<Symbol, Setting>, modules: Tristate)

  const NO_SETTING := Setting(false, NO, "")

  function SettingOf(w: World, s: Symbol): Setting {
    if s in w.user then w.user[s] else NO_SETTING
  }

  predicate IsLogical(s: Symbol) {
    s.stype == BooleanType || s.stype == TristateType
  }

  /** sym_get_type: without module support a tristate symbol counts as boolean. */
  predicate CountsAsBoolean(s: Symbol, modules: Tristate) {
    s.stype == BooleanType || (s.stype == TristateType && modules == NO)
  }

  /** Boolean symbols turn m into y. */
  function PromoteFor(s: Symbol, modules: Tristate, t: Tristate): Tristate {
    if t == MOD && CountsAsBoolean(s, modules) then YES else t
  }

  /** Visibility is promoted for every symbol that is not tristate. */
  function PromoteVisible(s: Symbol, modules: Tristate, t: Tristate): Tristate {
    if t == MOD && (s.stype != TristateType || modules == NO) then YES else t
  }

  function StringOf(s: Symbol, c: Content): string {
    if IsLogical(s) then TriName(c.tri) else c.text
  }

  /** The value from user setting or default `t`, visibility and reverse dependency. */
  function Clamp(t: Tristate, visible: Tristate, rev: Tristate): Tristate {
    Max(Min(t, visible), rev)
  }

  /** An expression is computable when all its symbols rank below `bound`. */
  ghost predicate Under(rank: RankMap, bound: nat, symbols: set<Symbol>) {
    forall d :: d in symbols ==> RankOf(rank, d) < bound
  }

  /** The rank falls along every dependency, and constants have none. */
  ghost predicate Acyclic(w: World, rank: RankMap) {
    && Ranked(w.table, rank)
    && (forall s :: s in w.table ==> s.Config?)
  }

  lemma PropsUnder(props: seq<Property>, rank: RankMap, bound: nat, i: nat)
    requires Under(rank, bound, PropsSymbols(props)) && i < |props|
    ensures Under(rank, bound, PropSymbols(props[i]))
    ensures Under(rank, bound, PropsSymbols(props[i + 1..]))
  {
    if i > 0 {
      PropsUnder(props[1..], rank, bound, i - 1);
      assert props[i + 1..] == props[1..][i..];
    } else {
      assert props[1..] == props[i + 1..];
    }
  }

  lemma DeclUnder(w: World, rank: RankMap, s: Symbol)
    requires Acyclic(w, rank)
    ensures Under(rank, RankOf(rank, s), OptSymbols(DeclOf(w.table, s).revDep))
    ensures Under(rank, RankOf(rank, s), PropsSymbols(DeclOf(w.table, s).props))
  {
    OnlyDeclaredDepend(w.table, s);
    assert OptSymbols(DeclOf(w.table, s).revDep) <= Deps(w.table, s);
    assert PropsSymbols(DeclOf(w.table, s).props) <= Deps(w.table, s);
  }

  ghost function ExprValue(w: World, rank: RankMap, bound: nat, e: Expr): Tristate
    requires Acyclic(w, rank) && Under(rank, bound, Symbols(e))
    decreases bound, 1, e
  {
    match e
    case Sym(s) => SymbolValue(w, rank, s).tri
    case Equal(l, r) =>
      Truth(StringOf(l, SymbolValue(w, rank, l)) == StringOf(r, SymbolValue(w, rank, r)))
    case Unequal(l, r) =>
      Truth(StringOf(l, SymbolValue(w, rank, l)) != StringOf(r, SymbolValue(w, rank, r)))
    case Not(x) => Negate(ExprValue(w, rank, bound, x))
    case Junction(op, l, r) => Apply(op, ExprValue(w, rank, bound, l), ExprValue(w, rank, bound, r))
  }

  ghost function OptExprValue(w: World, rank: RankMap, bound: nat, e: Option<Expr>): Tristate
    requires Acyclic(w, rank) && Under(rank, bound, OptSymbols(e))
    decreases bound, 2
  {
    match e
    case None => YES
    case Some(x) => ExprValue(w, rank, bound, x)
  }

  /** The condition of a property with a text; others show no prompt. */
  ghost function PromptValue(w: World, rank: RankMap, bound: nat, p: Property): Tristate
    requires Acyclic(w, rank) && Under(rank, bound, PropSymbols(p))
    decreases bound, 3
  {
    if p.hasText && p.ptype != SelectProp then OptExprValue(w, rank, bound, p.visible) else NO
  }

  /** The maximum over the conditions of all properties with a text. */
  ghost function PromptsValue(w: World, rank: RankMap, bound: nat, props: seq<Property>): Tristate
    requires Acyclic(w, rank) && Under(rank, bound, PropsSymbols(props))
    decreases bound, 4, props
  {
    if props == [] then NO
    else
      PropsUnder(props, rank, bound, 0);
      Max(PromptValue(w, rank, bound, props[0]), PromptsValue(w, rank, bound, props[1..]))
  }

  /** sym_get_default_prop: the first default whose condition is not n. */
  ghost function DefaultProperty(w: World, rank: RankMap, bound: nat, props: seq<Property>): (r: Option<Property>)
    requires Acyclic(w, rank) && Under(rank, bound, PropsSymbols(props))
    ensures r.Some? ==> r.value.ptype == DefaultProp && Under(rank, bound, PropSymbols(r.value))
    decreases bound, 3, props
  {
    if props == [] then None
    else
      PropsUnder(props, rank, bound, 0);
      if props[0].ptype == DefaultProp && OptExprValue(w, rank, bound, props[0].visible) != NO then Some(props[0])
      else DefaultProperty(w, rank, bound, props[1..])
  }

  ghost function VisibleValue(w: World, rank: RankMap, s: Symbol): Tristate
    requires Acyclic(w, rank)
    decreases RankOf(rank, s), 5
  {
    DeclUnder(w, rank, s);
    PromoteVisible(s, w.modules, PromptsValue(w, rank, RankOf(rank, s), DeclOf(w.table, s).props))
  }

  ghost function RevDepValue(w: World, rank: RankMap, s: Symbol): Tristate
    requires Acyclic(w, rank)
    decreases RankOf(rank, s), 5
  {
    DeclUnder(w, rank, s);
    var rev := DeclOf(w.table, s).revDep;
    PromoteFor(s, w.modules, if rev.None? then NO else OptExprValue(w, rank, RankOf(rank, s), rev))
  }

  ghost function DefaultTristate(w: World, rank: RankMap, s: Symbol): Tristate
    requires Acyclic(w, rank)
    decreases RankOf(rank, s), 5
  {
    DeclUnder(w, rank, s);
    var p := DefaultProperty(w, rank, RankOf(rank, s), DeclOf(w.table, s).props);
    if p.None? then NO else OptExprValue(w, rank, RankOf(rank, s), p.value.expr)
  }

  /** The text of the symbol a default names, if it names one. */
  ghost function DefaultText(w: World, rank: RankMap, s: Symbol): string
    requires Acyclic(w, rank)
    decreases RankOf(rank, s), 5
  {
    DeclUnder(w, rank, s);
    var p := DefaultProperty(w, rank, RankOf(rank, s), DeclOf(w.table, s).props);
    if p.None? || p.value.expr.None? || !p.value.expr.value.Sym? then ""
    else
      assert p.value.expr.value.sym in PropSymbols(p.value);
      SymbolValue(w, rank, p.value.expr.value.sym).text
  }

  ghost function SymbolValue(w: World, rank: RankMap, s: Symbol): Content
    requires Acyclic(w, rank)
    decreases RankOf(rank, s), 7
  {
    match s.stype
    case BooleanType => LogicalValue(w, rank, s)
    case TristateType => LogicalValue(w, rank, s)
    case UnknownType => Content(ConstantTri(s), s.name)
    case _ =>
      var setting := SettingOf(w, s);
      Content(NO, if VisibleValue(w, rank, s) != NO && setting.given then setting.text else DefaultText(w, rank, s))
  }

  function ConstantTri(s: Symbol): Tristate {
    if s.SymYes? then YES else if s.SymMod? then MOD else NO
  }

  ghost function LogicalValue(w: World, rank: RankMap, s: Symbol): Content
    requires Acyclic(w, rank)
    decreases RankOf(rank, s), 6
  {
    Content(LogicalTri(s, w.modules, SettingOf(w, s), DefaultTristate(w, rank, s), VisibleValue(w, rank, s), RevDepValue(w, rank, s)), "n")
  }

  /** The tristate from setting, default, visibility and reverse dependency. */
  function LogicalTri(s: Symbol, modules: Tristate, setting: Setting, dflt: Tristate, visible: Tristate, rev: Tristate): Tristate {
    var t :=
      if Max(visible, rev) != NO then Clamp(if setting.given then setting.tri else dflt, visible, rev)
      else dflt;
    PromoteFor(s, modules, t)
  }

  /** A boolean symbol, or a tristate one without module support, is never m; no
      symbol is below what its reverse dependencies demand. */
  lemma ValueInRange(w: World, rank: RankMap, s: Symbol)
    requires Acyclic(w, rank) && IsLogical(s)
    ensures CountsAsBoolean(s, w.modules) ==> SymbolValue(w, rank, s).tri != MOD
    ensures RevDepValue(w, rank, s) <= SymbolValue(w, rank, s).tri
    ensures RevDepValue(w, rank, s) < VisibleValue(w, rank, s) ==> SymbolValue(w, rank, s).tri <= VisibleValue(w, rank, s)
  {
  }

  /** The symbol values of a world as a valuation of expressions. */
  ghost function ValuationOf(w: World, rank: RankMap): Valuation
    requires Acyclic(w, rank)
  {
    Valuation((s: Symbol) => SymbolValue(w, rank, s).tri, (s: Symbol) => StringOf(s, SymbolValue(w, rank, s)))
  }

  /** It is one of the valuations the rewriting of expressions is proved for, and
      expr_calc_value is the meaning of an expression under it. */
  lemma {:induction false} ValuationIsTyped(w: World, rank: RankMap, bound: nat, e: Expr)
    requires Acyclic(w, rank) && Under(rank, bound, Symbols(e))
    ensures Typed(ValuationOf(w, rank))
    ensures ExprValue(w, rank, bound, e) == Value(e, ValuationOf(w, rank))
    decreases e
  {
    forall s: Symbol | s.stype == BooleanType
      ensures SymbolValue(w, rank, s).tri != MOD
    {
      ValueInRange(w, rank, s);
    }
    match e
    case Not(x) => ValuationIsTyped(w, rank, bound, x);
    case Junction(_, l, r) => ValuationIsTyped(w, rank, bound, l); ValuationIsTyped(w, rank, bound, r);
    case _ =>
  }

  // Conditions rewritten for symbols that are not tristate

  function TransBoolProp(p: Property): Property {
    match p.visible
    case None => p
    case Some(e) => p.(visible := Some(ExprTransform.TransBool(e)))
  }

  /** expr_trans_bool on the condition of every property. */
  function TransBoolProps(props: seq<Property>): seq<Property> {
    if props == [] then [] else [TransBoolProp(props[0])] + TransBoolProps(props[1..])
  }

  predicate NormalConditions(props: seq<Property>) {
    forall p <- props :: p.visible.Some? ==> ExprTransform.NegationNormal(p.visible.value)
  }

  lemma {:induction false} TransBoolSymbols(e: Expr)
    ensures Symbols(ExprTransform.TransBool(e)) <= Symbols(e)
  {
    match e
    case Not(x) => TransBoolSymbols(x);
    case Junction(_, l, r) => TransBoolSymbols(l); TransBoolSymbols(r);
    case _ =>
  }

  lemma TransBoolCondition(w: World, rank: RankMap, bound: nat, p: Property)
    requires Acyclic(w, rank) && Under(rank, bound, PropSymbols(p))
    requires p.visible.Some? ==> ExprTransform.NegationNormal(p.visible.value)
    ensures Under(rank, bound, PropSymbols(TransBoolProp(p)))
    ensures p.ptype != SelectProp ==>
      (OptExprValue(w, rank, bound, TransBoolProp(p).visible) == NO <==> OptExprValue(w, rank, bound, p.visible) == NO)
  {
    if p.visible.Some? && p.ptype != SelectProp {
      var e := p.visible.value;
      TransBoolSymbols(e);
      assert Under(rank, bound, Symbols(e));
      ValuationIsTyped(w, rank, bound, e);
      ValuationIsTyped(w, rank, bound, ExprTransform.TransBool(e));
      ExprTransform.TransBoolKeepsNo(e, ValuationOf(w, rank));
    }
  }

  /** Prompts show in the same cases, and the same default is found. */
  lemma {:induction false} TransBoolKeepsProps(w: World, rank: RankMap, bound: nat, props: seq<Property>)
    requires Acyclic(w, rank) && Under(rank, bound, PropsSymbols(props)) && NormalConditions(props)
    ensures Under(rank, bound, PropsSymbols(TransBoolProps(props)))
    ensures PromptsValue(w, rank, bound, TransBoolProps(props)) == NO <==> PromptsValue(w, rank, bound, props) == NO
    ensures
      var p, p' := DefaultProperty(w, rank, bound, props), DefaultProperty(w, rank, bound, TransBoolProps(props));
      p.Some? == p'.Some? && (p.Some? ==> p.value.expr == p'.value.expr)
  {
    hide OptExprValue, ExprValue, PropSymbols, Acyclic;
    if props != [] {
      var p, rest := TransBoolProp(props[0]), TransBoolProps(props[1..]);
      assert TransBoolProps(props)[0] == p && TransBoolProps(props)[1..] == rest;
      PropsUnder(props, rank, bound, 0);
      TransBoolCondition(w, rank, bound, props[0]);
      TransBoolKeepsProps(w, rank, bound, props[1..]);
      assert PropsSymbols(TransBoolProps(props)) == PropSymbols(p) + PropsSymbols(rest);
    }
  }

  /** The visibility of a symbol that is not tristate is the same with the conditions
      rewritten. */
  lemma VisibilitySurvivesTransBool(w: World, rank: RankMap, s: Symbol)
    requires Acyclic(w, rank) && s.stype != TristateType && NormalConditions(DeclOf(w.table, s).props)
    ensures
      var bound, props := RankOf(rank, s), TransBoolProps(DeclOf(w.table, s).props);
      && Under(rank, bound, PropsSymbols(props))
      && PromoteVisible(s, w.modules, PromptsValue(w, rank, bound, props)) == VisibleValue(w, rank, s)
  {
    DeclUnder(w, rank, s);
    TransBoolKeepsProps(w, rank, RankOf(rank, s), DeclOf(w.table, s).props);
  }

  // Two worlds that agree on whatever a symbol depends on give it the same value

  /** Same declarations and module support, and for every member of `part` the same
      setting, unless it is known to have the same value anyhow; `part` holds the
      dependencies of all its members. */
  ghost predicate Comparable(w1: World, r1: RankMap, w2: World, r2: RankMap, part: iset<Symbol>) {
    && Acyclic(w1, r1) && Acyclic(w2, r2)
    && w1.table == w2.table && w1.modules == w2.modules
    && (forall s :: s in part ==> SettingOf(w1, s) == SettingOf(w2, s) || SymbolValue(w1, r1, s) == SymbolValue(w2, r2, s))
    && (forall s, d :: s in part && d in Deps(w1.table, s) ==> d in part)
  }

  ghost predicate Within(symbols: set<Symbol>, part: iset<Symbol>) {
    forall d :: d in symbols ==> d in part
  }

  lemma {:induction false} SameExpr(w1: World, r1: RankMap, b1: nat, w2: World, r2: RankMap, b2: nat, part: iset<Symbol>, e: Expr)
    requires Comparable(w1, r1, w2, r2, part)
    requires Under(r1, b1, Symbols(e)) && Under(r2, b2, Symbols(e)) && Within(Symbols(e), part)
    ensures ExprValue(w1, r1, b1, e) == ExprValue(w2, r2, b2, e)
    decreases b1, 1, e
  {
    match e
    case Sym(s) => SameValue(w1, r1, w2, r2, part, s);
    case Equal(l, r) => SameValue(w1, r1, w2, r2, part, l); SameValue(w1, r1, w2, r2, part, r);
    case Unequal(l, r) => SameValue(w1, r1, w2, r2, part, l); SameValue(w1, r1, w2, r2, part, r);
    case Not(x) => SameExpr(w1, r1, b1, w2, r2, b2, part, x);
    case Junction(_, l, r) =>
      SameExpr(w1, r1, b1, w2, r2, b2, part, l);
      SameExpr(w1, r1, b1, w2, r2, b2, part, r);
  }

  lemma {:induction false} SameOpt(w1: World, r1: RankMap, b1: nat, w2: World, r2: RankMap, b2: nat, part: iset<Symbol>, e: Option<Expr>)
    requires Comparable(w1, r1, w2, r2, part)
    requires Under(r1, b1, OptSymbols(e)) && Under(r2, b2, OptSymbols(e)) && Within(OptSymbols(e), part)
    ensures OptExprValue(w1, r1, b1, e) == OptExprValue(w2, r2, b2, e)
    decreases b1, 2
  {
    if e.Some? {
      SameExpr(w1, r1, b1, w2, r2, b2, part, e.value);
    }
  }

  lemma {:induction false} SameProps(w1: World, r1: RankMap, b1: nat, w2: World, r2: RankMap, b2: nat, part: iset<Symbol>, props: seq<Property>)
    requires Comparable(w1, r1, w2, r2, part)
    requires Under(r1, b1, PropsSymbols(props)) && Under(r2, b2, PropsSymbols(props)) && Within(PropsSymbols(props), part)
    ensures PromptsValue(w1, r1, b1, props) == PromptsValue(w2, r2, b2, props)
    ensures DefaultProperty(w1, r1, b1, props) == DefaultProperty(w2, r2, b2, props)
    ensures var p := DefaultProperty(w1, r1, b1, props); p.Some? ==> Within(PropSymbols(p.value), part)
    decreases b1, 3, props
  {
    if props != [] {
      PropsUnder(props, r1, b1, 0);
      PropsUnder(props, r2, b2, 0);
      if props[0].ptype != SelectProp {
        SameOpt(w1, r1, b1, w2, r2, b2, part, props[0].visible);
      }
      SameProps(w1, r1, b1, w2, r2, b2, part, props[1..]);
    }
  }

  lemma {:induction false} SameParts(w1: World, r1: RankMap, w2: World, r2: RankMap, part: iset<Symbol>, s: Symbol)
    requires Comparable(w1, r1, w2, r2, part) && Within(Deps(w1.table, s), part)
    ensures VisibleValue(w1, r1, s) == VisibleValue(w2, r2, s)
    ensures RevDepValue(w1, r1, s) == RevDepValue(w2, r2, s)
    ensures DefaultTristate(w1, r1, s) == DefaultTristate(w2, r2, s)
    ensures DefaultText(w1, r1, s) == DefaultText(w2, r2, s)
    decreases RankOf(r1, s), 4
  {
    DeclUnder(w1, r1, s);
    DeclUnder(w2, r2, s);
    var d := DeclOf(w1.table, s);
    var b1, b2 := RankOf(r1, s), RankOf(r2, s);
    SameOpt(w1, r1, b1, w2, r2, b2, part, d.revDep);
    SameProps(w1, r1, b1, w2, r2, b2, part, d.props);
    var p := DefaultProperty(w1, r1, b1, d.props);
    if p.Some? {
      SameOpt(w1, r1, b1, w2, r2, b2, part, p.value.expr);
      if p.value.expr.Some? && p.value.expr.value.Sym? {
        assert p.value.expr.value.sym in PropSymbols(p.value);
        SameValue(w1, r1, w2, r2, part, p.value.expr.value.sym);
      }
    }
  }

  lemma {:induction false} SameValue(w1: World, r1: RankMap, w2: World, r2: RankMap, part: iset<Symbol>, s: Symbol)
    requires Comparable(w1, r1, w2, r2, part) && s in part
    ensures SymbolValue(w1, r1, s) == SymbolValue(w2, r2, s)
    decreases RankOf(r1, s), 5
  {
    SameParts(w1, r1, w2, r2, part, s);
  }

  /** The value of a symbol does not hang on the rank that proves it well-defined. */
  lemma RankDoesNotMatter(w: World, r1: RankMap, r2: RankMap, s: Symbol)
    requires Acyclic(w, r1) && Acyclic(w, r2)
    ensures SymbolValue(w, r1, s) == SymbolValue(w, r2, s)
  {
    SameValue(w, r1, w, r2, (iset x: Symbol | RankOf(r1, x) >= 0), s);
  }

  // Dependence through any number of steps

  /** A chain of direct dependencies from its first to its last symbol. */
  predicate IsChain(t: Table, c: seq<Symbol>) {
    c != [] && forall i :: 0 <= i < |c| - 1 ==> c[i + 1] in Deps(t, c[i])
  }

  ghost predicate DependsOn(t: Table, s: Symbol, x: Symbol) {
    exists c :: IsChain(t, c) && c[0] == s && c[|c| - 1] == x
  }

  lemma DependsOnStep(t: Table, s: Symbol, d: Symbol, x: Symbol)
    requires d in Deps(t, s) && DependsOn(t, d, x)
    ensures DependsOn(t, s, x)
  {
    var c :| IsChain(t, c) && c[0] == d && c[|c| - 1] == x;
    assert IsChain(t, [s] + c);
  }

  lemma {:induction false} ChainRanks(w: World, rank: RankMap, c: seq<Symbol>)
    requires Acyclic(w, rank) && IsChain(w.table, c)
    ensures RankOf(rank, c[|c| - 1]) + |c| - 1 <= RankOf(rank, c[0])
    decreases |c|
  {
    if |c| > 1 {
      assert c[0 + 1] in Deps(w.table, c[0]);
      OnlyDeclaredDepend(w.table, c[0]);
      ChainRanks(w, rank, c[1..]);
    }
  }

  /** No symbol depends on itself: a dependency of `x` does not lead back to `x`. */
  lemma NoWayBack(w: World, rank: RankMap, x: Symbol, d: Symbol)
    requires Acyclic(w, rank) && d in Deps(w.table, x)
    ensures !DependsOn(w.table, d, x)
  {
    if c :| IsChain(w.table, c) && c[0] == d && c[|c| - 1] == x {
      ChainRanks(w, rank, c);
      OnlyDeclaredDepend(w.table, x);
      assert false;
    }
  }

  /** Everything that does not depend on `x` keeps its value when only the setting of
      `x` changes, and so do visibility, reverse dependency and default of `x`. */
  lemma OnlyDependentsChange(w1: World, w2: World, rank: RankMap, x: Symbol, s: Symbol)
    requires Acyclic(w1, rank) && w1.table == w2.table && w1.modules == w2.modules
    requires forall y :: y != x ==> SettingOf(w1, y) == SettingOf(w2, y)
    ensures Acyclic(w2, rank)
    ensures !DependsOn(w1.table, s, x) ==> SymbolValue(w1, rank, s) == SymbolValue(w2, rank, s)
    ensures VisibleValue(w1, rank, x) == VisibleValue(w2, rank, x)
    ensures RevDepValue(w1, rank, x) == RevDepValue(w2, rank, x)
    ensures DefaultTristate(w1, rank, x) == DefaultTristate(w2, rank, x)
    ensures DefaultText(w1, rank, x) == DefaultText(w2, rank, x)
  {
    var part := iset y: Symbol | !DependsOn(w1.table, y, x);
    forall y, d | y in part && d in Deps(w1.table, y)
      ensures d in part
    {
      if DependsOn(w1.table, d, x) {
        DependsOnStep(w1.table, y, d, x);
      }
    }
    assert IsChain(w1.table, [x]);
    assert x !in part;
    forall d | d in Deps(w1.table, x)
      ensures d in part
    {
      NoWayBack(w1, rank, x, d);
    }
    SameParts(w1, rank, w2, rank, part, x);
    if s in part {
      SameValue(w1, rank, w2, rank, part, s);
    }
  }

  // What setting a symbol does

  function WithSetting(w: World, x: Symbol, val: Tristate): World {
    w.(user := w.user[x := SettingOf(w, x).(given := true, tri := val)])
  }

  /** sym_tristate_within_range. */
  predicate Settable(s: Symbol, modules: Tristate, visible: Tristate, rev: Tristate, val: Tristate) {
    && visible != NO && IsLogical(s)
    && !(CountsAsBoolean(s, modules) && val == MOD)
    && visible > rev
    && rev <= val <= visible
  }

  lemma SettableValues(s: Symbol, modules: Tristate, before: Setting, text: string, dflt: Tristate, visible: Tristate, rev: Tristate, val: Tristate)
    requires IsLogical(s) && (CountsAsBoolean(s, modules) ==> visible != MOD && rev != MOD)
    ensures LogicalTri(s, modules, before, dflt, visible, rev) != val ==>
              (Settable(s, modules, visible, rev, val)
               <==> LogicalTri(s, modules, Setting(true, val, text), dflt, visible, rev) == val)
    ensures LogicalTri(s, modules, before, dflt, visible, rev) == val ==>
              LogicalTri(s, modules, Setting(true, val, text), dflt, visible, rev) == val
  {
  }

  /** A value the symbol does not have yet is accepted exactly if it would stick; the
      one it has sticks anyhow. */
  lemma SettableIsExact(w: World, rank: RankMap, x: Symbol, val: Tristate)
    requires Acyclic(w, rank) && IsLogical(x)
    ensures var w' := WithSetting(w, x, val);
            && Acyclic(w', rank)
            && (forall y :: y != x ==> SettingOf(w, y) == SettingOf(w', y))
            && (SymbolValue(w', rank, x).tri == val
                <==> SymbolValue(w, rank, x).tri == val
                     || Settable(x, w.modules, VisibleValue(w, rank, x), RevDepValue(w, rank, x), val))
  {
    var w' := WithSetting(w, x, val);
    assert forall y :: y != x ==> SettingOf(w, y) == SettingOf(w', y);
    OnlyDependentsChange(w, w', rank, x, x);
    SettableValues(x, w.modules, SettingOf(w, x), SettingOf(w, x).text, DefaultTristate(w, rank, x),
                   VisibleValue(w, rank, x), RevDepValue(w, rank, x), val);
  }

  /** Setting a symbol to the value it has changes no value at all. */
  lemma SettingSameValue(w: World, rank: RankMap, x: Symbol, s: Symbol)
    requires Acyclic(w, rank) && IsLogical(x)
    ensures var w' := WithSetting(w, x, SymbolValue(w, rank, x).tri);
            && Acyclic(w', rank)
            && SymbolValue(w', rank, s) == SymbolValue(w, rank, s)
            && VisibleValue(w', rank, s) == VisibleValue(w, rank, s)
            && RevDepValue(w', rank, s) == RevDepValue(w, rank, s)
  {
    var w' := WithSetting(w, x, SymbolValue(w, rank, x).tri);
    SettableIsExact(w, rank, x, SymbolValue(w, rank, x).tri);
    var part := iset y: Symbol | RankOf(rank, y) >= 0;
    SameValue(w, rank, w', rank, part, s);
    SameParts(w, rank, w', rank, part, s);
  }

  // Writing all values and reading them back

  /** After reading a configuration that was written for `w`, symbol `s` is set to the
      value it had; a symbol that was not visible is set to anything or nothing: it may
      not have been written, and what is read for it is dropped again. */
  ghost predicate ReadBack(w: World, rank: RankMap, w': World, s: Symbol)
    requires Acyclic(w, rank)
  {
    var setting, value := SettingOf(w', s), SymbolValue(w, rank, s);
    || VisibleValue(w, rank, s) == NO
    || (setting.given && if IsLogical(s) then setting.tri == value.tri else setting.text == value.text)
  }

  lemma PresentValueStays(s: Symbol, modules: Tristate, before: Setting, after: Setting,
                          dflt: Tristate, visible: Tristate, rev: Tristate)
    requires IsLogical(s) && (CountsAsBoolean(s, modules) ==> visible != MOD && rev != MOD)
    requires visible == NO || (after.given && after.tri == LogicalTri(s, modules, before, dflt, visible, rev))
    ensures LogicalTri(s, modules, after, dflt, visible, rev) == LogicalTri(s, modules, before, dflt, visible, rev)
  {
  }

  lemma PromotedParts(w: World, rank: RankMap, s: Symbol)
    requires Acyclic(w, rank) && IsLogical(s)
    ensures CountsAsBoolean(s, w.modules) ==> VisibleValue(w, rank, s) != MOD && RevDepValue(w, rank, s) != MOD
    ensures SymbolValue(w, rank, s) ==
      Content(LogicalTri(s, w.modules, SettingOf(w, s), DefaultTristate(w, rank, s),
                         VisibleValue(w, rank, s), RevDepValue(w, rank, s)), "n")
  {
  }

  lemma ReadBackOne(w: World, rank: RankMap, w': World, s: Symbol)
    requires Acyclic(w, rank) && Acyclic(w', rank) && w'.table == w.table && w'.modules == w.modules && ReadBack(w, rank, w', s)
    requires VisibleValue(w', rank, s) == VisibleValue(w, rank, s) && RevDepValue(w', rank, s) == RevDepValue(w, rank, s)
    requires DefaultTristate(w', rank, s) == DefaultTristate(w, rank, s) && DefaultText(w', rank, s) == DefaultText(w, rank, s)
    ensures SymbolValue(w', rank, s) == SymbolValue(w, rank, s)
  {
    hide VisibleValue, RevDepValue, DefaultTristate, DefaultText, LogicalTri, Acyclic;
    if IsLogical(s) {
      PromotedParts(w, rank, s);
      PromotedParts(w', rank, s);
      PresentValueStays(s, w.modules, SettingOf(w, s), SettingOf(w', s), DefaultTristate(w, rank, s),
                        VisibleValue(w, rank, s), RevDepValue(w, rank, s));
    }
  }

  /** Then every symbol has the value it had, by induction on the rank. */
  lemma {:induction false} ReadBackBelow(w: World, rank: RankMap, w': World, n: nat, s: Symbol)
    requires Acyclic(w, rank) && Acyclic(w', rank) && w'.table == w.table && w'.modules == w.modules
    requires forall x :: ReadBack(w, rank, w', x)
    requires RankOf(rank, s) < n
    ensures SymbolValue(w', rank, s) == SymbolValue(w, rank, s)
    ensures VisibleValue(w', rank, s) == VisibleValue(w, rank, s) && RevDepValue(w', rank, s) == RevDepValue(w, rank, s)
    decreases n
  {
    var part := iset x: Symbol | RankOf(rank, x) < RankOf(rank, s);
    forall x | x in part
      ensures SymbolValue(w, rank, x) == SymbolValue(w', rank, x)
    {
      ReadBackBelow(w, rank, w', n - 1, x);
    }
    forall x, d | (x in part || x == s) && d in Deps(w.table, x)
      ensures d in part
    {
      OnlyDeclaredDepend(w.table, x);
    }
    SameParts(w, rank, w', rank, part, s);
    ReadBackOne(w, rank, w', s);
  }

  lemma ReadBackKeepsValues(w: World, rank: RankMap, w': World, s: Symbol)
    requires Acyclic(w, rank) && w'.table == w.table && w'.modules == w.modules
    requires forall x :: ReadBack(w, rank, w', x)
    ensures Acyclic(w', rank) && SymbolValue(w', rank, s) == SymbolValue(w, rank, s)
    ensures VisibleValue(w', rank, s) == VisibleValue(w, rank, s) && RevDepValue(w', rank, s) == RevDepValue(w, rank, s)
  {
    ReadBackBelow(w, rank, w', RankOf(rank, s) + 1, s);
  }
}
