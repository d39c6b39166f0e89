/** What a symbol evaluates to, by its properties (scripts/kconfig/symbol.c): a reading of
    the values of SymbolValues that uses nothing but the values of expressions. */
module SymbolMeaning {
  import opened Options
  import opened Tristates
  import opened Exprs
  import opened SymbolDecls
  import opened SymbolValues

  /** A property with a text that is no select shows a prompt. */
  predicate IsPrompt(p: Property) {
    p.hasText && p.ptype != SelectProp
  }

  predicate IsDefault(p: Property) {
    p.ptype == DefaultProp
  }

  /** The condition of a property. */
  function Shown(p: Property, v: Valuation): Tristate {
    OptValue(p.visible, v)
  }

  function PropsOf(w: World, s: Symbol): seq<Property> {
    if s in w.table then w.table[s].props else []
  }

  /** The least value that no condition of a prompt exceeds. */
  ghost predicate IsLeastBound(props: seq<Property>, v: Valuation, t: Tristate) {
    && (forall i :: 0 <= i < |props| && IsPrompt(props[i]) ==> Shown(props[i], v) <= t)
    && (t == NO || exists i :: 0 <= i < |props| && IsPrompt(props[i]) && Shown(props[i], v) == t)
  }

  /** Default `i` is the first whose condition is not n. */
  ghost predicate IsActive(props: seq<Property>, v: Valuation, i: nat) {
    && i < |props| && IsDefault(props[i]) && Shown(props[i], v) != NO
    && forall j :: 0 <= j < i && IsDefault(props[j]) ==> Shown(props[j], v) == NO
  }

  ghost predicate NoneActive(props: seq<Property>, v: Valuation) {
    forall j :: 0 <= j < |props| && IsDefault(props[j]) ==> Shown(props[j], v) == NO
  }

  /** Only a tristate symbol under module support can be m. */
  function WithoutMod(s: Symbol, modules: Tristate, t: Tristate): Tristate {
    if t == MOD && !(s.stype == TristateType && modules != NO) then YES else t
  }

  /** Visibility: the least bound of the prompts, m promoted. */
  ghost predicate IsVisibility(w: World, v: Valuation, s: Symbol, t: Tristate) {
    exists b: Tristate :: IsLeastBound(PropsOf(w, s), v, b) && t == WithoutMod(s, w.modules, b)
  }

  /** What other symbols demand of a logical one: the reverse dependency, m promoted. */
  function Demanded(w: World, v: Valuation, s: Symbol): Tristate {
    var rev := if s in w.table then w.table[s].revDep else None;
    WithoutMod(s, w.modules, if rev.None? then NO else Value(rev.value, v))
  }

  /** The value of a logical symbol without the user: of its active default, or n. */
  ghost predicate IsDefaultTristate(props: seq<Property>, v: Valuation, t: Tristate) {
    || (NoneActive(props, v) && t == NO)
    || exists i: nat :: IsActive(props, v, i) && t == OptValue(props[i].expr, v)
  }

  lemma {:induction false} PromptsBound(w: World, rank: RankMap, bound: nat, props: seq<Property>)
    requires Acyclic(w, rank) && Under(rank, bound, PropsSymbols(props))
    ensures IsLeastBound(props, ValuationOf(w, rank), PromptsValue(w, rank, bound, props))
  {
    hide Acyclic, Under, OptExprValue, ValuationOf;
    var v := ValuationOf(w, rank);
    if props != [] {
      PropsUnder(props, rank, bound, 0);
      var rest := props[1..];
      PromptsBound(w, rank, bound, rest);
      PromptIs(w, rank, bound, props[0]);
      var t, u := PromptsValue(w, rank, bound, props), PromptsValue(w, rank, bound, rest);
      assert forall i :: 1 <= i < |props| ==> props[i] == rest[i - 1];
      if t != NO && t == u {
        var i :| 0 <= i < |rest| && IsPrompt(rest[i]) && Shown(rest[i], v) == t;
        assert IsPrompt(props[i + 1]) && Shown(props[i + 1], v) == t;
      }
    }
  }

  lemma PromptIs(w: World, rank: RankMap, bound: nat, p: Property)
    requires Acyclic(w, rank) && Under(rank, bound, PropSymbols(p))
    ensures PromptValue(w, rank, bound, p) == if IsPrompt(p) then Shown(p, ValuationOf(w, rank)) else NO
  {
    if p.ptype != SelectProp {
      OptIs(w, rank, bound, p.visible);
    }
  }

  lemma OptIs(w: World, rank: RankMap, bound: nat, e: Option<Expr>)
    requires Acyclic(w, rank) && Under(rank, bound, OptSymbols(e))
    ensures OptExprValue(w, rank, bound, e) == OptValue(e, ValuationOf(w, rank))
  {
    if e.Some? {
      ValuationIsTyped(w, rank, bound, e.value);
    }
  }

  lemma {:induction false} DefaultFound(w: World, rank: RankMap, bound: nat, props: seq<Property>)
    requires Acyclic(w, rank) && Under(rank, bound, PropsSymbols(props))
    ensures var p, v := DefaultProperty(w, rank, bound, props), ValuationOf(w, rank);
            if p.None? then NoneActive(props, v) else exists i: nat :: IsActive(props, v, i) && p == Some(props[i])
  {
    hide Acyclic, Under, OptExprValue, ValuationOf, PropSymbols;
    var p, v := DefaultProperty(w, rank, bound, props), ValuationOf(w, rank);
    if props != [] {
      PropsUnder(props, rank, bound, 0);
      var rest := props[1..];
      DefaultFound(w, rank, bound, rest);
      DefaultShown(w, rank, bound, props[0]);
      assert forall i :: 1 <= i < |props| ==> props[i] == rest[i - 1];
      if IsDefault(props[0]) && Shown(props[0], v) != NO {
        assert IsActive(props, v, 0);
      } else if p.Some? {
        var i: nat :| IsActive(rest, v, i) && p == Some(rest[i]);
        assert IsActive(props, v, i + 1);
      }
    }
  }

  lemma DefaultShown(w: World, rank: RankMap, bound: nat, p: Property)
    requires Acyclic(w, rank) && Under(rank, bound, PropSymbols(p))
    ensures IsDefault(p) ==> OptExprValue(w, rank, bound, p.visible) == Shown(p, ValuationOf(w, rank))
    ensures IsDefault(p) ==> OptExprValue(w, rank, bound, p.expr) == OptValue(p.expr, ValuationOf(w, rank))
  {
    if IsDefault(p) {
      OptIs(w, rank, bound, p.visible);
      OptIs(w, rank, bound, p.expr);
    }
  }

  /** Visibility is the least upper bound of the prompts, and the reverse dependency is
      the value of its expression. */
  lemma PartsAre(w: World, rank: RankMap, s: Symbol)
    requires Acyclic(w, rank)
    ensures IsVisibility(w, ValuationOf(w, rank), s, VisibleValue(w, rank, s))
    ensures IsLogical(s) ==> RevDepValue(w, rank, s) == Demanded(w, ValuationOf(w, rank), s)
    ensures IsDefaultTristate(PropsOf(w, s), ValuationOf(w, rank), DefaultTristate(w, rank, s))
  {
    hide Acyclic, Under, ExprValue, PromptsValue, DefaultProperty, IsLeastBound, IsActive, NoneActive, ValuationOf;
    var v, bound, decl := ValuationOf(w, rank), RankOf(rank, s), DeclOf(w.table, s);
    DeclUnder(w, rank, s);
    PromptsBound(w, rank, bound, decl.props);
    assert IsLeastBound(PropsOf(w, s), v, PromptsValue(w, rank, bound, decl.props));
    OptIs(w, rank, bound, decl.revDep);
    DefaultFound(w, rank, bound, decl.props);
    var p := DefaultProperty(w, rank, bound, decl.props);
    if p.Some? {
      DefaultShown(w, rank, bound, p.value);
    }
  }

  /** The text of the symbol the active default names; a logical symbol has the text n
      whatever its tristate. */
  function NamedText(e: Option<Expr>, v: Valuation): string {
    if e.None? || !e.value.Sym? then "" else if IsLogical(e.value.sym) then "n" else v.str(e.value.sym)
  }

  ghost predicate IsDefaultText(props: seq<Property>, v: Valuation, text: string) {
    || (NoneActive(props, v) && text == "")
    || exists i: nat :: IsActive(props, v, i) && text == NamedText(props[i].expr, v)
  }

  lemma DefaultTextIs(w: World, rank: RankMap, s: Symbol)
    requires Acyclic(w, rank)
    ensures IsDefaultText(PropsOf(w, s), ValuationOf(w, rank), DefaultText(w, rank, s))
  {
    hide Acyclic, Under, OptExprValue, DefaultProperty, IsActive, NoneActive;
    DeclUnder(w, rank, s);
    DefaultFound(w, rank, RankOf(rank, s), DeclOf(w.table, s).props);
    NoneLogical(w, rank);
  }

  /** The text a logical symbol holds besides its tristate. */
  lemma NoneLogical(w: World, rank: RankMap)
    requires Acyclic(w, rank)
    ensures forall x :: IsLogical(x) ==> SymbolValue(w, rank, x).text == "n"
  {
    hide Acyclic, LogicalTri, DefaultTristate, VisibleValue, RevDepValue;
  }

  /** The tristate of a logical symbol: with visibility and reverse dependency n the
      default; else the setting, or the default of a symbol never set, limited by the
      visibility and raised to the reverse dependency.  m is promoted. */
  ghost predicate IsLogicalTri(w: World, v: Valuation, s: Symbol, t: Tristate) {
    exists vis: Tristate, d: Tristate ::
      && IsVisibility(w, v, s, vis) && IsDefaultTristate(PropsOf(w, s), v, d)
      && t == WithoutMod(s, w.modules, Limited(w, s, d, vis, Demanded(w, v, s)))
  }

  /** The user set the symbol, and that still counts. */
  predicate IsGiven(w: World, s: Symbol) {
    s in w.user && w.user[s].given
  }

  function Limited(w: World, s: Symbol, d: Tristate, vis: Tristate, rev: Tristate): Tristate {
    if vis == NO && rev == NO then d
    else Max(Min(if IsGiven(w, s) then w.user[s].tri else d, vis), rev)
  }

  /** The text of an int, hex or string symbol. */
  ghost predicate IsText(w: World, v: Valuation, s: Symbol, text: string) {
    exists vis: Tristate ::
      && IsVisibility(w, v, s, vis)
      && if vis != NO && IsGiven(w, s) then text == w.user[s].text
         else IsDefaultText(PropsOf(w, s), v, text)
  }

  /** The value of a symbol while all symbols hold what `v` says. */
  ghost predicate IsValueOf(w: World, v: Valuation, s: Symbol, c: Content) {
    if IsLogical(s) then c.text == "n" && IsLogicalTri(w, v, s, c.tri)
    else if s.stype == UnknownType then
      c.text == s.name && c.tri == if s == SymYes then YES else if s == SymMod then MOD else NO
    else c.tri == NO && IsText(w, v, s, c.text)
  }

  lemma LogicalIs(w: World, rank: RankMap, s: Symbol)
    requires Acyclic(w, rank) && IsLogical(s)
    ensures IsLogicalTri(w, ValuationOf(w, rank), s, SymbolValue(w, rank, s).tri)
  {
    hide Acyclic, IsVisibility, IsDefaultTristate, Demanded, ValuationOf, VisibleValue, RevDepValue, DefaultTristate, LogicalTri;
    PartsAre(w, rank, s);
    PromotedParts(w, rank, s);
    LimitedIs(w, s, DefaultTristate(w, rank, s), VisibleValue(w, rank, s), RevDepValue(w, rank, s));
  }

  lemma LimitedIs(w: World, s: Symbol, d: Tristate, vis: Tristate, rev: Tristate)
    requires IsLogical(s)
    ensures LogicalTri(s, w.modules, SettingOf(w, s), d, vis, rev) == WithoutMod(s, w.modules, Limited(w, s, d, vis, rev))
  {
  }

  lemma TextIs(w: World, rank: RankMap, s: Symbol)
    requires Acyclic(w, rank) && !IsLogical(s) && s.stype != UnknownType
    ensures SymbolValue(w, rank, s).tri == NO && IsText(w, ValuationOf(w, rank), s, SymbolValue(w, rank, s).text)
  {
    hide Acyclic, IsVisibility, IsDefaultText, ValuationOf, VisibleValue, DefaultText;
    PartsAre(w, rank, s);
    DefaultTextIs(w, rank, s);
    assert SymbolValue(w, rank, s).text ==
      if VisibleValue(w, rank, s) != NO && IsGiven(w, s) then w.user[s].text else DefaultText(w, rank, s);
  }

  /** The value that the definition by recursion gives is the one that the properties ask
      for, with the values of all other symbols. */
  lemma ValueIs(w: World, rank: RankMap, s: Symbol)
    requires Acyclic(w, rank)
    ensures IsValueOf(w, ValuationOf(w, rank), s, SymbolValue(w, rank, s))
  {
    hide Acyclic, IsLogicalTri, IsText, ValuationOf, LogicalValue, VisibleValue, DefaultText;
    NoneLogical(w, rank);
    if IsLogical(s) {
      LogicalIs(w, rank, s);
    } else if s.stype != UnknownType {
      TextIs(w, rank, s);
    }
  }

  // The cases one by one

  lemma OneBound(props: seq<Property>, v: Valuation, a: Tristate, b: Tristate)
    requires IsLeastBound(props, v, a) && IsLeastBound(props, v, b)
    ensures a == b
  {
  }

  lemma OneActive(props: seq<Property>, v: Valuation, i: nat)
    requires IsActive(props, v, i)
    ensures !NoneActive(props, v) && forall j: nat :: IsActive(props, v, j) ==> j == i
  {
  }

  lemma OneVisibility(w: World, v: Valuation, s: Symbol, a: Tristate, b: Tristate)
    requires IsVisibility(w, v, s, a) && IsVisibility(w, v, s, b)
    ensures a == b
  {
    hide IsLeastBound;
    var x: Tristate :| IsLeastBound(PropsOf(w, s), v, x) && a == WithoutMod(s, w.modules, x);
    var y: Tristate :| IsLeastBound(PropsOf(w, s), v, y) && b == WithoutMod(s, w.modules, y);
    OneBound(PropsOf(w, s), v, x, y);
  }

  lemma OneDefault(props: seq<Property>, v: Valuation)
    ensures forall d: Tristate, d': Tristate :: IsDefaultTristate(props, v, d) && IsDefaultTristate(props, v, d') ==> d == d'
    ensures forall t, t' :: IsDefaultText(props, v, t) && IsDefaultText(props, v, t') ==> t == t'
  {
    hide IsActive, NoneActive;
    if i: nat :| IsActive(props, v, i) {
      OneActive(props, v, i);
    }
  }

  /** Default `i` of a symbol never set is active: the symbol is what the default says,
      limited by the visibility and raised to the reverse dependency; with both n it is
      what the default says as it stands.  m is promoted. */
  lemma UnsetTakesDefault(w: World, rank: RankMap, s: Symbol, i: nat)
    requires Acyclic(w, rank) && IsLogical(s) && !IsGiven(w, s)
    requires IsActive(PropsOf(w, s), ValuationOf(w, rank), i)
    ensures var v, vis := ValuationOf(w, rank), VisibleValue(w, rank, s);
            var d, rev := OptValue(PropsOf(w, s)[i].expr, v), Demanded(w, v, s);
            && IsVisibility(w, v, s, vis)
            && v.tri(s) == WithoutMod(s, w.modules, if vis == NO && rev == NO then d else Max(Min(d, vis), rev))
  {
    hide Acyclic, IsVisibility, IsActive, NoneActive, Demanded, VisibleValue, RevDepValue, DefaultTristate, LogicalTri;
    var v := ValuationOf(w, rank);
    PartsAre(w, rank, s);
    OneActive(PropsOf(w, s), v, i);
    PromotedParts(w, rank, s);
    LimitedIs(w, s, DefaultTristate(w, rank, s), VisibleValue(w, rank, s), RevDepValue(w, rank, s));
  }

  /** Without an active default it is what other symbols demand. */
  lemma UnsetWithoutDefault(w: World, rank: RankMap, s: Symbol)
    requires Acyclic(w, rank) && IsLogical(s) && !IsGiven(w, s)
    requires NoneActive(PropsOf(w, s), ValuationOf(w, rank))
    ensures ValuationOf(w, rank).tri(s) == Demanded(w, ValuationOf(w, rank), s)
  {
    hide Acyclic, IsVisibility, IsActive, NoneActive, VisibleValue, RevDepValue, DefaultTristate, LogicalTri;
    var v := ValuationOf(w, rank);
    PartsAre(w, rank, s);
    if i: nat :| IsActive(PropsOf(w, s), v, i) {
      OneActive(PropsOf(w, s), v, i);
    }
    PromotedParts(w, rank, s);
    LimitedIs(w, s, DefaultTristate(w, rank, s), VisibleValue(w, rank, s), RevDepValue(w, rank, s));
  }

  // The values are the only ones that fit the properties

  /** The symbol holds what its properties ask for. */
  ghost predicate Holds(w: World, v: Valuation, s: Symbol) {
    exists c: Content ::
      && IsValueOf(w, v, s, c) && v.tri(s) == c.tri
      && v.str(s) == if IsLogical(s) then ["n", "m", "y"][c.tri] else c.text
  }

  ghost predicate Solves(w: World, v: Valuation) {
    forall s: Symbol :: Holds(w, v, s)
  }

  ghost predicate SameAt(v1: Valuation, v2: Valuation, s: Symbol) {
    v1.tri(s) == v2.tri(s) && v1.str(s) == v2.str(s)
  }

  ghost predicate Agree(v1: Valuation, v2: Valuation, symbols: set<Symbol>) {
    forall s :: s in symbols ==> SameAt(v1, v2, s)
  }

  lemma ValuesSolve(w: World, rank: RankMap)
    requires Acyclic(w, rank)
    ensures Solves(w, ValuationOf(w, rank))
  {
    hide Acyclic, IsValueOf, SymbolValue;
    forall s: Symbol
      ensures Holds(w, ValuationOf(w, rank), s)
    {
      ValueIs(w, rank, s);
    }
  }

  lemma {:induction false} SameMeaning(e: Expr, v1: Valuation, v2: Valuation)
    requires Agree(v1, v2, Symbols(e))
    ensures Value(e, v1) == Value(e, v2)
  {
    match e
    case Sym(s) => assert SameAt(v1, v2, s);
    case Equal(l, r) => assert SameAt(v1, v2, l) && SameAt(v1, v2, r);
    case Unequal(l, r) => assert SameAt(v1, v2, l) && SameAt(v1, v2, r);
    case Not(x) => SameMeaning(x, v1, v2);
    case Junction(_, l, r) => SameMeaning(l, v1, v2); SameMeaning(r, v1, v2);
  }

  lemma SameOptional(e: Option<Expr>, v1: Valuation, v2: Valuation)
    requires Agree(v1, v2, OptSymbols(e))
    ensures OptValue(e, v1) == OptValue(e, v2) && NamedText(e, v1) == NamedText(e, v2)
  {
    if e.Some? {
      SameMeaning(e.value, v1, v2);
      if e.value.Sym? {
        assert SameAt(v1, v2, e.value.sym);
      }
    }
  }

  lemma {:induction false} PropertyIn(props: seq<Property>, i: nat)
    requires i < |props|
    ensures PropSymbols(props[i]) <= PropsSymbols(props)
  {
    if i > 0 {
      PropertyIn(props[1..], i - 1);
    }
  }

  /** Conditions that count, and the values of defaults, mean the same. */
  lemma SameProperty(props: seq<Property>, v1: Valuation, v2: Valuation, i: nat)
    requires Agree(v1, v2, PropsSymbols(props)) && i < |props|
    ensures IsPrompt(props[i]) || IsDefault(props[i]) ==> Shown(props[i], v1) == Shown(props[i], v2)
    ensures IsDefault(props[i]) ==>
      OptValue(props[i].expr, v1) == OptValue(props[i].expr, v2) && NamedText(props[i].expr, v1) == NamedText(props[i].expr, v2)
  {
    hide OptValue, NamedText, OptSymbols, PropsSymbols;
    PropertyIn(props, i);
    var p := props[i];
    if p.ptype != SelectProp {
      SameOptional(p.visible, v1, v2);
      if p.ptype == DefaultProp {
        SameOptional(p.expr, v1, v2);
      }
    }
  }

  lemma SamePrompts(props: seq<Property>, v1: Valuation, v2: Valuation)
    requires Agree(v1, v2, PropsSymbols(props))
    ensures forall t: Tristate :: IsLeastBound(props, v1, t) ==> IsLeastBound(props, v2, t)
    ensures forall i: nat :: IsActive(props, v1, i) ==> IsActive(props, v2, i)
    ensures NoneActive(props, v1) ==> NoneActive(props, v2)
  {
    hide Shown, IsPrompt, IsDefault, PropsSymbols, Agree;
    forall i | 0 <= i < |props|
      ensures IsPrompt(props[i]) || IsDefault(props[i]) ==> Shown(props[i], v1) == Shown(props[i], v2)
    {
      SameProperty(props, v1, v2, i);
    }
  }

  lemma SameDefaults(props: seq<Property>, v1: Valuation, v2: Valuation)
    requires Agree(v1, v2, PropsSymbols(props))
    ensures forall d: Tristate :: IsDefaultTristate(props, v1, d) ==> IsDefaultTristate(props, v2, d)
    ensures forall t :: IsDefaultText(props, v1, t) ==> IsDefaultText(props, v2, t)
  {
    hide PropsSymbols, Agree, OptValue, NamedText, NoneActive;
    SamePrompts(props, v1, v2);
    forall i: nat | IsActive(props, v1, i)
      ensures OptValue(props[i].expr, v1) == OptValue(props[i].expr, v2) && NamedText(props[i].expr, v1) == NamedText(props[i].expr, v2)
    {
      SameProperty(props, v1, v2, i);
    }
  }

  lemma SameParts(w: World, v1: Valuation, v2: Valuation, s: Symbol)
    requires Agree(v1, v2, Deps(w.table, s))
    ensures forall t: Tristate :: IsVisibility(w, v1, s, t) ==> IsVisibility(w, v2, s, t)
    ensures Demanded(w, v1, s) == Demanded(w, v2, s)
    ensures forall d: Tristate :: IsDefaultTristate(PropsOf(w, s), v1, d) ==> IsDefaultTristate(PropsOf(w, s), v2, d)
    ensures forall t :: IsDefaultText(PropsOf(w, s), v1, t) ==> IsDefaultText(PropsOf(w, s), v2, t)
  {
    hide IsLeastBound, IsDefaultTristate, IsDefaultText, PropsSymbols, OptSymbols, Value;
    var decl := DeclOf(w.table, s);
    SamePrompts(decl.props, v1, v2);
    SameDefaults(decl.props, v1, v2);
    SameOptional(decl.revDep, v1, v2);
  }

  /** What is asked of a symbol hangs on its direct dependencies only. */
  lemma SameValueAsked(w: World, v1: Valuation, v2: Valuation, s: Symbol, c: Content)
    requires Agree(v1, v2, Deps(w.table, s)) && IsValueOf(w, v1, s, c)
    ensures IsValueOf(w, v2, s, c)
  {
    hide IsVisibility, IsDefaultTristate, IsDefaultText, Demanded, Deps, Agree;
    SameParts(w, v1, v2, s);
  }

  lemma OneValue(w: World, v: Valuation, s: Symbol, c: Content, c': Content)
    requires IsValueOf(w, v, s, c) && IsValueOf(w, v, s, c')
    ensures c == c'
  {
    hide IsVisibility, IsDefaultTristate, IsDefaultText, Demanded;
    forall a: Tristate, b: Tristate | IsVisibility(w, v, s, a) && IsVisibility(w, v, s, b)
      ensures a == b
    {
      OneVisibility(w, v, s, a, b);
    }
    OneDefault(PropsOf(w, s), v);
  }

  /** An acyclic configuration has one solution: two valuations that fit all properties
      agree on every symbol.  So they are the values that are computed. */
  lemma {:induction false} OneSolution(w: World, rank: RankMap, v1: Valuation, v2: Valuation, s: Symbol)
    requires Acyclic(w, rank) && Solves(w, v1) && Solves(w, v2)
    ensures SameAt(v1, v2, s)
    decreases RankOf(rank, s)
  {
    hide Deps, IsValueOf;
    forall d | d in Deps(w.table, s)
      ensures SameAt(v1, v2, d)
    {
      OnlyDeclaredDepend(w.table, s);
      OneSolution(w, rank, v1, v2, d);
    }
    assert Holds(w, v1, s) && Holds(w, v2, s);
    var c: Content :| IsValueOf(w, v1, s, c) && v1.tri(s) == c.tri && v1.str(s) == if IsLogical(s) then ["n", "m", "y"][c.tri] else c.text;
    var c': Content :| IsValueOf(w, v2, s, c') && v2.tri(s) == c'.tri && v2.str(s) == if IsLogical(s) then ["n", "m", "y"][c'.tri] else c'.text;
    SameValueAsked(w, v1, v2, s, c);
    OneValue(w, v2, s, c, c');
  }

  /** The values computed are those of any valuation that fits all properties. */
  lemma ValuesAreTheSolution(w: World, rank: RankMap, v: Valuation, s: Symbol)
    requires Acyclic(w, rank)
    requires Solves(w, v)
    ensures v.tri(s) == SymbolValue(w, rank, s).tri
    ensures v.str(s) == if IsLogical(s) then ["n", "m", "y"][v.tri(s)] else SymbolValue(w, rank, s).text
  {
    hide Acyclic, SymbolValue;
    ValuesSolve(w, rank);
    OneSolution(w, rank, v, ValuationOf(w, rank), s);
    ValueIs(w, rank, s);
    assert Holds(w, v, s);
  }

  // A boolean symbol with a prompt and a default

  const FOO: Symbol := Config(0, "FOO", BooleanType)
  const PROMPT := Property(PromptProp, true, None, None)
  const DEFAULT_YES := Property(DefaultProp, false, None, Some(Sym(SymYes)))
  const FOO_TABLE: Table := map[FOO := Decl([PROMPT, DEFAULT_YES], None)]

  /** config FOO, bool "foo", default y: y as long as the user says nothing, then what
      the user says. */
  lemma UnsetFoo(user: map<Symbol, Setting>, modules: Tristate, v: Valuation)
    requires Solves(World(FOO_TABLE, user, modules), v)
    ensures v.tri(FOO) == if FOO in user && user[FOO].given && user[FOO].tri == NO then NO else YES
  {
    var w := World(FOO_TABLE, user, modules);
    var props := [PROMPT, DEFAULT_YES];
    assert PropsOf(w, FOO) == props;
    assert Holds(w, v, FOO) && Holds(w, v, SymYes);
    assert IsPrompt(props[0]) && Shown(props[0], v) == YES;
    assert IsLeastBound(props, v, YES) && IsActive(props, v, 1);
    assert IsVisibility(w, v, FOO, YES);
  }
}
