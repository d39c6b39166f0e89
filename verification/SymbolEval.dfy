/** The memoising evaluator sym_calc_value and the setter sym_set_tristate_value
    (scripts/kconfig/symbol.c), without choice groups and ranges. */
module SymbolEval {
  import opened Options
  import opened Tristates
  import opened Exprs
  import opened SymbolDecls
  import opened SymbolValues
  import SymbolMeaning

  /** y, m and n are valid from the start and stay so. */
  const TRUTH_VALUES: set<Symbol> := {SymYes, SymMod, SymNo}
  const TRUTH_CONTENTS: map<Symbol, Content> :=
    map[SymYes := Content(YES, "y"), SymMod := Content(MOD, "m"), SymNo := Content(NO, "n")]

  predicate Kept(symbols: set<Symbol>, before: map<Symbol, Tristate>, after: map<Symbol, Tristate>) {
    forall s :: s in symbols && s in before ==> s in after && after[s] == before[s]
  }

  class SymbolTable {
    const table: Table
    const modulesSym: Option<Symbol>

    /** The fields of struct symbol that evaluation and setting change. */
    var user: map<Symbol, Setting>
    var valid: set<Symbol>
    var curr: map<Symbol, Content>
    var visible: map<Symbol, Tristate>
    var revTri: map<Symbol, Tristate>

    /** modules_val and sym_change_count. */
    var modulesVal: Tristate
    var changeCount: nat

    /** Why the recursion ends, and the symbols whose evaluation is under way. */
    ghost const rank: RankMap
    ghost var active: set<Symbol>

    constructor (t: Table, m: Option<Symbol>, settings: map<Symbol, Setting>, modules: Tristate, ghost r: RankMap)
      requires var w := World(t, settings, modules);
               && Acyclic(w, r)
               && (m.Some? && m.value.stype != UnknownType ==> SymbolValue(w, r, m.value).tri == modules)
      ensures table == t && modulesSym == m && user == settings && modulesVal == modules && rank == r
      ensures Valid() && valid == TRUTH_VALUES && active == {}
    {
      table, modulesSym, rank := t, m, r;
      user, valid, curr, visible, revTri := settings, TRUTH_VALUES, TRUTH_CONTENTS, map[], map[];
      modulesVal, changeCount, active := modules, 0, {};
    }

    function TheWorld(): World
      reads this
    {
      World(table, user, modulesVal)
    }

    /** Module support is what its symbol says. */
    ghost predicate ModulesSettled()
      reads this
      requires Acyclic(TheWorld(), rank)
    {
      modulesSym.Some? && modulesSym.value.stype != UnknownType ==>
        SymbolValue(TheWorld(), rank, modulesSym.value).tri == modulesVal
    }

    /** What is cached for a symbol is what the definition says. */
    ghost predicate Cached(s: Symbol)
      reads this
      requires Acyclic(TheWorld(), rank)
    {
      && s in curr && curr[s] == SymbolValue(TheWorld(), rank, s)
      && (s.stype != UnknownType ==>
            && s in visible && visible[s] == VisibleValue(TheWorld(), rank, s)
            && s in revTri && revTri[s] == RevDepValue(TheWorld(), rank, s))
    }

    ghost predicate Valid()
      reads this
    {
      && Acyclic(TheWorld(), rank) && ModulesSettled()
      && active <= valid && TRUTH_VALUES <= valid && active !! TRUTH_VALUES
      && (forall s :: s in valid && s !in active ==> Cached(s))
    }

    /** A symbol may be asked for when it ranks below everything under way. */
    ghost predicate Askable(bound: nat)
      reads this
    {
      forall a :: a in active ==> bound <= RankOf(rank, a)
    }

    /** Evaluation fills caches; settings and module support stay, and so do the
        visibilities of symbols under way, `except` aside. */
    twostate predicate FilledExcept(except: set<Symbol>)
      reads this
    {
      && Valid() && active == old(active) && user == old(user) && modulesVal == old(modulesVal)
      && old(valid) <= valid && changeCount == old(changeCount)
      && Kept(old(active) - except, old(visible), visible) && Kept(old(active) - except, old(revTri), revTri)
    }

    twostate predicate Filled()
      reads this
    {
      FilledExcept({})
    }

    method CalcExpr(e: Expr, ghost bound: nat) returns (t: Tristate)
      requires Valid() && Askable(bound) && Under(rank, bound, Symbols(e))
      modifies this
      ensures Filled()
      ensures t == ExprValue(TheWorld(), rank, bound, e)
      decreases bound, 1, e
    {
      match e
      case Sym(s) =>
        CalcValue(s);
        t := curr[s].tri;
      case Junction(op, left, right) =>
        var val1 := CalcExpr(left, bound);
        var val2 := CalcExpr(right, bound);
        t := Apply(op, val1, val2);
      case Not(x) =>
        var val1 := CalcExpr(x, bound);
        t := Negate(val1);
      case Equal(left, right) =>
        var same := CompareStrings(left, right, bound);
        t := if same then YES else NO;
      case Unequal(left, right) =>
        var same := CompareStrings(left, right, bound);
        t := if same then NO else YES;
    }

    method CompareStrings(left: Symbol, right: Symbol, ghost bound: nat) returns (same: bool)
      requires Valid() && Askable(bound) && RankOf(rank, left) < bound && RankOf(rank, right) < bound
      modifies this
      ensures Filled()
      ensures same <==> StringOf(left, SymbolValue(TheWorld(), rank, left)) == StringOf(right, SymbolValue(TheWorld(), rank, right))
      decreases bound, 0
    {
      CalcValue(left);
      CalcValue(right);
      same := StringOf(left, curr[left]) == StringOf(right, curr[right]);
    }

    method CalcOpt(e: Option<Expr>, ghost bound: nat) returns (t: Tristate)
      requires Valid() && Askable(bound) && Under(rank, bound, OptSymbols(e))
      modifies this
      ensures Filled()
      ensures t == OptExprValue(TheWorld(), rank, bound, e)
      decreases bound, 2
    {
      if e.None? {
        return YES;
      }
      t := CalcExpr(e.value, bound);
    }

    /** A property without a text shows no prompt. */
    method CalcPrompt(p: Property, ghost bound: nat) returns (t: Tristate)
      requires Valid() && Askable(bound) && Under(rank, bound, PropSymbols(p))
      modifies this
      ensures Filled() && t == PromptValue(TheWorld(), rank, bound, p)
      decreases bound, 3
    {
      t := NO;
      if p.hasText && p.ptype != SelectProp {
        t := CalcOpt(p.visible, bound);
      }
    }

    /** Is any prompt visible? */
    method CalcPrompts(s: Symbol) returns (tri: Tristate)
      requires Valid() && s in active && Askable(RankOf(rank, s))
      modifies this
      ensures Filled() && PromoteVisible(s, modulesVal, tri) == VisibleValue(TheWorld(), rank, s)
      decreases RankOf(rank, s), 4
    {
      hide SymbolValue, PromptValue, PromptsValue, PropSymbols, PropsSymbols, Under, Acyclic, RevDepValue, Max;
      ghost var bound, w := RankOf(rank, s), TheWorld();
      DeclUnder(w, rank, s);
      var props := DeclOf(table, s).props;
      tri := NO;
      var i := 0;
      assert props[0..] == props;
      NoPrompts(w, rank, bound, props);
      while i < |props|
        invariant 0 <= i <= |props|
        invariant Filled() && TheWorld() == w
        invariant Under(rank, bound, PropsSymbols(props[i..]))
        invariant PromptsValue(w, rank, bound, props) == Max(tri, PromptsValue(w, rank, bound, props[i..]))
      {
        NextPrompt(w, rank, bound, props, i, tri);
        var t := CalcPrompt(props[i], bound);
        tri := Max(tri, t);
        i := i + 1;
      }
    }

    static lemma NoPrompts(w: World, rank: RankMap, bound: nat, props: seq<Property>)
      requires Acyclic(w, rank) && Under(rank, bound, PropsSymbols(props))
      ensures PromptsValue(w, rank, bound, props) == Max(NO, PromptsValue(w, rank, bound, props[0..]))
      ensures props[|props|..] == [] && Under(rank, bound, PropsSymbols([])) && PromptsValue(w, rank, bound, []) == NO
      ensures forall t: Tristate :: Max(t, NO) == t
    {
      assert props[0..] == props;
    }

    static lemma NextPrompt(w: World, rank: RankMap, bound: nat, props: seq<Property>, i: nat, tri: Tristate)
      requires Acyclic(w, rank) && i < |props| && Under(rank, bound, PropsSymbols(props[i..]))
      ensures Under(rank, bound, PropSymbols(props[i])) && Under(rank, bound, PropsSymbols(props[i + 1..]))
      ensures Max(tri, PromptsValue(w, rank, bound, props[i..]))
           == Max(Max(tri, PromptValue(w, rank, bound, props[i])), PromptsValue(w, rank, bound, props[i + 1..]))
    {
      hide PromptValue, SymbolValue, Acyclic;
      PropsUnder(props[i..], rank, bound, 0);
      assert props[i..][1..] == props[i + 1..];
    }

    method CalcRevDep(s: Symbol) returns (tri: Tristate)
      requires Valid() && s in active && Askable(RankOf(rank, s))
      modifies this
      ensures Filled() && tri == RevDepValue(TheWorld(), rank, s)
      decreases RankOf(rank, s), 4
    {
      DeclUnder(TheWorld(), rank, s);
      tri := NO;
      var rev := DeclOf(table, s).revDep;
      if rev.Some? {
        tri := CalcOpt(rev, RankOf(rank, s));
      }
      if tri == MOD && CountsAsBoolean(s, modulesVal) {
        tri := YES;
      }
    }

    /** sym_calc_visibility: the cached visibility and reverse dependency. */
    method CalcVisibility(s: Symbol)
      requires Valid() && s in active && Askable(RankOf(rank, s))
      modifies this
      ensures FilledExcept({s})
      ensures s in visible && visible[s] == VisibleValue(TheWorld(), rank, s)
      ensures s in revTri && revTri[s] == RevDepValue(TheWorld(), rank, s)
      decreases RankOf(rank, s), 5
    {
      hide VisibleValue, RevDepValue, SymbolValue, PromptsValue, OptExprValue, ExprValue, Acyclic;
      var tri := CalcPrompts(s);
      if tri == MOD && (s.stype != TristateType || modulesVal == NO) {
        tri := YES;
      }
      visible := visible[s := tri];
      tri := CalcRevDep(s);
      revTri := revTri[s := tri];
    }

    /** sym_get_default_prop. */
    method GetDefaultProp(s: Symbol) returns (p: Option<Property>)
      requires Valid() && s in active && Askable(RankOf(rank, s))
      modifies this
      ensures Filled()
      ensures Under(rank, RankOf(rank, s), PropsSymbols(DeclOf(table, s).props))
      ensures p == DefaultProperty(TheWorld(), rank, RankOf(rank, s), DeclOf(table, s).props)
      decreases RankOf(rank, s), 5
    {
      ghost var bound := RankOf(rank, s);
      DeclUnder(TheWorld(), rank, s);
      var props := DeclOf(table, s).props;
      var i := 0;
      assert props[0..] == props;
      while i < |props|
        invariant 0 <= i <= |props|
        invariant Filled()
        invariant Under(rank, bound, PropsSymbols(props[i..]))
        invariant DefaultProperty(TheWorld(), rank, bound, props) == DefaultProperty(TheWorld(), rank, bound, props[i..])
      {
        PropsUnder(props[i..], rank, bound, 0);
        assert props[i..][1..] == props[i + 1..];
        if props[i].ptype == DefaultProp {
          var t := CalcOpt(props[i].visible, bound);
          if t != NO {
            return Some(props[i]);
          }
        }
        i := i + 1;
      }
      p := None;
    }

    /** The tristate a default gives, n without one. */
    method CalcDefaultTristate(s: Symbol) returns (t: Tristate)
      requires Valid() && s in active && Askable(RankOf(rank, s))
      modifies this
      ensures Filled()
      ensures t == DefaultTristate(TheWorld(), rank, s)
      decreases RankOf(rank, s), 6
    {
      var p := GetDefaultProp(s);
      if p.None? {
        return NO;
      }
      t := CalcOpt(p.value.expr, RankOf(rank, s));
    }

    /** The text of the symbol a default names. */
    method CalcDefaultText(s: Symbol) returns (text: string)
      requires Valid() && s in active && Askable(RankOf(rank, s))
      modifies this
      ensures Filled()
      ensures text == DefaultText(TheWorld(), rank, s)
      decreases RankOf(rank, s), 6
    {
      var p := GetDefaultProp(s);
      if p.None? || p.value.expr.None? || !p.value.expr.value.Sym? {
        return "";
      }
      var ds := p.value.expr.value.sym;
      assert ds in PropSymbols(p.value);
      CalcValue(ds);
      text := curr[ds].text;
    }

    method CalcLogical(s: Symbol) returns (newval: Content)
      requires Valid() && s in active && Askable(RankOf(rank, s)) && IsLogical(s)
      requires s in visible && visible[s] == VisibleValue(TheWorld(), rank, s)
      requires s in revTri && revTri[s] == RevDepValue(TheWorld(), rank, s)
      modifies this
      ensures Filled()
      ensures newval == SymbolValue(TheWorld(), rank, s)
      decreases RankOf(rank, s), 7
    {
      var vis, rev := visible[s], revTri[s];
      var tri: Tristate;
      if Max(vis, rev) != NO {
        if SettingOf(TheWorld(), s).given {
          tri := SettingOf(TheWorld(), s).tri;
        } else {
          tri := CalcDefaultTristate(s);
        }
        tri := Max(Min(tri, vis), rev);
      } else {
        tri := CalcDefaultTristate(s);
      }
      if tri == MOD && CountsAsBoolean(s, modulesVal) {
        tri := YES;
      }
      newval := Content(tri, "n");
    }

    method CalcText(s: Symbol) returns (newval: Content)
      requires Valid() && s in active && Askable(RankOf(rank, s)) && !IsLogical(s) && s.stype != UnknownType
      requires s in visible && visible[s] == VisibleValue(TheWorld(), rank, s)
      modifies this
      ensures Filled()
      ensures newval == SymbolValue(TheWorld(), rank, s)
      decreases RankOf(rank, s), 7
    {
      if visible[s] != NO && SettingOf(TheWorld(), s).given {
        return Content(NO, SettingOf(TheWorld(), s).text);
      }
      var text := CalcDefaultText(s);
      newval := Content(NO, text);
    }

    /** The value of a symbol whose visibility is known.  Meanwhile it holds what it
        would see if it asked for itself. */
    method CalcNewval(s: Symbol) returns (newval: Content)
      requires Valid() && s in active && Askable(RankOf(rank, s)) && s.stype != UnknownType
      requires s in visible && visible[s] == VisibleValue(TheWorld(), rank, s)
      requires s in revTri && revTri[s] == RevDepValue(TheWorld(), rank, s)
      modifies this
      ensures Filled()
      ensures newval == SymbolValue(TheWorld(), rank, s)
      decreases RankOf(rank, s), 8
    {
      curr := curr[s := if IsLogical(s) then Content(NO, "n") else Content(NO, "")];
      if IsLogical(s) {
        newval := CalcLogical(s);
      } else {
        newval := CalcText(s);
      }
    }

    /** The evaluation of a symbol that is not valid yet. */
    method CalcActive(s: Symbol)
      requires Valid() && s !in valid && s.stype != UnknownType
      requires forall a :: a in active ==> RankOf(rank, s) < RankOf(rank, a)
      modifies this
      ensures Filled()
      ensures s in valid && Cached(s)
      decreases RankOf(rank, s), 9
    {
      hide SymbolValue, VisibleValue, RevDepValue, Acyclic;
      valid, active := valid + {s}, active + {s};
      CalcVisibility(s);
      var newval := CalcNewval(s);
      Settle(s, newval);
    }

    /** The new value is stored, and the evaluation is over. */
    method Settle(s: Symbol, newval: Content)
      requires Valid() && s in active && newval == SymbolValue(TheWorld(), rank, s)
      requires s in visible && visible[s] == VisibleValue(TheWorld(), rank, s)
      requires s in revTri && revTri[s] == RevDepValue(TheWorld(), rank, s)
      modifies this`curr, this`active
      ensures Valid() && active == old(active) - {s} && Cached(s)
    {
      hide SymbolValue, VisibleValue, RevDepValue, Acyclic;
      curr := curr[s := newval];
      active := active - {s};
    }

    /** sym_calc_value: a valid symbol is left alone, any other gets its value, which is
        the one that its properties ask for. */
    method CalcValue(s: Symbol)
      requires Valid() && forall a :: a in active ==> RankOf(rank, s) < RankOf(rank, a)
      modifies this
      ensures Filled()
      ensures s in valid && Cached(s)
      ensures SymbolMeaning.IsValueOf(TheWorld(), ValuationOf(TheWorld(), rank), s, curr[s])
      decreases RankOf(rank, s), 10
    {
      hide SymbolMeaning.IsValueOf, VisibleValue, RevDepValue, LogicalValue, ValuationOf, Acyclic;
      SymbolMeaning.ValueIs(TheWorld(), rank, s);
      if s in valid {
        return;
      }
      if s.stype == UnknownType {
        valid, curr := valid + {s}, curr[s := Content(NO, s.name)];
        return;
      }
      CalcActive(s);
      if modulesSym == Some(s) {
        modulesVal := curr[s].tri;
      }
    }

    /** sym_clear_all_valid: forget everything, then look up module support again. */
    method ClearAllValid()
      requires Acyclic(TheWorld(), rank) && ModulesSettled() && active == {}
      requires forall s :: s in TRUTH_VALUES ==> Cached(s)
      modifies this
      ensures Valid() && active == {}
      ensures user == old(user) && modulesVal == old(modulesVal) && changeCount == old(changeCount) + 1
      ensures modulesSym.Some? ==> modulesSym.value in valid
    {
      valid := TRUTH_VALUES;
      changeCount := changeCount + 1;
      if modulesSym.Some? {
        CalcValue(modulesSym.value);
      }
    }

    /** sym_tristate_within_range, from the cached visibility and reverse dependency. */
    predicate WithinRange(s: Symbol, val: Tristate)
      requires s in visible && s in revTri
      reads this
    {
      && visible[s] != NO
      && IsLogical(s)
      && !(CountsAsBoolean(s, modulesVal) && val == MOD)
      && visible[s] > revTri[s]
      && revTri[s] <= val <= visible[s]
    }

    /** sym_set_tristate_value for a symbol that is up to date and that module support
        does not depend on.  A change is accepted exactly when it sticks: afterwards
        the symbol evaluates to `val`, and whatever does not depend on it evaluates to
        what it did before. */
    method SetTristate(s: Symbol, val: Tristate) returns (ok: bool)
      requires Valid() && active == {} && s in valid && IsLogical(s)
      requires modulesSym.Some? ==> !DependsOn(table, modulesSym.value, s)
      modifies this
      ensures Valid() && active == {} && modulesVal == old(modulesVal)
      ensures ok <==> old(SymbolValue(WithSetting(TheWorld(), s, val), rank, s).tri) == val
      ensures !ok ==> user == old(user) && valid == old(valid) && curr == old(curr) && changeCount == old(changeCount)
      ensures ok ==> TheWorld() == old(WithSetting(TheWorld(), s, val))
      ensures changeCount == old(changeCount) + if ok && old(SymbolValue(TheWorld(), rank, s).tri) != val then 1 else 0
      ensures ok ==> SymbolValue(TheWorld(), rank, s).tri == val
      ensures forall x :: !DependsOn(table, x, s) ==> SymbolValue(TheWorld(), rank, x) == old(SymbolValue(TheWorld(), rank, x))
      ensures ok && old(SymbolValue(TheWorld(), rank, s).tri) == val ==> valid == old(valid)
    {
      var oldval := curr[s].tri;
      SettableIsExact(TheWorld(), rank, s, val);
      if oldval != val && !WithinRange(s, val) {
        return false;
      }
      ghost var w := TheWorld();
      var setting := SettingOf(TheWorld(), s);
      user := user[s := Setting(true, val, setting.text)];
      forall x | !DependsOn(table, x, s)
        ensures SymbolValue(TheWorld(), rank, x) == SymbolValue(w, rank, x)
      {
        OnlyDependentsChange(w, TheWorld(), rank, s, x);
      }
      if oldval != val {
        ClearAllValid();
      } else {
        forall x | x in valid
          ensures Cached(x)
        {
          SettingSameValue(w, rank, s, x);
        }
      }
      ok := true;
    }
  }
}
