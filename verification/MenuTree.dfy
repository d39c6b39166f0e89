/** menu_finalize: conditions are passed down, entries that depend on the entry before
    them move below it, and entries without a prompt give their own entries back
    (scripts/kconfig/menu.c). */
module MenuTree {
  import opened Options
  import opened Tristates
  import opened Exprs
  import opened ExprTransform
  import opened ExprCancel
  import opened ExprDups
  import opened ExprRounds
  import opened MenuLinks
  import opened MenuShape
  import opened MenuConditions

  /** An entry may stand for a symbol, and may have a prompt. */
  datatype Entry = Entry(sym: Option<Symbol>, hasPrompt: bool, hasText: bool)

  const NO_ENTRY := Entry(None, false, false)

  // expr_contains_symbol and expr_depends_symbol

  predicate ContainsSymbol(e: Expr, s: Symbol) {
    match e
    case Junction(_, l, r) => ContainsSymbol(l, s) || ContainsSymbol(r, s)
    case Sym(x) => x == s
    case Equal(l, r) => l == s || r == s
    case Unequal(l, r) => l == s || r == s
    case Not(x) => ContainsSymbol(x, s)
  }

  predicate DependsSymbol(e: Expr, s: Symbol) {
    match e
    case Junction(op, l, r) => op.AndOp? && (DependsSymbol(l, s) || DependsSymbol(r, s))
    case Sym(x) => x == s
    case Equal(l, r) => l == s && (r.SymYes? || r.SymMod?)
    case Unequal(l, r) => l == s && r.SymNo?
    case Not(x) => false
  }

  /** `c` is one of the operands joined by "and" at the top of `e`. */
  predicate IsConjunct(c: Expr, e: Expr) {
    c == e || (IsJunction(AndOp, e) && (IsConjunct(c, e.left) || IsConjunct(c, e.right)))
  }

  /** Which expressions pass the two tests: those that mention the symbol at all, and
      those with a conjunct FOO, FOO=y, FOO=m or FOO!=n. */
  lemma {:induction false} SymbolTests(e: Expr, s: Symbol)
    ensures ContainsSymbol(e, s) <==> s in Symbols(e)
    ensures DependsSymbol(e, s) <==>
      IsConjunct(Sym(s), e) || IsConjunct(Equal(s, SymYes), e) || IsConjunct(Equal(s, SymMod), e) || IsConjunct(Unequal(s, SymNo), e)
  {
    match e
    case Junction(_, l, r) => SymbolTests(l, s); SymbolTests(r, s);
    case Not(x) => SymbolTests(x, s);
    case _ =>
  }

  /** An entry that passes the direct test is n wherever the symbol is. */
  lemma {:induction false} DependsSymbolSound(e: Expr, s: Symbol, v: Valuation)
    requires Typed(v) && LogicalOperands(Sym(s)) && DependsSymbol(e, s)
    ensures Value(e, v) != NO ==> v.tri(s) != NO
  {
    match e
    case Junction(_, l, r) =>
      if DependsSymbol(l, s) {
        DependsSymbolSound(l, s, v);
      } else {
        DependsSymbolSound(r, s, v);
      }
    case Sym(x) =>
    case Equal(l, r) => OperandTest(s, r, v);
    case Unequal(l, r) => OperandTest(s, r, v);
    case Not(x) =>
  }

  /** What "is n" or "is not n" is turned into is n or y itself. */
  lemma {:induction false} ComparedIsDefinite(e: Expr, equal: bool, v: Valuation)
    requires Typed(v)
    ensures Value(TransCompare(e, equal, SymNo), v) != MOD
  {
    match e
    case Junction(_, l, r) => ComparedIsDefinite(l, true, v); ComparedIsDefinite(r, true, v);
    case Not(x) => ComparedIsDefinite(x, !equal, v);
    case _ =>
  }

  function CompareWithNo(e: Option<Expr>): Expr {
    Transform(TransCompareOpt(e, false, SymNo))
  }

  /** The answer `e is not n`, as the program computes it, implies the one for `base`. */
  ghost predicate Implies(e: Option<Expr>, base: Option<Expr>) {
    forall v: Valuation :: Typed(v) ==>
      Value(TransCompareOpt(e, false, SymNo), v) <= Value(TransCompareOpt(base, false, SymNo), v)
  }

  /** What an entry with condition `e` below one for `s` with condition `base` means. */
  ghost predicate Follows(e: Option<Expr>, s: Symbol, base: Option<Expr>) {
    e.Some? && (DependsSymbol(e.value, s) || Implies(e, base))
  }

  /** A condition as it is compared: "is not n", cleaned up. */
  function Compared(e: Option<Expr>): Expr {
    Reduced(CompareWithNo(e))
  }

  lemma ComparedMeans(e: Option<Expr>, v: Valuation)
    requires Typed(v)
    ensures Value(Compared(e), v) == Value(TransCompareOpt(e, false, SymNo), v)
  {
    var c := CompareWithNo(e);
    ReducedKeepsVerdicts(c);
    if e.Some? {
      ComparedIsDefinite(e.value, false, v);
    }
    TransformKeepsValue(TransCompareOpt(e, false, SymNo), v);
    assert Below(Value(c, v), Value(Reduced(c), v));
  }

  /** The test of the program: does an entry with condition `d` go below one for `s`
      whose condition is `base`? */
  predicate Belongs(d: Option<Expr>, s: Symbol, base: Option<Expr>) {
    && d.Some? && ContainsSymbol(d.value, s)
    && (DependsSymbol(d.value, s) || EliminateEq(Compared(d), Compared(base)).1 == Sym(SymYes))
  }

  /** An entry that passes the test depends on the symbol, or is shown only where the
      other entry is. */
  lemma BelongsMeans(d: Option<Expr>, s: Symbol, base: Option<Expr>)
    requires Belongs(d, s, base)
    ensures Follows(d, s, base)
  {
    hide Compared, EliminateEq;
    if !DependsSymbol(d.value, s) {
      forall v: Valuation | Typed(v)
        ensures Value(TransCompareOpt(d, false, SymNo), v) <= Value(TransCompareOpt(base, false, SymNo), v)
      {
        ReducedToYesImplies(Compared(d), Compared(base), v);
        ComparedMeans(d, v);
        ComparedMeans(base, v);
      }
    }
  }

  /** For the conditions themselves: where no negation in `d` meets an m, the entry is
      n wherever the symbol it depends on, or the condition it was compared with, is. */
  lemma BelongsShows(d: Option<Expr>, s: Symbol, base: Option<Expr>, v: Valuation)
    requires Belongs(d, s, base) && Typed(v)
    requires LogicalOperands(Sym(s)) && LogicalOperands(d.value) && !NegatesMod(d.value, v)
    requires base.Some? ==> LogicalOperands(base.value) && NegationNormal(base.value)
    ensures Value(d.value, v) != NO ==> if DependsSymbol(d.value, s) then v.tri(s) != NO else OptValue(base, v) != NO
  {
    hide Compared, EliminateEq;
    if DependsSymbol(d.value, s) {
      DependsSymbolSound(d.value, s, v);
    } else {
      BelongsMeans(d, s, base);
      assert Implies(d, base);
      TransCompareExact(d.value, false, SymNo, v);
      if base.Some? {
        TransCompareSafe(base.value, false, v);
      }
    }
  }

  /** y is never cancelled. */
  lemma {:induction false} YesStays(op: Op, e: Expr)
    ensures CancelOperands(op, e, Sym(SymYes)) == (e, Sym(SymYes))
  {
    if IsJunction(op, e) {
      YesStays(op, e.left);
      YesStays(op, e.right);
    }
  }

  /** One operand against a chain: it is cancelled, or nothing is. */
  lemma {:induction false} OneOperand(op: Op, e: Expr, b: Expr)
    requires !IsJunction(op, b)
    ensures CancelOperands(op, e, b) == (e, b) || CancelOperands(op, e, b).1 == Unit(op)
  {
    if IsJunction(op, e) {
      OneOperand(op, e.left, b);
      var l := CancelOperands(op, e.left, b);
      if l.1 == b {
        OneOperand(op, e.right, b);
      } else {
        OneOperand(op, e.right, Unit(op));
      }
    }
  }

  /** `b` is no chain and equal to one of the operands joined by "and" in `c`. */
  ghost predicate HasOperand(c: Expr, b: Expr) {
    IsJunction(AndOp, c) && !b.Junction? && !FixedConstant(b) && exists x :: x in Operands(AndOp, c) && Eq(x, b)
  }

  /** What is sure to go below an entry: any condition with the symbol as a conjunct; any
      that mentions it, if the entry has no prompt condition; and one that mentions it
      if, cleaned up, the prompt condition is a single operand and one of its own. */
  lemma BelongsIf(d: Option<Expr>, s: Symbol, base: Option<Expr>)
    requires d.Some? && s in Symbols(d.value)
    ensures IsConjunct(Sym(s), d.value) || IsConjunct(Unequal(s, SymNo), d.value) ==> Belongs(d, s, base)
    ensures IsConjunct(Equal(s, SymYes), d.value) || IsConjunct(Equal(s, SymMod), d.value) ==> Belongs(d, s, base)
    ensures base.None? ==> Belongs(d, s, base)
    ensures HasOperand(Compared(d), Compared(base)) ==> Belongs(d, s, base)
  {
    hide Compared, CancelOperands, Eq;
    SymbolTests(d.value, s);
    var c, b := Compared(d), Compared(base);
    if base.None? {
      NoPromptIsYes();
      AgainstYes(c);
    }
    if HasOperand(c, b) {
      AgainstOperand(c, b);
    }
  }

  lemma NoPromptIsYes()
    ensures Compared(None) == Sym(SymYes)
  {
    assert CompareWithNo(None) == Sym(SymYes);
  }

  lemma AgainstYes(c: Expr)
    ensures EliminateEq(c, Sym(SymYes)).1 == Sym(SymYes)
  {
    if c.Junction? {
      YesStays(c.op, c);
    }
  }

  lemma AgainstOperand(c: Expr, b: Expr)
    requires HasOperand(c, b)
    ensures EliminateEq(c, b).1 == Sym(SymYes)
  {
    OneOperand(AndOp, c, b);
    CancelMissesNone(AndOp, c, b);
    assert Operands(AndOp, b) == {b};
  }

  function ReducedOpt(e: Option<Expr>): Option<Expr> {
    match e case None => None case Some(x) => Some(Reduced(x))
  }

  /** A dependency, or the condition of a prompt, below a condition that is handed
      down. */
  function Passed(outer: Option<Expr>, e: Option<Expr>): Option<Expr> {
    ReducedOpt(AllocAnd(outer, TransformOpt(e)))
  }

  function TransBoolOpt(e: Option<Expr>): Option<Expr> {
    match e case None => None case Some(x) => Some(TransBool(x))
  }

  class Menus {
    const entries: map<Ref, Entry>
    const rewriter: Rewriter

    var next: map<Ref, Ref>
    var list: map<Ref, Ref>
    var parent: map<Ref, Ref>
    var dep: map<Ref, Option<Expr>>
    var visible: map<Ref, Option<Expr>>

    constructor (e: map<Ref, Entry>, l: Links, d: map<Ref, Option<Expr>>, vis: map<Ref, Option<Expr>>)
      ensures entries == e && Here() == l && dep == d && visible == vis && fresh(rewriter)
    {
      entries, next, list, parent, dep, visible := e, l.next, l.list, l.parent, d, vis;
      rewriter := new Rewriter();
    }

    function Here(): Links
      reads this`next, this`list, this`parent
    {
      Links(next, list, parent)
    }

    function Now(): Conditions
      reads this`dep, this`visible
    {
      Conditions(dep, visible)
    }

    /** The entries that have a prompt. */
    ghost function Prompts(): set<Ref> {
      set m | m in entries && entries[m].hasPrompt
    }

    /** The entries whose prompt has a text. */
    ghost function Shows(): set<Ref> {
      set m | m in entries && entries[m].hasPrompt && entries[m].hasText
    }

    /** The entries for symbols that are not tristate. */
    ghost function Promoted(): set<Ref> {
      set m | m in entries && entries[m].sym.Some? && entries[m].sym.value.stype != TristateType
    }

    function EntryOf(m: Ref): Entry {
      if m in entries then entries[m] else NO_ENTRY
    }

    function DepOf(m: Ref): Option<Expr>
      reads this`dep
    {
      CondAt(dep, m)
    }

    function VisibleOf(m: Ref): Option<Expr>
      reads this`visible
    {
      CondAt(visible, m)
    }

    method EliminateDupsOpt(e: Option<Expr>) returns (r: Option<Expr>)
      modifies rewriter
      ensures r == ReducedOpt(e)
      ensures forall v: Valuation :: Typed(v) ==> Below(OptValue(e, v), OptValue(r, v))
      ensures e.None? <==> r.None?
      ensures e.Some? && Normal(e.value) ==> Normal(r.value)
      ensures r.Some? ==> Irreducible(r.value)
    {
      hide Reduced, Irreducible;
      if e.None? {
        return None;
      }
      var x := rewriter.EliminateDups(e.value);
      r := Some(x);
    }

    /** An entry without own entries, and the condition its followers are measured by. */
    method CleanCompared(e: Option<Expr>) returns (r: Expr)
      modifies rewriter
      ensures r == Compared(e)
    {
      r := rewriter.EliminateDups(CompareWithNo(e));
    }

    /** What the followers of an entry are measured by: the condition of its prompt. */
    function BaseOf(p: Ref): Option<Expr>
      reads this`visible
    {
      if p in entries && entries[p].hasPrompt then VisibleOf(p) else None
    }

    /** Why an entry is put below `p`: its condition, against that of the prompt of `p`. */
    predicate Justified(m: Ref, p: Ref)
      reads this`dep, this`visible
    {
      EntryOf(p).sym.Some?
      && Belongs(if EntryOf(m).hasPrompt then VisibleOf(m) else DepOf(m), EntryOf(p).sym.value,
                 if EntryOf(p).hasPrompt then VisibleOf(p) else None)
    }

    /** Does entry `m` belong below entry `p`? */
    method BelongsBelow(m: Ref, p: Ref, s: Symbol, base: Expr) returns (yes: bool)
      requires EntryOf(p).sym == Some(s) && base == Compared(BaseOf(p))
      modifies rewriter
      ensures yes <==> Justified(m, p)
    {
      hide Compared, EliminateEq;
      var d := if EntryOf(m).hasPrompt then VisibleOf(m) else DepOf(m);
      if d.None? || !ContainsSymbol(d.value, s) {
        return false;
      }
      if DependsSymbol(d.value, s) {
        return true;
      }
      var c := CleanCompared(d);
      var dep2 := EliminateEq(c, base).1;
      yes := dep2 == Sym(SymYes);
    }

    // The first part of menu_finalize: conditions

    /** A condition the program has cleaned up. */
    predicate Clean(m: Ref)
      reads this`dep, this`visible
    {
      && (DepOf(m).Some? ==> Normal(DepOf(m).value))
      && (EntryOf(m).hasPrompt && VisibleOf(m).Some? ==> Normal(VisibleOf(m).value))
    }

    twostate predicate CleanKept()
      reads this`dep, this`visible
    {
      forall x :: old(Clean(x)) ==> Clean(x)
    }

    method PassToPrompt(m: Ref)
      requires EntryOf(m).hasPrompt && (DepOf(m).Some? ==> Normal(DepOf(m).value))
      modifies this`visible, rewriter
      ensures visible == old(visible)[m := VisibleOf(m)]
      ensures VisibleOf(m) ==
                if m !in Promoted() then Passed(DepOf(m), old(VisibleOf(m)))
                else TransBoolOpt(Passed(DepOf(m), old(VisibleOf(m))))
      ensures PromptKeeps(old(Now()), Now(), m !in Promoted(), m)
      ensures VisibleOf(m).Some? ==> Normal(VisibleOf(m).value)
      ensures VisibleOf(m).Some? ==> if m in Promoted() then !HasTest(VisibleOf(m).value) else Irreducible(VisibleOf(m).value)
    {
      hide Reduced, Refines, Transform, Decided, Irreducible;
      var d := AllocAnd(DepOf(m), TransformOpt(VisibleOf(m)));
      TransformOptFacts(VisibleOf(m));
      d := EliminateDupsOpt(d);
      if EntryOf(m).sym.Some? && EntryOf(m).sym.value.stype != TristateType && d.Some? {
        TransBoolFacts(d.value);
        d := Some(TransBool(d.value));
      }
      visible := visible[m := d];
    }

    method PassToDep(m: Ref, parentdep: Option<Expr>)
      requires parentdep.Some? ==> Normal(parentdep.value)
      modifies this`dep, rewriter
      ensures dep == old(dep)[m := DepOf(m)]
      ensures DepOf(m) == Passed(parentdep, old(DepOf(m)))
      ensures DepKeeps(old(Now()), Now(), parentdep, m)
      ensures DepOf(m).Some? ==> Normal(DepOf(m).value) && Irreducible(DepOf(m).value)
    {
      hide Reduced, Refines, Transform, Irreducible;
      var basedep := AllocAnd(parentdep, TransformOpt(DepOf(m)));
      TransformOptFacts(DepOf(m));
      basedep := EliminateDupsOpt(basedep);
      dep := dep[m := basedep];
    }

    /** The parent's condition reaches an entry: its dependency, and the condition of
        its prompt, become clean conjunctions.  No verdict is lost on the way; where m
        is promoted anyhow, only "n or not n" has to survive. */
    method PassDown(m: Ref, parentdep: Option<Expr>)
      requires parentdep.Some? ==> Normal(parentdep.value)
      modifies this`dep, this`visible, rewriter
      ensures forall x :: x != m ==> DepOf(x) == old(DepOf(x)) && VisibleOf(x) == old(VisibleOf(x))
      ensures forall x :: x != m ==> SameAs(old(Now()), Now(), x)
      ensures PassedDown(old(Now()), Now(), m, parentdep)
      ensures DepKeeps(old(Now()), Now(), parentdep, m)
      ensures EntryOf(m).hasPrompt ==> PromptKeeps(old(Now()), Now(), m !in Promoted(), m)
      ensures HandedTo(old(Now()), Now(), Prompts(), parentdep, m)
      ensures Clean(m)
      ensures DepOf(m).Some? ==> Irreducible(DepOf(m).value)
      ensures EntryOf(m).hasPrompt && VisibleOf(m).Some? ==>
        if m in Promoted() then !HasTest(VisibleOf(m).value) else Irreducible(VisibleOf(m).value)
    {
      hide Passed, HandedTo, DepKeeps, PromptKeeps, Normal, SameAs, Irreducible, HasTest;
      ghost var c0 := Now();
      PassToDep(m, parentdep);
      ghost var c1 := Now();
      if EntryOf(m).hasPrompt {
        PassToPrompt(m);
      }
      OthersSame(c0, c1, Now(), m);
      KeptIsHanded(c0, c1, Now(), Prompts(), parentdep, m !in Promoted(), m);
    }

    /** Both conditions of an entry are what the code makes of them. */
    ghost predicate PassedDown(c0: Conditions, c1: Conditions, m: Ref, parentdep: Option<Expr>) {
      && CondAt(c1.dep, m) == Passed(parentdep, CondAt(c0.dep, m))
      && CondAt(c1.visible, m) ==
           if !EntryOf(m).hasPrompt then CondAt(c0.visible, m)
           else if m !in Promoted() then Passed(CondAt(c1.dep, m), CondAt(c0.visible, m))
           else TransBoolOpt(Passed(CondAt(c1.dep, m), CondAt(c0.visible, m)))
    }

    static lemma TransformOptFacts(e: Option<Expr>)
      ensures forall v: Valuation :: Typed(v) ==> OptValue(TransformOpt(e), v) == OptValue(e, v)
      ensures e.Some? ==> Normal(TransformOpt(e).value)
    {
      if e.Some? {
        TransformNormalises(e.value);
        forall v: Valuation | Typed(v)
          ensures OptValue(TransformOpt(e), v) == OptValue(e, v)
        {
          TransformKeepsValue(e.value, v);
        }
      }
    }

    static lemma TransBoolFacts(e: Expr)
      requires Normal(e)
      ensures forall v: Valuation :: Typed(v) ==> (Value(TransBool(e), v) == NO <==> Value(e, v) == NO)
      ensures forall v: Valuation :: Decided(v) ==> Value(TransBool(e), v) == Value(e, v)
      ensures Normal(TransBool(e)) && !HasTest(TransBool(e))
    {
      TransBoolNormal(e);
      NoTestLeft(e);
      forall v: Valuation | Typed(v)
        ensures Value(TransBool(e), v) == NO <==> Value(e, v) == NO
        ensures Decided(v) ==> Value(TransBool(e), v) == Value(e, v)
      {
        TransBoolKeepsNo(e, v);
        if Decided(v) {
          TransBoolRewrites(e, v);
        }
      }
    }

    static lemma {:induction false} TransBoolNormal(e: Expr)
      requires Normal(e)
      ensures Normal(TransBool(e))
    {
      match e
      case Junction(_, l, r) => TransBoolNormal(l); TransBoolNormal(r);
      case _ =>
    }

    /** What is handed down is the condition of the prompt, or else the dependency. */
    method PassDownAll(p: Ref, ghost kids: Forest)
      requires Reps(Here(), Get(list, p), p, kids, NULL) && Clean(p) && NoDup(Preorder(kids))
      modifies this`dep, this`visible, rewriter
      ensures CleanKept() && ConditionsKept(Ids(kids))
      ensures AllClean(kids)
      ensures forall i :: 0 <= i < |kids| ==>
        PassedDown(old(Now()), Now(), kids[i].id, if EntryOf(p).hasPrompt then old(VisibleOf(p)) else old(DepOf(p)))
      ensures forall i :: 0 <= i < |kids| ==>
        HandedTo(old(Now()), Now(), Prompts(), if EntryOf(p).hasPrompt then old(VisibleOf(p)) else old(DepOf(p)), kids[i].id)
      ensures forall x :: !IsRoot(kids, x) ==> SameAs(old(Now()), Now(), x)
    {
      hide NoDup, Passed, Normal, HandedTo, SameAs, PassedDown;
      var parentdep := if EntryOf(p).hasPrompt then VisibleOf(p) else DepOf(p);
      var menu := Get(list, p);
      ghost var n, c0 := 0, Now();
      SameReflexive(c0);
      while menu != NULL
        invariant 0 <= n <= |kids| && Reps(Here(), menu, p, kids[n..], NULL)
        invariant CleanKept()
        invariant forall i :: 0 <= i < n ==> Clean(kids[i].id) && PassedDown(c0, Now(), kids[i].id, parentdep)
        invariant forall i :: 0 <= i < n ==> HandedTo(c0, Now(), Prompts(), parentdep, kids[i].id)
        invariant forall i :: n <= i < |kids| ==> SameAs(c0, Now(), kids[i].id)
        invariant forall x :: !IsRoot(kids, x) ==> SameAs(c0, Now(), x)
        decreases |kids| - n
      {
        ghost var c1 := Now();
        RootsDiffer(kids, n);
        assert IsRoot(kids, menu) && kids[n..][1..] == kids[n + 1..];
        PassDown(menu, parentdep);
        SameTransitive(c0, c1, Now());
        HandedToAll(c0, c1, Now(), Prompts(), parentdep, kids, n);
        PassedAll(c0, c1, Now(), parentdep, kids, n);
        menu := Get(next, menu);
        n := n + 1;
      }
      KeptByRoots(kids);
    }

    lemma PassedAll(c0: Conditions, c1: Conditions, c2: Conditions, h: Option<Expr>, kids: Forest, n: nat)
      requires n < |kids| && forall i :: 0 <= i < n ==> PassedDown(c0, c1, kids[i].id, h) && SameAs(c1, c2, kids[i].id)
      requires SameAs(c0, c1, kids[n].id) && PassedDown(c1, c2, kids[n].id, h)
      ensures forall i :: 0 <= i <= n ==> PassedDown(c0, c2, kids[i].id, h)
    {
      hide Passed, CondAt;
    }

    twostate lemma KeptByRoots(kids: Forest)
      requires forall x :: !IsRoot(kids, x) ==> SameAs(old(Now()), Now(), x)
      ensures ConditionsKept(Ids(kids))
    {
      RootsIn(kids);
      forall x | x !in Ids(kids)
        ensures DepOf(x) == old(DepOf(x)) && VisibleOf(x) == old(VisibleOf(x))
      {
        assert SameAs(old(Now()), Now(), x);
      }
    }

    // The second part of menu_finalize: the tree

    /** Everything below the entries themselves is tidy. */
    ghost predicate TidyBelow(f: Forest) {
      forall i :: 0 <= i < |f| ==> Tidy(Shows(), f[i].kids)
    }

    lemma TidyBelowEmpty()
      ensures TidyBelow([]) && forall f: Forest :: IsSuffix(f, f)
    {
    }

    twostate predicate ConditionsKept(changed: set<Ref>)
      reads this`dep, this`visible
    {
      forall x :: x !in changed ==> DepOf(x) == old(DepOf(x)) && VisibleOf(x) == old(VisibleOf(x))
    }

    predicate AllJustified(f: Forest, p: Ref)
      reads this`dep, this`visible
    {
      forall i :: 0 <= i < |f| ==> Justified(f[i].id, p)
    }

    predicate AllClean(f: Forest)
      reads this`dep, this`visible
    {
      forall i :: 0 <= i < |f| ==> Clean(f[i].id)
    }

    lemma AllCleanSuffix(part: Forest, f: Forest)
      requires IsSuffix(part, f) && AllClean(f)
      ensures AllClean(part)
    {
      assert forall i :: 0 <= i < |part| ==> part[i] == f[|f| - |part| + i];
    }

    /** The loop that finalizes the entries of `p`, each with its followers. */
    method FinalizeEach(p: Ref, ghost kids: Forest) returns (ghost kids': Forest)
      requires Reps(Here(), Get(list, p), p, kids, NULL)
      requires NoDup(Preorder(kids)) && p !in Ids(kids)
      requires AllClean(kids)
      modifies this, rewriter
      ensures Reps(Here(), Get(list, p), p, kids', NULL) && Preorder(kids') == Preorder(kids)
      ensures SameOutside(old(Here()), Here(), Ids(kids)) && CleanKept() && ConditionsKept(Ids(kids))
      ensures TidyBelow(kids')
      ensures HandedDown(old(Now()), Now(), Prompts(), kids)
      ensures Keeps(Shows(), kids, kids')
      decreases |Preorder(kids)|, 2
    {
      hide Clean, Reps, Preorder, NoDup, Ids, HandedDown, IsSuffix, Keeps;
      KeepsAll(Shows(), kids);
      var menu := Get(list, p);
      ghost var done: Forest, rest := [], kids;
      NoneBehind(Now(), Prompts(), kids);
      assert done + rest == kids;
      RepsEmpty(Here(), menu, p);
      while menu != NULL
        invariant Reps(Here(), Get(list, p), p, done, menu) && Reps(Here(), menu, p, rest, NULL)
        invariant Preorder(done + rest) == Preorder(kids)
        invariant SameOutside(old(Here()), Here(), Ids(kids)) && CleanKept() && ConditionsKept(Ids(kids))
        invariant AllClean(rest)
        invariant TidyBelow(done)
        invariant IsSuffix(rest, kids) && HandedDown(old(Now()), Now(), Prompts(), Behind(kids, rest))
        invariant Keeps(Shows(), kids, done + rest)
        decreases |Preorder(rest)|
      {
        ghost var before, c1 := Here(), Now();
        RepsStart(before, menu, p, rest);
        PreorderSplit(done, rest, kids);
        ghost var rest' := Finalize(menu, p, rest);
        HandedPrefix(old(Now()), c1, Now(), Prompts(), kids, rest, rest'[1..]);
        KeepsBehind(Shows(), done, rest, rest');
        KeepsTrans(Shows(), kids, done + rest, done + rest');
        assert SameAt(before, Here(), p);
        SameOutsideTrans(old(Here()), before, Here(), Ids(kids), Ids(rest), Ids(kids));
        RepsFrame(before, Here(), Ids(rest), Get(list, p), p, done, menu);
        AllCleanSuffix(rest'[1..], rest);
        PreorderSwap(done, rest, rest');
        done, rest := StepOver(Here(), Get(list, p), menu, p, done, rest');
        menu := Get(next, menu);
      }
      RepsStart(Here(), menu, p, rest);
      assert done + rest == done && Behind(kids, rest) == kids;
      kids' := done;
    }

    /** Move one tree from what is ahead to what is done. */
    static lemma StepOver(l: Links, first: Ref, menu: Ref, par: Ref, done: Forest, rest: Forest) returns (done': Forest, rest': Forest)
      requires rest != [] && Reps(l, first, par, done, menu) && Reps(l, menu, par, rest, NULL)
      ensures done' == done + [rest[0]] && rest' == rest[1..]
      ensures Reps(l, first, par, done', Get(l.next, menu)) && Reps(l, Get(l.next, menu), par, rest', NULL)
      ensures done' + rest' == done + rest
      ensures |Preorder(rest')| < |Preorder(rest)|
    {
      done', rest' := done + [rest[0]], rest[1..];
      RepsHead(l, menu, par, rest, NULL);
      RepsConcat(l, first, par, done, menu, [rest[0]], Get(l.next, menu));
      PreorderShift(done, rest);
    }

    /** An entry for a symbol that has no entries takes the followers that belong below
        it, up to the first one that does not. */
    method Nest(p: Ref, ghost par: Ref, ghost f: Forest) returns (ghost nested: Forest, ghost rest: Forest)
      requires f != [] && f[0] == Node(p, []) && Reps(Here(), p, par, f, NULL) && NoDup(Preorder(f))
      requires AllClean(f)
      requires EntryOf(p).sym.Some?
      modifies this, rewriter
      ensures Reps(Here(), p, par, [Node(p, nested)] + rest, NULL)
      ensures Preorder([Node(p, nested)] + rest) == Preorder(f)
      ensures IsSuffix(rest, f)
      ensures SameOutside(old(Here()), Here(), Ids(f)) && CleanKept() && ConditionsKept(Ids(f) - {p})
      ensures TidyBelow(nested)
      ensures AllJustified(nested, p)
      ensures rest != [] ==> !Justified(rest[0].id, p)
      ensures HandedDown(old(Now()), Now(), Prompts(), Behind(f, rest))
      ensures Keeps(Shows(), f, [Node(p, nested)] + rest)
      decreases |Preorder(f)|, 0
    {
      hide Belongs, Justified, Clean, Reps, Preorder, NoDup, Tidy, HandedDown, Keeps;
      PreorderParts(f);
      RepsStart(Here(), p, par, f);
      RepsStart(Here(), Get(list, p), p, []);
      assert forall i :: 0 <= i < |f[1..]| ==> f[1..][i] == f[i + 1];
      var last;
      last, nested, rest := NestFollowers(p, par, f[1..]);
      LeafInFront(old(Now()), Now(), Prompts(), p, Behind(f[1..], rest));
      KeepsNested(Shows(), p, f[1..], nested, rest);
      assert f == [Node(p, [])] + f[1..];
      assert [Node(p, [])] + Behind(f[1..], rest) == Behind(f, rest);
      ghost var l1 := Here();
      assert SameAt(old(Here()), l1, p);
      NestedIds(p, nested, rest, f);
      if last != NULL {
        ChainEnds(l1, Get(next, p), p, nested, Get(next, last));
        RootIn(nested, |nested| - 1);
        TakeOver(p, par, last, nested, rest);
        SameOutsideTrans(old(Here()), l1, Here(), Ids(f[1..]), {p, last}, Ids(f));
      } else {
        NothingNested(l1, p, par, nested, rest);
      }
    }

    static lemma NestedIds(p: Ref, nested: Forest, rest: Forest, f: Forest)
      requires f != [] && f[0] == Node(p, []) && NoDup(Preorder(f)) && Preorder(nested + rest) == Preorder(f[1..])
      ensures NoDup(Preorder(nested)) && Ids(nested) !! Ids(rest) && p !in Ids(nested) && p !in Ids(rest)
      ensures Ids(nested) <= Ids(f[1..]) <= Ids(f)
      ensures Preorder([Node(p, nested)] + rest) == Preorder(f)
    {
      PreorderParts(f);
      PreorderSplit(nested, rest, f[1..]);
      NodeTakes(p, nested, rest, f[1..]);
      assert f == [Node(p, [])] + f[1..];
    }

    static lemma NothingNested(l: Links, p: Ref, par: Ref, nested: Forest, rest: Forest)
      requires nested == [] && p != NULL && Get(l.parent, p) == par && Get(l.list, p) == NULL && Reps(l, Get(l.next, p), par, rest, NULL)
      ensures Reps(l, p, par, [Node(p, nested)] + rest, NULL)
    {
      assert ([Node(p, nested)] + rest)[1..] == rest;
    }

    method NestFollowers(p: Ref, ghost par: Ref, ghost all: Forest) returns (last: Ref, ghost nested: Forest, ghost rest: Forest)
      requires Reps(Here(), Get(next, p), par, all, NULL) && NoDup(Preorder(all)) && p !in Ids(all)
      requires AllClean(all)
      requires EntryOf(p).sym.Some?
      modifies this, rewriter
      ensures Reps(Here(), Get(next, p), p, nested, if last == NULL then Get(next, p) else Get(next, last))
      ensures Reps(Here(), if last == NULL then Get(next, p) else Get(next, last), par, rest, NULL)
      ensures if nested == [] then last == NULL else last == nested[|nested| - 1].id != NULL
      ensures Preorder(nested + rest) == Preorder(all)
      ensures IsSuffix(rest, all)
      ensures SameOutside(old(Here()), Here(), Ids(all)) && CleanKept() && ConditionsKept(Ids(all))
      ensures TidyBelow(nested)
      ensures AllJustified(nested, p)
      ensures rest != [] ==> !Justified(rest[0].id, p)
      ensures HandedDown(old(Now()), Now(), Prompts(), Behind(all, rest))
      ensures Keeps(Shows(), all, nested + rest)
      decreases |Preorder(all)|, 3
    {
      hide Belongs, Clean, Reps, Preorder, NoDup, Ids, Tidy, TidyBelow, IsSuffix, HandedDown, Behind, Keeps, Shows, Prompts, Justified, Compared;
      KeepsAll(Shows(), all);
      var s := EntryOf(p).sym.value;
      var base := CleanCompared(if EntryOf(p).hasPrompt then VisibleOf(p) else None);
      var menu := Get(next, p);
      last, nested, rest := NULL, [], all;
      assert nested + rest == all;
      NoneBehind(Now(), Prompts(), all);
      TidyBelowEmpty();
      RepsEmpty(Here(), menu, p);
      while menu != NULL
        invariant Reps(Here(), Get(next, p), p, nested, menu) && Reps(Here(), menu, par, rest, NULL)
        invariant Preorder(nested + rest) == Preorder(all)
        invariant IsSuffix(rest, all)
        invariant SameOutside(old(Here()), Here(), Ids(all)) && CleanKept() && ConditionsKept(Ids(all))
        invariant if nested == [] then last == NULL && menu == Get(next, p) else last == nested[|nested| - 1].id != NULL && menu == Get(next, last)
        invariant TidyBelow(nested)
        invariant AllJustified(nested, p)
        invariant AllClean(rest)
        invariant HandedDown(old(Now()), Now(), Prompts(), Behind(all, rest))
        invariant Keeps(Shows(), all, nested + rest)
        invariant base == Compared(BaseOf(p))
        decreases |Preorder(rest)|
      {
        ghost var before, c1 := Here(), Now();
        RepsStart(before, menu, par, rest);
        var yes := BelongsBelow(menu, p, s, base);
        if !yes {
          break;
        }
        PreorderSplit(nested, rest, all);
        ghost var ahead, whole := rest, nested + rest;
        nested, rest := NestOne(p, par, menu, nested, rest);
        KeepsTrans(Shows(), all, whole, nested + rest);
        HandedPrefix(old(Now()), c1, Now(), Prompts(), all, ahead, rest);
        PreorderSplit(nested, rest, all);
        SameOutsideTrans(old(Here()), before, Here(), Ids(all), Ids(all), Ids(all));
        last := menu;
        menu := Get(next, menu);
      }
      RepsStart(Here(), menu, par, rest);
    }

    /** One follower is finalized, together with what follows it, and put below `p`. */
    method NestOne(p: Ref, ghost par: Ref, menu: Ref, ghost nested: Forest, ghost rest: Forest)
      returns (ghost nested': Forest, ghost rest': Forest)
      requires menu != NULL && Reps(Here(), Get(next, p), p, nested, menu) && Reps(Here(), menu, par, rest, NULL)
      requires NoDup(Preorder(nested)) && NoDup(Preorder(rest)) && Ids(nested) !! Ids(rest) && p !in Ids(rest)
      requires AllClean(rest)
      requires TidyBelow(nested)
      requires Justified(menu, p)
      requires AllJustified(nested, p)
      modifies this, rewriter
      ensures Reps(Here(), Get(next, p), p, nested', Get(next, menu)) && Reps(Here(), Get(next, menu), par, rest', NULL)
      ensures Preorder(nested' + rest') == Preorder(nested + rest) && |Preorder(rest')| < |Preorder(rest)|
      ensures |nested'| == |nested| + 1 && nested'[|nested|].id == menu
      ensures IsSuffix(rest', rest) && AllClean(rest')
      ensures SameOutside(old(Here()), Here(), Ids(rest)) && CleanKept() && ConditionsKept(Ids(rest))
      ensures TidyBelow(nested')
      ensures AllJustified(nested', p)
      ensures HandedDown(old(Now()), Now(), Prompts(), Behind(rest, rest'))
      ensures Keeps(Shows(), nested + rest, nested' + rest')
      decreases |Preorder(rest)|, 2
    {
      hide Belongs, Clean, Reps, Preorder, NoDup, Tidy, Ids, HandedDown, Keeps;
      RepsStart(Here(), menu, par, rest);
      ghost var l0 := Here();
      ghost var finished := Finalize(menu, par, rest);
      ghost var t, l1 := finished[0], Here();
      assert finished == [t] + finished[1..];
      RepsFrame(l0, l1, Ids(rest), Get(next, p), p, nested, menu);
      SamePreorder(rest, finished);
      parent := parent[menu := p];
      MovedUnder(l1, Here(), Get(next, p), p, par, nested, finished);
      nested', rest' := nested + [t], finished[1..];
      PreorderSwap(nested, rest, finished);
      KeepsBehind(Shows(), nested, rest, finished);
      SameOutsideTrans(l0, l1, Here(), Ids(rest), {menu}, Ids(rest));
      forall i | 0 <= i < |nested|
        ensures Justified(nested[i].id, p)
      {
        RootIn(nested, i);
        assert old(Justified(nested[i].id, p));
      }
    }

    /** The first tree of `rest` gets another parent and joins `nested`. */
    static lemma MovedUnder(l1: Links, l2: Links, first: Ref, p: Ref, par: Ref, nested: Forest, rest: Forest)
      requires rest != [] && Reps(l1, first, p, nested, rest[0].id) && Reps(l1, rest[0].id, par, rest, NULL)
      requires NoDup(Preorder(rest)) && Ids(nested) !! Ids(rest)
      requires l2 == l1.(parent := l1.parent[rest[0].id := p])
      ensures Reps(l2, first, p, nested + [rest[0]], Get(l2.next, rest[0].id))
      ensures Reps(l2, Get(l2.next, rest[0].id), par, rest[1..], NULL)
      ensures (nested + [rest[0]]) + rest[1..] == nested + rest
      ensures |Preorder(rest[1..])| < |Preorder(rest)|
      ensures SameOutside(l1, l2, {rest[0].id}) && rest[0].id in Ids(rest)
    {
      var t := rest[0];
      PreorderParts(rest);
      RepsHead(l1, t.id, par, rest, NULL);
      PreorderShift(nested, rest);
      PreorderSplit([t], rest[1..], rest);
      Reparent(l1, l2, t, par, p);
      RepsFrame(l1, l2, {t.id}, first, p, nested, t.id);
      RepsFrame(l1, l2, {t.id}, Get(l1.next, t.id), par, rest[1..], NULL);
      RepsConcat(l2, first, p, nested, t.id, [t], Get(l2.next, t.id));
    }

    /** The chain from the next entry up to `last` becomes the list of `p`. */
    method TakeOver(p: Ref, ghost par: Ref, last: Ref, ghost nested: Forest, ghost rest: Forest)
      requires nested != [] && last == nested[|nested| - 1].id
      requires p != NULL && Get(parent, p) == par && Get(list, p) == NULL
      requires Reps(Here(), Get(next, p), p, nested, Get(next, last)) && Reps(Here(), Get(next, last), par, rest, NULL)
      requires NoDup(Preorder(nested)) && Ids(nested) !! Ids(rest) && p !in Ids(nested) && p !in Ids(rest)
      modifies this`list, this`next
      ensures Reps(Here(), p, par, [Node(p, nested)] + rest, NULL)
      ensures SameOutside(old(Here()), Here(), {p, last})
    {
      ghost var l0, first, mid := Here(), Get(next, p), Get(next, last);
      RootIn(nested, |nested| - 1);
      list := list[p := Get(next, p)];
      next := next[p := Get(next, last)];
      ghost var l1 := Here();
      next := next[last := NULL];
      RepsFrame(l0, l1, {p}, first, p, nested, mid);
      Reroute(l1, Here(), first, p, nested, mid, NULL);
      RepsFrame(l0, Here(), {p, last}, mid, par, rest, NULL);
      assert ([Node(p, nested)] + rest)[1..] == rest;
    }

    // Entries without a prompt

    /** `menu`, an entry of `p`, gives its own entries to `p`: they follow it. */
    method LiftKids(p: Ref, menu: Ref, ghost kids: Forest, ghost after: Forest)
      requires kids != [] && Reps(Here(), menu, p, [Node(menu, kids)] + after, NULL)
      requires NoDup(Preorder([Node(menu, kids)] + after))
      modifies this`list, this`next, this`parent
      ensures Reps(Here(), menu, p, [Node(menu, [])] + (kids + after), NULL)
      ensures SameOutside(old(Here()), Here(), Ids([Node(menu, kids)]))
    {
      ghost var f := [Node(menu, kids)] + after;
      assert f[1..] == after && f[0] == Node(menu, kids);
      PreorderParts(f);
      PreorderHead(f[0]);
      ghost var l0 := Here();
      var last := ReparentAll(menu, p, kids);
      ghost var l1 := Here();
      RootIn(kids, |kids| - 1);
      RepsFrame(l0, l1, Ids(kids), Get(next, menu), p, after, NULL);
      Splice(menu, p, last, kids, after);
      SameOutsideTrans(l0, l1, Here(), Ids(kids), {menu, last}, Ids([Node(menu, kids)]));
    }

    method ReparentAll(menu: Ref, p: Ref, ghost kids: Forest) returns (last: Ref)
      requires kids != [] && Reps(Here(), Get(list, menu), menu, kids, NULL) && NoDup(Preorder(kids))
      modifies this`parent
      ensures Reps(Here(), Get(list, menu), p, kids, NULL)
      ensures SameOutside(old(Here()), Here(), Ids(kids))
      ensures last == kids[|kids| - 1].id
    {
      last := Get(list, menu);
      ghost var done: Forest, rest := [], kids;
      while true
        invariant Reps(Here(), Get(list, menu), p, done, last) && Reps(Here(), last, menu, rest, NULL)
        invariant rest != [] && done + rest == kids
        invariant SameOutside(old(Here()), Here(), Ids(kids))
        decreases |rest|
      {
        ghost var l1 := Here();
        PreorderConcat(done, rest);
        PreorderSplit(done, rest, kids);
        parent := parent[last := p];
        MovedUnder(l1, Here(), Get(list, menu), p, menu, done, rest);
        SameOutsideTrans(old(Here()), l1, Here(), Ids(kids), {last}, Ids(kids));
        if Get(next, last) == NULL {
          assert rest[1..] == [];
          break;
        }
        done, rest := done + [rest[0]], rest[1..];
        last := Get(next, last);
      }
      assert done + [rest[0]] == kids;
    }

    /** next of the last lifted entry, next of `menu` and its list change hands. */
    method Splice(menu: Ref, p: Ref, last: Ref, ghost kids: Forest, ghost after: Forest)
      requires kids != [] && last == kids[|kids| - 1].id && menu != NULL && Get(parent, menu) == p
      requires Reps(Here(), Get(list, menu), p, kids, NULL) && Reps(Here(), Get(next, menu), p, after, NULL)
      requires NoDup(Preorder(kids)) && menu !in Ids(kids) && menu !in Ids(after) && Ids(kids) !! Ids(after)
      modifies this`list, this`next
      ensures Reps(Here(), menu, p, [Node(menu, [])] + (kids + after), NULL)
      ensures SameOutside(old(Here()), Here(), {menu, last})
    {
      ghost var l0, first, mid := Here(), Get(list, menu), Get(next, menu);
      RootIn(kids, |kids| - 1);
      next := next[last := Get(next, menu)];
      ghost var l1 := Here();
      Reroute(l0, l1, first, p, kids, NULL, mid);
      next := next[menu := Get(list, menu)];
      list := list[menu := NULL];
      RepsFrame(l1, Here(), {menu}, first, p, kids, mid);
      RepsFrame(l0, Here(), {menu, last}, mid, p, after, NULL);
      RepsConcat(Here(), first, p, kids, mid, after, NULL);
      assert ([Node(menu, [])] + (kids + after))[1..] == kids + after;
    }

    /** The last loop of menu_finalize. */
    method Flatten(p: Ref, ghost kids: Forest) returns (ghost kids': Forest)
      requires Reps(Here(), Get(list, p), p, kids, NULL) && NoDup(Preorder(kids)) && p !in Ids(kids)
      requires TidyBelow(kids)
      modifies this`list, this`next, this`parent
      ensures Reps(Here(), Get(list, p), p, kids', NULL) && Preorder(kids') == Preorder(kids)
      ensures SameOutside(old(Here()), Here(), Ids(kids))
      ensures Tidy(Shows(), kids') && kids' == Lifted(Shows(), kids)
    {
      hide Clean, Reps, Preorder, NoDup, Ids, Lifted;
      var menu := Get(list, p);
      ghost var done: Forest, rest := [], kids;
      assert done + rest == kids;
      RepsEmpty(Here(), menu, p);
      while menu != NULL
        invariant Reps(Here(), Get(list, p), p, done, menu) && Reps(Here(), menu, p, rest, NULL)
        invariant Preorder(done + rest) == Preorder(kids)
        invariant SameOutside(old(Here()), Here(), Ids(kids))
        invariant Tidy(Shows(), done) && TidyBelow(rest)
        invariant done + Lifted(Shows(), rest) == Lifted(Shows(), kids)
        decreases |Preorder(rest)|
      {
        ghost var l0, ahead := Here(), rest;
        RepsStart(l0, menu, p, rest);
        PreorderSplit(done, rest, kids);
        if Get(list, menu) != NULL && !(EntryOf(menu).hasPrompt && EntryOf(menu).hasText) {
          ghost var ks, after := rest[0].kids, rest[1..];
          assert rest == [Node(menu, ks)] + after;
          LiftKids(p, menu, ks, after);
          PreorderConcat([Node(menu, ks)], after);
          ghost var lifted := LiftedPreorder(menu, ks, after);
          PreorderSwap(done, rest, lifted);
          rest := lifted;
          SameOutsideTrans(old(Here()), l0, Here(), Ids(kids), Ids([Node(menu, ks)]), Ids(kids));
          RepsFrame(l0, Here(), Ids([Node(menu, ks)]), Get(list, p), p, done, menu);
        }
        LiftedStep(Shows(), ahead, rest);
        assert done + ([rest[0]] + Lifted(Shows(), rest[1..])) == (done + [rest[0]]) + Lifted(Shows(), rest[1..]);
        done, rest := StepOver(Here(), Get(list, p), menu, p, done, rest);
        menu := Get(next, menu);
      }
      RepsStart(Here(), menu, p, rest);
      LiftedNone(Shows());
      assert done + rest == done && done + [] == done;
      kids' := done;
    }

    static lemma LiftedPreorder(menu: Ref, ks: Forest, after: Forest) returns (f: Forest)
      ensures f == [Node(menu, [])] + (ks + after)
      ensures Preorder(f) == Preorder([Node(menu, ks)] + after)
    {
      f := [Node(menu, [])] + (ks + after);
      assert f[1..] == ks + after;
      assert ([Node(menu, ks)] + after)[1..] == after;
      PreorderConcat(ks, after);
    }

    /** menu_finalize on `p`, which with its followers stands for `f`.  Entries move,
        but in preorder they stay in place, and every link is the real one again. */
    method Finalize(p: Ref, ghost par: Ref, ghost f: Forest) returns (ghost f': Forest)
      requires f != [] && f[0].id == p && Reps(Here(), p, par, f, NULL) && NoDup(Preorder(f))
      requires AllClean(f)
      modifies this, rewriter
      ensures f' != [] && f'[0].id == p && Reps(Here(), p, par, f', NULL) && Preorder(f') == Preorder(f)
      ensures IsSuffix(f'[1..], f)
      ensures SameOutside(old(Here()), Here(), Ids(f)) && CleanKept() && ConditionsKept(Ids(f) - {p})
      ensures Tidy(Shows(), f'[0].kids)
      ensures if f[0].kids == [] && EntryOf(p).sym.Some? then |f'| > 1 ==> !Justified(f'[1].id, p) else f'[1..] == f[1..]
      ensures HandedDown(old(Now()), Now(), Prompts(), Behind(f, f'[1..]))
      ensures Keeps(Shows(), f, f')
      decreases |Preorder(f)|, 1
    {
      hide Clean, Preorder, NoDup, Ids, HandedDown, Keeps, Lifted, Belongs, MenuShape.Tidy, Shows, Prompts;
      KeepsAll(Shows(), f);
      if Get(list, p) != NULL {
        f' := FinalizeBelow(p, par, f);
      } else if EntryOf(p).sym.Some? {
        ghost var nested, rest := Nest(p, par, f);
        f' := [Node(p, nested)] + rest;
        assert f'[1..] == rest;
      } else {
        f' := f;
        LeafHands(Now(), Prompts(), p);
        assert f[..1] == [Node(p, [])];
      }
      ghost var l1 := Here();
      PreorderParts(f');
      SamePreorder(f, f');
      ghost var g := f';
      ghost var kids := Flatten(p, g[0].kids);
      f' := Rebuilt(l1, Here(), p, par, g, kids);
      FlattenKeeps(Shows(), p, g, kids);
      KeepsTrans(Shows(), f, g, f');
      SameOutsideTrans(old(Here()), l1, Here(), Ids(f), Ids(f), Ids(f));
    }

    /** An entry with entries hands its condition down and finalizes them. */
    method FinalizeBelow(p: Ref, ghost par: Ref, ghost f: Forest) returns (ghost f': Forest)
      requires f != [] && f[0].id == p && Reps(Here(), p, par, f, NULL) && NoDup(Preorder(f))
      requires Clean(p)
      modifies this, rewriter
      ensures |f'| == |f| && f'[0].id == p && Reps(Here(), p, par, f', NULL) && Preorder(f') == Preorder(f) && f'[1..] == f[1..]
      ensures SameOutside(old(Here()), Here(), Ids(f)) && CleanKept() && ConditionsKept(Ids(f) - {p})
      ensures TidyBelow(f'[0].kids)
      ensures HandedDown(old(Now()), Now(), Prompts(), f[..1])
      ensures Keeps(Shows(), f, f')
      decreases |Preorder(f)|, 0
    {
      hide HandedDown, HandedTo, Hands, PassedDown, SameAs, Keeps;
      PreorderParts(f);
      ghost var l0, c0 := Here(), Now();
      PassDownAll(p, f[0].kids);
      ghost var c1 := Now();
      HandedAll(c0, c1, Prompts(), p, f[0].kids);
      ghost var kids := FinalizeEach(p, f[0].kids);
      HandedBelow(c0, c1, Now(), Prompts(), p, f[0].kids);
      assert f[..1] == [Node(p, f[0].kids)] && f == [Node(p, f[0].kids)] + f[1..];
      SamePreorder(f[0].kids, kids);
      KeepsNode(Shows(), p, f[0].kids, kids, f[1..]);
      f' := Rebuilt(l0, Here(), p, par, f, kids);
    }

    static lemma FlattenKeeps(shown: set<Ref>, p: Ref, f: Forest, kids: Forest)
      requires f != [] && f[0].id == p && kids == Lifted(shown, f[0].kids) && Preorder(kids) == Preorder(f[0].kids)
      ensures Keeps(shown, f, [Node(p, kids)] + f[1..])
    {
      hide Keeps;
      assert f == [Node(p, f[0].kids)] + f[1..];
      KeepsLifted(shown, f[0].kids);
      SamePreorder(f[0].kids, kids);
      KeepsNode(shown, p, f[0].kids, kids, f[1..]);
    }

    lemma HandedAll(c0: Conditions, c1: Conditions, prompts: set<Ref>, p: Ref, kids: Forest)
      requires prompts == Prompts() && p !in Ids(kids) && forall x :: !IsRoot(kids, x) ==> SameAs(c0, c1, x)
      requires forall i :: 0 <= i < |kids| ==>
        HandedTo(c0, c1, prompts, if EntryOf(p).hasPrompt then CondAt(c0.visible, p) else CondAt(c0.dep, p), kids[i].id)
      ensures HandsAll(c0, c1, prompts, p, kids)
    {
      hide HandedTo, Hands, Ids;
      RootsIn(kids);
      assert SameAs(c0, c1, p);
      forall i | 0 <= i < |kids|
        ensures Hands(c0, c1, prompts, p, kids[i].id)
      {
        HandedIsHands(c0, c1, prompts, p, kids[i].id);
      }
    }

    /** Other entries below the first node, of the same preorder. */
    static lemma Rebuilt(l1: Links, l2: Links, p: Ref, par: Ref, f: Forest, kids: Forest) returns (f': Forest)
      requires f != [] && f[0].id == p && Reps(l1, p, par, f, NULL) && NoDup(Preorder(f))
      requires SameOutside(l1, l2, Ids(f[0].kids))
      requires Preorder(kids) == Preorder(f[0].kids) && Reps(l2, Get(l2.list, p), p, kids, NULL)
      ensures f' == [Node(p, kids)] + f[1..] && f'[1..] == f[1..]
      ensures Reps(l2, p, par, f', NULL) && Preorder(f') == Preorder(f)
      ensures SameOutside(l1, l2, Ids(f))
    {
      PreorderParts(f);
      f' := [Node(p, kids)] + f[1..];
      assert f == [Node(p, f[0].kids)] + f[1..];
      NodeSwap(p, f[0].kids, kids, f[1..]);
      RepsFrame(l1, l2, Ids(f[0].kids), Get(l1.next, p), par, f[1..], NULL);
      assert SameAt(l1, l2, p);
    }

    // The walk of conf_write

    /** An ancestor and what comes after it on its own level. */
    ghost predicate Above(m: Ref, root: Ref, path: seq<(Ref, Forest)>)
      reads this`next, this`list, this`parent
      decreases path
    {
      if path == [] then m == root
      else
        && m == path[0].0 && m != NULL
        && Reps(Here(), Get(next, m), Get(parent, m), path[0].1, NULL)
        && Above(Get(parent, m), root, path[1..])
    }

    /** What is still to be visited after the entries below an ancestor. */
    static ghost function Pending(path: seq<(Ref, Forest)>): seq<Ref> {
      if path == [] then [] else Preorder(path[0].1) + Pending(path[1..])
    }

    /** conf_write goes from entry to entry without a stack: down if it can, else on,
        else up to the first ancestor that has a next one.  It meets every entry below
        the root once, in preorder. */
    method Walk(root: Ref, ghost kids: Forest) returns (visited: seq<Ref>)
      requires root != NULL && Get(next, root) == NULL && Get(parent, root) == NULL
      requires Reps(Here(), Get(list, root), root, kids, NULL)
      ensures visited == Preorder(kids)
    {
      hide Reps, Preorder, Pending;
      visited := [];
      var menu := Get(list, root);
      ghost var par, ahead: Forest, path: seq<(Ref, Forest)> := root, kids, [];
      PendingStep(kids, []);
      RepsStart(Here(), menu, root, kids);
      while menu != NULL
        invariant Reps(Here(), menu, par, ahead, NULL) && Above(par, root, path)
        invariant visited + (Preorder(ahead) + Pending(path)) == Preorder(kids)
        invariant menu == NULL ==> Preorder(ahead) + Pending(path) == []
        decreases |Preorder(ahead) + Pending(path)|
      {
        RepsStart(Here(), menu, par, ahead);
        PendingStep(ahead, path);
        assert visited + ([menu] + (Preorder(ahead[0].kids) + (Preorder(ahead[1..]) + Pending(path))))
            == (visited + [menu]) + (Preorder(ahead[0].kids) + (Preorder(ahead[1..]) + Pending(path)));
        visited := visited + [menu];
        if Get(list, menu) != NULL {
          path, par, ahead := [(menu, ahead[1..])] + path, menu, ahead[0].kids;
          menu := Get(list, menu);
          continue;
        }
        RepsStart(Here(), NULL, menu, ahead[0].kids);
        ahead := ahead[1..];
        if Get(next, menu) != NULL {
          menu := Get(next, menu);
        } else {
          RepsStart(Here(), NULL, par, ahead);
          menu, par, ahead, path := Climb(menu, par, root, path);
        }
      }
    }

    /** What is ahead: an entry, the entries below it, and then the rest. */
    static lemma PendingStep(ahead: Forest, path: seq<(Ref, Forest)>)
      ensures ahead == [] && path == [] ==> Preorder(ahead) + Pending(path) == []
      ensures path == [] ==> Preorder(ahead) + Pending(path) == Preorder(ahead)
      ensures Preorder([]) == [] && [] + Pending(path) == Pending(path)
      ensures ahead != [] ==>
                var t, after := ahead[0], ahead[1..];
                && Preorder(ahead) + Pending(path) == [t.id] + (Preorder(t.kids) + (Preorder(after) + Pending(path)))
                && Pending([(t.id, after)] + path) == Preorder(after) + Pending(path)
    {
      if ahead != [] {
        assert ([(ahead[0].id, ahead[1..])] + path)[1..] == path;
        Regroup([ahead[0].id], Preorder(ahead[0].kids), Preorder(ahead[1..]), Pending(path));
      }
    }

    static lemma Regroup(a: seq<Ref>, b: seq<Ref>, c: seq<Ref>, d: seq<Ref>)
      ensures a + b + c + d == a + (b + (c + d))
    {
    }

    method Climb(from: Ref, ghost par: Ref, root: Ref, ghost path: seq<(Ref, Forest)>)
      returns (menu: Ref, ghost par': Ref, ghost ahead: Forest, ghost path': seq<(Ref, Forest)>)
      requires root != NULL && Get(next, root) == NULL && Get(parent, root) == NULL
      requires from != NULL && Get(parent, from) == par && Above(par, root, path)
      ensures Reps(Here(), menu, par', ahead, NULL) && Above(par', root, path')
      ensures Preorder(ahead) + Pending(path') == Pending(path)
      ensures menu == NULL ==> ahead == [] && Pending(path') == []
    {
      menu, par', ahead, path' := Get(parent, from), par, [], path;
      while menu != NULL
        invariant Above(menu, root, path') || (menu == NULL && path' == [])
        invariant Pending(path') == Pending(path)
        decreases |path'| + if menu == NULL then 0 else 1
      {
        if Get(next, menu) != NULL {
          par', ahead, path' := Get(parent, menu), path'[0].1, path'[1..];
          menu := Get(next, menu);
          return;
        }
        path' := if path' == [] then [] else path'[1..];
        menu := Get(parent, menu);
      }
      par', ahead := root, [];
    }

    /** menu_finalize on the root, then the walk of conf_write: the entries come in the
        order in which they were declared. */
    method FinalizeRoot(root: Ref, ghost kids: Forest) returns (visited: seq<Ref>, ghost kids': Forest)
      requires root != NULL && Get(next, root) == NULL && Get(parent, root) == NULL
      requires Reps(Here(), Get(list, root), root, kids, NULL) && NoDup(Preorder(kids)) && root !in Ids(kids) && NULL !in Ids(kids)
      requires Clean(root)
      modifies this, rewriter
      ensures Reps(Here(), Get(list, root), root, kids', NULL) && Tidy(Shows(), kids')
      ensures visited == Preorder(kids') == Preorder(kids)
      ensures forall a, x, v :: OffBelowOff(old(Now()), Now(), Prompts(), [Node(root, kids)], a, x, v)
      ensures forall x, v :: OpenIff(old(Now()), Now(), Prompts(), root, kids, x, v)
      ensures Keeps(Shows(), [Node(root, kids)], [Node(root, kids')])
    {
      hide HandedDown, OffBelowOff, OpenIff, Prompts, Keeps;
      assert [Node(root, kids)][1..] == [];
      PreorderHead(Node(root, kids));
      IdsArePreorder(kids);
      assert ([root] + Preorder(kids))[1..] == Preorder(kids);
      ghost var f := Finalize(root, NULL, [Node(root, kids)]);
      PreorderParts(f);
      assert f[1..] == [];
      PreorderHead(f[0]);
      assert f == [f[0]];
      assert ([root] + Preorder(f[0].kids))[1..] == ([root] + Preorder(kids))[1..];
      kids' := f[0].kids;
      assert Behind([Node(root, kids)], f[1..]) == [Node(root, kids)];
      ghost var c0, c1 := old(Now()), Now();
      forall a, x, v
        ensures OffBelowOff(c0, c1, Prompts(), [Node(root, kids)], a, x, v)
      {
        RunMeans(c0, c1, Prompts(), root, kids, a, x, v);
      }
      forall x, v
        ensures OpenIff(c0, c1, Prompts(), root, kids, x, v)
      {
        RunMeans(c0, c1, Prompts(), root, kids, root, x, v);
      }
      visited := Walk(root, kids');
    }
  }
}
