/** expr_transform, expr_trans_bool and expr_trans_compare
    (scripts/kconfig/expr.c). */
module ExprTransform {
  import opened Options
  import opened Tristates
  import opened Exprs

  /** De Morgan's rule adds a node; counting a negation as double the weight of
      its operand still makes every rewriting step lighter. */
  function Weight(e: Expr): nat
    ensures Weight(e) >= 1
  {
    match e
    case Sym(_) => 1
    case Equal(_, _) => 3
    case Unequal(_, _) => 3
    case Not(x) => 2 * Weight(x)
    case Junction(_, l, r) => 1 + Weight(l) + Weight(r)
  }

  function TransformEqual(l: Symbol, r: Symbol): Expr {
    if l.stype != BooleanType then Equal(l, r)
    else if r == SymNo then Not(Sym(l))
    else if r == SymMod then Sym(SymNo)
    else if r == SymYes then Sym(l)
    else Equal(l, r)
  }

  function TransformUnequal(l: Symbol, r: Symbol): Expr {
    if l.stype != BooleanType then Unequal(l, r)
    else if r == SymNo then Sym(l)
    else if r == SymMod then Sym(SymYes)
    else if r == SymYes then Not(Sym(l))
    else Unequal(l, r)
  }

  function Transform(e: Expr): (r: Expr)
    ensures Weight(r) <= Weight(e)
    decreases Weight(e)
  {
    match e
    case Sym(_) => e
    case Equal(l, r) => TransformEqual(l, r)
    case Unequal(l, r) => TransformUnequal(l, r)
    case Junction(op, l, r) => Junction(op, Transform(l), Transform(r))
    case Not(x) =>
      var y := Transform(x);
      match y
      case Not(a) => Transform(a)
      case Equal(l, r) => Unequal(l, r)
      case Unequal(l, r) => Equal(l, r)
      case Junction(op, l, r) =>
        assert Weight(Not(l)) + Weight(Not(r)) < Weight(Not(y)) - 1;
        Transform(Junction(op.Dual(), Not(l), Not(r)))
      case Sym(s) =>
        if s == SymYes then Sym(SymNo)
        else if s == SymMod then Sym(SymMod)
        else if s == SymNo then Sym(SymYes)
        else Not(y)
  }

  /** A NULL expression stays NULL. */
  function TransformOpt(e: Option<Expr>): Option<Expr> {
    match e
    case None => None
    case Some(x) => Some(Transform(x))
  }

  /** Negation only on symbols other than y, m and n. */
  predicate NegationNormal(e: Expr) {
    match e
    case Not(x) => x.Sym? && !IsTruthValue(x.sym)
    case Junction(_, l, r) => NegationNormal(l) && NegationNormal(r)
    case _ => true
  }

  /** No boolean symbol is compared with y, m or n. */
  predicate NoBooleanTest(e: Expr) {
    match e
    case Sym(_) => true
    case Equal(l, r) => !(l.stype == BooleanType && IsTruthValue(r))
    case Unequal(l, r) => !(l.stype == BooleanType && IsTruthValue(r))
    case Not(x) => NoBooleanTest(x)
    case Junction(_, l, r) => NoBooleanTest(l) && NoBooleanTest(r)
  }

  predicate Normal(e: Expr) {
    NegationNormal(e) && NoBooleanTest(e)
  }

  lemma {:induction false} TransformKeepsValue(e: Expr, v: Valuation)
    requires Typed(v)
    ensures Value(Transform(e), v) == Value(e, v)
    decreases Weight(e)
  {
    match e
    case Sym(_) =>
    case Equal(l, r) =>
    case Unequal(l, r) =>
    case Junction(op, l, r) => TransformKeepsValue(l, v); TransformKeepsValue(r, v);
    case Not(x) =>
      TransformKeepsValue(x, v);
      match Transform(x) {
        case Not(a) => TransformKeepsValue(a, v);
        case Junction(op, l, r) =>
          assert Weight(Not(l)) + Weight(Not(r)) < Weight(Not(Transform(x))) - 1;
          TransformKeepsValue(Junction(op.Dual(), Not(l), Not(r)), v);
        case _ =>
      }
  }

  lemma {:induction false} TransformNormalises(e: Expr)
    ensures Normal(Transform(e))
    decreases Weight(e)
  {
    match e
    case Sym(_) =>
    case Equal(l, r) =>
    case Unequal(l, r) =>
    case Junction(op, l, r) => TransformNormalises(l); TransformNormalises(r);
    case Not(x) =>
      TransformNormalises(x);
      match Transform(x) {
        case Not(a) => TransformNormalises(a);
        case Junction(op, l, r) =>
          assert Weight(Not(l)) + Weight(Not(r)) < Weight(Not(Transform(x))) - 1;
          TransformNormalises(Junction(op.Dual(), Not(l), Not(r)));
        case _ =>
      }
  }

  lemma {:induction false} NormalIsFixed(e: Expr)
    requires Normal(e)
    ensures Transform(e) == e
  {
    match e
    case Junction(op, l, r) => NormalIsFixed(l); NormalIsFixed(r);
    case Not(x) => assert Transform(x) == x;
    case _ =>
  }

  /** The result is normal, means the same, and is what a normal expression was
      already: Transform changes an expression exactly when it is not normal. */
  lemma TransformIdempotent(e: Expr)
    ensures Transform(Transform(e)) == Transform(e)
    ensures Transform(e) == e <==> Normal(e)
  {
    TransformNormalises(e);
    NormalIsFixed(Transform(e));
    if Normal(e) {
      NormalIsFixed(e);
    }
  }

  // expr_trans_bool: FOO!=n -> FOO for a tristate FOO

  function TransBool(e: Expr): Expr {
    match e
    case Junction(op, l, r) => Junction(op, TransBool(l), TransBool(r))
    case Not(x) => Not(TransBool(x))
    case Unequal(l, r) => if l.stype == TristateType && r == SymNo then Sym(l) else e
    case _ => e
  }

  /** A tristate symbol is asked whether it is not n. */
  predicate HasTest(e: Expr) {
    match e
    case Junction(_, l, r) => HasTest(l) || HasTest(r)
    case Not(x) => HasTest(x)
    case Unequal(l, r) => l.stype == TristateType && r == SymNo
    case _ => false
  }

  /** Every such question is gone, and without one nothing is touched. */
  lemma {:induction false} NoTestLeft(e: Expr)
    ensures !HasTest(TransBool(e))
    ensures TransBool(e) == e <==> !HasTest(e)
  {
    match e
    case Junction(_, l, r) => NoTestLeft(l); NoTestLeft(r);
    case Not(x) => NoTestLeft(x);
    case _ =>
  }

  /** Where no tristate symbol is m the value is the same. */
  lemma {:induction false} TransBoolRewrites(e: Expr, v: Valuation)
    requires Typed(v) && forall s: Symbol :: s.stype == TristateType ==> v.tri(s) != MOD
    ensures Value(TransBool(e), v) == Value(e, v)
  {
    match e
    case Junction(_, l, r) => TransBoolRewrites(l, v); TransBoolRewrites(r, v);
    case Not(x) => TransBoolRewrites(x, v);
    case Unequal(l, r) =>
      if l.stype == TristateType && r == SymNo {
        OperandTest(l, r, v);
      }
    case _ =>
  }

  /** Some comparison that is rewritten stands below an odd number of negations, with
      `odd` telling whether the number so far is. */
  predicate NegatesTest(e: Expr, odd: bool) {
    match e
    case Junction(_, l, r) => NegatesTest(l, odd) || NegatesTest(r, odd)
    case Not(x) => NegatesTest(x, !odd)
    case Unequal(l, r) => odd && l.stype == TristateType && r == SymNo
    case _ => false
  }

  /** The rewrite keeps "is n" below an even number of negations and "is y" below an
      odd one, if all comparisons that it rewrites stand on the right side. */
  lemma {:induction false} TransBoolByParity(e: Expr, odd: bool, v: Valuation)
    requires Typed(v) && !NegatesTest(e, odd)
    ensures !odd ==> (Value(TransBool(e), v) == NO <==> Value(e, v) == NO) && Value(TransBool(e), v) <= Value(e, v)
    ensures odd ==> (Value(TransBool(e), v) == YES <==> Value(e, v) == YES) && Value(TransBool(e), v) >= Value(e, v)
  {
    match e
    case Junction(_, l, r) => TransBoolByParity(l, odd, v); TransBoolByParity(r, odd, v);
    case Not(x) => TransBoolByParity(x, !odd, v);
    case _ =>
  }

  lemma {:induction false} NormalNegatesNoTest(e: Expr)
    requires NegationNormal(e)
    ensures !NegatesTest(e, false)
  {
    if e.Junction? {
      NormalNegatesNoTest(e.left);
      NormalNegatesNoTest(e.right);
    }
  }

  /** On a negation-normal expression, which is what the program rewrites, "is n" is
      kept, and nothing is promoted below m: the new value never exceeds the old one. */
  lemma TransBoolKeepsNo(e: Expr, v: Valuation)
    requires Typed(v) && NegationNormal(e)
    ensures Value(TransBool(e), v) == NO <==> Value(e, v) == NO
    ensures Value(TransBool(e), v) <= Value(e, v)
  {
    NormalNegatesNoTest(e);
    TransBoolByParity(e, false, v);
  }

  /** Under a negation the rewrite keeps "is n" exactly where the symbol is not m. */
  lemma TransBoolNeedsNormal(foo: Symbol, v: Valuation)
    requires Typed(v) && foo.stype == TristateType
    ensures var e := Not(Unequal(foo, SymNo));
            !NegationNormal(e) && NegatesTest(e, false)
            && ((Value(TransBool(e), v) == NO <==> Value(e, v) == NO) <==> v.tri(foo) != MOD)
  {
    OperandTest(foo, SymNo, v);
  }

  // expr_trans_compare: an expression that says "e is c" or "e is not c"

  function TransCompare(e: Expr, equal: bool, c: Symbol): Expr
    requires IsTruthValue(c)
  {
    match e
    case Junction(op, l, r) =>
      var l', r' := TransCompare(l, true, c), TransCompare(r, true, c);
      var both :=
        if c == SymYes then Junction(op, l', r')
        else if c == SymNo then Junction(op.Dual(), l', r')
        else e;  // compared with m, a junction stays as it is
      if equal then both else Not(both)
    case Not(x) => TransCompare(x, !equal, c)
    case Sym(s) => if equal then Equal(s, c) else Unequal(s, c)
    case _ =>
      if c == SymMod then Sym(if equal then SymNo else SymYes)
      else if equal == (c == SymYes) then e
      else Not(e)
  }

  /** A missing expression is compared as the text of the constant itself. */
  function TransCompareOpt(e: Option<Expr>, equal: bool, c: Symbol): Expr
    requires IsTruthValue(c)
  {
    match e
    case None => if equal then Sym(c) else Not(Sym(c))
    case Some(x) => TransCompare(x, equal, c)
  }

  /** Every symbol used as an operand is boolean, tristate, or y, m or n. */
  predicate LogicalOperands(e: Expr) {
    match e
    case Sym(s) => s.stype == BooleanType || s.stype == TristateType || IsTruthValue(s)
    case Not(x) => LogicalOperands(x)
    case Junction(_, l, r) => LogicalOperands(l) && LogicalOperands(r)
    case _ => true
  }

  /** Some negation is applied to an m. */
  predicate NegatesMod(e: Expr, v: Valuation) {
    match e
    case Not(x) => Value(x, v) == MOD || NegatesMod(x, v)
    case Junction(_, l, r) => NegatesMod(l, v) || NegatesMod(r, v)
    case _ => false
  }

  lemma OperandTest(s: Symbol, c: Symbol, v: Valuation)
    requires Typed(v) && IsTruthValue(c)
    requires s.stype == BooleanType || s.stype == TristateType || IsTruthValue(s)
    ensures Value(Equal(s, c), v) == Truth(v.tri(s) == v.tri(c))
    ensures Value(Unequal(s, c), v) == Truth(v.tri(s) != v.tri(c))
  {
    assert v.str(s) == TriName(v.tri(s));
    assert TriName(NO)[0] == 'n' && TriName(MOD)[0] == 'm' && TriName(YES)[0] == 'y';
  }

  /** Where no negation meets an m, the rewritten expression answers exactly whether
      the value is (is not) y or n. */
  lemma {:induction false} TransCompareExact(e: Expr, equal: bool, c: Symbol, v: Valuation)
    requires Typed(v) && LogicalOperands(e) && (c == SymYes || c == SymNo)
    requires !NegatesMod(e, v)
    ensures Value(TransCompare(e, equal, c), v) == Truth((Value(e, v) == v.tri(c)) == equal)
  {
    match e
    case Junction(_, l, r) => TransCompareExact(l, true, c, v); TransCompareExact(r, true, c, v);
    case Not(x) => TransCompareExact(x, !equal, c, v);
    case Sym(s) => OperandTest(s, c, v);
    case _ =>
  }

  /** Below one more negation that is exact precisely where the operand is not m. */
  lemma TransCompareOfNegation(x: Expr, equal: bool, c: Symbol, v: Valuation)
    requires Typed(v) && LogicalOperands(x) && (c == SymYes || c == SymNo)
    requires !NegatesMod(x, v)
    ensures Value(TransCompare(Not(x), equal, c), v) == Truth((Value(Not(x), v) == v.tri(c)) == equal)
            <==> Value(x, v) != MOD
  {
    TransCompareExact(x, !equal, c, v);
  }

  /** Compared with m: a symbol or a comparison is asked exactly, its negation, though it
      is m in the same cases, gets the opposite answer, and a chain is its own answer. */
  lemma TransCompareMod(e: Expr, equal: bool, v: Valuation)
    requires Typed(v) && LogicalOperands(e)
    ensures !e.Junction? && !e.Not? ==>
      && Value(TransCompare(e, equal, SymMod), v) == Truth((Value(e, v) == MOD) == equal)
      && Value(TransCompare(Not(e), equal, SymMod), v) == Truth((Value(Not(e), v) == MOD) != equal)
    ensures e.Junction? ==>
      Value(TransCompare(e, equal, SymMod), v) == if equal then Value(e, v) else Negate(Value(e, v))
  {
    if e.Sym? {
      OperandTest(e.sym, SymMod, v);
    }
  }

  /** Whatever is negated, the answer is n or y, and "is not n" is never claimed of
      a negation-normal expression that is n. */
  lemma {:induction false} TransCompareSafe(e: Expr, equal: bool, v: Valuation)
    requires Typed(v) && LogicalOperands(e) && NegationNormal(e)
    ensures Value(TransCompare(e, equal, SymNo), v) != MOD
    ensures Value(TransCompare(e, equal, SymNo), v) == Truth(!equal) ==> Value(e, v) != NO
  {
    match e
    case Junction(_, l, r) => TransCompareSafe(l, true, v); TransCompareSafe(r, true, v);
    case Not(x) => OperandTest(x.sym, SymNo, v);
    case Sym(s) => OperandTest(s, SymNo, v);
    case _ =>
  }
}
