/** Joining two operands into one: expr_join_or and expr_join_and
    (scripts/kconfig/expr.c). */
module ExprJoin {
  import opened Options
  import opened Tristates
  import opened Exprs
  import opened ExprTransform
  import opened ExprCancel

  /** The symbol an operand talks about, if it is one expr_join_* looks at.  As the
      first operand a negated comparison counts too, as the second it does not. */
  function Subject(e: Expr, first: bool): Option<Symbol> {
    match e
    case Sym(s) => Some(s)
    case Equal(s, _) => Some(s)
    case Unequal(s, _) => Some(s)
    case Not(x) =>
      if x.Sym? then Some(x.sym)
      else if first && (x.Equal? || x.Unequal?) then Some(x.lhs)
      else None
    case Junction(_, _, _) => None
  }

  predicate EqualPair(e1: Expr, e2: Expr, a: Symbol, b: Symbol) {
    e1.Equal? && e2.Equal? && ((e1.rhs == a && e2.rhs == b) || (e1.rhs == b && e2.rhs == a))
  }

  predicate UnequalPair(e1: Expr, e2: Expr, a: Symbol, b: Symbol) {
    e1.Unequal? && e2.Unequal? && ((e1.rhs == a && e2.rhs == b) || (e1.rhs == b && e2.rhs == a))
  }

  predicate Complementary(e1: Expr, e2: Expr) {
    (e1.Not? && e1.arg.Sym? && e2.Sym?) || (e2.Not? && e2.arg.Sym? && e1.Sym?)
  }

  function JoinOr(e1: Expr, e2: Expr): Option<Expr> {
    if Eq(e1, e2) then Some(e1)
    else
      var s1, s2 := Subject(e1, true), Subject(e2, false);
      if s1.None? || s2.None? || s1 != s2 then None
      else
        var s := s1.value;
        if s.stype != BooleanType && s.stype != TristateType then None
        else if s.stype == TristateType && EqualPair(e1, e2, SymYes, SymMod) then
          Some(Unequal(s, SymNo))
        else if s.stype == TristateType && EqualPair(e1, e2, SymYes, SymNo) then
          Some(Unequal(s, SymMod))
        else if s.stype == TristateType && EqualPair(e1, e2, SymMod, SymNo) then
          Some(Unequal(s, SymYes))
        else if s.stype == BooleanType && Complementary(e1, e2) then
          Some(Sym(SymYes))
        else None
  }

  predicate SymWithEqual(e1: Expr, e2: Expr, c: Symbol) {
    (e1.Sym? && e2.Equal? && e2.rhs == c) || (e2.Sym? && e1.Equal? && e1.rhs == c)
  }

  predicate SymWithUnequal(e1: Expr, e2: Expr, c: Symbol) {
    (e1.Sym? && e2.Unequal? && e2.rhs == c) || (e2.Sym? && e1.Unequal? && e1.rhs == c)
  }

  function JoinAnd(e1: Expr, e2: Expr): Option<Expr> {
    if Eq(e1, e2) then Some(e1)
    else
      var s1, s2 := Subject(e1, true), Subject(e2, false);
      if s1.None? || s2.None? || s1 != s2 then None
      else
        var s := s1.value;
        if s.stype != BooleanType && s.stype != TristateType then None
        else if SymWithEqual(e1, e2, SymYes) then Some(Equal(s, SymYes))
        else if SymWithUnequal(e1, e2, SymNo) then Some(Sym(s))
        else if SymWithUnequal(e1, e2, SymMod) then Some(Equal(s, SymYes))
        else if s.stype != TristateType then None
        else if e1.Equal? && e2.Unequal? && e1.rhs.constant && e2.rhs.constant then
          Some(if e1.rhs != e2.rhs then Equal(s, e1.rhs) else Sym(SymNo))
        else if e1.Unequal? && e2.Equal? && e1.rhs.constant && e2.rhs.constant then
          Some(if e2.rhs != e1.rhs then Equal(s, e2.rhs) else Sym(SymNo))
        else if UnequalPair(e1, e2, SymYes, SymNo) then Some(Equal(s, SymMod))
        else if UnequalPair(e1, e2, SymYes, SymMod) then Some(Equal(s, SymNo))
        else if UnequalPair(e1, e2, SymMod, SymNo) then Some(Equal(s, SymYes))
        else None
  }

  function Join(op: Op, e1: Expr, e2: Expr): Option<Expr> {
    if op.AndOp? then JoinAnd(e1, e2) else JoinOr(e1, e2)
  }

  /** Comparing a boolean or tristate symbol with y, m or n asks for its tristate. */
  lemma TestValues(s: Symbol, v: Valuation)
    requires Typed(v) && (s.stype == BooleanType || s.stype == TristateType)
    ensures forall c :: IsTruthValue(c) ==>
              && Value(Equal(s, c), v) == Truth(v.tri(s) == v.tri(c))
              && Value(Unequal(s, c), v) == Truth(v.tri(s) != v.tri(c))
  {
    assert v.str(s) == TriName(v.tri(s));
    assert TriName(NO)[0] == 'n' && TriName(MOD)[0] == 'm' && TriName(YES)[0] == 'y';
  }

  lemma JoinOrKeepsValue(e1: Expr, e2: Expr, v: Valuation)
    requires Typed(v) && !Eq(e1, e2) && JoinOr(e1, e2).Some?
    ensures Value(JoinOr(e1, e2).value, v) == Max(Value(e1, v), Value(e2, v))
  {
    hide Eq;
    var s := Subject(e1, true).value;
    TestValues(s, v);
    if s.stype == TristateType {
      assert e1 == Equal(s, e1.rhs) && e2 == Equal(s, e2.rhs);
    }
  }

  lemma JoinAndKeepsValue(e1: Expr, e2: Expr, v: Valuation)
    requires Typed(v) && !Eq(e1, e2) && JoinAnd(e1, e2).Some?
    ensures Value(JoinAnd(e1, e2).value, v) == Min(Value(e1, v), Value(e2, v))
  {
    if e1.Sym? || e2.Sym? {
      JoinAndWithSymbol(e1, e2, v);
    } else {
      JoinAndOfTests(e1, e2, v);
    }
  }

  lemma JoinAndWithSymbol(e1: Expr, e2: Expr, v: Valuation)
    requires Typed(v) && !Eq(e1, e2) && JoinAnd(e1, e2).Some? && (e1.Sym? || e2.Sym?)
    ensures Value(JoinAnd(e1, e2).value, v) == Min(Value(e1, v), Value(e2, v))
  {
    hide Eq;
    var s := Subject(e1, true).value;
    TestValues(s, v);
    if e1.Sym? && e2.Equal? {
      assert e2 == Equal(s, e2.rhs);
    } else if e1.Sym? && e2.Unequal? {
      assert e2 == Unequal(s, e2.rhs);
    } else if e2.Sym? && e1.Equal? {
      assert e1 == Equal(s, e1.rhs);
    } else if e2.Sym? {
      assert e1 == Unequal(s, e1.rhs);
    }
  }

  lemma JoinAndOfTests(e1: Expr, e2: Expr, v: Valuation)
    requires Typed(v) && !Eq(e1, e2) && JoinAnd(e1, e2).Some? && !e1.Sym? && !e2.Sym?
    ensures Value(JoinAnd(e1, e2).value, v) == Min(Value(e1, v), Value(e2, v))
  {
    if e1.Unequal? && e2.Unequal? {
      JoinAndOfUnequals(e1, e2, v);
    } else {
      hide Eq;
      var s := Subject(e1, true).value;
      TestValues(s, v);
      assert e1.rhs != e2.rhs ==> v.str(e1.rhs) != v.str(e2.rhs);
    }
  }

  lemma JoinAndOfUnequals(e1: Expr, e2: Expr, v: Valuation)
    requires Typed(v) && !Eq(e1, e2) && JoinAnd(e1, e2).Some? && e1.Unequal? && e2.Unequal?
    ensures Value(JoinAnd(e1, e2).value, v) == Min(Value(e1, v), Value(e2, v))
  {
    hide Eq;
    var s := Subject(e1, true).value;
    TestValues(s, v);
    assert e1 == Unequal(s, e1.rhs) && e2 == Unequal(s, e2.rhs);
  }

  /** A joined operand has exactly the value of the junction it stands for. */
  lemma JoinKeepsValue(op: Op, e1: Expr, e2: Expr, v: Valuation)
    requires Typed(v) && Join(op, e1, e2).Some?
    ensures Value(Join(op, e1, e2).value, v) == Apply(op, Value(e1, v), Value(e2, v))
  {
    if Eq(e1, e2) {
      EqSound(e1, e2, v);
    } else if op.AndOp? {
      JoinAndKeepsValue(e1, e2, v);
    } else {
      JoinOrKeepsValue(e1, e2, v);
    }
  }

  /** It is a copy of the first operand or a single node, and stays normal. */
  lemma JoinShape(op: Op, e1: Expr, e2: Expr)
    requires Join(op, e1, e2).Some?
    ensures Join(op, e1, e2).value == e1 || Size(Join(op, e1, e2).value) == 1
    ensures Normal(e1) && Normal(e2) ==> Normal(Join(op, e1, e2).value)
  {
  }

  /** Which tests of one tristate symbol against y, m and n get joined: under "or"
      any two equalities; under "and" all pairs but two equalities that differ. */
  lemma JoinableTests(s: Symbol, a: Symbol, b: Symbol)
    requires s.stype == TristateType && IsTruthValue(a) && IsTruthValue(b)
    ensures JoinOr(Equal(s, a), Equal(s, b)).Some?
    ensures JoinOr(Unequal(s, a), Unequal(s, b)).Some? <==> a == b
    ensures JoinOr(Equal(s, a), Unequal(s, b)).None? && JoinOr(Unequal(s, b), Equal(s, a)).None?
    ensures JoinAnd(Equal(s, a), Unequal(s, b)).Some? && JoinAnd(Unequal(s, b), Equal(s, a)).Some?
    ensures JoinAnd(Unequal(s, a), Unequal(s, b)).Some?
    ensures JoinAnd(Equal(s, a), Equal(s, b)).Some? <==> a == b
    ensures JoinAnd(Sym(s), Equal(s, a)).Some? <==> a == SymYes
    ensures JoinAnd(Sym(s), Unequal(s, a)).Some? <==> a != SymYes
  {
  }

  /** The same for a logical symbol as it stands, and for tests of a boolean one. */
  lemma JoinableSymbols(s: Symbol, a: Symbol, b: Symbol)
    requires (s.stype == BooleanType || s.stype == TristateType) && IsTruthValue(a) && IsTruthValue(b)
    ensures JoinOr(Sym(s), Not(Sym(s))).Some? <==> s.stype == BooleanType
    ensures JoinOr(Not(Sym(s)), Sym(s)).Some? <==> s.stype == BooleanType
    ensures JoinAnd(Sym(s), Not(Sym(s))).None? && JoinAnd(Not(Sym(s)), Sym(s)).None?
    ensures JoinAnd(Sym(s), Equal(s, a)).Some? <==> a == SymYes
    ensures JoinAnd(Equal(s, a), Sym(s)).Some? <==> a == SymYes
    ensures JoinAnd(Sym(s), Unequal(s, a)).Some? <==> a != SymYes
    ensures JoinAnd(Unequal(s, a), Sym(s)).Some? <==> a != SymYes
    ensures JoinOr(Sym(s), Equal(s, a)).None? && JoinOr(Sym(s), Unequal(s, a)).None?
    ensures s.stype == BooleanType ==>
      && (JoinOr(Equal(s, a), Equal(s, b)).Some? <==> a == b) && (JoinAnd(Unequal(s, a), Unequal(s, b)).Some? <==> a == b)
      && JoinAnd(Equal(s, a), Unequal(s, b)).None?
  {
  }

  /** A test of a tristate symbol against any constant takes in what denies another. */
  lemma JoinableConstants(s: Symbol, c: Symbol, d: Symbol)
    requires s.stype == TristateType && c.constant && d.constant
    ensures JoinAnd(Equal(s, c), Unequal(s, d)).Some? && JoinAnd(Unequal(s, d), Equal(s, c)).Some?
  {
  }

  /** The operand is about the symbol: itself, its negation, or a comparison. */
  predicate IsAbout(e: Expr, s: Symbol) {
    e == Sym(s) || e == Not(Sym(s)) || ((e.Equal? || e.Unequal?) && e.lhs == s)
  }

  /** Equal operands are always joined, others only if both are about one logical symbol. */
  lemma JoinNeeds(op: Op, e1: Expr, e2: Expr)
    ensures Eq(e1, e2) ==> Join(op, e1, e2) == Some(e1)
    ensures Join(op, e1, e2).Some? && !Eq(e1, e2) ==>
      exists s: Symbol :: (s.stype == BooleanType || s.stype == TristateType) && IsAbout(e1, s) && IsAbout(e2, s)
  {
    if Join(op, e1, e2).Some? && !Eq(e1, e2) {
      hide Eq;
      var s := Subject(e2, false).value;
      assert IsAbout(e1, s) && IsAbout(e2, s);
    }
  }
}
