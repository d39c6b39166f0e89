/** Cancelling equal operands: expr_eliminate_yn, expr_eliminate_eq, expr_eq and
    expr_extract_eq (scripts/kconfig/expr.c). */
module ExprCancel {
  import opened Options
  import opened Tristates
  import opened Exprs
  import opened ExprTransform

  // expr_eliminate_yn

  function EliminateYN(e: Expr): (r: Expr)
    ensures Size(r) <= Size(e)
  {
    match e
    case Junction(op, l, r) =>
      var l', r' := EliminateYN(l), EliminateYN(r);
      if l' == Zero(op) then Zero(op)
      else if l' == Unit(op) then r'
      else if r' == Zero(op) then Zero(op)
      else if r' == Unit(op) then l'
      else Junction(op, l', r')
    case _ => e
  }

  predicate IsYN(e: Expr) {
    e == Sym(SymYes) || e == Sym(SymNo)
  }

  /** Some junction, reached through junctions only, has y or n as an operand. */
  predicate HasYN(e: Expr) {
    e.Junction? && (IsYN(e.left) || IsYN(e.right) || HasYN(e.left) || HasYN(e.right))
  }

  lemma {:induction false} EliminateYNKeepsValue(e: Expr, v: Valuation)
    requires Typed(v)
    ensures Value(EliminateYN(e), v) == Value(e, v)
  {
    match e
    case Junction(_, l, r) => EliminateYNKeepsValue(l, v); EliminateYNKeepsValue(r, v);
    case _ =>
  }

  /** It strips every y and n operand, and changes nothing else. */
  lemma {:induction false} EliminateYNStrips(e: Expr)
    ensures !HasYN(EliminateYN(e))
    ensures HasYN(e) ==> Size(EliminateYN(e)) < Size(e)
    ensures !HasYN(e) ==> EliminateYN(e) == e
    ensures Normal(e) ==> Normal(EliminateYN(e))
  {
    hide Normal;
    if Normal(e) {
      EliminateYNNormal(e);
    }
    match e
    case Junction(_, l, r) => EliminateYNStrips(l); EliminateYNStrips(r);
    case _ =>
  }

  lemma {:induction false} EliminateYNNormal(e: Expr)
    requires Normal(e)
    ensures Normal(EliminateYN(e))
  {
    match e
    case Junction(_, l, r) => EliminateYNNormal(l); EliminateYNNormal(r);
    case _ =>
  }

  // expr_eq and __expr_eliminate_eq call each other on smaller trees

  function Rank(op: Op, e1: Expr, e2: Expr): nat {
    if IsJunction(op, e1) || IsJunction(op, e2) then 0 else 3
  }

  predicate Eq(e1: Expr, e2: Expr)
    decreases Size(e1) + Size(e2), 2
  {
    match (e1, e2)
    case (Sym(s), Sym(t)) => s == t
    case (Equal(_, _), Equal(_, _)) => e1 == e2
    case (Unequal(_, _), Unequal(_, _)) => e1 == e2
    case (Not(x), Not(y)) => Eq(x, y)
    case (Junction(op1, _, _), Junction(op2, _, _)) =>
      if op1 != op2 then false
      else
        var (f1, f2) := EliminateEq(e1, e2);
        f1.Sym? && f1 == f2
    case _ => false
  }

  /** Replace operands that occur on both sides by the identity of `op`. */
  function CancelOperands(op: Op, e1: Expr, e2: Expr): (r: (Expr, Expr))
    ensures Size(r.0) <= Size(e1) && Size(r.1) <= Size(e2)
    decreases Size(e1) + Size(e2), Rank(op, e1, e2)
  {
    if IsJunction(op, e1) then
      var (l, e2') := CancelOperands(op, e1.left, e2);
      var (r, e2'') := CancelOperands(op, e1.right, e2');
      (Junction(op, l, r), e2'')
    else if IsJunction(op, e2) then
      var (e1', l) := CancelOperands(op, e1, e2.left);
      var (e1'', r) := CancelOperands(op, e1', e2.right);
      (e1'', Junction(op, l, r))
    else if e1.Sym? && e1 == e2 && e1.sym.constant && e1.sym != SymMod then
      (e1, e2)
    else if !Eq(e1, e2) then (e1, e2)
    else (Unit(op), Unit(op))
  }

  function EliminateEq(e1: Expr, e2: Expr): (r: (Expr, Expr))
    ensures Size(r.0) <= Size(e1) && Size(r.1) <= Size(e2)
    decreases Size(e1) + Size(e2), 1
  {
    var (f1, f2) := if e1.Junction? then CancelOperands(e1.op, e1, e2) else (e1, e2);
    var (g1, g2) :=
      if f2.Junction? && !IsJunction(f2.op, f1) then CancelOperands(f2.op, f1, f2) else (f1, f2);
    (EliminateYN(g1), EliminateYN(g2))
  }

  /** What was cancelled under `op` is one common operand `c` of both sides. */
  lemma {:induction false} CancelFactors(op: Op, e1: Expr, e2: Expr, v: Valuation) returns (c: Tristate)
    requires Typed(v)
    ensures var (f1, f2) := CancelOperands(op, e1, e2);
            Value(e1, v) == Apply(op, c, Value(f1, v)) && Value(e2, v) == Apply(op, c, Value(f2, v))
    decreases Size(e1) + Size(e2), Rank(op, e1, e2), 0
  {
    if IsJunction(op, e1) {
      var c1 := CancelFactors(op, e1.left, e2, v);
      var (l, e2') := CancelOperands(op, e1.left, e2);
      var (r, e2'') := CancelOperands(op, e1.right, e2');
      var c2 := CancelFactors(op, e1.right, e2', v);
      c := Apply(op, c1, c2);
      FactorsCompose(op, c1, c2, Value(e1.left, v), Value(l, v), Value(e1.right, v), Value(r, v),
                     Value(e2, v), Value(e2', v), Value(e2'', v));
    } else if IsJunction(op, e2) {
      var c1 := CancelFactors(op, e1, e2.left, v);
      var (e1', l) := CancelOperands(op, e1, e2.left);
      var (e1'', r) := CancelOperands(op, e1', e2.right);
      var c2 := CancelFactors(op, e1', e2.right, v);
      c := Apply(op, c1, c2);
      FactorsCompose(op, c1, c2, Value(e2.left, v), Value(l, v), Value(e2.right, v), Value(r, v),
                     Value(e1, v), Value(e1', v), Value(e1'', v));
    } else if e1.Sym? && e1 == e2 && e1.sym.constant && e1.sym != SymMod {
      c := op.Identity();
    } else if !Eq(e1, e2) {
      c := op.Identity();
    } else {
      EqSound(e1, e2, v);
      c := Value(e1, v);
    }
  }

  /** What is left over compares as the originals did. */
  predicate KeepsOrder(a1: Tristate, a2: Tristate, b1: Tristate, b2: Tristate) {
    && (b1 <= b2 ==> a1 <= a2)
    && (b2 <= b1 ==> a2 <= a1)
  }

  lemma {:induction false} CancelKeepsOrder(op: Op, e1: Expr, e2: Expr, v: Valuation)
    requires Typed(v)
    ensures var (f1, f2) := CancelOperands(op, e1, e2);
            KeepsOrder(Value(e1, v), Value(e2, v), Value(f1, v), Value(f2, v))
    decreases Size(e1) + Size(e2), Rank(op, e1, e2), 1
  {
    var c := CancelFactors(op, e1, e2, v);
    var (f1, f2) := CancelOperands(op, e1, e2);
    if Value(f1, v) <= Value(f2, v) {
      ApplyMonotone(op, c, Value(f1, v), Value(f2, v));
    }
    if Value(f2, v) <= Value(f1, v) {
      ApplyMonotone(op, c, Value(f2, v), Value(f1, v));
    }
  }

  lemma {:induction false} EliminateEqKeepsOrder(e1: Expr, e2: Expr, v: Valuation)
    requires Typed(v)
    ensures var (r1, r2) := EliminateEq(e1, e2);
            KeepsOrder(Value(e1, v), Value(e2, v), Value(r1, v), Value(r2, v))
    decreases Size(e1) + Size(e2), 1
  {
    var (f1, f2) := if e1.Junction? then CancelOperands(e1.op, e1, e2) else (e1, e2);
    if e1.Junction? {
      CancelKeepsOrder(e1.op, e1, e2, v);
    }
    assert KeepsOrder(Value(e1, v), Value(e2, v), Value(f1, v), Value(f2, v));
    var (g1, g2) :=
      if f2.Junction? && !IsJunction(f2.op, f1) then CancelOperands(f2.op, f1, f2) else (f1, f2);
    if f2.Junction? && !IsJunction(f2.op, f1) {
      CancelKeepsOrder(f2.op, f1, f2, v);
    }
    assert KeepsOrder(Value(f1, v), Value(f2, v), Value(g1, v), Value(g2, v));
    EliminateYNKeepsValue(g1, v);
    EliminateYNKeepsValue(g2, v);
  }

  /** expr_eq answers yes only for expressions that agree under every valuation. */
  lemma {:induction false} EqSound(e1: Expr, e2: Expr, v: Valuation)
    requires Typed(v) && Eq(e1, e2)
    ensures Value(e1, v) == Value(e2, v)
    decreases Size(e1) + Size(e2), 2
  {
    match (e1, e2)
    case (Not(x), Not(y)) => EqSound(x, y, v);
    case (Junction(_, _, _), Junction(_, _, _)) => EliminateEqKeepsOrder(e1, e2, v);
    case _ =>
  }

  // The implication test of menu_finalize

  /** If cancelling against `dep` leaves y of `dep2`, then `dep` never exceeds `dep2`. */
  lemma ReducedToYesImplies(dep: Expr, dep2: Expr, v: Valuation)
    requires Typed(v)
    requires EliminateEq(dep, dep2).1 == Sym(SymYes)
    ensures Value(dep, v) <= Value(dep2, v)
  {
    EliminateEqKeepsOrder(dep, dep2, v);
  }

  // What cancelling leaves

  /** The operands of a chain of `op`. */
  function Operands(op: Op, e: Expr): set<Expr> {
    if IsJunction(op, e) then Operands(op, e.left) + Operands(op, e.right) else {e}
  }

  /** Constants other than m, which __expr_eliminate_eq leaves alone. */
  predicate FixedConstant(e: Expr) {
    e.Sym? && e.sym.constant && e.sym != SymMod
  }

  /** No operand of one side is equal to one of the other, such constants aside. */
  ghost predicate Apart(op: Op, e1: Expr, e2: Expr) {
    forall x, y :: x in Operands(op, e1) && y in Operands(op, e2) && Eq(x, y) ==> FixedConstant(x)
  }

  /** Operands are only ever replaced by the identity. */
  lemma {:induction false} CancelReplaces(op: Op, e1: Expr, e2: Expr)
    ensures var (f1, f2) := CancelOperands(op, e1, e2);
            Operands(op, f1) <= Operands(op, e1) + {Unit(op)} && Operands(op, f2) <= Operands(op, e2) + {Unit(op)}
    decreases Size(e1) + Size(e2), Rank(op, e1, e2)
  {
    hide Eq, EliminateYN;
    if IsJunction(op, e1) {
      var (l, e2') := CancelOperands(op, e1.left, e2);
      CancelReplaces(op, e1.left, e2);
      CancelReplaces(op, e1.right, e2');
    } else if IsJunction(op, e2) {
      var (e1', l) := CancelOperands(op, e1, e2.left);
      CancelReplaces(op, e1, e2.left);
      CancelReplaces(op, e1', e2.right);
    }
  }

  /** Cancelling misses no pair. */
  lemma {:induction false} CancelMissesNone(op: Op, e1: Expr, e2: Expr)
    ensures var (f1, f2) := CancelOperands(op, e1, e2); Apart(op, f1, f2)
    decreases Size(e1) + Size(e2), Rank(op, e1, e2)
  {
    hide Eq, EliminateYN;
    if IsJunction(op, e1) {
      var (l, e2') := CancelOperands(op, e1.left, e2);
      var (r, e2'') := CancelOperands(op, e1.right, e2');
      CancelMissesNone(op, e1.left, e2);
      CancelMissesNone(op, e1.right, e2');
      CancelReplaces(op, e1.right, e2');
      ApartShrinks(op, l, e2', e2'');
      assert Apart(op, Junction(op, l, r), e2'');
    } else if IsJunction(op, e2) {
      var (e1', l) := CancelOperands(op, e1, e2.left);
      var (e1'', r) := CancelOperands(op, e1', e2.right);
      CancelMissesNone(op, e1, e2.left);
      CancelMissesNone(op, e1', e2.right);
      CancelReplaces(op, e1', e2.right);
      ApartShrinksLeft(op, e1', e1'', l);
      assert Apart(op, e1'', Junction(op, l, r));
    } else {
      var (f1, f2) := CancelOperands(op, e1, e2);
      assert Operands(op, f1) == {f1} && Operands(op, f2) == {f2};
    }
  }

  lemma ApartShrinks(op: Op, x: Expr, y: Expr, y': Expr)
    requires Apart(op, x, y) && Operands(op, y') <= Operands(op, y) + {Unit(op)}
    ensures Apart(op, x, y')
  {
    forall a, b | a in Operands(op, x) && b in Operands(op, y') && Eq(a, b)
      ensures FixedConstant(a)
    {
      if b !in Operands(op, y) {
        assert b == Unit(op);
      }
    }
  }

  lemma ApartShrinksLeft(op: Op, x: Expr, x': Expr, y: Expr)
    requires Apart(op, x, y) && Operands(op, x') <= Operands(op, x) + {Unit(op)}
    ensures Apart(op, x', y)
  {
    forall a, b | a in Operands(op, x') && b in Operands(op, y) && Eq(a, b)
      ensures FixedConstant(a)
    {
      if a !in Operands(op, x) {
        assert a == Unit(op);
      }
    }
  }

  lemma ConstantsStay(op: Op, a: Symbol, b: Symbol)
    requires a.Quoted? && b.Quoted?
    ensures CancelOperands(op, Sym(a), Sym(b)) == (Sym(a), Sym(b))
  {
  }

  /** expr_eq does not find every equality: quoted constants are never cancelled, so
      that a junction of two of them is not even equal to itself. */
  lemma EqMissesConstants(a: Symbol, b: Symbol)
    requires a.Quoted? && b.Quoted?
    ensures var e := Junction(OrOp, Sym(a), Sym(b)); !Eq(e, e)
  {
    var e := Junction(OrOp, Sym(a), Sym(b));
    ConstantsStay(OrOp, a, a);
    ConstantsStay(OrOp, a, b);
    ConstantsStay(OrOp, b, a);
    ConstantsStay(OrOp, b, b);
    assert CancelOperands(OrOp, Sym(a), e) == (Sym(a), e);
    assert CancelOperands(OrOp, Sym(b), e) == (Sym(b), e);
    assert CancelOperands(OrOp, e, e) == (e, e);
    assert EliminateYN(e) == e by { assert EliminateYN(Sym(a)) == Sym(a) && EliminateYN(Sym(b)) == Sym(b); }
  }

  // expr_extract_eq

  function ExtractEq(op: Op, common: Option<Expr>, e1: Expr, e2: Expr): (r: (Option<Expr>, Expr, Expr))
    decreases Size(e1) + Size(e2)
    ensures Size(r.1) <= Size(e1) && Size(r.2) <= Size(e2)
  {
    if IsJunction(op, e1) then
      var (c1, l, e2') := ExtractEq(op, common, e1.left, e2);
      var (c2, r, e2'') := ExtractEq(op, c1, e1.right, e2');
      (c2, Junction(op, l, r), e2'')
    else if IsJunction(op, e2) then
      var (c1, e1', l) := ExtractEq(op, common, e1, e2.left);
      var (c2, e1'', r) := ExtractEq(op, c1, e1', e2.right);
      (c2, e1'', Junction(op, l, r))
    else if Eq(e1, e2) then
      (Some(if common.Some? then Junction(op, common.value, e1) else e1), Unit(op), Unit(op))
    else
      (common, e1, e2)
  }

  /** expr_extract_eq_and and expr_extract_eq_or. */
  function Extract(op: Op, e1: Expr, e2: Expr): (Option<Expr>, Expr, Expr) {
    var (c, r1, r2) := ExtractEq(op, None, e1, e2);
    if c.Some? then (c, EliminateYN(r1), EliminateYN(r2)) else (c, r1, r2)
  }

  /** The value of a collected common part; nothing collected is the identity. */
  function CommonValue(op: Op, c: Option<Expr>, v: Valuation): Tristate {
    match c
    case None => op.Identity()
    case Some(e) => Value(e, v)
  }

  lemma {:induction false} ExtractEqKeepsProduct(op: Op, common: Option<Expr>, e1: Expr, e2: Expr, v: Valuation)
    requires Typed(v)
    ensures var (c, r1, r2) := ExtractEq(op, common, e1, e2);
            && Apply(op, CommonValue(op, c, v), Value(r1, v)) == Apply(op, CommonValue(op, common, v), Value(e1, v))
            && Apply(op, CommonValue(op, c, v), Value(r2, v)) == Apply(op, CommonValue(op, common, v), Value(e2, v))
    decreases Size(e1) + Size(e2)
  {
    if IsJunction(op, e1) {
      var (c1, l, e2') := ExtractEq(op, common, e1.left, e2);
      ExtractEqKeepsProduct(op, common, e1.left, e2, v);
      ExtractEqKeepsProduct(op, c1, e1.right, e2', v);
      var (c2, r, e2'') := ExtractEq(op, c1, e1.right, e2');
      ProductsCompose(op, CommonValue(op, common, v), CommonValue(op, c1, v), CommonValue(op, c2, v),
                      Value(e1.left, v), Value(l, v), Value(e1.right, v), Value(r, v),
                      Value(e2, v), Value(e2', v), Value(e2'', v));
    } else if IsJunction(op, e2) {
      var (c1, e1', l) := ExtractEq(op, common, e1, e2.left);
      ExtractEqKeepsProduct(op, common, e1, e2.left, v);
      ExtractEqKeepsProduct(op, c1, e1', e2.right, v);
      var (c2, e1'', r) := ExtractEq(op, c1, e1', e2.right);
      ProductsCompose(op, CommonValue(op, common, v), CommonValue(op, c1, v), CommonValue(op, c2, v),
                      Value(e2.left, v), Value(l, v), Value(e2.right, v), Value(r, v),
                      Value(e1, v), Value(e1', v), Value(e1'', v));
    } else if Eq(e1, e2) {
      EqSound(e1, e2, v);
    }
  }

  /** Extracting misses no pair: what is left on the two sides has nothing in common
      but the constants that stand for what was taken. */
  ghost predicate NothingShared(op: Op, e1: Expr, e2: Expr) {
    forall x, y :: x in Operands(op, e1) && y in Operands(op, e2) && Eq(x, y) ==> x == Unit(op)
  }

  lemma {:induction false} ExtractReplaces(op: Op, common: Option<Expr>, e1: Expr, e2: Expr)
    ensures var (c, r1, r2) := ExtractEq(op, common, e1, e2);
            Operands(op, r1) <= Operands(op, e1) + {Unit(op)} && Operands(op, r2) <= Operands(op, e2) + {Unit(op)}
    decreases Size(e1) + Size(e2)
  {
    hide Eq, EliminateYN, Unit;
    if IsJunction(op, e1) {
      var (c1, l, e2') := ExtractEq(op, common, e1.left, e2);
      ExtractReplaces(op, common, e1.left, e2);
      ExtractReplaces(op, c1, e1.right, e2');
    } else if IsJunction(op, e2) {
      var (c1, e1', l) := ExtractEq(op, common, e1, e2.left);
      ExtractReplaces(op, common, e1, e2.left);
      ExtractReplaces(op, c1, e1', e2.right);
    } else {
      UnitIsLeaf(op);
    }
  }

  lemma UnitIsLeaf(op: Op)
    ensures Operands(op, Unit(op)) == {Unit(op)}
  {
  }

  lemma {:induction false} ExtractMissesNone(op: Op, common: Option<Expr>, e1: Expr, e2: Expr)
    ensures var (c, r1, r2) := ExtractEq(op, common, e1, e2); NothingShared(op, r1, r2)
    decreases Size(e1) + Size(e2)
  {
    hide Eq, EliminateYN, NothingShared;
    if IsJunction(op, e1) {
      var (c1, l, e2') := ExtractEq(op, common, e1.left, e2);
      var (c2, r, e2'') := ExtractEq(op, c1, e1.right, e2');
      ExtractMissesNone(op, common, e1.left, e2);
      ExtractMissesNone(op, c1, e1.right, e2');
      ExtractReplaces(op, c1, e1.right, e2');
      SharedShrinks(op, l, e2', e2'');
      SharedJoins(op, l, r, e2'');
    } else if IsJunction(op, e2) {
      var (c1, e1', l) := ExtractEq(op, common, e1, e2.left);
      var (c2, e1'', r) := ExtractEq(op, c1, e1', e2.right);
      ExtractMissesNone(op, common, e1, e2.left);
      ExtractMissesNone(op, c1, e1', e2.right);
      ExtractReplaces(op, c1, e1', e2.right);
      SharedShrinksLeft(op, e1', e1'', l);
      SharedJoinsRight(op, e1'', l, r);
    } else {
      LeavesNotShared(op, common, e1, e2);
    }
  }

  lemma LeavesNotShared(op: Op, common: Option<Expr>, e1: Expr, e2: Expr)
    requires !IsJunction(op, e1) && !IsJunction(op, e2)
    ensures var (c, r1, r2) := ExtractEq(op, common, e1, e2); NothingShared(op, r1, r2)
  {
    hide EliminateYN;
    var (c, r1, r2) := ExtractEq(op, common, e1, e2);
    assert Operands(op, r1) == {r1} && Operands(op, r2) == {r2};
  }

  lemma SharedJoins(op: Op, l: Expr, r: Expr, y: Expr)
    requires NothingShared(op, l, y) && NothingShared(op, r, y)
    ensures NothingShared(op, Junction(op, l, r), y)
  {
  }

  lemma SharedJoinsRight(op: Op, x: Expr, l: Expr, r: Expr)
    requires NothingShared(op, x, l) && NothingShared(op, x, r)
    ensures NothingShared(op, x, Junction(op, l, r))
  {
  }

  lemma SharedShrinksLeft(op: Op, x: Expr, x': Expr, y: Expr)
    requires NothingShared(op, x, y) && Operands(op, x') <= Operands(op, x) + {Unit(op)}
    ensures NothingShared(op, x', y)
  {
  }

  lemma SharedShrinks(op: Op, x: Expr, y: Expr, y': Expr)
    requires NothingShared(op, x, y) && Operands(op, y') <= Operands(op, y) + {Unit(op)}
    ensures NothingShared(op, x, y')
  {
    forall a, b | a in Operands(op, x) && b in Operands(op, y') && Eq(a, b)
      ensures a == Unit(op)
    {
      if b !in Operands(op, y) {
        assert b == Unit(op);
      }
    }
  }

  /** The common part joined with each remainder is each original again. */
  lemma ExtractFactors(op: Op, e1: Expr, e2: Expr, v: Valuation)
    requires Typed(v)
    ensures var (c, r1, r2) := Extract(op, e1, e2);
            && Value(e1, v) == Apply(op, CommonValue(op, c, v), Value(r1, v))
            && Value(e2, v) == Apply(op, CommonValue(op, c, v), Value(r2, v))
  {
    ExtractEqKeepsProduct(op, None, e1, e2, v);
    var (c, r1, r2) := ExtractEq(op, None, e1, e2);
    EliminateYNKeepsValue(r1, v);
    EliminateYNKeepsValue(r2, v);
  }
}
