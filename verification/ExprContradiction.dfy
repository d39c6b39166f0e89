/** Where the contradiction rule of expr_eliminate_dups keeps the value, and where it
    loses an m: (A || B) && (!A && !B) is reduced to n (scripts/kconfig/expr.c). */
module ExprContradiction {
  import opened Options
  import opened Tristates
  import opened Exprs
  import opened ExprTransform
  import opened ExprCancel
  import opened ExprJoin
  import opened ExprDups
  import opened ExprRounds

  /** One use of the rule keeps the value exactly where the chain is not m. */
  lemma ContradictionKeepsIff(op: Op, t: Expr, p1: Path, p2: Path, v: Valuation)
    requires Typed(v) && OnSpine(op, t, p1) && OnSpine(op, t, p2)
    requires Contradicts(op, At(op, t, p1), At(op, t, p2))
    ensures Value(Put(op, t, p1, Zero(op)), v) == Value(t, v) <==> Value(t, v) != MOD
  {
    hide Contradicts;
    ContradictionRefines(op, t, p1, p2, v);
    SlotValue(op, t, p1, Zero(op), v);
    assert Value(Zero(op), v) == op.Absorber();
  }

  /** The rule loses an m: (A || B) && (!A && !B) is m where A is m and B is n, and it
      is replaced by n. */
  lemma ContradictionLosesMod(a: Symbol, b: Symbol, v: Valuation)
    requires Typed(v) && a.stype == TristateType && b.stype == TristateType && a != b
    requires v.tri(a) == MOD && v.tri(b) == NO
    ensures
      var e1, e2 := Either(a, b), Neither(a, b);
      && Contradicts(AndOp, e1, e2)
      && Value(Junction(AndOp, e1, e2), v) == MOD && Value(Junction(AndOp, Zero(AndOp), e2), v) == NO
  {
    EitherContradicts(a, b);
    assert Value(Sym(a), v) == MOD && Value(Sym(b), v) == NO;
    assert Value(Not(Sym(a)), v) == MOD && Value(Not(Sym(b)), v) == YES;
  }

  function Either(a: Symbol, b: Symbol): Expr {
    Junction(OrOp, Sym(a), Sym(b))
  }

  function Neither(a: Symbol, b: Symbol): Expr {
    Junction(AndOp, Not(Sym(a)), Not(Sym(b)))
  }

  lemma NotEither(a: Symbol, b: Symbol)
    requires a.stype == TristateType && b.stype == TristateType
    ensures Transform(Not(Either(a, b))) == Neither(a, b)
  {
    NormalIsFixed(Either(a, b));
    NormalIsFixed(Neither(a, b));
  }

  lemma EitherContradicts(a: Symbol, b: Symbol)
    requires a.stype == TristateType && b.stype == TristateType && a != b
    ensures Contradicts(AndOp, Either(a, b), Neither(a, b))
  {
    NotEither(a, b);
    ExtractSame(AndOp, Not(Sym(a)), Not(Sym(b)));
    assert EliminateYN(Junction(AndOp, Unit(AndOp), Unit(AndOp))) == Unit(AndOp);
  }

  lemma ExtractSame(op: Op, x: Expr, y: Expr)
    requires x.Not? && y.Not? && x.arg.Sym? && y.arg.Sym? && x != y
    ensures var e := Junction(op, x, y);
            ExtractEq(op, None, e, e) == (Some(e), Junction(op, Unit(op), Unit(op)), Junction(op, Unit(op), Unit(op)))
  {
    var e, u := Junction(op, x, y), Unit(op);
    assert Eq(x, x) && Eq(y, y) && !Eq(u, y) && !Eq(y, u);
    hide Eq;
    assert ExtractEq(op, None, x, x) == (Some(x), u, u);
    assert ExtractEq(op, Some(x), u, y) == (Some(x), u, y);
    assert ExtractEq(op, None, x, e) == (Some(x), u, Junction(op, u, y));
    assert ExtractEq(op, Some(x), y, u) == (Some(x), y, u);
    assert ExtractEq(op, Some(x), y, y) == (Some(e), u, u);
    assert ExtractEq(op, Some(x), y, Junction(op, u, y)) == (Some(e), u, Junction(op, u, u));
  }

  // The passes at work on this input

  predicate OnLeaf(op: Op, t: Expr, q: Path) {
    OnSpine(op, t, q) && !IsJunction(op, At(op, t, q))
  }

  /** No two leaves of the chain can be joined, and none of them changes in itself. */
  ghost predicate NothingToJoin(op: Op, t: Expr) {
    forall q1, q2 | OnLeaf(op, t, q1) && OnLeaf(op, t, q2) && q1 != q2 ::
      Dups1Operand(At(op, t, q1)) == Outcome(At(op, t, q1), 0) && Join(op, At(op, t, q1), At(op, t, q2)).None?
  }

  /** Then the first pass changes nothing. */
  lemma {:induction false} Dups1Idle(op: Op, t: Expr, p1: Path, p2: Path)
    requires OnSpine(op, t, p1) && OnSpine(op, t, p2) && NothingToJoin(op, t)
    ensures Dups1(op, t, p1, p2) == Outcome(t, 0)
    decreases SpineSize(op, At(op, t, p1)) + SpineSize(op, At(op, t, p2))
  {
    hide Dups1Pair, NothingToJoin, Join;
    if IsJunction(op, At(op, t, p1)) {
      OnSpineStep(op, t, p1, Left); OnSpineStep(op, t, p1, Right);
      Dups1Idle(op, t, p1 + [Left], p2);
      Dups1Idle(op, t, p1 + [Right], p2);
    } else if IsJunction(op, At(op, t, p2)) {
      OnSpineStep(op, t, p2, Left); OnSpineStep(op, t, p2, Right);
      Dups1Idle(op, t, p1, p2 + [Left]);
      Dups1Idle(op, t, p1, p2 + [Right]);
    } else {
      Dups1PairIdle(op, t, p1, p2);
    }
  }

  lemma Dups1PairIdle(op: Op, t: Expr, p1: Path, p2: Path)
    requires OnSpine(op, t, p1) && OnSpine(op, t, p2) && NothingToJoin(op, t)
    requires !IsJunction(op, At(op, t, p1)) && !IsJunction(op, At(op, t, p2))
    ensures Dups1Pair(op, t, p1, p2) == Outcome(t, 0)
  {
    hide Join, Dups1Operand;
    if p1 != p2 {
      LeafBelowRoot(op, t, p1, p2);
      PutLeaf(op, t, p1, At(op, t, p1));
    }
  }

  /** The second pass does nothing for an operand that is no junction. */
  lemma {:induction false} Dups2Idle(op: Op, t: Expr, p1: Path, p2: Path)
    requires OnSpine(op, t, p1) && OnSpine(op, t, p2) && !At(op, t, p1).Junction?
    ensures Dups2(op, t, p1, p2) == Outcome(t, 0)
    decreases SpineSize(op, At(op, t, p2))
  {
    if IsJunction(op, At(op, t, p2)) {
      OnSpineStep(op, t, p2, Left); OnSpineStep(op, t, p2, Right);
      Dups2Idle(op, t, p1, p2 + [Left]);
      Dups2Idle(op, t, p1, p2 + [Right]);
    }
  }

  /** A chain of two operands that are no junctions. */
  lemma Dups2Simple(op: Op, t: Expr, p1: Path, p2: Path)
    requires OnSpine(op, t, p1) && OnSpine(op, t, p2) && IsJunction(op, At(op, t, p1))
    requires !At(op, t, p1).left.Junction? && !At(op, t, p1).right.Junction?
    ensures Dups2(op, t, p1, p2) == Outcome(t, 0)
  {
    OnSpineStep(op, t, p1, Left); OnSpineStep(op, t, p1, Right);
    Dups2Idle(op, t, p1 + [Left], p2);
    Dups2Idle(op, t, p1 + [Right], p2);
  }

  lemma EitherQuiet(a: Symbol, b: Symbol)
    requires a != b
    ensures Dups1Operand(Either(a, b)) == Outcome(Either(a, b), 0)
  {
    var e := Either(a, b);
    forall q1, q2 | OnLeaf(OrOp, e, q1) && OnLeaf(OrOp, e, q2) && q1 != q2
      ensures Dups1Operand(At(OrOp, e, q1)) == Outcome(At(OrOp, e, q1), 0) && Join(OrOp, At(OrOp, e, q1), At(OrOp, e, q2)).None?
    {
      TwoLeaves(OrOp, e, q1);
      TwoLeaves(OrOp, e, q2);
    }
    Dups1Idle(OrOp, e, [], []);
  }

  lemma TwoLeaves(op: Op, e: Expr, q: Path)
    requires IsJunction(op, e) && !IsJunction(op, e.left) && !IsJunction(op, e.right)
    requires OnLeaf(op, e, q)
    ensures q == [Left] || q == [Right]
  {
    assert q != [] && OnSpine(op, Child(e, q[0]), q[1..]);
    assert q == [q[0]] + q[1..];
  }

  /** The pair of the two chains in the second pass. */
  lemma EitherIsTaken(a: Symbol, b: Symbol)
    requires a.stype == TristateType && b.stype == TristateType && a != b
    ensures
      var e := Junction(AndOp, Either(a, b), Neither(a, b));
      Dups2Pair(AndOp, e, [Left], [Right]) == Outcome(Junction(AndOp, Sym(SymNo), Neither(a, b)), 1)
  {
    var e1, e2 := Either(a, b), Neither(a, b);
    var e := Junction(AndOp, e1, e2);
    EitherContradicts(a, b);
    assert [Left][1..] == [] && [Right][1..] == [];
    assert At(AndOp, e1, []) == e1 && At(AndOp, e2, []) == e2;
    assert At(AndOp, e, [Left]) == e1 && At(AndOp, e, [Right]) == e2;
    Dups2Simple(OrOp, e1, [], []);
    PutLeaf(AndOp, e, [Left], e1);
    hide Contradicts, Dups2;
    assert Put(AndOp, e1, [], Zero(AndOp)) == Sym(SymNo);
    assert Put(AndOp, e, [Left], Zero(AndOp)) == Junction(AndOp, Sym(SymNo), e2);
  }

  /** The three operands of the example, by their slots. */
  lemma EitherSlots(a: Symbol, b: Symbol, d: Turn)
    ensures
      var e := Junction(AndOp, Either(a, b), Neither(a, b));
      && OnSpine(AndOp, e, [Left]) && At(AndOp, e, [Left]) == Either(a, b)
      && OnSpine(AndOp, e, [Right]) && At(AndOp, e, [Right]) == Neither(a, b)
      && OnSpine(AndOp, e, [Right, d]) && At(AndOp, e, [Right, d]) == Not(Sym(if d == Left then a else b))
  {
    var e := Junction(AndOp, Either(a, b), Neither(a, b));
    OnSpineStep(AndOp, e, [], Left);
    OnSpineStep(AndOp, e, [], Right);
    assert [] + [Left] == [Left] && [] + [Right] == [Right] && [Right] + [d] == [Right, d];
    OnSpineStep(AndOp, e, [Right], d);
  }

  lemma EitherPaths(a: Symbol, b: Symbol, q: Path)
    requires OnLeaf(AndOp, Junction(AndOp, Either(a, b), Neither(a, b)), q)
    ensures q == [Left] || q == [Right, Left] || q == [Right, Right]
  {
    assert q != [] && q == [q[0]] + q[1..];
    if q[0] == Right {
      TwoLeaves(AndOp, Neither(a, b), q[1..]);
    } else {
      assert OnSpine(AndOp, Either(a, b), q[1..]);
    }
  }

  lemma EitherJoinsNothing(a: Symbol, b: Symbol, x: Expr, y: Expr)
    requires a != b && x != y
    requires x == Either(a, b) || x == Not(Sym(a)) || x == Not(Sym(b))
    requires y == Either(a, b) || y == Not(Sym(a)) || y == Not(Sym(b))
    ensures JoinAnd(x, y) == None
  {
    assert x.Not? && y.Not? ==> Eq(x, y) == (x.arg == y.arg);
    assert x.Not? != y.Not? ==> !Eq(x, y);
  }

  lemma EitherFirstPass(a: Symbol, b: Symbol)
    requires a != b
    ensures var e := Junction(AndOp, Either(a, b), Neither(a, b)); Dups1(AndOp, e, [], []) == Outcome(e, 0)
  {
    hide JoinAnd, OnSpine, At;
    var e := Junction(AndOp, Either(a, b), Neither(a, b));
    EitherQuiet(a, b);
    EitherSlots(a, b, Left);
    EitherSlots(a, b, Right);
    forall q1, q2 | OnLeaf(AndOp, e, q1) && OnLeaf(AndOp, e, q2) && q1 != q2
      ensures Dups1Operand(At(AndOp, e, q1)) == Outcome(At(AndOp, e, q1), 0)
      ensures Join(AndOp, At(AndOp, e, q1), At(AndOp, e, q2)).None?
    {
      EitherPaths(a, b, q1);
      EitherPaths(a, b, q2);
      EitherJoinsNothing(a, b, At(AndOp, e, q1), At(AndOp, e, q2));
    }
    Dups1IdleRoot(AndOp, e);
  }

  lemma Dups1IdleRoot(op: Op, t: Expr)
    requires NothingToJoin(op, t)
    ensures Dups1(op, t, [], []) == Outcome(t, 0)
  {
    Dups1Idle(op, t, [], []);
  }

  /** One operand of the second chain alone does not contradict the first. */
  lemma OneIsNotEnough(a: Symbol, b: Symbol, c: Symbol)
    requires a.stype == TristateType && b.stype == TristateType && a != b && (c == a || c == b)
    ensures !Contradicts(AndOp, Either(a, b), Not(Sym(c)))
  {
    NotEither(a, b);
    var x, y, z, u := Not(Sym(a)), Not(Sym(b)), Not(Sym(c)), Unit(AndOp);
    assert Eq(x, z) == (c == a) && Eq(y, z) == (c == b) && !Eq(y, u) && !Eq(x, u);
    hide Eq, Transform;
    assert ExtractEq(AndOp, None, x, z) == if c == a then (Some(x), u, u) else (None, x, z);
    assert ExtractEq(AndOp, Some(x), y, u) == (Some(x), y, u);
    assert ExtractEq(AndOp, None, y, z) == if c == b then (Some(y), u, u) else (None, y, z);
    assert ExtractEq(AndOp, None, Neither(a, b), z) ==
      if c == a then (Some(x), Junction(AndOp, u, y), u) else (Some(y), Junction(AndOp, x, u), u);
    assert EliminateYN(x) == x && EliminateYN(y) == y && EliminateYN(u) == u;
    assert EliminateYN(Junction(AndOp, u, y)) == y && EliminateYN(Junction(AndOp, x, u)) == x;
  }

  lemma EitherQuietPair(a: Symbol, b: Symbol, d: Turn)
    requires a.stype == TristateType && b.stype == TristateType && a != b
    ensures
      var e := Junction(AndOp, Either(a, b), Neither(a, b));
      OnSpine(AndOp, e, [Right, d]) && Dups2(AndOp, e, [Left], [Right, d]) == Outcome(e, 0)
  {
    var e1, e2 := Either(a, b), Neither(a, b);
    var e := Junction(AndOp, e1, e2);
    EitherSlots(a, b, d);
    OneIsNotEnough(a, b, if d == Left then a else b);
    Dups2Simple(OrOp, e1, [], []);
    PutLeaf(AndOp, e, [Left], e1);
  }

  lemma EitherSecondPass(a: Symbol, b: Symbol)
    requires a.stype == TristateType && b.stype == TristateType && a != b
    ensures
      var e := Junction(AndOp, Either(a, b), Neither(a, b));
      Dups2(AndOp, e, [], []) == Outcome(Junction(AndOp, Sym(SymNo), Neither(a, b)), 1)
  {
    hide Contradicts, Dups2Pair;
    var e := Junction(AndOp, Either(a, b), Neither(a, b));
    var w := Junction(AndOp, Sym(SymNo), Neither(a, b));
    EitherFirstHalf(a, b);
    Dups2Simple(AndOp, w, [Right], []);
    assert [] + [Left] == [Left] && [] + [Right] == [Right];
  }

  /** Both halves change nothing. */
  lemma Dups2Halves(op: Op, t: Expr, p1: Path, p2: Path)
    requires OnSpine(op, t, p1) && OnSpine(op, t, p2) && OnSpine(op, t, p2 + [Left]) && OnSpine(op, t, p2 + [Right])
    requires !IsJunction(op, At(op, t, p1)) && IsJunction(op, At(op, t, p2))
    requires Dups2(op, t, p1, p2 + [Left]) == Outcome(t, 0) && Dups2(op, t, p1, p2 + [Right]) == Outcome(t, 0)
    ensures Dups2(op, t, p1, p2) == Dups2Pair(op, t, p1, p2)
  {
    hide Dups2Pair;
  }

  /** The second half replaces the operand by something that is no junction. */
  lemma Dups2SecondHalf(op: Op, t: Expr, p1: Path, p2: Path, w: Expr, n: nat)
    requires OnSpine(op, t, p1) && OnSpine(op, t, p2) && OnSpine(op, t, p2 + [Left]) && OnSpine(op, t, p2 + [Right])
    requires !IsJunction(op, At(op, t, p1)) && IsJunction(op, At(op, t, p2))
    requires Dups2(op, t, p1, p2 + [Left]) == Outcome(t, 0) && Dups2(op, t, p1, p2 + [Right]) == Outcome(w, n)
    requires OnSpine(op, w, p1) && !At(op, w, p1).Junction?
    ensures Dups2(op, t, p1, p2) == Outcome(w, n)
  {
    SpineKept(op, t, w, p2);
    hide Contradicts;
    assert Dups2Pair(op, w, p1, p2) == Outcome(w, 0);
  }

  /** The first operand against the whole chain. */
  lemma EitherFirstHalf(a: Symbol, b: Symbol)
    requires a.stype == TristateType && b.stype == TristateType && a != b
    ensures
      var e := Junction(AndOp, Either(a, b), Neither(a, b));
      OnSpine(AndOp, e, [Left]) && Dups2(AndOp, e, [Left], []) == Outcome(Junction(AndOp, Sym(SymNo), Neither(a, b)), 1)
  {
    hide Contradicts;
    var e := Junction(AndOp, Either(a, b), Neither(a, b));
    var w := Junction(AndOp, Sym(SymNo), Neither(a, b));
    EitherSlots(a, b, Left);
    EitherSlots(a, b, Right);
    EitherQuietPair(a, b, Left);
    EitherQuietPair(a, b, Right);
    EitherIsTaken(a, b);
    FirstAgainstItself(a, b);
    hide Dups2, Dups2Pair;
    assert [Right] + [Left] == [Right, Left] && [Right] + [Right] == [Right, Right];
    Dups2Halves(AndOp, e, [Left], [Right]);
    assert [] + [Left] == [Left] && [] + [Right] == [Right];
    assert At(AndOp, w, [Left]) == Sym(SymNo);
    Dups2SecondHalf(AndOp, e, [Left], [], w, 1);
  }

  lemma FirstAgainstItself(a: Symbol, b: Symbol)
    ensures var e := Junction(AndOp, Either(a, b), Neither(a, b));
            OnSpine(AndOp, e, [Left]) && Dups2(AndOp, e, [Left], [Left]) == Outcome(e, 0)
  {
    hide Contradicts;
    EitherSlots(a, b, Left);
  }

  /** So expr_eliminate_dups as a whole turns an m into n. */
  lemma ReducedLosesMod(a: Symbol, b: Symbol, v: Valuation)
    requires Typed(v) && a.stype == TristateType && b.stype == TristateType && a != b
    requires v.tri(a) == MOD && v.tri(b) == NO
    ensures
      var e := Junction(AndOp, Either(a, b), Neither(a, b));
      Value(e, v) == MOD && Reduced(e) == Sym(SymNo)
  {
    var e := Junction(AndOp, Either(a, b), Neither(a, b));
    ContradictionLosesMod(a, b, v);
    EitherFirstPass(a, b);
    EitherSecondPass(a, b);
    hide Dups1, Dups2;
    assert EliminateYN(Round(e).tree) == Sym(SymNo);
    assert Reduced(Sym(SymNo)) == Sym(SymNo);
  }
}
