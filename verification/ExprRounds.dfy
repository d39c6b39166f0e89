/** The rounds of expr_eliminate_dups: why the loop ends, what it leaves, and the loop
    itself (scripts/kconfig/expr.c). */
module ExprRounds {
  import opened Options
  import opened Tristates
  import opened Exprs
  import opened ExprTransform
  import opened ExprCancel
  import opened ExprJoin
  import opened ExprDups

  // What the count says about the tree

  /** A y or n at a slot below the root, or inside what hangs there, is one that
      expr_eliminate_yn finds. */
  lemma {:induction false} SlotHasYN(op: Op, t: Expr, p: Path)
    requires OnSpine(op, t, p)
    requires (p != [] && IsYN(At(op, t, p))) || HasYN(At(op, t, p))
    ensures HasYN(t)
  {
    if p != [] && !(p[1..] == [] && IsYN(At(op, t, p))) {
      SlotHasYN(op, Child(t, p[0]), p[1..]);
    }
  }

  lemma {:induction false} SlotNormal(op: Op, t: Expr, p: Path, e: Expr)
    requires OnSpine(op, t, p) && Normal(t)
    ensures Normal(At(op, t, p))
    ensures Normal(e) ==> Normal(Put(op, t, p, e))
  {
    if p != [] {
      SlotNormal(op, Child(t, p[0]), p[1..], e);
    }
  }

  /** Nothing counted, nothing changed; something counted, a y or n is left for
      expr_eliminate_yn.  Either way a normal tree stays normal. */
  ghost predicate CountTells(t: Expr, o: Outcome) {
    && (o.count == 0 ==> o.tree == t)
    && (o.count > 0 ==> HasYN(o.tree))
    && (Normal(t) ==> Normal(o.tree))
  }

  lemma {:induction false} Dups1Effect(op: Op, t: Expr, p1: Path, p2: Path)
    requires OnSpine(op, t, p1) && OnSpine(op, t, p2)
    ensures CountTells(t, Dups1(op, t, p1, p2))
    decreases Size(t), SpineSize(op, At(op, t, p1)) + SpineSize(op, At(op, t, p2)), 1
  {
    hide Dups1Pair, HasYN, Normal;
    var e1, e2 := At(op, t, p1), At(op, t, p2);
    if IsJunction(op, e1) {
      OnSpineStep(op, t, p1, Left); OnSpineStep(op, t, p1, Right);
      var o1 := Dups1(op, t, p1 + [Left], p2);
      Dups1Effect(op, t, p1 + [Left], p2);
      SpineKept(op, t, o1.tree, p1 + [Right]); SpineKept(op, t, o1.tree, p2);
      SameSpineSize(op, Child(e1, Right), At(op, o1.tree, p1 + [Right]));
      SameSpineSize(op, e2, At(op, o1.tree, p2));
      Dups1Effect(op, o1.tree, p1 + [Right], p2);
    } else if IsJunction(op, e2) {
      Dups1EffectRight(op, t, p1, p2);
    } else {
      Dups1PairEffect(op, t, p1, p2);
    }
  }

  lemma {:induction false} Dups1EffectRight(op: Op, t: Expr, p1: Path, p2: Path)
    requires OnSpine(op, t, p1) && OnSpine(op, t, p2)
    requires !IsJunction(op, At(op, t, p1)) && IsJunction(op, At(op, t, p2))
    ensures CountTells(t, Dups1(op, t, p1, p2))
    decreases Size(t), SpineSize(op, At(op, t, p1)) + SpineSize(op, At(op, t, p2)), 0
  {
    hide Dups1Pair, HasYN, Normal;
    var e1, e2 := At(op, t, p1), At(op, t, p2);
    OnSpineStep(op, t, p2, Left); OnSpineStep(op, t, p2, Right);
    var o1 := Dups1(op, t, p1, p2 + [Left]);
    Dups1Effect(op, t, p1, p2 + [Left]);
    SpineKept(op, t, o1.tree, p2 + [Right]); SpineKept(op, t, o1.tree, p1);
    SameSpineSize(op, Child(e2, Right), At(op, o1.tree, p2 + [Right]));
    SameSpineSize(op, e1, At(op, o1.tree, p1));
    Dups1Effect(op, o1.tree, p1, p2 + [Right]);
  }

  lemma {:induction false} Dups1PairEffect(op: Op, t: Expr, p1: Path, p2: Path)
    requires OnSpine(op, t, p1) && OnSpine(op, t, p2)
    requires !IsJunction(op, At(op, t, p1)) && !IsJunction(op, At(op, t, p2))
    ensures CountTells(t, Dups1Pair(op, t, p1, p2))
    decreases Size(t), 0, 0
  {
    hide Join, HasYN, Normal;
    var e1, e2 := At(op, t, p1), At(op, t, p2);
    if p1 != p2 {
      LeafBelowRoot(op, t, p1, p2);
      var inner := Dups1Operand(e1);
      if e1.Junction? {
        Dups1Effect(e1.op, e1, [], []);
      }
      PutLeaf(op, t, p1, inner.tree); PutElsewhere(op, t, p1, p2, inner.tree);
      var u := Put(op, t, p1, inner.tree);
      if Normal(t) {
        SlotNormal(op, t, p1, inner.tree);
      }
      var joined := Join(op, inner.tree, e2);
      if joined.None? {
        if inner.count > 0 {
          SlotHasYN(op, u, p1);
        }
      } else {
        JoinShape(op, inner.tree, e2);
        PutLeaf(op, u, p1, Unit(op)); PutElsewhere(op, u, p1, p2, Unit(op));
        var w := Put(op, u, p1, Unit(op));
        PutElsewhere(op, w, p2, p1, joined.value);
        SlotHasYN(op, Put(op, w, p2, joined.value), p1);
        if Normal(t) {
          SlotNormal(op, t, p2, e2);
          MergedNormal(op, u, p1, p2, joined.value);
        }
      }
    }
  }

  lemma MergedNormal(op: Op, u: Expr, p1: Path, p2: Path, joined: Expr)
    requires OnSpine(op, u, p1) && OnSpine(op, Put(op, u, p1, Unit(op)), p2)
    requires Normal(u) && Normal(joined)
    ensures Normal(Put(op, Put(op, u, p1, Unit(op)), p2, joined))
  {
    SlotNormal(op, u, p1, Unit(op));
    SlotNormal(op, Put(op, u, p1, Unit(op)), p2, joined);
  }

  lemma {:induction false} Dups2Effect(op: Op, t: Expr, p1: Path, p2: Path)
    requires OnSpine(op, t, p1) && OnSpine(op, t, p2)
    ensures CountTells(t, Dups2(op, t, p1, p2))
    decreases Size(t), SpineSize(op, At(op, t, p1)) + SpineSize(op, At(op, t, p2)), 1
  {
    hide Dups2Pair, HasYN, Normal;
    var e1, e2 := At(op, t, p1), At(op, t, p2);
    if IsJunction(op, e1) {
      OnSpineStep(op, t, p1, Left); OnSpineStep(op, t, p1, Right);
      var o1 := Dups2(op, t, p1 + [Left], p2);
      Dups2Effect(op, t, p1 + [Left], p2);
      SpineKept(op, t, o1.tree, p1 + [Right]); SpineKept(op, t, o1.tree, p2);
      SameSpineSize(op, Child(e1, Right), At(op, o1.tree, p1 + [Right]));
      SameSpineSize(op, e2, At(op, o1.tree, p2));
      Dups2Effect(op, o1.tree, p1 + [Right], p2);
    } else if IsJunction(op, e2) {
      Dups2EffectRight(op, t, p1, p2);
    } else {
      Dups2PairEffect(op, t, p1, p2);
    }
  }

  lemma {:induction false} Dups2EffectRight(op: Op, t: Expr, p1: Path, p2: Path)
    requires OnSpine(op, t, p1) && OnSpine(op, t, p2)
    requires !IsJunction(op, At(op, t, p1)) && IsJunction(op, At(op, t, p2))
    ensures CountTells(t, Dups2(op, t, p1, p2))
    decreases Size(t), SpineSize(op, At(op, t, p1)) + SpineSize(op, At(op, t, p2)), 0
  {
    hide Dups2Pair, HasYN, Normal;
    var e1, e2 := At(op, t, p1), At(op, t, p2);
    OnSpineStep(op, t, p2, Left); OnSpineStep(op, t, p2, Right);
    var o1 := Dups2(op, t, p1, p2 + [Left]);
    Dups2Effect(op, t, p1, p2 + [Left]);
    SpineKept(op, t, o1.tree, p2 + [Right]); SpineKept(op, t, o1.tree, p1);
    SameSpineSize(op, Child(e2, Right), At(op, o1.tree, p2 + [Right]));
    SameSpineSize(op, e1, At(op, o1.tree, p1));
    Dups2Effect(op, o1.tree, p1, p2 + [Right]);
    var o2 := Dups2(op, o1.tree, p1, p2 + [Right]);
    SameSpineTrans(op, t, o1.tree, o2.tree);
    SpineKept(op, t, o2.tree, p1); SpineKept(op, t, o2.tree, p2);
    Dups2PairEffect(op, o2.tree, p1, p2);
  }

  lemma ReplacedNormal(op: Op, t: Expr, p: Path, e: Expr)
    requires OnSpine(op, t, p) && OnSpine(op, Put(op, t, p, e), p)
    ensures Normal(t) ==> Normal(At(op, t, p))
    ensures Normal(t) && Normal(e) ==> Normal(Put(op, t, p, e)) && Normal(Put(op, Put(op, t, p, e), p, Zero(op)))
  {
    if Normal(t) {
      SlotNormal(op, t, p, e);
      if Normal(e) {
        SlotNormal(op, Put(op, t, p, e), p, Zero(op));
      }
    }
  }

  lemma {:induction false} Dups2PairEffect(op: Op, t: Expr, p1: Path, p2: Path)
    requires OnSpine(op, t, p1) && OnSpine(op, t, p2) && !IsJunction(op, At(op, t, p1))
    ensures CountTells(t, Dups2Pair(op, t, p1, p2))
    decreases Size(t), 0, 0
  {
    hide Contradicts, HasYN, Normal;
    var e1 := At(op, t, p1);
    if p1 != p2 && e1.Junction? {
      LeafBelowRoot(op, t, p1, p2);
      var inner := Dups2(e1.op, e1, [], []);
      Dups2Effect(e1.op, e1, [], []);
      PutLeaf(op, t, p1, inner.tree);
      var u := Put(op, t, p1, inner.tree);
      SpineKept(op, t, u, p2);
      PutLeaf(op, u, p1, Zero(op));
      ReplacedNormal(op, t, p1, inner.tree);
      if Contradicts(op, inner.tree, At(op, u, p2)) {
        SlotHasYN(op, Put(op, u, p1, Zero(op)), p1);
      } else if inner.count > 0 {
        SlotHasYN(op, u, p1);
      }
    }
  }

  lemma RoundEffect(e: Expr)
    ensures CountTells(e, Round(e))
  {
    if e.Junction? {
      Dups1Effect(e.op, e, [], []);
      Dups2Effect(e.op, Dups1(e.op, e, [], []).tree, [], []);
    }
  }

  // What is left when nothing is counted any more

  /** A round would change nothing. */
  predicate Irreducible(e: Expr) {
    Round(e) == Outcome(e, 0)
  }

  /** Nothing counted in a pass means nothing counted in any part of it. */
  lemma Dups1Quiet(op: Op, t: Expr, p1: Path, p2: Path, d: Turn)
    requires OnSpine(op, t, p1) && OnSpine(op, t, p2) && Dups1(op, t, p1, p2).count == 0
    ensures IsJunction(op, At(op, t, p1)) ==>
              && OnSpine(op, t, p1 + [d]) && At(op, t, p1 + [d]) == Child(At(op, t, p1), d)
              && Dups1(op, t, p1 + [d], p2).count == 0
    ensures !IsJunction(op, At(op, t, p1)) && IsJunction(op, At(op, t, p2)) ==>
              && OnSpine(op, t, p2 + [d]) && At(op, t, p2 + [d]) == Child(At(op, t, p2), d)
              && Dups1(op, t, p1, p2 + [d]).count == 0
    ensures !IsJunction(op, At(op, t, p1)) && !IsJunction(op, At(op, t, p2)) ==> Dups1Pair(op, t, p1, p2).count == 0
  {
    hide HasYN, Normal, Dups1Pair, Size;
    if IsJunction(op, At(op, t, p1)) {
      OnSpineStep(op, t, p1, Left); OnSpineStep(op, t, p1, Right);
      Dups1Effect(op, t, p1 + [Left], p2);
    } else if IsJunction(op, At(op, t, p2)) {
      OnSpineStep(op, t, p2, Left); OnSpineStep(op, t, p2, Right);
      Dups1Effect(op, t, p1, p2 + [Left]);
    }
  }

  lemma {:induction false} Dups1MissesNone(op: Op, t: Expr, p1: Path, p2: Path, q1: Path, q2: Path)
    requires OnSpine(op, t, p1) && OnSpine(op, t, p2) && OnSpine(op, t, q1) && OnSpine(op, t, q2)
    requires p1 <= q1 && p2 <= q2 && q1 != q2
    requires !IsJunction(op, At(op, t, q1)) && !IsJunction(op, At(op, t, q2))
    requires Dups1(op, t, p1, p2).count == 0
    ensures Join(op, At(op, t, q1), At(op, t, q2)).None?
    decreases SpineSize(op, At(op, t, p1)) + SpineSize(op, At(op, t, p2))
  {
    hide Dups1, Dups1Pair, Join, At, OnSpine;
    if IsJunction(op, At(op, t, p1)) {
      var d := NextTurn(op, t, p1, q1);
      Dups1Quiet(op, t, p1, p2, d);
      Dups1MissesNone(op, t, p1 + [d], p2, q1, q2);
    } else if IsJunction(op, At(op, t, p2)) {
      var d := NextTurn(op, t, p2, q2);
      Dups1Quiet(op, t, p1, p2, d);
      Dups1MissesNone(op, t, p1, p2 + [d], q1, q2);
    } else {
      LeafIsEnd(op, t, p1, q1);
      LeafIsEnd(op, t, p2, q2);
      Dups1Quiet(op, t, p1, p2, Left);
      Dups1PairMissesNone(op, t, p1, p2);
    }
  }

  lemma Dups1PairMissesNone(op: Op, t: Expr, p1: Path, p2: Path)
    requires OnSpine(op, t, p1) && OnSpine(op, t, p2) && p1 != p2
    requires !IsJunction(op, At(op, t, p1)) && !IsJunction(op, At(op, t, p2))
    requires Dups1Pair(op, t, p1, p2).count == 0
    ensures Join(op, At(op, t, p1), At(op, t, p2)).None?
  {
    hide Join, HasYN, Normal;
    var e1 := At(op, t, p1);
    if e1.Junction? {
      Dups1Effect(e1.op, e1, [], []);
    }
    var inner := Dups1Operand(e1);
    assert inner.count == 0 && inner.tree == e1;
  }

  /** A path that goes on below an `op` node turns left or right there. */
  lemma NextTurn(op: Op, t: Expr, p: Path, q: Path) returns (d: Turn)
    requires OnSpine(op, t, p) && OnSpine(op, t, q) && p <= q
    requires IsJunction(op, At(op, t, p)) && p != q
    ensures p + [d] <= q
  {
    d := q[|p|];
  }

  lemma {:induction false} LeafIsEnd(op: Op, t: Expr, p: Path, q: Path)
    requires OnSpine(op, t, p) && OnSpine(op, t, q) && p <= q && !IsJunction(op, At(op, t, p))
    ensures p == q
  {
    if p != [] {
      assert p == [p[0]] + p[1..] && q == [q[0]] + q[1..];
      LeafIsEnd(op, Child(t, p[0]), p[1..], q[1..]);
    }
  }

  /** Nothing counted in a pass means nothing counted in any part of it. */
  lemma Dups2Quiet(op: Op, t: Expr, p1: Path, p2: Path, d: Turn)
    requires OnSpine(op, t, p1) && OnSpine(op, t, p2) && Dups2(op, t, p1, p2).count == 0
    ensures IsJunction(op, At(op, t, p1)) ==>
              && OnSpine(op, t, p1 + [d]) && At(op, t, p1 + [d]) == Child(At(op, t, p1), d)
              && Dups2(op, t, p1 + [d], p2).count == 0
    ensures !IsJunction(op, At(op, t, p1)) ==> Dups2Pair(op, t, p1, p2).count == 0
    ensures !IsJunction(op, At(op, t, p1)) && IsJunction(op, At(op, t, p2)) ==>
              && OnSpine(op, t, p2 + [d]) && At(op, t, p2 + [d]) == Child(At(op, t, p2), d)
              && Dups2(op, t, p1, p2 + [d]).count == 0
  {
    hide HasYN, Normal, Dups2Pair, Size;
    if IsJunction(op, At(op, t, p1)) {
      OnSpineStep(op, t, p1, Left); OnSpineStep(op, t, p1, Right);
      Dups2Effect(op, t, p1 + [Left], p2);
    } else if IsJunction(op, At(op, t, p2)) {
      OnSpineStep(op, t, p2, Left); OnSpineStep(op, t, p2, Right);
      Dups2Effect(op, t, p1, p2 + [Left]);
      Dups2Effect(op, t, p1, p2 + [Right]);
    }
  }

  lemma {:induction false} Dups2MissesNone(op: Op, t: Expr, p1: Path, p2: Path, q1: Path, q2: Path)
    requires OnSpine(op, t, p1) && OnSpine(op, t, p2) && OnSpine(op, t, q1) && OnSpine(op, t, q2)
    requires p1 <= q1 && p2 <= q2 && q1 != q2
    requires At(op, t, q1).Junction? && !IsJunction(op, At(op, t, q1))
    requires Dups2(op, t, p1, p2).count == 0
    ensures !Contradicts(op, At(op, t, q1), At(op, t, q2))
    decreases SpineSize(op, At(op, t, p1)) + SpineSize(op, At(op, t, p2))
  {
    hide Dups2, Dups2Pair, Contradicts, At, OnSpine;
    var e1, e2 := At(op, t, p1), At(op, t, p2);
    if IsJunction(op, e1) {
      var d := NextTurn(op, t, p1, q1);
      Dups2Quiet(op, t, p1, p2, d);
      Dups2MissesNone(op, t, p1 + [d], p2, q1, q2);
    } else if p2 == q2 {
      LeafIsEnd(op, t, p1, q1);
      Dups2Quiet(op, t, p1, p2, Left);
      Dups2PairMissesNone(op, t, q1, q2);
    } else {
      if !IsJunction(op, e2) {
        LeafIsEnd(op, t, p2, q2);
        assert false;
      }
      var d := NextTurn(op, t, p2, q2);
      Dups2Quiet(op, t, p1, p2, d);
      Dups2MissesNone(op, t, p1, p2 + [d], q1, q2);
    }
  }

  lemma Dups2PairMissesNone(op: Op, t: Expr, q1: Path, q2: Path)
    requires OnSpine(op, t, q1) && OnSpine(op, t, q2) && q1 != q2
    requires At(op, t, q1).Junction? && !IsJunction(op, At(op, t, q1))
    requires Dups2Pair(op, t, q1, q2).count == 0
    ensures !Contradicts(op, At(op, t, q1), At(op, t, q2))
  {
    var e1 := At(op, t, q1);
    LeafBelowRoot(op, t, q1, q2);
    Dups2Effect(e1.op, e1, [], []);
    PutLeaf(op, t, q1, e1);
  }

  /** In an irreducible expression no two operands of the root chain can be joined,
      and no operand contradicts another operand, or the chain as a whole. */
  lemma IrreducibleMeans(e: Expr, q1: Path, q2: Path)
    requires e.Junction? && Irreducible(e)
    requires OnSpine(e.op, e, q1) && OnSpine(e.op, e, q2) && q1 != q2 && !IsJunction(e.op, At(e.op, e, q1))
    ensures !IsJunction(e.op, At(e.op, e, q2)) ==> Join(e.op, At(e.op, e, q1), At(e.op, e, q2)).None?
    ensures At(e.op, e, q1).Junction? ==> !Contradicts(e.op, At(e.op, e, q1), At(e.op, e, q2))
  {
    Dups1Effect(e.op, e, [], []);
    if !IsJunction(e.op, At(e.op, e, q2)) {
      Dups1MissesNone(e.op, e, [], [], q1, q2);
    }
    if At(e.op, e, q1).Junction? {
      Dups2MissesNone(e.op, e, [], [], q1, q2);
    }
  }

  lemma {:induction false} Dups1ReachesPair(op: Op, t: Expr, p1: Path, p2: Path, q1: Path, q2: Path)
    requires OnSpine(op, t, p1) && OnSpine(op, t, p2) && OnSpine(op, t, q1) && OnSpine(op, t, q2)
    requires p1 <= q1 && p2 <= q2
    requires !IsJunction(op, At(op, t, q1)) && !IsJunction(op, At(op, t, q2))
    requires Dups1(op, t, p1, p2).count == 0
    ensures Dups1Pair(op, t, q1, q2).count == 0
    decreases SpineSize(op, At(op, t, p1)) + SpineSize(op, At(op, t, p2))
  {
    hide Dups1, Dups1Pair, At, OnSpine;
    if IsJunction(op, At(op, t, p1)) {
      var d := NextTurn(op, t, p1, q1);
      Dups1Quiet(op, t, p1, p2, d);
      Dups1ReachesPair(op, t, p1 + [d], p2, q1, q2);
    } else if IsJunction(op, At(op, t, p2)) {
      var d := NextTurn(op, t, p2, q2);
      Dups1Quiet(op, t, p1, p2, d);
      Dups1ReachesPair(op, t, p1, p2 + [d], q1, q2);
    } else {
      LeafIsEnd(op, t, p1, q1);
      LeafIsEnd(op, t, p2, q2);
      Dups1Quiet(op, t, p1, p2, Left);
    }
  }

  lemma {:induction false} Dups2ReachesPair(op: Op, t: Expr, p1: Path, p2: Path, q1: Path, q2: Path)
    requires OnSpine(op, t, p1) && OnSpine(op, t, p2) && OnSpine(op, t, q1) && OnSpine(op, t, q2)
    requires p1 <= q1 && p2 <= q2
    requires !IsJunction(op, At(op, t, q1)) && !IsJunction(op, At(op, t, q2))
    requires Dups2(op, t, p1, p2).count == 0
    ensures Dups2Pair(op, t, q1, q2).count == 0
    decreases SpineSize(op, At(op, t, p1)) + SpineSize(op, At(op, t, p2))
  {
    hide Dups2, Dups2Pair, At, OnSpine;
    if IsJunction(op, At(op, t, p1)) {
      var d := NextTurn(op, t, p1, q1);
      Dups2Quiet(op, t, p1, p2, d);
      Dups2ReachesPair(op, t, p1 + [d], p2, q1, q2);
    } else if IsJunction(op, At(op, t, p2)) {
      var d := NextTurn(op, t, p2, q2);
      Dups2Quiet(op, t, p1, p2, d);
      Dups2ReachesPair(op, t, p1, p2 + [d], q1, q2);
    } else {
      LeafIsEnd(op, t, p1, q1);
      LeafIsEnd(op, t, p2, q2);
      Dups2Quiet(op, t, p1, p2, Left);
    }
  }

  /** The operands of an irreducible chain are irreducible themselves, and so are theirs. */
  lemma OperandsIrreducible(e: Expr, q1: Path, q2: Path)
    requires e.Junction? && Irreducible(e)
    requires OnSpine(e.op, e, q1) && OnSpine(e.op, e, q2) && q1 != q2
    requires !IsJunction(e.op, At(e.op, e, q1)) && !IsJunction(e.op, At(e.op, e, q2))
    ensures Irreducible(At(e.op, e, q1))
  {
    Dups1Effect(e.op, e, [], []);
    Dups1ReachesPair(e.op, e, [], [], q1, q2);
    Dups2ReachesPair(e.op, e, [], [], q1, q2);
    PairQuiet(e.op, e, q1, q2);
  }

  lemma PairQuiet(op: Op, t: Expr, q1: Path, q2: Path)
    requires OnSpine(op, t, q1) && OnSpine(op, t, q2) && q1 != q2
    requires !IsJunction(op, At(op, t, q1)) && !IsJunction(op, At(op, t, q2))
    requires Dups1Pair(op, t, q1, q2).count == 0 && Dups2Pair(op, t, q1, q2).count == 0
    ensures Irreducible(At(op, t, q1))
  {
    hide Join, Contradicts, HasYN, Normal;
    var x := At(op, t, q1);
    LeafBelowRoot(op, t, q1, q2);
    if x.Junction? {
      Dups1Effect(x.op, x, [], []);
      Dups2Effect(x.op, x, [], []);
      var inner := Dups1Operand(x);
      assert inner.count == 0;
    }
  }

  // expr_eliminate_dups

  /** Rounds until one counts nothing.  No round grows the tree, and one that counts
      something leaves a y or n for EliminateYN to strip. */
  function Reduced(e: Expr): (r: Expr)
    ensures Size(r) <= Size(e)
    decreases Size(e)
  {
    var o := Round(e);
    RoundEffect(e);
    EliminateYNStrips(o.tree);
    if o.count == 0 then e else Reduced(EliminateYN(o.tree))
  }

  /** Every verdict is kept, and nothing is left that a round would change. */
  lemma {:induction false} ReducedKeepsVerdicts(e: Expr)
    ensures Refines(e, Reduced(e))
    ensures Irreducible(Reduced(e))
    ensures Irreducible(e) ==> Reduced(e) == e
    ensures Normal(e) ==> Normal(Reduced(e))
    decreases Size(e)
  {
    var o := Round(e);
    RoundEffect(e);
    EliminateYNStrips(o.tree);
    if o.count != 0 {
      var next := EliminateYN(o.tree);
      ReducedKeepsVerdicts(next);
      forall v: Valuation | Typed(v)
        ensures Below(Value(e, v), Value(Reduced(e), v))
      {
        RoundRefines(e, v);
        EliminateYNKeepsValue(o.tree, v);
        assert Below(Value(next, v), Value(Reduced(next), v));
      }
    }
  }

  class Rewriter {
    /** The program's global counter of rewritings. */
    var transCount: nat

    constructor ()
      ensures transCount == 0
    {
      transCount := 0;
    }

    /** The loop of expr_eliminate_dups. */
    method EliminateDups(e: Expr) returns (r: Expr)
      modifies this
      ensures transCount == old(transCount)
      ensures r == Reduced(e)
      ensures Refines(e, r) && Irreducible(r)
      ensures Normal(e) ==> Normal(r)
    {
      hide Round, EliminateYN, Refines, HasYN;
      var oldcount := transCount;
      r := e;
      while true
        invariant Reduced(r) == Reduced(e)
        decreases Size(r)
      {
        transCount := 0;
        var o := Round(r);
        RoundEffect(r);
        transCount := transCount + o.count;
        if transCount == 0 {
          break;
        }
        EliminateYNStrips(o.tree);
        r := EliminateYN(o.tree);
      }
      transCount := oldcount;
      ReducedKeepsVerdicts(e);
    }
  }

  /** Where no symbol of the expression holds m, keeping verdicts is keeping the value. */
  lemma RefinesTwoValued(e: Expr, r: Expr, v: Valuation)
    requires Typed(v) && Refines(e, r)
    requires forall s :: s in Symbols(e) ==> v.tri(s) != MOD
    ensures Value(r, v) == Value(e, v)
  {
    TwoValued(e, v);
  }
}
