/** The two passes of expr_eliminate_dups (scripts/kconfig/expr.c).

    Both passes hold two `struct expr **`, each pointing at a slot of the same
    tree.  The tree is a value here and a slot is the path that leads to it through
    nodes of the pass's own type. */
module ExprDups {
  import opened Options
  import opened Tristates
  import opened Exprs
  import opened ExprTransform
  import opened ExprCancel
  import opened ExprJoin

  datatype Turn = Left | Right
  type Path = seq<Turn>

  function Child(e: Expr, d: Turn): Expr
    requires e.Junction?
  {
    if d == Left then e.left else e.right
  }

  /** The slots of the maximal chain of `op` nodes at the root of `t`. */
  predicate OnSpine(op: Op, t: Expr, p: Path) {
    p == [] || (IsJunction(op, t) && OnSpine(op, Child(t, p[0]), p[1..]))
  }

  function At(op: Op, t: Expr, p: Path): (r: Expr)
    requires OnSpine(op, t, p)
    ensures Size(r) <= Size(t)
    ensures p != [] ==> Size(r) < Size(t)
  {
    if p == [] then t else At(op, Child(t, p[0]), p[1..])
  }

  function Put(op: Op, t: Expr, p: Path, e: Expr): Expr
    requires OnSpine(op, t, p)
  {
    if p == [] then e
    else if p[0] == Left then Junction(op, Put(op, t.left, p[1..], e), t.right)
    else Junction(op, t.left, Put(op, t.right, p[1..], e))
  }

  /** The same chain of `op` nodes at the root. */
  predicate SameSpine(op: Op, t: Expr, u: Expr) {
    if IsJunction(op, t) then
      IsJunction(op, u) && SameSpine(op, t.left, u.left) && SameSpine(op, t.right, u.right)
    else !IsJunction(op, u)
  }

  function SpineSize(op: Op, t: Expr): nat {
    if IsJunction(op, t) then 1 + SpineSize(op, t.left) + SpineSize(op, t.right) else 0
  }

  function SpineSizeOf(t: Expr): nat {
    if t.Junction? then SpineSize(t.op, t) else 0
  }

  lemma {:induction false} SameSpineRefl(op: Op, t: Expr)
    ensures SameSpine(op, t, t)
  {
    if IsJunction(op, t) {
      SameSpineRefl(op, t.left);
      SameSpineRefl(op, t.right);
    }
  }

  lemma {:induction false} SameSpineTrans(op: Op, t: Expr, u: Expr, w: Expr)
    requires SameSpine(op, t, u) && SameSpine(op, u, w)
    ensures SameSpine(op, t, w)
  {
    if IsJunction(op, t) {
      SameSpineTrans(op, t.left, u.left, w.left);
      SameSpineTrans(op, t.right, u.right, w.right);
    }
  }

  /** A slot survives a change that keeps the chain, and what hangs there has the
      same chain too. */
  lemma {:induction false} SpineKept(op: Op, t: Expr, u: Expr, p: Path)
    requires SameSpine(op, t, u) && OnSpine(op, t, p)
    ensures OnSpine(op, u, p)
    ensures SameSpine(op, At(op, t, p), At(op, u, p))
  {
    if p != [] {
      SpineKept(op, Child(t, p[0]), Child(u, p[0]), p[1..]);
    }
  }

  lemma {:induction false} SameSpineSize(op: Op, t: Expr, u: Expr)
    requires SameSpine(op, t, u)
    ensures SpineSize(op, t) == SpineSize(op, u)
  {
    if IsJunction(op, t) {
      SameSpineSize(op, t.left, u.left);
      SameSpineSize(op, t.right, u.right);
    }
  }

  lemma {:induction false} OnSpineStep(op: Op, t: Expr, p: Path, d: Turn)
    requires OnSpine(op, t, p) && IsJunction(op, At(op, t, p))
    ensures OnSpine(op, t, p + [d]) && At(op, t, p + [d]) == Child(At(op, t, p), d)
  {
    if p == [] {
      assert [d][1..] == [];
    } else {
      OnSpineStep(op, Child(t, p[0]), p[1..], d);
      assert (p + [d])[1..] == p[1..] + [d];
    }
  }

  /** Replacing a leaf of the chain by something that is not an `op` node. */
  lemma {:induction false} PutLeaf(op: Op, t: Expr, p: Path, e: Expr)
    requires OnSpine(op, t, p) && !IsJunction(op, At(op, t, p)) && !IsJunction(op, e)
    ensures SameSpine(op, t, Put(op, t, p, e))
    ensures OnSpine(op, Put(op, t, p, e), p) && At(op, Put(op, t, p, e), p) == e
    ensures Size(Put(op, t, p, e)) == Size(t) - Size(At(op, t, p)) + Size(e)
    ensures e == At(op, t, p) ==> Put(op, t, p, e) == t
  {
    if p != [] {
      PutLeaf(op, Child(t, p[0]), p[1..], e);
      SameSpineRefl(op, Child(t, if p[0] == Left then Right else Left));
    }
  }

  /** Two different leaves of the chain do not overlap. */
  lemma {:induction false} PutElsewhere(op: Op, t: Expr, p: Path, q: Path, e: Expr)
    requires OnSpine(op, t, p) && !IsJunction(op, At(op, t, p))
    requires OnSpine(op, t, q) && !IsJunction(op, At(op, t, q))
    requires p != q
    ensures OnSpine(op, Put(op, t, p, e), q)
    ensures At(op, Put(op, t, p, e), q) == At(op, t, q)
  {
    if p != [] && q != [] && p[0] == q[0] {
      assert p == [p[0]] + p[1..] && q == [q[0]] + q[1..];
      PutElsewhere(op, Child(t, p[0]), p[1..], q[1..], e);
    }
  }

  /** How much a round changed: the new tree and the number of rewritings. */
  datatype Outcome = Outcome(tree: Expr, count: nat)

  // expr_eliminate_dups1: join pairs of operands

  function Dups1(op: Op, t: Expr, p1: Path, p2: Path): (r: Outcome)
    requires OnSpine(op, t, p1) && OnSpine(op, t, p2)
    ensures Size(r.tree) <= Size(t) && SameSpine(op, t, r.tree)
    decreases Size(t), SpineSize(op, At(op, t, p1)) + SpineSize(op, At(op, t, p2))
  {
    var e1, e2 := At(op, t, p1), At(op, t, p2);
    SameSpineRefl(op, t);
    if IsJunction(op, e1) then
      OnSpineStep(op, t, p1, Left); OnSpineStep(op, t, p1, Right);
      var o1 := Dups1(op, t, p1 + [Left], p2);
      SpineKept(op, t, o1.tree, p1 + [Right]); SpineKept(op, t, o1.tree, p2);
      SameSpineSize(op, Child(e1, Right), At(op, o1.tree, p1 + [Right]));
      SameSpineSize(op, e2, At(op, o1.tree, p2));
      var o2 := Dups1(op, o1.tree, p1 + [Right], p2);
      SameSpineTrans(op, t, o1.tree, o2.tree);
      Outcome(o2.tree, o1.count + o2.count)
    else if IsJunction(op, e2) then
      OnSpineStep(op, t, p2, Left); OnSpineStep(op, t, p2, Right);
      var o1 := Dups1(op, t, p1, p2 + [Left]);
      SpineKept(op, t, o1.tree, p2 + [Right]); SpineKept(op, t, o1.tree, p1);
      SameSpineSize(op, Child(e2, Right), At(op, o1.tree, p2 + [Right]));
      SameSpineSize(op, e1, At(op, o1.tree, p1));
      var o2 := Dups1(op, o1.tree, p1, p2 + [Right]);
      SameSpineTrans(op, t, o1.tree, o2.tree);
      Outcome(o2.tree, o1.count + o2.count)
    else
      Dups1Pair(op, t, p1, p2)
  }

  /** Two operands, neither of them an `op` node. */
  function Dups1Pair(op: Op, t: Expr, p1: Path, p2: Path): (r: Outcome)
    requires OnSpine(op, t, p1) && OnSpine(op, t, p2)
    requires !IsJunction(op, At(op, t, p1)) && !IsJunction(op, At(op, t, p2))
    ensures Size(r.tree) <= Size(t) && SameSpine(op, t, r.tree)
    decreases Size(t), 0, 0
  {
    var e1, e2 := At(op, t, p1), At(op, t, p2);
    SameSpineRefl(op, t);
    if p1 == p2 then
      Outcome(t, 0)
    else
      LeafBelowRoot(op, t, p1, p2);
      var inner := Dups1Operand(e1);
      PutLeaf(op, t, p1, inner.tree); PutElsewhere(op, t, p1, p2, inner.tree);
      var u := Put(op, t, p1, inner.tree);
      match Join(op, inner.tree, e2)
      case None => Outcome(u, inner.count)
      case Some(joined) =>
        JoinShape(op, inner.tree, e2);
        PutLeaf(op, u, p1, Unit(op)); PutElsewhere(op, u, p1, p2, Unit(op));
        var w := Put(op, u, p1, Unit(op));
        PutLeaf(op, w, p2, joined);
        SameSpineTrans(op, t, u, w); SameSpineTrans(op, t, w, Put(op, w, p2, joined));
        Outcome(Put(op, w, p2, joined), inner.count + 1)
  }

  /** An operand of the other type is cleaned up first, as a tree of its own. */
  function Dups1Operand(e: Expr): (r: Outcome)
    ensures Size(r.tree) <= Size(e)
    ensures if e.Junction? then IsJunction(e.op, r.tree) else r.tree == e
    decreases Size(e), SpineSizeOf(e) + SpineSizeOf(e) + 1
  {
    if e.Junction? then Dups1(e.op, e, [], []) else Outcome(e, 0)
  }

  // expr_eliminate_dups2: X && !X is n, X || !X is y

  /** !e1, split into operands, has every operand among those of e2. */
  predicate Contradicts(op: Op, e1: Expr, e2: Expr) {
    Extract(op, Transform(Not(e1)), e2).1 == Unit(op)
  }

  function Dups2(op: Op, t: Expr, p1: Path, p2: Path): (r: Outcome)
    requires OnSpine(op, t, p1) && OnSpine(op, t, p2)
    ensures Size(r.tree) <= Size(t) && SameSpine(op, t, r.tree)
    decreases Size(t), SpineSize(op, At(op, t, p1)) + SpineSize(op, At(op, t, p2))
  {
    var e1, e2 := At(op, t, p1), At(op, t, p2);
    SameSpineRefl(op, t);
    if IsJunction(op, e1) then
      OnSpineStep(op, t, p1, Left); OnSpineStep(op, t, p1, Right);
      var o1 := Dups2(op, t, p1 + [Left], p2);
      SpineKept(op, t, o1.tree, p1 + [Right]); SpineKept(op, t, o1.tree, p2);
      SameSpineSize(op, Child(e1, Right), At(op, o1.tree, p1 + [Right]));
      SameSpineSize(op, e2, At(op, o1.tree, p2));
      var o2 := Dups2(op, o1.tree, p1 + [Right], p2);
      SameSpineTrans(op, t, o1.tree, o2.tree);
      Outcome(o2.tree, o1.count + o2.count)
    else if IsJunction(op, e2) then
      // after both halves of e2 the program goes on and tries e2 as a whole
      OnSpineStep(op, t, p2, Left); OnSpineStep(op, t, p2, Right);
      var o1 := Dups2(op, t, p1, p2 + [Left]);
      SpineKept(op, t, o1.tree, p2 + [Right]); SpineKept(op, t, o1.tree, p1);
      SameSpineSize(op, Child(e2, Right), At(op, o1.tree, p2 + [Right]));
      SameSpineSize(op, e1, At(op, o1.tree, p1));
      var o2 := Dups2(op, o1.tree, p1, p2 + [Right]);
      SameSpineTrans(op, t, o1.tree, o2.tree);
      SpineKept(op, t, o2.tree, p1); SpineKept(op, t, o2.tree, p2);
      var o3 := Dups2Pair(op, o2.tree, p1, p2);
      SameSpineTrans(op, t, o2.tree, o3.tree);
      Outcome(o3.tree, o1.count + o2.count + o3.count)
    else
      Dups2Pair(op, t, p1, p2)
  }

  /** One operand against one chain: the part of the pass after the splitting. */
  function Dups2Pair(op: Op, t: Expr, p1: Path, p2: Path): (r: Outcome)
    requires OnSpine(op, t, p1) && OnSpine(op, t, p2)
    requires !IsJunction(op, At(op, t, p1))
    ensures Size(r.tree) <= Size(t) && SameSpine(op, t, r.tree)
    decreases Size(t), 0, 0
  {
    var e1 := At(op, t, p1);
    SameSpineRefl(op, t);
    if p1 == p2 || !e1.Junction? then
      Outcome(t, 0)
    else
      LeafBelowRoot(op, t, p1, p2);
      var inner := Dups2(e1.op, e1, [], []);
      PutLeaf(op, t, p1, inner.tree);
      var u := Put(op, t, p1, inner.tree);
      SpineKept(op, t, u, p2);
      if Contradicts(op, inner.tree, At(op, u, p2)) then
        PutLeaf(op, u, p1, Zero(op));
        SameSpineTrans(op, t, u, Put(op, u, p1, Zero(op)));
        Outcome(Put(op, u, p1, Zero(op)), inner.count + 1)
      else
        Outcome(u, inner.count)
  }

  lemma LeafBelowRoot(op: Op, t: Expr, p: Path, q: Path)
    requires OnSpine(op, t, p) && OnSpine(op, t, q) && p != q && !IsJunction(op, At(op, t, p))
    ensures p != []
  {
  }

  /** One turn of the loop in expr_eliminate_dups: both passes over the root. */
  function Round(e: Expr): (r: Outcome)
    ensures Size(r.tree) <= Size(e)
  {
    match e
    case Junction(op, _, _) =>
      var o1 := Dups1(op, e, [], []);
      var o2 := Dups2(op, o1.tree, [], []);
      Outcome(o2.tree, o1.count + o2.count)
    case _ => Outcome(e, 0)
  }

  // What a change at a slot means for the whole tree

  /** What the rest of the chain contributes besides the slot `p`. */
  function Rest(op: Op, t: Expr, p: Path, v: Valuation): Tristate
    requires OnSpine(op, t, p)
  {
    if p == [] then op.Identity()
    else Apply(op, Value(Child(t, if p[0] == Left then Right else Left), v), Rest(op, Child(t, p[0]), p[1..], v))
  }

  /** The value of the tree is the value at the slot joined with the rest, whatever
      hangs at the slot. */
  lemma {:induction false} SlotValue(op: Op, t: Expr, p: Path, e: Expr, v: Valuation)
    requires OnSpine(op, t, p)
    ensures Value(t, v) == Apply(op, Rest(op, t, p, v), Value(At(op, t, p), v))
    ensures Value(Put(op, t, p, e), v) == Apply(op, Rest(op, t, p, v), Value(e, v))
  {
    if p != [] {
      SlotValue(op, Child(t, p[0]), p[1..], e, v);
      var sibling, rest := Value(Child(t, if p[0] == Left then Right else Left), v), Rest(op, Child(t, p[0]), p[1..], v);
      ApplyRegroups(op, sibling, rest, Value(At(op, t, p), v));
      ApplyRegroups(op, sibling, rest, Value(e, v));
      ApplyRegroups(op, Value(t.left, v), Value(t.right, v), NO);
      ApplyRegroups(op, sibling, Value(Put(op, Child(t, p[0]), p[1..], e), v), NO);
    }
  }

  /** Under "and" the tree is at most the value at any slot, under "or" at least. */
  lemma SlotBounds(op: Op, t: Expr, p: Path, v: Valuation)
    requires OnSpine(op, t, p)
    ensures Apply(op, Value(t, v), Value(At(op, t, p), v)) == Value(t, v)
  {
    SlotValue(op, t, p, t, v);
  }

  /** Refining one slot refines the tree. */
  lemma PutRefines(op: Op, t: Expr, p: Path, e: Expr, v: Valuation)
    requires OnSpine(op, t, p) && Below(Value(At(op, t, p), v), Value(e, v))
    ensures Below(Value(t, v), Value(Put(op, t, p, e), v))
  {
    SlotValue(op, t, p, e, v);
  }

  /** Moving the joint value of two leaves into the second one keeps the value. */
  lemma MergeLeaves(op: Op, t: Expr, p: Path, q: Path, joined: Expr, v: Valuation)
    requires Typed(v)
    requires OnSpine(op, t, p) && !IsJunction(op, At(op, t, p))
    requires OnSpine(op, t, q) && !IsJunction(op, At(op, t, q)) && p != q
    requires Value(joined, v) == Apply(op, Value(At(op, t, p), v), Value(At(op, t, q), v))
    ensures OnSpine(op, Put(op, t, p, Unit(op)), q)
    ensures Value(Put(op, Put(op, t, p, Unit(op)), q, joined), v) == Value(t, v)
  {
    var u := Put(op, t, p, Unit(op));
    PutElsewhere(op, t, p, q, Unit(op));
    SlotValue(op, t, p, Unit(op), v);
    SlotValue(op, u, q, joined, v);
    MergeValues(op, Rest(op, t, p, v), Rest(op, u, q, v), Value(At(op, t, p), v), Value(At(op, t, q), v));
  }

  lemma MergeValues(op: Op, rest: Tristate, rest': Tristate, a: Tristate, b: Tristate)
    requires Apply(op, rest, op.Identity()) == Apply(op, rest', b)
    ensures Apply(op, rest', Apply(op, a, b)) == Apply(op, rest, a)
  {
  }

  lemma {:induction false} Dups1KeepsValue(op: Op, t: Expr, p1: Path, p2: Path, v: Valuation)
    requires Typed(v) && OnSpine(op, t, p1) && OnSpine(op, t, p2)
    ensures Value(Dups1(op, t, p1, p2).tree, v) == Value(t, v)
    decreases Size(t), SpineSize(op, At(op, t, p1)) + SpineSize(op, At(op, t, p2))
  {
    var e1, e2 := At(op, t, p1), At(op, t, p2);
    if IsJunction(op, e1) {
      OnSpineStep(op, t, p1, Left); OnSpineStep(op, t, p1, Right);
      var o1 := Dups1(op, t, p1 + [Left], p2);
      Dups1KeepsValue(op, t, p1 + [Left], p2, v);
      SpineKept(op, t, o1.tree, p1 + [Right]); SpineKept(op, t, o1.tree, p2);
      SameSpineSize(op, Child(e1, Right), At(op, o1.tree, p1 + [Right]));
      SameSpineSize(op, e2, At(op, o1.tree, p2));
      Dups1KeepsValue(op, o1.tree, p1 + [Right], p2, v);
    } else if IsJunction(op, e2) {
      OnSpineStep(op, t, p2, Left); OnSpineStep(op, t, p2, Right);
      var o1 := Dups1(op, t, p1, p2 + [Left]);
      Dups1KeepsValue(op, t, p1, p2 + [Left], v);
      SpineKept(op, t, o1.tree, p2 + [Right]); SpineKept(op, t, o1.tree, p1);
      SameSpineSize(op, Child(e2, Right), At(op, o1.tree, p2 + [Right]));
      SameSpineSize(op, e1, At(op, o1.tree, p1));
      Dups1KeepsValue(op, o1.tree, p1, p2 + [Right], v);
    } else {
      Dups1PairKeepsValue(op, t, p1, p2, v);
    }
  }

  lemma {:induction false} Dups1PairKeepsValue(op: Op, t: Expr, p1: Path, p2: Path, v: Valuation)
    requires Typed(v) && OnSpine(op, t, p1) && OnSpine(op, t, p2)
    requires !IsJunction(op, At(op, t, p1)) && !IsJunction(op, At(op, t, p2))
    ensures Value(Dups1Pair(op, t, p1, p2).tree, v) == Value(t, v)
    decreases Size(t), 0, 0
  {
    hide Join, Value;
    var e1, e2 := At(op, t, p1), At(op, t, p2);
    if p1 != p2 {
      LeafBelowRoot(op, t, p1, p2);
      var inner := Dups1Operand(e1);
      if e1.Junction? {
        Dups1KeepsValue(e1.op, e1, [], [], v);
      }
      PutLeaf(op, t, p1, inner.tree); PutElsewhere(op, t, p1, p2, inner.tree);
      var u := Put(op, t, p1, inner.tree);
      SlotValue(op, t, p1, inner.tree, v);
      assert Value(u, v) == Value(t, v);
      if Join(op, inner.tree, e2).Some? {
        JoinedLeaves(op, u, p1, p2, v);
      }
    }
  }

  lemma JoinedLeaves(op: Op, u: Expr, p1: Path, p2: Path, v: Valuation)
    requires Typed(v) && OnSpine(op, u, p1) && OnSpine(op, u, p2) && p1 != p2
    requires !IsJunction(op, At(op, u, p1)) && !IsJunction(op, At(op, u, p2))
    requires Join(op, At(op, u, p1), At(op, u, p2)).Some?
    ensures
      var w, joined := Put(op, u, p1, Unit(op)), Join(op, At(op, u, p1), At(op, u, p2)).value;
      OnSpine(op, w, p2) && Value(Put(op, w, p2, joined), v) == Value(u, v)
  {
    hide Join, Value;
    JoinKeepsValue(op, At(op, u, p1), At(op, u, p2), v);
    MergeLeaves(op, u, p1, p2, Join(op, At(op, u, p1), At(op, u, p2)).value, v);
  }

  /** An operand that contradicts its own chain can be replaced by the constant
      that decides the chain: no n or y is lost. */
  lemma ContradictionRefines(op: Op, t: Expr, p1: Path, p2: Path, v: Valuation)
    requires Typed(v) && OnSpine(op, t, p1) && OnSpine(op, t, p2)
    requires Contradicts(op, At(op, t, p1), At(op, t, p2))
    ensures Below(Value(t, v), Value(Put(op, t, p1, Zero(op)), v))
  {
    var e1, e2 := At(op, t, p1), At(op, t, p2);
    SlotBounds(op, t, p1, v);
    SlotBounds(op, t, p2, v);
    ExtractFactors(op, Transform(Not(e1)), e2, v);
    TransformKeepsValue(Not(e1), v);
    SlotValue(op, t, p1, Zero(op), v);
    var (c, r1, r2) := Extract(op, Transform(Not(e1)), e2);
    ContradictionValues(op, Value(t, v), Value(e1, v), Value(e2, v), CommonValue(op, c, v), Value(r2, v));
  }

  /** With !a == c and b == c op r, a value that both a and b bound is m or already
      the deciding constant. */
  lemma ContradictionValues(op: Op, whole: Tristate, a: Tristate, b: Tristate, c: Tristate, r: Tristate)
    requires Apply(op, whole, a) == whole && Apply(op, whole, b) == whole
    requires Negate(a) == Apply(op, c, op.Identity()) && b == Apply(op, c, r)
    ensures Below(whole, op.Absorber())
  {
  }

  lemma {:induction false} Dups2Refines(op: Op, t: Expr, p1: Path, p2: Path, v: Valuation)
    requires Typed(v) && OnSpine(op, t, p1) && OnSpine(op, t, p2)
    ensures Below(Value(t, v), Value(Dups2(op, t, p1, p2).tree, v))
    decreases Size(t), SpineSize(op, At(op, t, p1)) + SpineSize(op, At(op, t, p2))
  {
    var e1, e2 := At(op, t, p1), At(op, t, p2);
    if IsJunction(op, e1) {
      OnSpineStep(op, t, p1, Left); OnSpineStep(op, t, p1, Right);
      var o1 := Dups2(op, t, p1 + [Left], p2);
      Dups2Refines(op, t, p1 + [Left], p2, v);
      SpineKept(op, t, o1.tree, p1 + [Right]); SpineKept(op, t, o1.tree, p2);
      SameSpineSize(op, Child(e1, Right), At(op, o1.tree, p1 + [Right]));
      SameSpineSize(op, e2, At(op, o1.tree, p2));
      Dups2Refines(op, o1.tree, p1 + [Right], p2, v);
    } else if IsJunction(op, e2) {
      OnSpineStep(op, t, p2, Left); OnSpineStep(op, t, p2, Right);
      var o1 := Dups2(op, t, p1, p2 + [Left]);
      Dups2Refines(op, t, p1, p2 + [Left], v);
      SpineKept(op, t, o1.tree, p2 + [Right]); SpineKept(op, t, o1.tree, p1);
      SameSpineSize(op, Child(e2, Right), At(op, o1.tree, p2 + [Right]));
      SameSpineSize(op, e1, At(op, o1.tree, p1));
      var o2 := Dups2(op, o1.tree, p1, p2 + [Right]);
      Dups2Refines(op, o1.tree, p1, p2 + [Right], v);
      SameSpineTrans(op, t, o1.tree, o2.tree);
      SpineKept(op, t, o2.tree, p1); SpineKept(op, t, o2.tree, p2);
      Dups2PairRefines(op, o2.tree, p1, p2, v);
    } else {
      Dups2PairRefines(op, t, p1, p2, v);
    }
  }

  lemma {:induction false} Dups2PairRefines(op: Op, t: Expr, p1: Path, p2: Path, v: Valuation)
    requires Typed(v) && OnSpine(op, t, p1) && OnSpine(op, t, p2) && !IsJunction(op, At(op, t, p1))
    ensures Below(Value(t, v), Value(Dups2Pair(op, t, p1, p2).tree, v))
    decreases Size(t), 0, 0
  {
    var e1 := At(op, t, p1);
    if p1 != p2 && e1.Junction? {
      LeafBelowRoot(op, t, p1, p2);
      var inner := Dups2(e1.op, e1, [], []);
      Dups2Refines(e1.op, e1, [], [], v);
      PutLeaf(op, t, p1, inner.tree);
      PutRefines(op, t, p1, inner.tree, v);
      var u := Put(op, t, p1, inner.tree);
      SpineKept(op, t, u, p2);
      if Contradicts(op, inner.tree, At(op, u, p2)) {
        ContradictionRefines(op, u, p1, p2, v);
      }
    }
  }

  lemma RoundRefines(e: Expr, v: Valuation)
    requires Typed(v)
    ensures Below(Value(e, v), Value(Round(e).tree, v))
  {
    if e.Junction? {
      Dups1KeepsValue(e.op, e, [], [], v);
      Dups2Refines(e.op, Dups1(e.op, e, [], []).tree, [], [], v);
    }
  }
}
