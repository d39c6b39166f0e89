/** When expr_eq finds an expression equal to itself (scripts/kconfig/expr.c). */
module ExprSelfEq {
  import opened Tristates
  import opened Exprs
  import opened ExprTransform
  import opened ExprCancel

  // Cancelling seen as a pairing of two lists of operands

  function Leaves(op: Op, e: Expr): (r: seq<Expr>)
    ensures |r| >= 1
  {
    if IsJunction(op, e) then Leaves(op, e.left) + Leaves(op, e.right) else [e]
  }

  /** The two are equal, and not a constant that is left alone. */
  predicate Pairs(x: Expr, y: Expr) {
    Eq(x, y) && !FixedConstant(x)
  }

  function CancelOne(op: Op, x: Expr, ys: seq<Expr>): (r: (Expr, seq<Expr>))
    ensures |r.1| == |ys|
    decreases |ys|
  {
    if ys == [] then (x, [])
    else if Pairs(x, ys[0]) then
      var (x', rest) := CancelOne(op, Unit(op), ys[1..]);
      (x', [Unit(op)] + rest)
    else
      var (x', rest) := CancelOne(op, x, ys[1..]);
      (x', [ys[0]] + rest)
  }

  function CancelAll(op: Op, xs: seq<Expr>, ys: seq<Expr>): (r: (seq<Expr>, seq<Expr>))
    ensures |r.0| == |xs| && |r.1| == |ys|
  {
    if xs == [] then ([], ys)
    else
      var (x, ys') := CancelOne(op, xs[0], ys);
      var (xs', ys'') := CancelAll(op, xs[1..], ys');
      ([x] + xs', ys'')
  }

  lemma {:induction false} CancelOneConcat(op: Op, x: Expr, ys: seq<Expr>, zs: seq<Expr>)
    ensures var (x1, ys') := CancelOne(op, x, ys);
            var (x2, zs') := CancelOne(op, x1, zs);
            CancelOne(op, x, ys + zs) == (x2, ys' + zs')
    decreases |ys|
  {
    hide Eq;
    if ys == [] {
      var (x2, zs') := CancelOne(op, x, zs);
      assert ys + zs == zs && [] + zs' == zs';
    } else {
      assert (ys + zs)[0] == ys[0] && (ys + zs)[1..] == ys[1..] + zs;
      var y := if Pairs(x, ys[0]) then Unit(op) else ys[0];
      var x' := if Pairs(x, ys[0]) then Unit(op) else x;
      CancelOneConcat(op, x', ys[1..], zs);
      var (x1, rest) := CancelOne(op, x', ys[1..]);
      var (x2, zs') := CancelOne(op, x1, zs);
      assert [y] + (rest + zs') == [y] + rest + zs';
    }
  }

  lemma {:induction false} CancelAllConcat(op: Op, xs: seq<Expr>, zs: seq<Expr>, ys: seq<Expr>)
    ensures var (xs', ys1) := CancelAll(op, xs, ys);
            var (zs', ys2) := CancelAll(op, zs, ys1);
            CancelAll(op, xs + zs, ys) == (xs' + zs', ys2)
  {
    hide Eq;
    if xs == [] {
      var (zs', ys2) := CancelAll(op, zs, ys);
      assert xs + zs == zs && [] + zs' == zs';
    } else {
      assert (xs + zs)[0] == xs[0] && (xs + zs)[1..] == xs[1..] + zs;
      var (x, ys') := CancelOne(op, xs[0], ys);
      CancelAllConcat(op, xs[1..], zs, ys');
      var (xs', ys1) := CancelAll(op, xs[1..], ys');
      var (zs', ys2) := CancelAll(op, zs, ys1);
      assert [x] + (xs' + zs') == [x] + xs' + zs';
    }
  }

  lemma EqOfFixed(x: Expr, y: Expr)
    requires Eq(x, y)
    ensures FixedConstant(x) || FixedConstant(y) ==> x == y
  {
  }

  lemma CancelOneIsPair(op: Op, x: Expr, y: Expr)
    ensures CancelOne(op, x, [y]) == if Pairs(x, y) then (Unit(op), [Unit(op)]) else (x, [y])
  {
    hide Eq;
    assert [y][1..] == [];
    assert [Unit(op)] + [] == [Unit(op)] && [y] + [] == [y];
  }

  lemma OneCancelled(op: Op, x: Expr, e: Expr)
    requires !IsJunction(op, x)
    ensures CancelAll(op, Leaves(op, x), Leaves(op, e))
         == ([CancelOne(op, x, Leaves(op, e)).0], CancelOne(op, x, Leaves(op, e)).1)
  {
    hide Eq;
    assert [x][1..] == [];
    var (x', ys) := CancelOne(op, x, Leaves(op, e));
    assert CancelAll(op, [], ys) == ([], ys) && [x'] + [] == [x'];
  }

  lemma {:induction false} CancelOneLeaves(op: Op, e1: Expr, e2: Expr)
    requires !IsJunction(op, e1)
    ensures var (f1, f2) := CancelOperands(op, e1, e2);
            !IsJunction(op, f1) && CancelOne(op, e1, Leaves(op, e2)) == (f1, Leaves(op, f2))
    decreases Size(e2)
  {
    hide Eq, EliminateYN, CancelOne;
    if IsJunction(op, e2) {
      var (e1', l) := CancelOperands(op, e1, e2.left);
      CancelOneLeaves(op, e1, e2.left);
      CancelOneLeaves(op, e1', e2.right);
      CancelOneConcat(op, e1, Leaves(op, e2.left), Leaves(op, e2.right));
    } else {
      if Eq(e1, e2) {
        EqOfFixed(e1, e2);
      }
      CancelOneIsPair(op, e1, e2);
    }
  }

  /** The operands left by __expr_eliminate_eq are those of the pairing. */
  lemma {:induction false} LeavesOfCancelled(op: Op, e1: Expr, e2: Expr)
    ensures var (f1, f2) := CancelOperands(op, e1, e2);
            CancelAll(op, Leaves(op, e1), Leaves(op, e2)) == (Leaves(op, f1), Leaves(op, f2))
    decreases Size(e1)
  {
    hide Eq, EliminateYN, CancelAll, CancelOne;
    if IsJunction(op, e1) {
      var (l, e2') := CancelOperands(op, e1.left, e2);
      LeavesOfCancelled(op, e1.left, e2);
      LeavesOfCancelled(op, e1.right, e2');
      CancelAllConcat(op, Leaves(op, e1.left), Leaves(op, e1.right), Leaves(op, e2));
    } else {
      CancelOneLeaves(op, e1, e2);
      OneCancelled(op, e1, e2);
    }
  }

  /** An operand is paired with the first one that is equal to it, and then no more. */
  lemma {:induction false} CancelOneIs(op: Op, x: Expr, ys: seq<Expr>) returns (k: nat)
    ensures k <= |ys| && forall j :: 0 <= j < k ==> !Pairs(x, ys[j])
    ensures k < |ys| ==> Pairs(x, ys[k]) && CancelOne(op, x, ys) == (Unit(op), ys[k := Unit(op)])
    ensures k == |ys| ==> CancelOne(op, x, ys) == (x, ys)
  {
    hide Eq;
    if ys == [] {
      k := 0;
    } else if Pairs(x, ys[0]) {
      k := 0;
      UnitPairsNone(op, ys[1..]);
      assert ys[0 := Unit(op)] == [Unit(op)] + ys[1..];
    } else {
      var j := CancelOneIs(op, x, ys[1..]);
      k := j + 1;
      assert j < |ys[1..]| ==> ys[k := Unit(op)] == [ys[0]] + ys[1..][j := Unit(op)];
      assert ys == [ys[0]] + ys[1..];
    }
  }

  lemma {:induction false} UnitPairsNone(op: Op, ys: seq<Expr>)
    ensures CancelOne(op, Unit(op), ys) == (Unit(op), ys)
  {
    hide Eq;
    if ys != [] {
      UnitPairsNone(op, ys[1..]);
      assert ys == [ys[0]] + ys[1..];
    }
  }

  /** Every operand either stays or is paired with one of the other side. */
  lemma {:induction false} CancelAccounts(op: Op, xs: seq<Expr>, ys: seq<Expr>)
    ensures var (xs', ys') := CancelAll(op, xs, ys);
            && (forall i :: 0 <= i < |xs| ==> xs'[i] == xs[i] || (xs'[i] == Unit(op) && exists y :: y in ys && Pairs(xs[i], y)))
            && (forall i :: 0 <= i < |ys| ==> ys'[i] == ys[i] || (ys'[i] == Unit(op) && exists x :: x in xs && Pairs(x, ys[i])))
  {
    hide Eq;
    if xs != [] {
      var (x, ys1) := CancelOne(op, xs[0], ys);
      var k := CancelOneIs(op, xs[0], ys);
      CancelAccounts(op, xs[1..], ys1);
      var (xs2, ys2) := CancelAll(op, xs[1..], ys1);
      forall i | 1 <= i < |xs| && xs2[i - 1] != xs[i]
        ensures exists y :: y in ys && Pairs(xs[i], y)
      {
        var y :| y in ys1 && Pairs(xs[i], y);
        PairsNoUnit(op, xs[i], y);
        assert y in ys;
      }
      forall i | 0 <= i < |ys| && ys2[i] != ys[i]
        ensures ys2[i] == Unit(op) && exists x :: x in xs && Pairs(x, ys[i])
      {
        if ys1[i] == ys[i] {
          var x :| x in xs[1..] && Pairs(x, ys[i]);
          assert x in xs;
        } else {
          assert i == k && Pairs(xs[0], ys[i]);
        }
      }
      assert CancelAll(op, xs, ys) == ([x] + xs2, ys2);
    }
  }

  lemma PairsNoUnit(op: Op, x: Expr, y: Expr)
    requires Pairs(x, y)
    ensures y != Unit(op)
  {
    EqOfFixed(x, y);
  }

  // What stripping y and n leaves of a chain

  function Visible(op: Op, xs: seq<Expr>): seq<Expr> {
    if xs == [] then []
    else (if EliminateYN(xs[0]) == Unit(op) then [] else [EliminateYN(xs[0])]) + Visible(op, xs[1..])
  }

  lemma {:induction false} VisibleConcat(op: Op, xs: seq<Expr>, ys: seq<Expr>)
    ensures Visible(op, xs + ys) == Visible(op, xs) + Visible(op, ys)
  {
    hide EliminateYN;
    if xs == [] {
      assert xs + ys == ys;
    } else {
      assert (xs + ys)[1..] == xs[1..] + ys;
      VisibleConcat(op, xs[1..], ys);
    }
  }

  /** These operands strip to a single symbol. */
  predicate Settles(op: Op, k: seq<Expr>) {
    Zero(op) in k || k == [] || (|k| == 1 && k[0].Sym?)
  }

  lemma {:induction false} StrippedIs(op: Op, e: Expr)
    ensures var k := Visible(op, Leaves(op, e));
            && (Zero(op) in k ==> EliminateYN(e) == Zero(op))
            && (k == [] <==> EliminateYN(e) == Unit(op))
            && (Zero(op) !in k && |k| == 1 ==> EliminateYN(e) == k[0])
            && (Zero(op) !in k && |k| > 1 ==> IsJunction(op, EliminateYN(e)))
            && (forall x :: x in k ==> x != Unit(op))
  {
    if IsJunction(op, e) {
      StrippedIs(op, e.left);
      StrippedIs(op, e.right);
      VisibleConcat(op, Leaves(op, e.left), Leaves(op, e.right));
    } else {
      assert Visible(op, [e]) == if EliminateYN(e) == Unit(op) then [] else [EliminateYN(e)];
    }
  }

  lemma {:induction false} VisibleMembers(op: Op, xs: seq<Expr>, z: Expr)
    ensures z in Visible(op, xs) <==> z != Unit(op) && exists i :: 0 <= i < |xs| && EliminateYN(xs[i]) == z
  {
    hide EliminateYN;
    if xs != [] {
      VisibleMembers(op, xs[1..], z);
      assert forall i :: 1 <= i < |xs| ==> xs[i] == xs[1..][i - 1];
      if i :| 0 <= i < |xs[1..]| && EliminateYN(xs[1..][i]) == z {
        assert EliminateYN(xs[i + 1]) == z;
      }
    }
  }

  /** A chain strips to its absorbing constant if some operand does, and to its identity
      if all operands do. */
  lemma StrippedBy(op: Op, e: Expr)
    ensures EliminateYN(e) == Zero(op) <==> SomeStripsTo(Leaves(op, e), Zero(op))
    ensures EliminateYN(e) == Unit(op) <==> AllStripTo(Leaves(op, e), Unit(op))
    ensures EliminateYN(e).Sym? <==> Settles(op, Visible(op, Leaves(op, e)))
  {
    hide EliminateYN;
    var xs := Leaves(op, e);
    var k := Visible(op, xs);
    StrippedIs(op, e);
    VisibleMembers(op, xs, Zero(op));
    forall i | 0 <= i < |xs|
      ensures EliminateYN(xs[i]) == Unit(op) || EliminateYN(xs[i]) in k
    {
      VisibleMembers(op, xs, EliminateYN(xs[i]));
    }
    if k != [] {
      VisibleMembers(op, xs, k[0]);
      assert k[0] in k;
    }
  }

  lemma {:induction false} LeafSizes(op: Op, e: Expr)
    ensures forall x :: x in Leaves(op, e) ==> !IsJunction(op, x) && Size(x) <= Size(e)
    ensures IsJunction(op, e) ==> forall x :: x in Leaves(op, e) ==> Size(x) < Size(e)
  {
    if IsJunction(op, e) {
      LeafSizes(op, e.left);
      LeafSizes(op, e.right);
    }
  }

  /** Both strip to the same of y and n, or neither does. */
  predicate SameYN(x: Expr, y: Expr) {
    IsYN(EliminateYN(x)) || IsYN(EliminateYN(y)) ==> EliminateYN(x) == EliminateYN(y)
  }

  lemma UnitAndZero(op: Op)
    ensures EliminateYN(Unit(op)) == Unit(op) && Unit(op) != Zero(op) && IsYN(Zero(op)) && IsYN(Unit(op))
  {
  }

  ghost predicate Accounted(op: Op, xs: seq<Expr>, xs': seq<Expr>, ys: seq<Expr>) {
    && |xs'| == |xs|
    && forall i :: 0 <= i < |xs| ==> xs'[i] == xs[i] || (xs'[i] == Unit(op) && exists y :: y in ys && SameYN(xs[i], y))
  }

  ghost predicate SomeStripsTo(xs: seq<Expr>, z: Expr) {
    exists i :: 0 <= i < |xs| && EliminateYN(xs[i]) == z
  }

  ghost predicate AllStripTo(xs: seq<Expr>, z: Expr) {
    forall i :: 0 <= i < |xs| ==> EliminateYN(xs[i]) == z
  }

  lemma ZeroAlike(op: Op, xs: seq<Expr>, ys: seq<Expr>, xs': seq<Expr>, ys': seq<Expr>)
    requires Accounted(op, xs, xs', ys) && Accounted(op, ys, ys', xs)
    requires SomeStripsTo(xs', Zero(op)) ==> SomeStripsTo(ys', Zero(op))
    ensures SomeStripsTo(xs, Zero(op)) ==> SomeStripsTo(ys, Zero(op))
  {
    hide EliminateYN, IsYN, Unit, Zero;
    UnitAndZero(op);
    if i :| 0 <= i < |xs| && EliminateYN(xs[i]) == Zero(op) {
      if xs'[i] == xs[i] {
        var j :| 0 <= j < |ys'| && EliminateYN(ys'[j]) == Zero(op);
        assert ys'[j] == ys[j];
      } else {
        var y :| y in ys && SameYN(xs[i], y);
        var j :| 0 <= j < |ys| && ys[j] == y;
      }
    }
  }

  lemma UnitAlike(op: Op, xs: seq<Expr>, ys: seq<Expr>, xs': seq<Expr>, ys': seq<Expr>)
    requires Accounted(op, xs, xs', ys) && Accounted(op, ys, ys', xs)
    requires AllStripTo(xs', Unit(op)) ==> AllStripTo(ys', Unit(op))
    ensures AllStripTo(xs, Unit(op)) ==> AllStripTo(ys, Unit(op))
  {
    hide EliminateYN, IsYN, Unit, Zero;
    UnitAndZero(op);
    if AllStripTo(xs, Unit(op)) {
      assert AllStripTo(xs', Unit(op));
      forall j | 0 <= j < |ys|
        ensures EliminateYN(ys[j]) == Unit(op)
      {
        if ys'[j] != ys[j] {
          var x :| x in xs && SameYN(ys[j], x);
        }
      }
    }
  }

  /** If what is left of both sides strips alike, the sides do. */
  lemma StripAlike(op: Op, e1: Expr, e2: Expr, f1: Expr, f2: Expr)
    requires Accounted(op, Leaves(op, e1), Leaves(op, f1), Leaves(op, e2))
    requires Accounted(op, Leaves(op, e2), Leaves(op, f2), Leaves(op, e1))
    requires EliminateYN(f1) == EliminateYN(f2)
    ensures EliminateYN(e1) == Zero(op) ==> EliminateYN(e2) == Zero(op)
    ensures EliminateYN(e1) == Unit(op) ==> EliminateYN(e2) == Unit(op)
  {
    hide EliminateYN, Leaves, Unit, Zero, Accounted, SomeStripsTo, AllStripTo, Visible, Settles;
    StrippedBy(op, e1);
    StrippedBy(op, e2);
    StrippedBy(op, f1);
    StrippedBy(op, f2);
    ZeroAlike(op, Leaves(op, e1), Leaves(op, e2), Leaves(op, f1), Leaves(op, f2));
    UnitAlike(op, Leaves(op, e1), Leaves(op, e2), Leaves(op, f1), Leaves(op, f2));
  }

  /** Equal expressions strip to the same of y and n. */
  lemma {:induction false} EqStripsAlike(e1: Expr, e2: Expr)
    requires Eq(e1, e2)
    ensures SameYN(e1, e2)
    decreases Size(e1) + Size(e2), 1
  {
    if e1.Junction? {
      ChainsStripAlike(e1.op, e1, e2);
    }
  }

  lemma {:induction false} ChainsStripAlike(op: Op, e1: Expr, e2: Expr)
    requires Eq(e1, e2) && IsJunction(op, e1) && IsJunction(op, e2)
    ensures SameYN(e1, e2)
    decreases Size(e1) + Size(e2), 0
  {
    hide Eq, EliminateYN, Leaves, CancelAll, CancelOperands, Size, IsYN, Unit, Zero;
    var (f1, f2) := CancelOperands(op, e1, e2);
    var xs, ys := Leaves(op, e1), Leaves(op, e2);
    CancelledJunction(op, e1, e2);
    LeavesOfCancelled(op, e1, e2);
    CancelAccounts(op, xs, ys);
    LeafSizes(op, e1);
    LeafSizes(op, e2);
    forall x, y | x in xs && y in ys && Pairs(x, y)
      ensures SameYN(x, y) && SameYN(y, x)
    {
      EqStripsAlike(x, y);
    }
    StripAlike(op, e1, e2, f1, f2);
    StripAlike(op, e2, e1, f2, f1);
    YNIsUnitOrZero(op);
  }

  lemma YNIsUnitOrZero(op: Op)
    ensures forall x :: IsYN(x) <==> x == Unit(op) || x == Zero(op)
  {
  }

  lemma {:induction false} StillChain(op: Op, e1: Expr, e2: Expr)
    requires IsJunction(op, e2)
    ensures IsJunction(op, CancelOperands(op, e1, e2).1)
    decreases Size(e1)
  {
    hide Eq;
    if IsJunction(op, e1) {
      StillChain(op, e1.left, e2);
      StillChain(op, e1.right, CancelOperands(op, e1.left, e2).1);
    }
  }

  /** expr_eq of two junctions of the same kind. */
  lemma CancelledJunction(op: Op, e1: Expr, e2: Expr)
    requires IsJunction(op, e1) && IsJunction(op, e2)
    ensures var (f1, f2) := CancelOperands(op, e1, e2);
            Eq(e1, e2) <==> EliminateYN(f1).Sym? && EliminateYN(f1) == EliminateYN(f2)
  {
    hide EliminateYN, CancelOperands;
    StillChain(op, e1, e2);
    ChainFirst(op, e1, e2);
  }

  lemma ChainFirst(op: Op, e1: Expr, e2: Expr)
    requires IsJunction(op, e1)
    ensures IsJunction(op, CancelOperands(op, e1, e2).0)
  {
    hide Eq, EliminateYN;
  }

  // Cancelling a chain against itself

  /** Operands that are not found equal to themselves, stripped. */
  function Remaining(op: Op, xs: seq<Expr>): seq<Expr> {
    if xs == [] then []
    else (if Pairs(xs[0], xs[0]) || EliminateYN(xs[0]) == Unit(op) then [] else [EliminateYN(xs[0])]) + Remaining(op, xs[1..])
  }

  predicate Matchable(op: Op, x: Expr) {
    Pairs(x, x) || EliminateYN(x) == Unit(op)
  }

  /** Only operands equal to themselves are paired, or ones that vanish anyway. */
  ghost predicate PairsWell(op: Op, xs: seq<Expr>) {
    forall x, y :: x in xs && y in xs && Pairs(x, y) ==> Matchable(op, x) && Matchable(op, y)
  }

  /** The right side `ys` of a chain `xs` when its first `i` operands have been dealt
      with: an operand that shows and is equal to itself has been paired with itself. */
  ghost predicate Half(op: Op, xs: seq<Expr>, ys: seq<Expr>, i: nat) {
    && |ys| == |xs|
    && forall j :: 0 <= j < |xs| ==>
         if EliminateYN(xs[j]) == Unit(op) then ys[j] == xs[j] || ys[j] == Unit(op)
         else ys[j] == if Pairs(xs[j], xs[j]) && j < i then Unit(op) else xs[j]
  }

  /** What can be paired with an operand that shows. */
  lemma HalfPair(op: Op, xs: seq<Expr>, ys: seq<Expr>, i: nat, x: Expr, k: nat)
    requires PairsWell(op, xs) && Half(op, xs, ys, i) && x in xs && k < |xs| && Pairs(x, ys[k])
    ensures ys[k] == xs[k] && SameYN(x, xs[k]) && Matchable(op, x) && Matchable(op, xs[k])
  {
    hide Eq, EliminateYN;
    PairsNoUnit(op, x, ys[k]);
    assert xs[k] in xs;
    EqStripsAlike(x, xs[k]);
  }

  lemma HalfStep(op: Op, xs: seq<Expr>, ys: seq<Expr>, i: nat)
    requires PairsWell(op, xs) && Half(op, xs, ys, i) && i < |xs|
    ensures var (x, ys') := CancelOne(op, xs[i], ys);
            Half(op, xs, ys', i + 1) && Visible(op, [x]) == Remaining(op, [xs[i]])
  {
    hide EliminateYN, Eq, IsYN, Unit, Zero, PairsWell, CancelOne, Matchable;
    var x := xs[i];
    UnitAndZero(op);
    var k := CancelOneIs(op, x, ys);
    if k < |ys| {
      HalfPair(op, xs, ys, i, x, k);
    }
    HalfStepOf(op, xs, ys, i, k);
  }

  lemma HalfStepOf(op: Op, xs: seq<Expr>, ys: seq<Expr>, i: nat, k: nat)
    requires Half(op, xs, ys, i) && i < |xs| && k <= |xs|
    requires forall j :: 0 <= j < k ==> !Pairs(xs[i], ys[j])
    requires k < |xs| ==>
      && Pairs(xs[i], ys[k]) && ys[k] == xs[k] && SameYN(xs[i], xs[k])
      && Matchable(op, xs[i]) && Matchable(op, xs[k])
    ensures var x := if k < |xs| then Unit(op) else xs[i];
            var ys' := if k < |xs| then ys[k := Unit(op)] else ys;
            Half(op, xs, ys', i + 1) && Visible(op, [x]) == Remaining(op, [xs[i]])
  {
    hide EliminateYN, Eq, Unit, Zero, IsYN;
    UnitAndZero(op);
    assert [xs[i]][1..] == [] && [Unit(op)][1..] == [];
  }

  lemma {:induction false} HalfOn(op: Op, xs: seq<Expr>, ys: seq<Expr>, i: nat)
    requires PairsWell(op, xs) && Half(op, xs, ys, i) && i <= |xs|
    ensures var (xs', ys') := CancelAll(op, xs[i..], ys);
            Half(op, xs, ys', |xs|) && Visible(op, xs') == Remaining(op, xs[i..])
    decreases |xs| - i
  {
    hide Eq, EliminateYN, Half, PairsWell, CancelOne, Pairs;
    if i < |xs| {
      HalfStep(op, xs, ys, i);
      var (x, ys') := CancelOne(op, xs[i], ys);
      HalfOn(op, xs, ys', i + 1);
      var (rest, ys'') := CancelAll(op, xs[i + 1..], ys');
      assert xs[i..][0] == xs[i] && xs[i..][1..] == xs[i + 1..] && xs[i..] == [xs[i]] + xs[i + 1..];
      VisibleConcat(op, [x], rest);
      RemainingConcat(op, [xs[i]], xs[i + 1..]);
    } else {
      assert xs[i..] == [];
    }
  }

  lemma {:induction false} RemainingConcat(op: Op, xs: seq<Expr>, ys: seq<Expr>)
    ensures Remaining(op, xs + ys) == Remaining(op, xs) + Remaining(op, ys)
  {
    hide EliminateYN, Eq, Pairs;
    if xs == [] {
      assert xs + ys == ys;
    } else {
      assert (xs + ys)[0] == xs[0] && (xs + ys)[1..] == xs[1..] + ys;
      RemainingConcat(op, xs[1..], ys);
    }
  }

  lemma {:induction false} HalfDone(op: Op, xs: seq<Expr>, ys: seq<Expr>, i: nat)
    requires Half(op, xs, ys, |xs|) && i <= |xs|
    ensures Visible(op, ys[i..]) == Remaining(op, xs[i..])
    decreases |xs| - i
  {
    hide EliminateYN, Eq, Pairs, Unit;
    UnitAndZero(op);
    if i < |xs| {
      HalfDone(op, xs, ys, i + 1);
      assert xs[i..][1..] == xs[i + 1..] && ys[i..][1..] == ys[i + 1..];
    }
  }

  /** A chain is equal to itself exactly if its remaining operands strip to a symbol. */
  lemma ChainEqualsItself(op: Op, e: Expr)
    requires IsJunction(op, e) && PairsWell(op, Leaves(op, e))
    ensures Eq(e, e) <==> Settles(op, Remaining(op, Leaves(op, e)))
  {
    hide Eq, EliminateYN, CancelOperands, CancelAll, Half, PairsWell, Visible, Remaining, Leaves, Settles;
    var xs := Leaves(op, e);
    var (f1, f2) := CancelOperands(op, e, e);
    LeavesOfCancelled(op, e, e);
    HalfStart(op, xs);
    HalfOn(op, xs, xs, 0);
    assert xs[0..] == xs && Leaves(op, f2)[0..] == Leaves(op, f2);
    HalfDone(op, xs, Leaves(op, f2), 0);
    CancelledJunction(op, e, e);
    StrippedBy(op, f1);
    StrippedBy(op, f2);
    SameStripped(op, f1, f2);
  }

  lemma HalfStart(op: Op, xs: seq<Expr>)
    ensures Half(op, xs, xs, 0)
  {
  }

  lemma SameStripped(op: Op, f1: Expr, f2: Expr)
    requires Visible(op, Leaves(op, f1)) == Visible(op, Leaves(op, f2))
    ensures EliminateYN(f1).Sym? ==> EliminateYN(f1) == EliminateYN(f2)
  {
    hide EliminateYN, Leaves, Visible;
    StrippedIs(op, f1);
    StrippedIs(op, f2);
  }

  /** A chain of which only well-paired operands were cancelled. */
  lemma {:induction false} RemainingShows(op: Op, xs: seq<Expr>, xs': seq<Expr>)
    requires |xs'| == |xs|
    requires forall i :: 0 <= i < |xs| ==> xs'[i] == xs[i] || (xs'[i] == Unit(op) && Matchable(op, xs[i]))
    ensures |Remaining(op, xs)| <= |Visible(op, xs')|
    ensures forall z :: z in Remaining(op, xs) ==> z in Visible(op, xs')
  {
    hide EliminateYN, Eq, Pairs, Unit;
    UnitAndZero(op);
    if xs != [] {
      assert forall i :: 0 <= i < |xs[1..]| ==> xs[1..][i] == xs[i + 1] && xs'[1..][i] == xs'[i + 1];
      RemainingShows(op, xs[1..], xs'[1..]);
    }
  }

  lemma FewerSettle(op: Op, r: seq<Expr>, k: seq<Expr>)
    requires |r| <= |k| && forall z :: z in r ==> z in k
    requires Settles(op, k) && Zero(op) !in k
    ensures Settles(op, r)
  {
    if r != [] {
      assert r[0] in k;
    }
  }

  lemma ZeroShows(op: Op, xs: seq<Expr>, xs': seq<Expr>)
    requires |xs'| == |xs| && forall i :: 0 <= i < |xs| ==> xs'[i] == xs[i] || xs'[i] == Unit(op)
    requires Zero(op) in Visible(op, xs')
    ensures SomeStripsTo(xs, Zero(op))
  {
    hide EliminateYN, Visible, Unit, Zero;
    UnitAndZero(op);
    VisibleMembers(op, xs', Zero(op));
    var i :| 0 <= i < |xs'| && EliminateYN(xs'[i]) == Zero(op);
    assert EliminateYN(xs[i]) == Zero(op);
  }

  lemma RemainingSettles(op: Op, e: Expr, f: Expr)
    requires |Leaves(op, f)| == |Leaves(op, e)| && EliminateYN(f).Sym?
    requires var xs, xs' := Leaves(op, e), Leaves(op, f);
             forall i :: 0 <= i < |xs| ==> xs'[i] == xs[i] || (xs'[i] == Unit(op) && Matchable(op, xs[i]))
    ensures EliminateYN(e) == Zero(op) || Settles(op, Remaining(op, Leaves(op, e)))
  {
    hide EliminateYN, Eq, Pairs, Unit, Zero, Leaves, Visible, Remaining, Matchable, Settles, SomeStripsTo, AllStripTo;
    var xs, xs' := Leaves(op, e), Leaves(op, f);
    StrippedBy(op, e);
    StrippedBy(op, f);
    RemainingShows(op, xs, xs');
    if Zero(op) in Visible(op, xs') {
      ZeroShows(op, xs, xs');
    } else {
      FewerSettle(op, Remaining(op, xs), Visible(op, xs'));
    }
  }

  // The condition, without expr_eq

  /** What is left of a chain when its operands are cancelled against themselves, and y
      and n are stripped: quoted constants, and operands not equal to themselves. */
  function Kept(op: Op, e: Expr): seq<Expr>
    decreases Size(e), 1
  {
    if IsJunction(op, e) then Kept(op, e.left) + Kept(op, e.right)
    else if (SelfEqual(e) && !FixedConstant(e)) || EliminateYN(e) == Unit(op) then []
    else [EliminateYN(e)]
  }

  /** In every chain of the expression at most a single symbol is kept, unless an
      absorbing constant is. */
  predicate SelfEqual(e: Expr)
    decreases Size(e), 0
  {
    match e
    case Not(x) => SelfEqual(x)
    case Junction(op, l, r) => Settles(op, Kept(op, l) + Kept(op, r))
    case _ => true
  }

  /** No negation is applied to a chain that strips to its absorbing constant although
      it is not equal to itself.  Expressions as expr_transform leaves them have no
      negated chain at all. */
  predicate Settled(e: Expr) {
    match e
    case Not(x) => Settled(x) && (x.Junction? && EliminateYN(x) == Zero(x.op) ==> SelfEqual(x))
    case Junction(_, l, r) => Settled(l) && Settled(r)
    case _ => true
  }

  lemma {:induction false} NormalIsSettled(e: Expr)
    requires NegationNormal(e)
    ensures Settled(e)
  {
    if e.Junction? {
      NormalIsSettled(e.left);
      NormalIsSettled(e.right);
    }
  }

  lemma {:induction false} LeavesSettled(op: Op, e: Expr)
    requires Settled(e)
    ensures forall x :: x in Leaves(op, e) ==> Settled(x)
  {
    hide SelfEqual, EliminateYN;
    if IsJunction(op, e) {
      LeavesSettled(op, e.left);
      LeavesSettled(op, e.right);
    }
  }

  lemma {:induction false} KeptIsRemaining(op: Op, e: Expr)
    requires forall x :: x in Leaves(op, e) ==> (Eq(x, x) <==> SelfEqual(x))
    ensures Kept(op, e) == Remaining(op, Leaves(op, e))
  {
    hide Eq, EliminateYN, SelfEqual;
    if IsJunction(op, e) {
      KeptIsRemaining(op, e.left);
      KeptIsRemaining(op, e.right);
      RemainingConcat(op, Leaves(op, e.left), Leaves(op, e.right));
    } else {
      assert Leaves(op, e) == [e] && [e][1..] == [];
    }
  }

  function MaxSize(a: Expr, b: Expr): nat {
    if Size(a) > Size(b) then Size(a) else Size(b)
  }

  lemma {:induction false} LeavesPairWell(op: Op, e: Expr)
    requires Settled(e) && IsJunction(op, e)
    ensures PairsWell(op, Leaves(op, e))
    decreases Size(e), 0
  {
    hide Eq, EliminateYN, Leaves, SelfEqual;
    LeafSizes(op, e);
    LeavesSettled(op, e);
    forall x, y | x in Leaves(op, e) && y in Leaves(op, e) && Pairs(x, y)
      ensures Matchable(op, x) && Matchable(op, y)
    {
      PairSettles(op, x, y);
    }
  }

  lemma {:induction false} PairSettles(op: Op, x: Expr, y: Expr)
    requires Settled(x) && Settled(y) && Pairs(x, y) && !IsJunction(op, x) && !IsJunction(op, y)
    ensures Matchable(op, x) && Matchable(op, y)
    decreases MaxSize(x, y), 3
  {
    hide Eq, EliminateYN, SelfEqual;
    EqSettles(x, y);
    EqOfFixed(x, y);
  }

  /** An expression that is equal to some other one is equal to itself, or a chain that
      strips to its absorbing constant. */
  lemma {:induction false} EqSettles(a: Expr, b: Expr)
    requires Settled(a) && Settled(b) && Eq(a, b)
    ensures Eq(a, a) || (a.Junction? && EliminateYN(a) == Zero(a.op))
    ensures Eq(b, b) || (b.Junction? && EliminateYN(b) == Zero(b.op))
    decreases MaxSize(a, b), 2
  {
    hide EliminateYN, SelfEqual;
    match a
    case Not(x) =>
      EqSettles(x, b.arg);
      EqIffSelfEqual(x);
      EqIffSelfEqual(b.arg);
    case Junction(op, _, _) => ChainsSettle(op, a, b);
    case _ =>
  }

  lemma {:induction false} ChainsSettle(op: Op, a: Expr, b: Expr)
    requires Settled(a) && Settled(b) && Eq(a, b) && IsJunction(op, a) && IsJunction(op, b)
    ensures Eq(a, a) || EliminateYN(a) == Zero(op)
    ensures Eq(b, b) || EliminateYN(b) == Zero(op)
    decreases MaxSize(a, b), 1
  {
    hide Eq, EliminateYN, Leaves, SelfEqual, CancelAll, CancelOperands, Settled, Size, Matchable, Settles, Remaining;
    var (f1, f2) := CancelOperands(op, a, b);
    var xs, ys := Leaves(op, a), Leaves(op, b);
    CancelledJunction(op, a, b);
    LeavesOfCancelled(op, a, b);
    CancelAccounts(op, xs, ys);
    LeafSizes(op, a);
    LeafSizes(op, b);
    LeavesSettled(op, a);
    LeavesSettled(op, b);
    forall x, y | x in xs && y in ys && Pairs(x, y)
      ensures Matchable(op, x) && Matchable(op, y)
    {
      PairSettles(op, x, y);
    }
    RemainingSettles(op, a, f1);
    RemainingSettles(op, b, f2);
    LeavesPairWell(op, a);
    LeavesPairWell(op, b);
    ChainEqualsItself(op, a);
    ChainEqualsItself(op, b);
  }

  /** expr_eq finds an expression equal to itself if and only if no chain in it keeps
      more than a single symbol. */
  lemma {:induction false} EqIffSelfEqual(e: Expr)
    requires Settled(e)
    ensures Eq(e, e) <==> SelfEqual(e)
    decreases Size(e), 2
  {
    hide EliminateYN, Kept, Leaves, Remaining, Settles, PairsWell;
    match e
    case Not(x) => EqIffSelfEqual(x);
    case Junction(op, l, r) =>
      LeafSizes(op, e);
      LeavesSettled(op, e);
      forall x | x in Leaves(op, e)
        ensures Eq(x, x) <==> SelfEqual(x)
      {
        EqIffSelfEqual(x);
      }
      KeptIsRemaining(op, e);
      KeptOfChain(op, e);
      LeavesPairWell(op, e);
      ChainEqualsItself(op, e);
    case _ =>
  }

  lemma KeptOfChain(op: Op, e: Expr)
    requires IsJunction(op, e)
    ensures Kept(op, e) == Kept(op, e.left) + Kept(op, e.right)
  {
  }

  /** What expr_transform leaves needs no further condition. */
  lemma NormalEqIffSelfEqual(e: Expr)
    requires NegationNormal(e)
    ensures Eq(e, e) <==> SelfEqual(e)
  {
    NormalIsSettled(e);
    EqIffSelfEqual(e);
  }

  /** No operand is a quoted constant; comparisons may have them. */
  predicate NoQuoted(e: Expr) {
    match e
    case Sym(s) => !s.Quoted?
    case Not(x) => NoQuoted(x)
    case Junction(_, l, r) => NoQuoted(l) && NoQuoted(r)
    case _ => true
  }

  lemma {:induction false} NoQuotedSelfEqual(e: Expr)
    requires NoQuoted(e)
    ensures SelfEqual(e) && Settled(e)
    decreases Size(e), 1
  {
    match e
    case Not(x) => NoQuotedSelfEqual(x);
    case Junction(op, l, r) =>
      NoQuotedKept(op, e);
      NoQuotedSettled(e);
      KeptOfChain(op, e);
      if Kept(op, e) != [] {
        assert Kept(op, e)[0] in Kept(op, e);
      }
    case _ =>
  }

  lemma {:induction false} NoQuotedSettled(e: Expr)
    requires NoQuoted(e) && e.Junction?
    ensures Settled(e)
    decreases Size(e), 0
  {
    NoQuotedSelfEqual(e.left);
    NoQuotedSelfEqual(e.right);
  }

  lemma {:induction false} NoQuotedKept(op: Op, e: Expr)
    requires NoQuoted(e)
    ensures forall x :: x in Kept(op, e) ==> x == Zero(op)
    decreases Size(e), if IsJunction(op, e) then 0 else 2
  {
    if IsJunction(op, e) {
      NoQuotedKept(op, e.left);
      NoQuotedKept(op, e.right);
    } else {
      NoQuotedSelfEqual(e);
    }
  }

  /** Without a quoted operand every expression is equal to itself. */
  lemma NoQuotedEqualsItself(e: Expr)
    requires NoQuoted(e)
    ensures Eq(e, e)
  {
    NoQuotedSelfEqual(e);
    EqIffSelfEqual(e);
  }

  /** Two quoted operands in one chain, with no absorbing constant to hide them, make an
      expression unequal to itself. */
  lemma QuotedNotEqualToItself(op: Op, e: Expr, i: nat, j: nat)
    requires Settled(e) && IsJunction(op, e) && EliminateYN(e) != Zero(op)
    requires i < j < |Leaves(op, e)| && IsQuoted(Leaves(op, e)[i]) && IsQuoted(Leaves(op, e)[j])
    ensures !Eq(e, e)
  {
    hide Eq, EliminateYN, Leaves, PairsWell, Settled, Remaining, Visible;
    var xs := Leaves(op, e);
    LeavesPairWell(op, e);
    ChainEqualsItself(op, e);
    TwoRemain(op, xs, i, j);
    RemainingShows(op, xs, xs);
    StrippedIs(op, e);
  }

  lemma {:induction false} TwoRemain(op: Op, xs: seq<Expr>, i: nat, j: nat)
    requires i < j < |xs| && IsQuoted(xs[i]) && IsQuoted(xs[j])
    ensures |Remaining(op, xs)| >= 2
    decreases i
  {
    hide Eq, EliminateYN, Pairs;
    if i > 0 {
      TwoRemain(op, xs[1..], i - 1, j - 1);
    } else {
      QuotedRemains(op, xs[0]);
      OneRemains(op, xs[1..], j - 1);
      assert xs == [xs[0]] + xs[1..];
      RemainingConcat(op, [xs[0]], xs[1..]);
    }
  }

  lemma {:induction false} OneRemains(op: Op, xs: seq<Expr>, j: nat)
    requires j < |xs| && IsQuoted(xs[j])
    ensures |Remaining(op, xs)| >= 1
    decreases j
  {
    hide Eq, EliminateYN, Pairs;
    if j > 0 {
      OneRemains(op, xs[1..], j - 1);
    } else {
      QuotedRemains(op, xs[0]);
      assert xs == [xs[0]] + xs[1..];
      RemainingConcat(op, [xs[0]], xs[1..]);
    }
  }

  predicate IsQuoted(e: Expr) {
    e.Sym? && e.sym.Quoted?
  }

  lemma QuotedRemains(op: Op, x: Expr)
    requires IsQuoted(x)
    ensures Remaining(op, [x]) == [x]
  {
    assert [x][1..] == [];
  }

  // Where the condition does not decide

  function AlwaysYes(): Expr {
    Junction(AndOp, Sym(SymYes), Sym(SymYes))
  }

  function QuotedChain(q: Symbol): Expr {
    Junction(OrOp, AlwaysYes(), Junction(OrOp, Sym(q), Sym(q)))
  }

  function YesChain(b: Symbol): Expr {
    Junction(OrOp, Sym(SymYes), Sym(b))
  }

  lemma AlwaysYesIs()
    ensures EliminateYN(AlwaysYes()) == Sym(SymYes) && SelfEqual(AlwaysYes())
  {
    assert Kept(AndOp, Sym(SymYes)) == [];
  }

  /** The first chain is not equal to itself, but both strip to y. */
  lemma QuotedChainIs(q: Symbol)
    requires q.Quoted?
    ensures EliminateYN(QuotedChain(q)) == Sym(SymYes) && !SelfEqual(QuotedChain(q))
    ensures Settled(QuotedChain(q)) && !Settled(Not(QuotedChain(q)))
  {
    AlwaysYesIs();
    assert Kept(OrOp, Sym(q)) == [Sym(q)];
    assert Kept(OrOp, Junction(OrOp, Sym(q), Sym(q))) == [Sym(q), Sym(q)];
    assert Kept(OrOp, AlwaysYes()) == [];
  }

  lemma NoPair(op: Op, x: Expr, y: Expr)
    requires !IsJunction(op, x) && !IsJunction(op, y) && (!Eq(x, y) || FixedConstant(x))
    ensures CancelOperands(op, x, y) == (x, y)
  {
    if Eq(x, y) {
      EqOfFixed(x, y);
    }
  }

  lemma ChainsEqual(q: Symbol, b: Symbol)
    requires q.Quoted? && b.Config?
    ensures Eq(QuotedChain(q), YesChain(b))
  {
    var z, w := QuotedChain(q), YesChain(b);
    QuotedChainIs(q);
    CancelledJunction(OrOp, z, w);
    NoPair(OrOp, AlwaysYes(), Sym(SymYes));
    NoPair(OrOp, AlwaysYes(), Sym(b));
    NoPair(OrOp, Sym(q), Sym(SymYes));
    NoPair(OrOp, Sym(q), Sym(b));
    hide Eq;
    assert CancelOperands(OrOp, AlwaysYes(), w) == (AlwaysYes(), w);
    assert CancelOperands(OrOp, Sym(q), w) == (Sym(q), w);
    assert CancelOperands(OrOp, Junction(OrOp, Sym(q), Sym(q)), w) == (Junction(OrOp, Sym(q), Sym(q)), w);
  }

  lemma ChainsEqualBack(q: Symbol, b: Symbol)
    requires q.Quoted? && b.Config?
    ensures Eq(YesChain(b), QuotedChain(q))
  {
    var z, w := QuotedChain(q), YesChain(b);
    var qq := Junction(OrOp, Sym(q), Sym(q));
    QuotedChainIs(q);
    CancelledJunction(OrOp, w, z);
    NoPair(OrOp, Sym(SymYes), AlwaysYes());
    NoPair(OrOp, Sym(b), AlwaysYes());
    NoPair(OrOp, Sym(SymYes), Sym(q));
    NoPair(OrOp, Sym(b), Sym(q));
    hide Eq;
    assert CancelOperands(OrOp, Sym(SymYes), qq) == (Sym(SymYes), qq);
    assert CancelOperands(OrOp, Sym(b), qq) == (Sym(b), qq);
    assert CancelOperands(OrOp, Sym(SymYes), z) == (Sym(SymYes), z);
    assert CancelOperands(OrOp, Sym(b), z) == (Sym(b), z);
  }

  /** Two negated chains that strip to the same constant are paired with each other,
      though one of them is not equal to itself. */
  lemma NegatedChainsPair(q: Symbol, b: Symbol)
    requires q.Quoted? && b.Config?
    ensures var t := Junction(AndOp, Not(QuotedChain(q)), Not(YesChain(b)));
            Eq(t, t) && !SelfEqual(t) && !Settled(t)
  {
    hide Eq, EliminateYN, QuotedChain, YesChain;
    var x, y := Not(QuotedChain(q)), Not(YesChain(b));
    var t, rest := Junction(AndOp, x, y), Junction(AndOp, x, Sym(SymYes));
    QuotedChainIs(q);
    NegationsPair(q, b);
    CancelledJunction(AndOp, t, t);
    AlwaysYesIs();
    assert CancelOperands(AndOp, x, t) == (Sym(SymYes), rest);
    assert CancelOperands(AndOp, y, rest) == (Sym(SymYes), AlwaysYes());
    assert CancelOperands(AndOp, t, t) == (AlwaysYes(), AlwaysYes());
    assert !IsJunction(AndOp, y) && EliminateYN(y) == y;
    var ks := Kept(AndOp, y);
    assert ks == [] || ks == [EliminateYN(y)];
    assert Kept(AndOp, x) == [x] && (Kept(AndOp, y) == [] || Kept(AndOp, y) == [y]);
  }

  lemma NegationsPair(q: Symbol, b: Symbol)
    requires q.Quoted? && b.Config?
    ensures var x, y := Not(QuotedChain(q)), Not(YesChain(b));
            Eq(x, y) && Eq(y, x) && !Eq(x, x) && EliminateYN(x) == x && EliminateYN(y) == y
  {
    hide EliminateYN, QuotedChain, YesChain;
    QuotedChainIs(q);
    EqIffSelfEqual(QuotedChain(q));
    ChainsEqual(q, b);
    ChainsEqualBack(q, b);
    NotIsKept(Not(QuotedChain(q)));
    NotIsKept(Not(YesChain(b)));
  }

  lemma NotIsKept(x: Expr)
    requires x.Not?
    ensures EliminateYN(x) == x
  {
  }
}
