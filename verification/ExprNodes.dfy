/** Expressions as nodes that the rewriting functions overwrite
    (scripts/kconfig/expr.c). */
module ExprNodes {
  import opened Options
  import opened Tristates
  import opened Exprs
  import T = ExprTransform
  import C = ExprCancel

  datatype Kind = SymKind | EqualKind | UnequalKind | NotKind | JunctionKind(op: Op)

  /** struct expr; `left` and `right` hold operands, `lsym` and `rsym` symbols. */
  class Node {
    var kind: Kind
    var lsym: Symbol
    var rsym: Symbol
    var left: Node?
    var right: Node?

    /** This node and those below it, and perhaps nodes that were dropped. */
    ghost var repr: set<Node>

    /** The nodes form a tree: nothing is shared. */
    ghost predicate Valid()
      reads this, repr
      decreases repr
    {
      && this in repr
      && (kind.NotKind? || kind.JunctionKind? ==>
            && left != null && left in repr && left.repr <= repr && this !in left.repr && left.Valid())
      && (kind.JunctionKind? ==>
            && right != null && right in repr && right.repr <= repr && this !in right.repr && right.Valid()
            && left.repr !! right.repr)
    }

    ghost function Expr(): Expr
      reads this, repr
      requires Valid()
      decreases repr
    {
      match kind
      case SymKind => Sym(lsym)
      case EqualKind => Equal(lsym, rsym)
      case UnequalKind => Unequal(lsym, rsym)
      case NotKind => Not(left.Expr())
      case JunctionKind(op) => Junction(op, left.Expr(), right.Expr())
    }

    constructor Symbol(s: Symbol)
      ensures Valid() && repr == {this} && Expr() == Sym(s)
    {
      kind, lsym, rsym, left, right := SymKind, s, s, null, null;
      repr := {this};
    }

    constructor Comparison(k: Kind, l: Symbol, r: Symbol)
      requires k == EqualKind || k == UnequalKind
      ensures Valid() && repr == {this} && Expr() == if k == EqualKind then Equal(l, r) else Unequal(l, r)
    {
      kind, lsym, rsym, left, right := k, l, r, null, null;
      repr := {this};
    }

    constructor Two(op: Op, l: Node, r: Node)
      requires l.Valid() && r.Valid() && l.repr !! r.repr
      ensures Valid() && repr == {this} + l.repr + r.repr && Expr() == Junction(op, l.Expr(), r.Expr())
    {
      kind, lsym, rsym, left, right := JunctionKind(op), SymNo, SymNo, l, r;
      repr := {this} + l.repr + r.repr;
    }

    constructor Negation(x: Node)
      requires x.Valid()
      ensures Valid() && repr == {this} + x.repr && Expr() == Not(x.Expr())
    {
      kind, lsym, rsym, left, right := NotKind, SymNo, SymNo, x, null;
      repr := {this} + x.repr;
    }

    /** The node becomes the operand `s`, whatever it was. */
    method BecomeSymbol(s: Symbol)
      modifies this
      ensures Valid() && Expr() == Sym(s) && repr == {this}
    {
      kind, lsym := SymKind, s;
      left, right := null, null;
      repr := {this};
    }

    /** The operands are replaced, which may have moved. */
    method SetOperands(l: Node, r: Node)
      requires kind.JunctionKind? && l.Valid() && r.Valid() && l.repr !! r.repr && this !in l.repr && this !in r.repr
      modifies this
      ensures Valid() && Expr() == Junction(old(kind.op), old(l.Expr()), old(r.Expr()))
      ensures repr == {this} + l.repr + r.repr
    {
      left, right := l, r;
      repr := {this} + l.repr + r.repr;
    }

    /** The node is overwritten with one of its operands. */
    method BecomeCopy(n: Node)
      requires n.Valid() && this !in n.repr
      modifies this
      ensures Valid() && Expr() == old(n.Expr()) && repr == {this} + n.repr
    {
      kind, lsym, rsym, left, right := n.kind, n.lsym, n.rsym, n.left, n.right;
      repr := {this} + n.repr;
    }
  }

  method EliminateYN(e: Node)
    requires e.Valid()
    modifies e.repr
    ensures e.Valid() && e.Expr() == C.EliminateYN(old(e.Expr()))
    ensures e.repr <= old(e.repr)
    decreases e.repr
  {
    if e.kind.JunctionKind? {
      var op := e.kind.op;
      EliminateYN(e.left);
      EliminateYN(e.right);
      var l, r := e.left, e.right;
      if l.kind.SymKind? && l.lsym == Zero(op).sym {
        e.BecomeSymbol(Zero(op).sym);
      } else if l.kind.SymKind? && l.lsym == Unit(op).sym {
        e.BecomeCopy(r);
      } else if r.kind.SymKind? && r.lsym == Zero(op).sym {
        e.BecomeSymbol(Zero(op).sym);
      } else if r.kind.SymKind? && r.lsym == Unit(op).sym {
        e.BecomeCopy(l);
      }
    }
  }

  method TransBool(e: Node)
    requires e.Valid()
    modifies e.repr
    ensures e.Valid() && e.Expr() == T.TransBool(old(e.Expr()))
    ensures e.repr <= old(e.repr)
    decreases e.repr
  {
    match e.kind
    case JunctionKind(_) =>
      TransBool(e.left);
      TransBool(e.right);
    case NotKind =>
      TransBool(e.left);
    case UnequalKind =>
      if e.lsym.stype == TristateType && e.rsym == SymNo {
        e.BecomeSymbol(e.lsym);
      }
    case _ =>
  }

  /** expr_copy: new nodes for the same expression. */
  method Copy(e: Node) returns (n: Node)
    requires e.Valid()
    ensures n.Valid() && n.Expr() == e.Expr() && fresh(n.repr)
    decreases e.repr
  {
    if e.kind.SymKind? {
      n := new Node.Symbol(e.lsym);
    } else if e.kind.EqualKind? || e.kind.UnequalKind? {
      n := new Node.Comparison(e.kind, e.lsym, e.rsym);
    } else if e.kind.NotKind? {
      var l := Copy(e.left);
      n := new Node.Negation(l);
    } else {
      var l := Copy(e.left);
      var r := Copy(e.right);
      n := new Node.Two(e.kind.op, l, r);
    }
  }

  /** expr_transform; the node that is returned may be another one than before. */
  method Transform(e: Node) returns (r: Node)
    requires e.Valid()
    modifies e.repr
    ensures r.Valid() && r.Expr() == T.Transform(old(e.Expr()))
    ensures fresh(r.repr - old(e.repr))
    decreases T.Weight(e.Expr()), 1
  {
    r := e;
    match e.kind
    case SymKind =>
    case EqualKind =>
      if e.lsym.stype == BooleanType {
        if e.rsym == SymNo {
          Negate(e);
        } else if e.rsym == SymMod {
          e.BecomeSymbol(SymNo);
        } else if e.rsym == SymYes {
          e.BecomeSymbol(e.lsym);
        }
      }
    case UnequalKind =>
      if e.lsym.stype == BooleanType {
        if e.rsym == SymNo {
          e.BecomeSymbol(e.lsym);
        } else if e.rsym == SymMod {
          e.BecomeSymbol(SymYes);
        } else if e.rsym == SymYes {
          Negate(e);
        }
      }
    case JunctionKind(_) =>
      TransformOperands(e);
    case NotKind =>
      r := TransformNegation(e);
  }

  /** A comparison becomes the negation of its left symbol, which takes a new node. */
  method Negate(e: Node)
    modifies e
    ensures e.Valid() && e.Expr() == Not(Sym(old(e.lsym))) && fresh(e.repr - {e})
  {
    e.left := new Node.Symbol(e.lsym);
    e.kind, e.right := NotKind, null;
    e.repr := {e} + e.left.repr;
  }

  method TransformOperands(e: Node)
    requires e.Valid() && e.kind.JunctionKind?
    modifies e.repr
    ensures e.Valid() && e.Expr() == T.Transform(old(e.Expr()))
    ensures fresh(e.repr - old(e.repr))
    decreases T.Weight(e.Expr()), 0
  {
    var l := Transform(e.left);
    var r := Transform(e.right);
    e.SetOperands(l, r);
  }

  method TransformNegation(e: Node) returns (r: Node)
    requires e.Valid() && e.kind.NotKind?
    modifies e.repr
    ensures r.Valid() && r.Expr() == T.Transform(old(e.Expr()))
    ensures fresh(r.repr - old(e.repr))
    decreases T.Weight(e.Expr()), 0
  {
    ghost var x := e.left.Expr();
    var tmp := Transform(e.left);
    if tmp.kind.NotKind? {
      r := Transform(tmp.left);
    } else if tmp.kind.EqualKind? {
      tmp.kind := UnequalKind;
      r := tmp;
    } else if tmp.kind.UnequalKind? {
      tmp.kind := EqualKind;
      r := tmp;
    } else if tmp.kind.JunctionKind? {
      DeMorganLighter(x, tmp.Expr());
      DeMorgan(e, tmp);
      r := Transform(e);
    } else if tmp.lsym == SymYes {
      tmp.lsym := SymNo;
      r := tmp;
    } else if tmp.lsym == SymMod {
      r := tmp;
    } else if tmp.lsym == SymNo {
      tmp.lsym := SymYes;
      r := tmp;
    } else {
      e.left, e.repr := tmp, {e} + tmp.repr;
      r := e;
    }
  }

  lemma DeMorganLighter(x: Expr, y: Expr)
    requires y == T.Transform(x) && y.Junction?
    ensures T.Weight(Junction(y.op.Dual(), Not(y.left), Not(y.right))) < T.Weight(Not(x))
  {
  }

  /** !(a || b) -> !a && !b, with the operand's node turned into the first negation */
  method DeMorgan(e: Node, tmp: Node)
    requires tmp.Valid() && tmp.kind.JunctionKind? && e !in tmp.repr
    modifies e, tmp
    ensures e.Valid() && e.Expr() == Junction(old(tmp.kind.op).Dual(), Not(old(tmp.left.Expr())), Not(old(tmp.right.Expr())))
    ensures fresh(e.repr - {e} - old(tmp.repr))
  {
    var n := new Node.Negation(tmp.right);
    e.kind, e.right := JunctionKind(tmp.kind.op.Dual()), n;
    tmp.kind, tmp.right, tmp.repr := NotKind, null, {tmp} + tmp.left.repr;
    e.left, e.repr := tmp, {e} + tmp.repr + n.repr;
  }

  /** __expr_eliminate_eq: the nodes behind the two pointers, before and after. */
  method CancelOperands(op: Op, e1: Node, e2: Node) returns (f1: Node, f2: Node)
    requires e1.Valid() && e2.Valid() && e1.repr !! e2.repr
    modifies e1.repr, e2.repr
    ensures f1.Valid() && f2.Valid() && f1.repr !! f2.repr
    ensures (f1.Expr(), f2.Expr()) == C.CancelOperands(op, old(e1.Expr()), old(e2.Expr()))
    ensures fresh(f1.repr - old(e1.repr)) && fresh(f2.repr - old(e2.repr))
    decreases Size(e1.Expr()) + Size(e2.Expr()), C.Rank(op, e1.Expr(), e2.Expr())
  {
    if e1.kind == JunctionKind(op) {
      f1, f2 := CancelLeft(op, e1, e2);
    } else if e2.kind == JunctionKind(op) {
      f1, f2 := CancelRight(op, e1, e2);
    } else {
      f1, f2 := CancelPair(op, e1, e2);
    }
  }

  method CancelLeft(op: Op, e1: Node, e2: Node) returns (f1: Node, f2: Node)
    requires e1.Valid() && e2.Valid() && e1.repr !! e2.repr && e1.kind == JunctionKind(op)
    modifies e1.repr, e2.repr
    ensures f1.Valid() && f2.Valid() && f1.repr !! f2.repr
    ensures (f1.Expr(), f2.Expr()) == C.CancelOperands(op, old(e1.Expr()), old(e2.Expr()))
    ensures fresh(f1.repr - old(e1.repr)) && fresh(f2.repr - old(e2.repr))
    decreases Size(e1.Expr()) + Size(e2.Expr()), C.Rank(op, e1.Expr(), e2.Expr()), 0
  {
    ghost var x1, x2, y := e1.left.Expr(), e1.right.Expr(), e2.Expr();
    CancelUnfolds(op, x1, x2, y);
    SizeOfOperands(e1.Expr());
    hide C.CancelOperands, Size, C.Rank, IsJunction;
    var l;
    l, f2 := CancelOperands(op, e1.left, e2);
    f2 := FinishLeft(op, e1, l, f2);
    f1 := e1;
  }

  lemma CancelUnfolds(op: Op, x1: Expr, x2: Expr, y: Expr)
    ensures
      var (l, y') := C.CancelOperands(op, x1, y);
      var (r, y'') := C.CancelOperands(op, x2, y');
      C.CancelOperands(op, Junction(op, x1, x2), y) == (Junction(op, l, r), y'')
  {
  }

  method FinishLeft(op: Op, e1: Node, l: Node, e2: Node) returns (f2: Node)
    requires e1.kind == JunctionKind(op) && e1.right != null && e1.right.Valid() && l.Valid() && e2.Valid()
    requires e1 !in l.repr + e1.right.repr + e2.repr
    requires l.repr !! e1.right.repr && l.repr !! e2.repr && e1.right.repr !! e2.repr
    modifies e1, e1.right.repr, e2.repr
    ensures e1.Valid() && f2.Valid() && e1.repr !! f2.repr
    ensures
      var (r, y) := C.CancelOperands(op, old(e1.right.Expr()), old(e2.Expr()));
      e1.Expr() == Junction(op, old(l.Expr()), r) && f2.Expr() == y
    ensures fresh(e1.repr - {e1} - old(l.repr) - old(e1.right.repr)) && fresh(f2.repr - old(e2.repr))
    decreases Size(e1.right.Expr()) + Size(e2.Expr()), 4
  {
    hide C.CancelOperands, Size, C.Rank, IsJunction;
    var r;
    RankBound(op, e1.right.Expr(), e2.Expr());
    r, f2 := CancelOperands(op, e1.right, e2);
    e1.SetOperands(l, r);
  }

  lemma RankBound(op: Op, x: Expr, y: Expr)
    ensures C.Rank(op, x, y) < 4
  {
  }

  method FinishRight(op: Op, e1: Node, e2: Node, l: Node) returns (f1: Node)
    requires e2.kind == JunctionKind(op) && e2.right != null && e2.right.Valid() && l.Valid() && e1.Valid()
    requires e2 !in l.repr + e2.right.repr + e1.repr
    requires l.repr !! e2.right.repr && l.repr !! e1.repr && e2.right.repr !! e1.repr
    modifies e2, e2.right.repr, e1.repr
    ensures e2.Valid() && f1.Valid() && e2.repr !! f1.repr
    ensures
      var (x, r) := C.CancelOperands(op, old(e1.Expr()), old(e2.right.Expr()));
      e2.Expr() == Junction(op, old(l.Expr()), r) && f1.Expr() == x
    ensures fresh(e2.repr - {e2} - old(l.repr) - old(e2.right.repr)) && fresh(f1.repr - old(e1.repr))
    decreases Size(e1.Expr()) + Size(e2.right.Expr()), 4
  {
    hide C.CancelOperands, Size, C.Rank, IsJunction;
    var r;
    RankBound(op, e1.Expr(), e2.right.Expr());
    f1, r := CancelOperands(op, e1, e2.right);
    e2.SetOperands(l, r);
  }

  method CancelRight(op: Op, e1: Node, e2: Node) returns (f1: Node, f2: Node)
    requires e1.Valid() && e2.Valid() && e1.repr !! e2.repr && e1.kind != JunctionKind(op) && e2.kind == JunctionKind(op)
    modifies e1.repr, e2.repr
    ensures f1.Valid() && f2.Valid() && f1.repr !! f2.repr
    ensures (f1.Expr(), f2.Expr()) == C.CancelOperands(op, old(e1.Expr()), old(e2.Expr()))
    ensures fresh(f1.repr - old(e1.repr)) && fresh(f2.repr - old(e2.repr))
    decreases Size(e1.Expr()) + Size(e2.Expr()), C.Rank(op, e1.Expr(), e2.Expr()), 0
  {
    ghost var x, y1, y2 := e1.Expr(), e2.left.Expr(), e2.right.Expr();
    CancelUnfoldsRight(op, x, y1, y2);
    SizeOfOperands(e2.Expr());
    hide C.CancelOperands, Size, C.Rank, IsJunction;
    var l;
    f1, l := CancelOperands(op, e1, e2.left);
    f1 := FinishRight(op, f1, e2, l);
    f2 := e2;
  }

  lemma CancelUnfoldsRight(op: Op, x: Expr, y1: Expr, y2: Expr)
    requires !IsJunction(op, x)
    ensures
      var (x', l) := C.CancelOperands(op, x, y1);
      var (x'', r) := C.CancelOperands(op, x', y2);
      C.CancelOperands(op, x, Junction(op, y1, y2)) == (x'', Junction(op, l, r))
  {
  }

  method CancelPair(op: Op, e1: Node, e2: Node) returns (f1: Node, f2: Node)
    requires e1.Valid() && e2.Valid() && e1.repr !! e2.repr
    requires e1.kind != JunctionKind(op) && e2.kind != JunctionKind(op)
    ensures f1.Valid() && f2.Valid() && f1.repr !! f2.repr
    ensures (f1.Expr(), f2.Expr()) == C.CancelOperands(op, e1.Expr(), e2.Expr())
    ensures fresh(f1.repr - e1.repr) && fresh(f2.repr - e2.repr)
    decreases Size(e1.Expr()) + Size(e2.Expr()), 3, 0
  {
    f1, f2 := e1, e2;
    if e1.kind.SymKind? && e2.kind.SymKind? && e1.lsym == e2.lsym && e1.lsym.constant && e1.lsym != SymMod {
      return;
    }
    var same := Eq(e1, e2);
    if same {
      f1, f2 := TwoUnits(op);
    }
  }

  method TwoUnits(op: Op) returns (f1: Node, f2: Node)
    ensures f1.Valid() && f2.Valid() && f1.repr !! f2.repr && fresh(f1.repr) && fresh(f2.repr)
    ensures f1.Expr() == f2.Expr() == Unit(op)
  {
    f1 := new Node.Symbol(Unit(op).sym);
    f2 := new Node.Symbol(Unit(op).sym);
  }

  method EliminateEq(e1: Node, e2: Node) returns (f1: Node, f2: Node)
    requires e1.Valid() && e2.Valid() && e1.repr !! e2.repr
    modifies e1.repr, e2.repr
    ensures f1.Valid() && f2.Valid() && f1.repr !! f2.repr
    ensures (f1.Expr(), f2.Expr()) == C.EliminateEq(old(e1.Expr()), old(e2.Expr()))
    ensures fresh(f1.repr - old(e1.repr)) && fresh(f2.repr - old(e2.repr))
    decreases Size(e1.Expr()) + Size(e2.Expr()), 1, 0
  {
    hide C.CancelOperands, C.EliminateYN, Size;
    f1, f2 := e1, e2;
    if f1.kind.JunctionKind? {
      f1, f2 := CancelOperands(f1.kind.op, f1, f2);
    }
    if f2.kind.JunctionKind? && f1.kind != f2.kind {
      f1, f2 := CancelOperands(f2.kind.op, f1, f2);
    }
    StripBoth(f1, f2);
  }

  method StripBoth(f1: Node, f2: Node)
    requires f1.Valid() && f2.Valid() && f1.repr !! f2.repr
    modifies f1.repr, f2.repr
    ensures f1.Valid() && f1.Expr() == C.EliminateYN(old(f1.Expr())) && f1.repr <= old(f1.repr)
    ensures f2.Valid() && f2.Expr() == C.EliminateYN(old(f2.Expr())) && f2.repr <= old(f2.repr)
  {
    EliminateYN(f1);
    EliminateYN(f2);
  }

  /** expr_eq: junctions are compared by cancelling copies of them. */
  method Eq(e1: Node, e2: Node) returns (same: bool)
    requires e1.Valid() && e2.Valid()
    ensures same <==> C.Eq(e1.Expr(), e2.Expr())
    decreases Size(e1.Expr()) + Size(e2.Expr()), 2
  {
    hide C.EliminateEq, Size;
    SizeOfOperands(e1.Expr());
    SizeOfOperands(e2.Expr());
    if e1.kind != e2.kind {
      return false;
    }
    if e1.kind.SymKind? {
      return e1.lsym == e2.lsym;
    } else if e1.kind.NotKind? {
      same := Eq(e1.left, e2.left);
    } else if e1.kind.JunctionKind? {
      same := EqJunctions(e1, e2);
    } else {
      return e1.lsym == e2.lsym && e1.rsym == e2.rsym;
    }
  }

  lemma SizeOfOperands(e: Expr)
    ensures e.Not? ==> Size(e.arg) < Size(e)
    ensures e.Junction? ==> Size(e.left) < Size(e) && Size(e.right) < Size(e)
  {
  }

  method CopyBoth(e1: Node, e2: Node) returns (c1: Node, c2: Node)
    requires e1.Valid() && e2.Valid()
    ensures c1.Valid() && c1.Expr() == e1.Expr() && fresh(c1.repr)
    ensures c2.Valid() && c2.Expr() == e2.Expr() && fresh(c2.repr)
    ensures c1.repr !! c2.repr
  {
    c1 := Copy(e1);
    c2 := Copy(e2);
  }

  method EqJunctions(e1: Node, e2: Node) returns (same: bool)
    requires e1.Valid() && e2.Valid() && e1.kind.JunctionKind? && e2.kind.JunctionKind?
    ensures
      var (f1, f2) := C.EliminateEq(e1.Expr(), e2.Expr());
      same <==> f1.Sym? && f1 == f2
    decreases Size(e1.Expr()) + Size(e2.Expr()), 1, 1
  {
    hide C.EliminateEq, Size, Node.Valid, Node.Expr;
    var c1, c2 := CopyBoth(e1, e2);
    c1, c2 := EliminateEq(c1, c2);
    same := SameSymbol(c1, c2);
  }

  method SameSymbol(c1: Node, c2: Node) returns (same: bool)
    requires c1.Valid() && c2.Valid()
    ensures same <==> c1.Expr().Sym? && c1.Expr() == c2.Expr()
  {
    same := c1.kind.SymKind? && c2.kind.SymKind? && c1.lsym == c2.lsym;
  }

  // expr_extract_eq

  ghost predicate OptValid(c: Node?)
    reads c, if c == null then {} else c.repr
  {
    c != null ==> c.Valid()
  }

  ghost function OptRepr(c: Node?): set<Node>
    reads c
  {
    if c == null then {} else c.repr
  }

  ghost function OptExpr(c: Node?): Option<Expr>
    reads c, if c == null then {} else c.repr
    requires OptValid(c)
  {
    if c == null then None else Some(c.Expr())
  }

  /** The common part and what is left behind the two pointers. */
  method ExtractEq(op: Op, common: Node?, e1: Node, e2: Node) returns (c: Node?, r1: Node, r2: Node)
    requires OptValid(common) && e1.Valid() && e2.Valid()
    requires e1.repr !! e2.repr && OptRepr(common) !! e1.repr && OptRepr(common) !! e2.repr
    modifies e1.repr, e2.repr
    ensures OptValid(c) && r1.Valid() && r2.Valid()
    ensures r1.repr !! r2.repr && OptRepr(c) !! r1.repr && OptRepr(c) !! r2.repr
    ensures (OptExpr(c), r1.Expr(), r2.Expr()) == C.ExtractEq(op, old(OptExpr(common)), old(e1.Expr()), old(e2.Expr()))
    ensures fresh(OptRepr(c) - old(OptRepr(common)) - old(e1.repr))
    ensures fresh(r1.repr - old(e1.repr)) && fresh(r2.repr - old(e2.repr))
    decreases Size(e1.Expr()) + Size(e2.Expr()), 2
  {
    if e1.kind == JunctionKind(op) {
      c, r2 := ExtractLeft(op, common, e1, e2);
      r1 := e1;
    } else if e2.kind == JunctionKind(op) {
      c, r1 := ExtractRight(op, common, e1, e2);
      r2 := e2;
    } else {
      c, r1, r2 := ExtractPair(op, common, e1, e2);
    }
  }

  method ExtractPair(op: Op, common: Node?, e1: Node, e2: Node) returns (c: Node?, r1: Node, r2: Node)
    requires OptValid(common) && e1.Valid() && e2.Valid()
    requires e1.repr !! e2.repr && OptRepr(common) !! e1.repr && OptRepr(common) !! e2.repr
    requires e1.kind != JunctionKind(op) && e2.kind != JunctionKind(op)
    ensures OptValid(c) && r1.Valid() && r2.Valid()
    ensures r1.repr !! r2.repr && OptRepr(c) !! r1.repr && OptRepr(c) !! r2.repr
    ensures (OptExpr(c), r1.Expr(), r2.Expr()) == C.ExtractEq(op, OptExpr(common), e1.Expr(), e2.Expr())
    ensures fresh(OptRepr(c) - OptRepr(common) - e1.repr)
    ensures fresh(r1.repr - e1.repr) && fresh(r2.repr - e2.repr)
  {
    hide C.ExtractEq, C.Eq, Size, IsJunction, Node.Valid, Node.Expr, OptValid, OptExpr;
    KindMeans(op, e1);
    KindMeans(op, e2);
    ExtractLeaf(op, OptExpr(common), e1.Expr(), e2.Expr());
    var same := Eq(e1, e2);
    if same {
      c, r1, r2 := TakeCommon(op, common, e1);
    } else {
      c, r1, r2 := common, e1, e2;
    }
  }

  lemma KindMeans(op: Op, e: Node)
    requires e.Valid()
    ensures e.kind == JunctionKind(op) <==> IsJunction(op, e.Expr())
    ensures e.kind == JunctionKind(op) ==>
      && e.left != null && e.right != null && e.left.Valid() && e.right.Valid()
      && e.Expr() == Junction(op, e.left.Expr(), e.right.Expr())
      && e in e.repr && e.left.repr <= e.repr - {e} && e.right.repr <= e.repr - {e} && e.left.repr !! e.right.repr
  {
  }

  method AddCommon(op: Op, common: Node?, e: Node) returns (c: Node)
    requires OptValid(common) && e.Valid() && OptRepr(common) !! e.repr
    ensures c.Valid() && c.Expr() == if common == null then e.Expr() else Junction(op, common.Expr(), e.Expr())
    ensures fresh(c.repr - OptRepr(common) - e.repr)
  {
    if common != null {
      c := new Node.Two(op, common, e);
    } else {
      c := e;
    }
  }

  method TakeCommon(op: Op, common: Node?, e: Node) returns (c: Node?, r1: Node, r2: Node)
    requires OptValid(common) && e.Valid() && OptRepr(common) !! e.repr
    ensures OptValid(c)
    ensures OptExpr(c) == Some(if OptExpr(common).Some? then Junction(op, OptExpr(common).value, e.Expr()) else e.Expr())
    ensures fresh(OptRepr(c) - OptRepr(common) - e.repr)
    ensures r1.Valid() && r2.Valid() && r1.Expr() == r2.Expr() == Unit(op)
    ensures r1.repr !! r2.repr && OptRepr(c) !! r1.repr && OptRepr(c) !! r2.repr && fresh(r1.repr) && fresh(r2.repr)
  {
    c := AddCommon(op, common, e);
    r1, r2 := TwoUnits(op);
  }

  lemma ExtractLeaf(op: Op, common: Option<Expr>, x: Expr, y: Expr)
    requires !IsJunction(op, x) && !IsJunction(op, y)
    ensures
      C.ExtractEq(op, common, x, y) ==
        if C.Eq(x, y) then (Some(if common.Some? then Junction(op, common.value, x) else x), Unit(op), Unit(op))
        else (common, x, y)
  {
    hide C.Eq;
  }

  method ExtractLeft(op: Op, common: Node?, e1: Node, e2: Node) returns (c: Node?, r2: Node)
    requires OptValid(common) && e1.Valid() && e2.Valid() && e1.kind == JunctionKind(op)
    requires e1.repr !! e2.repr && OptRepr(common) !! e1.repr && OptRepr(common) !! e2.repr
    modifies e1.repr, e2.repr
    ensures OptValid(c) && e1.Valid() && r2.Valid()
    ensures e1.repr !! r2.repr && OptRepr(c) !! e1.repr && OptRepr(c) !! r2.repr
    ensures (OptExpr(c), e1.Expr(), r2.Expr()) == C.ExtractEq(op, old(OptExpr(common)), old(e1.Expr()), old(e2.Expr()))
    ensures fresh(OptRepr(c) - old(OptRepr(common)) - old(e1.repr))
    ensures fresh(e1.repr - old(e1.repr)) && fresh(r2.repr - old(e2.repr))
    decreases Size(e1.Expr()) + Size(e2.Expr()), 1
  {
    hide C.ExtractEq, Size, IsJunction, OptValid, OptExpr, Node.Valid, Node.Expr;
    KindMeans(op, e1);
    ExtractUnfolds(op, OptExpr(common), e1.left.Expr(), e1.right.Expr(), e2.Expr());
    SizeOfOperands(e1.Expr());
    var l;
    ghost var x := e1.right.Expr();
    c, l, r2 := ExtractEq(op, common, e1.left, e2);
    assert e1.right.Valid() && e1.right.Expr() == x;
    c, r2 := FinishExtractLeft(op, c, e1, l, r2);
  }

  lemma ExtractUnfolds(op: Op, common: Option<Expr>, x1: Expr, x2: Expr, y: Expr)
    ensures
      var (c1, l, y') := C.ExtractEq(op, common, x1, y);
      var (c2, r, y'') := C.ExtractEq(op, c1, x2, y');
      C.ExtractEq(op, common, Junction(op, x1, x2), y) == (c2, Junction(op, l, r), y'')
  {
  }

  method FinishExtractLeft(op: Op, common: Node?, e1: Node, l: Node, e2: Node) returns (c: Node?, r2: Node)
    requires e1.kind == JunctionKind(op) && e1.right != null && e1.right.Valid() && l.Valid() && e2.Valid() && OptValid(common)
    requires e1 !in l.repr + e1.right.repr + e2.repr + OptRepr(common)
    requires l.repr !! e1.right.repr && l.repr !! e2.repr && e1.right.repr !! e2.repr
    requires OptRepr(common) !! l.repr && OptRepr(common) !! e1.right.repr && OptRepr(common) !! e2.repr
    modifies e1, e1.right.repr, e2.repr
    ensures OptValid(c) && e1.Valid() && r2.Valid()
    ensures e1.repr !! r2.repr && OptRepr(c) !! e1.repr && OptRepr(c) !! r2.repr
    ensures
      var (c2, r, y) := C.ExtractEq(op, old(OptExpr(common)), old(e1.right.Expr()), old(e2.Expr()));
      OptExpr(c) == c2 && e1.Expr() == Junction(op, old(l.Expr()), r) && r2.Expr() == y
    ensures fresh(OptRepr(c) - old(OptRepr(common)) - old(e1.right.repr))
    ensures fresh(e1.repr - {e1} - old(l.repr) - old(e1.right.repr)) && fresh(r2.repr - old(e2.repr))
    decreases Size(e1.right.Expr()) + Size(e2.Expr()), 3
  {
    hide C.ExtractEq, Size;
    var r;
    c, r, r2 := ExtractEq(op, common, e1.right, e2);
    e1.SetOperands(l, r);
  }

  method ExtractRight(op: Op, common: Node?, e1: Node, e2: Node) returns (c: Node?, r1: Node)
    requires OptValid(common) && e1.Valid() && e2.Valid() && e1.kind != JunctionKind(op) && e2.kind == JunctionKind(op)
    requires e1.repr !! e2.repr && OptRepr(common) !! e1.repr && OptRepr(common) !! e2.repr
    modifies e1.repr, e2.repr
    ensures OptValid(c) && r1.Valid() && e2.Valid()
    ensures r1.repr !! e2.repr && OptRepr(c) !! r1.repr && OptRepr(c) !! e2.repr
    ensures (OptExpr(c), r1.Expr(), e2.Expr()) == C.ExtractEq(op, old(OptExpr(common)), old(e1.Expr()), old(e2.Expr()))
    ensures fresh(OptRepr(c) - old(OptRepr(common)) - old(e1.repr))
    ensures fresh(r1.repr - old(e1.repr)) && fresh(e2.repr - old(e2.repr))
    decreases Size(e1.Expr()) + Size(e2.Expr()), 1
  {
    hide C.ExtractEq, Size, IsJunction, OptValid, OptExpr, Node.Valid, Node.Expr;
    KindMeans(op, e1);
    KindMeans(op, e2);
    ExtractUnfoldsRight(op, OptExpr(common), e1.Expr(), e2.left.Expr(), e2.right.Expr());
    SizeOfOperands(e2.Expr());
    var l;
    ghost var y := e2.right.Expr();
    c, r1, l := ExtractEq(op, common, e1, e2.left);
    assert e2.right.Valid() && e2.right.Expr() == y;
    assert l.repr !! e2.right.repr;
    c, r1 := FinishExtractRight(op, c, r1, e2, l);
  }

  lemma ExtractUnfoldsRight(op: Op, common: Option<Expr>, x: Expr, y1: Expr, y2: Expr)
    requires !IsJunction(op, x)
    ensures
      var (c1, x', l) := C.ExtractEq(op, common, x, y1);
      var (c2, x'', r) := C.ExtractEq(op, c1, x', y2);
      C.ExtractEq(op, common, x, Junction(op, y1, y2)) == (c2, x'', Junction(op, l, r))
  {
  }

  method FinishExtractRight(op: Op, common: Node?, e1: Node, e2: Node, l: Node) returns (c: Node?, r1: Node)
    requires e2.kind == JunctionKind(op) && e2.right != null && e2.right.Valid() && l.Valid() && e1.Valid() && OptValid(common)
    requires e2 !in l.repr + e2.right.repr + e1.repr + OptRepr(common)
    requires l.repr !! e2.right.repr && l.repr !! e1.repr && e2.right.repr !! e1.repr
    requires OptRepr(common) !! l.repr && OptRepr(common) !! e2.right.repr && OptRepr(common) !! e1.repr
    modifies e2, e2.right.repr, e1.repr
    ensures OptValid(c) && e2.Valid() && r1.Valid()
    ensures e2.repr !! r1.repr && OptRepr(c) !! e2.repr && OptRepr(c) !! r1.repr
    ensures
      var (c2, x, r) := C.ExtractEq(op, old(OptExpr(common)), old(e1.Expr()), old(e2.right.Expr()));
      OptExpr(c) == c2 && e2.Expr() == Junction(op, old(l.Expr()), r) && r1.Expr() == x
    ensures fresh(OptRepr(c) - old(OptRepr(common)) - old(e1.repr))
    ensures fresh(e2.repr - {e2} - old(l.repr) - old(e2.right.repr)) && fresh(r1.repr - old(e1.repr))
    decreases Size(e1.Expr()) + Size(e2.right.Expr()), 3
  {
    hide C.ExtractEq, Size;
    var r;
    c, r1, r := ExtractEq(op, common, e1, e2.right);
    e2.SetOperands(l, r);
  }

  /** expr_extract_eq_and and expr_extract_eq_or */
  method Extract(op: Op, e1: Node, e2: Node) returns (c: Node?, r1: Node, r2: Node)
    requires e1.Valid() && e2.Valid() && e1.repr !! e2.repr
    modifies e1.repr, e2.repr
    ensures OptValid(c) && r1.Valid() && r2.Valid()
    ensures r1.repr !! r2.repr && OptRepr(c) !! r1.repr && OptRepr(c) !! r2.repr
    ensures (OptExpr(c), r1.Expr(), r2.Expr()) == C.Extract(op, old(e1.Expr()), old(e2.Expr()))
  {
    hide C.ExtractEq, C.EliminateYN, Size;
    c, r1, r2 := ExtractEq(op, null, e1, e2);
    if c != null {
      StripBoth(r1, r2);
    }
  }
}
