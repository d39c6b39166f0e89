/** Dependency expressions, their symbols and their meaning
    (scripts/kconfig/expr.h, expr_calc_value in scripts/kconfig/expr.c). */
module Exprs {
  import opened Options
  import opened Tristates

  datatype SymbolType = UnknownType | BooleanType | TristateType | IntType | HexType | StringType

  /** The three truth values, other quoted constants (sym_lookup returns the same
      symbol for the same text, and never one of these three for a longer text), and
      the symbols a configuration declares or refers to. */
  datatype AnySymbol =
    | SymYes
    | SymMod
    | SymNo
    | Quoted(text: string)
    | Config(id: nat, given: string, kind: SymbolType)
  {
    const constant: bool := !Config?
    const stype: SymbolType := if Config? then kind else UnknownType
    const name: string :=
      match this
      case SymYes => "y"
      case SymMod => "m"
      case SymNo => "n"
      case Quoted(t) => t
      case Config(_, l, _) => l
  }

  type Symbol = s: AnySymbol | s.Quoted? ==> s.text != "y" && s.text != "m" && s.text != "n" witness SymYes

  /** struct expr without choice and range nodes; a missing expression (NULL) is
      `None` where the program allows it. */
  datatype Expr =
    | Sym(sym: Symbol)
    | Equal(lhs: Symbol, rhs: Symbol)
    | Unequal(lhs: Symbol, rhs: Symbol)
    | Not(arg: Expr)
    | Junction(op: Op, left: Expr, right: Expr)

  /** What every symbol holds: a tristate and a text. */
  datatype Valuation = Valuation(tri: Symbol -> Tristate, str: Symbol -> string)

  predicate IsTruthValue(s: Symbol) {
    s.SymYes? || s.SymMod? || s.SymNo?
  }

  function ConstantFor(t: Tristate): Symbol {
    if t == NO then SymNo else if t == MOD then SymMod else SymYes
  }

  /** What the evaluator guarantees of the values symbols hold: y, m and n hold
      themselves, a constant has its own text, a boolean symbol is never m, and text
      and tristate of a boolean or tristate symbol agree. */
  ghost predicate Typed(v: Valuation) {
    && v.tri(SymYes) == YES && v.tri(SymMod) == MOD && v.tri(SymNo) == NO
    && (forall s: Symbol :: s.constant ==> v.str(s) == s.name)
    && (forall s: Symbol :: s.stype == BooleanType ==> v.tri(s) != MOD)
    && (forall s: Symbol :: s.stype == BooleanType || s.stype == TristateType ==> v.str(s) == TriName(v.tri(s)))
  }

  function Truth(b: bool): Tristate {
    if b then YES else NO
  }

  function Value(e: Expr, v: Valuation): Tristate {
    match e
    case Sym(s) => v.tri(s)
    case Equal(l, r) => Truth(v.str(l) == v.str(r))
    case Unequal(l, r) => Truth(v.str(l) != v.str(r))
    case Not(x) => Negate(Value(x, v))
    case Junction(op, l, r) => Apply(op, Value(l, v), Value(r, v))
  }

  /** A missing expression counts as y. */
  function OptValue(e: Option<Expr>, v: Valuation): Tristate {
    match e
    case None => YES
    case Some(x) => Value(x, v)
  }

  /** Number of nodes. */
  function Size(e: Expr): nat
    ensures Size(e) >= 1
  {
    match e
    case Not(x) => 1 + Size(x)
    case Junction(_, l, r) => 1 + Size(l) + Size(r)
    case _ => 1
  }

  /** The tree with a constant at every place where `op` could drop or absorb. */
  function Unit(op: Op): Expr {
    Sym(ConstantFor(op.Identity()))
  }

  function Zero(op: Op): Expr {
    Sym(ConstantFor(op.Absorber()))
  }

  predicate IsJunction(op: Op, e: Expr) {
    e.Junction? && e.op == op
  }

  function AllocAnd(e1: Option<Expr>, e2: Option<Expr>): (r: Option<Expr>)
    ensures forall v :: OptValue(r, v) == Min(OptValue(e1, v), OptValue(e2, v))
  {
    if e1.None? then e2 else if e2.None? then e1 else Some(Junction(AndOp, e1.value, e2.value))
  }

  /** `b` keeps every verdict of `a`: where `a` is n or y, `b` is the same. */
  ghost predicate Refines(a: Expr, b: Expr) {
    forall v: Valuation :: Typed(v) ==> Below(Value(a, v), Value(b, v))
  }

  /** Every symbol the expression mentions. */
  function Symbols(e: Expr): set<Symbol> {
    match e
    case Sym(s) => {s}
    case Equal(l, r) => {l, r}
    case Unequal(l, r) => {l, r}
    case Not(x) => Symbols(x)
    case Junction(_, l, r) => Symbols(l) + Symbols(r)
  }

  /** Minimum, maximum and 2 - x cannot make m out of n and y alone. */
  lemma {:induction false} TwoValued(e: Expr, v: Valuation)
    requires forall s :: s in Symbols(e) ==> v.tri(s) != MOD
    ensures Value(e, v) != MOD
  {
    match e
    case Not(x) => TwoValued(x, v);
    case Junction(_, l, r) => TwoValued(l, v); TwoValued(r, v);
    case _ =>
  }
}
