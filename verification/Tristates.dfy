/** The three-valued logic of Kconfig: n < m < y, with minimum, maximum and
    2 - x for "and", "or" and "not" (scripts/kconfig/expr.h). */
module Tristates {
  type Tristate = t: int | 0 <= t <= 2 witness 0

  const NO: Tristate := 0
  const MOD: Tristate := 1
  const YES: Tristate := 2

  /** The two connectives an expression node can carry. */
  datatype Op = AndOp | OrOp {
    function Dual(): Op {
      if AndOp? then OrOp else AndOp
    }

    /** The operand that leaves the other one as it is. */
    function Identity(): Tristate {
      if AndOp? then YES else NO
    }

    /** The operand that decides the result alone. */
    function Absorber(): Tristate {
      if AndOp? then NO else YES
    }
  }

  function Min(a: Tristate, b: Tristate): Tristate {
    if a < b then a else b
  }

  function Max(a: Tristate, b: Tristate): Tristate {
    if a > b then a else b
  }

  function Negate(a: Tristate): Tristate {
    2 - a
  }

  function Apply(op: Op, a: Tristate, b: Tristate): Tristate {
    if op.AndOp? then Min(a, b) else Max(a, b)
  }

  /** Kleene's information order: m says nothing, n and y are verdicts.  `a` is
      at most as informative as `b`. */
  predicate Below(a: Tristate, b: Tristate) {
    a == MOD || a == b
  }

  /** The text sym_get_string_value gives for a tristate. */
  function TriName(t: Tristate): string {
    if t == NO then "n" else if t == MOD then "m" else "y"
  }

  /** A boolean symbol never holds m: it is promoted to y. */
  function Promote(t: Tristate): Tristate {
    if t == MOD then YES else t
  }

  /** Two factorings done one after the other are one factoring of the junction. */
  lemma FactorsCompose(op: Op, c1: Tristate, c2: Tristate, l: Tristate, l': Tristate, r: Tristate, r': Tristate,
                       x: Tristate, x': Tristate, x'': Tristate)
    requires l == Apply(op, c1, l') && x == Apply(op, c1, x')
    requires r == Apply(op, c2, r') && x' == Apply(op, c2, x'')
    ensures Apply(op, l, r) == Apply(op, Apply(op, c1, c2), Apply(op, l', r'))
    ensures x == Apply(op, Apply(op, c1, c2), x'')
  {
  }

  lemma ApplyRegroups(op: Op, a: Tristate, b: Tristate, c: Tristate)
    ensures Apply(op, a, Apply(op, b, c)) == Apply(op, Apply(op, a, b), c)
    ensures Apply(op, a, b) == Apply(op, b, a)
  {
  }

  lemma ApplyMonotone(op: Op, c: Tristate, a: Tristate, b: Tristate)
    requires a <= b
    ensures Apply(op, c, a) <= Apply(op, c, b)
  {
  }

  /** A common operand taken from two values and the rest regrouped: with `common`
      growing to c1 and then c2, both products stay what they were. */
  lemma ProductsCompose(op: Op, common: Tristate, c1: Tristate, c2: Tristate, l: Tristate, l': Tristate,
                        r: Tristate, r': Tristate, x: Tristate, x': Tristate, x'': Tristate)
    requires Apply(op, c1, l') == Apply(op, common, l) && Apply(op, c1, x') == Apply(op, common, x)
    requires Apply(op, c2, r') == Apply(op, c1, r) && Apply(op, c2, x'') == Apply(op, c1, x')
    ensures Apply(op, c2, Apply(op, l', r')) == Apply(op, common, Apply(op, l, r))
    ensures Apply(op, c2, x'') == Apply(op, common, x)
  {
  }
}
