/** What a configuration declares about its symbols, and the graph
    sym_check_deps walks over it (scripts/kconfig/symbol.c). */
module SymbolDecls {
  import opened Options
  import opened Tristates
  import opened Exprs

  /** The property types of symbols that are not choices. */
  datatype PropType = PromptProp | CommentProp | MenuProp | DefaultProp | SelectProp | RangeProp

  /** A property shows when `visible` is not n; a missing condition is y. */
  datatype Property = Property(ptype: PropType, hasText: bool, visible: Option<Expr>, expr: Option<Expr>)

  datatype Decl = Decl(props: seq<Property>, revDep: Option<Expr>)

  type Table = map<Symbol, Decl>

  function OptSymbols(e: Option<Expr>): set<Symbol> {
    match e
    case None => {}
    case Some(x) => Symbols(x)
  }

  /** The symbols the check visits for one property: selects are skipped, and only
      the value of a default is looked at besides the condition. */
  function PropSymbols(p: Property): set<Symbol> {
    if p.ptype == SelectProp then {}
    else OptSymbols(p.visible) + (if p.ptype == DefaultProp then OptSymbols(p.expr) else {})
  }

  function PropsSymbols(props: seq<Property>): set<Symbol> {
    if props == [] then {} else PropSymbols(props[0]) + PropsSymbols(props[1..])
  }

  /** Symbols without a declaration (constants, undefined ones) have no properties. */
  function DeclOf(t: Table, s: Symbol): Decl {
    if s in t then t[s] else Decl([], None)
  }

  function Deps(t: Table, s: Symbol): set<Symbol> {
    OptSymbols(DeclOf(t, s).revDep) + PropsSymbols(DeclOf(t, s).props)
  }

  function Next(c: seq<Symbol>, i: nat): Symbol
    requires i < |c|
  {
    if i + 1 < |c| then c[i + 1] else c[0]
  }

  /** Each symbol of the sequence depends on the next one, and the last on the first. */
  predicate IsCycle(t: Table, c: seq<Symbol>) {
    |c| > 0 && forall i :: 0 <= i < |c| ==> Next(c, i) in Deps(t, c[i])
  }

  ghost predicate HasCycle(t: Table) {
    exists c :: IsCycle(t, c)
  }

  type RankMap = map<Symbol, nat>

  function RankOf(rank: RankMap, s: Symbol): nat {
    if s in rank then rank[s] else 0
  }

  /** Along every dependency the rank strictly falls. */
  ghost predicate Ranked(t: Table, rank: RankMap) {
    forall s, d :: s in t && d in Deps(t, s) ==> RankOf(rank, d) < RankOf(rank, s)
  }

  lemma OnlyDeclaredDepend(t: Table, s: Symbol)
    ensures s !in t ==> Deps(t, s) == {}
  {
  }

  lemma {:induction false} RankFallsAlong(t: Table, rank: RankMap, c: seq<Symbol>, i: nat)
    requires Ranked(t, rank) && IsCycle(t, c) && i < |c|
    ensures RankOf(rank, c[i]) + i <= RankOf(rank, c[0])
    decreases i
  {
    hide Deps;
    if i > 0 {
      RankFallsAlong(t, rank, c, i - 1);
      assert Next(c, i - 1) in Deps(t, c[i - 1]);
      OnlyDeclaredDepend(t, c[i - 1]);
    }
  }

  lemma RankedHasNoCycle(t: Table, rank: RankMap)
    requires Ranked(t, rank)
    ensures !HasCycle(t)
  {
    if c :| IsCycle(t, c) {
      var last := |c| - 1;
      RankFallsAlong(t, rank, c, last);
      assert Next(c, last) in Deps(t, c[last]);
      OnlyDeclaredDepend(t, c[last]);
      assert false;
    }
  }

  // Which occurrences of a symbol make an edge

  /** The symbol is an operand of the expression, or one side of a comparison in it. */
  predicate Mentions(e: Expr, d: Symbol) {
    match e
    case Sym(s) => s == d
    case Equal(l, r) => l == d || r == d
    case Unequal(l, r) => l == d || r == d
    case Not(x) => Mentions(x, d)
    case Junction(_, l, r) => Mentions(l, d) || Mentions(r, d)
  }

  predicate MentionedIn(e: Option<Expr>, d: Symbol) {
    e.Some? && Mentions(e.value, d)
  }

  /** The condition of a property makes an edge unless it is a select, its value only if
      it is a default. */
  predicate PropertyNeeds(p: Property, d: Symbol) {
    || (p.ptype != SelectProp && MentionedIn(p.visible, d))
    || (p.ptype == DefaultProp && MentionedIn(p.expr, d))
  }

  predicate SomeNeeds(props: seq<Property>, d: Symbol) {
    exists i :: 0 <= i < |props| && PropertyNeeds(props[i], d)
  }

  predicate DeclNeeds(decl: Decl, d: Symbol) {
    MentionedIn(decl.revDep, d) || SomeNeeds(decl.props, d)
  }

  predicate Needs(t: Table, s: Symbol, d: Symbol) {
    s in t && DeclNeeds(t[s], d)
  }

  lemma {:induction false} SymbolsMentioned(e: Expr, d: Symbol)
    ensures d in Symbols(e) <==> Mentions(e, d)
  {
    match e
    case Not(x) => SymbolsMentioned(x, d);
    case Junction(_, l, r) => SymbolsMentioned(l, d); SymbolsMentioned(r, d);
    case _ =>
  }

  lemma OptMentioned(e: Option<Expr>, d: Symbol)
    ensures d in OptSymbols(e) <==> MentionedIn(e, d)
  {
    if e.Some? {
      SymbolsMentioned(e.value, d);
    }
  }

  lemma SomeNeedsStep(p: Property, rest: seq<Property>, d: Symbol)
    ensures SomeNeeds([p] + rest, d) <==> PropertyNeeds(p, d) || SomeNeeds(rest, d)
  {
    hide PropertyNeeds;
    var props := [p] + rest;
    assert props[0] == p && forall i :: 0 <= i < |rest| ==> props[i + 1] == rest[i];
    if i :| 0 <= i < |props| && PropertyNeeds(props[i], d) {
      assert i > 0 ==> PropertyNeeds(rest[i - 1], d);
    }
  }

  lemma {:induction false} PropsNeed(props: seq<Property>, d: Symbol)
    ensures d in PropsSymbols(props) <==> SomeNeeds(props, d)
  {
    hide OptSymbols, MentionedIn;
    if props != [] {
      OptMentioned(props[0].visible, d);
      OptMentioned(props[0].expr, d);
      PropsNeed(props[1..], d);
      SomeNeedsStep(props[0], props[1..], d);
      assert props == [props[0]] + props[1..];
    }
  }

  /** The graph has exactly the edges of these occurrences. */
  lemma EdgesAre(t: Table, s: Symbol, d: Symbol)
    ensures d in Deps(t, s) <==> Needs(t, s, d)
  {
    hide OptSymbols, PropsSymbols, MentionedIn, PropertyNeeds;
    var decl := DeclOf(t, s);
    OptMentioned(decl.revDep, d);
    OptMentioned(None, d);
    PropsNeed(decl.props, d);
    PropsNeed([], d);
    NotMentioned(d);
  }

  lemma NotMentioned(d: Symbol)
    ensures !MentionedIn(None, d)
  {
  }

  /** A cycle by the occurrences that make its edges. */
  predicate NeedsCycle(t: Table, c: seq<Symbol>) {
    |c| > 0 && forall i :: 0 <= i < |c| ==> Needs(t, c[i], Next(c, i))
  }

  lemma CyclesAre(t: Table, c: seq<Symbol>)
    ensures IsCycle(t, c) <==> NeedsCycle(t, c)
  {
    hide Deps, Needs;
    forall i | 0 <= i < |c|
      ensures Next(c, i) in Deps(t, c[i]) <==> Needs(t, c[i], Next(c, i))
    {
      EdgesAre(t, c[i], Next(c, i));
    }
  }

  /** What the graph does not see of a list of properties: the selects, and the values of
      properties that are no defaults. */
  function Bare(props: seq<Property>): seq<Property> {
    if props == [] then []
    else if props[0].ptype == SelectProp then Bare(props[1..])
    else [if props[0].ptype == DefaultProp then props[0] else props[0].(expr := None)] + Bare(props[1..])
  }

  lemma {:induction false} BareNeeds(props: seq<Property>, d: Symbol)
    ensures SomeNeeds(props, d) <==> SomeNeeds(Bare(props), d)
  {
    hide MentionedIn, SomeNeeds;
    if props != [] {
      var p, rest := props[0], props[1..];
      var bare := if p.ptype == DefaultProp then p else p.(expr := None);
      BareNeeds(rest, d);
      SomeNeedsStep(p, rest, d);
      SomeNeedsStep(bare, Bare(rest), d);
      assert props == [p] + rest;
    }
  }

  /** Tables that differ only in selects and in such values have the same cycles. */
  lemma SelectsMakeNoEdge(t1: Table, t2: Table)
    requires t1.Keys == t2.Keys
    requires forall s :: s in t1 ==> t1[s].revDep == t2[s].revDep && Bare(t1[s].props) == Bare(t2[s].props)
    ensures forall s, d :: Needs(t1, s, d) <==> Needs(t2, s, d)
    ensures HasCycle(t1) <==> HasCycle(t2)
  {
    hide SomeNeeds, MentionedIn, Bare;
    forall s, d
      ensures Needs(t1, s, d) <==> Needs(t2, s, d)
    {
      if s in t1 {
        BareNeeds(t1[s].props, d);
        BareNeeds(t2[s].props, d);
      }
    }
    SameCycles(t1, t2);
    SameCycles(t2, t1);
  }

  lemma SameCycles(t1: Table, t2: Table)
    requires forall s, d :: Needs(t1, s, d) ==> Needs(t2, s, d)
    ensures HasCycle(t1) ==> HasCycle(t2)
  {
    hide Needs, IsCycle;
    if c :| IsCycle(t1, c) {
      CyclesAre(t1, c);
      forall i | 0 <= i < |c|
        ensures Needs(t2, c[i], Next(c, i))
      {
        assert Needs(t1, c[i], Next(c, i));
      }
      CyclesAre(t2, c);
    }
  }
}
