/** What menu_finalize (scripts/kconfig/menu.c) makes of the conditions in a tree of menu
    entries: each entry hands the condition of its prompt, or else its dependency, down to
    its own entries. */
module MenuConditions {
  import opened Options
  import opened Tristates
  import opened Exprs
  import opened MenuLinks
  import opened MenuShape

  /** The dependencies of all entries, and the conditions of their prompts. */
  datatype Conditions = Conditions(dep: map<Ref, Option<Expr>>, visible: map<Ref, Option<Expr>>)

  function CondAt(c: map<Ref, Option<Expr>>, m: Ref): Option<Expr> {
    if m in c then c[m] else None
  }

  function DepAt(c: Conditions, m: Ref, v: Valuation): Tristate {
    OptValue(CondAt(c.dep, m), v)
  }

  function PromptAt(c: Conditions, m: Ref, v: Valuation): Tristate {
    OptValue(CondAt(c.visible, m), v)
  }

  /** What an entry hands down. */
  function HandedBy(c: Conditions, prompts: set<Ref>, p: Ref, v: Valuation): Tristate {
    if p in prompts then PromptAt(c, p, v) else DepAt(c, p, v)
  }

  /** No tristate symbol is m. */
  ghost predicate Decided(v: Valuation) {
    Typed(v) && forall s: Symbol :: s.stype == TristateType ==> v.tri(s) != MOD
  }

  /** `d1` is what a condition `d0` has become below `h`: n if one of them is, and where
      nothing is m exactly the smaller one. */
  predicate Joined(exact: bool, h: Tristate, d0: Tristate, d1: Tristate) {
    && (h == NO || d0 == NO ==> d1 == NO)
    && (exact && h != MOD && d0 != MOD ==> d1 == Min(h, d0))
  }

  /** Entry `m` had the conditions of `c0` and was handed `h`: its dependency lies below
      `h`, and the condition of its prompt below its dependency. */
  ghost predicate Reached(c0: Conditions, c1: Conditions, prompts: set<Ref>, h: Tristate, m: Ref, v: Valuation) {
    && Joined(Decided(v), h, DepAt(c0, m, v), DepAt(c1, m, v))
    && (m in prompts ==> Joined(Decided(v), DepAt(c1, m, v), PromptAt(c0, m, v), PromptAt(c1, m, v)))
  }

  /** That holds under every valuation, `h` being the expression handed down. */
  ghost predicate HandedTo(c0: Conditions, c1: Conditions, prompts: set<Ref>, h: Option<Expr>, m: Ref) {
    forall v :: Typed(v) ==> Reached(c0, c1, prompts, OptValue(h, v), m, v)
  }

  ghost predicate Hands(c0: Conditions, c1: Conditions, prompts: set<Ref>, p: Ref, m: Ref) {
    forall v :: Typed(v) ==> Reached(c0, c1, prompts, HandedBy(c1, prompts, p, v), m, v)
  }

  ghost predicate HandsAll(c0: Conditions, c1: Conditions, prompts: set<Ref>, p: Ref, kids: Forest) {
    forall i :: 0 <= i < |kids| ==> Hands(c0, c1, prompts, p, kids[i].id)
  }

  /** Every entry of the forest has handed its condition down, at all depths. */
  ghost predicate Inherits(c0: Conditions, c1: Conditions, prompts: set<Ref>, f: Forest) {
    f != [] ==>
      && HandsAll(c0, c1, prompts, f[0].id, f[0].kids)
      && Inherits(c0, c1, prompts, f[0].kids) && Inherits(c0, c1, prompts, f[1..])
  }

  ghost predicate SameAs(c1: Conditions, c2: Conditions, x: Ref) {
    CondAt(c1.dep, x) == CondAt(c2.dep, x) && CondAt(c1.visible, x) == CondAt(c2.visible, x)
  }

  /** Only entries of `changed` have other conditions. */
  ghost predicate SameBut(c1: Conditions, c2: Conditions, changed: set<Ref>) {
    forall x :: x !in changed ==> SameAs(c1, c2, x)
  }

  ghost predicate SameOn(c1: Conditions, c2: Conditions, part: set<Ref>) {
    forall x :: x in part ==> SameAs(c1, c2, x)
  }

  /** The entries below the roots. */
  function Inner(f: Forest): set<Ref> {
    if f == [] then {} else Ids(f[0].kids) + Inner(f[1..])
  }

  predicate IsRoot(f: Forest, x: Ref) {
    exists i :: 0 <= i < |f| && f[i].id == x
  }

  /** The forest is done: the conditions below its roots are what was handed down, and
      no others have changed. */
  ghost predicate HandedDown(c0: Conditions, c1: Conditions, prompts: set<Ref>, f: Forest) {
    Inherits(c0, c1, prompts, f) && SameBut(c0, c1, Inner(f))
  }

  lemma {:induction false} InnerIn(f: Forest)
    ensures Inner(f) <= Ids(f)
    ensures NoDup(Preorder(f)) ==> forall x :: IsRoot(f, x) ==> x !in Inner(f)
  {
    if f != [] {
      PreorderParts(f);
      InnerIn(f[1..]);
      assert forall x :: IsRoot(f, x) ==> x == f[0].id || IsRoot(f[1..], x) by {
        forall x | IsRoot(f, x) && x != f[0].id
          ensures IsRoot(f[1..], x)
        {
          var i :| 0 <= i < |f| && f[i].id == x;
          assert f[1..][i - 1].id == x;
        }
      }
      RootsIn(f[1..]);
    }
  }

  lemma RootsIn(f: Forest)
    ensures forall x :: IsRoot(f, x) ==> x in Ids(f)
  {
    forall x | IsRoot(f, x)
      ensures x in Ids(f)
    {
      var i: nat :| i < |f| && f[i].id == x;
      RootIn(f, i);
    }
  }

  lemma {:induction false} InnerConcat(f: Forest, g: Forest)
    ensures Inner(f + g) == Inner(f) + Inner(g)
  {
    if f == [] {
      assert f + g == g;
    } else {
      InnerConcat(f[1..], g);
      assert (f + g)[1..] == f[1..] + g;
    }
  }

  lemma {:induction false} InheritsConcat(c0: Conditions, c1: Conditions, prompts: set<Ref>, f: Forest, g: Forest)
    requires Inherits(c0, c1, prompts, f) && Inherits(c0, c1, prompts, g)
    ensures Inherits(c0, c1, prompts, f + g)
  {
    hide HandsAll;
    if f == [] {
      assert f + g == g;
    } else {
      InheritsConcat(c0, c1, prompts, f[1..], g);
      assert (f + g)[1..] == f[1..] + g;
    }
  }

  lemma ReachedSame(c0: Conditions, c1: Conditions, c0': Conditions, c1': Conditions, prompts: set<Ref>, h: Tristate, m: Ref, v: Valuation)
    requires Reached(c0, c1, prompts, h, m, v) && SameAs(c0, c0', m) && SameAs(c1, c1', m)
    ensures Reached(c0', c1', prompts, h, m, v)
  {
    hide CondAt, OptValue, Decided, Joined;
  }

  lemma HandedToSame(c0: Conditions, c1: Conditions, c0': Conditions, c1': Conditions, prompts: set<Ref>, h: Option<Expr>, m: Ref)
    requires HandedTo(c0, c1, prompts, h, m) && SameAs(c0, c0', m) && SameAs(c1, c1', m)
    ensures HandedTo(c0', c1', prompts, h, m)
  {
    hide Reached, SameAs, OptValue, Typed;
    forall v | Typed(v)
      ensures Reached(c0', c1', prompts, OptValue(h, v), m, v)
    {
      ReachedSame(c0, c1, c0', c1', prompts, OptValue(h, v), m, v);
    }
  }

  lemma HandsSame(c0: Conditions, c1: Conditions, c0': Conditions, c1': Conditions, prompts: set<Ref>, p: Ref, m: Ref)
    requires Hands(c0, c1, prompts, p, m)
    requires SameAs(c0, c0', m) && SameAs(c1, c1', m) && SameAs(c1, c1', p)
    ensures Hands(c0', c1', prompts, p, m)
  {
    hide Reached, CondAt, OptValue, Typed;
    forall v | Typed(v)
      ensures Reached(c0', c1', prompts, HandedBy(c1', prompts, p, v), m, v)
    {
      ReachedSame(c0, c1, c0', c1', prompts, HandedBy(c1, prompts, p, v), m, v);
    }
  }

  /** A dependency against the conjunction it was made of: verdicts are kept. */
  ghost predicate DepKeeps(c0: Conditions, c1: Conditions, h: Option<Expr>, m: Ref) {
    forall v :: Typed(v) ==> Below(Min(OptValue(h, v), DepAt(c0, m, v)), DepAt(c1, m, v))
  }

  /** The condition of a prompt: verdicts are kept, or, where m is promoted anyhow, "is n",
      and "is y" as "is not n"; as long as no tristate symbol is m, verdicts all the same. */
  ghost predicate PromptKeeps(c0: Conditions, c1: Conditions, plain: bool, m: Ref) {
    forall v :: Typed(v) ==>
      var b, t := Min(DepAt(c1, m, v), PromptAt(c0, m, v)), PromptAt(c1, m, v);
      (plain || Decided(v) ==> Below(b, t)) && (b == NO ==> t == NO) && (b == YES ==> t != NO)
  }

  /** So an entry that was handed a condition is n wherever that is, or where its own
      conditions are. */
  lemma KeptIsHanded(c0: Conditions, c1: Conditions, c2: Conditions, prompts: set<Ref>, h: Option<Expr>, plain: bool, m: Ref)
    requires DepKeeps(c0, c1, h, m) && c2.dep == c1.dep && c1.visible == c0.visible
    requires m in prompts ==> PromptKeeps(c1, c2, plain, m)
    ensures HandedTo(c0, c2, prompts, h, m) && DepKeeps(c0, c2, h, m)
    ensures m in prompts ==> PromptKeeps(c0, c2, plain, m)
  {
    hide CondAt, OptValue, Typed, Decided;
  }

  lemma OthersSame(c0: Conditions, c1: Conditions, c2: Conditions, m: Ref)
    requires c1.visible == c0.visible && c1.dep == c0.dep[m := CondAt(c1.dep, m)]
    requires c2.dep == c1.dep && (c2 == c1 || c2.visible == c1.visible[m := CondAt(c2.visible, m)])
    ensures forall x :: x != m ==> SameAs(c0, c2, x)
  {
  }

  /** One more root of a forest has got what is handed down. */
  lemma HandedToAll(c0: Conditions, c1: Conditions, c2: Conditions, prompts: set<Ref>, h: Option<Expr>, kids: Forest, n: nat)
    requires n < |kids| && forall i :: 0 <= i < n ==> HandedTo(c0, c1, prompts, h, kids[i].id)
    requires SameAs(c0, c1, kids[n].id) && HandedTo(c1, c2, prompts, h, kids[n].id)
    requires forall i :: 0 <= i < n ==> SameAs(c1, c2, kids[i].id)
    ensures forall i :: 0 <= i <= n ==> HandedTo(c0, c2, prompts, h, kids[i].id)
  {
    hide HandedTo, SameAs;
    SameReflexive(c0);
    SameReflexive(c2);
    forall i | 0 <= i <= n
      ensures HandedTo(c0, c2, prompts, h, kids[i].id)
    {
      if i == n {
        SameSymmetric(c0, c1, kids[n].id);
        HandedToSame(c1, c2, c0, c2, prompts, h, kids[n].id);
      } else {
        HandedToSame(c0, c1, c0, c2, prompts, h, kids[i].id);
      }
    }
  }

  lemma SameReflexive(c: Conditions)
    ensures forall x :: SameAs(c, c, x)
  {
  }

  lemma SameTransitive(c1: Conditions, c2: Conditions, c3: Conditions)
    ensures forall x :: SameAs(c1, c2, x) && SameAs(c2, c3, x) ==> SameAs(c1, c3, x)
  {
  }

  lemma SameSymmetric(c1: Conditions, c2: Conditions, x: Ref)
    ensures SameAs(c1, c2, x) ==> SameAs(c2, c1, x)
  {
  }

  /** The expression that is handed down is the one `p` has afterwards, too. */
  lemma HandedIsHands(c0: Conditions, c1: Conditions, prompts: set<Ref>, p: Ref, m: Ref)
    requires HandedTo(c0, c1, prompts, if p in prompts then CondAt(c1.visible, p) else CondAt(c1.dep, p), m)
    ensures Hands(c0, c1, prompts, p, m)
  {
    hide Reached, CondAt, OptValue, Typed;
  }

  lemma HandsFrame(c0: Conditions, c1: Conditions, c0': Conditions, c1': Conditions, prompts: set<Ref>, p: Ref, kids: Forest)
    requires HandsAll(c0, c1, prompts, p, kids)
    requires SameOn(c0, c0', Ids(kids)) && SameOn(c1, c1', Ids(kids) + {p})
    ensures HandsAll(c0', c1', prompts, p, kids)
  {
    hide Hands, CondAt, Ids;
    forall i | 0 <= i < |kids|
      ensures Hands(c0', c1', prompts, p, kids[i].id)
    {
      RootIn(kids, i);
      HandsSame(c0, c1, c0', c1', prompts, p, kids[i].id);
    }
  }

  /** The conditions of other entries do not matter; of the roots only what is handed
      down does. */
  lemma {:induction false} InheritsFrame(c0: Conditions, c1: Conditions, c0': Conditions, c1': Conditions, prompts: set<Ref>, f: Forest)
    requires Inherits(c0, c1, prompts, f)
    requires SameOn(c0, c0', Inner(f)) && SameOn(c1, c1', Ids(f))
    ensures Inherits(c0', c1', prompts, f)
  {
    hide HandsAll;
    if f != [] {
      InnerIn(f[0].kids);
      HandsFrame(c0, c1, c0', c1', prompts, f[0].id, f[0].kids);
      InheritsFrame(c0, c1, c0', c1', prompts, f[0].kids);
      InheritsFrame(c0, c1, c0', c1', prompts, f[1..]);
    }
  }

  lemma NothingHanded(c: Conditions, prompts: set<Ref>)
    ensures HandedDown(c, c, prompts, [])
  {
  }

  /** A tree without entries. */
  lemma LeafHands(c: Conditions, prompts: set<Ref>, p: Ref)
    ensures HandedDown(c, c, prompts, [Node(p, [])])
  {
    assert [Node(p, [])][1..] == [];
  }

  /** First one part of a forest, then the other. */
  lemma HandedGrows(c0: Conditions, c1: Conditions, c2: Conditions, prompts: set<Ref>, f: Forest, g: Forest)
    requires HandedDown(c0, c1, prompts, f) && HandedDown(c1, c2, prompts, g) && NoDup(Preorder(f + g))
    ensures HandedDown(c0, c2, prompts, f + g)
  {
    hide Inherits;
    PreorderSplit(f, g, f + g);
    InnerIn(f);
    InnerIn(g);
    InnerConcat(f, g);
    InheritsFrame(c0, c1, c0, c2, prompts, f);
    InheritsFrame(c1, c2, c0, c2, prompts, g);
    InheritsConcat(c0, c2, prompts, f, g);
  }

  /** An entry hands its condition down, then its entries do. */
  lemma HandedBelow(c0: Conditions, c1: Conditions, c2: Conditions, prompts: set<Ref>, p: Ref, kids: Forest)
    requires HandsAll(c0, c1, prompts, p, kids) && HandedDown(c1, c2, prompts, kids)
    requires forall x :: !IsRoot(kids, x) ==> SameAs(c0, c1, x)
    requires NoDup(Preorder(kids)) && p !in Ids(kids)
    ensures HandedDown(c0, c2, prompts, [Node(p, kids)])
  {
    hide Hands, Ids, Inherits, NoDup;
    InnerIn(kids);
    RootsIn(kids);
    InheritsFrame(c1, c2, c0, c2, prompts, kids);
    forall i | 0 <= i < |kids|
      ensures Hands(c0, c2, prompts, p, kids[i].id)
    {
      assert IsRoot(kids, kids[i].id);
      HandsSame(c0, c1, c0, c2, prompts, p, kids[i].id);
    }
    OneTree(c0, c2, prompts, p, kids);
  }

  lemma OneTree(c0: Conditions, c1: Conditions, prompts: set<Ref>, p: Ref, kids: Forest)
    requires HandsAll(c0, c1, prompts, p, kids) && Inherits(c0, c1, prompts, kids)
    ensures Inherits(c0, c1, prompts, [Node(p, kids)]) && Inner([Node(p, kids)]) == Ids(kids)
  {
    hide HandsAll;
    assert [Node(p, kids)][1..] == [];
  }

  /** What lies behind when `rest` is still ahead. */
  function Behind(all: Forest, rest: Forest): Forest {
    if |rest| <= |all| then all[..|all| - |rest|] else []
  }

  /** What is ahead in a list gets shorter, and what is behind is done. */
  lemma HandedPrefix(c0: Conditions, c1: Conditions, c2: Conditions, prompts: set<Ref>, all: Forest, rest: Forest, rest': Forest)
    requires IsSuffix(rest, all) && IsSuffix(rest', rest) && NoDup(Preorder(all))
    requires HandedDown(c0, c1, prompts, Behind(all, rest))
    requires HandedDown(c1, c2, prompts, Behind(rest, rest'))
    ensures IsSuffix(rest', all) && HandedDown(c0, c2, prompts, Behind(all, rest'))
  {
    hide HandedDown, Preorder, NoDup;
    SuffixTrans(rest', rest, all);
    var a, b := Behind(all, rest), Behind(rest, rest');
    assert a + b == Behind(all, rest');
    assert (a + b) + rest' == all;
    PreorderSplit(a + b, rest', all);
    HandedGrows(c0, c1, c2, prompts, a, b);
  }

  /** A leaf in front changes nothing. */
  lemma LeafInFront(c0: Conditions, c1: Conditions, prompts: set<Ref>, p: Ref, f: Forest)
    requires HandedDown(c0, c1, prompts, f)
    ensures HandedDown(c0, c1, prompts, [Node(p, [])] + f)
  {
    assert ([Node(p, [])] + f)[1..] == f;
  }

  lemma NoneBehind(c: Conditions, prompts: set<Ref>, all: Forest)
    ensures IsSuffix(all, all) && HandedDown(c, c, prompts, Behind(all, all))
  {
  }

  // All depths

  /** Neither the dependency nor the condition of a prompt is other than n. */
  predicate IsOff(c: Conditions, prompts: set<Ref>, x: Ref, v: Valuation) {
    DepAt(c, x, v) == NO && (x in prompts ==> PromptAt(c, x, v) == NO)
  }

  /** Neither is n. */
  predicate IsOpen(c: Conditions, prompts: set<Ref>, x: Ref, v: Valuation) {
    DepAt(c, x, v) != NO && (x in prompts ==> PromptAt(c, x, v) != NO)
  }

  lemma HandsFirst(c0: Conditions, c1: Conditions, prompts: set<Ref>, p: Ref, kids: Forest, v: Valuation)
    requires kids != [] && HandsAll(c0, c1, prompts, p, kids) && Typed(v)
    ensures Reached(c0, c1, prompts, HandedBy(c1, prompts, p, v), kids[0].id, v)
    ensures HandsAll(c0, c1, prompts, p, kids[1..])
  {
    hide Reached, HandedBy, Typed;
    assert Hands(c0, c1, prompts, p, kids[0].id);
    forall i | 0 <= i < |kids[1..]|
      ensures Hands(c0, c1, prompts, p, kids[1..][i].id)
    {
      assert Hands(c0, c1, prompts, p, kids[i + 1].id);
    }
  }

  /** What is handed down is n: so is everything below, at all depths. */
  lemma {:induction false} OffBelow(c0: Conditions, c1: Conditions, prompts: set<Ref>, p: Ref, kids: Forest, x: Ref, v: Valuation)
    requires HandsAll(c0, c1, prompts, p, kids) && Inherits(c0, c1, prompts, kids)
    requires x in Ids(kids) && Typed(v) && HandedBy(c1, prompts, p, v) == NO
    ensures IsOff(c1, prompts, x, v)
    decreases kids
  {
    hide HandsAll, Typed, DepAt, PromptAt;
    HandsFirst(c0, c1, prompts, p, kids, v);
    if x in Ids(kids[0].kids) {
      OffBelow(c0, c1, prompts, kids[0].id, kids[0].kids, x, v);
    } else if x in Ids(kids[1..]) {
      OffBelow(c0, c1, prompts, p, kids[1..], x, v);
    }
  }

  /** An entry is n wherever what an entry it was declared below hands down is n. */
  lemma {:induction false} OffWhereDeclared(c0: Conditions, c1: Conditions, prompts: set<Ref>, f: Forest, a: Ref, x: Ref, v: Valuation)
    requires Inherits(c0, c1, prompts, f) && DeclaredBelow(f, a, x)
    requires Typed(v) && HandedBy(c1, prompts, a, v) == NO
    ensures IsOff(c1, prompts, x, v)
    decreases f
  {
    hide HandsAll, Typed, HandedBy, IsOff;
    if f[0].id == a && x in Ids(f[0].kids) {
      OffBelow(c0, c1, prompts, a, f[0].kids, x, v);
    } else if DeclaredBelow(f[0].kids, a, x) {
      OffWhereDeclared(c0, c1, prompts, f[0].kids, a, x, v);
    } else {
      OffWhereDeclared(c0, c1, prompts, f[1..], a, x, v);
    }
  }

  /** What an entry handed down before it was handed anything itself, if that was n. */
  lemma {:induction false} OffStays(c0: Conditions, c1: Conditions, prompts: set<Ref>, p: Ref, kids: Forest, a: Ref, v: Valuation)
    requires HandsAll(c0, c1, prompts, p, kids) && Inherits(c0, c1, prompts, kids)
    requires a in Ids(kids) && Typed(v)
    ensures HandedBy(c0, prompts, a, v) == NO ==> HandedBy(c1, prompts, a, v) == NO
    decreases kids
  {
    hide HandsAll, Typed, DepAt, PromptAt;
    HandsFirst(c0, c1, prompts, p, kids, v);
    if a in Ids(kids[0].kids) {
      OffStays(c0, c1, prompts, kids[0].id, kids[0].kids, a, v);
    } else if a in Ids(kids[1..]) {
      OffStays(c0, c1, prompts, p, kids[1..], a, v);
    }
  }

  lemma {:induction false} DeclaredIn(f: Forest, a: Ref, x: Ref)
    requires DeclaredBelow(f, a, x)
    ensures x in Inner(f) && a in Ids(f)
    decreases f
  {
    if f[0].id == a && x in Ids(f[0].kids) {
    } else if DeclaredBelow(f[0].kids, a, x) {
      DeclaredIn(f[0].kids, a, x);
      InnerIn(f[0].kids);
    } else {
      DeclaredIn(f[1..], a, x);
    }
  }

  /** Nothing is m: neither a tristate symbol nor a condition as it was declared. */
  ghost predicate Plain(c0: Conditions, part: set<Ref>, v: Valuation) {
    Decided(v) && forall x :: x in part ==> DepAt(c0, x, v) != MOD && PromptAt(c0, x, v) != MOD
  }

  /** Every entry that `x` is declared below, within the forest, was open. */
  ghost predicate AllOpen(c0: Conditions, prompts: set<Ref>, f: Forest, x: Ref, v: Valuation) {
    forall a :: DeclaredBelow(f, a, x) ==> IsOpen(c0, prompts, a, v)
  }

  /** Then an entry is not n exactly if it was open itself, what is handed to the forest
      is not n, and all entries were open that it was declared below. */
  lemma {:induction false} OpenExactly(c0: Conditions, c1: Conditions, prompts: set<Ref>, p: Ref, kids: Forest, x: Ref, v: Valuation)
    requires HandsAll(c0, c1, prompts, p, kids) && Inherits(c0, c1, prompts, kids) && NoDup(Preorder(kids))
    requires x in Ids(kids) && Plain(c0, Ids(kids), v) && HandedBy(c1, prompts, p, v) != MOD
    ensures HandedBy(c1, prompts, x, v) != MOD
    ensures HandedBy(c1, prompts, x, v) != NO <==>
              HandedBy(c1, prompts, p, v) != NO && IsOpen(c0, prompts, x, v) && AllOpen(c0, prompts, kids, x, v)
    decreases kids
  {
    hide HandsAll, Typed, DepAt, PromptAt, NoDup, Preorder, HandedBy, Reached, DeclaredBelow, IsOpen, AllOpen;
    PreorderParts(kids);
    HandsFirst(c0, c1, prompts, p, kids, v);
    FirstExactly(c0, c1, prompts, HandedBy(c1, prompts, p, v), kids, v);
    AllOpenParts(c0, prompts, kids, x, v);
    if x in Ids(kids[0].kids) {
      OpenExactly(c0, c1, prompts, kids[0].id, kids[0].kids, x, v);
    } else if x in Ids(kids[1..]) {
      OpenExactly(c0, c1, prompts, p, kids[1..], x, v);
    }
  }

  lemma FirstExactly(c0: Conditions, c1: Conditions, prompts: set<Ref>, h: Tristate, kids: Forest, v: Valuation)
    requires kids != [] && Reached(c0, c1, prompts, h, kids[0].id, v) && Plain(c0, Ids(kids), v) && h != MOD
    ensures Plain(c0, Ids(kids[0].kids), v) && Plain(c0, Ids(kids[1..]), v)
    ensures HandedBy(c1, prompts, kids[0].id, v) != MOD
    ensures HandedBy(c1, prompts, kids[0].id, v) != NO <==> h != NO && IsOpen(c0, prompts, kids[0].id, v)
  {
    hide Typed, DepAt, PromptAt;
  }

  lemma AllOpenParts(c0: Conditions, prompts: set<Ref>, f: Forest, x: Ref, v: Valuation)
    requires f != [] && NoDup(Preorder(f)) && x in Ids(f)
    ensures AllOpen(c0, prompts, f, x, v) <==>
              if x in Ids(f[0].kids) then IsOpen(c0, prompts, f[0].id, v) && AllOpen(c0, prompts, f[0].kids, x, v)
              else x == f[0].id || AllOpen(c0, prompts, f[1..], x, v)
  {
    hide IsOpen, NoDup, Preorder, Ids, DeclaredBelow;
    DeclaredParts(f, x);
  }

  lemma DeclaredParts(f: Forest, x: Ref)
    requires f != [] && NoDup(Preorder(f)) && x in Ids(f)
    ensures forall a :: DeclaredBelow(f, a, x) <==>
              if x in Ids(f[0].kids) then a == f[0].id || DeclaredBelow(f[0].kids, a, x)
              else x != f[0].id && DeclaredBelow(f[1..], a, x)
  {
    hide NoDup, Preorder;
    PreorderParts(f);
    InnerIn(f[1..]);
    forall g: Forest, a | DeclaredBelow(g, a, x)
      ensures x in Inner(g)
    {
      DeclaredIn(g, a, x);
    }
    InnerIn(f[0].kids);
  }

  /** `x` is n wherever `a`, an entry it was declared below, hands n down, before or after. */
  ghost predicate OffBelowOff(c0: Conditions, c1: Conditions, prompts: set<Ref>, f: Forest, a: Ref, x: Ref, v: Valuation) {
    DeclaredBelow(f, a, x) && Typed(v) && (HandedBy(c0, prompts, a, v) == NO || HandedBy(c1, prompts, a, v) == NO)
    ==> IsOff(c1, prompts, x, v)
  }

  /** Where nothing is m, that or its own conditions is why an entry is n. */
  ghost predicate OpenIff(c0: Conditions, c1: Conditions, prompts: set<Ref>, root: Ref, kids: Forest, x: Ref, v: Valuation) {
    x in Ids(kids) && Plain(c0, Ids(kids), v) && HandedBy(c0, prompts, root, v) != MOD
    ==> (HandedBy(c1, prompts, x, v) != NO <==>
           && HandedBy(c0, prompts, root, v) != NO && IsOpen(c0, prompts, x, v)
           && forall a :: DeclaredBelow(kids, a, x) ==> IsOpen(c0, prompts, a, v))
  }

  /** What the whole run does for an entry below the root. */
  lemma RunMeans(c0: Conditions, c1: Conditions, prompts: set<Ref>, root: Ref, kids: Forest, a: Ref, x: Ref, v: Valuation)
    requires HandedDown(c0, c1, prompts, [Node(root, kids)]) && NoDup(Preorder(kids)) && root !in Ids(kids)
    ensures OffBelowOff(c0, c1, prompts, [Node(root, kids)], a, x, v)
    ensures OpenIff(c0, c1, prompts, root, kids, x, v)
  {
    hide HandsAll, Typed, Decided, DepAt, PromptAt, IsOff, IsOpen, NoDup, Preorder, CondAt;
    var f := [Node(root, kids)];
    assert f[1..] == [] && f[0] == Node(root, kids);
    assert Inner(f) == Ids(kids) && SameAs(c0, c1, root);
    SameHanded(c0, c1, prompts, root, v);
    if DeclaredBelow(f, a, x) && Typed(v) {
      DeclaredIn(f, a, x);
      if a != root {
        OffStays(c0, c1, prompts, root, kids, a, v);
      }
      if HandedBy(c1, prompts, a, v) == NO {
        OffWhereDeclared(c0, c1, prompts, f, a, x, v);
      }
    }
    if x in Ids(kids) && Plain(c0, Ids(kids), v) && HandedBy(c0, prompts, root, v) != MOD {
      OpenExactly(c0, c1, prompts, root, kids, x, v);
    }
  }

  lemma SameHanded(c0: Conditions, c1: Conditions, prompts: set<Ref>, p: Ref, v: Valuation)
    requires SameAs(c0, c1, p)
    ensures HandedBy(c0, prompts, p, v) == HandedBy(c1, prompts, p, v)
  {
  }
}
