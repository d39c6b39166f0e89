/** What menu_finalize (scripts/kconfig/menu.c) does to the shape of a tree of menu
    entries: entries move below others, and entries that show no prompt give their own
    entries back. */
module MenuShape {
  import opened MenuLinks

  /** In the forest `x` stands, at any depth, below `a`. */
  predicate DeclaredBelow(f: Forest, a: Ref, x: Ref) {
    f != [] &&
    ((f[0].id == a && x in Ids(f[0].kids)) || DeclaredBelow(f[0].kids, a, x) || DeclaredBelow(f[1..], a, x))
  }

  /** What stood below an entry of `shown` still does. */
  ghost predicate Keeps(shown: set<Ref>, f: Forest, g: Forest) {
    forall a, x :: a in shown && DeclaredBelow(f, a, x) ==> DeclaredBelow(g, a, x)
  }

  lemma {:induction false} DeclaredConcat(f: Forest, g: Forest, a: Ref, x: Ref)
    ensures DeclaredBelow(f + g, a, x) <==> DeclaredBelow(f, a, x) || DeclaredBelow(g, a, x)
  {
    if f == [] {
      assert f + g == g;
    } else {
      assert (f + g)[0] == f[0] && (f + g)[1..] == f[1..] + g;
      DeclaredConcat(f[1..], g, a, x);
    }
  }

  lemma KeepsAll(shown: set<Ref>, f: Forest)
    ensures Keeps(shown, f, f)
  {
  }

  lemma KeepsTrans(shown: set<Ref>, f: Forest, g: Forest, h: Forest)
    requires Keeps(shown, f, g) && Keeps(shown, g, h)
    ensures Keeps(shown, f, h)
  {
    hide DeclaredBelow;
  }

  lemma KeepsBehind(shown: set<Ref>, f: Forest, g: Forest, g': Forest)
    requires Keeps(shown, g, g')
    ensures Keeps(shown, f + g, f + g')
  {
    hide DeclaredBelow;
    forall a, x | a in shown && DeclaredBelow(f + g, a, x)
      ensures DeclaredBelow(f + g', a, x)
    {
      DeclaredConcat(f, g, a, x);
      DeclaredConcat(f, g', a, x);
    }
  }

  /** Other entries below the first node, the same ones in all. */
  lemma KeepsNode(shown: set<Ref>, p: Ref, kids: Forest, kids': Forest, rest: Forest)
    requires Keeps(shown, kids, kids') && Ids(kids) == Ids(kids')
    ensures Keeps(shown, [Node(p, kids)] + rest, [Node(p, kids')] + rest)
  {
    hide Ids;
    assert ([Node(p, kids)] + rest)[1..] == rest && ([Node(p, kids')] + rest)[1..] == rest;
    forall a, x | a in shown && DeclaredBelow([Node(p, kids)] + rest, a, x)
      ensures DeclaredBelow([Node(p, kids')] + rest, a, x)
    {
    }
  }

  /** Followers that go below the first node. */
  lemma KeepsNested(shown: set<Ref>, p: Ref, followers: Forest, nested: Forest, rest: Forest)
    requires Keeps(shown, followers, nested + rest)
    ensures Keeps(shown, [Node(p, [])] + followers, [Node(p, nested)] + rest)
  {
    hide Ids;
    assert ([Node(p, [])] + followers)[1..] == followers && ([Node(p, nested)] + rest)[1..] == rest;
    NoneIn();
    var f := [Node(p, [])] + followers;
    assert f[0] == Node(p, []) && f[0].kids == [];
    forall a, x | a in shown && DeclaredBelow([Node(p, [])] + followers, a, x)
      ensures DeclaredBelow([Node(p, nested)] + rest, a, x)
    {
      assert !DeclaredBelow(f[0].kids, a, x) && DeclaredBelow(f[1..], a, x);
      DeclaredConcat(nested, rest, a, x);
    }
  }

  lemma NoneIn()
    ensures Ids([]) == {}
  {
  }

  // Entries given back

  /** Each root that shows no prompt gives its entries back: they follow it. */
  function Lifted(shown: set<Ref>, f: Forest): Forest {
    if f == [] then []
    else (if f[0].id in shown then [f[0]] else [Node(f[0].id, [])] + f[0].kids) + Lifted(shown, f[1..])
  }

  /** A root that shows a prompt stays as it is, one that does not loses its entries,
      and these are roots instead; there are no other roots. */
  lemma {:induction false} LiftedMeans(shown: set<Ref>, f: Forest, t: Tree)
    ensures t in Lifted(shown, f) <==>
      || (t in f && t.id in shown)
      || (t.kids == [] && exists u :: u in f && u.id == t.id && u.id !in shown)
      || (exists u :: u in f && u.id !in shown && t in u.kids)
  {
    if f != [] {
      LiftedMeans(shown, f[1..], t);
      assert forall u :: u in f <==> u == f[0] || u in f[1..];
      if exists u :: u in f[1..] && u.id == t.id && u.id !in shown {
        var u :| u in f[1..] && u.id == t.id && u.id !in shown;
        assert u in f;
      }
      if exists u :: u in f[1..] && u.id !in shown && t in u.kids {
        var u :| u in f[1..] && u.id !in shown && t in u.kids;
        assert u in f;
      }
    }
  }

  /** Every entry with entries of its own shows a prompt, at all depths. */
  predicate Tidy(shown: set<Ref>, f: Forest) {
    forall i :: 0 <= i < |f| ==> (f[i].kids != [] ==> f[i].id in shown) && Tidy(shown, f[i].kids)
  }

  lemma {:induction false} LiftedConcat(shown: set<Ref>, f: Forest, g: Forest)
    ensures Lifted(shown, f + g) == Lifted(shown, f) + Lifted(shown, g)
  {
    if f == [] {
      assert f + g == g;
    } else {
      assert (f + g)[0] == f[0] && (f + g)[1..] == f[1..] + g;
      LiftedConcat(shown, f[1..], g);
    }
  }

  lemma {:induction false} LiftedTidy(shown: set<Ref>, f: Forest)
    requires Tidy(shown, f)
    ensures Lifted(shown, f) == f
  {
    if f != [] {
      assert f[0].id in shown || f[0] == Node(f[0].id, []);
      assert forall i :: 0 <= i < |f[1..]| ==> f[1..][i] == f[i + 1];
      LiftedTidy(shown, f[1..]);
    }
  }

  lemma {:induction false} KeepsLifted(shown: set<Ref>, f: Forest)
    ensures Keeps(shown, f, Lifted(shown, f))
  {
    hide Ids;
    if f != [] {
      KeepsLifted(shown, f[1..]);
      var head := if f[0].id in shown then [f[0]] else [Node(f[0].id, [])] + f[0].kids;
      forall a, x | a in shown && DeclaredBelow(f, a, x)
        ensures DeclaredBelow(Lifted(shown, f), a, x)
      {
        DeclaredConcat(head, Lifted(shown, f[1..]), a, x);
        DeclaredConcat([Node(f[0].id, [])], f[0].kids, a, x);
        assert [f[0]][1..] == [];
      }
    }
  }

  lemma LiftedNone(shown: set<Ref>)
    ensures Lifted(shown, []) == []
  {
  }

  /** A root at the front is given its turn: afterwards it is as it will stay. */
  lemma LiftedStep(shown: set<Ref>, f: Forest, g: Forest)
    requires f != [] && Tidy(shown, f[0].kids)
    requires g == if f[0].kids != [] && f[0].id !in shown then [Node(f[0].id, [])] + (f[0].kids + f[1..]) else f
    ensures g != [] && g[0].id == f[0].id && Lifted(shown, f) == [g[0]] + Lifted(shown, g[1..])
  {
    LiftedTidy(shown, f[0].kids);
    LiftedConcat(shown, f[0].kids, f[1..]);
    assert f[0].kids == [] ==> f[0] == Node(f[0].id, []);
    if g != f {
      assert g[1..] == f[0].kids + f[1..];
      assert [g[0]] + (f[0].kids + Lifted(shown, f[1..])) == [g[0]] + f[0].kids + Lifted(shown, f[1..]);
    } else if f[0].id !in shown {
      assert [Node(f[0].id, [])] + f[0].kids == [f[0]];
    }
  }
}
