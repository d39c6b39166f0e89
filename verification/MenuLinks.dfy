/** Menu entries linked by `list`, `next` and `parent`, and the trees such links
    stand for (scripts/kconfig/expr.h, struct menu). */
module MenuLinks {

  /** An entry is named by a positive number; 0 is NULL. */
  type Ref = nat
  const NULL: Ref := 0

  /** The three link fields of every entry. */
  datatype Links = Links(next: map<Ref, Ref>, list: map<Ref, Ref>, parent: map<Ref, Ref>)

  function Get(m: map<Ref, Ref>, r: Ref): Ref {
    if r in m then m[r] else NULL
  }

  datatype Tree = Node(id: Ref, kids: Forest)
  type Forest = seq<Tree>

  /** All entries of a forest, each before its own entries and those before the next
      sibling. */
  function Preorder(f: Forest): seq<Ref> {
    if f == [] then [] else [f[0].id] + Preorder(f[0].kids) + Preorder(f[1..])
  }

  function Ids(f: Forest): set<Ref> {
    if f == [] then {} else {f[0].id} + Ids(f[0].kids) + Ids(f[1..])
  }

  lemma {:induction false} IdsArePreorder(f: Forest)
    ensures forall x :: x in Ids(f) <==> x in Preorder(f)
    decreases f
  {
    if f != [] {
      IdsArePreorder(f[0].kids);
      IdsArePreorder(f[1..]);
    }
  }

  predicate NoDup(s: seq<Ref>) {
    s == [] || (s[0] !in s[1..] && NoDup(s[1..]))
  }

  /** From `first` the chain of siblings runs through `f` and then goes on at `end`;
      every entry has its entries hanging at `list`, and every parent link is the real
      parent. */
  ghost predicate Reps(l: Links, first: Ref, par: Ref, f: Forest, end: Ref)
    decreases f
  {
    if f == [] then first == end
    else
      && first == f[0].id && first != NULL
      && Get(l.parent, first) == par
      && Reps(l, Get(l.list, first), first, f[0].kids, NULL)
      && Reps(l, Get(l.next, first), par, f[1..], end)
  }

  ghost predicate SameAt(l1: Links, l2: Links, x: Ref) {
    Get(l1.next, x) == Get(l2.next, x) && Get(l1.list, x) == Get(l2.list, x) && Get(l1.parent, x) == Get(l2.parent, x)
  }

  /** Only entries of `changed` have other links. */
  ghost predicate SameOutside(l1: Links, l2: Links, changed: set<Ref>) {
    forall x :: x !in changed ==> SameAt(l1, l2, x)
  }

  lemma PreorderParts(f: Forest)
    requires f != []
    ensures Ids(f) == {f[0].id} + Ids(f[0].kids) + Ids(f[1..])
    ensures |Preorder(f[0].kids)| < |Preorder(f)| && |Preorder(f[1..])| < |Preorder(f)|
    ensures NoDup(Preorder(f)) ==>
              && NoDup(Preorder(f[0].kids)) && NoDup(Preorder(f[1..]))
              && f[0].id !in Ids(f[0].kids) && f[0].id !in Ids(f[1..]) && Ids(f[0].kids) !! Ids(f[1..])
  {
    var a, b, c := [f[0].id], Preorder(f[0].kids), Preorder(f[1..]);
    assert Preorder(f) == a + b + c;
    if NoDup(Preorder(f)) {
      NoDupParts(a + b, c);
      NoDupParts(a, b);
      assert forall x :: x in a + b <==> x in a || x in b;
      IdsArePreorder(f[0].kids);
      IdsArePreorder(f[1..]);
    }
  }

  lemma {:induction false} NoDupParts(a: seq<Ref>, b: seq<Ref>)
    requires NoDup(a + b)
    ensures NoDup(a) && NoDup(b)
    ensures forall x :: x in a ==> x !in b
  {
    if a == [] {
      assert a + b == b;
    } else {
      assert (a + b)[1..] == a[1..] + b;
      NoDupParts(a[1..], b);
    }
  }

  lemma {:induction false} PreorderConcat(f: Forest, g: Forest)
    ensures Preorder(f + g) == Preorder(f) + Preorder(g)
    ensures Ids(f + g) == Ids(f) + Ids(g)
  {
    if f == [] {
      assert f + g == g;
    } else {
      PreorderConcat(f[1..], g);
      assert (f + g)[1..] == f[1..] + g && (f + g)[0] == f[0];
      assert Ids(f + g) == {f[0].id} + Ids(f[0].kids) + Ids(f[1..] + g);
      var a, b, c := [f[0].id] + Preorder(f[0].kids), Preorder(f[1..]), Preorder(g);
      assert a + (b + c) == (a + b) + c;
    }
  }

  lemma {:induction false} RepsConcat(l: Links, first: Ref, par: Ref, f: Forest, mid: Ref, g: Forest, end: Ref)
    requires Reps(l, first, par, f, mid) && Reps(l, mid, par, g, end)
    ensures Reps(l, first, par, f + g, end)
    decreases f
  {
    if f == [] {
      assert f + g == g;
    } else {
      RepsConcat(l, Get(l.next, first), par, f[1..], mid, g, end);
      assert (f + g)[1..] == f[1..] + g;
    }
  }

  lemma RepsEmpty(l: Links, at: Ref, par: Ref)
    ensures Reps(l, at, par, [], at)
  {
  }

  lemma RepsStart(l: Links, first: Ref, par: Ref, f: Forest)
    requires Reps(l, first, par, f, NULL)
    ensures f == [] <==> first == NULL
    ensures f != [] ==> f[0].id == first && Get(l.parent, first) == par
                        && Reps(l, Get(l.list, first), first, f[0].kids, NULL) && Reps(l, Get(l.next, first), par, f[1..], NULL)
  {
  }

  /** Links of other entries do not matter. */
  lemma {:induction false} RepsFrame(l1: Links, l2: Links, changed: set<Ref>, first: Ref, par: Ref, f: Forest, end: Ref)
    requires Reps(l1, first, par, f, end) && SameOutside(l1, l2, changed) && Ids(f) !! changed
    ensures Reps(l2, first, par, f, end)
    decreases f
  {
    if f != [] {
      PreorderParts(f);
      assert SameAt(l1, l2, first);
      RepsFrame(l1, l2, changed, Get(l1.list, first), first, f[0].kids, NULL);
      RepsFrame(l1, l2, changed, Get(l1.next, first), par, f[1..], end);
    }
  }

  /** The first tree of a chain on its own. */
  lemma RepsHead(l: Links, first: Ref, par: Ref, f: Forest, end: Ref)
    requires f != [] && Reps(l, first, par, f, end)
    ensures Reps(l, first, par, [f[0]], Get(l.next, first))
  {
    assert [f[0]][1..] == [];
  }

  lemma PreorderHead(t: Tree)
    ensures Preorder([t]) == [t.id] + Preorder(t.kids)
  {
    assert [t][1..] == [];
  }

  lemma SamePreorder(f: Forest, g: Forest)
    requires Preorder(f) == Preorder(g)
    ensures Ids(f) == Ids(g)
    ensures f != [] ==> g != [] && g[0].id == f[0].id
  {
    IdsArePreorder(f);
    IdsArePreorder(g);
    if f != [] {
      assert Preorder(f)[0] == f[0].id;
      assert g != [] && Preorder(g)[0] == g[0].id;
    }
  }

  /** Two forests that make up a third one in preorder. */
  lemma PreorderSplit(f: Forest, g: Forest, whole: Forest)
    requires Preorder(f + g) == Preorder(whole)
    ensures Ids(whole) == Ids(f) + Ids(g)
    ensures NoDup(Preorder(whole)) ==> NoDup(Preorder(f)) && NoDup(Preorder(g)) && Ids(f) !! Ids(g)
  {
    PreorderConcat(f, g);
    SamePreorder(f + g, whole);
    if NoDup(Preorder(whole)) {
      NoDupParts(Preorder(f), Preorder(g));
      IdsArePreorder(f);
      IdsArePreorder(g);
    }
  }

  lemma SameOutsideTrans(l1: Links, l2: Links, l3: Links, c1: set<Ref>, c2: set<Ref>, c: set<Ref>)
    requires SameOutside(l1, l2, c1) && SameOutside(l2, l3, c2) && c1 <= c && c2 <= c
    ensures SameOutside(l1, l3, c)
  {
    forall x | x !in c
      ensures SameAt(l1, l3, x)
    {
      assert SameAt(l1, l2, x) && SameAt(l2, l3, x);
    }
  }

  /** Only the parent link of `m`, the root of the tree `t`, becomes another one. */
  lemma Reparent(l1: Links, l2: Links, t: Tree, par: Ref, par': Ref)
    requires Reps(l1, t.id, par, [t], Get(l1.next, t.id)) && NoDup(Preorder([t]))
    requires l2 == l1.(parent := l1.parent[t.id := par'])
    ensures Reps(l2, t.id, par', [t], Get(l2.next, t.id))
    ensures SameOutside(l1, l2, {t.id})
  {
    PreorderParts([t]);
    RepsFrame(l1, l2, {t.id}, Get(l1.list, t.id), t.id, t.kids, NULL);
    assert [t][1..] == [];
  }

  /** Another end for a chain: only the next link of its last entry changes. */
  lemma {:induction false} Reroute(l1: Links, l2: Links, first: Ref, par: Ref, f: Forest, end: Ref, end': Ref)
    requires f != [] && Reps(l1, first, par, f, end) && NoDup(Preorder(f))
    requires l2 == l1.(next := l1.next[f[|f| - 1].id := end'])
    ensures Reps(l2, first, par, f, end')
    decreases f
  {
    var last := f[|f| - 1].id;
    PreorderParts(f);
    RootIn(f, |f| - 1);
    if |f| == 1 {
      RepsFrame(l1, l2, {last}, Get(l1.list, first), first, f[0].kids, NULL);
      assert f[1..] == [];
    } else {
      assert f[1..][|f[1..]| - 1] == f[|f| - 1];
      RootIn(f[1..], |f| - 2);
      RepsFrame(l1, l2, {last}, Get(l1.list, first), first, f[0].kids, NULL);
      Reroute(l1, l2, Get(l1.next, first), par, f[1..], end, end');
    }
  }

  lemma {:induction false} RootIn(f: Forest, i: nat)
    requires i < |f|
    ensures f[i].id in Ids(f)
  {
    PreorderParts(f);
    if i > 0 {
      RootIn(f[1..], i - 1);
    }
  }

  lemma RootsDiffer(f: Forest, n: nat)
    requires NoDup(Preorder(f)) && n < |f|
    ensures forall i :: 0 <= i < |f| && i != n ==> f[i].id != f[n].id
  {
    forall i | 0 <= i < |f| && i != n
      ensures f[i].id != f[n].id
    {
      TwoRoots(f, if i < n then i else n, if i < n then n else i);
    }
  }

  lemma {:induction false} TwoRoots(f: Forest, i: nat, j: nat)
    requires NoDup(Preorder(f)) && i < j < |f|
    ensures f[i].id != f[j].id
  {
    PreorderParts(f);
    if i == 0 {
      RootIn(f[1..], j - 1);
    } else {
      TwoRoots(f[1..], i - 1, j - 1);
    }
  }

  lemma {:induction false} ChainEnds(l: Links, first: Ref, par: Ref, f: Forest, end: Ref)
    requires f != [] && Reps(l, first, par, f, end)
    ensures Get(l.next, f[|f| - 1].id) == end
    decreases f
  {
    if |f| > 1 {
      assert f[1..][|f[1..]| - 1] == f[|f| - 1];
      ChainEnds(l, Get(l.next, first), par, f[1..], end);
    }
  }

  /** Moving a tree from the front of one forest to the end of another. */
  lemma PreorderShift(done: Forest, rest: Forest)
    requires rest != []
    ensures (done + [rest[0]]) + rest[1..] == done + rest
    ensures |Preorder(rest[1..])| < |Preorder(rest)|
  {
  }

  /** Only the preorder of a part matters for the preorder of the whole. */
  lemma PreorderSwap(done: Forest, rest: Forest, rest': Forest)
    requires Preorder(rest) == Preorder(rest')
    ensures Preorder(done + rest) == Preorder(done + rest')
  {
    PreorderConcat(done, rest);
    PreorderConcat(done, rest');
  }

  /** A node with other entries below it, of the same preorder. */
  lemma NodeSwap(p: Ref, kids: Forest, kids': Forest, rest: Forest)
    requires Preorder(kids) == Preorder(kids')
    ensures Preorder([Node(p, kids)] + rest) == Preorder([Node(p, kids')] + rest)
    ensures ([Node(p, kids')] + rest)[1..] == rest
  {
    assert ([Node(p, kids)] + rest)[1..] == rest && ([Node(p, kids')] + rest)[1..] == rest;
  }

  /** Followers put below a node without entries. */
  lemma NodeTakes(p: Ref, nested: Forest, rest: Forest, followers: Forest)
    requires Preorder(nested + rest) == Preorder(followers)
    ensures Preorder([Node(p, nested)] + rest) == Preorder([Node(p, [])] + followers)
    ensures ([Node(p, nested)] + rest)[1..] == rest
  {
    PreorderConcat(nested, rest);
    assert ([Node(p, nested)] + rest)[1..] == rest && ([Node(p, [])] + followers)[1..] == followers;
    assert [p] + Preorder(nested) + Preorder(rest) == [p] + [] + (Preorder(nested) + Preorder(rest));
  }

  /** `rest` is the end of `f`. */
  predicate IsSuffix(rest: Forest, f: Forest) {
    |rest| <= |f| && rest == f[|f| - |rest|..]
  }

  lemma SuffixTrans(a: Forest, b: Forest, c: Forest)
    requires IsSuffix(a, b) && IsSuffix(b, c)
    ensures IsSuffix(a, c)
  {
    assert |a| <= |c|;
    forall i | 0 <= i < |a|
      ensures a[i] == c[|c| - |a|..][i]
    {
    }
  }
}
