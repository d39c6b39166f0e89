/** struct hash_entry (tools/install/lib/hash.c): nodes linked by `next` in the memory
    that all tables share.  A bucket head is such a node in the bucket array, and every
    other node of a chain is an overflow entry of its own. */
module HashNodes {
  import opened Options

  /** An overflow entry is named by a positive number. */
  type Ref = nat
  const NULL: Ref := 0

  datatype Node<+T> = Node(data: Option<T>, next: Ref)

  type Memory<T> = map<Ref, Node<T>>

  /** Where an overflow entry belongs: a bucket of one of two tables, or a list of
      entries to be used again. */
  datatype Place = In(era: bool, slot: nat) | OnList

  type Owner = map<Ref, Place>

  predicate Owned(owner: Owner, refs: seq<Ref>, p: Place) {
    forall r :: r in refs ==> r in owner && owner[r] == p
  }

  /** From `at` on the links run through `refs`, and the data are `c`. */
  ghost predicate Runs<T>(mem: Memory<T>, at: Ref, refs: seq<Ref>, c: seq<T>)
    decreases |refs|
  {
    if refs == [] then at == NULL && c == []
    else
      && at == refs[0] && at != NULL && at in mem
      && c != [] && mem[at].data == Some(c[0])
      && Runs(mem, mem[at].next, refs[1..], c[1..])
  }

  /** From `at` on the links run through `refs`. */
  ghost predicate Listed<T>(mem: Memory<T>, at: Ref, refs: seq<Ref>)
    decreases |refs|
  {
    if refs == [] then at == NULL
    else at == refs[0] && at != NULL && at in mem && Listed(mem, mem[at].next, refs[1..])
  }

  lemma {:induction false} RunsLength<T>(mem: Memory<T>, at: Ref, refs: seq<Ref>, c: seq<T>)
    requires Runs(mem, at, refs, c)
    ensures |c| == |refs|
    ensures forall r :: r in refs ==> r in mem && r != NULL
    decreases |refs|
  {
    if refs != [] {
      RunsLength(mem, mem[at].next, refs[1..], c[1..]);
      assert forall r :: r in refs ==> r == refs[0] || r in refs[1..];
    }
  }

  /** The part of a chain from entry `k` on. */
  lemma {:induction false} RunsAt<T>(mem: Memory<T>, at: Ref, refs: seq<Ref>, c: seq<T>, k: nat)
    requires Runs(mem, at, refs, c) && k < |refs|
    ensures |c| == |refs| && refs[k] != NULL && refs[k] in mem
    ensures mem[refs[k]] == Node(Some(c[k]), if k + 1 < |refs| then refs[k + 1] else NULL)
    ensures Runs(mem, refs[k], refs[k..], c[k..])
    ensures Runs(mem, mem[refs[k]].next, refs[k + 1..], c[k + 1..])
    decreases k
  {
    RunsLength(mem, at, refs, c);
    if k > 0 {
      RunsAt(mem, mem[at].next, refs[1..], c[1..], k - 1);
      assert refs[1..][k - 1..] == refs[k..] && c[1..][k - 1..] == c[k..];
      assert refs[1..][k..] == refs[k + 1..] && c[1..][k..] == c[k + 1..];
    } else {
      assert refs[0..] == refs && c[0..] == c;
      assert Runs(mem, mem[at].next, refs[1..], c[1..]);
    }
  }

  lemma {:induction false} OneRun<T>(mem: Memory<T>, at: Ref, refs: seq<Ref>, c: seq<T>, refs': seq<Ref>, c': seq<T>)
    requires Runs(mem, at, refs, c) && Runs(mem, at, refs', c')
    ensures |refs| == |refs'|
    decreases |refs|
  {
    if refs != [] {
      OneRun(mem, mem[at].next, refs[1..], c[1..], refs'[1..], c'[1..]);
    }
  }

  /** No entry comes twice, or the chain would not end. */
  lemma RunsNoDup<T>(mem: Memory<T>, at: Ref, refs: seq<Ref>, c: seq<T>, j: nat, k: nat)
    requires Runs(mem, at, refs, c) && j < |refs| && k < |refs| && j != k
    ensures refs[j] != refs[k]
  {
    RunsAt(mem, at, refs, c, j);
    RunsAt(mem, at, refs, c, k);
    if refs[j] == refs[k] {
      OneRun(mem, refs[j], refs[j..], c[j..], refs[k..], c[k..]);
    }
  }

  lemma {:induction false} RunsKept<T>(mem: Memory<T>, mem': Memory<T>, at: Ref, refs: seq<Ref>, c: seq<T>)
    requires Runs(mem, at, refs, c)
    requires forall r :: r in refs && r in mem ==> r in mem' && mem'[r] == mem[r]
    ensures Runs(mem', at, refs, c)
    decreases |refs|
  {
    if refs != [] {
      assert refs[0] in refs;
      assert forall r :: r in refs[1..] ==> r in refs;
      RunsKept(mem, mem', mem[at].next, refs[1..], c[1..]);
    }
  }

  lemma {:induction false} ListedKept<T>(mem: Memory<T>, mem': Memory<T>, at: Ref, refs: seq<Ref>)
    requires Listed(mem, at, refs)
    requires forall r :: r in refs && r in mem ==> r in mem' && mem'[r] == mem[r]
    ensures Listed(mem', at, refs)
    decreases |refs|
  {
    if refs != [] {
      assert refs[0] in refs;
      assert forall r :: r in refs[1..] ==> r in refs;
      ListedKept(mem, mem', mem[at].next, refs[1..]);
    }
  }

  lemma {:induction false} OneList<T>(mem: Memory<T>, at: Ref, refs: seq<Ref>, refs': seq<Ref>)
    requires Listed(mem, at, refs) && Listed(mem, at, refs')
    ensures refs == refs'
    decreases |refs|
  {
    if refs != [] {
      OneList(mem, mem[at].next, refs[1..], refs'[1..]);
      assert refs == [refs[0]] + refs[1..] && refs' == [refs'[0]] + refs'[1..];
    }
  }

  lemma {:induction false} ListedAt<T>(mem: Memory<T>, at: Ref, refs: seq<Ref>, k: nat)
    requires Listed(mem, at, refs) && k < |refs|
    ensures refs[k] != NULL && refs[k] in mem && Listed(mem, refs[k], refs[k..])
    decreases k
  {
    if k > 0 {
      ListedAt(mem, mem[at].next, refs[1..], k - 1);
      assert refs[1..][k - 1..] == refs[k..];
    } else {
      assert refs[0..] == refs;
    }
  }

  /** The head of a list does not come again in it. */
  lemma HeadOnce<T>(mem: Memory<T>, at: Ref, refs: seq<Ref>)
    requires Listed(mem, at, refs) && refs != []
    ensures refs[0] !in refs[1..]
  {
    if refs[0] in refs[1..] {
      var k :| 0 <= k < |refs[1..]| && refs[1..][k] == refs[0];
      ListedAt(mem, at, refs, k + 1);
      OneList(mem, at, refs, refs[k + 1..]);
    }
  }

  function Without<T>(c: seq<T>, k: nat): seq<T>
    requires k < |c|
  {
    c[..k] + c[k + 1..]
  }

  lemma WithoutTail<T>(c: seq<T>, k: nat)
    requires 0 < k < |c|
    ensures Without(c, k)[0] == c[0] && Without(c, k)[1..] == Without(c[1..], k - 1)
  {
  }

  /** Linking past entry `k`, which is not the first, takes it out of the chain. */
  lemma {:induction false} Unlinked<T>(mem: Memory<T>, at: Ref, refs: seq<Ref>, c: seq<T>, k: nat)
    requires Runs(mem, at, refs, c) && 0 < k < |refs| && |c| == |refs|
    requires refs[k] in mem && refs[k - 1] in mem
    ensures
      var mem' := mem[refs[k - 1] := mem[refs[k - 1]].(next := mem[refs[k]].next)];
      Runs(mem', at, Without(refs, k), Without(c, k))
    decreases k
  {
    var p := refs[k - 1];
    var mem' := mem[p := mem[p].(next := mem[refs[k]].next)];
    if k == 1 {
      RunsAt(mem, at, refs, c, 1);
      forall r | r in refs[2..]
        ensures r != p
      {
        var j :| 2 <= j < |refs| && refs[j] == r;
        RunsNoDup(mem, at, refs, c, 0, j);
      }
      RunsKept(mem, mem', mem[refs[1]].next, refs[2..], c[2..]);
      assert Without(refs, 1)[1..] == refs[2..] && Without(c, 1)[1..] == c[2..];
    } else {
      Unlinked(mem, mem[at].next, refs[1..], c[1..], k - 1);
      RunsNoDup(mem, at, refs, c, 0, k - 1);
      WithoutTail(refs, k);
      WithoutTail(c, k);
    }
  }

  /** One bucket: its head, its overflow entries, and the data of both. */
  ghost predicate Bucket<T>(mem: Memory<T>, owner: Owner, p: Place, head: Node<T>, refs: seq<Ref>, c: seq<T>) {
    && Owned(owner, refs, p)
    && (if c == [] then head == Node(None, NULL) && refs == []
        else head.data == Some(c[0]) && Runs(mem, head.next, refs, c[1..]))
  }

  /** The buckets from `from` on. */
  ghost predicate Buckets<T>(mem: Memory<T>, owner: Owner, era: bool,
                             heads: seq<Node<T>>, nodes: seq<seq<Ref>>, chains: seq<seq<T>>, from: nat)
  {
    && |heads| == |nodes| == |chains|
    && forall i :: from <= i < |heads| ==> Bucket(mem, owner, In(era, i), heads[i], nodes[i], chains[i])
  }

  /** Every entry that exists has been allocated. */
  ghost predicate Sound<T>(mem: Memory<T>, owner: Owner, top: nat) {
    && top > 0 && NULL !in mem
    && (forall r :: r in mem ==> r < top)
    && (forall r :: r in owner ==> r in mem)
  }

  /** Entries of a place keep their data, links and owner. */
  ghost predicate KeptAt<T>(mem: Memory<T>, owner: Owner, mem': Memory<T>, owner': Owner, p: Place) {
    forall r :: r in owner && owner[r] == p ==>
      r in owner' && owner'[r] == p && (r in mem ==> r in mem' && mem'[r] == mem[r])
  }

  lemma BucketKept<T>(mem: Memory<T>, owner: Owner, mem': Memory<T>, owner': Owner, p: Place,
                      head: Node<T>, refs: seq<Ref>, c: seq<T>)
    requires Bucket(mem, owner, p, head, refs, c) && KeptAt(mem, owner, mem', owner', p)
    ensures Bucket(mem', owner', p, head, refs, c)
  {
    if c != [] {
      RunsKept(mem, mem', head.next, refs, c[1..]);
    }
  }

  lemma BucketsKept<T>(mem: Memory<T>, owner: Owner, mem': Memory<T>, owner': Owner, era: bool,
                       heads: seq<Node<T>>, nodes: seq<seq<Ref>>, chains: seq<seq<T>>, from: nat)
    requires Buckets(mem, owner, era, heads, nodes, chains, from)
    requires forall i :: from <= i < |heads| ==> KeptAt(mem, owner, mem', owner', In(era, i))
    ensures Buckets(mem', owner', era, heads, nodes, chains, from)
  {
    forall i | from <= i < |heads|
      ensures Bucket(mem', owner', In(era, i), heads[i], nodes[i], chains[i])
    {
      BucketKept(mem, owner, mem', owner', In(era, i), heads[i], nodes[i], chains[i]);
    }
  }

  /** One bucket changes, and the entries of the others are kept. */
  lemma OneBucketChanges<T>(mem: Memory<T>, owner: Owner, mem': Memory<T>, owner': Owner, era: bool,
                            heads: seq<Node<T>>, nodes: seq<seq<Ref>>, chains: seq<seq<T>>,
                            b: nat, head: Node<T>, refs: seq<Ref>, c: seq<T>)
    requires Buckets(mem, owner, era, heads, nodes, chains, 0) && b < |heads|
    requires forall i :: 0 <= i < |heads| && i != b ==> KeptAt(mem, owner, mem', owner', In(era, i))
    requires Bucket(mem', owner', In(era, b), head, refs, c)
    ensures Buckets(mem', owner', era, heads[b := head], nodes[b := refs], chains[b := c], 0)
  {
    forall i | 0 <= i < |heads|
      ensures Bucket(mem', owner', In(era, i), heads[b := head][i], nodes[b := refs][i], chains[b := c][i])
    {
      if i != b {
        BucketKept(mem, owner, mem', owner', In(era, i), heads[i], nodes[i], chains[i]);
      }
    }
  }

  // Lists of entries to be used again

  ghost predicate FreeList<T>(mem: Memory<T>, owner: Owner, list: Ref, free: seq<Ref>) {
    Listed(mem, list, free) && Owned(owner, free, OnList)
  }

  /** Everything but entry `r` stays where and what it is. */
  ghost predicate OnlyChanges<T>(mem: Memory<T>, owner: Owner, mem': Memory<T>, owner': Owner, r: Ref) {
    && (forall x :: x in mem && x != r ==> x in mem' && mem'[x] == mem[x])
    && (forall x :: x in owner && x != r ==> x in owner' && owner'[x] == owner[x])
  }

  lemma OthersKept<T>(mem: Memory<T>, owner: Owner, mem': Memory<T>, owner': Owner, r: Ref, p: Place)
    requires OnlyChanges(mem, owner, mem', owner', r) && (r in owner ==> owner[r] != p)
    ensures KeptAt(mem, owner, mem', owner', p)
  {
  }

  /** An entry that was in a bucket goes to the front of the list. */
  lemma EntryFreed<T>(mem: Memory<T>, owner: Owner, top: nat, list: Ref, free: seq<Ref>, r: Ref)
    requires Sound(mem, owner, top) && FreeList(mem, owner, list, free) && r in owner && owner[r] != OnList
    ensures
      var mem', owner' := mem[r := Node(None, list)], owner[r := OnList];
      Sound(mem', owner', top) && FreeList(mem', owner', r, [r] + free) && OnlyChanges(mem, owner, mem', owner', r)
  {
    var mem', owner' := mem[r := Node(None, list)], owner[r := OnList];
    ListedKept(mem, mem', list, free);
    assert ([r] + free)[1..] == free;
  }

  /** The entry that allocate_entry takes, and the list it leaves. */
  function Taken(list: Ref, top: nat): Ref {
    if list != NULL then list else top
  }

  function ListAfter<T>(mem: Memory<T>, list: Ref): Ref {
    if list != NULL && list in mem then mem[list].next else NULL
  }

  function TopAfter(list: Ref, top: nat): nat {
    if list != NULL then top else top + 1
  }

  function RestOf(free: seq<Ref>): seq<Ref> {
    if free == [] then [] else free[1..]
  }

  /** A new overflow entry right behind the head of a bucket that is in use. */
  lemma OverflowAdded<T>(mem: Memory<T>, owner: Owner, top: nat, list: Ref, free: seq<Ref>,
                         p: Place, head: Node<T>, refs: seq<Ref>, c: seq<T>, e: T)
    requires Sound(mem, owner, top) && FreeList(mem, owner, list, free)
    requires p != OnList && Bucket(mem, owner, p, head, refs, c) && c != []
    ensures
      var r := Taken(list, top);
      var mem', owner' := mem[r := Node(Some(e), head.next)], owner[r := p];
      && Sound(mem', owner', TopAfter(list, top))
      && FreeList(mem', owner', ListAfter(mem, list), RestOf(free))
      && Bucket(mem', owner', p, head.(next := r), [r] + refs, [c[0], e] + c[1..])
      && OnlyChanges(mem, owner, mem', owner', r)
      && (r in owner ==> owner[r] == OnList)
  {
    var r := Taken(list, top);
    var mem', owner' := mem[r := Node(Some(e), head.next)], owner[r := p];
    if free != [] {
      HeadOnce(mem, list, free);
      assert free[0] in free;
      assert forall x :: x in free[1..] ==> x in free;
      ListedKept(mem, mem', mem[list].next, free[1..]);
    }
    RunsLength(mem, head.next, refs, c[1..]);
    assert r !in refs;
    RunsKept(mem, mem', head.next, refs, c[1..]);
    assert ([r] + refs)[1..] == refs && ([e] + c[1..])[1..] == c[1..];
    assert ([c[0], e] + c[1..])[1..] == [e] + c[1..];
    assert Runs(mem', r, [r] + refs, [e] + c[1..]);
  }

  /** The first overflow entry is copied to the bucket head and freed. */
  lemma HeadDeleted<T>(mem: Memory<T>, owner: Owner, top: nat, list: Ref, free: seq<Ref>,
                       p: Place, head: Node<T>, refs: seq<Ref>, c: seq<T>)
    requires Sound(mem, owner, top) && FreeList(mem, owner, list, free)
    requires p != OnList && Bucket(mem, owner, p, head, refs, c) && |c| > 1
    ensures
      var r := head.next;
      && r != NULL && r in mem && r in owner && owner[r] == p && refs != [] && r == refs[0]
      && var mem', owner' := mem[r := Node(None, list)], owner[r := OnList];
         && Sound(mem', owner', top) && FreeList(mem', owner', r, [r] + free)
         && Bucket(mem', owner', p, mem[r], refs[1..], c[1..])
         && OnlyChanges(mem, owner, mem', owner', r)
  {
    RunsLength(mem, head.next, refs, c[1..]);
    var r := head.next;
    assert refs[0] in refs;
    EntryFreed(mem, owner, top, list, free, r);
    var mem' := mem[r := Node(None, list)];
    assert forall x :: x in refs[1..] ==> x in refs;
    forall x | x in refs[1..]
      ensures x != r
    {
      var k :| 1 <= k < |refs| && refs[k] == x;
      RunsNoDup(mem, head.next, refs, c[1..], 0, k);
    }
    RunsKept(mem, mem', mem[r].next, refs[1..], c[1..][1..]);
    assert c[1..][0] == c[1];
  }

  /** The entry before the one to be deleted: the bucket head or an overflow entry. */
  function CursorNext<T>(mem: Memory<T>, head: Node<T>, refs: seq<Ref>, k: nat): Ref
    requires k <= |refs|
  {
    if k == 0 then head.next else if refs[k - 1] in mem then mem[refs[k - 1]].next else NULL
  }

  lemma CursorAt<T>(mem: Memory<T>, owner: Owner, p: Place, head: Node<T>, refs: seq<Ref>, c: seq<T>, k: nat)
    requires Bucket(mem, owner, p, head, refs, c) && c != [] && k <= |refs|
    ensures |c| == |refs| + 1
    ensures CursorNext(mem, head, refs, k) == if k < |refs| then refs[k] else NULL
    ensures k < |refs| ==> refs[k] != NULL && refs[k] in mem && refs[k] in owner && owner[refs[k]] == p
                           && mem[refs[k]] == Node(Some(c[k + 1]), if k + 1 < |refs| then refs[k + 1] else NULL)
    ensures k > 0 ==> refs[k - 1] != NULL && refs[k - 1] in mem && refs[k - 1] in owner && owner[refs[k - 1]] == p
                      && mem[refs[k - 1]].data == Some(c[k])
  {
    RunsLength(mem, head.next, refs, c[1..]);
    if k > 0 {
      RunsAt(mem, head.next, refs, c[1..], k - 1);
      assert refs[k - 1] in refs;
    }
    if k < |refs| {
      RunsAt(mem, head.next, refs, c[1..], k);
      assert refs[k] in refs;
    }
  }

  /** Overflow entry `k` is taken out of its chain and freed. */
  lemma OverflowDeleted<T>(mem: Memory<T>, owner: Owner, top: nat, list: Ref, free: seq<Ref>,
                           p: Place, head: Node<T>, refs: seq<Ref>, c: seq<T>, k: nat)
    requires Sound(mem, owner, top) && FreeList(mem, owner, list, free)
    requires p != OnList && Bucket(mem, owner, p, head, refs, c) && c != [] && k < |refs|
    ensures |c| == |refs| + 1 && refs[k] in mem && (k > 0 ==> refs[k - 1] in mem)
    ensures
      var r, after := refs[k], mem[refs[k]].next;
      var head' := if k == 0 then head.(next := after) else head;
      var mem1 := if k == 0 then mem else mem[refs[k - 1] := mem[refs[k - 1]].(next := after)];
      var mem', owner' := mem1[r := Node(None, list)], owner[r := OnList];
      && Sound(mem', owner', top) && FreeList(mem', owner', r, [r] + free)
      && Bucket(mem', owner', p, head', Without(refs, k), Without(c, k + 1))
      && (forall q :: q != p && q != OnList ==> KeptAt(mem, owner, mem', owner', q))
  {
    CursorAt(mem, owner, p, head, refs, c, k);
    var r, after, tail := refs[k], mem[refs[k]].next, c[1..];
    var mem1 := if k == 0 then mem else mem[refs[k - 1] := mem[refs[k - 1]].(next := after)];
    assert Without(c, k + 1)[1..] == Without(tail, k) && Without(c, k + 1)[0] == c[0];
    if k == 0 {
      RunsAt(mem, head.next, refs, tail, 0);
      assert Without(refs, 0) == refs[1..] && Without(tail, 0) == tail[1..];
    } else {
      Unlinked(mem, head.next, refs, tail, k);
    }
    assert forall x :: x in free ==> x in owner && owner[x] == OnList;
    ListedKept(mem, mem1, list, free);
    EntryFreed(mem1, owner, top, list, free, r);
    var mem' := mem1[r := Node(None, list)];
    var refs' := Without(refs, k);
    forall x | x in refs'
      ensures x in refs && x != r
    {
      var j :| 0 <= j < |refs'| && refs'[j] == x;
      var i := if j < k then j else j + 1;
      assert refs[i] == x;
      RunsNoDup(mem, head.next, refs, tail, i, k);
    }
    RunsKept(mem1, mem', if k == 0 then after else head.next, refs', Without(tail, k));
  }
}
