/** hash_lookup, hash_insert, hash_delete and hash_rehash (tools/install/lib/hash.c) on
    buckets whose overflow entries are linked nodes, with the list of entries to be
    used again. */
module HashTables {
  import opened Options
  import opened Primes
  import opened HashNodes

  // Chains of entries

  function Flat<T>(bs: seq<seq<T>>): seq<T> {
    if bs == [] then [] else bs[0] + Flat(bs[1..])
  }

  /** The number of buckets in use. */
  function Used<T>(bs: seq<seq<T>>): nat {
    if bs == [] then 0 else (if bs[0] == [] then 0 else 1) + Used(bs[1..])
  }

  lemma {:induction false} FlatMembers<T>(bs: seq<seq<T>>, x: T)
    ensures x in Flat(bs) <==> exists i :: 0 <= i < |bs| && x in bs[i]
  {
    if bs != [] {
      FlatMembers(bs[1..], x);
      if x in Flat(bs[1..]) {
        var i :| 0 <= i < |bs[1..]| && x in bs[1..][i];
        assert x in bs[i + 1];
      }
      assert forall i :: 1 <= i < |bs| ==> bs[i] == bs[1..][i - 1];
    }
  }

  /** Replacing one chain. */
  lemma {:induction false} ReplaceChain<T>(bs: seq<seq<T>>, i: nat, c: seq<T>)
    requires i < |bs|
    ensures |Flat(bs[i := c])| == |Flat(bs)| - |bs[i]| + |c|
    ensures Used(bs[i := c]) == Used(bs) - (if bs[i] == [] then 0 else 1) + (if c == [] then 0 else 1)
    ensures |bs[i]| <= |Flat(bs)| && (bs[i] != [] ==> Used(bs) > 0)
  {
    if i == 0 {
      assert bs[i := c][1..] == bs[1..];
    } else {
      assert bs[i := c][1..] == bs[1..][i - 1 := c];
      ReplaceChain(bs[1..], i - 1, c);
    }
  }

  /** A new entry goes to the bucket head if that is free, else right behind it. */
  function WithEntry<T>(c: seq<T>, x: T): seq<T> {
    if c == [] then [x] else [c[0], x] + c[1..]
  }

  lemma {:induction false} FlatStep<T>(bs: seq<seq<T>>, i: nat)
    requires i < |bs|
    ensures Flat(bs[i..]) == bs[i] + Flat(bs[i + 1..])
  {
    assert bs[i..][1..] == bs[i + 1..];
  }

  lemma {:induction false} AllEmpty<T>(bs: seq<seq<T>>)
    requires forall i :: 0 <= i < |bs| ==> bs[i] == []
    ensures Flat(bs) == [] && Used(bs) == 0
  {
    if bs != [] {
      AllEmpty(bs[1..]);
    }
  }

  lemma NoneUsed<T>(bs: seq<seq<T>>)
    requires forall i :: 0 <= i < |bs| ==> bs[i] == []
    ensures Used(bs) == 0
  {
    AllEmpty(bs);
  }

  lemma EmptyBuckets<T>(mem: Memory<T>, owner: Owner, era: bool, heads: seq<Node<T>>, nodes: seq<seq<Ref>>, chains: seq<seq<T>>)
    requires |heads| == |nodes| == |chains|
    requires forall i :: 0 <= i < |heads| ==> heads[i] == Node(None, NULL) && nodes[i] == [] && chains[i] == []
    ensures Buckets(mem, owner, era, heads, nodes, chains, 0)
  {
  }

  // The order in which a growing table is emptied

  /** An entry, and whether it stands in the bucket head. */
  datatype Item<T> = Item(data: T, head: bool)

  function ItemsOf<T>(c: seq<T>, head: bool): seq<Item<T>> {
    if c == [] then [] else [Item(c[0], head)] + ItemsOf(c[1..], false)
  }

  function Items<T>(bs: seq<seq<T>>): seq<Item<T>> {
    if bs == [] then [] else ItemsOf(bs[0], true) + Items(bs[1..])
  }

  function Datas<T>(p: seq<Item<T>>): seq<T> {
    if p == [] then [] else Datas(p[..|p| - 1]) + [p[|p| - 1].data]
  }

  /** Buckets that have been begun. */
  function Heads<T>(p: seq<Item<T>>): nat {
    if p == [] then 0 else Heads(p[..|p| - 1]) + (if p[|p| - 1].head then 1 else 0)
  }

  lemma {:induction false} DatasAppend<T>(p: seq<Item<T>>, q: seq<Item<T>>)
    ensures Datas(p + q) == Datas(p) + Datas(q)
  {
    if q == [] {
      assert p + q == p;
    } else {
      assert (p + q)[..|p + q| - 1] == p + q[..|q| - 1];
      DatasAppend(p, q[..|q| - 1]);
    }
  }

  lemma {:induction false} DatasOf<T>(c: seq<T>, head: bool)
    ensures Datas(ItemsOf(c, head)) == c && |ItemsOf(c, head)| == |c|
  {
    if c != [] {
      DatasOf(c[1..], false);
      DatasAppend([Item(c[0], head)], ItemsOf(c[1..], false));
      assert [Item(c[0], head)][..0] == [];
    }
  }

  lemma {:induction false} DatasOfAll<T>(bs: seq<seq<T>>)
    ensures Datas(Items(bs)) == Flat(bs)
  {
    if bs != [] {
      DatasOf(bs[0], true);
      DatasOfAll(bs[1..]);
      DatasAppend(ItemsOf(bs[0], true), Items(bs[1..]));
    }
  }

  lemma {:induction false} ItemsStep<T>(bs: seq<seq<T>>, i: nat)
    requires i < |bs|
    ensures Items(bs[i..]) == ItemsOf(bs[i], true) + Items(bs[i + 1..])
  {
    assert bs[i..][1..] == bs[i + 1..];
  }

  lemma {:induction false} DatasSize<T>(p: seq<Item<T>>)
    ensures |Datas(p)| == |p|
  {
    if p != [] {
      DatasSize(p[..|p| - 1]);
    }
  }

  lemma NoItems<T>(bs: seq<seq<T>>)
    ensures Items(bs[|bs|..]) == []
  {
  }

  /** The slots that entries hash to in a table of size `n`. */
  ghost function Slots<T>(hasher: (T, nat) -> nat, p: seq<Item<T>>, n: nat): set<nat> {
    if p == [] then {} else Slots(hasher, p[..|p| - 1], n) + {hasher(p[|p| - 1].data, n)}
  }

  /** At some moment the entries moved so far came from more buckets than they fill. */
  ghost predicate EverCrowds<T>(hasher: (T, nat) -> nat, p: seq<Item<T>>, n: nat) {
    p != [] && (EverCrowds(hasher, p[..|p| - 1], n) || Heads(p) > |Slots(hasher, p, n)|)
  }

  /** The list of a table that grows: entries given back on the way, and what is left
      of the old list.  The old list is untouched until the move crowds. */
  ghost predicate Tracks<T>(hasher: (T, nat) -> nat, first: seq<Ref>, back: seq<Ref>, rest: seq<Ref>, p: seq<Item<T>>, n: nat) {
    && |rest| <= |first| && (first != [] && |rest| == |first| ==> rest == first)
    && (first != [] ==> (rest == first <==> !EverCrowds(hasher, p, n)))
    && (first != [] && rest == first ==> |back| == |Slots(hasher, p, n)| - Heads(p))
  }

  lemma TracksNone<T>(hasher: (T, nat) -> nat, first: seq<Ref>, n: nat)
    ensures Tracks(hasher, first, [], first, [], n)
  {
  }

  lemma TracksOn<T>(hasher: (T, nat) -> nat, first: seq<Ref>, back: seq<Ref>, rest: seq<Ref>, p: seq<Item<T>>, n: nat,
                    x: Item<T>, back1: seq<Ref>)
    requires Tracks(hasher, first, back, rest, p, n)
    requires |back1| == |back| + (if x.head then 0 else 1)
    ensures
      var full := hasher(x.data, n) in Slots(hasher, p, n);
      var back' := if full then RestOf(back1) else back1;
      var rest' := if full && back1 == [] then RestOf(rest) else rest;
      Tracks(hasher, first, back', rest', p + [x], n)
  {
    assert (p + [x])[..|p + [x]| - 1] == p;
    var s := Slots(hasher, p, n);
    assert hasher(x.data, n) in s ==> s + {hasher(x.data, n)} == s;
    assert hasher(x.data, n) !in s ==> |s + {hasher(x.data, n)}| == |s| + 1;
  }

  /** The chains of a table with `len` buckets into which the entries of `p` have been
      put one by one, at the slots for size `n`. */
  ghost function Filled<T>(hasher: (T, nat) -> nat, p: seq<Item<T>>, n: nat, len: nat): (bs: seq<seq<T>>)
    ensures |bs| == len
  {
    if p == [] then seq(len, _ => [])
    else
      var bs, x := Filled(hasher, p[..|p| - 1], n, len), p[|p| - 1].data;
      var j := hasher(x, n);
      if j < len then bs[j := WithEntry(bs[j], x)] else bs
  }

  lemma FilledNone<T>(hasher: (T, nat) -> nat, n: nat, len: nat)
    ensures Filled(hasher, [], n, len) == seq(len, _ => [])
  {
  }

  lemma FilledStep<T>(hasher: (T, nat) -> nat, p: seq<Item<T>>, n: nat, len: nat, x: Item<T>)
    requires hasher(x.data, n) < len
    ensures var bs, j := Filled(hasher, p, n, len), hasher(x.data, n);
            Filled(hasher, p + [x], n, len) == bs[j := WithEntry(bs[j], x.data)]
  {
    assert (p + [x])[..|p + [x]| - 1] == p;
  }

  /** The slots of the entries are the buckets that come into use. */
  lemma {:induction false} FilledSlots<T>(hasher: (T, nat) -> nat, p: seq<Item<T>>, n: nat, len: nat)
    requires forall x :: x in p ==> hasher(x.data, n) < len
    ensures var bs := Filled(hasher, p, n, len);
            && Used(bs) == |Slots(hasher, p, n)|
            && (forall j :: j in Slots(hasher, p, n) ==> j < len)
            && (forall j :: 0 <= j < len ==> (bs[j] != [] <==> j in Slots(hasher, p, n)))
  {
    if p == [] {
      AllEmpty(Filled(hasher, p, n, len));
    } else {
      var q, x := p[..|p| - 1], p[|p| - 1];
      assert x in p;
      FilledSlots(hasher, q, n, len);
      var bs, j := Filled(hasher, q, n, len), hasher(x.data, n);
      ReplaceChain(bs, j, WithEntry(bs[j], x.data));
      assert j in Slots(hasher, q, n) ==> Slots(hasher, q, n) + {j} == Slots(hasher, q, n);
    }
  }

  /** The storage of overflow entries: an obstack, or malloc. */
  class Heap<T> {
    var mem: Memory<T>
    var top: nat
    ghost var owner: Owner

    constructor ()
      ensures mem == map[] && owner == map[] && top == 1
    {
      mem, owner, top := map[], map[], 1;
    }
  }

  class HashTable<T(==, !new)> {
    const hasher: (T, nat) -> nat
    const comparator: (T, T) -> bool

    var heap: Heap<T>
    var bucket: array<Node<T>>
    var freeList: Ref
    var nBucketsUsed: nat
    var nEntries: nat

    // the data of each bucket, its overflow entries, the entries on the free list, and
    // the mark of this table on the entries it owns
    ghost var chains: seq<seq<T>>
    ghost var nodes: seq<seq<Ref>>
    ghost var free: seq<Ref>
    ghost var era: bool

    /** The hasher stays in range and gives equal entries the same slot; the comparator,
        which answers "true" for equal entries, is an equivalence. */
    ghost predicate Lawful() {
      && (forall x, n: nat {:trigger hasher(x, n)} :: n > 0 ==> hasher(x, n) < n)
      && (forall x :: comparator(x, x))
      && (forall x, y :: comparator(x, y) ==> comparator(y, x))
      && (forall x, y, z :: comparator(x, y) && comparator(y, z) ==> comparator(x, z))
      && (forall x, y, n: nat {:trigger comparator(x, y), hasher(x, n)} :: comparator(x, y) ==> hasher(x, n) == hasher(y, n))
    }

    /** Every entry is in the bucket its hash for size `n` says. */
    ghost predicate Placed(bs: seq<seq<T>>, n: nat) {
      forall i, x :: 0 <= i < |bs| && x in bs[i] ==> hasher(x, n) == i
    }

    /** No two entries of a chain compare equal. */
    ghost predicate Distinct(c: seq<T>) {
      forall j, k :: 0 <= j < |c| && 0 <= k < |c| && j != k ==> !comparator(c[j], c[k])
    }

    ghost predicate AllDistinct(bs: seq<seq<T>>) {
      forall i :: 0 <= i < |bs| ==> Distinct(bs[i])
    }

    /** The buckets and their overflow entries hold `chains`. */
    ghost predicate Linked()
      reads `heap, `bucket, `chains, `nodes, `era, bucket, heap
    {
      && bucket.Length > 0 && Sound(heap.mem, heap.owner, heap.top)
      && Buckets(heap.mem, heap.owner, era, bucket[..], nodes, chains, 0)
    }

    /** The free list has entries that are in no bucket. */
    ghost predicate ListValid()
      reads `heap, `freeList, `free, heap
    {
      FreeList(heap.mem, heap.owner, freeList, free)
    }

    /** The buckets are in order, whatever the free list is. */
    ghost predicate Ordered()
      reads this, bucket, heap
    {
      && Lawful() && Linked()
      && bucket.Length >= 11 && IsPrime(bucket.Length)
      && Placed(chains, bucket.Length) && AllDistinct(chains)
      && nEntries == |Flat(chains)| && nBucketsUsed == Used(chains)
    }

    ghost predicate Valid()
      reads this, bucket, heap
    {
      Ordered() && ListValid()
    }

    /** The entries of the table, as the set it stands for. */
    ghost function Contents(): set<T>
      reads `chains
    {
      set x | x in Flat(chains)
    }

    /** Some entry compares equal to `e`. */
    ghost predicate Matches(s: set<T>, e: T) {
      exists x :: x in s && comparator(e, x)
    }

    /** Only the chain of its own slot can hold an entry that compares equal. */
    lemma OnlyInOwnBucket(e: T)
      requires Ordered()
      ensures hasher(e, bucket.Length) < |chains|
      ensures forall x :: x in chains[hasher(e, bucket.Length)] ==> x in Contents()
      ensures forall x :: x in Contents() && comparator(e, x) ==> x in chains[hasher(e, bucket.Length)]
    {
      var b := hasher(e, bucket.Length);
      forall x | x in chains[b]
        ensures x in Contents()
      {
        FlatMembers(chains, x);
      }
      forall x | x in Contents() && comparator(e, x)
        ensures x in chains[b]
      {
        FlatMembers(chains, x);
        var i :| 0 <= i < |chains| && x in chains[i];
        assert hasher(x, bucket.Length) == i;
      }
    }

    /** hash_initialize: at least `candidate` buckets, a prime number of them. */
    constructor (candidate: nat, h: (T, nat) -> nat, c: (T, T) -> bool)
      requires forall x, n: nat {:trigger h(x, n)} :: n > 0 ==> h(x, n) < n
      requires forall x :: c(x, x)
      requires forall x, y :: c(x, y) ==> c(y, x)
      requires forall x, y, z :: c(x, y) && c(y, z) ==> c(x, z)
      requires forall x, y, n: nat {:trigger c(x, y), h(x, n)} :: c(x, y) ==> h(x, n) == h(y, n)
      ensures hasher == h && comparator == c && Valid() && fresh(bucket) && fresh(heap)
      ensures freeList == NULL && heap.top == 1 && heap.mem == map[] && nBucketsUsed == nEntries == 0 && free == []
      ensures chains == seq(bucket.Length, _ => []) && nodes == seq(bucket.Length, _ => [])
      ensures bucket[..] == seq(bucket.Length, _ => Node(None, NULL))
      ensures Contents() == {} && bucket.Length >= candidate
      ensures forall q :: (if candidate < 10 then 10 else candidate) <= q < bucket.Length ==> !IsPrime(q)
    {
      hide IsPrime, Used, Flat;
      hasher, comparator := h, c;
      var n := NextPrime(if candidate < 10 then 10 else candidate);
      AtLeastEleven(n);
      bucket := new Node<T>[n](_ => Node(None, NULL));
      heap := new Heap();
      nBucketsUsed, nEntries, freeList := 0, 0, NULL;
      chains, nodes, free, era := seq(n, _ => []), seq(n, _ => []), [], false;
      new;
      AllEmpty(chains);
    }

    static lemma AtLeastEleven(n: int)
      requires n >= 10 && IsPrime(n)
      ensures n >= 11
    {
      if n == 10 {
        assert Divides(2, n);
      }
    }

    /** hash_lookup.  In a table in order the own slot decides. */
    method Lookup(e: T) returns (r: Option<T>)
      requires Lawful() && Linked()
      ensures hasher(e, bucket.Length) < |chains|
      ensures r.Some? <==> exists x :: x in chains[hasher(e, bucket.Length)] && comparator(e, x)
      ensures r.Some? ==> r.value in chains[hasher(e, bucket.Length)] && comparator(e, r.value)
      ensures Ordered() ==> (r.Some? <==> Matches(Contents(), e)) && (r.Some? ==> r.value in Contents())
    {
      var b := hasher(e, bucket.Length);
      if Ordered() {
        OnlyInOwnBucket(e);
      }
      assert Bucket(heap.mem, heap.owner, In(era, b), bucket[..][b], nodes[b], chains[b]);
      if bucket[b].data.None? {
        return None;
      }
      var cursor := bucket[b];
      ghost var k := 0;
      CursorAt(heap.mem, heap.owner, In(era, b), cursor, nodes[b], chains[b], 0);
      while !comparator(e, cursor.data.value)
        invariant k <= |nodes[b]| && |chains[b]| == |nodes[b]| + 1
        invariant cursor == Node(Some(chains[b][k]), if k < |nodes[b]| then nodes[b][k] else NULL)
        invariant forall j :: 0 <= j < k ==> !comparator(e, chains[b][j])
        decreases |nodes[b]| - k
      {
        CursorAt(heap.mem, heap.owner, In(era, b), bucket[b], nodes[b], chains[b], k);
        if cursor.next == NULL {
          return None;
        }
        cursor, k := heap.mem[cursor.next], k + 1;
      }
      r := cursor.data;
    }

    /** allocate_entry: an entry from the list, or new storage. */
    method AllocateEntry() returns (r: Ref)
      requires freeList == NULL || freeList in heap.mem
      modifies this`freeList, heap
      ensures r == Taken(old(freeList), old(heap.top)) && freeList == ListAfter(heap.mem, old(freeList))
      ensures heap.mem == old(heap.mem) && heap.owner == old(heap.owner) && heap.top == TopAfter(old(freeList), old(heap.top))
    {
      if freeList != NULL {
        r := freeList;
        freeList := heap.mem[r].next;
      } else {
        r := heap.top;
        heap.top := heap.top + 1;
      }
    }

    /** free_entry: an overflow entry goes to the front of the list. */
    method FreeEntry(r: Ref)
      modifies this`freeList, this`free, heap
      ensures heap.mem == old(heap.mem)[r := Node(None, old(freeList))] && heap.owner == old(heap.owner)[r := OnList]
      ensures freeList == r && free == [r] + old(free) && heap.top == old(heap.top)
    {
      heap.mem, heap.owner := heap.mem[r := Node(None, freeList)], heap.owner[r := OnList];
      freeList, free := r, [r] + free;
    }

    /** A new overflow entry for `e` right behind the head of bucket `b`. */
    method AddOverflow(b: nat, e: T)
      requires b < bucket.Length == |chains| == |nodes| && (freeList == NULL || freeList in heap.mem)
      modifies this`freeList, this`free, this`chains, this`nodes, heap, bucket
      ensures
        var r := Taken(old(freeList), old(heap.top));
        && heap.mem == old(heap.mem)[r := Node(Some(e), old(bucket[b]).next)]
        && heap.owner == old(heap.owner)[r := In(era, b)]
        && bucket[..] == old(bucket[..])[b := old(bucket[b]).(next := r)]
        && nodes == old(nodes)[b := [r] + old(nodes)[b]]
      ensures freeList == ListAfter(old(heap.mem), old(freeList)) && heap.top == TopAfter(old(freeList), old(heap.top))
      ensures chains == old(chains)[b := WithEntry(old(chains)[b], e)] && free == RestOf(old(free))
    {
      var r := AllocateEntry();
      heap.mem, heap.owner := heap.mem[r := Node(Some(e), bucket[b].next)], heap.owner[r := In(era, b)];
      bucket[b] := bucket[b].(next := r);
      chains, nodes, free := chains[b := WithEntry(chains[b], e)], nodes[b := [r] + nodes[b]], RestOf(free);
    }

    /** Adding an entry to its bucket, where nothing compares equal to it. */
    lemma EntryAdded(bs: seq<seq<T>>, n: nat, i: nat, x: T)
      requires Lawful() && Placed(bs, n) && AllDistinct(bs)
      requires i < |bs| && hasher(x, n) == i && forall y :: y in bs[i] ==> !comparator(x, y)
      ensures var bs' := bs[i := WithEntry(bs[i], x)];
              && Placed(bs', n) && AllDistinct(bs')
              && |Flat(bs')| == |Flat(bs)| + 1
              && Used(bs') == Used(bs) + (if bs[i] == [] then 1 else 0)
              && (forall y :: y in Flat(bs') <==> y in Flat(bs) || y == x)
    {
      var c := WithEntry(bs[i], x);
      var bs' := bs[i := c];
      ReplaceChain(bs, i, c);
      assert forall y :: y in c <==> y in bs[i] || y == x;
      DistinctWith(bs[i], x);
      forall y
        ensures y in Flat(bs') <==> y in Flat(bs) || y == x
      {
        FlatMembers(bs, y);
        FlatMembers(bs', y);
        if j :| 0 <= j < |bs| && y in bs[j] {
          assert y in bs'[j];
        }
        if y == x {
          assert y in bs'[i];
        }
      }
    }

    lemma DistinctWith(c: seq<T>, x: T)
      requires Lawful() && Distinct(c) && forall y :: y in c ==> !comparator(x, y)
      ensures Distinct(WithEntry(c, x))
    {
      var d := WithEntry(c, x);
      forall j, k | 0 <= j < |d| && 0 <= k < |d| && j != k
        ensures !comparator(d[j], d[k])
      {
        if c != [] {
          var j', k' := if j == 0 then 0 else j - 1, if k == 0 then 0 else k - 1;
          assert j != 1 ==> d[j] == c[j'];
          assert k != 1 ==> d[k] == c[k'];
        }
      }
    }

    /** Taking entry `k` out of chain `i`. */
    lemma EntryRemoved(bs: seq<seq<T>>, n: nat, i: nat, k: nat)
      requires Lawful() && Placed(bs, n) && AllDistinct(bs)
      requires i < |bs| && k < |bs[i]|
      ensures var bs' := bs[i := Without(bs[i], k)];
              && Placed(bs', n) && AllDistinct(bs')
              && |Flat(bs')| == |Flat(bs)| - 1
              && Used(bs') == Used(bs) - (if |bs[i]| == 1 then 1 else 0)
              && (forall y :: y in Flat(bs') <==> y in Flat(bs) && y != bs[i][k])
    {
      var c, x := Without(bs[i], k), bs[i][k];
      var bs' := bs[i := c];
      ReplaceChain(bs, i, c);
      DistinctWithout(bs[i], k);
      forall y
        ensures y in Flat(bs') <==> y in Flat(bs) && y != x
      {
        FlatMembers(bs, y);
        FlatMembers(bs', y);
        assert x in bs[i] && hasher(x, n) == i;
        if j :| 0 <= j < |bs| && y in bs[j] && y != x {
          assert y in bs'[j];
        }
        if j :| 0 <= j < |bs'| && y in bs'[j] {
          assert y in bs[j] && hasher(y, n) == j;
        }
      }
    }

    lemma DistinctWithout(c: seq<T>, k: nat)
      requires Lawful() && Distinct(c) && k < |c|
      ensures Distinct(Without(c, k))
      ensures forall y :: y in Without(c, k) <==> y in c && y != c[k]
    {
      var d := Without(c, k);
      assert forall j :: 0 <= j < |d| ==> d[j] == c[if j < k then j else j + 1];
      forall y | y in c && y != c[k]
        ensures y in d
      {
        var j :| 0 <= j < |c| && c[j] == y;
        assert d[if j < k then j else j - 1] == y;
      }
    }

    lemma OnlyMatch(c: seq<T>, k: nat, e: T)
      requires Lawful() && Distinct(c) && k < |c| && comparator(e, c[k])
      ensures forall y :: y in c && comparator(e, y) ==> y == c[k]
    {
      forall y | y in c && comparator(e, y)
        ensures y == c[k]
      {
        var j :| 0 <= j < |c| && c[j] == y;
        assert comparator(y, e);
      }
    }

    /** The chain of bucket `b` becomes `c`, held by the entries `refs`. */
    ghost method Unlink(mem: Memory<T>, owner: Owner, heads: seq<Node<T>>, b: nat, head: Node<T>, refs: seq<Ref>, c: seq<T>)
      requires bucket.Length > 0 && Buckets(mem, owner, era, heads, nodes, chains, 0) && b < |heads|
      requires bucket[..] == heads[b := head] && Sound(heap.mem, heap.owner, heap.top)
      requires forall q :: q != In(era, b) && q != OnList ==> KeptAt(mem, owner, heap.mem, heap.owner, q)
      requires Bucket(heap.mem, heap.owner, In(era, b), head, refs, c)
      modifies this`chains, this`nodes
      ensures Linked() && chains == old(chains)[b := c] && nodes == old(nodes)[b := refs]
    {
      OneBucketChanges(mem, owner, heap.mem, heap.owner, era, heads, nodes, chains, b, head, refs, c);
      chains, nodes := chains[b := c], nodes[b := refs];
    }

    /** What is left of a chain and its overflow entries without entry `k`, and the
        overflow entry that is freed. */
    ghost predicate Shortened(before: seq<seq<T>>, after: seq<seq<T>>, before': seq<seq<Ref>>, after': seq<seq<Ref>>,
                              free: seq<Ref>, free': seq<Ref>, b: nat, k: nat)
    {
      && b < |before| == |before'| && |before[b]| == |before'[b]| + 1 && k < |before[b]|
      && after == before[b := Without(before[b], k)]
      && var j := if k == 0 then 0 else k - 1;
         if before'[b] == [] then after' == before' && free' == free
         else after' == before'[b := Without(before'[b], j)] && free' == [before'[b][j]] + free
    }

    /** The entry in a bucket head is deleted. */
    method UnlinkHead(b: nat)
      requires Linked() && ListValid() && b < bucket.Length && bucket[b].data.Some?
      modifies this`freeList, this`free, this`chains, this`nodes, heap, bucket
      ensures Linked() && ListValid() && heap.top == old(heap.top)
      ensures Shortened(old(chains), chains, old(nodes), nodes, old(free), free, b, 0)
    {
      ghost var mem, owner, refs, c, p := heap.mem, heap.owner, nodes[b], chains[b], In(era, b);
      ghost var heads := bucket[..];
      assert Bucket(mem, owner, p, heads[b], refs, c);
      CursorAt(mem, owner, p, heads[b], refs, c, 0);
      assert Without(c, 0) == c[1..];
      var next := bucket[b].next;
      if next != NULL {
        assert Without(refs, 0) == refs[1..];
        HeadDeleted(mem, owner, heap.top, freeList, free, p, heads[b], refs, c);
        bucket[b] := heap.mem[next];
        FreeEntry(next);
        Unlink(mem, owner, heads, b, mem[next], refs[1..], c[1..]);
      } else {
        assert nodes[b := []] == nodes;
        bucket[b] := bucket[b].(data := None);
        Unlink(mem, owner, heads, b, Node(None, NULL), [], []);
      }
    }

    /** The overflow entry behind the cursor is deleted: the bucket head for None. */
    method UnlinkOverflow(b: nat, cursor: Option<Ref>, ghost k: nat)
      requires Linked() && ListValid() && b < bucket.Length && bucket[b].data.Some? && k < |nodes[b]|
      requires cursor == if k == 0 then None else Some(nodes[b][k - 1])
      modifies this`freeList, this`free, this`chains, this`nodes, heap, bucket
      ensures Linked() && ListValid() && heap.top == old(heap.top)
      ensures Shortened(old(chains), chains, old(nodes), nodes, old(free), free, b, k + 1)
    {
      ghost var mem, owner, refs, c, p := heap.mem, heap.owner, nodes[b], chains[b], In(era, b);
      ghost var heads := bucket[..];
      assert Bucket(mem, owner, p, heads[b], refs, c) && c != [];
      hide Bucket, FreeList, Sound, KeptAt, Runs;
      CursorAt(mem, owner, p, heads[b], refs, c, k);
      OverflowDeleted(mem, owner, heap.top, freeList, free, p, heads[b], refs, c, k);
      var next := if cursor.None? then bucket[b].next else heap.mem[cursor.value].next;
      var after := heap.mem[next].next;
      if cursor.None? {
        bucket[b] := bucket[b].(next := after);
      } else {
        heap.mem := heap.mem[cursor.value := heap.mem[cursor.value].(next := after)];
      }
      FreeEntry(next);
      Unlink(mem, owner, heads, b, bucket[b], Without(refs, k), Without(c, k + 1));
    }

    /** hash_find_entry: the slot of `e`, and the entry there that compares equal; on
        request that entry is unlinked, and its overflow entry is freed.  When it is the
        bucket head, the first overflow entry becomes the head and is the one freed. */
    method FindEntry(e: T, delete: bool) returns (data: Option<T>, b: nat, ghost k: nat)
      requires Lawful() && Linked() && (delete ==> ListValid())
      modifies this`freeList, this`free, this`chains, this`nodes, heap, bucket
      ensures b == hasher(e, bucket.Length) && b < bucket.Length == |old(chains)|
      ensures data.Some? ==> k < |old(chains)[b]| && data.value == old(chains)[b][k] && comparator(e, data.value)
      ensures data.None? ==> forall y :: y in old(chains)[b] ==> !comparator(e, y)
      ensures data.None? || !delete ==> unchanged(this) && unchanged(heap) && unchanged(bucket)
      ensures data.Some? && delete ==> Linked() && ListValid() && heap.top == old(heap.top)
      ensures data.Some? && delete ==> Shortened(old(chains), chains, old(nodes), nodes, old(free), free, b, k)
    {
      b, k := hasher(e, bucket.Length), 0;
      ghost var refs, c := nodes[b], chains[b];
      assert Bucket(heap.mem, heap.owner, In(era, b), bucket[..][b], refs, c);
      if bucket[b].data.None? {
        return None, b, 0;
      }
      CursorAt(heap.mem, heap.owner, In(era, b), bucket[b], refs, c, 0);
      if comparator(e, bucket[b].data.value) {
        data := bucket[b].data;
        if delete {
          UnlinkHead(b);
        }
        return;
      }
      // the entry at the cursor is the bucket head or overflow entry k - 1
      var cursor: Option<Ref> := None;
      var next := bucket[b].next;
      while next != NULL
        invariant unchanged(this) && unchanged(heap) && unchanged(bucket)
        invariant k <= |refs| && |c| == |refs| + 1
        invariant next == if k < |refs| then refs[k] else NULL
        invariant cursor == if k == 0 then None else Some(refs[k - 1])
        invariant forall j :: 0 <= j <= k ==> !comparator(e, c[j])
        decreases |refs| - k
      {
        CursorAt(heap.mem, heap.owner, In(era, b), bucket[b], refs, c, k);
        var entry := heap.mem[next];
        if comparator(e, entry.data.value) {
          data := entry.data;
          if delete {
            UnlinkOverflow(b, cursor, k);
          }
          k := k + 1;
          return;
        }
        cursor, next, k := Some(next), entry.next, k + 1;
      }
      data := None;
    }

    /** hash_delete */
    method Delete(e: T) returns (r: Option<T>, ghost k: nat)
      requires Valid()
      modifies this`freeList, this`free, this`chains, this`nodes, this`nBucketsUsed, this`nEntries, heap, bucket
      ensures Valid()
      ensures r.Some? <==> old(Matches(Contents(), e))
      ensures r.Some? ==> r.value in old(Contents()) && comparator(e, r.value) && Contents() == old(Contents()) - {r.value}
      ensures r.None? ==> Contents() == old(Contents())
      ensures !Matches(Contents(), e)
      ensures r.Some? ==>
        && hasher(e, bucket.Length) < |old(chains)| && k < |old(chains)[hasher(e, bucket.Length)]|
        && old(chains)[hasher(e, bucket.Length)][k] == r.value
        && Shortened(old(chains), chains, old(nodes), nodes, old(free), free, hasher(e, bucket.Length), k)
    {
      hide Linked, ListValid, Lawful, Placed, Distinct, Used, Flat, IsPrime;
      ghost var bs := chains;
      OnlyInOwnBucket(e);
      var b;
      r, b, k := FindEntry(e, true);
      if r.None? {
        return;
      }
      EntryRemoved(bs, bucket.Length, b, k);
      HeadInUse(b);
      if bucket[b].data.None? {
        nBucketsUsed := nBucketsUsed - 1;
      }
      nEntries := nEntries - 1;
      OnlyMatch(bs[b], k, e);
    }

    /** No two entries of a valid table compare equal, wherever they are. */
    lemma {:induction false} FlatDistinct(bs: seq<seq<T>>, n: nat, from: nat)
      requires Lawful() && Placed(bs, n) && AllDistinct(bs) && from <= |bs|
      ensures Distinct(Flat(bs[from..]))
      decreases |bs| - from
    {
      if from < |bs| {
        FlatDistinct(bs, n, from + 1);
        FlatStep(bs, from);
        var c, f := bs[from], Flat(bs[from + 1..]);
        forall j, k | 0 <= j < |c| && 0 <= k < |f|
          ensures !comparator(c[j], f[k]) && !comparator(f[k], c[j])
        {
          FlatMembers(bs[from + 1..], f[k]);
          assert f[k] in f;
          var i :| 0 <= i < |bs[from + 1..]| && f[k] in bs[from + 1..][i];
          assert f[k] in bs[from + 1 + i] && hasher(f[k], n) == from + 1 + i;
          assert c[j] in bs[from] && hasher(c[j], n) == from;
        }
        assert forall j :: 0 <= j < |c| ==> (c + f)[j] == c[j];
        assert forall j :: |c| <= j < |c + f| ==> (c + f)[j] == f[j - |c|];
      }
    }

    /** The counter is the number of entries: the table holds nothing twice. */
    lemma CountsEntries()
      requires Ordered()
      ensures nEntries == |Contents()|
    {
      assert chains[0..] == chains;
      FlatDistinct(chains, bucket.Length, 0);
      SizeOfDistinct(Flat(chains));
    }

    lemma {:induction false} SizeOfDistinct(s: seq<T>)
      requires Lawful() && Distinct(s)
      ensures |set x | x in s| == |s|
    {
      if s != [] {
        var t := s[1..];
        assert forall j :: 0 <= j < |t| ==> t[j] == s[j + 1];
        SizeOfDistinct(t);
        assert s[0] !in t;
        assert (set x | x in s) == (set x | x in t) + {s[0]};
      }
    }

    /** Placed for one size means placed for another exactly when the hashes agree. */
    lemma PlacedFor(bs: seq<seq<T>>, n: nat, n': nat)
      requires Placed(bs, n)
      ensures Placed(bs, n') <==> forall x :: x in Flat(bs) ==> hasher(x, n) == hasher(x, n')
    {
      forall i, x | 0 <= i < |bs| && x in bs[i]
        ensures x in Flat(bs)
      {
        FlatMembers(bs, x);
      }
      if Placed(bs, n') {
        forall x | x in Flat(bs)
          ensures hasher(x, n) == hasher(x, n')
        {
          FlatMembers(bs, x);
          var i :| 0 <= i < |bs| && x in bs[i];
          assert hasher(x, n) == i && hasher(x, n') == i;
        }
      }
    }

    /** Entries that are put in one by one stand where their hash says. */
    lemma {:induction false} FilledOrdered(p: seq<Item<T>>, n: nat, len: nat)
      requires Lawful() && 0 < n <= len && Distinct(Datas(p))
      ensures var bs := Filled(hasher, p, n, len);
              && Placed(bs, n) && AllDistinct(bs) && |Flat(bs)| == |p|
              && (forall y :: y in Flat(bs) <==> y in Datas(p))
    {
      if p == [] {
        AllEmpty(Filled(hasher, p, n, len));
      } else {
        var q, x := p[..|p| - 1], p[|p| - 1].data;
        var d := Datas(q);
        assert Datas(p) == d + [x];
        assert forall j :: 0 <= j < |d| ==> Datas(p)[j] == d[j];
        FilledOrdered(q, n, len);
        var bs, j := Filled(hasher, q, n, len), hasher(x, n);
        forall y | y in bs[j]
          ensures !comparator(x, y)
        {
          FlatMembers(bs, y);
          var k :| 0 <= k < |d| && d[k] == y;
          assert Datas(p)[k] == y && Datas(p)[|d|] == x;
        }
        EntryAdded(bs, n, j, x);
      }
    }

    // hash_rehash

    /** Some chain goes through entry `r`. */
    ghost predicate InUse(r: Ref)
      reads this
    {
      exists b :: 0 <= b < |nodes| && r in nodes[b]
    }

    /** A new table while the entries `p` have been moved to it: `back` are overflow
        entries given back on the way, `rest` is what is left of the list `first`. */
    ghost predicate Receives(n: nat, first: seq<Ref>, p: seq<Item<T>>, back: seq<Ref>, rest: seq<Ref>)
      reads this, bucket, heap
    {
      && Linked() && ListValid() && free == back + rest
      && chains == Filled(hasher, p, n, bucket.Length) && nBucketsUsed == Used(chains)
      && (first != [] && rest != first ==> InUse(first[0]))
    }

    /** An entry that goes behind the head of bucket `b`. */
    method PlaceOverflow(b: nat, e: T)
      requires Linked() && ListValid() && b < bucket.Length && chains[b] != []
      modifies this`freeList, this`free, this`chains, this`nodes, heap, bucket
      ensures Linked() && ListValid()
      ensures chains == old(chains)[b := WithEntry(old(chains)[b], e)] && free == RestOf(old(free))
      ensures nodes == old(nodes)[b := [Taken(old(freeList), old(heap.top))] + old(nodes)[b]]
      ensures forall q: Place :: q.In? && q != In(era, b) ==> KeptAt(old(heap.mem), old(heap.owner), heap.mem, heap.owner, q)
    {
      ghost var mem, owner, heads, p := heap.mem, heap.owner, bucket[..], In(era, b);
      ghost var bs, ns := chains, nodes;
      assert Bucket(mem, owner, p, heads[b], ns[b], bs[b]);
      assert freeList == NULL || freeList in heap.mem;
      hide Bucket, FreeList, Sound, KeptAt, OnlyChanges;
      OverflowAdded(mem, owner, heap.top, freeList, free, p, heads[b], ns[b], bs[b], e);
      AddOverflow(b, e);
      forall q: Place | q.In? && q != p
        ensures KeptAt(mem, owner, heap.mem, heap.owner, q)
      {
        OthersKept(mem, owner, heap.mem, heap.owner, Taken(old(freeList), old(heap.top)), q);
      }
      OneBucketChanges(mem, owner, heap.mem, heap.owner, era, heads, ns, bs, b, bucket[b], nodes[b], chains[b]);
    }

    /** An entry that goes into the free head of bucket `b`. */
    method PlaceHead(b: nat, e: T)
      requires Linked() && ListValid() && b < bucket.Length && chains[b] == []
      modifies this`chains, this`nBucketsUsed, bucket
      ensures Linked() && ListValid()
      ensures chains == old(chains)[b := [e]] && nBucketsUsed == old(nBucketsUsed) + 1
    {
      ghost var mem, owner, heads := heap.mem, heap.owner, bucket[..];
      assert Bucket(mem, owner, In(era, b), heads[b], nodes[b], chains[b]);
      bucket[b] := bucket[b].(data := Some(e));
      OneBucketChanges(mem, owner, mem, owner, era, heads, nodes, chains, b, bucket[b], nodes[b], [e]);
      assert nodes[b := nodes[b]] == nodes;
      chains, nBucketsUsed := chains[b := [e]], nBucketsUsed + 1;
    }

    lemma HeadInUse(b: nat)
      requires Linked() && b < bucket.Length
      ensures |chains| == |nodes| == bucket.Length && (bucket[b].data.Some? <==> chains[b] != [])
    {
      assert Bucket(heap.mem, heap.owner, In(era, b), bucket[..][b], nodes[b], chains[b]);
    }

    lemma ListHead()
      requires ListValid()
      ensures freeList == (if free == [] then NULL else free[0]) && (free != [] ==> freeList != NULL)
    {
    }

    /** The entry `e` goes to its slot for size `n`. */
    method PlaceEntry(e: T, n: nat)
      requires Linked() && ListValid() && hasher(e, n) < bucket.Length == |chains|
      modifies this`freeList, this`free, this`chains, this`nodes, this`nBucketsUsed, heap, bucket
      ensures Linked() && ListValid()
      ensures
        var b := hasher(e, n);
        var full := old(chains)[b] != [];
        && chains == old(chains)[b := WithEntry(old(chains)[b], e)]
        && nBucketsUsed == old(nBucketsUsed) + (if full then 0 else 1)
        && free == (if full then RestOf(old(free)) else old(free))
        && (forall r :: old(InUse(r)) ==> InUse(r))
        && (full && old(free) != [] ==> InUse(old(free)[0]))
      ensures forall q: Place :: q.In? && q.era != era ==> KeptAt(old(heap.mem), old(heap.owner), heap.mem, heap.owner, q)
    {
      hide Linked, ListValid;
      var b := hasher(e, n);
      HeadInUse(b);
      ListHead();
      ghost var ns := nodes;
      if bucket[b].data.Some? {
        PlaceOverflow(b, e);
        HeadInUse(b);
        assert nodes[b][0] == Taken(old(freeList), old(heap.top));
        assert nodes[b][0] in nodes[b] && InUse(nodes[b][0]);
        forall r | old(InUse(r))
          ensures InUse(r)
        {
          var i :| 0 <= i < |ns| && r in ns[i];
          assert r in nodes[i];
        }
      } else {
        PlaceHead(b, e);
        forall q: Place | q.In? && q.era != era
          ensures KeptAt(old(heap.mem), old(heap.owner), heap.mem, heap.owner, q)
        {
        }
      }
    }

    /** One more entry is moved to this new table. */
    method ReceiveEntry(x: Item<T>, n: nat, ghost first: seq<Ref>, ghost p: seq<Item<T>>,
                        ghost before: seq<Ref>, ghost back: seq<Ref>, ghost rest: seq<Ref>)
      returns (ghost back': seq<Ref>, ghost rest': seq<Ref>)
      requires Lawful() && 0 < n <= bucket.Length
      requires Receives(n, first, p, back, rest) && Tracks(hasher, first, before, rest, p, n)
      requires |back| == |before| + (if x.head then 0 else 1)
      modifies this`freeList, this`free, this`chains, this`nodes, this`nBucketsUsed, heap, bucket
      ensures Receives(n, first, p + [x], back', rest') && Tracks(hasher, first, back', rest', p + [x], n)
      ensures forall q: Place :: q.In? && q.era != era ==> KeptAt(old(heap.mem), old(heap.owner), heap.mem, heap.owner, q)
    {
      hide Linked, ListValid, Tracks, Filled, Slots, Used, Flat, KeptAt, InUse;
      ghost var b := hasher(x.data, n);
      FilledSlots(hasher, p, n, bucket.Length);
      FilledStep(hasher, p, n, bucket.Length, x);
      TracksOn(hasher, first, before, rest, p, n, x, back);
      ReplaceChain(chains, b, WithEntry(chains[b], x.data));
      ghost var full := chains[b] != [];
      back' := if full then RestOf(back) else back;
      rest' := if full && back == [] then RestOf(rest) else rest;
      PlaceEntry(x.data, n);
      assert free == back' + rest';
    }

    /** What `newTable` is to this table while entries are moved to it. */
    ghost predicate Feeds(newTable: HashTable<T>, n: nat)
      reads this, newTable
    {
      && newTable != this && newTable.heap == heap && newTable.bucket != bucket && newTable.era != era
      && newTable.hasher == hasher && newTable.comparator == comparator
      && newTable.Lawful() && 0 < n <= newTable.bucket.Length
    }

    /** The buckets from `i` on still hold their chains. */
    ghost predicate Remains(i: nat)
      reads this, heap, bucket
    {
      Buckets(heap.mem, heap.owner, era, bucket[..], nodes, chains, i)
    }

    /** An overflow entry of bucket `i` is freed, and its data goes to the new table. */
    method MoveOverflow(newTable: HashTable<T>, n: nat, i: nat, cursor: Ref, ghost refs: seq<Ref>, ghost c: seq<T>,
                        ghost first: seq<Ref>, ghost p: seq<Item<T>>, ghost back: seq<Ref>, ghost rest: seq<Ref>)
      returns (next: Ref, ghost back': seq<Ref>, ghost rest': seq<Ref>)
      requires Feeds(newTable, n) && Remains(i + 1)
      requires refs != [] && Runs(heap.mem, cursor, refs, c) && Owned(heap.owner, refs, In(era, i))
      requires newTable.Receives(n, first, p, back, rest) && Tracks(hasher, first, back, rest, p, n)
      modifies newTable`freeList, newTable`free, newTable`chains, newTable`nodes, newTable`nBucketsUsed, heap, newTable.bucket
      ensures Runs(heap.mem, next, refs[1..], c[1..]) && Owned(heap.owner, refs[1..], In(era, i)) && Remains(i + 1)
      ensures newTable.Receives(n, first, p + [Item(c[0], false)], back', rest')
      ensures Tracks(hasher, first, back', rest', p + [Item(c[0], false)], n)
    {
      hide Receives, Tracks, Lawful;
      ghost var mem, owner := heap.mem, heap.owner;
      RunsLength(mem, cursor, refs, c);
      forall r | r in refs[1..]
        ensures r in refs && r != refs[0] && r in owner && owner[r] == In(era, i)
      {
        var k :| 0 <= k < |refs[1..]| && refs[1..][k] == r;
        RunsNoDup(mem, cursor, refs, c, k + 1, 0);
      }
      var data := heap.mem[cursor].data.value;
      next := heap.mem[cursor].next;
      assert refs[0] in refs;
      newTable.FreeOld(cursor, n, first, p, back, rest);
      RunsKept(mem, heap.mem, next, refs[1..], c[1..]);
      StillRemains(mem, owner, i + 1, i);
      ghost var mem1, owner1 := heap.mem, heap.owner;
      back', rest' := newTable.ReceiveEntry(Item(data, false), n, first, p, back, [cursor] + back, rest);
      assert KeptAt(mem1, owner1, heap.mem, heap.owner, In(era, i));
      RunsKept(mem1, heap.mem, next, refs[1..], c[1..]);
      StillRemains(mem1, owner1, i + 1, i);
    }

    /** Entries of other buckets of this table have been kept. */
    lemma StillRemains(mem: Memory<T>, owner: Owner, from: nat, i: nat)
      requires Buckets(mem, owner, era, bucket[..], nodes, chains, from) && i < from
      requires forall q: Place :: q.In? && q.era == era && q != In(era, i) ==> KeptAt(mem, owner, heap.mem, heap.owner, q)
      ensures Remains(from)
    {
      BucketsKept(mem, owner, heap.mem, heap.owner, era, bucket[..], nodes, chains, from);
    }

    /** An entry of the old table is freed on behalf of this new one. */
    method FreeOld(r: Ref, n: nat, ghost first: seq<Ref>, ghost p: seq<Item<T>>, ghost back: seq<Ref>, ghost rest: seq<Ref>)
      requires Receives(n, first, p, back, rest)
      requires r in heap.owner && heap.owner[r].In? && heap.owner[r].era != era
      modifies this`freeList, this`free, heap
      ensures Receives(n, first, p, [r] + back, rest)
      ensures forall x :: x in old(heap.mem) && x != r ==> x in heap.mem && heap.mem[x] == old(heap.mem)[x]
      ensures forall x :: x in old(heap.owner) && x != r ==> x in heap.owner && heap.owner[x] == old(heap.owner)[x]
      ensures forall q :: q != old(heap.owner)[r] ==> KeptAt(old(heap.mem), old(heap.owner), heap.mem, heap.owner, q)
    {
      ghost var mem, owner := heap.mem, heap.owner;
      EntryFreed(mem, owner, heap.top, freeList, free, r);
      FreeEntry(r);
      assert [r] + (back + rest) == [r] + back + rest;
      BucketsKept(mem, owner, heap.mem, heap.owner, era, bucket[..], nodes, chains, 0);
    }

    /** All entries of bucket `i` are moved to the new table. */
    method MoveBucket(newTable: HashTable<T>, n: nat, i: nat,
                      ghost first: seq<Ref>, ghost p: seq<Item<T>>, ghost back: seq<Ref>, ghost rest: seq<Ref>)
      returns (ghost back': seq<Ref>, ghost rest': seq<Ref>)
      requires Feeds(newTable, n) && i < bucket.Length && Remains(i)
      requires newTable.Receives(n, first, p, back, rest) && Tracks(hasher, first, back, rest, p, n)
      modifies newTable`freeList, newTable`free, newTable`chains, newTable`nodes, newTable`nBucketsUsed, heap, newTable.bucket
      ensures Remains(i + 1) && |chains| == bucket.Length
      ensures newTable.Receives(n, first, p + ItemsOf(chains[i], true), back', rest')
      ensures Tracks(hasher, first, back', rest', p + ItemsOf(chains[i], true), n)
    {
      hide Receives, Tracks, Lawful;
      ghost var mem, owner, refs, c := heap.mem, heap.owner, nodes[i], chains[i];
      assert Bucket(mem, owner, In(era, i), bucket[..][i], refs, c);
      back', rest' := back, rest;
      if bucket[i].data.None? {
        assert p + ItemsOf(c, true) == p;
        return;
      }
      var next := bucket[i].next;
      back', rest' := newTable.ReceiveEntry(Item(bucket[i].data.value, true), n, first, p, back, back, rest);
      assert KeptAt(mem, owner, heap.mem, heap.owner, In(era, i));
      RunsKept(mem, heap.mem, next, refs, c[1..]);
      StillRemains(mem, owner, i + 1, i);
      ghost var q, d := p + [Item(c[0], true)], c[1..];
      while next != NULL
        invariant Remains(i + 1)
        invariant Runs(heap.mem, next, refs, d) && Owned(heap.owner, refs, In(era, i))
        invariant newTable.Receives(n, first, q, back', rest') && Tracks(hasher, first, back', rest', q, n)
        invariant q + ItemsOf(d, false) == p + ItemsOf(c, true)
        decreases |refs|
      {
        next, back', rest' := MoveOverflow(newTable, n, i, next, refs, d, first, q, back', rest');
        q, d, refs := q + [Item(d[0], false)], d[1..], refs[1..];
      }
      assert q == p + ItemsOf(c, true);
    }

    lemma RemainsAll()
      requires Linked()
      ensures Remains(0) && |chains| == bucket.Length && chains[0..] == chains
    {
    }

    /** All entries are moved, bucket by bucket. */
    method MoveAll(newTable: HashTable<T>, n: nat) returns (ghost back: seq<Ref>, ghost rest: seq<Ref>)
      requires Valid() && Feeds(newTable, n) && newTable.Receives(n, free, [], [], free)
      modifies newTable`freeList, newTable`free, newTable`chains, newTable`nodes, newTable`nBucketsUsed, heap, newTable.bucket
      ensures newTable.Receives(n, free, Items(chains), back, rest) && Tracks(hasher, free, back, rest, Items(chains), n)
    {
      hide Receives, Tracks, Remains, Items, Placed, AllDistinct, Used, Flat, ListValid;
      ghost var first, p := free, [];
      back, rest := [], free;
      TracksNone(hasher, first, n);
      RemainsAll();
      assert [] + Items(chains[0..]) == Items(chains) && Buckets(heap.mem, heap.owner, era, bucket[..], nodes, chains, 0);
      var i := 0;
      while i < bucket.Length
        invariant 0 <= i <= bucket.Length && Remains(i)
        invariant newTable.Receives(n, first, p, back, rest) && Tracks(hasher, first, back, rest, p, n)
        invariant p + Items(chains[i..]) == Items(chains)
      {
        ItemsStep(chains, i);
        back, rest := MoveBucket(newTable, n, i, first, p, back, rest);
        p := p + ItemsOf(chains[i], true);
        i := i + 1;
      }
      NoItems(chains);
      assert p == Items(chains);
    }

    /** After the move the old list is as it was, or its first entry is in use. */
    lemma ListAfterMove(first: seq<Ref>, p: seq<Item<T>>, n: nat, back: seq<Ref>, rest: seq<Ref>, list: Ref)
      requires Receives(n, first, p, back, rest) && Tracks(hasher, first, back, rest, p, n)
      requires list == if first == [] then NULL else first[0]
      ensures Linked() && chains == Filled(hasher, p, n, bucket.Length) && nBucketsUsed == Used(chains)
      ensures FreeList(heap.mem, heap.owner, list, first) <==> first == [] || !EverCrowds(hasher, p, n)
      ensures first == [] || !EverCrowds(hasher, p, n) || InUse(list)
    {
      if first != [] && rest == first {
        ListedAt(heap.mem, freeList, free, |back|);
        assert free[|back|..] == first && free[|back|] == first[0];
        assert forall r :: r in first ==> r in free;
      } else if first != [] {
        var b :| 0 <= b < |nodes| && first[0] in nodes[b];
        assert Bucket(heap.mem, heap.owner, In(era, b), bucket[..][b], nodes[b], chains[b]);
        assert first[0] in first;
      }
    }

    /** hash_rehash.  The entries stay the same, but they are placed by the size asked
        for while the table gets the next prime size: the buckets are in order again
        exactly when the hasher does not tell the two sizes apart.  The free list went
        to the new table and is not copied back: it is still right exactly when it was
        empty or when at no moment the entries moved so far came from more buckets than
        they fill; else its first entry is in use. */
    method Rehash(newSize: nat) returns (ok: bool)
      requires Valid()
      modifies this, heap
      ensures ok <==> newSize > 0
      ensures !ok ==> unchanged(this) && unchanged(heap)
      ensures heap == old(heap) && freeList == old(freeList) && free == old(free) && nEntries == old(nEntries)
      ensures Contents() == old(Contents()) && nEntries == |Flat(chains)| && nBucketsUsed == Used(chains)
      ensures ok ==> fresh(bucket) && Lawful() && Linked() && AllDistinct(chains) && Placed(chains, newSize)
      ensures ok ==> chains == Filled(hasher, Items(old(chains)), newSize, bucket.Length)
      ensures ok ==> IsPrime(bucket.Length) && bucket.Length >= newSize && bucket.Length >= 11
      ensures ok ==> forall q :: (if newSize < 10 then 10 else newSize) <= q < bucket.Length ==> !IsPrime(q)
      ensures ok ==> (Ordered() <==> forall x :: x in Contents() ==> hasher(x, newSize) == hasher(x, bucket.Length))
      ensures ok ==> (ListValid() <==> freeList == NULL || !EverCrowds(hasher, Items(old(chains)), newSize))
      ensures ok && !ListValid() ==> InUse(freeList)
    {
      if newSize == 0 {
        return false;
      }
      hide Linked, Placed, AllDistinct, Distinct, Used, Flat, Items, EverCrowds, Filled, FreeList, Lawful, IsPrime, InUse;
      var newTable := MoveToNew(newSize);
      SameEntries(chains, bucket.Length, newSize, newTable.bucket.Length);
      Adopt(newTable);
      ok := true;
    }

    /** The buckets of the new table become those of this one; the list does not. */
    method Adopt(newTable: HashTable<T>)
      requires newTable.Linked() && newTable.heap == heap && newTable != this
      modifies this`bucket, this`nBucketsUsed, this`chains, this`nodes, this`era
      ensures Linked() && bucket == newTable.bucket && nBucketsUsed == newTable.nBucketsUsed
      ensures chains == newTable.chains && forall r :: newTable.InUse(r) ==> InUse(r)
    {
      bucket, nBucketsUsed := newTable.bucket, newTable.nBucketsUsed;
      chains, nodes, era := newTable.chains, newTable.nodes, newTable.era;
    }

    /** Entries placed anew by their hash for size `n`. */
    lemma SameEntries(bs: seq<seq<T>>, before: nat, n: nat, len: nat)
      requires Lawful() && Placed(bs, before) && AllDistinct(bs) && 0 < n <= len
      ensures var cs := Filled(hasher, Items(bs), n, len);
              && Placed(cs, n) && AllDistinct(cs) && |Flat(cs)| == |Flat(bs)|
              && (set x | x in Flat(cs)) == (set x | x in Flat(bs))
              && (Placed(cs, len) <==> forall x :: x in (set y | y in Flat(cs)) ==> hasher(x, n) == hasher(x, len))
    {
      hide Lawful, Placed, AllDistinct, Items, Filled, Distinct;
      FlatDistinct(bs, before, 0);
      assert bs[0..] == bs;
      DatasOfAll(bs);
      DatasSize(Items(bs));
      FilledOrdered(Items(bs), n, len);
      PlacedFor(Filled(hasher, Items(bs), n, len), n, len);
    }

    /** All entries go to a new table, which uses the list of this one. */
    method MoveToNew(newSize: nat) returns (newTable: HashTable<T>)
      requires Valid() && newSize > 0
      modifies heap
      ensures fresh(newTable) && fresh(newTable.bucket) && newTable.heap == heap && newTable.Linked()
      ensures newTable.chains == Filled(hasher, Items(chains), newSize, newTable.bucket.Length)
      ensures newTable.nBucketsUsed == Used(newTable.chains)
      ensures ListValid() <==> freeList == NULL || !EverCrowds(hasher, Items(chains), newSize)
      ensures ListValid() || newTable.InUse(freeList)
      ensures IsPrime(newTable.bucket.Length) && newTable.bucket.Length >= 11 && newTable.bucket.Length >= newSize
      ensures forall q :: (if newSize < 10 then 10 else newSize) <= q < newTable.bucket.Length ==> !IsPrime(q)
    {
      hide Receives, Tracks, Linked, Placed, AllDistinct, Used, Flat, Items, EverCrowds, Filled, FreeList, Lawful,
        IsPrime, InUse;
      newTable := NewTable(newSize);
      ListHead();
      ghost var back, rest := MoveAll(newTable, newSize);
      newTable.ListAfterMove(free, Items(chains), newSize, back, rest, freeList);
    }

    /** A new table that takes over the storage and the list of this one. */
    method NewTable(newSize: nat) returns (newTable: HashTable<T>)
      requires Valid() && newSize > 0
      ensures fresh(newTable) && fresh(newTable.bucket)
      ensures Feeds(newTable, newSize) && newTable.Receives(newSize, free, [], [], free)
      ensures IsPrime(newTable.bucket.Length) && newTable.bucket.Length >= 11
      ensures forall q :: (if newSize < 10 then 10 else newSize) <= q < newTable.bucket.Length ==> !IsPrime(q)
    {
      hide IsPrime, Flat, Placed, AllDistinct, Distinct, FreeList, Buckets, Sound, Filled;
      newTable := new HashTable(newSize, hasher, comparator);
      newTable.heap, newTable.freeList, newTable.free, newTable.era := heap, freeList, free, !era;
      NoneUsed(newTable.chains);
      FilledNone(hasher, newSize, newTable.bucket.Length);
      assert newTable.chains == Filled(hasher, [], newSize, newTable.bucket.Length);
      EmptyBuckets(heap.mem, heap.owner, !era, newTable.bucket[..], newTable.nodes, newTable.chains);
    }

    /** hash_insert: an entry that compares equal is returned and nothing changes, else
        the entry is added, and the table grows when more than four fifths of its
        buckets are in use.  The buckets are in order afterwards in any case; after a
        growth the free list is, exactly when it was empty or never crowded. */
    method Insert(e: T) returns (r: Option<T>, done: bool)
      requires Valid()
      modifies this, heap, bucket
      ensures Ordered() && done && heap == old(heap) && (bucket == old(bucket) || fresh(bucket))
      ensures r.Some? <==> old(Matches(Contents(), e))
      ensures r.Some? ==> r.value in old(Contents()) && comparator(e, r.value)
      ensures r.Some? ==> unchanged(this) && unchanged(heap) && unchanged(bucket)
      ensures r.None? ==> Contents() == old(Contents()) + {e} && nEntries == old(nEntries) + 1
      ensures var b := hasher(e, old(bucket.Length));
        && b < old(bucket.Length) == |old(chains)|
        && (bucket != old(bucket) <==> r.None? && old(chains)[b] == [] && 5 * (old(nBucketsUsed) + 1) > 4 * old(bucket.Length))
        && (bucket == old(bucket) ==> Valid())
        && (r.None? && bucket == old(bucket) ==>
          && chains == old(chains)[b := WithEntry(old(chains)[b], e)]
          && nodes == (if old(chains)[b] == [] then old(nodes)
                       else old(nodes)[b := [Taken(old(freeList), old(heap.top))] + old(nodes)[b]])
          && free == if old(chains)[b] == [] then old(free) else RestOf(old(free)))
        && (bucket != old(bucket) ==>
          && chains == Filled(hasher, Items(old(chains)[b := [e]]), bucket.Length, bucket.Length)
          && (Valid() <==> freeList == NULL || !EverCrowds(hasher, Items(old(chains)[b := [e]]), bucket.Length))
          && (Valid() || InUse(freeList)) && freeList == old(freeList) && free == old(free))
      ensures old(freeList) == NULL ==> Valid() && freeList == NULL
      ensures bucket != old(bucket) ==>
        && IsPrime(bucket.Length) && bucket.Length > 2 * old(bucket.Length)
        && forall q :: 2 * old(bucket.Length) < q < bucket.Length ==> !IsPrime(q)
    {
      hide Linked, ListValid, Filled, Items, EverCrowds, Placed, AllDistinct, Distinct, InUse, KeptAt, Lawful, Flat, Used,
        IsPrime;
      ghost var bs := chains;
      OnlyInOwnBucket(e);
      LinkedSizes();
      ListHead();
      var b; ghost var k;
      r, b, k := FindEntry(e, false);
      if r.Some? {
        assert r.value in bs[b];
        return r, true;
      }
      EntryAdded(bs, bucket.Length, b, e);
      nEntries := nEntries + 1;
      HeadInUse(b);
      if bucket[b].data.Some? {
        PlaceOverflow(b, e);
        ListHead();
        return None, true;
      }
      PlaceHead(b, e);
      if 5 * nBucketsUsed > 4 * bucket.Length {
        var size := NextPrime(2 * bucket.Length + 1);
        done := Rehash(size);
        return;
      }
      done := true;
    }

    lemma LinkedSizes()
      requires Linked()
      ensures |chains| == |nodes| == bucket.Length
    {
    }

    lemma NodesOf(b: nat)
      requires Linked() && b < bucket.Length
      ensures |chains| == |nodes| == bucket.Length
      ensures |nodes[b]| == (if chains[b] == [] then 0 else |chains[b]| - 1)
      ensures chains[b] != [] ==> bucket[b].data == Some(chains[b][0])
      ensures nodes[b] != [] ==> bucket[b].next == nodes[b][0] && nodes[b][0] in heap.mem
    {
      assert Bucket(heap.mem, heap.owner, In(era, b), bucket[..][b], nodes[b], chains[b]);
      if chains[b] != [] {
        RunsLength(heap.mem, bucket[b].next, nodes[b], chains[b][1..]);
      }
    }
  }

  // Two runs that end with a table out of order

  function Remainder(x: int, n: nat): nat {
    if n == 0 then 0 else x % n
  }

  predicate Same(x: int, y: int) {
    x == y
  }

  lemma SmallPrimes()
    ensures IsPrime(11) && IsPrime(13) && IsPrime(23) && !IsPrime(10) && !IsPrime(12)
  {
    assert forall d :: 2 <= d < 11 ==> !Divides(d, 11);
    assert forall d :: 2 <= d < 13 ==> !Divides(d, 13);
    assert forall d :: 2 <= d < 23 ==> !Divides(d, 23);
    assert Divides(2, 10) && Divides(2, 12);
  }

  /** A table of 11 buckets with one entry. */
  method OneEntry(x: nat) returns (t: HashTable<int>)
    ensures fresh(t) && fresh(t.heap) && fresh(t.bucket)
    ensures t.hasher == Remainder && t.comparator == Same
    ensures t.Valid() && t.freeList == NULL && t.bucket.Length == 11 && t.Contents() == {x}
    ensures t.chains == seq(11, i => if i == x % 11 then [x] else []) && Used(t.chains) == 1
  {
    hide HashTable.Linked, HashTable.ListValid, HashTable.Placed, HashTable.AllDistinct, HashTable.Distinct, HashTable.Lawful,
      HashTable.InUse, Filled, Items, EverCrowds, IsPrime, Used, Flat;
    SmallPrimes();
    t := new HashTable(0, Remainder, Same);
    ghost var none := t.chains;
    NoneUsed(none);
    ReplaceChain(none, x % 11, [x]);
    var r, done := t.Insert(x);
    t.ListHead();
  }

  /** Rehashing to a size that is not prime can misplace an entry: asked for 12 buckets
      the table gets 13, 12 goes to the slot for size 12, and it is looked for in
      another. */
  method NonPrimeSizeMisplaces() returns (t: HashTable<int>, found: Option<int>)
    ensures t.Lawful() && t.Linked() && t.ListValid() && t.Contents() == {12}
    ensures t.bucket.Length == 13 && !t.Valid() && found.None?
  {
    hide HashTable.Linked, HashTable.ListValid, HashTable.AllDistinct, HashTable.Distinct,
      HashTable.InUse, Filled, Items, EverCrowds, IsPrime, Used, Flat;
    SmallPrimes();
    t := OneEntry(12);
    var done := t.Rehash(12);
    assert 12 in t.Contents() && t.hasher(12, 12) != t.hasher(12, 13);
    t.LinkedSizes();
    found := t.Lookup(12);
    assert 12 !in t.chains[12];
  }

  /** The first `v` buckets hold 0, 23, 2, 3 and so on. */
  function Started(v: nat, len: nat): seq<seq<int>> {
    seq(len, i => if i >= v then [] else if i == 1 then [23] else [i])
  }

  function StartedItems(v: nat): seq<Item<int>> {
    seq(v, i => Item(if i == 1 then 23 else i, true))
  }

  lemma {:induction false} ItemsStarted(k: nat)
    requires k <= 11
    ensures Items(Started(9, 11)[k..]) == StartedItems(9)[if k <= 9 then k else 9..]
    decreases 11 - k
  {
    if k < 11 {
      ItemsStarted(k + 1);
      ItemsStep(Started(9, 11), k);
      if k < 9 {
        var c := Started(9, 11)[k];
        assert ItemsOf(c, true) == [Item(c[0], true)] + ItemsOf([], false);
      }
    }
  }

  /** 0 and 23 come from two buckets and go to one. */
  lemma {:induction false} StartedCrowds(v: nat)
    requires v >= 2
    ensures EverCrowds(Remainder, StartedItems(v), 23)
  {
    var p := StartedItems(v);
    assert p[..v - 1] == StartedItems(v - 1);
    if v > 2 {
      StartedCrowds(v - 1);
    } else {
      assert StartedItems(1)[..0] == [] && StartedItems(0) == [];
      assert Slots(Remainder, StartedItems(1), 23) == {0} && Heads(StartedItems(1)) == 1;
      assert Slots(Remainder, p, 23) == {0};
    }
  }

  /** Where they go in a table of 23 buckets. */
  function StartedIn23(v: nat): seq<seq<int>> {
    seq(23, i => if i == 0 then [0, 23] else if 2 <= i < v then [i] else [])
  }

  lemma {:induction false} StartedFilled(v: nat)
    requires 2 <= v <= 9
    ensures Filled(Remainder, StartedItems(v), 23, 23) == StartedIn23(v)
  {
    hide Filled;
    if v > 2 {
      assert StartedItems(v) == StartedItems(v - 1) + [Item(v - 1, true)];
      FilledStep(Remainder, StartedItems(v - 1), 23, 23, Item(v - 1, true));
      StartedFilled(v - 1);
      assert WithEntry([], v - 1) == [v - 1] && StartedIn23(v - 1)[v - 1] == [];
      assert StartedIn23(v - 1)[v - 1 := [v - 1]] == StartedIn23(v);
    } else {
      StartedFilledTwo();
    }
  }

  lemma StartedFilledTwo()
    ensures Filled(Remainder, StartedItems(2), 23, 23) == StartedIn23(2)
  {
    var none: seq<seq<int>> := seq(23, _ => []);
    FilledNone<int>(Remainder, 23, 23);
    hide Filled;
    assert StartedItems(2) == [] + [Item(0, true)] + [Item(23, true)];
    FilledStep(Remainder, [], 23, 23, Item(0, true));
    FilledStep(Remainder, [] + [Item(0, true)], 23, 23, Item(23, true));
    assert WithEntry([], 0) == [0] && WithEntry([0], 23) == [0, 23];
    assert none[0 := [0]][0 := [0, 23]] == StartedIn23(2);
  }

  lemma {:induction false} StartedUsed(v: nat)
    requires v <= 11
    ensures Used(Started(v, 11)) == v && (v >= 2 ==> v !in Flat(Started(v, 11)))
  {
    if v == 0 {
      AllEmpty(Started(0, 11));
    } else {
      StartedUsed(v - 1);
      var c := [if v == 2 then 23 else v - 1];
      ReplaceChain(Started(v - 1, 11), v - 1, c);
      assert Started(v - 1, 11)[v - 1 := c] == Started(v, 11);
    }
    FlatMembers(Started(v, 11), v);
    assert forall i :: 0 <= i < v ==> Started(v, 11)[i] == [if i == 1 then 23 else i];
    assert forall i :: v <= i < 11 ==> Started(v, 11)[i] == [];
  }

  method InsertNext(t: HashTable<int>, v: nat)
    requires 2 <= v <= 8 && t.hasher == Remainder && t.comparator == Same
    requires t.Valid() && t.bucket.Length == 11 && t.chains == Started(v, 11) && t.freeList != NULL
    modifies t, t.heap, t.bucket
    ensures t.heap == old(t.heap) && (t.bucket == old(t.bucket) || fresh(t.bucket))
    ensures v < 8 ==> t.Valid() && t.bucket.Length == 11 && t.chains == Started(v + 1, 11) && t.freeList != NULL
    ensures v == 8 ==> t.Ordered() && !t.Valid() && t.InUse(t.freeList) && t.bucket.Length == 23
    ensures v == 8 ==> t.chains == StartedIn23(9)
  {
    hide HashTable.Linked, HashTable.ListValid, HashTable.Placed, HashTable.AllDistinct, HashTable.Distinct, HashTable.Lawful,
      HashTable.InUse, Filled, Items, EverCrowds, Used, Flat, IsPrime;
    StartedUsed(v);
    t.ListHead();
    var r, done := t.Insert(v);
    assert Started(v, 11)[v := [v]] == Started(v + 1, 11);
    if v < 8 {
      t.ListHead();
    } else {
      SmallPrimes();
      ItemsStarted(0);
      assert Started(9, 11)[0..] == Started(9, 11) && StartedItems(9)[0..] == StartedItems(9);
      StartedCrowds(9);
      StartedFilled(9);
    }
  }

  /** 0, 11, 11 deleted, 23, 2 to 8: the last one lets the table grow to 23 buckets, and
      23 gets the overflow entry that the free list still names. */
  method GrowAfterDelete() returns (t: HashTable<int>)
    ensures fresh(t) && fresh(t.heap) && fresh(t.bucket)
    ensures t.hasher == Remainder && t.comparator == Same
    ensures t.Ordered() && !t.Valid() && t.bucket.Length == 23
    ensures t.chains[0] == [0, 23] && t.nodes[0] == [t.freeList]
  {
    t := DeleteOne();
    var v := 2;
    while v <= 8
      invariant 2 <= v <= 9 && fresh(t) && fresh(t.heap) && fresh(t.bucket) && t.hasher == Remainder && t.comparator == Same
      invariant v <= 8 ==> t.Valid() && t.bucket.Length == 11 && t.chains == Started(v, 11) && t.freeList != NULL
      invariant v == 9 ==> t.Ordered() && !t.Valid() && t.InUse(t.freeList) && t.bucket.Length == 23
      invariant v == 9 ==> t.chains == StartedIn23(9)
    {
      InsertNext(t, v);
      v := v + 1;
    }
    t.LinkedSizes();
    ghost var b :| 0 <= b < |t.nodes| && t.freeList in t.nodes[b];
    t.NodesOf(b);
    t.NodesOf(0);
  }

  /** 0, 11, 11 deleted. */
  method DeleteSecond() returns (t: HashTable<int>)
    ensures fresh(t) && fresh(t.heap) && fresh(t.bucket)
    ensures t.hasher == Remainder && t.comparator == Same
    ensures t.Valid() && t.freeList != NULL && t.bucket.Length == 11 && t.Contents() == {0}
    ensures t.chains == seq(11, i => if i == 0 then [0] else []) && Used(t.chains) == 1
  {
    hide HashTable.Linked, HashTable.ListValid, HashTable.Placed, HashTable.AllDistinct, HashTable.Distinct, HashTable.Lawful,
      HashTable.InUse, Filled, Items, EverCrowds, IsPrime, Used, Flat;
    t := OneEntry(0);
    ghost var bs := t.chains;
    var r, done := t.Insert(11);
    assert bs[0] == [0] && WithEntry([0], 11) == [0, 11];
    assert t.chains == bs[0 := [0, 11]];
    ghost var k;
    assert 11 in t.Contents() && Same(11, 11);
    r, k := t.Delete(11);
    assert k == 1 && Without([0, 11], 1) == [0];
    assert t.chains == bs;
    t.ListHead();
  }

  /** 0, 11, 11 deleted, 23. */
  method DeleteOne() returns (t: HashTable<int>)
    ensures fresh(t) && fresh(t.heap) && fresh(t.bucket)
    ensures t.hasher == Remainder && t.comparator == Same
    ensures t.Valid() && t.bucket.Length == 11 && t.chains == Started(2, 11) && t.freeList != NULL
  {
    hide HashTable.Linked, HashTable.ListValid, HashTable.Placed, HashTable.AllDistinct, HashTable.Distinct, HashTable.Lawful,
      HashTable.InUse, Filled, Items, EverCrowds, IsPrime, Used, Flat;
    t := DeleteSecond();
    t.ListHead();
    var r, done := t.Insert(23);
    t.ListHead();
    assert t.chains == Started(2, 11);
  }

  /** The entry reached from `at` by following `k` links. */
  ghost function Walk<T>(mem: Memory<T>, at: Ref, k: nat): Ref
    decreases k
  {
    if k == 0 || at !in mem then at else Walk(mem, mem[at].next, k - 1)
  }

  lemma {:induction false} WalkStays<T>(mem: Memory<T>, at: Ref, k: nat)
    requires at in mem && mem[at].next == at
    ensures Walk(mem, at, k) == at
    decreases k
  {
    if k > 0 {
      WalkStays(mem, at, k - 1);
    }
  }

  /** After that growth the table gets 46, which is not in it and whose bucket is in
      use: the entry taken from the list is the one that holds 23.  From bucket 0, to
      which 23 still hashes, every link now leads to 46 again. */
  method LoseEntry() returns (t: HashTable<int>)
    ensures t.bucket.Length == 23 && t.hasher == Remainder && t.hasher(23, 23) == 0 && t.bucket[0].data == Some(0)
    ensures forall k :: var r := Walk(t.heap.mem, t.bucket[0].next, k);
                        r in t.heap.mem && t.heap.mem[r].data == Some(46) && t.heap.mem[r].next == r
  {
    t := GrowAfterDelete();
    t.LinkedSizes();
    t.NodesOf(0);
    var found, b; ghost var k;
    found, b, k := t.FindEntry(46, false);
    t.nEntries := t.nEntries + 1;
    if t.bucket[b].data.Some? {
      t.AddOverflow(b, 46);
    }
    forall k
      ensures Walk(t.heap.mem, t.bucket[0].next, k) == t.bucket[0].next
    {
      WalkStays(t.heap.mem, t.bucket[0].next, k);
    }
  }
}
