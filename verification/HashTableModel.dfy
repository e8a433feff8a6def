/**
 The value-level model of the hash table of src/lu_hash_table.c: list buckets that turn into
 red-black trees, insertion, search and doubling, and what they mean as a multiset of entries.
 */
module HashTableModel {
  import opened RedBlackModel

  /** lu_hash_function: some deterministic function into the bucket indices. */
  type Hash = (int, nat) -> nat

  ghost predicate IndexesBuckets(h: Hash) {
    forall key: int, size: nat :: 0 < size ==> h(key, size) < size
  }

  const LIST_THRESHOLD := 8
  const DEFAULT_SIZE := 16

  /** `size` is the field esize_bucket. */
  datatype Bucket =
    | ListBucket(list: seq<Entry>, size: nat)
    | TreeBucket(tree: Tree, size: nat)

  datatype Table = Table(buckets: seq<Bucket>, count: nat)

  function EntriesOf(b: Bucket): seq<Entry> {
    match b
    case ListBucket(list, _) => list
    case TreeBucket(tree, _) => InOrder(tree)
  }

  /** Index of the first entry with the key; the length if there is none. */
  function IndexOf(list: seq<Entry>, key: int): (i: nat)
    ensures i <= |list|
    ensures i < |list| ==> list[i].key == key
    ensures forall j :: 0 <= j < i ==> list[j].key != key
  {
    if list == [] || list[0].key == key then 0 else 1 + IndexOf(list[1..], key)
  }

  predicate HasKey(s: seq<Entry>, key: int) {
    exists i :: 0 <= i < |s| && s[i].key == key
  }

  function Convert(list: seq<Entry>): Tree {
    InsertAll(Leaf, list)
  }

  /** One bucket's share of lu_hash_table_insert. */
  function BucketInsert(b: Bucket, e: Entry): Bucket {
    match b
    case ListBucket(list, size) =>
      var i := IndexOf(list, e.key);
      if i < |list| then ListBucket(list[i := e], size)
      else if size + 1 > LIST_THRESHOLD then TreeBucket(Convert([e] + list), size + 1)
      else ListBucket([e] + list, size + 1)
    case TreeBucket(tree, size) => TreeBucket(Insert(tree, e), size + 1)
  }

  function BucketFind(b: Bucket, key: int): Ptr {
    match b
    case ListBucket(list, _) => var i := IndexOf(list, key); if i < |list| then list[i].value else NULL
    case TreeBucket(tree, _) => Find(tree, key)
  }

  ghost predicate Wf(t: Table, h: Hash) {
    && 0 < |t.buckets|
    && t.count == Total(t.buckets)
    && BucketsWf(t.buckets, h)
  }

  ghost predicate BucketsWf(bs: seq<Bucket>, h: Hash) {
    forall i :: 0 <= i < |bs| ==> BucketWf(bs[i], i, |bs|, h)
  }

  ghost predicate BucketWf(b: Bucket, index: nat, size: nat, h: Hash) {
    && b.size == |EntriesOf(b)|
    && (forall e :: e in EntriesOf(b) ==> h(e.key, size) == index)
    && (b.TreeBucket? ==> SortedKeys(InOrder(b.tree)))
  }

  /** All stored entries, with repetitions. */
  function Contents(bs: seq<Bucket>): multiset<Entry> {
    if bs == [] then multiset{} else Contents(bs[..|bs| - 1]) + multiset(EntriesOf(bs[|bs| - 1]))
  }

  function Total(bs: seq<Bucket>): nat {
    if bs == [] then 0 else Total(bs[..|bs| - 1]) + |EntriesOf(bs[|bs| - 1])|
  }

  function Init(size: nat): Table {
    var n := if size == 0 then DEFAULT_SIZE else size;
    Table(seq(n, i => ListBucket([], 0)), 0)
  }

  function TableInsert(h: Hash, t: Table, e: Entry): Table
    requires IndexesBuckets(h) && 0 < |t.buckets|
  {
    var i := h(e.key, |t.buckets|);
    var b := BucketInsert(t.buckets[i], e);
    Table(t.buckets[i := b], if b.size == t.buckets[i].size then t.count else t.count + 1)
  }

  /** The insertion when the new node cannot be allocated: a tree bucket still counts it. */
  function TableRefuse(h: Hash, t: Table, key: int): Table
    requires IndexesBuckets(h) && 0 < |t.buckets|
  {
    var i := h(key, |t.buckets|);
    match t.buckets[i]
    case ListBucket(_, _) => t
    case TreeBucket(tree, size) => Table(t.buckets[i := TreeBucket(tree, size + 1)], t.count + 1)
  }

  function TableFind(h: Hash, t: Table, key: int): Ptr
    requires IndexesBuckets(h) && 0 < |t.buckets|
  {
    BucketFind(t.buckets[h(key, |t.buckets|)], key)
  }

  // ---------------------------------------------------------------------------------------
  // One bucket
  // ---------------------------------------------------------------------------------------

  /** Does the key's bucket hold a list entry that an insertion overwrites? */
  predicate Overwrites(b: Bucket, key: int) {
    b.ListBucket? && HasKey(b.list, key)
  }

  /**
   Insertion replaces the first list entry with the key, or adds the entry; in a tree bucket
   it always adds, even when the key is already there.
   */
  lemma BucketInsertContents(b: Bucket, e: Entry)
    requires b.size == |EntriesOf(b)| && (b.TreeBucket? ==> SortedKeys(InOrder(b.tree)))
    ensures var c := BucketInsert(b, e);
            && c.size == |EntriesOf(c)| && (c.TreeBucket? ==> SortedKeys(InOrder(c.tree)))
            && (Overwrites(b, e.key) ==>
                  var i := IndexOf(b.list, e.key);
                  && c.size == b.size
                  && multiset(EntriesOf(c)) == multiset(EntriesOf(b)) - multiset{b.list[i]} + multiset{e})
            && (!Overwrites(b, e.key) ==>
                  && c.size == b.size + 1
                  && multiset(EntriesOf(c)) == multiset(EntriesOf(b)) + multiset{e})
  {
    match b
    case ListBucket(list, size) =>
      var i := IndexOf(list, e.key);
      if i < |list| {
        ReplaceContents(list, i, e);
      } else {
        assert multiset([e] + list) == multiset{e} + multiset(list);
        InsertAllInOrder(Leaf, [e] + list);
        InsertAfterAllSorted([], [e] + list);
        SameSize(InOrder(Convert([e] + list)), [e] + list);
      }
    case TreeBucket(tree, size) =>
      InsertInOrder(tree, e);
      var k := InsertAfterSorted(InOrder(tree), e);
  }

  lemma SameSize(s: seq<Entry>, t: seq<Entry>)
    requires multiset(s) == multiset(t)
    ensures |s| == |t|
  {
    assert |multiset(s)| == |s| && |multiset(t)| == |t|;
  }

  lemma ReplaceContents(list: seq<Entry>, i: nat, e: Entry)
    requires i < |list|
    ensures multiset(list[i := e]) == multiset(list) - multiset{list[i]} + multiset{e}
  {
    assert list == list[..i] + [list[i]] + list[i + 1..];
    assert list[i := e] == list[..i] + [e] + list[i + 1..];
  }

  lemma BucketFindCorrect(b: Bucket, key: int)
    requires b.TreeBucket? ==> SortedKeys(InOrder(b.tree))
    ensures HasKey(EntriesOf(b), key) ==> Entry(key, BucketFind(b, key)) in EntriesOf(b)
    ensures !HasKey(EntriesOf(b), key) ==> BucketFind(b, key) == NULL
  {
    match b
    case ListBucket(list, _) =>
      var i := IndexOf(list, key);
      if i < |list| { assert list[i] == Entry(key, list[i].value); }
    case TreeBucket(tree, _) =>
      FindCorrect(tree, key);
      assert forall e :: e in InOrder(tree) && e.key == key ==> HasKey(InOrder(tree), key);
  }

  // ---------------------------------------------------------------------------------------
  // The table
  // ---------------------------------------------------------------------------------------

  lemma {:induction false} ContentsUpdate(bs: seq<Bucket>, i: nat, b: Bucket)
    requires i < |bs|
    ensures multiset(EntriesOf(bs[i])) <= Contents(bs)
    ensures Contents(bs[i := b]) == Contents(bs) - multiset(EntriesOf(bs[i])) + multiset(EntriesOf(b))
  {
    hide EntriesOf;
    var n := |bs| - 1;
    var rest, last, bs' := bs[..n], multiset(EntriesOf(bs[n])), bs[i := b];
    if i == n {
      assert bs'[..n] == rest;
      assert Contents(rest) + last - last == Contents(rest);
    } else {
      ContentsUpdate(rest, i, b);
      SwapOrder(Contents(rest), multiset(EntriesOf(bs[i])), multiset(EntriesOf(b)), last);
      assert Contents(bs') == Contents(rest[i := b]) + last by {
        assert bs'[..n] == rest[i := b] && bs'[n] == bs[n];
      }
    }
  }

  lemma {:induction false} TotalUpdate(bs: seq<Bucket>, i: nat, b: Bucket)
    requires i < |bs|
    ensures Total(bs[i := b]) == Total(bs) - |EntriesOf(bs[i])| + |EntriesOf(b)|
  {
    var n := |bs| - 1;
    if i == n {
      assert bs[i := b][..n] == bs[..n];
    } else {
      assert bs[i := b][..n] == bs[..n][i := b];
      TotalUpdate(bs[..n], i, b);
    }
  }

  lemma SwapOrder(c: multiset<Entry>, x: multiset<Entry>, y: multiset<Entry>, z: multiset<Entry>)
    requires x <= c
    ensures x <= c + z && (c - x + y) + z == (c + z) - x + y
  {
  }

  lemma {:induction false} ContentsSize(bs: seq<Bucket>)
    ensures |Contents(bs)| == Total(bs)
  {
    if bs != [] { ContentsSize(bs[..|bs| - 1]); }
  }

  lemma {:induction false} FindBucket(bs: seq<Bucket>, e: Entry) returns (i: nat)
    requires e in Contents(bs)
    ensures i < |bs| && e in EntriesOf(bs[i])
  {
    var n := |bs| - 1;
    if e in Contents(bs[..n]) {
      i := FindBucket(bs[..n], e);
    } else {
      i := n;
      assert e in multiset(EntriesOf(bs[n]));
    }
  }

  lemma InContents(bs: seq<Bucket>, i: nat, e: Entry)
    requires i < |bs| && e in EntriesOf(bs[i])
    ensures e in Contents(bs)
  {
    ContentsUpdate(bs, i, bs[i]);
    assert e in multiset(EntriesOf(bs[i]));
  }

  /** Is some entry with the key stored anywhere? */
  ghost predicate Stored(t: Table, key: int) {
    exists e :: e in Contents(t.buckets) && e.key == key
  }

  lemma StoredInBucket(h: Hash, t: Table, key: int)
    requires IndexesBuckets(h) && Wf(t, h)
    ensures Stored(t, key) <==> HasKey(EntriesOf(t.buckets[h(key, |t.buckets|)]), key)
  {
    var k := h(key, |t.buckets|);
    if Stored(t, key) {
      var e :| e in Contents(t.buckets) && e.key == key;
      var i := FindBucket(t.buckets, e);
      assert BucketWf(t.buckets[i], i, |t.buckets|, h);
    }
    if HasKey(EntriesOf(t.buckets[k]), key) {
      var j :| 0 <= j < |EntriesOf(t.buckets[k])| && EntriesOf(t.buckets[k])[j].key == key;
      InContents(t.buckets, k, EntriesOf(t.buckets[k])[j]);
    }
  }

  /** Search returns the value of a stored entry with the key, and null exactly when there is none. */
  lemma TableFindCorrect(h: Hash, t: Table, key: int)
    requires IndexesBuckets(h) && Wf(t, h)
    ensures Stored(t, key) ==> Entry(key, TableFind(h, t, key)) in Contents(t.buckets)
    ensures !Stored(t, key) ==> TableFind(h, t, key) == NULL
  {
    var i := h(key, |t.buckets|);
    assert BucketWf(t.buckets[i], i, |t.buckets|, h);
    StoredInBucket(h, t, key);
    BucketFindCorrect(t.buckets[i], key);
    if Stored(t, key) { InContents(t.buckets, i, Entry(key, TableFind(h, t, key))); }
  }

  /** In a tree bucket, the answer is the value of the first entry with the key on the way from the root. */
  lemma TableFindFirst(h: Hash, t: Table, p: Path, n: Tree, key: int)
    requires IndexesBuckets(h) && Wf(t, h) && t.buckets[h(key, |t.buckets|)].TreeBucket?
    requires t.buckets[h(key, |t.buckets|)].tree == Plug(p, n) && n.Branch? && n.entry.key == key && KeyFree(p, key)
    ensures TableFind(h, t, key) == n.entry.value
  {
    var i := h(key, |t.buckets|);
    assert BucketWf(t.buckets[i], i, |t.buckets|, h);
    FindFirst(p, n, key);
  }

  /** A bucket that stays right may change in place. */
  lemma BucketUpdateWf(h: Hash, bs: seq<Bucket>, i: nat, c: Bucket)
    requires BucketsWf(bs, h) && i < |bs| && BucketWf(c, i, |bs|, h)
    ensures BucketsWf(bs[i := c], h)
  {
  }

  /** The entries an insertion leaves in a bucket still belong there. */
  lemma BucketInsertWf(b: Bucket, e: Entry, i: nat, size: nat, h: Hash)
    requires BucketWf(b, i, size, h) && h(e.key, size) == i
    ensures BucketWf(BucketInsert(b, e), i, size, h)
  {
    var c := BucketInsert(b, e);
    BucketInsertContents(b, e);
    forall f | f in EntriesOf(c) ensures h(f.key, size) == i {
      assert f in multiset(EntriesOf(c));
      assert f == e || f in multiset(EntriesOf(b));
    }
  }

  /** Insertion adds the entry, or replaces one entry with its key, and counts what it added. */
  lemma TableInsertContents(h: Hash, t: Table, e: Entry)
    requires IndexesBuckets(h) && Wf(t, h)
    ensures Wf(TableInsert(h, t, e), h)
    ensures var b := t.buckets[h(e.key, |t.buckets|)];
            var before, after := Contents(t.buckets), Contents(TableInsert(h, t, e).buckets);
            && (Overwrites(b, e.key) ==>
                  var was := b.list[IndexOf(b.list, e.key)];
                  was in before && was.key == e.key && after == before - multiset{was} + multiset{e})
            && (!Overwrites(b, e.key) ==> after == before + multiset{e})
  {
    var i := h(e.key, |t.buckets|);
    var b, c := t.buckets[i], BucketInsert(t.buckets[i], e);
    assert BucketWf(b, i, |t.buckets|, h);
    BucketInsertWf(b, e, i, |t.buckets|, h);
    BucketUpdateWf(h, t.buckets, i, c);
    BucketInsertContents(b, e);
    TotalUpdate(t.buckets, i, c);
    ContentsUpdate(t.buckets, i, c);
    if Overwrites(b, e.key) {
      var was := b.list[IndexOf(b.list, e.key)];
      assert was in multiset(EntriesOf(b));
      Overwritten(Contents(t.buckets), multiset(EntriesOf(b)), was, e);
    } else {
      AddOne(Contents(t.buckets), multiset(EntriesOf(b)), e);
    }
  }

  /** A failing allocation changes no entry and no answer; the counters stay right in a list bucket only. */
  lemma TableRefuseContents(h: Hash, t: Table, key: int)
    requires IndexesBuckets(h) && Wf(t, h)
    ensures var t' := TableRefuse(h, t, key);
            && 0 < |t'.buckets| && Contents(t'.buckets) == Contents(t.buckets)
            && (forall k :: TableFind(h, t', k) == TableFind(h, t, k))
            && (Wf(t', h) <==> t.buckets[h(key, |t.buckets|)].ListBucket?)
  {
    hide Contents, Total, TableFind, EntriesOf;
    RefuseCounts(h, t, key);
    forall k ensures TableFind(h, TableRefuse(h, t, key), k) == TableFind(h, t, k) {
      RefuseFinds(h, t, key, k);
    }
  }

  lemma RefuseFinds(h: Hash, t: Table, key: int, k: int)
    requires IndexesBuckets(h) && 0 < |t.buckets|
    ensures var t' := TableRefuse(h, t, key); |t'.buckets| == |t.buckets| && TableFind(h, t', k) == TableFind(h, t, k)
  {
  }

  lemma RefuseCounts(h: Hash, t: Table, key: int)
    requires IndexesBuckets(h) && Wf(t, h)
    ensures var t' := TableRefuse(h, t, key);
            && Contents(t'.buckets) == Contents(t.buckets)
            && (Wf(t', h) <==> t.buckets[h(key, |t.buckets|)].ListBucket?)
  {
    var i := h(key, |t.buckets|);
    var t' := TableRefuse(h, t, key);
    assert EntriesOf(t'.buckets[i]) == EntriesOf(t.buckets[i]);
    hide Contents, Total, EntriesOf;
    ContentsUpdate(t.buckets, i, t'.buckets[i]);
    if t.buckets[i].ListBucket? {
      assert t' == t;
    } else {
      assert t'.buckets[i].size == |EntriesOf(t'.buckets[i])| + 1;
    }
  }

  lemma Overwritten(c: multiset<Entry>, mine: multiset<Entry>, was: Entry, e: Entry)
    requires was in mine && mine <= c
    ensures was in c
    ensures c - mine + (mine - multiset{was} + multiset{e}) == c - multiset{was} + multiset{e}
  {
  }

  // ---------------------------------------------------------------------------------------
  // Doubling
  // ---------------------------------------------------------------------------------------

  predicate AllLists(bs: seq<Bucket>) {
    forall i :: 0 <= i < |bs| ==> bs[i].ListBucket?
  }

  /** A fresh node at the head of the new bucket's list; no threshold is looked at. */
  function Push(h: Hash, bs: seq<Bucket>, e: Entry): (r: seq<Bucket>)
    requires IndexesBuckets(h) && 0 < |bs| && AllLists(bs)
    ensures |r| == |bs| && AllLists(r)
  {
    var i := h(e.key, |bs|);
    bs[i := ListBucket([e] + bs[i].list, bs[i].size + 1)]
  }

  function PushAll(h: Hash, bs: seq<Bucket>, es: seq<Entry>): (r: seq<Bucket>)
    requires IndexesBuckets(h) && 0 < |bs| && AllLists(bs)
    ensures |r| == |bs| && AllLists(r)
    decreases |es|
  {
    if es == [] then bs else PushAll(h, Push(h, bs, es[0]), es[1..])
  }

  /** The order in which lu_rb_tree_rehash visits a tree. */
  function PostOrder(t: Tree): seq<Entry> {
    match t
    case Leaf => []
    case Branch(l, _, e, r) => PostOrder(l) + PostOrder(r) + [e]
  }

  lemma PostOrderStep(h: Hash, bs: seq<Bucket>, t: Tree)
    requires IndexesBuckets(h) && 0 < |bs| && AllLists(bs) && t.Branch?
    ensures PushAll(h, bs, PostOrder(t)) ==
        Push(h, PushAll(h, PushAll(h, bs, PostOrder(t.left)), PostOrder(t.right)), t.entry)
  {
    PushAllConcat(h, bs, PostOrder(t.left), PostOrder(t.right));
    PushAllConcat(h, bs, PostOrder(t.left) + PostOrder(t.right), [t.entry]);
  }

  function RehashOrder(b: Bucket): seq<Entry> {
    match b
    case ListBucket(list, _) => list
    case TreeBucket(tree, _) => PostOrder(tree)
  }

  lemma {:induction false} PushAllConcat(h: Hash, bs: seq<Bucket>, xs: seq<Entry>, ys: seq<Entry>)
    requires IndexesBuckets(h) && 0 < |bs| && AllLists(bs)
    ensures PushAll(h, bs, xs + ys) == PushAll(h, PushAll(h, bs, xs), ys)
    decreases |xs|
  {
    if xs == [] {
      assert xs + ys == ys;
    } else {
      assert (xs + ys)[1..] == xs[1..] + ys;
      PushAllConcat(h, Push(h, bs, xs[0]), xs[1..], ys);
    }
  }

  function RehashAll(h: Hash, bs: seq<Bucket>, olds: seq<Bucket>): (r: seq<Bucket>)
    requires IndexesBuckets(h) && 0 < |bs| && AllLists(bs)
    ensures |r| == |bs| && AllLists(r)
    decreases |olds|
  {
    if olds == [] then bs else PushAll(h, RehashAll(h, bs, olds[..|olds| - 1]), RehashOrder(olds[|olds| - 1]))
  }

  function EmptyBuckets(n: nat): (r: seq<Bucket>)
    ensures |r| == n && AllLists(r)
  {
    seq(n, i => ListBucket([], 0))
  }

  function Resize(h: Hash, t: Table): Table
    requires IndexesBuckets(h) && 0 < |t.buckets|
  {
    Table(RehashAll(h, EmptyBuckets(2 * |t.buckets|), t.buckets), t.count)
  }

  lemma PushContents(h: Hash, bs: seq<Bucket>, e: Entry)
    requires IndexesBuckets(h) && 0 < |bs| && AllLists(bs) && BucketsWf(bs, h)
    ensures BucketsWf(Push(h, bs, e), h)
    ensures Contents(Push(h, bs, e)) == Contents(bs) + multiset{e}
  {
    var i := h(e.key, |bs|);
    var list := bs[i].list;
    var b := ListBucket([e] + list, bs[i].size + 1);
    assert BucketWf(bs[i], i, |bs|, h);
    assert BucketWf(b, i, |bs|, h);
    BucketUpdateWf(h, bs, i, b);
    ContentsUpdate(bs, i, b);
    assert multiset([e] + list) == multiset{e} + multiset(list);
    AddOne(Contents(bs), multiset(list), e);
  }

  lemma AddOne(c: multiset<Entry>, x: multiset<Entry>, e: Entry)
    requires x <= c
    ensures c - x + (multiset{e} + x) == c - x + (x + multiset{e}) == c + multiset{e}
  {
  }

  lemma {:induction false} PushAllContents(h: Hash, bs: seq<Bucket>, es: seq<Entry>)
    requires IndexesBuckets(h) && 0 < |bs| && AllLists(bs) && BucketsWf(bs, h)
    ensures BucketsWf(PushAll(h, bs, es), h)
    ensures Contents(PushAll(h, bs, es)) == Contents(bs) + multiset(es)
    decreases |es|
  {
    if es != [] {
      PushContents(h, bs, es[0]);
      PushAllContents(h, Push(h, bs, es[0]), es[1..]);
      assert es == [es[0]] + es[1..];
      assert multiset(es) == multiset{es[0]} + multiset(es[1..]);
    }
  }

  lemma {:induction false} PostOrderContents(t: Tree)
    ensures multiset(PostOrder(t)) == multiset(InOrder(t))
  {
    if t.Branch? {
      PostOrderContents(t.left);
      PostOrderContents(t.right);
    }
  }

  lemma {:induction false} RehashAllContents(h: Hash, bs: seq<Bucket>, olds: seq<Bucket>)
    requires IndexesBuckets(h) && 0 < |bs| && AllLists(bs) && BucketsWf(bs, h)
    ensures BucketsWf(RehashAll(h, bs, olds), h)
    ensures Contents(RehashAll(h, bs, olds)) == Contents(bs) + Contents(olds)
    decreases |olds|
  {
    if olds != [] {
      var n := |olds| - 1;
      RehashAllContents(h, bs, olds[..n]);
      PushAllContents(h, RehashAll(h, bs, olds[..n]), RehashOrder(olds[n]));
      if olds[n].TreeBucket? { PostOrderContents(olds[n].tree); }
    }
  }

  lemma {:induction false} EmptyContents(bs: seq<Bucket>)
    requires forall i :: 0 <= i < |bs| ==> EntriesOf(bs[i]) == []
    ensures Contents(bs) == multiset{} && Total(bs) == 0
  {
    if bs != [] { EmptyContents(bs[..|bs| - 1]); }
  }

  /** Doubling moves every entry, repetitions included, and loses none. */
  lemma ResizeContents(h: Hash, t: Table)
    requires IndexesBuckets(h) && Wf(t, h)
    ensures Wf(Resize(h, t), h)
    ensures Contents(Resize(h, t).buckets) == Contents(t.buckets)
  {
    var bs := EmptyBuckets(2 * |t.buckets|);
    EmptyContents(bs);
    RehashAllContents(h, bs, t.buckets);
    ContentsSize(t.buckets);
    ContentsSize(Resize(h, t).buckets);
  }

  // ---------------------------------------------------------------------------------------
  // Whole runs, and when the table is a map
  // ---------------------------------------------------------------------------------------

  datatype Op = OpInsert(entry: Entry) | OpResize

  function Run(h: Hash, t: Table, ops: seq<Op>): (r: Table)
    requires IndexesBuckets(h) && 0 < |t.buckets|
    ensures 0 < |r.buckets|
    decreases |ops|
  {
    if ops == [] then t
    else Run(h, if ops[0].OpInsert? then TableInsert(h, t, ops[0].entry) else Resize(h, t), ops[1..])
  }

  lemma {:induction false} RunWf(h: Hash, t: Table, ops: seq<Op>)
    requires IndexesBuckets(h) && Wf(t, h)
    ensures Wf(Run(h, t, ops), h)
    decreases |ops|
  {
    if ops != [] {
      if ops[0].OpInsert? {
        TableInsertContents(h, t, ops[0].entry);
        RunWf(h, TableInsert(h, t, ops[0].entry), ops[1..]);
      } else {
        ResizeContents(h, t);
        RunWf(h, Resize(h, t), ops[1..]);
      }
    }
  }

  /** Every state reached from lu_hash_table_init: search and the element counter are right. */
  lemma ReachableTable(h: Hash, size: nat, ops: seq<Op>, key: int)
    requires IndexesBuckets(h)
    ensures var t := Run(h, Init(size), ops);
            && t.count == |Contents(t.buckets)|
            && (Stored(t, key) ==> Entry(key, TableFind(h, t, key)) in Contents(t.buckets))
            && (!Stored(t, key) ==> TableFind(h, t, key) == NULL)
  {
    InitWf(h, size);
    RunWf(h, Init(size), ops);
    var t := Run(h, Init(size), ops);
    ContentsSize(t.buckets);
    TableFindCorrect(h, t, key);
  }

  /** No key is stored twice. */
  ghost predicate Unique(t: Table) {
    var c := Contents(t.buckets);
    forall e, f :: e in c && f in c && e.key == f.key ==> e == f && c[e] == 1
  }

  lemma UniqueFind(h: Hash, t: Table, e: Entry)
    requires IndexesBuckets(h) && Wf(t, h) && Unique(t) && e in Contents(t.buckets)
    ensures TableFind(h, t, e.key) == e.value
  {
    TableFindCorrect(h, t, e.key);
  }

  /**
   The exact condition under which an insertion behaves as a map update: the key's bucket is
   still a list, or the key is new.  Otherwise the key is stored twice from then on.
   */
  lemma InsertIsMapUpdate(h: Hash, t: Table, e: Entry)
    requires IndexesBuckets(h) && Wf(t, h) && Unique(t)
    ensures var t' := TableInsert(h, t, e);
            && (Unique(t') <==> t.buckets[h(e.key, |t.buckets|)].ListBucket? || !Stored(t, e.key))
            && (Unique(t') ==> forall k :: TableFind(h, t', k) == if k == e.key then e.value else TableFind(h, t, k))
  {
    var t' := TableInsert(h, t, e);
    var b := t.buckets[h(e.key, |t.buckets|)];
    TableInsertContents(h, t, e);
    StoredInBucket(h, t, e.key);
    if b.ListBucket? || !Stored(t, e.key) {
      InsertUnique(h, t, e);
      forall k ensures TableFind(h, t', k) == if k == e.key then e.value else TableFind(h, t, k) {
        InsertFinds(h, t, e, k);
      }
    } else {
      InsertTwice(h, t, e);
    }
  }

  lemma InsertTwice(h: Hash, t: Table, e: Entry)
    requires IndexesBuckets(h) && Wf(t, h)
    requires t.buckets[h(e.key, |t.buckets|)].TreeBucket? && Stored(t, e.key)
    ensures !Unique(TableInsert(h, t, e))
  {
    TableInsertContents(h, t, e);
    var c, c' := Contents(t.buckets), Contents(TableInsert(h, t, e).buckets);
    var f :| f in c && f.key == e.key;
    assert e in c' && f in c' && c'[e] == c[e] + 1;
  }

  lemma InsertFinds(h: Hash, t: Table, e: Entry, k: int)
    requires IndexesBuckets(h) && Wf(t, h) && Unique(t)
    requires t.buckets[h(e.key, |t.buckets|)].ListBucket? || !Stored(t, e.key)
    ensures TableFind(h, TableInsert(h, t, e), k) == if k == e.key then e.value else TableFind(h, t, k)
  {
    var t' := TableInsert(h, t, e);
    InsertUnique(h, t, e);
    TableInsertContents(h, t, e);
    var c, c' := Contents(t.buckets), Contents(t'.buckets);
    assert forall f: Entry :: f.key != e.key ==> (f in c <==> f in c');
    if k == e.key {
      assert e in c';
      UniqueFind(h, t', e);
    } else {
      TableFindCorrect(h, t, k);
      TableFindCorrect(h, t', k);
      if Stored(t, k) {
        UniqueFind(h, t', Entry(k, TableFind(h, t, k)));
      }
    }
  }

  lemma InsertUnique(h: Hash, t: Table, e: Entry)
    requires IndexesBuckets(h) && Wf(t, h) && Unique(t)
    requires t.buckets[h(e.key, |t.buckets|)].ListBucket? || !Stored(t, e.key)
    ensures Unique(TableInsert(h, t, e))
  {
    hide TableInsert, Contents;
    TableInsertContents(h, t, e);
    StoredInBucket(h, t, e.key);
    var c, c' := Contents(t.buckets), Contents(TableInsert(h, t, e).buckets);
    assert forall f :: f in c' && f.key == e.key ==> f == e;
    assert forall f :: f in c' && f.key != e.key ==> f in c && c'[f] == c[f];
  }

  /** Doubling changes no answer of a table that stores every key once. */
  lemma ResizeKeepsMap(h: Hash, t: Table, key: int)
    requires IndexesBuckets(h) && Wf(t, h) && Unique(t)
    ensures Unique(Resize(h, t)) && TableFind(h, Resize(h, t), key) == TableFind(h, t, key)
  {
    ResizeContents(h, t);
    TableFindCorrect(h, t, key);
    TableFindCorrect(h, Resize(h, t), key);
    if Stored(t, key) {
      UniqueFind(h, Resize(h, t), Entry(key, TableFind(h, t, key)));
    }
  }

  // ---------------------------------------------------------------------------------------
  // What a run of insertions leaves in a bucket
  // ---------------------------------------------------------------------------------------

  /** The bucket after insertions, the last one at the end of `es`. */
  function Filled(es: seq<Entry>): Bucket {
    if es == [] then ListBucket([], 0) else BucketInsert(Filled(es[..|es| - 1]), es[|es| - 1])
  }

  /** The different keys, in the order in which they were first inserted. */
  function FirstSeen(es: seq<Entry>): seq<int> {
    if es == [] then []
    else
      var keys, key := FirstSeen(es[..|es| - 1]), es[|es| - 1].key;
      if key in keys then keys else keys + [key]
  }

  /** The value given last to the key. */
  function LastValue(es: seq<Entry>, key: int): Ptr {
    if es == [] then NULL
    else if es[|es| - 1].key == key then es[|es| - 1].value
    else LastValue(es[..|es| - 1], key)
  }

  /** The list of a bucket: the newest key first, each with the value given last. */
  ghost predicate Lists(es: seq<Entry>, list: seq<Entry>) {
    var keys := FirstSeen(es);
    |list| == |keys| && forall i :: 0 <= i < |keys| ==>
      list[|keys| - 1 - i] == Entry(keys[i], LastValue(es, keys[i]))
  }

  lemma {:induction false} SeenOnce(es: seq<Entry>)
    ensures forall i, j :: 0 <= i < j < |FirstSeen(es)| ==> FirstSeen(es)[i] != FirstSeen(es)[j]
  {
    if es != [] { SeenOnce(es[..|es| - 1]); }
  }

  lemma ListKeys(es: seq<Entry>, list: seq<Entry>)
    requires Lists(es, list)
    ensures |list| == |FirstSeen(es)|
    ensures forall i {:trigger list[i]} :: 0 <= i < |list| ==>
              list[i] == Entry(FirstSeen(es)[|list| - 1 - i], LastValue(es, FirstSeen(es)[|list| - 1 - i]))
  {
    var keys, n := FirstSeen(es), |list|;
    forall i {:trigger list[i]} | 0 <= i < n ensures list[i] == Entry(keys[n - 1 - i], LastValue(es, keys[n - 1 - i])) {
      var j := n - 1 - i;
      assert list[n - 1 - j] == Entry(keys[j], LastValue(es, keys[j]));
    }
  }

  lemma ListHas(es: seq<Entry>, list: seq<Entry>, key: int)
    requires Lists(es, list)
    ensures HasKey(list, key) <==> key in FirstSeen(es)
  {
    ListKeys(es, list);
    hide Lists, FirstSeen, LastValue;
    var keys, n := FirstSeen(es), |list|;
    assert forall i :: 0 <= i < n ==> list[i].key == keys[n - 1 - i];
    if key in keys {
      var k :| 0 <= k < n && keys[k] == key;
      assert list[n - 1 - k].key == key;
    }
  }

  /** One insertion into a list that stays one. */
  lemma ListStep(es: seq<Entry>, list: seq<Entry>, e: Entry)
    requires Lists(es, list)
    ensures HasKey(list, e.key) <==> e.key in FirstSeen(es)
    ensures !HasKey(list, e.key) ==> Lists(es + [e], [e] + list)
    ensures var i := IndexOf(list, e.key); i < |list| ==> Lists(es + [e], list[i := e])
  {
    ListHas(es, list, e.key);
    ListKeys(es, list);
    SeenOnce(es);
    assert (es + [e])[..|es|] == es && (es + [e])[|es|] == e;
    if HasKey(list, e.key) { ListReplaced(es, list, e); } else { ListGrown(es, list, e); }
  }

  lemma ListGrown(es: seq<Entry>, list: seq<Entry>, e: Entry)
    requires Lists(es, list) && e.key !in FirstSeen(es)
    ensures Lists(es + [e], [e] + list)
  {
    var keys, n, all, longer := FirstSeen(es), |list|, es + [e], [e] + list;
    assert all[..|es|] == es && all[|es|] == e && FirstSeen(all) == keys + [e.key];
    forall i | 0 <= i <= n ensures longer[n - i] == Entry(FirstSeen(all)[i], LastValue(all, FirstSeen(all)[i])) {
      if i < n { assert longer[n - i] == list[n - 1 - i] && keys[i] != e.key; }
    }
  }

  lemma ListReplaced(es: seq<Entry>, list: seq<Entry>, e: Entry)
    requires Lists(es, list) && e.key in FirstSeen(es)
    ensures var i := IndexOf(list, e.key); i < |list| ==> Lists(es + [e], list[i := e])
  {
    ListKeys(es, list);
    SeenOnce(es);
    var keys, n, all, k := FirstSeen(es), |list|, es + [e], IndexOf(list, e.key);
    assert all[..|es|] == es && all[|es|] == e && FirstSeen(all) == keys;
    if k < n {
      var m, other := n - 1 - k, list[k := e];
      assert keys[m] == e.key;
      assert forall i :: 0 <= i < n && i != m ==> keys[i] != e.key;
      hide FirstSeen, IndexOf;
      forall i | 0 <= i < n ensures other[n - 1 - i] == Entry(keys[i], LastValue(all, keys[i])) {
        assert list[n - 1 - i] == Entry(keys[i], LastValue(es, keys[i]));
        assert LastValue(all, keys[i]) == if keys[i] == e.key then e.value else LastValue(es, keys[i]);
        assert i != m ==> other[n - 1 - i] == list[n - 1 - i];
      }
      assert Lists(all, other) by { ListsIs(all, other, keys); }
    }
  }

  lemma ListsIs(es: seq<Entry>, list: seq<Entry>, keys: seq<int>)
    requires keys == FirstSeen(es) && |list| == |keys|
    requires forall i :: 0 <= i < |keys| ==> list[|keys| - 1 - i] == Entry(keys[i], LastValue(es, keys[i]))
    ensures Lists(es, list)
  {
  }

  /**
   The bucket after any insertions: a list of the newest keys first, each with its last value, as
   long as there were at most 8 different keys, and a tree from the ninth on.
   */
  lemma {:induction false} FilledBucket(es: seq<Entry>)
    ensures Filled(es).ListBucket? <==> |FirstSeen(es)| <= 8
    ensures Filled(es).ListBucket? ==> Lists(es, Filled(es).list) && Filled(es).size == |FirstSeen(es)|
  {
    if es != [] {
      var n := |es| - 1;
      var b, e := Filled(es[..n]), es[n];
      FilledBucket(es[..n]);
      assert es[..n] + [e] == es;
      if b.ListBucket? {
        ListStep(es[..n], b.list, e);
        var i := IndexOf(b.list, e.key);
        hide Lists;
        assert i < |b.list| <==> HasKey(b.list, e.key);
      }
    }
  }

  /** The ninth key: all nine go into an empty tree, the newest first; later ones go there one by one. */
  lemma NinthKey(es: seq<Entry>, list: seq<Entry>)
    requires es != [] && |FirstSeen(es)| == 9 && |FirstSeen(es[..|es| - 1])| == 8 && Lists(es, list)
    ensures Filled(es) == TreeBucket(InsertAll(Leaf, list), 9)
  {
    var n := |es| - 1;
    var b, e := Filled(es[..n]), es[n];
    FilledBucket(es[..n]);
    ListStep(es[..n], b.list, e);
    assert es[..n] + [e] == es;
    var i := IndexOf(b.list, e.key);
    assert !HasKey(b.list, e.key);
    OneList(es, list, [e] + b.list);
  }

  lemma OneList(es: seq<Entry>, s: seq<Entry>, t: seq<Entry>)
    requires Lists(es, s) && Lists(es, t)
    ensures s == t
  {
    var keys, n := FirstSeen(es), |s|;
    forall i | 0 <= i < n ensures s[i] == t[i] {
      var j := n - 1 - i;
      assert s[n - 1 - j] == Entry(keys[j], LastValue(es, keys[j])) == t[n - 1 - j];
    }
  }

  /** The entries of a run that belong in bucket `i`, in order. */
  function Share(h: Hash, size: nat, i: nat, es: seq<Entry>): seq<Entry> {
    if es == [] then []
    else
      var before, e := Share(h, size, i, es[..|es| - 1]), es[|es| - 1];
      if h(e.key, size) == i then before + [e] else before
  }

  function Inserts(es: seq<Entry>): seq<Op> {
    if es == [] then [] else Inserts(es[..|es| - 1]) + [OpInsert(es[|es| - 1])]
  }

  /** Every bucket of a table that was only inserted into holds what the insertions of its keys leave. */
  lemma {:induction false} RunBuckets(h: Hash, size: nat, es: seq<Entry>)
    requires IndexesBuckets(h)
    ensures var t, n := Run(h, Init(size), Inserts(es)), if size == 0 then 16 else size;
            |t.buckets| == n && forall i :: 0 <= i < n ==> t.buckets[i] == Filled(Share(h, n, i, es))
  {
    if es != [] {
      var k, n := |es| - 1, if size == 0 then 16 else size;
      var t := Run(h, Init(size), Inserts(es[..k]));
      RunBuckets(h, size, es[..k]);
      RunSnoc(h, Init(size), Inserts(es[..k]), OpInsert(es[k]));
      RunOne(h, t, es[k]);
      var j := h(es[k].key, n);
      var before := Share(h, n, j, es[..k]);
      assert Share(h, n, j, es) == before + [es[k]] && (before + [es[k]])[..|before|] == before;
    }
  }

  // ---------------------------------------------------------------------------------------
  // What doubling does to the answers
  // ---------------------------------------------------------------------------------------

  lemma {:induction false} PushAllFinds(h: Hash, bs: seq<Bucket>, es: seq<Entry>, key: int)
    requires IndexesBuckets(h) && 0 < |bs| && AllLists(bs)
    ensures var i := h(key, |bs|);
            BucketFind(PushAll(h, bs, es)[i], key)
            == if HasKey(es, key) then LastValue(es, key) else BucketFind(bs[i], key)
    decreases |es|
  {
    if es != [] {
      var n, i := |es| - 1, h(key, |bs|);
      PushAllConcat(h, bs, es[..n], [es[n]]);
      assert es[..n] + [es[n]] == es;
      PushAllFinds(h, bs, es[..n], key);
      var cs := PushAll(h, bs, es[..n]);
      assert PushAll(h, cs, [es[n]]) == Push(h, cs, es[n]);
      assert HasKey(es, key) <==> HasKey(es[..n], key) || es[n].key == key by {
        if j :| 0 <= j < |es| && es[j].key == key { assert j < n ==> es[..n][j] == es[j]; }
      }
    }
  }

  lemma {:induction false} RehashAllFinds(h: Hash, bs: seq<Bucket>, olds: seq<Bucket>, k: nat, key: int)
    requires IndexesBuckets(h) && 0 < |bs| && AllLists(bs) && k < |olds|
    requires forall i :: 0 <= i < |olds| && i != k ==> !HasKey(EntriesOf(olds[i]), key)
    ensures var i := h(key, |bs|);
            BucketFind(RehashAll(h, bs, olds)[i], key)
            == if HasKey(EntriesOf(olds[k]), key) then LastValue(RehashOrder(olds[k]), key) else BucketFind(bs[i], key)
  {
    var n := |olds| - 1;
    PushAllFinds(h, RehashAll(h, bs, olds[..n]), RehashOrder(olds[n]), key);
    SameKeys(olds[n], key);
    if k < n {
      RehashAllFinds(h, bs, olds[..n], k, key);
    } else {
      RehashNone(h, bs, olds[..n], key);
    }
  }

  lemma {:induction false} RehashNone(h: Hash, bs: seq<Bucket>, olds: seq<Bucket>, key: int)
    requires IndexesBuckets(h) && 0 < |bs| && AllLists(bs)
    requires forall i :: 0 <= i < |olds| ==> !HasKey(EntriesOf(olds[i]), key)
    ensures var i := h(key, |bs|); BucketFind(RehashAll(h, bs, olds)[i], key) == BucketFind(bs[i], key)
  {
    if olds != [] {
      var n := |olds| - 1;
      RehashNone(h, bs, olds[..n], key);
      PushAllFinds(h, RehashAll(h, bs, olds[..n]), RehashOrder(olds[n]), key);
      SameKeys(olds[n], key);
    }
  }

  lemma SameKeys(b: Bucket, key: int)
    ensures HasKey(RehashOrder(b), key) <==> HasKey(EntriesOf(b), key)
  {
    if b.TreeBucket? {
      var s, t := PostOrder(b.tree), InOrder(b.tree);
      PostOrderContents(b.tree);
      if i :| 0 <= i < |s| && s[i].key == key { assert s[i] in multiset(t); }
      if i :| 0 <= i < |t| && t[i].key == key { assert t[i] in multiset(s); }
    }
  }

  lemma {:induction false} LastOfConcat(a: seq<Entry>, b: seq<Entry>, key: int)
    ensures LastValue(a + b, key) == if HasKey(b, key) then LastValue(b, key) else LastValue(a, key)
    decreases |b|
  {
    if b == [] {
      assert a + b == a;
    } else {
      var n := |b| - 1;
      assert (a + b)[..|a| + n] == a + b[..n];
      LastOfConcat(a, b[..n], key);
      assert HasKey(b, key) <==> HasKey(b[..n], key) || b[n].key == key by {
        if j :| 0 <= j < |b| && b[j].key == key { assert j < n ==> b[..n][j] == b[j]; }
      }
    }
  }

  function Reversed(s: seq<Entry>): (r: seq<Entry>)
    ensures |r| == |s| && forall i :: 0 <= i < |s| ==> r[i] == s[|s| - 1 - i]
  {
    if s == [] then [] else [s[|s| - 1]] + Reversed(s[..|s| - 1])
  }

  lemma {:induction false} PushAllLists(h: Hash, bs: seq<Bucket>, es: seq<Entry>, i: nat)
    requires IndexesBuckets(h) && AllLists(bs) && i < |bs|
    ensures var mine := Share(h, |bs|, i, es);
            PushAll(h, bs, es)[i] == ListBucket(Reversed(mine) + bs[i].list, bs[i].size + |mine|)
    decreases |es|
  {
    if es != [] {
      var n := |es| - 1;
      var cs, mine := PushAll(h, bs, es[..n]), Share(h, |bs|, i, es[..n]);
      PushAllConcat(h, bs, es[..n], [es[n]]);
      assert es[..n] + [es[n]] == es;
      assert PushAll(h, cs, [es[n]]) == Push(h, cs, es[n]);
      PushAllLists(h, bs, es[..n], i);
      assert (mine + [es[n]])[..|mine|] == mine;
      assert Reversed(mine + [es[n]]) == [es[n]] + Reversed(mine);
    }
  }

  /** The order in which a doubling visits all entries. */
  function Visited(olds: seq<Bucket>): seq<Entry> {
    if olds == [] then [] else Visited(olds[..|olds| - 1]) + RehashOrder(olds[|olds| - 1])
  }

  lemma {:induction false} RehashIsPush(h: Hash, bs: seq<Bucket>, olds: seq<Bucket>)
    requires IndexesBuckets(h) && 0 < |bs| && AllLists(bs)
    ensures RehashAll(h, bs, olds) == PushAll(h, bs, Visited(olds))
  {
    if olds != [] {
      var n := |olds| - 1;
      RehashIsPush(h, bs, olds[..n]);
      PushAllConcat(h, bs, Visited(olds[..n]), RehashOrder(olds[n]));
    }
  }

  /** Every bucket of the doubled table: a list of its entries, the one visited last at the head. */
  lemma ResizeLists(h: Hash, t: Table, i: nat)
    requires IndexesBuckets(h) && i < 2 * |t.buckets|
    ensures |Resize(h, t).buckets| == 2 * |t.buckets|
    ensures var mine := Share(h, 2 * |t.buckets|, i, Visited(t.buckets));
            Resize(h, t).buckets[i] == ListBucket(Reversed(mine), |mine|)
  {
    var bs := EmptyBuckets(2 * |t.buckets|);
    RehashIsPush(h, bs, t.buckets);
    PushAllLists(h, bs, Visited(t.buckets), i);
    assert Reversed(Share(h, |bs|, i, Visited(t.buckets))) + [] == Reversed(Share(h, |bs|, i, Visited(t.buckets)));
  }

  /** In post-order an entry comes after those below it, so the last one with a key is the one search finds. */
  lemma {:induction false} PostOrderLast(t: Tree, key: int)
    requires SortedKeys(InOrder(t))
    ensures LastValue(PostOrder(t), key) == Find(t, key)
  {
    if t.Branch? {
      var s, m := InOrder(t), |InOrder(t.left)|;
      assert s[..m] == InOrder(t.left) && s[m] == t.entry && s[m + 1..] == InOrder(t.right);
      PostOrderLast(t.left, key);
      PostOrderLast(t.right, key);
      LastOfConcat(PostOrder(t.left) + PostOrder(t.right), [t.entry], key);
      LastOfConcat(PostOrder(t.left), PostOrder(t.right), key);
      SideKeys(t, key);
      NoValue(PostOrder(t.left), key);
      NoValue(PostOrder(t.right), key);
    }
  }

  lemma {:induction false} NoValue(s: seq<Entry>, key: int)
    ensures !HasKey(s, key) ==> LastValue(s, key) == NULL
  {
    if s != [] && !HasKey(s, key) {
      var n := |s| - 1;
      assert s[n].key != key && forall i :: 0 <= i < n ==> s[..n][i] == s[i];
      NoValue(s[..n], key);
    }
  }

  lemma SideKeys(t: Tree, key: int)
    requires t.Branch? && SortedKeys(InOrder(t))
    ensures key < t.entry.key ==> !HasKey(PostOrder(t.right), key)
    ensures t.entry.key < key ==> !HasKey(PostOrder(t.left), key)
  {
    SameKeys(TreeBucket(t.left, 0), key);
    SameKeys(TreeBucket(t.right, 0), key);
    hide PostOrder;
    var a, b := InOrder(t.left), InOrder(t.right);
    hide InOrder;
    SortedAround(a, t.entry, b);
  }

  lemma SortedAround(a: seq<Entry>, e: Entry, b: seq<Entry>)
    requires SortedKeys(a + [e] + b)
    ensures (forall i :: 0 <= i < |a| ==> a[i].key <= e.key) && (forall i :: 0 <= i < |b| ==> e.key <= b[i].key)
  {
    var s, m := a + [e] + b, |a|;
    assert s[m] == e;
    forall i | 0 <= i < |a| ensures a[i].key <= e.key { assert s[i] == a[i]; }
    forall i | 0 <= i < |b| ensures e.key <= b[i].key { assert s[m + 1 + i] == b[i]; }
  }

  /** The answer of a bucket after its entries were filed anew, each at the head of its list. */
  function Refiled(b: Bucket, key: int): Ptr {
    match b
    case ListBucket(list, _) => LastValue(list, key)
    case TreeBucket(tree, _) => Find(tree, key)
  }

  /** Only one bucket can have the key. */
  lemma NotElsewhere(h: Hash, t: Table, key: int)
    requires IndexesBuckets(h) && Wf(t, h)
    ensures forall i :: 0 <= i < |t.buckets| && i != h(key, |t.buckets|) ==> !HasKey(EntriesOf(t.buckets[i]), key)
  {
    forall i, j | 0 <= i < |t.buckets| && i != h(key, |t.buckets|) && 0 <= j < |EntriesOf(t.buckets[i])|
      ensures EntriesOf(t.buckets[i])[j].key != key
    {
      assert BucketWf(t.buckets[i], i, |t.buckets|, h);
      assert EntriesOf(t.buckets[i])[j] in EntriesOf(t.buckets[i]);
    }
  }

  /**
   Doubling, repeated keys included: a key of a tree bucket keeps its answer, and for one of a list
   bucket the last entry with the key becomes the first.
   */
  lemma ResizeFinds(h: Hash, t: Table, key: int)
    requires IndexesBuckets(h) && Wf(t, h)
    ensures TableFind(h, Resize(h, t), key) == Refiled(t.buckets[h(key, |t.buckets|)], key)
  {
    var k, b := h(key, |t.buckets|), t.buckets[h(key, |t.buckets|)];
    assert BucketWf(b, k, |t.buckets|, h);
    NotElsewhere(h, t, key);
    RehashAllFinds(h, EmptyBuckets(2 * |t.buckets|), t.buckets, k, key);
    if b.TreeBucket? {
      PostOrderLast(b.tree, key);
    }
    SameKeys(b, key);
    NoValue(RehashOrder(b), key);
  }

  /** Doubling changes no answer exactly if first and last entry with a key agree in every list. */
  lemma ResizeKeepsAnswers(h: Hash, t: Table)
    requires IndexesBuckets(h) && Wf(t, h)
    ensures (forall key :: TableFind(h, Resize(h, t), key) == TableFind(h, t, key)) <==>
            forall key :: var b := t.buckets[h(key, |t.buckets|)];
              b.ListBucket? ==> LastValue(b.list, key) == BucketFind(b, key)
  {
    forall key ensures TableFind(h, Resize(h, t), key) == Refiled(t.buckets[h(key, |t.buckets|)], key) {
      ResizeFinds(h, t, key);
    }
  }

  /** The value of the first entry with the key. */
  function FirstValue(es: seq<Entry>, key: int): Ptr {
    BucketFind(ListBucket(es, 0), key)
  }

  lemma FirstOfCons(e: Entry, es: seq<Entry>, key: int)
    ensures FirstValue([e] + es, key) == if e.key == key then e.value else FirstValue(es, key)
    ensures HasKey([e] + es, key) <==> e.key == key || HasKey(es, key)
  {
    assert ([e] + es)[1..] == es;
    if i :| 0 <= i < |es| && es[i].key == key { assert ([e] + es)[i + 1] == es[i]; }
  }

  lemma {:induction false} PushAllLast(h: Hash, bs: seq<Bucket>, es: seq<Entry>, key: int)
    requires IndexesBuckets(h) && 0 < |bs| && AllLists(bs)
    ensures var i := h(key, |bs|);
            && LastValue(PushAll(h, bs, es)[i].list, key)
               == (if HasKey(bs[i].list, key) then LastValue(bs[i].list, key) else FirstValue(es, key))
            && (HasKey(PushAll(h, bs, es)[i].list, key) <==> HasKey(bs[i].list, key) || HasKey(es, key))
    decreases |es|
  {
    var i := h(key, |bs|);
    if es == [] {
      NoValue(bs[i].list, key);
    } else {
      var e, cs := es[0], Push(h, bs, es[0]);
      assert es == [e] + es[1..];
      PushAllLast(h, cs, es[1..], key);
      FirstOfCons(e, es[1..], key);
      FirstOfCons(e, bs[i].list, key);
      LastOfConcat([e], bs[i].list, key);
    }
  }

  lemma NoFirst(es: seq<Entry>, key: int)
    ensures !HasKey(es, key) ==> FirstValue(es, key) == NULL
  {
  }

  lemma {:induction false} RehashAllLast(h: Hash, bs: seq<Bucket>, olds: seq<Bucket>, k: nat, key: int)
    requires IndexesBuckets(h) && 0 < |bs| && AllLists(bs) && !HasKey(bs[h(key, |bs|)].list, key)
    requires forall i :: 0 <= i < |olds| && i != k ==> !HasKey(EntriesOf(olds[i]), key)
    ensures var list := RehashAll(h, bs, olds)[h(key, |bs|)].list;
            && LastValue(list, key) == (if k < |olds| then FirstValue(RehashOrder(olds[k]), key) else NULL)
            && (HasKey(list, key) <==> k < |olds| && HasKey(EntriesOf(olds[k]), key))
  {
    if olds == [] {
      NoValue(bs[h(key, |bs|)].list, key);
    } else {
      var n := |olds| - 1;
      var cs := RehashAll(h, bs, olds[..n]);
      assert RehashAll(h, bs, olds) == PushAll(h, cs, RehashOrder(olds[n]));
      hide RehashAll, PushAll, RehashOrder, EntriesOf, FirstValue, LastValue, HasKey;
      RehashAllLast(h, bs, olds[..n], k, key);
      PushAllLast(h, cs, RehashOrder(olds[n]), key);
      SameKeys(olds[n], key);
      NoFirst(RehashOrder(olds[n]), key);
      NoValue(cs[h(key, |bs|)].list, key);
    }
  }

  /** Doubling twice: a list answers as before, a tree with the entry met first in post-order. */
  lemma ResizeTwiceFinds(h: Hash, t: Table, key: int)
    requires IndexesBuckets(h) && Wf(t, h)
    ensures TableFind(h, Resize(h, Resize(h, t)), key)
         == FirstValue(RehashOrder(t.buckets[h(key, |t.buckets|)]), key)
  {
    var k, bs := h(key, |t.buckets|), EmptyBuckets(2 * |t.buckets|);
    ResizeContents(h, t);
    ResizeFinds(h, Resize(h, t), key);
    NotElsewhere(h, t, key);
    RehashAllLast(h, bs, t.buckets, k, key);
  }

  // ---------------------------------------------------------------------------------------
  // A key that is stored twice
  // ---------------------------------------------------------------------------------------

  /** The list of a bucket after the keys below `n` were put at its head, one by one. */
  function Descending(n: nat): (s: seq<Entry>)
    ensures |s| == n && forall i :: 0 <= i < n ==> s[i] == Entry(n - 1 - i, 1)
  {
    if n == 0 then [] else [Entry(n - 1, 1)] + Descending(n - 1)
  }

  function Ascending(n: nat): seq<Op> {
    if n == 0 then [] else Ascending(n - 1) + [OpInsert(Entry(n - 1, 1))]
  }

  lemma {:induction false} RunSnoc(h: Hash, t: Table, ops: seq<Op>, op: Op)
    requires IndexesBuckets(h) && 0 < |t.buckets|
    ensures Run(h, t, ops + [op]) == Run(h, Run(h, t, ops), [op])
    decreases |ops|
  {
    if ops == [] {
      assert ops + [op] == [op];
    } else {
      assert (ops + [op])[1..] == ops[1..] + [op];
      RunSnoc(h, if ops[0].OpInsert? then TableInsert(h, t, ops[0].entry) else Resize(h, t), ops[1..], op);
    }
  }

  /** With one bucket for all keys, that bucket is a list up to 8 keys. */
  lemma {:induction false} ListFills(h: Hash, n: nat)
    requires IndexesBuckets(h) && (forall key: int, size: nat :: h(key, size) == 0) && n <= LIST_THRESHOLD
    ensures var t := Run(h, Init(0), Ascending(n));
            0 < |t.buckets| && t.buckets[0] == ListBucket(Descending(n), n)
  {
    if n > 0 {
      ListFills(h, n - 1);
      RunSnoc(h, Init(0), Ascending(n - 1), OpInsert(Entry(n - 1, 1)));
      assert !HasKey(Descending(n - 1), n - 1);
      var i := IndexOf(Descending(n - 1), n - 1);
    }
  }

  /** The ninth key turns it into a tree. */
  lemma ListTurns(h: Hash, t: Table)
    requires IndexesBuckets(h) && (forall key: int, size: nat :: h(key, size) == 0) && 0 < |t.buckets|
    requires t.buckets[0] == ListBucket(Descending(8), 8)
    ensures var t' := TableInsert(h, t, Entry(8, 1));
            0 < |t'.buckets| && t'.buckets[0] == TreeBucket(Convert(Descending(9)), 9)
  {
    hide Convert;
    assert !HasKey(Descending(8), 8);
    var i := IndexOf(Descending(8), 8);
  }

  lemma Unrolled(t: Tree, n: nat)
    requires 0 < n
    ensures InsertAll(t, Descending(n)) == InsertAll(Insert(t, Entry(n - 1, 1)), Descending(n - 1))
  {
    assert Descending(n)[1..] == Descending(n - 1);
  }

  /** The tree after the keys from 8 down to `n`. */
  function Stack(n: nat): Tree {
    match n
    case 8 => B(Leaf, 8, Leaf)
    case 7 => B(R(Leaf, 7, Leaf), 8, Leaf)
    case 6 => B(R(Leaf, 6, Leaf), 7, R(Leaf, 8, Leaf))
    case 5 => B(B(R(Leaf, 5, Leaf), 6, Leaf), 7, B(Leaf, 8, Leaf))
    case 4 => B(B(R(Leaf, 4, Leaf), 5, R(Leaf, 6, Leaf)), 7, B(Leaf, 8, Leaf))
    case 3 => B(R(B(R(Leaf, 3, Leaf), 4, Leaf), 5, B(Leaf, 6, Leaf)), 7, B(Leaf, 8, Leaf))
    case 2 => B(R(B(R(Leaf, 2, Leaf), 3, R(Leaf, 4, Leaf)), 5, B(Leaf, 6, Leaf)), 7, B(Leaf, 8, Leaf))
    case 1 => B(R(B(R(Leaf, 1, Leaf), 2, Leaf), 3, B(Leaf, 4, Leaf)), 5, R(B(Leaf, 6, Leaf), 7, B(Leaf, 8, Leaf)))
    case 0 =>
      B(R(B(R(Leaf, 0, Leaf), 1, R(Leaf, 2, Leaf)), 3, B(Leaf, 4, Leaf)), 5, R(B(Leaf, 6, Leaf), 7, B(Leaf, 8, Leaf)))
    case _ => Leaf
  }

  lemma UpperHalf()
    ensures Insert(Leaf, Entry(8, 1)) == Stack(8) && Insert(Stack(8), Entry(7, 1)) == Stack(7)
    ensures Insert(Stack(7), Entry(6, 1)) == Stack(6) && Insert(Stack(6), Entry(5, 1)) == Stack(5)
  {
  }

  lemma MiddleThree()
    ensures Insert(Stack(5), Entry(4, 1)) == Stack(4) && Insert(Stack(4), Entry(3, 1)) == Stack(3)
    ensures Insert(Stack(3), Entry(2, 1)) == Stack(2)
  {
  }

  lemma LastTwo()
    ensures Insert(Stack(2), Entry(1, 1)) == Stack(1) && Insert(Stack(1), Entry(0, 1)) == Stack(0)
  {
  }

  /** The tree of the nine keys, which were put in from the head of the list on. */
  lemma NineConverted()
    ensures Convert(Descending(9)) == Stack(0)
  {
    hide Descending, Insert, Stack;
    UpperHalf();
    MiddleThree();
    LastTwo();
    Unrolled(Leaf, 9);
    Unrolled(Stack(8), 8);
    Unrolled(Stack(7), 7);
    Unrolled(Stack(6), 6);
    Unrolled(Stack(5), 5);
    Unrolled(Stack(4), 4);
    Unrolled(Stack(3), 3);
    Unrolled(Stack(2), 2);
    Unrolled(Stack(1), 1);
    assert |Descending(0)| == 0;
  }

  /** The second value of the key 8 goes below the first one. */
  lemma BelowTheFirst()
    ensures Find(Insert(Stack(0), Entry(8, 2)), 8) == 1
  {
    var p := InRight(B(Leaf, 6, Leaf), Red, Entry(7, 1),
        InRight(R(B(R(Leaf, 0, Leaf), 1, R(Leaf, 2, Leaf)), 3, B(Leaf, 4, Leaf)), Black, Entry(5, 1), Top));
    assert Descend(Top, Stack(0), 8) == InRight(Leaf, Black, Entry(8, 1), p);
  }

  /**
   Nine keys in one bucket, and one of them again: it is stored twice, and search still answers with
   the first value.
   */
  lemma StoredTwice(h: Hash)
    requires IndexesBuckets(h) && forall key: int, size: nat :: h(key, size) == 0
    ensures var t := Run(h, Init(0), Ascending(9) + [OpInsert(Entry(8, 2))]);
            !Unique(t) && TableFind(h, t, 8) == 1
  {
    hide TableInsert, Contents, Ascending, Descending, Wf, Unique, Init, Resize, Insert, Find, Convert, TableFind,
        Stack;
    var init := Init(0);
    InitWf(h, 0);
    var t8 := Run(h, init, Ascending(8));
    ListFills(h, 8);
    RunWf(h, init, Ascending(8));
    NineKeys(h);
    var t9 := TableInsert(h, t8, Entry(8, 1));
    ListTurns(h, t8);
    TableInsertContents(h, t8, Entry(8, 1));
    assert Entry(8, 1) in Contents(t9.buckets);
    InsertTwice(h, t9, Entry(8, 2));
    RunSnoc(h, init, Ascending(9), OpInsert(Entry(8, 2)));
    RunOne(h, t9, Entry(8, 2));
    NineConverted();
    BelowTheFirst();
    FoundInTree(h, t9, Stack(0), Entry(8, 2));
  }

  /** After the run above the first doubling keeps the answer 1, and the second one changes it to 2. */
  lemma AnswerChanges(h: Hash)
    requires IndexesBuckets(h) && forall key: int, size: nat :: h(key, size) == 0
    ensures var t := Run(h, Init(0), Ascending(9) + [OpInsert(Entry(8, 2))]);
            && TableFind(h, t, 8) == TableFind(h, Resize(h, t), 8) == 1
            && TableFind(h, Resize(h, Resize(h, t)), 8) == 2
  {
    hide TableInsert, Ascending, Descending, Wf, Resize, Insert, Find, Convert, Stack, RehashAll, PostOrder;
    var init, ops := Init(0), Ascending(9) + [OpInsert(Entry(8, 2))];
    var t := Run(h, init, ops);
    StoredTwice(h);
    InitWf(h, 0);
    RunWf(h, init, ops);
    TenKeys(h);
    ResizeFinds(h, t, 8);
    ResizeTwiceFinds(h, t, 8);
    FirstInPostOrder();
  }

  /** The one bucket in use after the run. */
  lemma TenKeys(h: Hash)
    requires IndexesBuckets(h) && forall key: int, size: nat :: h(key, size) == 0
    ensures var t := Run(h, Init(0), Ascending(9) + [OpInsert(Entry(8, 2))]);
            0 < |t.buckets| && t.buckets[0] == TreeBucket(Insert(Stack(0), Entry(8, 2)), 10)
  {
    hide Ascending, Descending, Insert, Convert, Stack;
    var t8 := Run(h, Init(0), Ascending(8));
    ListFills(h, 8);
    NineKeys(h);
    ListTurns(h, t8);
    NineConverted();
    RunSnoc(h, Init(0), Ascending(9), OpInsert(Entry(8, 2)));
    RunOne(h, TableInsert(h, t8, Entry(8, 1)), Entry(8, 2));
  }

  lemma FirstInPostOrder()
    ensures FirstValue(PostOrder(Insert(Stack(0), Entry(8, 2))), 8) == 2
  {
    var left := R(B(R(Leaf, 0, Leaf), 1, R(Leaf, 2, Leaf)), 3, B(Leaf, 4, Leaf));
    var p := InRight(B(Leaf, 6, Leaf), Red, Entry(7, 1), InRight(left, Black, Entry(5, 1), Top));
    assert Descend(Top, Stack(0), 8) == InRight(Leaf, Black, Entry(8, 1), p);
    var t := B(left, 5, R(B(Leaf, 6, Leaf), 7, B(Leaf, 8, Branch(Leaf, Red, Entry(8, 2), Leaf))));
    assert Insert(Stack(0), Entry(8, 2)) == t;
    var a := PostOrder(left) + [Entry(6, 1)];
    assert PostOrder(t) == a + [Entry(8, 2), Entry(8, 1), Entry(7, 1), Entry(5, 1)];
    assert !HasKey(a, 8);
    assert PostOrder(t)[|a|] == Entry(8, 2);
    FirstAfter(a, [Entry(8, 2), Entry(8, 1), Entry(7, 1), Entry(5, 1)], 8);
  }

  lemma {:induction false} FirstAfter(a: seq<Entry>, b: seq<Entry>, key: int)
    requires !HasKey(a, key)
    ensures FirstValue(a + b, key) == FirstValue(b, key)
    decreases |a|
  {
    if a == [] {
      assert a + b == b;
    } else {
      assert a + b == [a[0]] + (a[1..] + b);
      assert forall i :: 0 <= i < |a| - 1 ==> a[1..][i] == a[i + 1];
      FirstOfCons(a[0], a[1..] + b, key);
      FirstAfter(a[1..], b, key);
    }
  }

  lemma FoundInTree(h: Hash, t: Table, tree: Tree, e: Entry)
    requires IndexesBuckets(h) && 0 < |t.buckets|
    requires t.buckets[h(e.key, |t.buckets|)] == TreeBucket(tree, t.buckets[h(e.key, |t.buckets|)].size)
    ensures TableFind(h, TableInsert(h, t, e), e.key) == Find(Insert(tree, e), e.key)
  {
  }

  lemma InitWf(h: Hash, size: nat)
    requires IndexesBuckets(h)
    ensures Wf(Init(size), h)
  {
    EmptyContents(Init(size).buckets);
  }

  lemma RunOne(h: Hash, t: Table, e: Entry)
    requires IndexesBuckets(h) && 0 < |t.buckets|
    ensures Run(h, t, [OpInsert(e)]) == TableInsert(h, t, e)
  {
  }

  lemma NineKeys(h: Hash)
    requires IndexesBuckets(h)
    ensures Run(h, Init(0), Ascending(9)) == TableInsert(h, Run(h, Init(0), Ascending(8)), Entry(8, 1))
  {
    RunSnoc(h, Init(0), Ascending(8), OpInsert(Entry(8, 1)));
    RunOne(h, Run(h, Init(0), Ascending(8)), Entry(8, 1));
  }
}
