/**
 The hash table of src/lu_hash_table.c: an array of buckets rewritten in place, each a list or
 an owned red-black tree.  Every method is proved equal to its model in HashTableModel.dfy.
 */
module HashTable {
  import opened RedBlackModel
  import opened RedBlackTree
  import M = HashTableModel

  datatype Bucket =
    | ListBucket(list: seq<Entry>, size: nat)
    | TreeBucket(tree: RBTree, size: nat)

  ghost function TreeRepr(t: RBTree): set<object>
    reads t
  {
    {t, t.nil} + t.nodes
  }

  ghost predicate BucketValid(b: Bucket, repr: set<object>)
    reads repr
  {
    b.TreeBucket? ==> b.tree in repr && TreeRepr(b.tree) <= repr && b.tree.Valid()
  }

  ghost function BucketModel(b: Bucket, repr: set<object>): M.Bucket
    requires BucketValid(b, repr)
    reads repr
  {
    match b
    case ListBucket(list, size) => M.ListBucket(list, size)
    case TreeBucket(tree, size) => M.TreeBucket(tree.Model(), size)
  }

  /** A bucket whose tree nobody wrote to reads the same. */
  twostate lemma BucketFrame(new b: Bucket, new repr: set<object>, new repr': set<object>)
    requires old(allocated(b)) && old(allocated(repr))
    requires repr <= repr' && old(BucketValid(b, repr))
    requires b.TreeBucket? ==> forall o :: o in old(TreeRepr(b.tree)) ==> unchanged(o)
    ensures BucketValid(b, repr') && BucketModel(b, repr') == old(BucketModel(b, repr))
  {
  }

  /** Moves the entries of a list, head first, into a fresh tree. */
  method Convert(list: seq<Entry>) returns (t: RBTree)
    ensures t.Valid() && fresh(TreeRepr(t))
    ensures t.Model() == M.Convert(list)
  {
    t := new RBTree();
    for i := 0 to |list|
      invariant t.Valid() && fresh(TreeRepr(t))
      invariant InsertAll(t.Model(), list[i..]) == M.Convert(list)
    {
      assert list[i..][0] == list[i] && list[i..][1..] == list[i + 1..];
      t.Insert(list[i].key, list[i].value);
    }
  }

  /** Index of the first list node with the key; the length if there is none. */
  method ListIndex(list: seq<Entry>, key: int) returns (i: nat)
    ensures i == M.IndexOf(list, key)
  {
    i := 0;
    while i < |list|
      invariant i <= |list| && M.IndexOf(list, key) == i + M.IndexOf(list[i..], key)
    {
      assert list[i..][0] == list[i] && list[i..][1..] == list[i + 1..];
      if list[i].key == key {
        return;
      }
      i := i + 1;
    }
  }

  ghost predicate AllLists(a: array<Bucket>)
    reads a
  {
    forall i :: 0 <= i < a.Length ==> a[i].ListBucket?
  }

  ghost function ListModels(a: array<Bucket>): (r: seq<M.Bucket>)
    requires AllLists(a)
    reads a
    ensures |r| == a.Length && M.AllLists(r)
  {
    seq(a.Length, i requires 0 <= i < a.Length && AllLists(a) reads a => M.ListBucket(a[i].list, a[i].size))
  }

  /** A fresh list node at the head of the entry's new bucket. */
  method PushEntry(hash: M.Hash, newBuckets: array<Bucket>, key: int, value: Ptr)
    requires M.IndexesBuckets(hash) && 0 < newBuckets.Length && AllLists(newBuckets)
    modifies newBuckets
    ensures AllLists(newBuckets)
    ensures ListModels(newBuckets) == M.Push(hash, old(ListModels(newBuckets)), Entry(key, value))
  {
    var newIndex := hash(key, newBuckets.Length);
    var ListBucket(list, size) := newBuckets[newIndex];
    newBuckets[newIndex] := ListBucket([Entry(key, value)] + list, size + 1);
  }

  /** Left subtree, right subtree, then the node itself. */
  method RehashTree(hash: M.Hash, tree: RBTree, node: Node, newBuckets: array<Bucket>, ghost shape: Tree)
    requires tree.Valid() && (node == tree.nil || node in tree.nodes) && shape == tree.TreeAt(node)
    requires M.IndexesBuckets(hash) && 0 < newBuckets.Length && AllLists(newBuckets)
    modifies newBuckets
    ensures AllLists(newBuckets)
    ensures ListModels(newBuckets) == M.PushAll(hash, old(ListModels(newBuckets)), M.PostOrder(shape))
    decreases shape
  {
    if node != tree.nil {
      tree.TreeStep(node);
      M.PostOrderStep(hash, ListModels(newBuckets), shape);
      RehashTree(hash, tree, node.left, newBuckets, shape.left);
      RehashTree(hash, tree, node.right, newBuckets, shape.right);
      PushEntry(hash, newBuckets, node.key, node.value);
    }
  }

  method RehashList(hash: M.Hash, list: seq<Entry>, newBuckets: array<Bucket>)
    requires M.IndexesBuckets(hash) && 0 < newBuckets.Length && AllLists(newBuckets)
    modifies newBuckets
    ensures AllLists(newBuckets)
    ensures ListModels(newBuckets) == M.PushAll(hash, old(ListModels(newBuckets)), list)
  {
    for i := 0 to |list|
      invariant AllLists(newBuckets)
      invariant M.PushAll(hash, ListModels(newBuckets), list[i..]) ==
          M.PushAll(hash, old(ListModels(newBuckets)), list)
    {
      assert list[i..][0] == list[i] && list[i..][1..] == list[i + 1..];
      PushEntry(hash, newBuckets, list[i].key, list[i].value);
    }
  }

  class HashTable {
    const hash: M.Hash
    var buckets: array<Bucket>
    var elementCount: nat
    ghost var Repr: set<object>

    ghost predicate Valid()
      reads this, Repr
    {
      && M.IndexesBuckets(hash)
      && this in Repr && buckets in Repr && 0 < buckets.Length
      && (forall i :: 0 <= i < buckets.Length ==> BucketValid(buckets[i], Repr - {this, buckets}))
      && (forall i, j :: 0 <= i < j < buckets.Length && buckets[i].TreeBucket? && buckets[j].TreeBucket? ==>
            TreeRepr(buckets[i].tree) !! TreeRepr(buckets[j].tree))
    }

    ghost function Model(): (t: M.Table)
      requires Valid()
      reads this, Repr
      ensures 0 < |t.buckets|
    {
      M.Table(
        seq(buckets.Length, i requires 0 <= i < buckets.Length && Valid() reads this, Repr =>
          BucketModel(buckets[i], Repr - {this, buckets})),
        elementCount)
    }

    constructor (hash: M.Hash, size: nat)
      requires M.IndexesBuckets(hash)
      ensures Valid() && fresh(Repr) && this.hash == hash
      ensures Model() == M.Init(size)
    {
      this.hash := hash;
      var n := if size == 0 then M.DEFAULT_SIZE else size;
      buckets := new Bucket[n](_ => ListBucket([], 0));
      elementCount := 0;
      new;
      Repr := {this, buckets};
    }

    method Find(key: int) returns (value: Ptr)
      requires Valid()
      ensures value == M.TableFind(hash, Model(), key)
    {
      var i := hash(key, buckets.Length);
      assert Model().buckets[i] == BucketModel(buckets[i], Repr - {this, buckets});
      match buckets[i] {
        case ListBucket(list, _) =>
          var j := ListIndex(list, key);
          if j < |list| {
            return list[j].value;
          }
          return NULL;
        case TreeBucket(tree, _) =>
          ModelReads(tree);
          value := tree.Find(key, tree.Model());
      }
    }

    /** A bucket gets a new value that shares no tree with the table. */
    method SetBucket(i: nat, b: Bucket)
      requires Valid() && i < buckets.Length
      requires b.TreeBucket? ==> b.tree.Valid() && TreeRepr(b.tree) !! Repr
      modifies this`Repr, buckets
      ensures Valid() && buckets == old(buckets)
      ensures buckets[i] == b && Repr == old(Repr) + (if b.TreeBucket? then TreeRepr(b.tree) else {})
      ensures Model().buckets == old(Model()).buckets[i := BucketModel(b, Repr - {this, buckets})]
    {
      ghost var was := Model();
      buckets[i] := b;
      Repr := Repr + if b.TreeBucket? then TreeRepr(b.tree) else {};
      forall j | 0 <= j < buckets.Length && j != i
        ensures BucketValid(buckets[j], Repr - {this, buckets})
        ensures BucketModel(buckets[j], Repr - {this, buckets}) == was.buckets[j]
      {
        assert old(BucketValid(buckets[j], Repr - {this, buckets}));
      }
      assert BucketValid(buckets[i], Repr - {this, buckets});
    }

    /** The tree of a bucket grows; the buckets themselves are not written. */
    method GrowTree(i: nat, key: int, value: Ptr)
      requires Valid() && i < buckets.Length && buckets[i].TreeBucket?
      modifies Repr - {this, buckets}, this`Repr
      ensures Valid() && fresh(Repr - old(Repr)) && old(Repr) <= Repr
      ensures var b := old(Model()).buckets[i];
              b.TreeBucket?
                  && Model().buckets ==
                      old(Model()).buckets[i := b.(tree := RedBlackModel.Insert(b.tree, Entry(key, value)))]
    {
      hide RBTree.Valid, RBTree.Model, RedBlackModel.Insert;
      ghost var was := Model();
      assert was.buckets[i] == BucketModel(buckets[i], Repr - {this, buckets});
      var tree := buckets[i].tree;
      tree.Insert(key, value);
      Repr := Repr + TreeRepr(tree);
      OthersFrame(i);
      assert BucketValid(buckets[i], Repr - {this, buckets});
    }

    /** The buckets whose trees nobody wrote to, seen in a larger footprint. */
    twostate lemma OthersFrame(i: nat)
      requires old(allocated(this)) && old(Valid()) && buckets == old(buckets) && buckets[..] == old(buckets[..])
      requires i < buckets.Length && buckets[i].TreeBucket? && old(Repr) <= Repr
      requires forall o :: o in old(Repr) - {this, buckets} - old(TreeRepr(buckets[i].tree)) ==> unchanged(o)
      ensures forall j :: 0 <= j < buckets.Length && j != i ==>
                && BucketValid(buckets[j], Repr - {this, buckets})
                && old(BucketValid(buckets[j], Repr - {this, buckets}))
                && BucketModel(buckets[j], Repr - {this, buckets})
                     == old(BucketModel(buckets[j], Repr - {this, buckets}))
    {
      forall j | 0 <= j < buckets.Length && j != i
        ensures BucketValid(buckets[j], Repr - {this, buckets})
        ensures old(BucketValid(buckets[j], Repr - {this, buckets}))
        ensures BucketModel(buckets[j], Repr - {this, buckets}) == old(BucketModel(buckets[j], Repr - {this, buckets}))
      {
        assert old(BucketValid(buckets[j], Repr - {this, buckets}));
        assert buckets[j] == old(buckets[..])[j] && buckets[i] == old(buckets[..])[i];
        if buckets[j].TreeBucket? {
          assert old(TreeRepr(buckets[j].tree)) !! old(TreeRepr(buckets[i].tree));
          forall o | o in old(TreeRepr(buckets[j].tree)) ensures unchanged(o) {
            assert o in old(Repr) - {this, buckets} - old(TreeRepr(buckets[i].tree));
          }
        }
        BucketFrame(buckets[j], old(Repr) - {this, buckets}, Repr - {this, buckets});
      }
    }

    /** The key's bucket is a tree: it grows by one entry, whether or not the key is there. */
    method InsertIntoTree(i: nat, key: int, value: Ptr)
      requires Valid() && i < buckets.Length && buckets[i].TreeBucket?
      modifies Repr
      ensures Valid() && fresh(Repr - old(Repr)) && elementCount == old(elementCount) && buckets == old(buckets)
      ensures Model().buckets == old(Model()).buckets[i := M.BucketInsert(old(Model()).buckets[i], Entry(key, value))]
    {
      ghost var was := Model().buckets;
      GrowTree(i, key, value);
      ghost var mid := Model().buckets;
      assert mid[i] == BucketModel(buckets[i], Repr - {this, buckets});
      SetSize(i, buckets[i].size + 1);
      assert Model().buckets == was[i := M.BucketInsert(was[i], Entry(key, value))];
    }

    /** The tree bucket counts the entry even if its node cannot be allocated. */
    method CountIntoTree(i: nat, key: int, value: Ptr, granted: bool)
      requires Valid() && i < buckets.Length && buckets[i].TreeBucket?
      modifies Repr
      ensures Valid() && fresh(Repr - old(Repr)) && elementCount == old(elementCount) && buckets == old(buckets)
      ensures var b := old(Model()).buckets[i];
              && b.TreeBucket?
              && Model().buckets == old(Model()).buckets[i :=
                   if granted then M.BucketInsert(b, Entry(key, value)) else b.(size := b.size + 1)]
    {
      assert Model().buckets[i] == BucketModel(buckets[i], Repr - {this, buckets});
      if granted {
        InsertIntoTree(i, key, value);
      } else {
        SetSize(i, buckets[i].size + 1);
      }
    }

    /** Only the recorded size of a bucket changes. */
    method SetSize(i: nat, size: nat)
      requires Valid() && i < buckets.Length && buckets[i].TreeBucket?
      modifies buckets
      ensures Valid() && buckets[i].TreeBucket?
      ensures Model().buckets == old(Model()).buckets[i := M.TreeBucket(old(buckets[i].tree.Model()), size)]
    {
      ghost var was := Model();
      buckets[i] := TreeBucket(buckets[i].tree, size);
      forall j | 0 <= j < buckets.Length
        ensures BucketValid(buckets[j], Repr - {this, buckets})
        ensures j != i ==> BucketModel(buckets[j], Repr - {this, buckets}) == was.buckets[j]
      {
        assert old(BucketValid(buckets[j], Repr - {this, buckets}));
      }
    }

    /** A bucket that has become too long turns into a tree. */
    method ConvertBucket(i: nat)
      requires Valid() && i < buckets.Length && buckets[i].ListBucket?
      modifies this`Repr, buckets
      ensures Valid() && fresh(Repr - old(Repr)) && buckets == old(buckets)
      ensures var b := old(buckets[i]);
              Model().buckets == old(Model()).buckets[i := M.TreeBucket(M.Convert(b.list), b.size)]
    {
      var tree := Convert(buckets[i].list);
      SetBucket(i, TreeBucket(tree, buckets[i].size));
    }

    /** The key is not in the list: a new node at its head. */
    method PushNode(i: nat, key: int, value: Ptr)
      requires Valid() && i < buckets.Length && buckets[i].ListBucket?
      requires M.IndexOf(buckets[i].list, key) == |buckets[i].list|
      modifies this`Repr, buckets
      ensures Valid() && fresh(Repr - old(Repr)) && buckets == old(buckets)
      ensures Model().buckets == old(Model()).buckets[i := M.BucketInsert(old(Model()).buckets[i], Entry(key, value))]
    {
      ghost var was := Model().buckets;
      var ListBucket(list, size) := buckets[i];
      assert was[i] == M.ListBucket(list, size);
      var b := ListBucket([Entry(key, value)] + list, size + 1);
      SetBucket(i, b);
      if size + 1 > M.LIST_THRESHOLD {
        ghost var mid := Model().buckets;
        ConvertBucket(i);
        ghost var c := M.BucketInsert(was[i], Entry(key, value));
        assert mid[i := c] == was[i := c];
      }
    }

    method InsertIntoList(i: nat, key: int, value: Ptr) returns (added: bool)
      requires Valid() && i < buckets.Length && buckets[i].ListBucket?
      modifies this`Repr, buckets
      ensures Valid() && fresh(Repr - old(Repr)) && buckets == old(buckets)
      ensures var b := old(Model()).buckets[i];
              && Model().buckets == old(Model()).buckets[i := M.BucketInsert(b, Entry(key, value))]
              && (added <==> M.BucketInsert(b, Entry(key, value)).size != b.size)
    {
      var ListBucket(list, size) := buckets[i];
      assert Model().buckets[i] == M.ListBucket(list, size);
      var j := ListIndex(list, key);
      added := j == |list|;
      if j < |list| {
        SetBucket(i, ListBucket(list[j := Entry(key, value)], size));
      } else {
        PushNode(i, key, value);
      }
    }

    /** `granted` says whether the node can be allocated, which is tried before anything else. */
    method Insert(key: int, value: Ptr, granted: bool)
      requires Valid()
      modifies Repr
      ensures Valid() && fresh(Repr - old(Repr))
      ensures Model() == if granted then M.TableInsert(hash, old(Model()), Entry(key, value))
          else M.TableRefuse(hash, old(Model()), key)
    {
      hide M.Convert, M.IndexOf;
      var i := hash(key, buckets.Length);
      assert Model().buckets[i] == BucketModel(buckets[i], Repr - {this, buckets});
      if buckets[i].ListBucket? {
        if granted {
          var added := InsertIntoList(i, key, value);
          if added {
            elementCount := elementCount + 1;
          }
        }
      } else {
        CountIntoTree(i, key, value, granted);
        elementCount := elementCount + 1;
      }
    }

    method RehashBucket(i: nat, newBuckets: array<Bucket>)
      requires Valid() && i < buckets.Length && newBuckets !in Repr
      requires 0 < newBuckets.Length && AllLists(newBuckets)
      modifies newBuckets
      ensures AllLists(newBuckets)
      ensures ListModels(newBuckets) ==
          M.PushAll(hash, old(ListModels(newBuckets)), M.RehashOrder(Model().buckets[i]))
    {
      assert Model().buckets[i] == BucketModel(buckets[i], Repr - {this, buckets})
          && BucketValid(buckets[i], Repr - {this, buckets});
      match buckets[i] {
        case ListBucket(list, _) => RehashList(hash, list, newBuckets);
        case TreeBucket(tree, _) => RehashTree(hash, tree, tree.root, newBuckets, tree.Model());
      }
    }

    method RehashBuckets(newBuckets: array<Bucket>)
      requires Valid() && newBuckets !in Repr
      requires 0 < newBuckets.Length && AllLists(newBuckets)
      modifies newBuckets
      ensures AllLists(newBuckets)
      ensures ListModels(newBuckets) == M.RehashAll(hash, old(ListModels(newBuckets)), Model().buckets)
    {
      hide M.PushAll, M.RehashOrder, M.IndexesBuckets;
      ghost var was := Model().buckets;
      assert was[..0] == [];
      for i := 0 to buckets.Length
        invariant Valid() && was == Model().buckets
        invariant AllLists(newBuckets)
        invariant ListModels(newBuckets) == M.RehashAll(hash, old(ListModels(newBuckets)), was[..i])
      {
        assert was[..i + 1][..i] == was[..i];
        RehashBucket(i, newBuckets);
      }
      assert was[..buckets.Length] == was;
    }

    method Adopt(newBuckets: array<Bucket>)
      requires Valid() && newBuckets !in Repr && 0 < newBuckets.Length && AllLists(newBuckets)
      modifies this
      ensures Valid() && Repr == old(Repr) + {newBuckets}
      ensures Model() == M.Table(ListModels(newBuckets), old(elementCount))
    {
      buckets := newBuckets;
      Repr := Repr + {newBuckets};
      assert Model().buckets == ListModels(newBuckets);
    }

    /** Twice the buckets, every entry rehashed; the old trees stay where they are. */
    method Resize()
      requires Valid()
      modifies this
      ensures Valid() && fresh(Repr - old(Repr))
      ensures Model() == M.Resize(hash, old(Model()))
    {
      hide M.RehashAll, M.IndexesBuckets;
      var newBuckets := new Bucket[2 * buckets.Length](_ => ListBucket([], 0));
      assert ListModels(newBuckets) == M.EmptyBuckets(2 * buckets.Length);
      RehashBuckets(newBuckets);
      Adopt(newBuckets);
    }
  }
}
