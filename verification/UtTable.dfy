/**
 The operations of other/lu_hash.h on a whole table.
 */
module UtTable {
  import opened UtBits
  import opened UtSort
  import opened UtHandles
  import opened UtLists
  import opened UtHash

  /** The bit of the Bloom filter for a hash value; without a filter the test is always true. */
  predicate Bloomed(bits: seq<bool>, hashv: nat) {
    |bits| == 0 || bits[And(hashv, |bits| - 1)]
  }

  method EmptyBuckets(n: nat) returns (bs: array<Bucket>)
    ensures fresh(bs) && bs.Length == n && forall i :: 0 <= i < n ==> bs[i] == Bucket(null, 0, 0)
  {
    bs := new Bucket[n](i => Bucket(null, 0, 0));
  }

  method EmptyFilter(n: nat) returns (bits: array<bool>)
    ensures fresh(bits) && bits.Length == n
  {
    bits := new bool[n](i => false);
  }

  class Table {
    const hash: Key -> nat
    const bloomBits: nat
    var head: Handle?
    var tail: Handle?
    var buckets: array<Bucket>
    var log2NumBuckets: nat
    var numItems: nat
    var idealChainMaxlen: nat
    var nonidealItems: nat
    var ineffExpands: nat
    var noexpand: bool
    var bloom: array<bool>
    /** The items in insertion order, and the bucket chains. */
    ghost var order: seq<Handle>
    ghost var chains: seq<seq<Handle>>

    /** No item; `bloomBits` is the size of the filter, 0 without one. */
    constructor (hash: Key -> nat, bloomBits: nat)
      ensures Valid() && order == [] && this.hash == hash && fresh(buckets) && fresh(bloom)
    {
      this.hash := hash;
      this.bloomBits := bloomBits;
      head, tail, log2NumBuckets, numItems := null, null, 0, 0;
      idealChainMaxlen, nonidealItems, ineffExpands, noexpand := 0, 0, 0, false;
      buckets := new Bucket[0];
      bloom := new bool[0];
      order, chains := [], [];
    }

    /** Every item has the hash value of its key, and its bit in the filter. */
    ghost predicate Hashed(s: set<Handle>)
      reads this, bloom, s
    {
      forall h {:trigger h.hashv} :: h in s ==> h.hashv == hash(h.key) && Bloomed(bloom[..], h.hashv)
    }

    /** The list in insertion order, with its two ends. */
    ghost predicate Threaded()
      reads this, order
    {
      Distinct(order) && Linked(order) && head == At(order, 0) && tail == At(order, |order| - 1)
    }

    ghost predicate Indexed(items: set<Handle>)
      reads this, buckets, bloom, items
    {
      && Index(buckets[..], chains, items) && numItems == |items| && Hashed(items)
      && buckets.Length == Pow2(log2NumBuckets)
    }

    /** What HASH_FSCK checks: both orders hold the same items, with right links and counts. */
    ghost predicate Valid()
      reads this, buckets, bloom, order, Items(order)
    {
      if order == [] then head == null
      else Threaded() && Indexed(Items(order))
    }
  
    /** A table without items, of 32 buckets. */
    ghost predicate Unused()
      reads this, buckets
    {
      && buckets.Length == 32 == |chains| && numItems == 0 && !noexpand && ineffExpands == 0
      && forall i :: 0 <= i < 32 ==> chains[i] == [] && buckets[i] == Bucket(null, 0, 0)
    }

    /** HASH_MAKE_TABLE, for the first item. */
    method MakeTable(h: Handle)
      modifies this
      ensures fresh(buckets) && fresh(bloom) && Indexed({}) && Unused()
      ensures tail == h && head == old(head) && order == old(order)
    {
      InitialSize();
      tail := h;
      Blank(INITIAL_NUM_BUCKETS, INITIAL_NUM_BUCKETS_LOG2);
    }

    /** Empty buckets, an empty filter, and statistics to match. */
    method Blank(n: nat, log2: nat)
      requires n == Pow2(log2)
      modifies this
      ensures fresh(buckets) && fresh(bloom) && Indexed({}) && (n == 32 ==> Unused())
      ensures tail == old(tail) && head == old(head) && order == old(order)
    {
      hide Index, NonIdeal, Bloomed, Pow2, Unused, Total;
      buckets := EmptyBuckets(n);
      log2NumBuckets := log2;
      numItems := 0;
      idealChainMaxlen, nonidealItems, ineffExpands, noexpand := 0, 0, 0, false;
      bloom := EmptyFilter(bloomBits);
      chains := seq(n, i => []);
      EmptyIndex(buckets[..], chains);
      if n == 32 { NoneUsed(); }
    }

    lemma NoneUsed()
      requires buckets.Length == 32 == |chains| && numItems == 0 && !noexpand && ineffExpands == 0
      requires forall i :: 0 <= i < 32 ==> chains[i] == [] && buckets[i] == Bucket(null, 0, 0)
      ensures Unused()
    {
    }

    /** HASH_EXPAND_BUCKETS. */
    method ExpandBuckets(ghost items: set<Handle>)
      requires Indexed(items)
      modifies this, items`hhPrev, items`hhNext
      ensures Indexed(items) && fresh(buckets) && buckets.Length == 2 * old(buckets.Length)
      ensures IsCeiling(idealChainMaxlen, numItems, buckets.Length)
      ensures nonidealItems == NonIdeal(chains, idealChainMaxlen)
      ensures FiledAll(buckets[..], chains, Flat(old(chains)), idealChainMaxlen)
      ensures log2NumBuckets == old(log2NumBuckets) + 1 && numItems == old(numItems)
      ensures ineffExpands == (if nonidealItems > Shr(numItems, 1) then old(ineffExpands) + 1 else 0)
      ensures noexpand == (old(noexpand) || ineffExpands > 1)
      ensures head == old(head) && tail == old(tail) && order == old(order) && bloom == old(bloom)
    {
      hide Index, NonIdeal, IsCeiling, Bloomed, Hashed, FiledAll;
      Spread(items);
      ineffExpands := if nonidealItems > Shr(numItems, 1) then ineffExpands + 1 else 0;
      if ineffExpands > 1 {
        noexpand := true;
      }
      HashedFewer(items, items);
    }

    /** The items move into twice as many buckets. */
    method Spread(ghost items: set<Handle>)
      requires Indexed(items)
      modifies this`idealChainMaxlen, this`nonidealItems, this`chains, this`log2NumBuckets, this`buckets
      modifies items`hhPrev, items`hhNext
      ensures Indexed(items) && fresh(buckets) && buckets.Length == 2 * old(buckets.Length)
      ensures IsCeiling(idealChainMaxlen, numItems, buckets.Length)
      ensures nonidealItems == NonIdeal(chains, idealChainMaxlen)
      ensures FiledAll(buckets[..], chains, Flat(old(chains)), idealChainMaxlen)
      ensures log2NumBuckets == old(log2NumBuckets) + 1
    {
      hide Index, NonIdeal, IsCeiling, Bloomed, Hashed, IdealLength, FiledAll;
      IdealIsCeiling(numItems, log2NumBuckets, buckets.Length);
      idealChainMaxlen := IdealLength(numItems, log2NumBuckets, buckets.Length);
      var newBuckets;
      newBuckets, nonidealItems, chains := Redistribute(buckets, idealChainMaxlen, chains, items);
      log2NumBuckets := log2NumBuckets + 1;
      buckets := newBuckets;
      HashedFewer(items, items);
    }

    /** Is the bucket of a new item so full that the table grows, and was growth not given up? */
    predicate Grows(hashv: nat)
      reads this, buckets
    {
      0 < buckets.Length &&
      var b := buckets[BucketOf(hashv, buckets.Length)];
      b.count + 1 >= (b.expandMult + 1) * 10 && !noexpand
    }

    /** The chains with the item at the head of its own. */
    ghost function Pushed(h: Handle, hashv: nat): seq<seq<Handle>>
      reads this, buckets
    {
      if 0 < buckets.Length == |chains| then
        var i := BucketOf(hashv, buckets.Length);
        chains[i := [h] + chains[i]]
      else chains
    }

    /** The item went to the head of its chain; the table was doubled exactly if it was to grow. */
    twostate predicate Took(h: Handle, hashv: nat)
      reads *
    {
      && numItems == old(numItems) + 1
      && if old(Grows(hashv)) then
           && fresh(buckets) && buckets.Length == 2 * old(buckets.Length)
           && IsCeiling(idealChainMaxlen, numItems, buckets.Length)
           && nonidealItems == NonIdeal(chains, idealChainMaxlen)
           && FiledAll(buckets[..], chains, Flat(old(Pushed(h, hashv))), idealChainMaxlen)
           && ineffExpands == (if nonidealItems > Shr(numItems, 1) then old(ineffExpands) + 1 else 0)
           && noexpand == (ineffExpands > 1)
         else
           && buckets == old(buckets) && ineffExpands == old(ineffExpands) && noexpand == old(noexpand)
           && chains == old(Pushed(h, hashv))
           && forall j :: 0 <= j < buckets.Length ==> buckets[j].expandMult == old(buckets[j].expandMult)
    }

    /** HASH_ADD_TO_TABLE: count, file, maybe grow, and set the bit in the filter. */
    method AddToTable(h: Handle, ghost items: set<Handle>)
      requires Indexed(items) && h !in items && h.hashv == hash(h.key)
      modifies this, buckets, bloom, items`hhPrev, items`hhNext, h`hhPrev, h`hhNext
      ensures Indexed(items + {h}) && Took(h, h.hashv)
      ensures head == old(head) && tail == old(tail) && order == old(order) && bloom == old(bloom)
    {
      hide Index, NonIdeal, IsCeiling, Indexed, FiledAll;
      IndexSizesHere(items);
      var i := FileItem(h, items);
      if buckets[i].count >= (buckets[i].expandMult + 1) * BKT_CAPACITY_THRESH && !noexpand {
        ExpandBuckets(items + {h});
      }
    }

    lemma IndexSizesHere(items: set<Handle>)
      requires Indexed(items)
      ensures 0 < buckets.Length == |chains|
    {
      IndexSizes(buckets[..], chains, items);
    }

    /** The item goes to the head of its chain. */
    method PushChain(h: Handle, ghost items: set<Handle>) returns (i: nat)
      requires Index(buckets[..], chains, items) && h !in items
      modifies this`chains, buckets, items`hhPrev, h`hhPrev, h`hhNext
      ensures Index(buckets[..], chains, items + {h}) && 0 < buckets.Length == |chains| == old(|chains|)
      ensures i == BucketOf(h.hashv, buckets.Length) && chains == old(chains)[i := [h] + old(chains)[i]]
      ensures buckets[i].count == old(buckets[..])[i].count + 1
      ensures forall j :: 0 <= j < buckets.Length ==> buckets[j].expandMult == old(buckets[j].expandMult)
    {
      hide Index, Chained, Placed, Distinct;
      IndexSizes(buckets[..], chains, items);
      i := BucketOf(h.hashv, buckets.Length);
      ChainFacts(buckets[..], chains, items, i);
      PushItem(buckets, h, chains, items);
      chains := chains[i := [h] + chains[i]];
      ChainFacts(buckets[..], chains, items + {h}, i);
    }

    /** The item is counted, filed in its bucket and marked in the filter. */
    method FileItem(h: Handle, ghost items: set<Handle>) returns (i: nat)
      requires Indexed(items) && h !in items && h.hashv == hash(h.key)
      modifies this`numItems, this`chains, buckets, bloom, items`hhPrev, h`hhPrev, h`hhNext
      ensures Indexed(items + {h}) && numItems == old(numItems) + 1 && 0 < buckets.Length == |chains| == old(|chains|)
      ensures i == BucketOf(h.hashv, buckets.Length) && chains == old(chains)[i := [h] + old(chains)[i]]
      ensures buckets[i].count == old(buckets[..])[i].count + 1
      ensures forall j :: 0 <= j < buckets.Length ==> buckets[j].expandMult == old(buckets[j].expandMult)
    {
      hide Index, Bloomed, BucketOf, Pow2;
      numItems := numItems + 1;
      i := PushChain(h, items);
      SetBloom(h, items);
    }

    /** HASH_BLOOM_ADD. */
    method SetBloom(h: Handle, ghost items: set<Handle>)
      requires Hashed(items) && h.hashv == hash(h.key)
      modifies bloom
      ensures Hashed(items + {h})
      ensures bloom.Length != 0 ==> bloom[..] == old(bloom[..])[And(h.hashv, bloom.Length - 1) := true]
    {
      if bloom.Length != 0 {
        bloom[And(h.hashv, bloom.Length - 1)] := true;
        forall x {:trigger x.hashv} | x in items ensures Bloomed(bloom[..], x.hashv) {
          assert old(Bloomed(bloom[..], x.hashv));
        }
      }
    }

    // -------------------------------------------------------------------------------------
    // The operations
    // -------------------------------------------------------------------------------------

    /** The index does not depend on the insertion order. */
    twostate lemma IndexedFrame(new items: set<Handle>)
      requires old(allocated(this)) && old(allocated(items)) && old(Indexed(items))
      requires buckets == old(buckets) && bloom == old(bloom) && chains == old(chains)
      requires numItems == old(numItems) && log2NumBuckets == old(log2NumBuckets)
      requires buckets[..] == old(buckets[..]) && bloom[..] == old(bloom[..])
      requires forall h :: h in items ==>
          h.hhNext == old(h.hhNext) && h.hhPrev == old(h.hhPrev) && h.hashv == old(h.hashv)
      ensures Indexed(items)
    {
      IndexFrame(buckets[..], chains, items);
      hide Index;
      forall h {:trigger h.hashv} | h in items ensures h.hashv == hash(h.key) && Bloomed(bloom[..], h.hashv) {
        assert h.hashv == old(h.hashv);
      }
    }

    /** The first item: it gets a table of its own. */
    method Start(h: Handle)
      requires order == [] && h.hashv == hash(h.key)
      modifies this, h
      ensures order == [h] && Threaded() && Indexed({}) && fresh(buckets) && fresh(bloom) && h.hashv == hash(h.key)
      ensures Unused()
    {
      hide Index, Hashed, Linked, Distinct;
      h.next, h.prev := null, null;
      MakeTable(h);
      label Made:
      head := h;
      order := [h];
      SingleLinked(h);
      IndexedFrame@Made({});
    }

    /** Chains and counters are as before. */
    twostate predicate Counters()
      reads this
    {
      && chains == old(chains) && numItems == old(numItems)
      && ineffExpands == old(ineffExpands) && noexpand == old(noexpand)
    }

    /** HASH_APPEND_LIST: the item goes to the end of the list. */
    method Append(h: Handle)
      requires order != [] && Valid() && h !in order && h.hashv == hash(h.key)
      modifies this, Items(order)`next, h`next, h`prev
      ensures order == old(order) + [h] && Threaded() && Indexed(Items(old(order)))
      ensures buckets == old(buckets) && bloom == old(bloom) && Counters()
    {
      hide Index, Hashed, Items, Linked, Distinct;
      ItemsFacts(order);
      LinkLast(tail, h, order);
      tail := h;
      order := order + [h];
      IndexedFrame(Items(old(order)));
    }

    /** An item that is already in the list is filed in its bucket. */
    method File(h: Handle, ghost items: set<Handle>)
      requires Threaded() && Indexed(items) && h !in items && Items(order) == items + {h} && h.hashv == hash(h.key)
      modifies this, buckets, bloom, items`hhPrev, items`hhNext, h`hhPrev, h`hhNext
      ensures Valid() && order == old(order) && (buckets == old(buckets) || fresh(buckets)) && bloom == old(bloom)
      ensures Took(h, h.hashv)
    {
      hide Index, Hashed, Items, Linked, Distinct, NonIdeal, FiledAll, IsCeiling;
      ItemsFacts(order);
      AddToTable(h, items);
      LinkedFrame(order);
    }

    /** The table of a first item: 32 buckets, the item alone in its own. */
    ghost predicate First(h: Handle)
      reads this, buckets
    {
      && numItems == 1 && buckets.Length == 32 == |chains| && !noexpand && ineffExpands == 0
      && forall i :: 0 <= i < 32 ==> chains[i] == if i == BucketOf(hash(h.key), 32) then [h] else []
    }

    /** HASH_ADD: the item goes to the end of the insertion order. */
    method Add(h: Handle)
      requires Valid() && h !in order
      modifies this, buckets, bloom, Items(order), h
      ensures Valid() && order == old(order) + [h]
      ensures (buckets == old(buckets) || fresh(buckets)) && (bloom == old(bloom) || fresh(bloom))
      ensures old(order) != [] ==> Took(h, hash(h.key))
      ensures old(order) == [] ==> First(h)
    {
      hide Threaded, Indexed, Items;
      ItemsFacts(order);
      HeadOk();
      HashSet(h);
      if head == null { Start(h); } else { Append(h); }
      assert order == old(order) + [h];
      ItemsSnoc(old(order), h);
      File(h, Items(old(order)));
    }

    lemma HeadOk()
      requires Valid()
      ensures head == null <==> order == []
    {
    }

    /** Records the hash value of a new item. */
    method HashSet(h: Handle)
      requires Valid() && h !in order
      modifies h`hashv
      ensures Valid() && h.hashv == hash(h.key)
    {
      hide Index, Hashed, Items, Linked, Distinct;
      ItemsFacts(order);
      h.hashv := hash(h.key);
      if order != [] {
        LinkedFrame(order);
        IndexedFrame(Items(order));
      }
    }

    /** The list walk of an in-order addition: the first item that compares greater. */
    method FindPlace(h: Handle, cmp: (Handle, Handle) -> int) returns (iter: Handle?)
      requires order != [] && Valid()
      ensures iter == At(order, Place(order, h, cmp)) && Valid()
    {
      iter := head;
      ghost var i := 0;
      while cmp(iter, h) <= 0
        invariant 0 <= i < |order| && iter == order[i] && Place(order, h, cmp) == i + Place(order[i..], h, cmp)
        decreases |order| - i
      {
        assert order[i..][1..] == order[i + 1..];
        assert order[i].next == At(order, i + 1);
        iter := iter.next;
        i := i + 1;
        if iter == null { return; }
      }
    }

    /** The links of an in-order addition. */
    method Insert(h: Handle, iter: Handle, ghost i: nat)
      requires i < |order| && iter == order[i] && Valid() && h !in order && h.hashv == hash(h.key)
      modifies this, Items(order)`next, Items(order)`prev, h`next, h`prev
      ensures order == Before(old(order), i, h) && Threaded()
      ensures Indexed(Items(old(order))) && buckets == old(buckets) && bloom == old(bloom) && Counters()
    {
      hide Index, Hashed, Items, Linked, Distinct;
      ItemsFacts(order);
      BeforeDistinct(order, i, h);
      head := LinkBefore(head, iter, h, order, i);
      order := Before(order, i, h);
      IndexedFrame(Items(old(order)));
    }

    /** HASH_ADD_INORDER. */
    method AddInOrder(h: Handle, cmp: (Handle, Handle) -> int)
      requires Valid() && h !in order
      modifies this, buckets, bloom, Items(order), h
      ensures Valid() && order == Before(old(order), Place(old(order), h, cmp), h)
      ensures (buckets == old(buckets) || fresh(buckets)) && (bloom == old(bloom) || fresh(bloom))
      ensures old(order) != [] ==> Took(h, hash(h.key))
      ensures old(order) == [] ==> First(h)
    {
      hide Threaded, Indexed, Items;
      ItemsFacts(order);
      HeadOk();
      HashSet(h);
      if head == null {
        Start(h);
      } else {
        var iter := FindPlace(h, cmp);
        if iter != null {
          Insert(h, iter, Place(order, h, cmp));
        } else {
          Append(h);
        }
      }
      assert order == Before(old(order), Place(old(order), h, cmp), h);
      ItemsBefore(old(order), Place(old(order), h, cmp), h);
      File(h, Items(old(order)));
    }

    /** HASH_DELETE_HH: the last item takes the table with it. */
    method Delete(h: Handle, ghost i: nat)
      requires Valid() && i < |order| && order[i] == h
      modifies this, buckets, Items(order)
      ensures Valid() && order == Without(old(order), i) && buckets == old(buckets) && bloom == old(bloom)
      ensures old(|order|) > 1 ==> 0 < old(|chains|) && Unfiled(old(chains), h, chains)
    {
      hide Index, Items, Linked, Distinct, Unfiled;
      ItemsFacts(order);
      EndsOk(i);
      if h.prev == null && h.next == null {
        head := null;
        order := [];
      } else {
        Remove(h, i);
      }
    }

    lemma EndsOk(i: nat)
      requires Valid() && i < |order|
      ensures order[i].prev == null && order[i].next == null <==> |order| == 1
    {
      assert order[i].next == At(order, i + 1) && order[i].prev == At(order, i - 1);
    }

    /** The item leaves the insertion order. */
    method RemoveLinks(h: Handle, ghost i: nat)
      requires Valid() && i < |order| && order[i] == h && |order| > 1
      modifies this, Items(order)`next, Items(order)`prev
      ensures order == Without(old(order), i) && Threaded()
      ensures Indexed(Items(old(order))) && Items(order) == Items(old(order)) - {h} && chains == old(chains)
      ensures buckets == old(buckets) && bloom == old(bloom)
    {
      hide Index, Hashed, Items, Linked, Distinct;
      ghost var items, before := Items(order), order;
      ItemsFacts(order);
      head, tail := Unlink(head, tail, h, order, i);
      order := Without(order, i);
      ItemsWithout(before, i);
      IndexedFrame(items);
    }

    method Remove(h: Handle, ghost i: nat)
      requires Valid() && i < |order| && order[i] == h && |order| > 1
      modifies this, buckets, Items(order)
      ensures Valid() && order == Without(old(order), i) && buckets == old(buckets) && bloom == old(bloom)
      ensures 0 < old(|chains|) && Unfiled(old(chains), h, chains)
    {
      hide Index, Hashed, Items, Linked, Distinct, Unfiled;
      ghost var items := Items(order);
      ItemsFacts(order);
      RemoveLinks(h, i);
      ItemsFacts(order);
      Unfile(h, items);
    }

    /** The item leaves its bucket. */
    method Unfile(h: Handle, ghost items: set<Handle>)
      requires Threaded() && Indexed(items) && h in items && Items(order) == items - {h} && order != []
      modifies this, buckets, items`hhPrev, items`hhNext
      ensures Valid() && order == old(order) && buckets == old(buckets) && bloom == old(bloom)
      ensures 0 < old(|chains|) && Unfiled(old(chains), h, chains)
    {
      hide Index, Hashed, Items, Linked, Distinct, Unfiled;
      ItemsFacts(order);
      IndexSizesHere(items);
      chains := RemoveItem(buckets, h, chains, items);
      numItems := numItems - 1;
      LinkedFrame(order);
      HashedFewer(items, items - {h});
    }

    twostate lemma HashedFewer(new items: set<Handle>, new items': set<Handle>)
      requires old(allocated(this)) && old(allocated(items)) && old(Hashed(items))
      requires bloom == old(bloom) && bloom[..] == old(bloom[..]) && items' <= items
      requires forall h :: h in items ==> h.hashv == old(h.hashv)
      ensures Hashed(items')
    {
      forall h {:trigger h.hashv} | h in items' ensures h.hashv == hash(h.key) && Bloomed(bloom[..], h.hashv) {
        assert h.hashv == old(h.hashv);
      }
    }

    /** The first item with the key in the chain of the key's bucket. */
    ghost predicate FirstIn(h: Handle, key: Key)
      reads this, buckets
    {
      && 0 < buckets.Length == |chains|
      && var chain := chains[BucketOf(hash(key), buckets.Length)];
         exists k :: 0 <= k < |chain| && chain[k] == h && forall j :: 0 <= j < k ==> chain[j].key != key
    }

    /** HASH_FIND, through the filter if there is one. */
    method Find(key: Key) returns (out: Handle?)
      requires Valid()
      ensures out != null ==> out in order && out.key == key
      ensures out == null ==> forall h :: h in order ==> h.key != key
      ensures out != null ==> FirstIn(out, key)
    {
      out := null;
      if head != null {
        var hashv := hash(key);
        if bloom.Length == 0 || bloom[And(hashv, bloom.Length - 1)] {
          out := FindInBucket(key, hashv);
        } else {
          forall h | h in order ensures h.key != key {
            assert h in Items(order) && (h.hashv == hash(h.key) && Bloomed(bloom[..], h.hashv));
          }
        }
      }
    }

    /** HASH_FIND_IN_BKT. */
    method FindInBucket(key: Key, hashv: nat) returns (out: Handle?)
      requires order != [] && Valid() && hashv == hash(key)
      ensures out != null ==> out in order && out.key == key
      ensures out == null ==> forall h :: h in order ==> h.key != key
      ensures out != null ==> FirstIn(out, key)
    {
      IndexSizes(buckets[..], chains, Items(order));
      var i := BucketOf(hashv, buckets.Length);
      ChainFacts(buckets[..], chains, Items(order), i);
      ghost var chain, k := chains[i], 0;
      out := buckets[i].hhHead;
      while out != null
        invariant 0 <= k <= |chain| && out == At(chain, k)
        invariant forall j :: 0 <= j < k ==> chain[j].key != key
        decreases |chain| - k
      {
        if out.hashv == hashv && out.key == key {
          assert chain[k] in chain;
          return;
        }
        assert chain[k] in chain && chain[k].hhNext == At(chain, k + 1);
        out := out.hhNext;
        k := k + 1;
      }
      forall h | h in order ensures h.key != key {
        assert h in Items(order) && h.hashv == hash(h.key);
        assert h.hashv == hashv ==> h in chain;
      }
    }

    /** HASH_SORT: the list is rearranged, the buckets stay as they are. */
    method Sort(cmp: (Handle, Handle) -> int)
      requires Valid() && |order| < UINT_RANGE
      modifies this, Items(order)
      ensures Valid() && order == UtSort.Sort(old(order), 1, cmp)
      ensures buckets == old(buckets) && bloom == old(bloom) && chains == old(chains)
    {
      hide Index, Hashed, Linked, Distinct, Items;
      ItemsFacts(order);
      if head != null {
        ghost var before := order;
        head, tail := SortList(head, cmp, before);
        order := UtSort.Sort(before, 1, cmp);
        SortItems(before, cmp);
        IndexedFrame(Items(before));
      }
    }
  }

  /** The position of the first item that compares greater than `h`. */
  function Place(s: seq<Handle>, h: Handle, cmp: (Handle, Handle) -> int): (r: nat)
    ensures r <= |s|
  {
    if s == [] || cmp(s[0], h) > 0 then 0 else 1 + Place(s[1..], h, cmp)
  }

  lemma ClassAround(a: seq<Handle>, h: Handle, b: seq<Handle>, x: Handle, cmp: (Handle, Handle) -> int)
    ensures Class(a + [h] + b, x, cmp) == Class(a, x, cmp) + (if Same(h, x, cmp) then [h] else []) + Class(b, x, cmp)
  {
    ClassConcat(a + [h], b, x, cmp);
    ClassConcat(a, [h], x, cmp);
    assert [h][1..] == [];
  }

  lemma PlaceClass(s: seq<Handle>, h: Handle, x: Handle, cmp: (Handle, Handle) -> int)
    requires Ordering(cmp, s + [h]) && Sorted(s, cmp) && x in s + [h]
    ensures Class(Before(s, Place(s, h, cmp), h), x, cmp) == Class(s, x, cmp) + if Same(h, x, cmp) then [h] else []
  {
    hide Class, Place, Sorted, Ordering, Same;
    var i := Place(s, h, cmp);
    PlaceSplits(s, h, cmp);
    assert s == s[..i] + s[i..];
    ClassConcat(s[..i], s[i..], x, cmp);
    ClassAround(s[..i], h, s[i..], x, cmp);
    if Same(h, x, cmp) { GreaterClass(s, i, h, x, cmp); }
  }

  lemma GreaterClass(s: seq<Handle>, i: nat, h: Handle, x: Handle, cmp: (Handle, Handle) -> int)
    requires Ordering(cmp, s + [h]) && x in s + [h] && Same(h, x, cmp) && i <= |s|
    requires forall j :: i <= j < |s| ==> cmp(s[j], h) > 0
    ensures Class(s[i..], x, cmp) == []
  {
    forall j | 0 <= j < |s| - i ensures !Same(s[i..][j], x, cmp) {
      assert s[i + j] in s + [h] && h in s + [h];
    }
    ClassEmpty(s[i..], x, cmp);
  }

  /** An in-order addition keeps a sorted list sorted, behind the items that compare equal. */
  lemma PlaceSorted(s: seq<Handle>, h: Handle, cmp: (Handle, Handle) -> int)
    requires Ordering(cmp, s + [h]) && Sorted(s, cmp)
    ensures var r := Before(s, Place(s, h, cmp), h);
            Sorted(r, cmp) && forall x :: x in s + [h] ==>
                Class(r, x, cmp) == Class(s, x, cmp) + if Same(h, x, cmp) then [h] else []
  {
    hide Class, Place, Ordering, Same;
    PlaceKeepsOrder(s, h, cmp);
    forall x | x in s + [h] ensures Class(Before(s, Place(s, h, cmp), h), x, cmp) ==
        Class(s, x, cmp) + if Same(h, x, cmp) then [h] else [] {
      PlaceClass(s, h, x, cmp);
    }
  }

  lemma GreaterAbove(s: seq<Handle>, i: nat, h: Handle, cmp: (Handle, Handle) -> int)
    requires Ordering(cmp, s + [h]) && i <= |s| && forall j :: i <= j < |s| ==> cmp(s[j], h) > 0
    ensures forall j :: i <= j < |s| ==> cmp(h, s[j]) <= 0
  {
    forall j | i <= j < |s| ensures cmp(h, s[j]) <= 0 {
      assert s[j] in s + [h] && h in s + [h];
    }
  }

  lemma PlaceKeepsOrder(s: seq<Handle>, h: Handle, cmp: (Handle, Handle) -> int)
    requires Ordering(cmp, s + [h]) && Sorted(s, cmp)
    ensures Sorted(Before(s, Place(s, h, cmp), h), cmp)
  {
    hide Place, Ordering;
    var i := Place(s, h, cmp);
    PlaceSplits(s, h, cmp);
    GreaterAbove(s, i, h, cmp);
    var r := Before(s, i, h);
    forall j, k | 0 <= j < k < |r| ensures cmp(r[j], r[k]) <= 0 {
      if k < i { assert r[j] == s[j] && r[k] == s[k]; }
      else if k == i { assert r[j] == s[j] && r[k] == h; }
      else if j < i { assert r[j] == s[j] && r[k] == s[k - 1]; }
      else if j == i { assert r[j] == h && r[k] == s[k - 1]; }
      else { assert r[j] == s[j - 1] && r[k] == s[k - 1]; }
    }
  }

  lemma {:induction false} PlaceSplits(s: seq<Handle>, h: Handle, cmp: (Handle, Handle) -> int)
    requires Ordering(cmp, s + [h]) && Sorted(s, cmp)
    ensures var i := Place(s, h, cmp);
            && (forall j :: 0 <= j < i ==> cmp(s[j], h) <= 0)
            && (forall j :: i <= j < |s| ==> cmp(s[j], h) > 0)
  {
    hide Ordering, Sorted;
    if s != [] {
      if cmp(s[0], h) <= 0 {
        OrderingTail(s, h, cmp);
        PlaceSplits(s[1..], h, cmp);
        assert forall j :: 1 <= j < |s| ==> s[j] == s[1..][j - 1];
      } else {
        AllGreater(s, h, cmp);
      }
    }
  }

  lemma OrderingTail(s: seq<Handle>, h: Handle, cmp: (Handle, Handle) -> int)
    requires Ordering(cmp, s + [h]) && s != []
    ensures Ordering(cmp, s[1..] + [h])
    ensures Sorted(s, cmp) ==> Sorted(s[1..], cmp)
  {
    assert forall x :: x in s[1..] + [h] ==> x in s + [h];
  }

  lemma AllGreater(s: seq<Handle>, h: Handle, cmp: (Handle, Handle) -> int)
    requires Ordering(cmp, s + [h]) && Sorted(s, cmp) && s != [] && cmp(s[0], h) > 0
    ensures forall j :: 0 <= j < |s| ==> cmp(s[j], h) > 0
  {
    forall j | 0 <= j < |s| ensures cmp(s[j], h) > 0 {
      assert s[0] in s + [h] && h in s + [h] && s[j] in s + [h] && (j == 0 || cmp(s[0], s[j]) <= 0);
    }
  }

  lemma ItemsBefore(s: seq<Handle>, i: nat, h: Handle)
    requires i <= |s|
    ensures Items(Before(s, i, h)) == Items(s) + {h}
  {
    forall x ensures x in Before(s, i, h) <==> x in s || x == h {
      assert s == s[..i] + s[i..];
      assert x in s <==> x in s[..i] || x in s[i..];
    }
  }

  lemma ItemsWithout(s: seq<Handle>, i: nat)
    requires i < |s| && Distinct(s)
    ensures Items(Without(s, i)) == Items(s) - {s[i]} && Distinct(Without(s, i))
  {
    WithoutDistinct(s, i);
  }

  lemma SortItems(s: seq<Handle>, cmp: (Handle, Handle) -> int)
    ensures Items(UtSort.Sort(s, 1, cmp)) == Items(s)
  {
    SortPermutes(s, 1, cmp);
    var r := UtSort.Sort(s, 1, cmp);
    PermutedInside(s, r);
    assert Items(r) <= Items(s) && Items(s) <= Items(r);
  }

  lemma ItemsSnoc(s: seq<Handle>, h: Handle)
    ensures Items(s + [h]) == Items(s) + {h}
  {
  }

  lemma SingleLinked(h: Handle)
    requires h.next == null && h.prev == null
    ensures Linked([h]) && Distinct([h])
  {
  }

  lemma InitialSize()
    ensures Pow2(INITIAL_NUM_BUCKETS_LOG2) == INITIAL_NUM_BUCKETS
  {
    assert Pow2(3) == 8;
  }

  /** The shift and the mask by which the item count is divided by the doubled bucket count. */
  function IdealLength(numItems: nat, log2: nat, numBuckets: nat): nat
    requires 0 < numBuckets
  {
    Shr(numItems, log2 + 1) + if And(numItems, 2 * numBuckets - 1) != 0 then 1 else 0
  }

  lemma IdealIsCeiling(numItems: nat, log2: nat, numBuckets: nat)
    requires numBuckets == Pow2(log2)
    ensures IsCeiling(IdealLength(numItems, log2, numBuckets), numItems, 2 * numBuckets)
  {
    hide Shr, And;
    QuotientAndRemainder(numItems, log2 + 1);
    assert Pow2(log2 + 1) == 2 * numBuckets;
    Ceiling(numItems, 2 * numBuckets, Shr(numItems, log2 + 1), And(numItems, 2 * numBuckets - 1));
  }

  /** `c` is `n` divided by `d`, rounded up. */
  predicate IsCeiling(c: nat, n: nat, d: nat) {
    n <= c * d && (c == 0 || (c - 1) * d < n)
  }

  lemma Ceiling(n: nat, d: nat, q: nat, r: nat)
    requires r < d && n == q * d + r
    ensures IsCeiling(q + (if r != 0 then 1 else 0), n, d)
  {
    assert (q + 1) * d == q * d + d;
    if q > 0 { assert (q - 1) * d == q * d - d; }
  }
}
