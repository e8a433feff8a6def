/**
 The hash table of other/lu_hash.h: buckets of handles, the list in insertion order that threads
 through them, bucket doubling and the Bloom filter.
 */
module UtHash {
  import opened UtBits
  import opened UtHandles
  import opened UtLists

  /** UT_hash_bucket. */
  datatype Bucket = Bucket(hhHead: Handle?, count: nat, expandMult: nat)

  const INITIAL_NUM_BUCKETS_LOG2 := 5
  const INITIAL_NUM_BUCKETS := 32
  const BKT_CAPACITY_THRESH := 10

  function Total(chains: seq<seq<Handle>>): nat {
    if chains == [] then 0 else |chains[0]| + Total(chains[1..])
  }

  lemma {:induction false} TotalUpdate(chains: seq<seq<Handle>>, i: nat, c: seq<Handle>)
    requires i < |chains|
    ensures Total(chains[i := c]) == Total(chains) - |chains[i]| + |c|
    ensures |chains[i]| <= Total(chains)
  {
    if i == 0 {
      assert chains[i := c][1..] == chains[1..];
    } else {
      TotalUpdate(chains[1..], i - 1, c);
      assert chains[i := c][1..] == chains[1..][i - 1 := c];
    }
  }

  lemma {:induction false} TotalEmpty(chains: seq<seq<Handle>>)
    requires forall i :: 0 <= i < |chains| ==> chains[i] == []
    ensures Total(chains) == 0
  {
    if chains != [] { TotalEmpty(chains[1..]); }
  }

  /** HASH_TO_BKT. */
  function BucketOf(hashv: nat, numBuckets: nat): (r: nat)
    requires 0 < numBuckets
    ensures r < numBuckets
  {
    And(hashv, numBuckets - 1)
  }

  /** The bucket is the remainder of the hash value. */
  lemma BucketIsRemainder(hashv: nat, k: nat)
    ensures 0 < Pow2(k) && BucketOf(hashv, Pow2(k)) == hashv % Pow2(k)
  {
    QuotientAndRemainder(hashv, k);
    RemainderUnique(hashv, Shr(hashv, k), Pow2(k), And(hashv, Pow2(k) - 1));
  }

  lemma RemainderUnique(n: nat, q: nat, d: nat, r: nat)
    requires n == q * d + r && r < d
    ensures r == n % d
  {
    assert n / d == q by {
      if n / d < q { AtMost(n / d + 1, q, d); } else if n / d > q { AtMost(q + 1, n / d, d); }
    }
  }

  /** One bucket and its chain, as HASH_FSCK checks it. */
  predicate BucketOk(b: Bucket, chain: seq<Handle>)
    reads chain
  {
    Chained(chain) && Distinct(chain) && b.hhHead == At(chain, 0) && b.count == |chain|
  }

  /** The items of a chain all belong into bucket `i` of `n`. */
  predicate Placed(chain: seq<Handle>, i: nat, n: nat, items: set<Handle>)
    requires 0 < n
    reads items
  {
    forall k :: 0 <= k < |chain| ==> chain[k] in items && BucketOf(chain[k].hashv, n) == i
  }

  /** The buckets hold exactly `items`, each in the bucket of its hash value. */
  predicate Index(bs: seq<Bucket>, chains: seq<seq<Handle>>, items: set<Handle>)
    reads items
  {
    && 0 < |bs| == |chains| && Total(chains) == |items|
    && (forall i :: 0 <= i < |chains| ==> Placed(chains[i], i, |chains|, items) && BucketOk(bs[i], chains[i]))
    && (forall h {:trigger h.hashv} :: h in items ==> h in chains[BucketOf(h.hashv, |chains|)])
  }

  lemma IndexApart(bs: seq<Bucket>, chains: seq<seq<Handle>>, items: set<Handle>, i: nat, j: nat, h: Handle)
    requires Index(bs, chains, items) && i < |chains| && j < |chains| && h in chains[i] && h in chains[j]
    ensures i == j && h in items && BucketOf(h.hashv, |chains|) == i
  {
    assert Placed(chains[i], i, |chains|, items) && Placed(chains[j], j, |chains|, items);
  }

  /** A chain whose handles kept their bucket links is still in order. */
  twostate lemma BucketFrame(new b: Bucket, new chain: seq<Handle>)
    requires old(allocated(b)) && old(allocated(chain))
    requires old(BucketOk(b, chain))
    requires forall h :: h in chain ==> h.hhNext == old(h.hhNext) && h.hhPrev == old(h.hhPrev)
    ensures BucketOk(b, chain)
  {
    assert forall i :: 0 <= i < |chain| ==> chain[i] in chain;
  }

  /** Nothing the index depends on changed. */
  twostate lemma IndexFrame(new bs: seq<Bucket>, new chains: seq<seq<Handle>>, new items: set<Handle>)
    requires old(allocated(bs)) && old(allocated(chains)) && old(allocated(items))
    requires old(Index(bs, chains, items))
    requires forall h :: h in items ==>
        h.hhNext == old(h.hhNext) && h.hhPrev == old(h.hhPrev) && h.hashv == old(h.hashv)
    ensures Index(bs, chains, items)
  {
    forall i | 0 <= i < |chains| ensures BucketOk(bs[i], chains[i]) && Placed(chains[i], i, |chains|, items) {
      assert old(Placed(chains[i], i, |chains|, items));
      BucketFrame(bs[i], chains[i]);
    }
  }

  /** Everything but bucket `i` is still as the index wants it. */
  predicate OthersOk(bs: seq<Bucket>, chains: seq<seq<Handle>>, items: set<Handle>, i: nat)
    reads items
  {
    && i < |bs| == |chains| && Total(chains) == |items|
    && (forall j :: 0 <= j < |chains| && j != i ==> Placed(chains[j], j, |chains|, items) && BucketOk(bs[j],
        chains[j]))
    && (forall j :: 0 <= j < |chains| && j != i ==> Apart(chains[j], chains[i]))
    && (forall h {:trigger h.hashv} :: h in items ==> h in chains[BucketOf(h.hashv, |chains|)])
  }

  twostate lemma OthersKept(new bs: seq<Bucket>, new chains: seq<seq<Handle>>, new items: set<Handle>, i: nat)
    requires old(allocated(bs)) && old(allocated(chains)) && old(allocated(items))
    requires old(Index(bs, chains, items)) && i < |chains|
    requires forall h :: h in items ==> h.hashv == old(h.hashv)
    requires forall h :: h in items && h !in chains[i] ==> h.hhNext == old(h.hhNext) && h.hhPrev == old(h.hhPrev)
    ensures OthersOk(bs, chains, items, i)
  {
    forall j | 0 <= j < |chains| && j != i
      ensures Placed(chains[j], j, |chains|, items) && BucketOk(bs[j], chains[j])
      ensures Apart(chains[j], chains[i])
    {
      assert old(Placed(chains[i], i, |chains|, items)) && old(Placed(chains[j], j, |chains|, items));
      BucketFrame(bs[j], chains[j]);
    }
    StillFiled(bs, chains, items);
  }

  twostate lemma StillFiled(new bs: seq<Bucket>, new chains: seq<seq<Handle>>, new items: set<Handle>)
    requires old(allocated(bs)) && old(allocated(chains)) && old(allocated(items))
    requires old(Index(bs, chains, items))
    requires forall h :: h in items ==> h.hashv == old(h.hashv)
    ensures forall h {:trigger h.hashv} :: h in items ==> h in chains[BucketOf(h.hashv, |chains|)]
  {
  }

  /** The index after the chain of bucket `i` became `c`. */
  lemma IndexUpdate(bs: seq<Bucket>, chains: seq<seq<Handle>>, items: set<Handle>, i: nat, b: Bucket, c: seq<Handle>,
      items': set<Handle>)
    requires OthersOk(bs, chains, items, i)
    requires BucketOk(b, c) && Placed(c, i, |chains|, items') && |items'| == |items| - |chains[i]| + |c|
    requires forall h :: h in items && h !in chains[i] ==> h in items'
    requires forall h :: h in items' ==> h in c || (h in items && h !in chains[i])
    ensures Index(bs[i := b], chains[i := c], items')
  {
    TotalUpdate(chains, i, c);
    var cs := chains[i := c];
    assert forall j :: 0 <= j < |cs| ==> Placed(cs[j], j, |cs|, items') && BucketOk(bs[i := b][j], cs[j]);
  }

  /** Puts an item at the head of its bucket: HASH_ADD_TO_BKT up to the growth check. */
  method PushItem(bs: array<Bucket>, h: Handle, ghost chains: seq<seq<Handle>>, ghost items: set<Handle>)
    requires Index(bs[..], chains, items) && h !in items
    modifies bs, items`hhPrev, h`hhPrev, h`hhNext
    ensures var i := BucketOf(h.hashv, |chains|);
            && Index(bs[..], chains[i := [h] + chains[i]], items + {h})
            && bs[i].expandMult == old(bs[i].expandMult)
            && forall j :: 0 <= j < bs.Length && j != i ==> bs[j] == old(bs[j])
  {
    hide Index, Placed, Total, OthersOk, Chained, Distinct;
    IndexSizes(bs[..], chains, items);
    var i := BucketOf(h.hashv, bs.Length);
    ghost var c := [h] + chains[i];
    ChainFacts(bs[..], chains, items, i);
    PushFront(bs[i].hhHead, h, chains[i]);
    bs[i] := bs[i].(hhHead := h, count := bs[i].count + 1);
    PushPlaced(chains, items, i, h);
    OthersKept(old(bs[..]), chains, items, i);
    IndexUpdate(old(bs[..]), chains, items, i, bs[i], c, items + {h});
    assert bs[..] == old(bs[..])[i := bs[i]];
  }

  lemma IndexSizes(bs: seq<Bucket>, chains: seq<seq<Handle>>, items: set<Handle>)
    requires Index(bs, chains, items)
    ensures 0 < |bs| == |chains| && Total(chains) == |items|
  {
  }

  lemma ChainFacts(bs: seq<Bucket>, chains: seq<seq<Handle>>, items: set<Handle>, i: nat)
    requires Index(bs, chains, items) && i < |chains|
    ensures |bs| == |chains| && BucketOk(bs[i], chains[i]) && Placed(chains[i], i, |chains|, items)
    ensures forall h :: h in chains[i] ==> h in items
    ensures forall h :: h in items ==> h in chains[BucketOf(h.hashv, |chains|)]
  {
  }

  lemma PushPlaced(chains: seq<seq<Handle>>, items: set<Handle>, i: nat, h: Handle)
    requires i < |chains| && BucketOf(h.hashv, |chains|) == i && Placed(chains[i], i, |chains|, items)
    ensures Placed([h] + chains[i], i, |chains|, items + {h})
  {
  }

  lemma DropPlaced(chains: seq<seq<Handle>>, items: set<Handle>, i: nat, k: nat)
    requires i < |chains| && Placed(chains[i], i, |chains|, items) && k < |chains[i]| && Distinct(chains[i])
    ensures Placed(Without(chains[i], k), i, |chains|, items - {chains[i][k]}) && Distinct(Without(chains[i], k))
  {
    var c := Without(chains[i], k);
    WithoutDistinct(chains[i], k);
    forall m | 0 <= m < |c| ensures c[m] in items - {chains[i][k]} && BucketOf(c[m].hashv, |chains|) == i {
      assert c[m] in chains[i];
    }
  }

  /** The item has left its chain, and nothing else moved. */
  ghost predicate Unfiled(chains: seq<seq<Handle>>, h: Handle, chains': seq<seq<Handle>>)
    requires 0 < |chains|
    reads h`hashv
  {
    var i := BucketOf(h.hashv, |chains|);
    exists k :: 0 <= k < |chains[i]| && chains[i][k] == h && chains' == chains[i := Without(chains[i], k)]
  }

  /** HASH_DEL_IN_BKT. */
  method RemoveItem(bs: array<Bucket>, h: Handle, ghost chains: seq<seq<Handle>>, ghost items: set<Handle>)
    returns (ghost chains': seq<seq<Handle>>)
    requires 0 < |chains| && Index(bs[..], chains, items) && h in items
    modifies bs, items`hhPrev, items`hhNext
    ensures Index(bs[..], chains', items - {h}) && |chains'| == |chains|
    ensures Unfiled(chains, h, chains')
    ensures forall j :: 0 <= j < bs.Length ==> bs[j].expandMult == old(bs[j].expandMult)
  {
    hide Index, Placed, Total, Distinct, OthersOk, Chained;
    IndexSizes(bs[..], chains, items);
    var i := BucketOf(h.hashv, bs.Length);
    ghost var before := bs[..];
    ChainFacts(before, chains, items, i);
    assert h in chains[i];
    ghost var k :| 0 <= k < |chains[i]| && chains[i][k] == h;
    ghost var c := Without(chains[i], k);
    DropPlaced(chains, items, i, k);
    bs[i] := bs[i].(count := bs[i].count - 1);
    var hhHead := Unchain(bs[i].hhHead, h, chains[i], k);
    bs[i] := bs[i].(hhHead := hhHead);
    assert bs[..] == before[i := bs[i]];
    DropPlaced(chains, items, i, k);
    OthersKept(before, chains, items, i);
    DropMembers(chains, items, i, k);
    IndexUpdate(before, chains, items, i, bs[i], c, items - {h});
    chains' := chains[i := c];
  }

  lemma DropMembers(chains: seq<seq<Handle>>, items: set<Handle>, i: nat, k: nat)
    requires i < |chains| && k < |chains[i]| && chains[i][k] in items && Distinct(chains[i])
    requires forall h :: h in chains[i] ==> h in items
    ensures var h, c := chains[i][k], Without(chains[i], k);
            && |items - {h}| == |items| - |chains[i]| + |c|
            && (forall x :: x in items && x !in chains[i] ==> x in items - {h})
            && (forall x :: x in items - {h} ==> x in c || (x in items && x !in chains[i]))
  {
    WithoutDistinct(chains[i], k);
  }

  // ---------------------------------------------------------------------------------------
  // Doubling the buckets
  // ---------------------------------------------------------------------------------------

  /** What is left to move of an old chain: its forward links. */
  predicate Ahead(s: seq<Handle>, p: Handle?)
    reads s
  {
    p == At(s, 0) && forall i {:trigger s[i].hhNext} :: 0 <= i < |s| ==> s[i].hhNext == At(s, i + 1)
  }

  ghost function Items(s: seq<Handle>): set<Handle> {
    set h | h in s
  }

  lemma ItemsNext(s: seq<Handle>, i: nat)
    requires i < |s|
    ensures Items(s[..i + 1]) == Items(s[..i]) + {s[i]}
  {
    assert s[..i + 1] == s[..i] + [s[i]];
  }

  function Over(count: nat, ideal: nat): nat {
    if count > ideal then count - ideal else 0
  }

  /** The items beyond the ideal chain length, over all chains. */
  function NonIdeal(chains: seq<seq<Handle>>, ideal: nat): nat {
    if chains == [] then 0 else Over(|chains[0]|, ideal) + NonIdeal(chains[1..], ideal)
  }

  lemma {:induction false} NonIdealPush(chains: seq<seq<Handle>>, i: nat, c: seq<Handle>, ideal: nat)
    requires i < |chains| && |c| == |chains[i]| + 1
    ensures NonIdeal(chains[i := c], ideal) == NonIdeal(chains, ideal) + (if |c| > ideal then 1 else 0)
  {
    if i == 0 {
      assert chains[i := c][1..] == chains[1..];
    } else {
      NonIdealPush(chains[1..], i - 1, c, ideal);
      assert chains[i := c][1..] == chains[1..][i - 1 := c];
    }
  }

  /** The items of `s` that belong in bucket `i` of `n`, the last one first. */
  function Filed(s: seq<Handle>, i: nat, n: nat): seq<Handle>
    requires 0 < n
    reads s`hashv
  {
    if s == [] then []
    else
      var h := s[|s| - 1];
      (if BucketOf(h.hashv, n) == i then [h] else []) + Filed(s[..|s| - 1], i, n)
  }

  /** All chains, one after the other. */
  function Flat(chains: seq<seq<Handle>>): seq<Handle> {
    if chains == [] then [] else Flat(chains[..|chains| - 1]) + chains[|chains| - 1]
  }

  /** The growth multiplier of a bucket that took `count` items: nothing up to the ideal length. */
  function Mult(count: nat, ideal: nat): nat {
    if count <= ideal then 0
    else
      var m := Mult(count - 1, ideal);
      if count > m * ideal then m + 1 else m
  }

  /** The quotient of `count` by `ideal`, rounded up, but no more than one for each item beyond the ideal length. */
  lemma {:induction false} MultIs(count: nat, ideal: nat, q: nat)
    requires 0 < ideal < count && 0 < q && (q - 1) * ideal < count <= q * ideal
    ensures Mult(count, ideal) == if q < count - ideal then q else count - ideal
  {
    var n := count - 1;
    if n == ideal {
      assert Mult(n, ideal) == 0;
      AtMost(q, 1, ideal);
    } else {
      var q' := if n == (q - 1) * ideal then q - 1 else q;
      assert q' == q - 1 ==> (q' - 1) * ideal == (q - 1) * ideal - ideal;
      AtMost(q', 0, ideal);
      MultIs(n, ideal, q');
      AtMost(n - ideal, q' - 1, ideal);
      AtMost(q', Mult(n, ideal), ideal);
    }
  }

  lemma AtMost(a: int, b: int, c: nat)
    ensures a <= b ==> a * c <= b * c
    ensures b <= a ==> b * c <= a * c
  {
  }

  /** The chains hold the items of `seen`, filed in this order, and the multipliers fit them. */
  ghost predicate FiledAll(bs: seq<Bucket>, chains: seq<seq<Handle>>, seen: seq<Handle>, ideal: nat)
    reads seen`hashv
  {
    && 0 < |bs| == |chains|
    && (forall i :: 0 <= i < |chains| ==> chains[i] == Filed(seen, i, |chains|))
    && (forall i {:trigger bs[i]} :: 0 <= i < |bs| ==> bs[i].expandMult == Mult(|chains[i]|, ideal))
  }

  lemma FiledOne(bs: seq<Bucket>, bs': seq<Bucket>, chains: seq<seq<Handle>>, seen: seq<Handle>, ideal: nat, h: Handle)
    requires FiledAll(bs, chains, seen, ideal) && |bs'| == |bs|
    requires var i := BucketOf(h.hashv, |bs|);
             && (forall j :: 0 <= j < |bs| && j != i ==> bs'[j].expandMult == bs[j].expandMult)
             && bs'[i].expandMult == Mult(|chains[i]| + 1, ideal)
    ensures var i := BucketOf(h.hashv, |bs|); FiledAll(bs', chains[i := [h] + chains[i]], seen + [h], ideal)
  {
    assert (seen + [h])[..|seen|] == seen;
  }

  /** Moves one item of an old chain into its new bucket, with the statistics. */
  method MoveItem(bs: array<Bucket>, h: Handle, ideal: nat, nonideal: nat, ghost chains: seq<seq<Handle>>,
      ghost moved: set<Handle>, ghost seen: seq<Handle>)
    returns (nonideal': nat, ghost chains': seq<seq<Handle>>)
    requires Index(bs[..], chains, moved) && h !in moved && nonideal == NonIdeal(chains, ideal)
    requires FiledAll(bs[..], chains, seen, ideal)
    modifies bs, moved`hhPrev, h`hhPrev, h`hhNext
    ensures Index(bs[..], chains', moved + {h}) && |chains'| == |chains| && nonideal' == NonIdeal(chains', ideal)
    ensures FiledAll(bs[..], chains', seen + [h], ideal)
  {
    hide Index, Placed, Total, NonIdeal, Chained, FiledAll;
    FiledMult(bs[..], chains, seen, ideal);
    IndexSizes(bs[..], chains, moved);
    var i := BucketOf(h.hashv, bs.Length);
    ChainFacts(bs[..], chains, moved, i);
    var count, expandMult := bs[i].count + 1, bs[i].expandMult;
    nonideal' := nonideal;
    if count > ideal {
      nonideal' := nonideal' + 1;
      if count > expandMult * ideal {
        expandMult := expandMult + 1;
      }
    }
    chains' := chains[i := [h] + chains[i]];
    NonIdealPush(chains, i, chains'[i], ideal);
    PushItem(bs, h, chains, moved);
    ghost var before := bs[..];
    bs[i] := bs[i].(expandMult := expandMult);
    MultFrame(before, bs[..], chains', moved + {h}, i);
    FiledOne(old(bs[..]), bs[..], chains, seen, ideal, h);
  }

  lemma FiledMult(bs: seq<Bucket>, chains: seq<seq<Handle>>, seen: seq<Handle>, ideal: nat)
    requires FiledAll(bs, chains, seen, ideal)
    ensures 0 < |bs| == |chains|
    ensures forall i {:trigger bs[i]} :: 0 <= i < |bs| ==> bs[i].expandMult == Mult(|chains[i]|, ideal)
  {
  }

  /** The growth multiplier is no business of the index. */
  lemma MultFrame(bs: seq<Bucket>, bs': seq<Bucket>, chains: seq<seq<Handle>>, items: set<Handle>, i: nat)
    requires Index(bs, chains, items) && i < |bs| == |bs'|
    requires bs' == bs[i := bs[i].(expandMult := bs'[i].expandMult)]
    ensures Index(bs', chains, items)
  {
    assert forall j :: 0 <= j < |bs| ==> bs'[j].hhHead == bs[j].hhHead && bs'[j].count == bs[j].count;
  }

  /** What was filed before a chain, and the first `i` items of it. */
  function Joint(seen: seq<Handle>, chain: seq<Handle>, i: nat): seq<Handle>
    requires i <= |chain|
  {
    seen + chain[..i]
  }

  lemma JointNext(seen: seq<Handle>, chain: seq<Handle>, i: nat)
    requires i < |chain|
    ensures Joint(seen, chain, i) + [chain[i]] == Joint(seen, chain, i + 1)
  {
  }

  lemma SoFar(seen: seq<Handle>, chain: seq<Handle>)
    ensures Joint(seen, chain, 0) == seen && Joint(seen, chain, |chain|) == seen + chain
  {
  }

  /** The walk along one old chain. */
  method MoveChain(bs: array<Bucket>, head: Handle?, ideal: nat, nonideal: nat,
                   ghost chain: seq<Handle>, ghost chains: seq<seq<Handle>>, ghost moved: set<Handle>,
                   ghost seen: seq<Handle>)
    returns (nonideal': nat, ghost chains': seq<seq<Handle>>)
    requires Index(bs[..], chains, moved) && nonideal == NonIdeal(chains, ideal)
    requires FiledAll(bs[..], chains, seen, ideal)
    requires Ahead(chain, head) && Distinct(chain) && Items(chain) !! moved
    modifies bs, moved`hhPrev, Items(chain)`hhPrev, Items(chain)`hhNext
    ensures Index(bs[..], chains', moved + Items(chain))
    ensures |chains'| == |chains| && nonideal' == NonIdeal(chains', ideal)
    ensures FiledAll(bs[..], chains', seen + chain, ideal)
  {
    hide Index, NonIdeal, Items, FiledAll, Joint;
    var thh := head;
    nonideal', chains' := nonideal, chains;
    ghost var i, done := 0, moved;
    ItemsFacts(chain);
    SoFar(seen, chain);
    while thh != null
      invariant 0 <= i <= |chain| && thh == At(chain, i)
      invariant done == moved + Items(chain[..i])
      invariant Index(bs[..], chains', done) && |chains'| == |chains| && nonideal' == NonIdeal(chains', ideal)
      invariant FiledAll(bs[..], chains', Joint(seen, chain, i), ideal)
      invariant forall k :: i <= k < |chain| ==> chain[k].hhNext == At(chain, k + 1) && chain[k] !in done
      decreases |chain| - i
    {
      var nxt := thh.hhNext;
      ItemsNext(chain, i);
      ItemsFacts(chain[..i]);
      nonideal', chains' := MoveItem(bs, thh, ideal, nonideal', chains', done, Joint(seen, chain, i));
      JointNext(seen, chain, i);
      done := done + {thh};
      thh := nxt;
      i := i + 1;
    }
    assert chain[..i] == chain;
  }

  lemma ItemsFacts(s: seq<Handle>)
    ensures forall h :: h in s <==> h in Items(s)
    ensures s == [] ==> Items(s) == {}
    ensures Items(s[..0]) == {}
  {
  }

  // ---------------------------------------------------------------------------------------
  // The walk over all buckets
  // ---------------------------------------------------------------------------------------

  /** The items that sit in old buckets below `i`. */
  ghost function Below(chains: seq<seq<Handle>>, i: nat): set<Handle>
    requires i <= |chains|
  {
    set j, h | 0 <= j < i && h in chains[j] :: h
  }

  lemma BelowNext(bs: seq<Bucket>, chains: seq<seq<Handle>>, items: set<Handle>, i: nat)
    requires Index(bs, chains, items) && i < |chains|
    ensures Below(chains, i + 1) == Below(chains, i) + Items(chains[i]) && Items(chains[i]) !! Below(chains, i)
    ensures Below(chains, i) <= items && Items(chains[i]) <= items
  {
    forall j, h | 0 <= j < |chains| && h in chains[j] ensures h in items && BucketOf(h.hashv, |chains|) == j {
      IndexApart(bs, chains, items, j, j, h);
    }
  }

  lemma BelowAll(bs: seq<Bucket>, chains: seq<seq<Handle>>, items: set<Handle>)
    requires Index(bs, chains, items)
    ensures Below(chains, |chains|) == items
  {
    forall j, h | 0 <= j < |chains| && h in chains[j] ensures h in items {
      IndexApart(bs, chains, items, j, j, h);
    }
    forall h | h in items ensures h in Below(chains, |chains|) {
      assert h in chains[BucketOf(h.hashv, |chains|)];
    }
  }

  lemma EmptyIndex(bs: seq<Bucket>, chains: seq<seq<Handle>>)
    requires 0 < |bs| == |chains|
    requires forall i :: 0 <= i < |bs| ==> bs[i] == Bucket(null, 0, 0) && chains[i] == []
    ensures Index(bs, chains, {}) && forall ideal: nat :: NonIdeal(chains, ideal) == 0
  {
    TotalEmpty(chains);
    forall ideal: nat ensures NonIdeal(chains, ideal) == 0 { NonIdealEmpty(chains, ideal); }
  }

  lemma {:induction false} NonIdealEmpty(chains: seq<seq<Handle>>, ideal: nat)
    requires forall i :: 0 <= i < |chains| ==> chains[i] == []
    ensures NonIdeal(chains, ideal) == 0
  {
    if chains != [] { NonIdealEmpty(chains[1..], ideal); }
  }

  lemma ChainAhead(bs: seq<Bucket>, chains: seq<seq<Handle>>, items: set<Handle>, i: nat)
    requires Index(bs, chains, items) && i < |chains|
    ensures Ahead(chains[i], bs[i].hhHead) && Distinct(chains[i])
  {
    assert BucketOk(bs[i], chains[i]);
  }

  /** How the items lie in the old buckets, none of which changes while they are moved. */
  ghost predicate Layout(chains: seq<seq<Handle>>, items: set<Handle>) {
    && Below(chains, 0) == {} && Below(chains, |chains|) == items
    && (forall i :: 0 <= i < |chains| ==>
          && Below(chains, i + 1) == Below(chains, i) + Items(chains[i]) && Items(chains[i]) !! Below(chains, i)
          && Below(chains, i) <= items && Items(chains[i]) <= items && Distinct(chains[i]))
    && (forall i, j :: 0 <= i < j < |chains| ==> Items(chains[i]) !! Items(chains[j]))
  }

  lemma IndexLayout(bs: seq<Bucket>, chains: seq<seq<Handle>>, items: set<Handle>)
    requires Index(bs, chains, items)
    ensures Layout(chains, items)
    ensures forall j :: 0 <= j < |chains| ==> Ahead(chains[j], bs[j].hhHead)
  {
    hide Index, Below;
    IndexSizes(bs, chains, items);
    BelowNone(chains);
    BelowAll(bs, chains, items);
    forall j | 0 <= j < |chains|
      ensures Below(chains, j + 1) == Below(chains, j) + Items(chains[j]) && Items(chains[j]) !! Below(chains, j)
      ensures Below(chains, j) <= items && Items(chains[j]) <= items && Distinct(chains[j])
      ensures Ahead(chains[j], bs[j].hhHead)
    {
      BelowNext(bs, chains, items, j);
      ChainAhead(bs, chains, items, j);
    }
    forall i, j | 0 <= i < j < |chains| ensures Items(chains[i]) !! Items(chains[j]) {
      forall h | h in chains[i] ensures h !in chains[j] {
        if h in chains[j] { IndexApart(bs, chains, items, i, j, h); }
      }
    }
  }

  lemma BelowNone(chains: seq<seq<Handle>>)
    ensures Below(chains, 0) == {}
  {
  }

  twostate lemma AheadFrame(new s: seq<Handle>, new p: Handle?)
    requires old(allocated(s)) && old(allocated(p)) && old(Ahead(s, p))
    requires forall h :: h in s ==> h.hhNext == old(h.hhNext)
    ensures Ahead(s, p)
  {
    assert forall i :: 0 <= i < |s| ==> s[i] in s;
  }

  /** One turn of the outer loop. */
  method MoveBucket(bs: array<Bucket>, i: nat, fresh': array<Bucket>, ideal: nat, nonideal: nat,
                    ghost chains: seq<seq<Handle>>, ghost chains': seq<seq<Handle>>, ghost items: set<Handle>)
    returns (nonideal': nat, ghost chains'': seq<seq<Handle>>)
    requires i < bs.Length == |chains| && bs != fresh' && Layout(chains, items)
    requires Index(fresh'[..], chains', Below(chains, i)) && nonideal == NonIdeal(chains', ideal)
    requires forall j :: i <= j < |chains| ==> Ahead(chains[j], bs[j].hhHead)
    requires FiledAll(fresh'[..], chains', Flat(chains[..i]), ideal)
    modifies fresh', items`hhPrev, items`hhNext
    ensures Index(fresh'[..], chains'', Below(chains, i + 1))
    ensures |chains''| == |chains'| && nonideal' == NonIdeal(chains'', ideal)
    ensures forall j :: i < j < |chains| ==> Ahead(chains[j], bs[j].hhHead)
    ensures FiledAll(fresh'[..], chains'', Flat(chains[..i + 1]), ideal)
  {
    hide Index, NonIdeal, Items, Below, Distinct, Ahead, FiledAll;
    assert chains[..i + 1][..i] == chains[..i];
    assert Ahead(chains[i], bs[i].hhHead);
    nonideal', chains'' := MoveChain(fresh', bs[i].hhHead, ideal, nonideal, chains[i], chains', Below(chains, i),
        Flat(chains[..i]));
    forall j | i < j < |chains| ensures Ahead(chains[j], bs[j].hhHead) {
      assert Items(chains[i]) !! Items(chains[j]);
      ItemsFacts(chains[j]);
      AheadFrame(chains[j], bs[j].hhHead);
    }
  }

  /** The two nested loops of HASH_EXPAND_BUCKETS. */
  method Redistribute(bs: array<Bucket>, ideal: nat, ghost chains: seq<seq<Handle>>, ghost items: set<Handle>)
    returns (fresh': array<Bucket>, nonideal: nat, ghost chains': seq<seq<Handle>>)
    requires Index(bs[..], chains, items)
    modifies items`hhPrev, items`hhNext
    ensures fresh(fresh') && fresh'.Length == 2 * bs.Length == |chains'|
    ensures Index(fresh'[..], chains', items) && nonideal == NonIdeal(chains', ideal)
    ensures FiledAll(fresh'[..], chains', Flat(chains), ideal)
  {
    hide Index, NonIdeal, Items, Below, Distinct, Ahead, FiledAll;
    IndexSizes(bs[..], chains, items);
    IndexLayout(bs[..], chains, items);
    fresh' := new Bucket[2 * bs.Length](i => Bucket(null, 0, 0));
    nonideal := 0;
    chains' := seq(2 * |chains|, i => []);
    EmptyIndex(fresh'[..], chains');
    NoneFiled(fresh'[..], chains', ideal);
    assert chains[..0] == [];
    forall j | 0 <= j < |chains| ensures Ahead(chains[j], bs[j].hhHead) {
      AheadFrame(chains[j], bs[j].hhHead);
    }
    var i := 0;
    while i < bs.Length
      invariant 0 <= i <= bs.Length == |chains| && |chains'| == 2 * |chains| == fresh'.Length
      invariant Index(fresh'[..], chains', Below(chains, i)) && nonideal == NonIdeal(chains', ideal)
      invariant FiledAll(fresh'[..], chains', Flat(chains[..i]), ideal)
      invariant forall j :: i <= j < |chains| ==> Ahead(chains[j], bs[j].hhHead)
    {
      nonideal, chains' := MoveBucket(bs, i, fresh', ideal, nonideal, chains, chains', items);
      i := i + 1;
    }
    assert chains[..i] == chains;
  }

  lemma NoneFiled(bs: seq<Bucket>, chains: seq<seq<Handle>>, ideal: nat)
    requires 0 < |bs| == |chains|
    requires forall i :: 0 <= i < |bs| ==> bs[i] == Bucket(null, 0, 0) && chains[i] == []
    ensures FiledAll(bs, chains, [], ideal)
  {
  }
}
