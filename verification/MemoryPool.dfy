/**
 The memory pool of src/lu_mm_pool_palloc.c: small allocations are cut from a chain of blocks,
 large ones come from the system allocator and are kept in a list whose nodes live in the pool.

 An address inside a block is the block and an offset; blocks are aligned like the pool.
 */
module MemoryPool {

  const ALIGNMENT := 16
  const POOL_HEADER := 56
  const DATA_HEADER := 32
  const LARGE_NODE := 16
  const MAX_ALLOC_FROM_POOL := 4095
  const MIN_POOL := 64

  /** An address given out by the system allocator; 0 is NULL. */
  type Ptr = nat

  const NULL: Ptr := 0

  datatype Address = Null | At(block: Block, offset: nat)

  /** The bytes from `start` up to `end` of a block. */
  datatype Region = Region(block: Block, start: nat, end: nat)

  /** The part of lu_mm_pool_t that every block has. */
  class Block {
    const size: nat
    var last: nat
    var failed: nat
    var next: Block?

    constructor (size: nat, last: nat)
      ensures this.size == size && this.last == last && failed == 0 && next == null
    {
      this.size := size;
      this.last := last;
      failed, next := 0, null;
    }
  }

  /** A node of the list of large allocations, at its place inside the pool. */
  class Large {
    const place: Region
    var next: Large?
    var alloc: Ptr

    constructor (place: Region, alloc: Ptr, next: Large?)
      ensures this.place == place && this.alloc == alloc && this.next == next
    {
      this.place := place;
      this.alloc, this.next := alloc, next;
    }
  }

  /** lu_mm_align_ptr on an offset. */
  function Align(n: nat): (r: nat)
    ensures n <= r < n + ALIGNMENT && r % ALIGNMENT == 0
  {
    (n + ALIGNMENT - 1) / ALIGNMENT * ALIGNMENT
  }

  /** Aligning stays inside a block exactly if the size of the block is a multiple of 16. */
  lemma AlignFits(end: nat)
    ensures (forall last: nat :: last <= end ==> Align(last) <= end) <==> end % ALIGNMENT == 0
  {
    assert end <= end;
    if end % ALIGNMENT != 0 {
      assert Align(end) > end;
    }
  }

  const SIZE_RANGE := 0x1_0000_0000_0000_0000

  /** The room from `start` to `end` as the code computes it: an unsigned difference. */
  function Room(end: nat, start: nat): int {
    if start <= end then end - start else SIZE_RANGE - (start - end)
  }

  /** Is the room behind a free part that begins at `last` taken to be enough? */
  predicate Accepts(end: nat, last: nat, size: nat, align: bool) {
    Room(end, Begin(last, align)) >= size
  }

  /**
   Every region that is accepted ends inside its block exactly if the size of the block is a
   multiple of 16; otherwise one byte behind a block that is used up is accepted.
   */
  lemma AcceptedFits(end: nat)
    requires end + ALIGNMENT < SIZE_RANGE
    ensures (forall last: nat, size: nat, align: bool ::
               last <= end && size <= end && Accepts(end, last, size, align) ==> Begin(last, align) + size <= end)
            <==> end % ALIGNMENT == 0
  {
    AlignFits(end);
    if end % ALIGNMENT == 0 {
      forall last: nat, size: nat, align: bool | last <= end && size <= end && Accepts(end, last, size, align)
        ensures Begin(last, align) + size <= end
      {
        assert Align(last) <= end;
      }
    } else {
      assert Align(end) > end && Accepts(end, end, 1, true);
    }
  }

  predicate Disjoint(a: Region, b: Region) {
    a.block != b.block || a.end <= b.start || b.end <= a.start
  }

  /** Where an allocation would begin in a block. */
  function Begin(last: nat, align: bool): nat {
    if align then Align(last) else last
  }

  predicate Fits(b: Block, size: nat, align: bool)
    reads b
  {
    Begin(b.last, align) + size <= b.size
  }

  /** One turn of the loop of lu_mm_palloc_small: the region is cut if there seems to be room. */
  method TryBlock(p: Block, size: nat, align: bool) returns (start: nat, ok: bool)
    modifies p`last
    ensures start == Begin(old(p.last), align) && (ok <==> Accepts(p.size, old(p.last), size, align))
    ensures p.last == if ok then start + size else old(p.last)
  {
    start := Begin(p.last, align);
    ok := Room(p.size, start) >= size;
    if ok {
      p.last := start + size;
    }
  }

  /**
   The first block of a pool of 100 bytes: 44 bytes without alignment use it up, and one aligned
   byte is then cut behind its end.
   */
  method PoolOverrun() returns (b: Block, start: nat)
    ensures b.size == 100 && start == 112 && b.last == 113
  {
    b := new Block(100, POOL_HEADER);
    var ok;
    start, ok := TryBlock(b, 44, false);
    start, ok := TryBlock(b, 1, true);
  }

  predicate Distinct(s: seq<Block>) {
    forall i, j :: 0 <= i < j < |s| ==> s[i] != s[j]
  }

  function BlockAt(s: seq<Block>, i: int): Block? {
    if 0 <= i < |s| then s[i] else null
  }

  /** The chain of blocks. */
  predicate Chain(s: seq<Block>)
    reads s
  {
    && s != [] && Distinct(s)
    && forall i {:trigger s[i].next} :: 0 <= i < |s| ==> s[i].next == BlockAt(s, i + 1)
  }

  /** Every block has room for its header, and its used part ends inside it. */
  predicate Bounded(s: seq<Block>, size: nat)
    reads s
  {
    forall i {:trigger s[i]} :: 0 <= i < |s| ==>
      s[i].size == size && (if i == 0 then POOL_HEADER else DATA_HEADER) <= s[i].last <= size
  }

  /** A region lies in its block, behind the header and before the free part. */
  predicate Placed(r: Region, s: seq<Block>)
    reads r.block
  {
    && r.block in s && DATA_HEADER <= r.start <= r.end <= r.block.last
    && (r.block == BlockAt(s, 0) ==> POOL_HEADER <= r.start)
  }

  predicate AllPlaced(regions: seq<Region>, s: seq<Block>)
    reads s
  {
    && (forall i {:trigger regions[i]} :: 0 <= i < |regions| ==> regions[i].block in s)
    && (forall i {:trigger regions[i]} :: 0 <= i < |regions| ==> Placed(regions[i], s))
    && (forall i, j :: 0 <= i < j < |regions| ==> Disjoint(regions[i], regions[j]))
  }

  /** The failure counts from the current block on: a staircase down to the last two blocks. */
  predicate Staircase(s: seq<Block>, cur: nat)
    reads s
  {
    && cur < |s| <= cur + 7
    && forall i {:trigger s[i]} :: cur <= i < |s| ==> s[i].failed == if i == |s| - 1 then 0 else |s| - 2 - i
  }

  ghost function Failures(s: seq<Block>): (f: seq<nat>)
    reads s
    ensures |f| == |s| && forall i :: 0 <= i < |s| ==> f[i] == s[i].failed
  {
    seq(|s|, i requires 0 <= i < |s| reads s => s[i].failed)
  }

  /** The staircase as numbers. */
  predicate Stairs(f: seq<nat>, cur: nat) {
    && cur < |f| <= cur + 7
    && forall i :: cur <= i < |f| ==> f[i] == if i == |f| - 1 then 0 else |f| - 2 - i
  }

  /**
   A pass over the blocks from `start` on that had failed `f` times: each but the last one counts one
   more, and the next position is behind the last one that had failed more than 4 times.
   */
  ghost predicate Counted(f: seq<nat>, start: nat, s: seq<Block>, cur: nat)
    reads s
  {
    && |f| == |s| && start <= cur < |s|
    && (forall j {:trigger s[j].failed} :: 0 <= j < |s| ==>
          s[j].failed == f[j] + if start <= j < |s| - 1 then 1 else 0)
    && (forall j :: cur <= j < |s| - 1 ==> f[j] <= 4) && (cur == start || f[cur - 1] > 4)
  }

  lemma AgedFrom(f: seq<nat>, start: nat, s: seq<Block>, cur: nat)
    requires Stairs(f, start) && Counted(f, start, s, cur)
    ensures AgedStaircase(s, cur)
  {
    if |f| == start + 7 {
      assert f[start] == 5;
    }
  }

  /** The same after the failures of one pass were counted. */
  predicate AgedStaircase(s: seq<Block>, cur: nat)
    reads s
  {
    && cur < |s| <= cur + 6
    && forall i {:trigger s[i]} :: cur <= i < |s| ==> s[i].failed == |s| - 1 - i
  }

  /** A bump of the free part keeps all regions in place and adds one that is disjoint. */
  twostate lemma RegionsBump(new regions: seq<Region>, new s: seq<Block>, new r: Region)
    requires old(allocated(regions)) && old(allocated(s)) && old(allocated(r))
    requires old(AllPlaced(regions, s)) && r.block in s
    requires forall b :: b in s ==> old(b.last) <= b.last
    requires old(r.block.last) <= r.start <= r.end <= r.block.last && DATA_HEADER <= r.start
    requires r.block == BlockAt(s, 0) ==> POOL_HEADER <= r.start
    ensures AllPlaced(regions + [r], s)
  {
    var rs := regions + [r];
    forall i {:trigger rs[i]} | 0 <= i < |rs| ensures rs[i].block in s && Placed(rs[i], s) {
      if i < |regions| { assert rs[i] == regions[i] && old(Placed(regions[i], s)); }
    }
    forall i, j | 0 <= i < j < |rs| ensures Disjoint(rs[i], rs[j]) {
      assert rs[i] == regions[i] && old(Placed(regions[i], s));
      if j < |regions| { assert rs[j] == regions[j]; }
    }
  }

  twostate lemma ChainFrame(new s: seq<Block>)
    requires old(allocated(s)) && old(Chain(s))
    requires forall b :: b in s ==> b.next == old(b.next)
    ensures Chain(s)
  {
    assert forall i :: 0 <= i < |s| ==> s[i] in s;
  }

  twostate lemma StaircaseFrame(new s: seq<Block>, cur: nat)
    requires old(allocated(s)) && forall b :: b in s ==> b.failed == old(b.failed)
    ensures old(Staircase(s, cur)) ==> Staircase(s, cur)
  {
    assert forall i :: 0 <= i < |s| ==> s[i] in s;
  }

  /** The free parts may have shrunk. */
  twostate lemma BoundedBump(new s: seq<Block>, size: nat)
    requires old(allocated(s)) && old(Bounded(s, size))
    requires forall b :: b in s ==> old(b.last) <= b.last <= size
    ensures Bounded(s, size)
  {
    forall j {:trigger s[j]} | 0 <= j < |s| ensures s[j].size == size
        && (if j == 0 then POOL_HEADER else DATA_HEADER) <= s[j].last <= size {
      assert (if j == 0 then POOL_HEADER else DATA_HEADER) <= old(s[j].last) <= size && s[j].size == size;
      assert s[j] in s;
    }
  }

  twostate lemma ChainAppend(new s: seq<Block>, new p: Block, new b: Block)
    requires old(allocated(s)) && old(allocated(p)) && old(Chain(s)) && p == s[|s| - 1] && b !in s
    requires p.next == b && b.next == null && forall x :: x in s && x != p ==> x.next == old(x.next)
    ensures Chain(s + [b])
  {
    var t := s + [b];
    forall i {:trigger t[i].next} | 0 <= i < |t| ensures t[i].next == BlockAt(t, i + 1) {
      if i < |s| - 1 { assert t[i] == s[i] && old(s[i].next) == BlockAt(s, i + 1) && s[i] in s; }
    }
  }

  /** The new block makes the next step of the staircase. */
  twostate lemma StaircaseAppend(new s: seq<Block>, new b: Block, cur: nat)
    requires old(allocated(s)) && b.failed == 0 && forall x :: x in s ==> x.failed == old(x.failed)
    ensures old(AgedStaircase(s, cur)) ==> Staircase(s + [b], cur)
  {
    assert forall i :: 0 <= i < |s| ==> s[i] in s;
  }

  twostate lemma BoundedFrame(new s: seq<Block>, size: nat)
    requires old(allocated(s)) && old(Bounded(s, size))
    requires forall b :: b in s ==> b.last == old(b.last)
    ensures Bounded(s, size)
  {
    forall j {:trigger s[j]} | 0 <= j < |s| ensures s[j].size == size
        && (if j == 0 then POOL_HEADER else DATA_HEADER) <= s[j].last <= size {
      assert (if j == 0 then POOL_HEADER else DATA_HEADER) <= old(s[j].last) <= size && s[j].size == size;
      assert s[j] in s;
    }
  }

  lemma BoundedAppend(s: seq<Block>, size: nat, b: Block)
    requires Bounded(s, size) && s != [] && b.size == size && DATA_HEADER <= b.last <= size
    ensures Bounded(s + [b], size)
  {
    var t := s + [b];
    forall j {:trigger t[j]} | 0 <= j < |t| ensures t[j].size == size
        && (if j == 0 then POOL_HEADER else DATA_HEADER) <= t[j].last <= size {
      if j < |s| { assert t[j] == s[j] && s[j].last <= size; }
    }
  }

  twostate lemma PlacedFrame(new regions: seq<Region>, new s: seq<Block>)
    requires old(allocated(regions)) && old(allocated(s)) && old(AllPlaced(regions, s))
    requires forall b :: b in s ==> b.last == old(b.last)
    ensures AllPlaced(regions, s)
  {
    forall i {:trigger regions[i]} | 0 <= i < |regions| ensures Placed(regions[i], s) {
      assert old(Placed(regions[i], s));
    }
  }

  lemma RegionsAppend(regions: seq<Region>, s: seq<Block>, r: Region)
    requires s != [] && AllPlaced(regions, s) && r.block !in s && DATA_HEADER <= r.start <= r.end <= r.block.last
    ensures AllPlaced(regions + [r], s + [r.block])
  {
    var rs, t := regions + [r], s + [r.block];
    forall i {:trigger rs[i]} | 0 <= i < |rs| ensures rs[i].block in t && Placed(rs[i], t) {
      if i < |regions| { assert rs[i] == regions[i] && Placed(regions[i], s); }
    }
    forall i, j | 0 <= i < j < |rs| ensures Disjoint(rs[i], rs[j]) {
      assert rs[i] == regions[i] && regions[i].block in s;
      if j < |regions| { assert rs[j] == regions[j]; }
    }
  }

  /** The largest request that a pool with blocks of `size` bytes serves from its blocks. */
  function Largest(size: nat): (r: nat)
    requires POOL_HEADER <= size
    ensures r <= size - 56 && r <= 4095 && (r == size - 56 || r == 4095)
  {
    if size - POOL_HEADER < MAX_ALLOC_FROM_POOL then size - POOL_HEADER else MAX_ALLOC_FROM_POOL
  }

  /** lu_mm_pool_t, with the chain, the current position in it and the regions given out. */
  class Pool {
    const first: Block
    const max: nat
    var current: Block
    var large: Large?
    ghost var blocks: seq<Block>
    ghost var cur: nat
    ghost var regions: seq<Region>
    ghost var slots: seq<Large>
    ghost var live: set<Ptr>
    ghost var wasReset: bool

    /** lu_mm_create_pool, when the system has the memory. */
    constructor (size: nat)
      requires MIN_POOL <= size && size % ALIGNMENT == 0
      ensures Valid() && fresh(blocks) && first.size == size && max == Largest(size)
      ensures Held() && regions == [] && slots == [] && live == {} && !wasReset
    {
      var b := new Block(size, POOL_HEADER);
      first, current := b, b;
      max := Largest(size);
      large := null;
      blocks, cur, regions, slots, live, wasReset := [b], 0, [], [], {}, false;
    }

    /** The chain, the free parts and the regions. */
    ghost predicate Sound()
      reads this, blocks, slots
    {
      && Chain(blocks) && first == blocks[0] && cur < |blocks| && current == blocks[cur]
      && MIN_POOL <= first.size && first.size % ALIGNMENT == 0 && max <= first.size - POOL_HEADER
      && Bounded(blocks, first.size) && AllPlaced(regions, blocks)
      && ListOk()
    }

    ghost predicate Valid()
      reads this, blocks, slots
    {
      Sound() && (!wasReset ==> Staircase(blocks, cur))
    }

    /** The list of large allocations: its nodes lie in the pool, in places of their own. */
    ghost predicate ListOk()
      reads this, slots
    {
      && large == SlotAt(slots, 0)
      && (forall i {:trigger slots[i].next} :: 0 <= i < |slots| ==> slots[i].next == SlotAt(slots, i + 1))
      && (forall i, j :: 0 <= i < j < |slots| ==> slots[i] != slots[j] && Disjoint(slots[i].place, slots[j].place))
      && (forall i {:trigger slots[i]} :: 0 <= i < |slots| ==>
            slots[i].place in regions && slots[i].place.end == slots[i].place.start + LARGE_NODE
                && slots[i].place.start % ALIGNMENT == 0)
    }

    /** Every region is where it was; the last one is new. */
    twostate predicate GaveOut(new m: Address, size: nat, align: bool)
      reads this, blocks
    {
      && m.At? && m.block in blocks && (align ==> m.offset % ALIGNMENT == 0)
      && regions == old(regions) + [Region(m.block, m.offset, m.offset + size)]
      && large == old(large) && slots == old(slots) && live == old(live) && wasReset == old(wasReset)
    }

    /** What was given out stays given out; blocks and list nodes are the old ones or new. */
    twostate predicate Kept()
      reads this
    {
      && old(regions) <= regions && wasReset == old(wasReset) && old(blocks) <= blocks
      && (forall i :: 0 <= i < |blocks| ==> blocks[i] in old(blocks) || fresh(blocks[i]))
      && (forall i :: 0 <= i < |slots| ==> slots[i] in old(slots) || fresh(slots[i]))
    }

    /** The position of the first block from `i` on that has the room, or the end of the chain. */
    ghost function FirstFit(i: nat, size: nat, align: bool): (k: nat)
      requires i <= |blocks|
      reads this, blocks
      ensures i <= k <= |blocks| && (forall j :: i <= j < k ==> !Fits(blocks[j], size, align))
      ensures k < |blocks| ==> Fits(blocks[k], size, align)
      decreases |blocks| - i
    {
      if i == |blocks| || Fits(blocks[i], size, align) then i else FirstFit(i + 1, size, align)
    }

    /**
     lu_mm_palloc_small: the region is cut from the first block, from the current one on, that
     fits, or else from a new block; at most 7 blocks are looked at unless the pool was reset.
     */
    method PallocSmall(size: nat, align: bool, granted: bool) returns (m: Address, ghost looked: nat)
      requires Valid() && size <= first.size - DATA_HEADER
      modifies this, blocks
      ensures Valid() && Kept()
      ensures m == Null <==> old(FirstFit(cur, size, align)) == old(|blocks|) && !granted
      ensures m == Null ==>
          regions == old(regions) && blocks == old(blocks) && large == old(large)
              && slots == old(slots) && live == old(live) && wasReset == old(wasReset)
      ensures m != Null ==> GaveOut(m, size, align)
      ensures var k := old(FirstFit(cur, size, align)); k < old(|blocks|) ==>
                blocks == old(blocks) && m == At(blocks[k], old(Begin(blocks[k].last, align)))
                    && blocks[k].last == m.offset + size
      ensures old(FirstFit(cur, size, align)) == old(|blocks|) && granted ==>
                blocks == old(blocks) + [m.block] && fresh(m.block)
                    && m.offset == Align(DATA_HEADER) && m.block.last == m.offset + size
      ensures looked <= old(|blocks| - cur) && (!old(wasReset) ==> looked <= 7)
    {
      hide Sound, Staircase, Begin, Align, Counted, Allocs, Placed, Disjoint;
      SoundFacts();
      ghost var fit := FirstFit(cur, size, align);
      var p: Block?;
      p, looked := current, 0;
      while p != null
        invariant Valid() && unchanged(this) && unchanged(blocks)
        invariant cur + looked <= fit && p == BlockAt(blocks, cur + looked)
        decreases |blocks| - looked
      {
        BlockFacts(cur + looked);
        looked := looked + 1;
        LookedFew(looked);
        var start, ok := Cut(p, size, align, cur + looked - 1);
        if ok {
          return At(p, start), looked;
        }
        p := p.next;
      }
      LookedFew(looked);
      m := PallocBlock(size, granted);
    }

    lemma BlockFacts(i: nat)
      requires Valid() && i < |blocks|
      ensures (if i == 0 then POOL_HEADER else DATA_HEADER) <= blocks[i].last <= blocks[i].size == first.size
      ensures first.size % ALIGNMENT == 0
      ensures blocks[i].next == BlockAt(blocks, i + 1)
    {
      assert blocks[i].last <= first.size;
    }

    lemma LookedFew(looked: nat)
      requires Valid() && cur + looked <= |blocks|
      ensures !wasReset ==> looked <= 7
    {
    }

    /** lu_mm_palloc_block: a new block at the end of the chain. */
    method PallocBlock(size: nat, granted: bool) returns (m: Address)
      requires Valid() && size <= first.size - DATA_HEADER
      modifies this, blocks
      ensures Valid() && (m == Null <==> !granted)
      ensures m == Null ==> unchanged(this) && unchanged(blocks)
      ensures m != Null ==> GaveOut(m, size, true) && blocks == old(blocks) + [m.block] && fresh(m.block)
      ensures m != Null ==> m.offset == Align(DATA_HEADER) && m.block.last == m.offset + size
    {
      hide Sound, Staircase, AgedStaircase;
      SoundFacts();
      if !granted {
        return Null;
      }
      var start := Align(DATA_HEADER);
      var b := new Block(first.size, start + size);
      var p := Age();
      Attach(p, b, start, size);
      m := At(b, start);
    }

    /** Failure counts and the current position are no business of the regions and the lists. */
    twostate lemma SoundFrame()
      requires old(allocated(this)) && old(Sound())
      requires blocks == old(blocks) && regions == old(regions) && slots == old(slots) && large == old(large)
      requires cur < |blocks| && current == blocks[cur]
      requires forall b :: b in blocks ==> b.next == old(b.next) && b.last == old(b.last)
      requires forall l :: l in slots ==> l.next == old(l.next)
      ensures Sound()
    {
      assert forall i :: 0 <= i < |blocks| ==> blocks[i] in blocks;
      forall i {:trigger regions[i]} | 0 <= i < |regions| ensures Placed(regions[i], blocks) {
        assert old(Placed(regions[i], blocks));
      }
      assert forall i :: 0 <= i < |slots| ==> slots[i] in slots;
    }

    /** Every block but the last one counts a failure; one that had more than 4 is left behind. */
    method Age() returns (p: Block)
      requires Valid()
      modifies this`current, this`cur, blocks`failed
      ensures Sound() && p == blocks[|blocks| - 1] && (!wasReset ==> AgedStaircase(blocks, cur))
      ensures Counted(old(Failures(blocks)), old(cur), blocks, cur)
    {
      hide Sound, Staircase, AgedStaircase, Stairs, Counted;
      ghost var f, start := Failures(blocks), cur;
      StaircaseOf(f);
      p := CountFailures();
      SoundFrame();
      if !wasReset { AgedFrom(f, start, blocks, cur); }
    }

    /** The walk itself. */
    method CountFailures() returns (p: Block)
      requires Sound()
      modifies this`current, this`cur, blocks`failed
      ensures cur < |blocks| && current == blocks[cur] && blocks != [] && p == blocks[|blocks| - 1]
      ensures Counted(old(Failures(blocks)), old(cur), blocks, cur)
    {
      hide Sound;
      SoundFacts();
      ghost var s, f, start := blocks, Failures(blocks), cur;
      p := current;
      ghost var i := cur;
      while p.next != null
        invariant |f| == |s| && start <= i < |s| && p == s[i] && start <= cur <= i && current == s[cur]
        invariant forall j {:trigger s[j].failed} :: 0 <= j < |s| ==>
            s[j].failed == if start <= j < i then f[j] + 1 else f[j]
        invariant (forall j :: cur <= j < i ==> f[j] <= 4) && (cur == start || f[cur - 1] > 4)
        decreases |s| - i
      {
        var failed := p.failed;
        p.failed := failed + 1;
        if failed > 4 {
          current := p.next;
          cur := i + 1;
        }
        p := p.next;
        i := i + 1;
      }
    }

    lemma StaircaseOf(f: seq<nat>)
      requires Valid() && f == Failures(blocks)
      ensures !wasReset ==> Stairs(f, cur)
    {
    }

    lemma SoundFacts()
      requires Sound()
      ensures cur < |blocks| && current == blocks[cur] && Distinct(blocks)
      ensures forall i, j :: 0 <= i < j < |slots| ==> slots[i] != slots[j]
      ensures forall i {:trigger blocks[i].next} :: 0 <= i < |blocks| ==> blocks[i].next == BlockAt(blocks, i + 1)
    {
    }

    /** A new block, with one region in it, at the end of the chain. */
    method Attach(p: Block, b: Block, start: nat, size: nat)
      requires Sound() && p == blocks[|blocks| - 1] && (!wasReset ==> AgedStaircase(blocks, cur))
      requires b !in blocks && b.size == first.size && b.failed == 0
      requires b.next == null && b.last == start + size <= b.size && DATA_HEADER <= start
      modifies p`next, this`blocks, this`regions
      ensures Valid() && blocks == old(blocks) + [b] && regions == old(regions) + [Region(b, start, start + size)]
    {
      hide Chain, Bounded, AllPlaced, ListOk, Staircase, AgedStaircase;
      ghost var s, rs := blocks, regions;
      p.next := b;
      ChainAppend(s, p, b);
      StaircaseAppend(s, b, cur);
      BoundedFrame(s, first.size);
      BoundedAppend(s, first.size, b);
      PlacedFrame(rs, s);
      RegionsAppend(rs, s, Region(b, start, start + size));
      blocks := s + [b];
      regions := rs + [Region(b, start, start + size)];
      ListGrown();
    }

    /** Cuts the region out of the free part of a block, if it fits. */
    method Cut(p: Block, size: nat, align: bool, ghost i: nat) returns (start: nat, ok: bool)
      requires Valid() && i < |blocks| && p == blocks[i]
      modifies p`last, this`regions
      ensures Valid() && start == Begin(old(p.last), align) && (ok <==> old(Fits(p, size, align)))
      ensures ok ==> p.last == start + size && GaveOut(At(p, start), size, align)
      ensures !ok ==> p.last == old(p.last) && regions == old(regions)
    {
      hide Chain, Bounded, Staircase, AllPlaced, ListOk;
      BlockFacts(i);
      BeginFits(p.last, p.size, align);
      ghost var rs := regions;
      start, ok := TryBlock(p, size, align);
      if ok {
        ChainFrame(blocks);
        LastsOk(first.size, p);
        BoundedBump(blocks, first.size);
        HeaderKept(start, i);
        RegionsBump(rs, blocks, Region(p, start, start + size));
        regions := rs + [Region(p, start, start + size)];
        ListGrown();
        StaircaseFrame(blocks, cur);
      }
    }

    twostate lemma LastsOk(size: nat, new p: Block)
      requires old(allocated(this)) && old(allocated(p)) && blocks == old(blocks) && old(Bounded(blocks, size))
      requires old(p.last) <= p.last <= size && forall b :: b in blocks && b != p ==> b.last == old(b.last)
      ensures forall b :: b in blocks ==> old(b.last) <= b.last <= size
    {
      forall b | b in blocks ensures old(b.last) <= size {
        var j :| 0 <= j < |blocks| && blocks[j] == b;
        assert old(blocks[j].last) <= size;
      }
    }

    lemma HeaderKept(start: nat, i: nat)
      requires Chain(blocks) && i < |blocks|
      ensures blocks[i] == BlockAt(blocks, 0) ==> i == 0
    {
    }

    twostate lemma ListGrown()
      requires old(allocated(this)) && old(ListOk()) && slots == old(slots)
      requires large == old(large) && old(regions) <= regions
      requires forall l :: l in slots ==> l.next == old(l.next)
      ensures ListOk()
    {
      assert forall i :: 0 <= i < |slots| ==> slots[i] in slots;
      forall i {:trigger slots[i]} | 0 <= i < |slots| ensures slots[i].place in regions {
        assert slots[i].place in old(regions);
      }
    }

    // -------------------------------------------------------------------------------------
    // Large allocations
    // -------------------------------------------------------------------------------------

    /** Every live large allocation sits in exactly one slot, and no slot holds anything else. */
    ghost predicate Held()
      reads this, slots
    {
      && NULL !in live && live == Allocs(slots)
      && forall i, j :: 0 <= i < j < |slots| ==> slots[i].alloc != slots[j].alloc || slots[i].alloc == NULL
    }

    /** Is there an empty slot among the first five? */
    ghost predicate Reusable()
      reads this, slots
    {
      exists i :: 0 <= i < |slots| && i < 5 && slots[i].alloc == NULL
    }

    /** Does some block from the current one on have the room, or does the system grant a new one? */
    ghost predicate CanCut(size: nat, align: bool, granted: bool)
      requires Valid()
      reads this, blocks, slots
    {
      granted || (cur <= |blocks| && FirstFit(cur, size, align) < |blocks|)
    }

    /** Slot `i`, the first one that held `was`, holds `now`, and the others what they held. */
    twostate predicate Changed(i: int, was: Ptr, now: Ptr)
      reads this, slots
    {
      && slots == old(slots) && 0 <= i < |slots| && old(slots[i].alloc) == was && slots[i].alloc == now
      && (forall j :: 0 <= j < i ==> old(slots[j].alloc) != was)
      && (forall j {:trigger slots[j].alloc} :: 0 <= j < |slots| && j != i ==> slots[j].alloc == old(slots[j].alloc))
    }

    /** lu_mm_palloc_large; `p` is what the system allocator answers, `freed` whether it went back there. */
    method PallocLarge(p: Ptr, granted: bool) returns (r: Ptr, freed: bool, ghost looked: nat)
      requires Valid() && Held() && p !in live
      modifies this, blocks, slots
      ensures Valid() && Held() && Kept() && (!old(wasReset) ==> looked <= 7)
      ensures r == NULL ==> live == old(live) && slots == old(slots) && regions == old(regions) && unchanged(slots)
      ensures r != NULL ==> r == p && live == old(live) + {p}
      ensures r != NULL && old(Reusable()) ==>
                slots == old(slots) && regions == old(regions) && exists i :: i < 5 && Changed(i, NULL, p)
      ensures r == NULL || !old(Reusable()) ==> forall l :: l in old(slots) ==> l.alloc == old(l.alloc)
      ensures r != NULL && !old(Reusable()) ==>
          |slots| == |old(slots)| + 1 && slots[1..] == old(slots) && slots[0].alloc == p
              && regions == old(regions) + [slots[0].place]
      ensures r == NULL <==> p == NULL || (!old(Reusable()) && !old(CanCut(LARGE_NODE, true, granted)))
      ensures freed <==> p != NULL && r == NULL
    {
      hide Sound, Staircase, Allocs, Disjoint;
      looked := 0;
      if p == NULL {
        return NULL, false, 0;
      }
      var found := FirstEmpty();
      if found != null {
        ghost var i :| 0 <= i < |slots| && i < 5 && slots[i] == found && forall j :: 0 <= j < i ==>
            slots[j].alloc != NULL;
        SoundFacts();
        FillSlot(found, p);
        assert Changed(i, NULL, p);
        return p, false, 0;
      }
      r, looked := AddSlot(p, granted);
      freed := r == NULL;
    }

    /** The first empty slot among the first five. */
    method FirstEmpty() returns (found: Large?)
      requires Valid()
      ensures found != null ==>
                exists i :: 0 <= i < |slots| && i < 5 && slots[i] == found && found.alloc == NULL && forall j ::
                    0 <= j < i ==> slots[j].alloc != NULL
      ensures found == null ==> !Reusable()
    {
      found := large;
      var n := 0;
      while found != null
        invariant 0 <= n <= 5 && found == SlotAt(slots, n)
        invariant forall i :: 0 <= i < n && i < |slots| ==> slots[i].alloc != NULL
        decreases 5 - n
      {
        if found.alloc == NULL {
          return;
        }
        if n > 3 {
          return null;
        }
        n := n + 1;
        found := found.next;
      }
    }

    method FillSlot(l: Large, p: Ptr)
      requires Valid() && Held() && l in slots && l.alloc == NULL && p != NULL && p !in live
      modifies l`alloc, this`live
      ensures Valid() && Held() && live == old(live) + {p} && l.alloc == p
    {
      hide Sound, Staircase;
      SoundFacts();
      ghost var i :| 0 <= i < |slots| && slots[i] == l;
      l.alloc := p;
      live := live + {p};
      SoundFrame();
      assert forall j :: 0 <= j < |slots| && j != i ==> slots[j].alloc == old(slots[j].alloc);
    }

    /** A new slot at the head of the list, its node cut from the pool. */
    method AddSlot(p: Ptr, granted: bool) returns (r: Ptr, ghost looked: nat)
      requires Valid() && Held() && p != NULL && p !in live
      modifies this, blocks
      ensures Valid() && Held() && Kept() && (!old(wasReset) ==> looked <= 7)
      ensures r == NULL <==> !old(CanCut(LARGE_NODE, true, granted))
      ensures r == NULL ==> live == old(live) && slots == old(slots) && regions == old(regions)
      ensures r != NULL ==>
          r == p && live == old(live) + {p} && |slots| == |old(slots)| + 1
              && slots[1..] == old(slots) && slots[0].alloc == p && regions == old(regions) + [slots[0].place]
    {
      hide Sound, Staircase, Allocs;
      MinimumSize();
      SlotsPlaced();
      var m;
      m, looked := PallocSmall(LARGE_NODE, true, granted);
      if m == Null {
        return NULL, looked;
      }
      PushSlot(p, m, old(regions));
      r := p;
    }

    lemma MinimumSize()
      requires Valid()
      ensures LARGE_NODE <= first.size - DATA_HEADER
    {
    }

    lemma SlotsPlaced()
      requires Valid()
      ensures forall i {:trigger slots[i]} :: 0 <= i < |slots| ==> slots[i].place in regions
    {
    }

    /** Links a new node, at the place just cut for it, in front of the list. */
    method PushSlot(p: Ptr, m: Address, ghost before: seq<Region>)
      requires Valid() && Held() && p != NULL && p !in live && m.At? && m.offset % ALIGNMENT == 0
      requires regions == before + [Region(m.block, m.offset, m.offset + LARGE_NODE)]
      requires forall i {:trigger slots[i]} :: 0 <= i < |slots| ==> slots[i].place in before
      modifies this`large, this`slots, this`live
      ensures Valid() && Held() && live == old(live) + {p}
      ensures |slots| == |old(slots)| + 1 && slots[1..] == old(slots) && slots[0].alloc == p && fresh(slots[0])
      ensures slots[0].place == Region(m.block, m.offset, m.offset + LARGE_NODE)
    {
      hide Chain, Bounded, Staircase, Allocs, AllPlaced;
      var node := new Large(Region(m.block, m.offset, m.offset + LARGE_NODE), p, large);
      ghost var s := slots;
      LatestDisjoint(regions, blocks, before);
      large := node;
      slots := [node] + s;
      live := live + {p};
      AllocsPush(node, s);
      assert forall i :: 0 < i < |slots| ==> slots[i] == s[i - 1];
      ListPush(node, s);
    }

    /** lu_mm_pool_memalign: a slot of its own, without looking for an empty one. */
    method Memalign(p: Ptr, granted: bool) returns (r: Ptr, freed: bool, ghost looked: nat)
      requires Valid() && Held() && p !in live
      modifies this, blocks
      ensures Valid() && Held() && Kept() && (!old(wasReset) ==> looked <= 7)
      ensures r == NULL ==> live == old(live) && slots == old(slots) && regions == old(regions)
      ensures r != NULL ==> r == p && live == old(live) + {p}
      ensures r != NULL ==> |slots| == |old(slots)| + 1 && slots[1..] == old(slots) && slots[0].alloc == p
      ensures r != NULL ==> regions == old(regions) + [slots[0].place]
      ensures r == NULL <==> p == NULL || !old(CanCut(LARGE_NODE, true, granted))
      ensures freed <==> p != NULL && r == NULL
    {
      if p == NULL {
        return NULL, false, 0;
      }
      r, looked := AddSlot(p, granted);
      freed := r == NULL;
    }

    /** lu_mm_pool_alloc (aligned) and lu_mm_pool_nalloc (not aligned). */
    method Alloc(size: nat, align: bool, p: Ptr, granted: bool)
      returns (m: Address, r: Ptr, freed: bool, ghost looked: nat)
      requires Valid() && Held() && p !in live
      modifies this, blocks, slots
      ensures Valid() && Held() && Kept() && (!old(wasReset) ==> looked <= 7)
      ensures size <= max ==> r == NULL && live == old(live) && (m != Null ==> GaveOut(m, size, align))
      ensures size <= max && m == Null ==> regions == old(regions) && slots == old(slots)
      ensures var k := old(FirstFit(cur, size, align)); size <= max && k < old(|blocks|) ==>
                blocks == old(blocks) && m == At(blocks[k], old(Begin(blocks[k].last, align)))
      ensures size <= max && old(FirstFit(cur, size, align)) == old(|blocks|) && granted ==>
                m.At? && blocks == old(blocks) + [m.block] && fresh(m.block) && m.offset == Align(DATA_HEADER)
      ensures size > max ==>
          || (regions == old(regions) && slots == old(slots))
          || (slots != [] && slots[1..] == old(slots) && regions == old(regions) + [slots[0].place])
      ensures size <= max ==> !freed && (m == Null <==> !old(CanCut(size, align, granted)))
      ensures size > max ==> m == Null && live == old(live) + (if r == NULL then {} else {p}) && (r == NULL || r == p)
      ensures size > max ==>
          (r == NULL <==> p == NULL || (!old(Reusable()) && !old(CanCut(LARGE_NODE, true, granted))))
      ensures size > max ==> (freed <==> p != NULL && r == NULL)
    {
      m, r, freed := Null, NULL, false;
      if size <= max {
        m, looked := PallocSmall(size, align, granted);
      } else {
        r, freed, looked := PallocLarge(p, granted);
      }
    }

    /** lu_mm_pool_free: empties the first slot that holds the address. */
    method Free(p: Ptr) returns (ok: bool)
      requires Valid() && Held()
      modifies slots`alloc, this`live
      ensures Valid() && Held()
      ensures ok <==> exists l :: l in slots && old(l.alloc) == p
      ensures live == old(live) - {p}
      ensures ok ==> exists i :: Changed(i, p, NULL)
      ensures !ok ==> unchanged(slots)
    {
      var l := large;
      ghost var i := 0;
      while l != null
        invariant 0 <= i <= |slots| && l == SlotAt(slots, i)
        invariant Valid() && Held() && unchanged(slots) && unchanged(this)
        invariant forall j :: 0 <= j < i ==> slots[j].alloc != p
        decreases |slots| - i
      {
        if p == l.alloc {
          SoundFacts();
          Empty(l, i);
          assert Changed(i, p, NULL);
          return true;
        }
        l := l.next;
        i := i + 1;
      }
      ok := false;
    }

    method Empty(l: Large, ghost i: nat)
      requires Valid() && Held() && i < |slots| && slots[i] == l
      modifies l`alloc, this`live
      ensures Valid() && Held() && live == old(live) - {old(l.alloc)} && l.alloc == NULL
    {
      hide Sound, Staircase;
      SoundFacts();
      live := live - {l.alloc};
      l.alloc := NULL;
      SoundFrame();
      assert forall j :: 0 <= j < |slots| && j != i ==> slots[j].alloc == old(slots[j].alloc);
    }

    /** The walk over the list that releases every large allocation. */
    method FreeLarge() returns (freed: seq<Ptr>)
      requires Valid() && Held()
      ensures Once(freed, live)
    {
      freed := [];
      var l := large;
      ghost var i := 0;
      assert slots[..0] == [];
      while l != null
        invariant 0 <= i <= |slots| && l == SlotAt(slots, i) && freed == Released(slots[..i])
        decreases |slots| - i
      {
        assert slots[..i + 1] == slots[..i] + [slots[i]];
        ReleasedSnoc(slots[..i], slots[i]);
        if l.alloc != NULL {
          freed := freed + [l.alloc];
        }
        l := l.next;
        i := i + 1;
      }
      assert slots[..i] == slots;
      ReleasedOnce(slots);
    }

    /** lu_mm_reset_pool: the large allocations go back to the system, the blocks are emptied. */
    method Reset() returns (freed: seq<Ptr>)
      requires Valid() && Held()
      modifies this, blocks
      ensures Valid() && Held() && Once(freed, old(live))
      ensures blocks == old(blocks) && cur == 0 && regions == [] && slots == [] && live == {} && wasReset
      ensures forall b :: b in blocks ==> b.last == POOL_HEADER && b.failed == 0
    {
      hide *;
      FixedParts();
      freed := FreeLarge();
      SizesOk();
      Clear();
      ClearedOk();
      Restart();
    }

    /** What no operation changes. */
    ghost predicate Fixed()
      reads this
    {
      blocks != [] && first == blocks[0] && MIN_POOL <= first.size
          && first.size % ALIGNMENT == 0 && max <= first.size - POOL_HEADER
    }

    lemma FixedParts()
      requires Valid()
      ensures Fixed()
    {
    }

    /** The pool starts again at its first block. */
    method Restart()
      requires Fixed() && Chain(blocks) && Bounded(blocks, first.size) && AllPlaced([], blocks)
      modifies this
      ensures Valid() && Held()
      ensures blocks == old(blocks) && cur == 0 && regions == [] && slots == [] && live == {} && wasReset
    {
      hide Chain, Bounded, AllPlaced, Staircase;
      current, cur := first, 0;
      large := null;
      regions, slots, live, wasReset := [], [], {}, true;
    }

    lemma SizesOk()
      requires Valid()
      ensures first in blocks && forall b :: b in blocks ==> b.size == first.size
    {
      forall b | b in blocks ensures b.size == first.size {
        var j :| 0 <= j < |blocks| && blocks[j] == b;
        assert blocks[j].last <= first.size;
      }
    }

    /** Nothing is left in the blocks or in the list. */
    lemma ClearedOk()
      requires Chain(blocks) && Fixed()
      requires forall b :: b in blocks ==> b.last == POOL_HEADER && b.size == first.size
      ensures Bounded(blocks, first.size) && AllPlaced([], blocks)
    {
      assert forall i :: 0 <= i < |blocks| ==> blocks[i] in blocks;
    }

    /** The walk over the blocks that empties them. */
    method Clear()
      requires Valid()
      modifies blocks`last, blocks`failed
      ensures Chain(blocks) && Fixed() && forall b :: b in blocks ==> b.last == POOL_HEADER && b.failed == 0
    {
      var p: Block? := first;
      ghost var i, s := 0, blocks;
      while p != null
        invariant 0 <= i <= |s| && p == BlockAt(s, i) && Chain(s)
        invariant forall j {:trigger s[j]} :: 0 <= j < i ==> s[j].last == POOL_HEADER && s[j].failed == 0
        decreases |s| - i
      {
        p.last := POOL_HEADER;
        p.failed := 0;
        p := p.next;
        i := i + 1;
      }
      forall b | b in s ensures b.last == POOL_HEADER && b.failed == 0 {
        var j :| 0 <= j < |s| && s[j] == b;
        assert s[j].last == POOL_HEADER;
      }
    }

    /**
     lu_mm_destroy_pool: releases every large allocation once, then every block once; no block is
     read or released after it was released.
     */
    method Destroy() returns (freed: seq<Ptr>, ghost trace: seq<Access>)
      requires Valid() && Held()
      ensures Once(freed, live)
      ensures Safe(trace) && ReleasedBlocks(trace) == blocks
    {
      freed := FreeLarge();
      trace := FreeBlocks();
    }

    method FreeBlocks() returns (ghost trace: seq<Access>)
      requires Valid()
      ensures Safe(trace) && ReleasedBlocks(trace) == blocks
    {
      hide Bounded, AllPlaced, ListOk, Staircase, Walk, Safe, ReleasedBlocks;
      var p, n := first, first.next;
      ghost var i, s := 0, blocks;
      trace := [Read(first)];
      WalkNone(s);
      while true
        invariant 0 <= i < |s| && p == s[i] && n == BlockAt(s, i + 1) && trace == Walk(s[..i]) + [Read(p)]
        decreases |s| - i
      {
        trace := trace + [Release(p)];
        WalkSnoc(s[..i], s[i]);
        assert s[..i + 1] == s[..i] + [s[i]];
        assert trace == Walk(s[..i + 1]);
        if n == null {
          break;
        }
        trace := trace + [Read(n)];
        p, n := n, n.next;
        i := i + 1;
      }
      assert s[..i + 1] == s;
      WalkSafe(s);
    }

    /** The list with a new node in front. */
    lemma ListPush(node: Large, s: seq<Large>)
      requires slots == [node] + s && large == node && node !in s && node.next == SlotAt(s, 0)
      requires forall i {:trigger s[i].next} :: 0 <= i < |s| ==> s[i].next == SlotAt(s, i + 1)
      requires forall i, j :: 0 <= i < j < |s| ==> s[i] != s[j] && Disjoint(s[i].place, s[j].place)
      requires forall i {:trigger s[i]} :: 0 <= i < |s| ==>
                 s[i].place in regions && s[i].place.end == s[i].place.start + LARGE_NODE
                     && s[i].place.start % ALIGNMENT == 0
      requires node.place in regions && node.place.end == node.place.start + LARGE_NODE
      requires node.place.start % ALIGNMENT == 0
      requires forall i {:trigger s[i]} :: 0 <= i < |s| ==> Disjoint(s[i].place, node.place)
      ensures ListOk()
    {
      assert forall i :: 0 < i < |slots| ==> slots[i] == s[i - 1];
    }
  }

  lemma AllocsPush(l: Large, s: seq<Large>)
    requires l.alloc != NULL
    ensures Allocs([l] + s) == Allocs(s) + {l.alloc}
    ensures forall i {:trigger s[i].alloc} :: 0 <= i < |s| && s[i].alloc != NULL ==> s[i].alloc in Allocs(s)
  {
    var t := [l] + s;
    assert t[0] == l && forall i :: 0 <= i < |s| ==> t[i + 1] == s[i];
  }

  lemma LatestDisjoint(regions: seq<Region>, s: seq<Block>, before: seq<Region>)
    requires AllPlaced(regions, s) && |regions| == |before| + 1 && regions[..|before|] == before
    ensures forall r :: r in before ==> Disjoint(r, regions[|before|])
  {
    forall r | r in before ensures Disjoint(r, regions[|before|]) {
      var i :| 0 <= i < |before| && before[i] == r;
      assert regions[i] == r;
    }
  }

  /** The large allocations in a list of slots. */
  ghost function Allocs(s: seq<Large>): set<Ptr>
    reads s
  {
    set i | 0 <= i < |s| && s[i].alloc != NULL :: s[i].alloc
  }

  /** `freed` lists the allocations of `live`, each once. */
  ghost predicate Once(freed: seq<Ptr>, live: set<Ptr>) {
    && (forall i, j :: 0 <= i < j < |freed| ==> freed[i] != freed[j])
    && (forall p :: p in freed <==> p in live)
  }

  /** The allocations in a list of slots, in its order. */
  ghost function Released(s: seq<Large>): seq<Ptr>
    reads s
  {
    if s == [] then []
    else
      var l := s[|s| - 1];
      Released(s[..|s| - 1]) + if l.alloc != NULL then [l.alloc] else []
  }

  lemma ReleasedSnoc(s: seq<Large>, l: Large)
    ensures Released(s + [l]) == Released(s) + if l.alloc != NULL then [l.alloc] else []
  {
    assert (s + [l])[..|s|] == s;
  }

  lemma {:induction false} ReleasedOnce(s: seq<Large>)
    requires forall i, j :: 0 <= i < j < |s| ==> s[i].alloc != s[j].alloc || s[i].alloc == NULL
    ensures Once(Released(s), Allocs(s))
  {
    if s != [] {
      var n := |s| - 1;
      ReleasedOnce(s[..n]);
      AllocsSnoc(s, n);
      if s[n].alloc != NULL { OnceSnoc(Released(s[..n]), Allocs(s[..n]), s[n].alloc); }
    }
  }

  lemma AllocsSnoc(s: seq<Large>, n: nat)
    requires |s| == n + 1
    ensures Allocs(s) == Allocs(s[..n]) + if s[n].alloc != NULL then {s[n].alloc} else {}
    ensures (forall i :: 0 <= i < n ==> s[i].alloc != s[n].alloc || s[i].alloc == NULL) ==>
        s[n].alloc !in Allocs(s[..n])
  {
    assert forall i :: 0 <= i < n ==> s[..n][i] == s[i];
  }

  lemma OnceSnoc(freed: seq<Ptr>, live: set<Ptr>, p: Ptr)
    requires Once(freed, live) && p !in live
    ensures Once(freed + [p], live + {p})
  {
  }

  /** What the walk over the blocks does to them. */
  datatype Access = Read(block: Block) | Release(block: Block)

  /** Nothing is touched after it was released. */
  predicate Safe(trace: seq<Access>) {
    forall i, j :: 0 <= i < j < |trace| && trace[i].Release? ==> trace[j].block != trace[i].block
  }

  function ReleasedBlocks(trace: seq<Access>): seq<Block> {
    if trace == [] then []
    else
      var a := trace[|trace| - 1];
      ReleasedBlocks(trace[..|trace| - 1]) + if a.Release? then [a.block] else []
  }

  /** Each block is read and then released, in order. */
  function Walk(s: seq<Block>): seq<Access> {
    if s == [] then [] else Walk(s[..|s| - 1]) + [Read(s[|s| - 1]), Release(s[|s| - 1])]
  }

  lemma WalkNone(s: seq<Block>)
    ensures Walk(s[..0]) == []
  {
  }

  lemma WalkSnoc(s: seq<Block>, b: Block)
    ensures Walk(s + [b]) == Walk(s) + [Read(b), Release(b)]
  {
    assert (s + [b])[..|s|] == s;
  }

  lemma {:induction false} WalkSafe(s: seq<Block>)
    requires Distinct(s)
    ensures Safe(Walk(s)) && ReleasedBlocks(Walk(s)) == s
    ensures forall i {:trigger Walk(s)[i]} :: 0 <= i < |Walk(s)| ==> Walk(s)[i].block in s
  {
    if s != [] {
      var n := |s| - 1;
      WalkSafe(s[..n]);
      assert forall i :: 0 <= i < n ==> s[..n][i] == s[i];
      SafeSnoc(Walk(s[..n]), s[..n], s[n]);
      assert s == s[..n] + [s[n]];
      WalkSnoc(s[..n], s[n]);
    }
  }

  lemma SafeSnoc(t: seq<Access>, s: seq<Block>, b: Block)
    requires Safe(t) && ReleasedBlocks(t) == s && b !in s
    requires forall i {:trigger t[i]} :: 0 <= i < |t| ==> t[i].block in s
    ensures var w := t + [Read(b), Release(b)];
            && Safe(w) && ReleasedBlocks(w) == s + [b]
            && forall i {:trigger w[i]} :: 0 <= i < |w| ==> w[i].block in s + [b]
  {
    hide ReleasedBlocks;
    var w := t + [Read(b), Release(b)];
    ReleasedBlocksSnoc(t, Read(b));
    ReleasedBlocksSnoc(t + [Read(b)], Release(b));
    assert w == t + [Read(b)] + [Release(b)];
    assert forall i :: 0 <= i < |t| ==> w[i] == t[i];
  }

  lemma ReleasedBlocksSnoc(t: seq<Access>, a: Access)
    ensures ReleasedBlocks(t + [a]) == ReleasedBlocks(t) + if a.Release? then [a.block] else []
  {
    assert (t + [a])[..|t|] == t;
  }

  lemma BeginFits(last: nat, size: nat, align: bool)
    requires last <= size && size % ALIGNMENT == 0
    ensures last <= Begin(last, align) <= size
  {
  }

  function SlotAt(s: seq<Large>, i: int): Large? {
    if 0 <= i < |s| then s[i] else null
  }
}
