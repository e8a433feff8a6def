/** Whole runs over the memory pool of src/lu_mm_pool_palloc.c, from its creation to its end. */
module PoolRuns {
  import opened MemoryPool

  /** The calls a user of the pool can make; `Alloc` is lu_mm_pool_alloc or lu_mm_pool_nalloc. */
  datatype Request = Alloc(size: nat, align: bool) | Memalign | Free(p: Ptr) | Reset

  /** Bytes of a block, an allocation of the system, a look at the list, an empty pool, or NULL. */
  datatype Answer = Cut(region: Region) | Took(p: Ptr) | Looked(found: bool) | Emptied | Refused

  /** Is `a` of the kind, the size and the alignment that `q` asks for? */
  predicate Suits(q: Request, a: Answer, max: nat) {
    match q
    case Alloc(size, align) =>
      || a.Refused?
      || (size > max && a.Took? && a.p != NULL)
      || (size <= max && a.Cut? && a.region.end == a.region.start + size
          && (align ==> a.region.start % ALIGNMENT == 0))
    case Memalign => a.Refused? || (a.Took? && a.p != NULL)
    case Free(p) => a.Looked?
    case Reset => a.Emptied?
  }

  /** The bytes handed out since the pool was last emptied. */
  function Given(answers: seq<Answer>): seq<Region> {
    if answers == [] then []
    else
      var before := Given(answers[..|answers| - 1]);
      match answers[|answers| - 1]
      case Cut(r) => before + [r]
      case Emptied => []
      case _ => before
  }

  /** What a user who held `owned` holds after one call. */
  function Owned(owned: set<Ptr>, q: Request, a: Answer): set<Ptr> {
    match a
    case Took(p) => owned + {p}
    case Looked(_) => if q.Free? then owned - {q.p} else owned
    case Emptied => {}
    case _ => owned
  }

  /** The large allocations that a user who started with none holds after a run. */
  function Holds(requests: seq<Request>, answers: seq<Answer>): set<Ptr>
    requires |requests| == |answers|
  {
    if answers == [] then {}
    else
      var n := |answers| - 1;
      Owned(Holds(requests[..n], answers[..n]), requests[n], answers[n])
  }

  lemma HoldsSnoc(requests: seq<Request>, answers: seq<Answer>, a: Answer)
    requires |answers| < |requests|
    ensures Holds(requests[..|answers| + 1], answers + [a])
         == Owned(Holds(requests[..|answers|], answers), requests[|answers|], a)
  {
    assert requests[..|answers| + 1][..|answers|] == requests[..|answers|];
    assert (answers + [a])[..|answers|] == answers;
  }

  ghost function Places(slots: seq<Large>): (r: seq<Region>)
    ensures |r| == |slots| && forall i :: 0 <= i < |slots| ==> r[i] == slots[i].place
  {
    seq(|slots|, i requires 0 <= i < |slots| => slots[i].place)
  }

  // ---------------------------------------------------------------------------------------
  // The traffic with the system allocator
  // ---------------------------------------------------------------------------------------

  /** A large allocation comes from the system, or goes back. */
  datatype Call = Take(p: Ptr) | Give(p: Ptr)

  function After(held: set<Ptr>, c: Call): set<Ptr> {
    match c
    case Take(p) => held + {p}
    case Give(p) => held - {p}
  }

  /** Only what is held goes back; giving back NULL is harmless. */
  predicate Proper(held: set<Ptr>, c: Call) {
    match c
    case Take(p) => p != NULL && p !in held
    case Give(p) => p == NULL || p in held
  }

  function Outstanding(held: set<Ptr>, log: seq<Call>): set<Ptr>
    decreases |log|
  {
    if log == [] then held else Outstanding(After(held, log[0]), log[1..])
  }

  predicate Lawful(held: set<Ptr>, log: seq<Call>)
    decreases |log|
  {
    log == [] || (Proper(held, log[0]) && Lawful(After(held, log[0]), log[1..]))
  }

  lemma {:induction false} LogAppend(held: set<Ptr>, a: seq<Call>, b: seq<Call>)
    ensures Outstanding(held, a + b) == Outstanding(Outstanding(held, a), b)
    ensures Lawful(held, a + b) <==> Lawful(held, a) && Lawful(Outstanding(held, a), b)
    decreases |a|
  {
    if a == [] {
      assert a + b == b;
    } else {
      assert (a + b)[1..] == a[1..] + b;
      LogAppend(After(held, a[0]), a[1..], b);
    }
  }

  function Gives(freed: seq<Ptr>): seq<Call> {
    if freed == [] then [] else [Give(freed[0])] + Gives(freed[1..])
  }

  /** Giving back each held allocation once is proper and leaves none. */
  lemma {:induction false} GiveAll(freed: seq<Ptr>, held: set<Ptr>)
    requires Once(freed, held)
    ensures Lawful(held, Gives(freed)) && Outstanding(held, Gives(freed)) == {}
  {
    if freed == [] {
      assert held == {};
    } else {
      assert freed[0] in held;
      assert forall p :: p in freed[1..] <==> p in held - {freed[0]};
      GiveAll(freed[1..], held - {freed[0]});
      assert Gives(freed)[1..] == Gives(freed[1..]);
    }
  }

  /** From `before`, the calls are proper and leave `live` outstanding. */
  predicate Settles(before: set<Ptr>, calls: seq<Call>, live: set<Ptr>) {
    Lawful(before, calls) && Outstanding(before, calls) == live
  }

  /** What the pool asks the system for when a large request is answered with `p`. */
  function LargeCalls(p: Ptr, freed: bool): seq<Call> {
    if p == NULL then [] else [Take(p)] + if freed then [Give(p)] else []
  }

  lemma LargeSettles(held: set<Ptr>, p: Ptr, freed: bool)
    requires p !in held && NULL !in held
    ensures Settles(held, LargeCalls(p, freed), if p == NULL || freed then held else held + {p})
  {
    var calls := LargeCalls(p, freed);
    if p != NULL {
      assert calls[1..] == if freed then [Give(p)] else [];
      assert held + {p} - {p} == held;
      assert freed ==> Outstanding(held + {p}, calls[1..]) == held && Lawful(held + {p}, calls[1..]);
    }
  }

  // ---------------------------------------------------------------------------------------
  // One request
  // ---------------------------------------------------------------------------------------

  /** How an answer shows in the regions and the list of the pool. */
  twostate predicate Recorded(pool: Pool, new a: Answer)
    reads pool
  {
    match a
    case Cut(r) =>
      pool.regions == old(pool.regions) + [r] && pool.slots == old(pool.slots) && pool.wasReset == old(pool.wasReset)
    case Emptied => pool.regions == [] && pool.slots == [] && pool.wasReset
    case _ =>
      && pool.wasReset == old(pool.wasReset)
      && (|| (pool.regions == old(pool.regions) && pool.slots == old(pool.slots))
          || (pool.slots != [] && pool.slots[1..] == old(pool.slots)
              && pool.regions == old(pool.regions) + [pool.slots[0].place]))
  }

  /** Blocks and list nodes are the old ones or new. */
  twostate predicate Framed(pool: Pool)
    reads pool
  {
    && (forall i :: 0 <= i < |pool.blocks| ==> pool.blocks[i] in old(pool.blocks) || fresh(pool.blocks[i]))
    && (forall i :: 0 <= i < |pool.slots| ==> pool.slots[i] in old(pool.slots) || fresh(pool.slots[i]))
  }

  /** One call; `p` is what the system would answer, `granted` whether it has memory for a block. */
  method Serve(pool: Pool, q: Request, p: Ptr, granted: bool)
    returns (a: Answer, calls: seq<Call>, ghost looked: nat)
    requires pool.Valid() && pool.Held() && (p == NULL || p !in pool.live)
    modifies pool, pool.blocks, pool.slots
    ensures pool.Valid() && pool.Held() && Framed(pool)
    ensures Suits(q, a, pool.max) && Recorded(pool, a) && (q.Reset? <==> a.Emptied?)
    ensures Settles(old(pool.live), calls, pool.live) && pool.live == Owned(old(pool.live), q, a)
    ensures !old(pool.wasReset) ==> looked <= 7
  {
    hide Pool.Valid, Settles, Allocs, Once;
    calls, looked := [], 0;
    match q
    case Alloc(size, align) =>
      a, calls, looked := ServeAlloc(pool, size, align, p, granted);
    case Memalign =>
      var r, freed;
      r, freed, looked := pool.Memalign(p, granted);
      calls := LargeCalls(p, freed);
      LargeSettles(old(pool.live), p, freed);
      a := if r == NULL then Refused else Took(r);
    case Free(x) =>
      HeldAt(pool, x);
      var ok := pool.Free(x);
      calls := if ok then [Give(x)] else [];
      a := Looked(ok);
      FreeSettles(old(pool.live), x, ok);
    case Reset =>
      var freed := pool.Reset();
      calls := Gives(freed);
      a := Emptied;
      ResetSettles(freed, old(pool.live));
  }

  method ServeAlloc(pool: Pool, size: nat, align: bool, p: Ptr, granted: bool)
    returns (a: Answer, calls: seq<Call>, ghost looked: nat)
    requires pool.Valid() && pool.Held() && (p == NULL || p !in pool.live)
    modifies pool, pool.blocks, pool.slots
    ensures pool.Valid() && pool.Held() && Framed(pool)
    ensures Suits(Alloc(size, align), a, pool.max) && Recorded(pool, a) && !a.Emptied?
    ensures Settles(old(pool.live), calls, pool.live)
    ensures pool.live == Owned(old(pool.live), Alloc(size, align), a)
    ensures !old(pool.wasReset) ==> looked <= 7
  {
    hide Pool.Valid, Settles, Allocs;
    calls := [];
    var m, r, freed;
    m, r, freed, looked := pool.Alloc(size, align, p, granted);
    if size <= pool.max {
      a := if m == Null then Refused else Cut(Region(m.block, m.offset, m.offset + size));
      NothingSettles(pool.live);
    } else {
      calls := LargeCalls(p, freed);
      LargeSettles(old(pool.live), p, freed);
      assert pool.live == if p == NULL || freed then old(pool.live) else old(pool.live) + {p};
      a := if r == NULL then Refused else Took(r);
    }
  }

  lemma NothingSettles(live: set<Ptr>)
    ensures Settles(live, [], live)
  {
  }

  lemma ResetSettles(freed: seq<Ptr>, live: set<Ptr>)
    requires Once(freed, live)
    ensures Settles(live, Gives(freed), {})
  {
    GiveAll(freed, live);
  }

  /** An address is held exactly if some node keeps it; an empty node keeps NULL. */
  lemma HeldAt(pool: Pool, p: Ptr)
    requires pool.Held()
    ensures (exists l :: l in pool.slots && l.alloc == p) ==> p == NULL || p in pool.live
    ensures p in pool.live ==> exists l :: l in pool.slots && l.alloc == p
  {
    if p in pool.live {
      var i :| 0 <= i < |pool.slots| && pool.slots[i].alloc == p;
      assert pool.slots[i] in pool.slots;
    }
    if l :| l in pool.slots && l.alloc == p {
      var i :| 0 <= i < |pool.slots| && pool.slots[i] == l;
      assert p == NULL || p in Allocs(pool.slots);
    }
  }

  lemma FreeSettles(held: set<Ptr>, p: Ptr, ok: bool)
    requires if ok then p == NULL || p in held else p !in held
    ensures Settles(held, if ok then [Give(p)] else [], held - {p})
  {
  }

  // ---------------------------------------------------------------------------------------
  // Runs
  // ---------------------------------------------------------------------------------------

  /** The bytes given out are known to the pool and overlap neither each other nor a list node. */
  ghost predicate Apart(given: seq<Region>, regions: seq<Region>, slots: seq<Large>) {
    && (forall r :: r in given ==> r in regions)
    && (forall i, j :: 0 <= i < j < |given| ==> Disjoint(given[i], given[j]))
    && (forall r, l :: r in given && l in slots ==> Disjoint(r, l.place))
  }

  lemma ApartCut(given: seq<Region>, pool: Pool, before: seq<Region>, r: Region)
    requires pool.Valid() && pool.regions == before + [r] && Apart(given, before, pool.slots)
    requires forall l :: l in pool.slots ==> l.place in before
    ensures Apart(given + [r], pool.regions, pool.slots)
  {
    LatestDisjoint(pool.regions, pool.blocks, before);
    forall l | l in pool.slots ensures Disjoint(r, l.place) {
      assert Disjoint(l.place, r);
    }
  }

  lemma ApartNode(given: seq<Region>, pool: Pool, before: seq<Region>, slots: seq<Large>)
    requires pool.Valid() && Apart(given, before, slots)
    requires pool.slots != [] && pool.slots[1..] == slots && pool.regions == before + [pool.slots[0].place]
    ensures Apart(given, pool.regions, pool.slots)
  {
    LatestDisjoint(pool.regions, pool.blocks, before);
    assert pool.slots == [pool.slots[0]] + slots;
  }

  /** An answer keeps everything given out apart. */
  twostate lemma ApartStep(new pool: Pool, new answers: seq<Answer>, new a: Answer)
    requires old(allocated(pool)) && old(pool.Valid()) && pool.Valid() && Recorded(pool, a)
    requires Apart(Given(answers), old(pool.regions), old(pool.slots))
    ensures Apart(Given(answers + [a]), pool.regions, pool.slots)
  {
    assert (answers + [a])[..|answers|] == answers;
    if a.Cut? {
      OldPlaces(pool);
      ApartCut(Given(answers), pool, old(pool.regions), a.region);
    } else if !a.Emptied? && pool.regions != old(pool.regions) {
      ApartNode(Given(answers), pool, old(pool.regions), old(pool.slots));
    }
  }

  twostate lemma OldPlaces(new pool: Pool)
    requires old(allocated(pool)) && old(pool.Valid())
    ensures forall l :: l in old(pool.slots) ==> l.place in old(pool.regions)
  {
    assert forall i {:trigger old(pool.slots)[i]} :: 0 <= i < |old(pool.slots)| ==>
        old(pool.slots)[i].place in old(pool.regions);
  }

  /** All bytes in use: what was given out and the nodes of the list. */
  lemma AllApart(given: seq<Region>, pool: Pool)
    requires pool.Valid() && Apart(given, pool.regions, pool.slots)
    ensures AllPlaced(given + Places(pool.slots), pool.blocks)
  {
    var all := given + Places(pool.slots);
    forall i {:trigger all[i]} | 0 <= i < |all| ensures all[i].block in pool.blocks && Placed(all[i], pool.blocks) {
      assert all[i] in pool.regions by {
        if i < |given| { assert all[i] in given; } else { assert all[i] == pool.slots[i - |given|].place; }
      }
      var k :| 0 <= k < |pool.regions| && pool.regions[k] == all[i];
      assert Placed(pool.regions[k], pool.blocks);
    }
    forall i, j | 0 <= i < j < |all| ensures Disjoint(all[i], all[j]) {
      if i < |given| <= j {
        assert all[i] in given && pool.slots[j - |given|] in pool.slots;
      } else if |given| <= i {
        assert all[i] == pool.slots[i - |given|].place && all[j] == pool.slots[j - |given|].place;
      }
    }
  }

  predicate NoReset(requests: seq<Request>) {
    forall k :: 0 <= k < |requests| ==> !requests[k].Reset?
  }

  /** The system never hands out an allocation that is still held. */
  ghost predicate Honest(system: (nat, set<Ptr>) -> Ptr) {
    forall i, held :: system(i, held) == NULL || system(i, held) !in held
  }

  /**
   Any run on a pool without allocations: all that was given out since the last reset and all list
   nodes lie in the blocks without overlap, large allocations are taken and given back properly,
   and at most 7 blocks are looked at until the first reset.
   */
  method Run(pool: Pool, requests: seq<Request>, system: (nat, set<Ptr>) -> Ptr, grants: nat -> bool)
    returns (answers: seq<Answer>, log: seq<Call>, ghost looks: seq<nat>)
    requires pool.Valid() && pool.Held() && pool.regions == [] && pool.slots == [] && Honest(system)
    modifies pool, pool.blocks
    ensures pool.Valid() && pool.Held() && Framed(pool)
    ensures |answers| == |requests| && forall k :: 0 <= k < |requests| ==> Suits(requests[k], answers[k], pool.max)
    ensures AllPlaced(Given(answers) + Places(pool.slots), pool.blocks)
    ensures Settles({}, log, pool.live) && pool.live == Holds(requests, answers)
    ensures |looks| == |requests|
    ensures forall k :: 0 <= k < |requests| && !old(pool.wasReset) && NoReset(requests[..k]) ==> looks[k] <= 7
  {
    hide Pool.Valid, Given, Holds, Owned, Recorded, Lawful, Outstanding, Allocs;
    answers, log, looks := [], [], [];
    StartSettles(pool);
    for i := 0 to |requests|
      invariant pool.Valid() && pool.Held() && Framed(pool)
      invariant |answers| == i && forall k :: 0 <= k < i ==> Suits(requests[k], answers[k], pool.max)
      invariant Apart(Given(answers), pool.regions, pool.slots)
      invariant Settles({}, log, pool.live) && pool.live == Holds(requests[..i], answers)
      invariant !old(pool.wasReset) && NoReset(requests[..i]) ==> !pool.wasReset
      invariant |looks| == i
      invariant forall k :: 0 <= k < i && !old(pool.wasReset) && NoReset(requests[..k]) ==> looks[k] <= 7
    {
      label Before:
      var p := system(i, Outstanding({}, log));
      var a, calls;
      ghost var looked;
      a, calls, looked := Serve(pool, requests[i], p, grants(i));
      ApartStep@Before(pool, answers, a);
      LogAppend({}, log, calls);
      ResetMark@Before(pool, requests, i, a);
      HoldsSnoc(requests, answers, a);
      answers, log, looks := answers + [a], log + calls, looks + [looked];
    }
    AllApart(Given(answers), pool);
    assert requests[..|requests|] == requests;
  }

  lemma StartSettles(pool: Pool)
    requires pool.Held() && pool.slots == []
    ensures Settles({}, [], pool.live) && pool.live == Holds([], []) && Apart(Given([]), pool.regions, pool.slots)
  {
  }

  twostate lemma ResetMark(new pool: Pool, new requests: seq<Request>, i: nat, new a: Answer)
    requires old(allocated(pool)) && i < |requests| && Recorded(pool, a) && (requests[i].Reset? <==> a.Emptied?)
    ensures NoReset(requests[..i + 1]) ==> NoReset(requests[..i]) && pool.wasReset == old(pool.wasReset)
  {
    assert forall k :: 0 <= k < i ==> requests[..i + 1][k] == requests[..i][k];
    assert requests[..i + 1][i] == requests[i];
  }

  /**
   From the creation of a pool over any run to its destruction: every large allocation taken from
   the system goes back to it, once.
   */
  method WholeRun(size: nat, requests: seq<Request>, system: (nat, set<Ptr>) -> Ptr, grants: nat -> bool)
    returns (answers: seq<Answer>, log: seq<Call>, ghost looks: seq<nat>)
    requires MIN_POOL <= size && size % ALIGNMENT == 0 && Honest(system)
    ensures |answers| == |requests| && |looks| == |requests|
    ensures forall k :: 0 <= k < |requests| ==> Suits(requests[k], answers[k], Largest(size))
    ensures forall i, j :: 0 <= i < j < |Given(answers)| ==> Disjoint(Given(answers)[i], Given(answers)[j])
    ensures Settles({}, log, {})
    ensures forall k :: 0 <= k < |requests| && NoReset(requests[..k]) ==> looks[k] <= 7
  {
    hide Pool.Valid, Once, Suits;
    var pool := new Pool(size);
    answers, log, looks := Run(pool, requests, system, grants);
    GivenApart(answers, Places(pool.slots), pool.blocks);
    var freed, trace := pool.Destroy();
    ResetSettles(freed, pool.live);
    LogAppend({}, log, Gives(freed));
    log := log + Gives(freed);
  }

  lemma GivenApart(answers: seq<Answer>, places: seq<Region>, blocks: seq<Block>)
    requires AllPlaced(Given(answers) + places, blocks)
    ensures forall i, j :: 0 <= i < j < |Given(answers)| ==> Disjoint(Given(answers)[i], Given(answers)[j])
  {
    var all := Given(answers) + places;
    forall i, j | 0 <= i < j < |Given(answers)| ensures Disjoint(Given(answers)[i], Given(answers)[j]) {
      assert Disjoint(all[i], all[j]);
    }
  }
}
