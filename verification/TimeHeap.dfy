/**
 The heap of timeouts of src/lu_min_heap.c: an array of events ordered by timeout, in which every
 event knows its position.
 */
module TimeHeap {
  import opened TimeValues

  const SIZE_MAX := 0xffff_ffff_ffff_ffff

  class Event {
    var timeout: Timeval
    var minHeapIdx: nat

    /** lu_min_heap_element_init_. */
    constructor (timeout: Timeval)
      ensures this.timeout == timeout && minHeapIdx == SIZE_MAX
    {
      this.timeout := timeout;
      minHeapIdx := SIZE_MAX;
    }
  }

  function Parent(i: nat): (p: nat)
    requires 0 < i
    ensures p < i && (i == 2 * p + 1 || i == 2 * p + 2)
  {
    (i - 1) / 2
  }

  /** lu_min_heap_element_greater. */
  predicate Greater(a: Event, b: Event)
    reads a`timeout, b`timeout
  {
    Earlier(b.timeout, a.timeout)
  }

  /** Two events in heap order; the slots that count hold events. */
  predicate Le(a: Event?, b: Event?)
    reads a, b
  {
    a != null && b != null ==> !Greater(a, b)
  }

  /** The edge from position `i` up to its parent. */
  predicate Edge(v: seq<Event?>, i: nat)
    requires 0 < i < |v|
    reads v
  {
    Le(v[Parent(i)], v[i])
  }

  predicate Ordered(v: seq<Event?>)
    reads v
  {
    forall i {:trigger Edge(v, i)} :: 0 < i < |v| ==> Edge(v, i)
  }

  // ---------------------------------------------------------------------------------------
  // The hole on its way up
  // ---------------------------------------------------------------------------------------

  /** Ordered, but for the edge above the hole; what lies below fits what lies above. */
  predicate Rising(v: seq<Event?>, hole: nat)
    requires hole < |v|
    reads v
  {
    && (forall i {:trigger Edge(v, i)} :: 0 < i < |v| && i != hole ==> Edge(v, i))
    && (forall i {:trigger v[i]} :: 0 < i < |v| && 0 < hole && Parent(i) == hole ==> Le(v[Parent(hole)], v[i]))
  }

  lemma RiseStep(v: seq<Event?>, hole: nat)
    requires 0 < hole < |v| && Rising(v, hole) && (forall i :: 0 <= i < |v| ==> v[i] != null)
    requires Greater(v[Parent(hole)], v[hole])
    ensures var p := Parent(hole); Rising(v[hole := v[p]][p := v[hole]], p)
  {
    var p := Parent(hole);
    var w := v[hole := v[p]][p := v[hole]];
    forall i {:trigger Edge(w, i)} | 0 < i < |w| && i != p ensures Edge(w, i) {
      assert i != hole ==> Edge(v, i);
    }
    forall i {:trigger w[i]} | 0 < i < |w| && 0 < p && Parent(i) == p ensures Le(w[Parent(p)], w[i]) {
      assert Edge(v, p) && (i != hole ==> Edge(v, i));
    }
  }

  lemma RiseEnds(v: seq<Event?>, hole: nat)
    requires hole < |v| && Rising(v, hole)
    requires hole == 0 || (v[hole] != null && v[Parent(hole)] != null && !Greater(v[Parent(hole)], v[hole]))
    ensures Ordered(v)
  {
  }

  lemma Appended(v: seq<Event?>, w: seq<Event?>)
    requires Ordered(v) && |w| == |v| + 1 && w[..|v|] == v
    ensures Rising(w, |v|)
  {
    forall i {:trigger Edge(w, i)} | 0 < i < |w| && i != |v| ensures Edge(w, i) {
      assert Edge(v, i);
    }
  }

  /** The root is least. */
  lemma {:induction false} RootLeast(v: seq<Event?>, i: nat)
    requires Ordered(v) && i < |v| && forall j :: 0 <= j < |v| ==> v[j] != null
    ensures Le(v[0], v[i])
  {
    if i > 0 {
      RootLeast(v, Parent(i));
      assert Edge(v, i);
    }
  }

  // ---------------------------------------------------------------------------------------
  // The ways of a hole
  // ---------------------------------------------------------------------------------------

  /** No position twice, and all of them in the array. */
  ghost predicate IsWay(path: seq<nat>, size: nat) {
    && path != [] && (forall i :: 0 <= i < |path| ==> path[i] < size)
    && (forall i, j :: 0 <= i < j < |path| ==> path[i] != path[j])
  }

  /** Along the way each position took what the next one held; the last one is the hole. */
  ghost predicate Shifted(v: seq<Event?>, w: seq<Event?>, path: seq<nat>) {
    && |w| == |v| && IsWay(path, |v|)
    && (forall i :: 0 <= i < |path| - 1 ==> w[path[i]] == v[path[i + 1]])
    && (forall q :: 0 <= q < |v| && (q == path[|path| - 1] || q !in path) ==> w[q] == v[q])
  }

  lemma ShiftMore(v: seq<Event?>, w: seq<Event?>, path: seq<nat>, c: nat)
    requires Shifted(v, w, path) && c < |v| && c !in path
    ensures Shifted(v, w[path[|path| - 1] := v[c]], path + [c])
  {
  }

  /** A way up goes down in the numbers. */
  lemma {:induction false} UpWayFalls(v: seq<Event?>, path: seq<nat>, start: nat, event: Event, forced: bool, i: nat,
      j: nat)
    requires UpWay(v, path, start, event, forced) && i <= j < |path|
    ensures path[j] <= path[i]
  {
    if i < j {
      UpWayFalls(v, path, start, event, forced, i, j - 1);
      assert RisesAt(v, path, j, event, forced);
    }
  }

  lemma UpWayOn(v: seq<Event?>, w: seq<Event?>, path: seq<nat>, start: nat, event: Event, forced: bool)
    requires UpWay(v, path, start, event, forced) && Shifted(v, w, path)
    requires var hole := path[|path| - 1];
             0 < hole && w[Parent(hole)] != null && ((forced && |path| == 1) || Greater(w[Parent(hole)], event))
    ensures var hole := path[|path| - 1];
            && UpWay(v, path + [Parent(hole)], start, event, forced) && w[Parent(hole)] == v[Parent(hole)]
            && Shifted(v, w[hole := v[Parent(hole)]], path + [Parent(hole)])
  {
    var hole := path[|path| - 1];
    var longer := path + [Parent(hole)];
    forall i | 0 <= i < |path| ensures path[i] != Parent(hole) {
      UpWayFalls(v, path, start, event, forced, i, |path| - 1);
    }
    ShiftMore(v, w, path, Parent(hole));
    forall i | 0 < i < |longer| ensures RisesAt(v, longer, i, event, forced) {
      if i < |path| { assert RisesAt(v, path, i, event, forced); }
    }
  }

  /** From position to parent, past events later than `event`; the first step may be unconditional. */
  ghost predicate UpWay(v: seq<Event?>, path: seq<nat>, start: nat, event: Event, forced: bool)
    reads v`timeout, event`timeout
  {
    && IsWay(path, |v|) && path[0] == start
    && (forall i :: 0 < i < |path| ==> RisesAt(v, path, i, event, forced))
  }

  predicate RisesAt(v: seq<Event?>, path: seq<nat>, i: nat, event: Event, forced: bool)
    requires 0 < i < |path|
    reads v`timeout, event`timeout
  {
    Rises(v, path[i - 1], path[i], event, forced && i == 1)
  }

  predicate Rises(v: seq<Event?>, from: nat, to: nat, event: Event, forced: bool)
    reads v`timeout, event`timeout
  {
    && 0 < from && to == Parent(from) && to < |v| && v[to] != null
    && (forced || Greater(v[to], event))
  }

  /**
   The exact array after a shift up: the event stands at the end of the way, below an event that is
   not later, and each event on the way moved one step down.
   */
  ghost predicate Rose(v: seq<Event?>, w: seq<Event?>, start: nat, event: Event, forced: bool)
    reads v`timeout, event`timeout
  {
    exists path :: RoseBy(v, w, start, event, forced, path)
  }

  ghost predicate RoseBy(v: seq<Event?>, w: seq<Event?>, start: nat, event: Event, forced: bool, path: seq<nat>)
    reads v`timeout, event`timeout
  {
    && UpWay(v, path, start, event, forced) && |w| == |v|
    && var top := path[|path| - 1];
       && (forced ==> |path| > 1) && Shifted(v, w[top := v[top]], path) && w[top] == event
       && (top == 0 || (v[Parent(top)] != null && !Greater(v[Parent(top)], event)))
  }

  /** What stood in the hole plays no part. */
  lemma RoseFrom(v: seq<Event?>, w: seq<Event?>, start: nat, event: Event, forced: bool, path: seq<nat>)
    requires RoseBy(v, w, start, event, forced, path)
    ensures start < |v| && Rose(v[start := event], w, start, event, forced)
  {
    var u, top := v[start := event], path[|path| - 1];
    forall i | 0 <= i < |path| ensures i > 0 ==> path[i] != start {
    }
    forall i | 0 < i < |path| ensures RisesAt(u, path, i, event, forced) {
      assert RisesAt(v, path, i, event, forced);
    }
    if top != 0 {
      forall i | 0 <= i < |path| ensures path[i] != Parent(top) {
        UpWayFalls(v, path, start, event, forced, i, |path| - 1);
      }
    }
    assert RoseBy(u, w, start, event, forced, path);
  }

  /** The position that the shift down compares with. */
  function Candidate(v: seq<Event?>, m: nat): (c: nat)
    requires 0 < m < |v|
    reads v`timeout
    ensures m - 1 <= c <= m
  {
    if v[m] != null && v[m - 1] != null && Greater(v[m], v[m - 1]) then m - 1 else m
  }

  /** Where the first comparison of the shift down is made: the root may come first. */
  function FirstChild(v: seq<Event?>, start: nat, event: Event): (m: nat)
    reads v`timeout, event`timeout
    ensures m > start
  {
    if start == 0 && 1 < |v| && Candidate(v, 1) == 0 && v[0] != null && Greater(event, v[0]) then 2 else 2 * start + 1
  }

  function NextChild(v: seq<Event?>, path: seq<nat>, i: nat, event: Event): (m: nat)
    requires i < |path|
    reads v`timeout, event`timeout
    ensures m > path[i]
  {
    if i == 0 then FirstChild(v, path[0], event) else 2 * (path[i] + 1)
  }

  predicate Sinks(v: seq<Event?>, c: nat, m: nat, event: Event)
    reads v`timeout, event`timeout
  {
    0 < m < |v| && c == Candidate(v, m) && v[c] != null && Greater(event, v[c])
  }

  predicate SinksAt(v: seq<Event?>, path: seq<nat>, i: nat, event: Event)
    requires 0 < i < |path|
    reads v`timeout, event`timeout
  {
    Sinks(v, path[i], NextChild(v, path, i - 1, event), event)
  }

  /** From position to picked position, past events earlier than `event`. */
  ghost predicate DownWay(v: seq<Event?>, path: seq<nat>, start: nat, event: Event)
    reads v`timeout, event`timeout
  {
    && IsWay(path, |v|) && path[0] == start
    && (forall i :: 0 < i < |path| ==> SinksAt(v, path, i, event))
  }

  lemma {:induction false} DownWayClimbs(v: seq<Event?>, path: seq<nat>, start: nat, event: Event, i: nat, j: nat)
    requires DownWay(v, path, start, event) && i <= j < |path|
    ensures path[i] <= path[j]
  {
    hide Candidate, NextChild, FirstChild, Greater;
    if i < j {
      DownWayClimbs(v, path, start, event, i, j - 1);
      assert SinksAt(v, path, j, event);
    }
  }

  /** The position to compare with next, before and after the root was compared with itself. */
  ghost predicate Comparing(v: seq<Event?>, path: seq<nat>, start: nat, event: Event, m: nat)
    requires path != []
    reads v`timeout, event`timeout
  {
    m == NextChild(v, path, |path| - 1, event) || (|path| == 1 && m == 2 * start + 1)
  }

  /** What is compared has not moved yet. */
  lemma StillThere(v: seq<Event?>, w: seq<Event?>, path: seq<nat>, start: nat, event: Event, m: nat)
    requires DownWay(v, path, start, event) && Shifted(v, w, path) && Comparing(v, path, start, event, m) && m < |v|
    ensures w[m] == v[m] && w[m - 1] == v[m - 1]
    ensures forall i :: 0 <= i < |path| ==> path[i] < m
    ensures m - 1 in path ==> |path| == 1 && start == 0 && m == 1
  {
    forall i | 0 <= i < |path| ensures path[i] <= path[|path| - 1] {
      DownWayClimbs(v, path, start, event, i, |path| - 1);
    }
  }

  lemma DownWayLonger(v: seq<Event?>, path: seq<nat>, start: nat, event: Event, c: nat)
    requires DownWay(v, path, start, event) && c < |v| && c !in path
    requires Sinks(v, c, NextChild(v, path, |path| - 1, event), event)
    ensures DownWay(v, path + [c], start, event)
    ensures NextChild(v, path + [c], |path|, event) == 2 * (c + 1)
  {
    hide Sinks, FirstChild, IsWay, Candidate, Greater;
    var longer := path + [c];
    PathStart(v, path, start, event);
    WayLonger(path, |v|, c);
    forall i | 0 < i < |longer| ensures SinksAt(v, longer, i, event) {
      assert longer[i - 1] == path[i - 1] && longer[0] == path[0];
      if i < |path| { assert SinksAt(v, path, i, event) && longer[i] == path[i]; }
    }
  }

  lemma WayLonger(path: seq<nat>, size: nat, c: nat)
    requires IsWay(path, size) && c < size && c !in path
    ensures IsWay(path + [c], size)
  {
  }

  /** The candidate is the hole itself only at the root; otherwise it is the next one of the way. */
  lemma CandidateIs(v: seq<Event?>, w: seq<Event?>, path: seq<nat>, start: nat, event: Event, m: nat)
    requires DownWay(v, path, start, event) && Shifted(v, w, path) && Comparing(v, path, start, event, m) && m < |v|
    requires w[m] != null && w[m - 1] != null
    ensures var c := Candidate(w, m);
            && c == Candidate(v, m) && w[c] == v[c] != null
            && (c in path ==> c == path[|path| - 1] == 0 && |path| == 1 && start == 0 && m == 1)
            && (Greater(event, w[c]) && c !in path ==> m == NextChild(v, path, |path| - 1, event))
            && (Greater(event, w[c]) && c in path && m == 1 && start == 0 ==> FirstChild(v, 0, event) == 2)
  {
    hide DownWay, Shifted, Greater;
    StillThere(v, w, path, start, event, m);
    PathStart(v, path, start, event);
  }

  lemma PathStart(v: seq<Event?>, path: seq<nat>, start: nat, event: Event)
    requires DownWay(v, path, start, event)
    ensures path != [] && path[0] == start
  {
  }

  lemma DownWayOn(v: seq<Event?>, w: seq<Event?>, path: seq<nat>, start: nat, event: Event, m: nat, c: nat)
    requires DownWay(v, path, start, event) && Shifted(v, w, path) && Comparing(v, path, start, event, m) && m < |v|
    requires w[m] != null && w[m - 1] != null && c == Candidate(w, m) && Greater(event, w[c])
    ensures var hole := path[|path| - 1];
            && (c == hole ==> w[hole := w[c]] == w && Comparing(v, path, start, event, 2 * (c + 1)))
            && (c != hole ==>
                  && DownWay(v, path + [c], start, event) && Shifted(v, w[hole := w[c]], path + [c])
                  && Comparing(v, path + [c], start, event, 2 * (c + 1)))
  {
    CandidateIs(v, w, path, start, event, m);
    PathStart(v, path, start, event);
    hide DownWay, Candidate, Greater, FirstChild;
    if c !in path {
      DownWayLonger(v, path, start, event, c);
      ShiftMore(v, w, path, c);
    }
  }

  lemma DownWayEnds(v: seq<Event?>, w: seq<Event?>, path: seq<nat>, start: nat, event: Event, m: nat)
    requires DownWay(v, path, start, event) && Shifted(v, w, path) && Comparing(v, path, start, event, m)
    requires m < |v| ==> w[m] != null && w[m - 1] != null && !Greater(event, w[Candidate(w, m)])
    ensures path != [] && path[|path| - 1] < |w| && SankBy(v, w[path[|path| - 1] := event], start, event, path)
  {
    var hole := path[|path| - 1];
    PathStart(v, path, start, event);
    if m < |v| { CandidateIs(v, w, path, start, event, m); }
    assert w[hole := event][hole := v[hole]] == w;
    hide DownWay, Shifted, Greater;
  }

  ghost predicate SankBy(v: seq<Event?>, w: seq<Event?>, start: nat, event: Event, path: seq<nat>)
    reads v`timeout, event`timeout
  {
    && DownWay(v, path, start, event) && |w| == |v|
    && var end, m := path[|path| - 1], NextChild(v, path, |path| - 1, event);
       && Shifted(v, w[end := v[end]], path) && w[end] == event
       && (m >= |v| || !Sinks(v, Candidate(v, m), m, event))
  }

  /**
   The exact array after a shift down: the event stands at the end of the way, where the position
   picked next is not earlier or lies behind the heap, and each event on the way moved one step up.
   */
  ghost predicate Sank(v: seq<Event?>, w: seq<Event?>, start: nat, event: Event)
    reads v`timeout, event`timeout
  {
    exists path :: SankBy(v, w, start, event, path)
  }

  lemma SankAlong(v: seq<Event?>, w: seq<Event?>, start: nat, event: Event, path: seq<nat>)
    requires SankBy(v, w, start, event, path)
    ensures Sank(v, w, start, event)
  {
  }

  /** The array after `last` refilled the position `i`: shifted up below a later event, else down. */
  ghost predicate Refilled(v: seq<Event?>, w: seq<Event?>, i: nat, last: Event?)
    reads v`timeout, (if last == null then {} else {last})`timeout
  {
    && last != null && i < |v|
    && if 0 < i && v[Parent(i)] != null && Greater(v[Parent(i)], last) then Rose(v[i := last], w, i, last, true)
       else Sank(v, w, i, last)
  }

  // ---------------------------------------------------------------------------------------
  // The hole on its way down
  // ---------------------------------------------------------------------------------------

  /** Ordered, but for the edges below the hole; what lies above the hole fits what lies below. */
  predicate Sinking(v: seq<Event?>, hole: nat)
    requires hole < |v|
    reads v
  {
    && (forall i {:trigger Edge(v, i)} :: 0 < i < |v| && Parent(i) != hole ==> Edge(v, i))
    && (forall i {:trigger v[i]} :: 0 < i < |v| && 0 < hole && Parent(i) == hole ==> Le(v[Parent(hole)], v[i]))
  }

  /** The hole moves to the child `c`, which is not later than its sibling. */
  lemma SinkStep(v: seq<Event?>, hole: nat, c: nat)
    requires hole < c < |v| && Parent(c) == hole && Sinking(v, hole) && (forall i :: 0 <= i < |v| ==> v[i] != null)
    requires Greater(v[hole], v[c]) && forall i {:trigger v[i]} :: 0 < i < |v| && Parent(i) == hole ==> Le(v[c], v[i])
    ensures Sinking(v[hole := v[c]][c := v[hole]], c)
  {
    var w := v[hole := v[c]][c := v[hole]];
    forall i {:trigger Edge(w, i)} | 0 < i < |w| && Parent(i) != c ensures Edge(w, i) {
      assert Parent(i) != hole ==> Edge(v, i);
      assert i == hole ==> Le(v[Parent(hole)], v[c]);
    }
    forall i {:trigger w[i]} | 0 < i < |w| && Parent(i) == c ensures Le(w[Parent(c)], w[i]) {
      assert Edge(v, i);
    }
  }

  /** The event fits above both children. */
  lemma SinkStops(v: seq<Event?>, hole: nat)
    requires hole < |v| && Sinking(v, hole) && forall i {:trigger v[i]} :: 0 < i < |v| && Parent(i) == hole ==>
        Le(v[hole], v[i])
    ensures Ordered(v)
  {
    forall i {:trigger Edge(v, i)} | 0 < i < |v| ensures Edge(v, i) {
      assert v[i] == v[i];
    }
  }

  /** The hole is so deep that at most a lone left child, in last position, hangs below it. */
  lemma SinkEnds(v: seq<Event?>, hole: nat)
    requires hole < |v| <= 2 * hole + 2 && Sinking(v, hole)
    ensures OrderedButLast(v)
  {
  }

  /** In place of the root, an event that is not earlier leaves only the edges below in doubt. */
  lemma RootSwap(v: seq<Event?>, event: Event)
    requires v != [] && Ordered(v) && (forall i :: 0 <= i < |v| ==> v[i] != null) && !Greater(v[0], event)
    ensures Sinking(v[0 := event], 0)
    ensures forall i :: 0 <= i < |v| ==> Le(v[0], v[i])
  {
    forall i | 0 <= i < |v| ensures Le(v[0], v[i]) { RootLeast(v, i); }
    var w := v[0 := event];
    forall i {:trigger Edge(w, i)} | 0 < i < |w| && Parent(i) != 0 ensures Edge(w, i) {
      assert Edge(v, i);
    }
  }

  /** In the first round the root still stands in the array: what is picked precedes all its children. */
  lemma FirstChoice(v: seq<Event?>, event: Event, c: nat)
    requires c <= 1 < |v| && Ordered(v) && (forall i :: 0 <= i < |v| ==> v[i] != null)
    requires !Greater(v[0], event) && Le(v[c], v[0])
    ensures forall i {:trigger v[i]} :: 0 < i < |v| && Parent(i) == 0 ==> Le(v[c], v[i])
    ensures !Greater(event, v[c]) ==> Ordered(v[0 := event]) && OrderedButLast(v[0 := event])
  {
    RootSwap(v, event);
    if !Greater(event, v[c]) { SinkStops(v[0 := event], 0); }
  }

  /** Later on it is the earlier of two children. */
  lemma Choice(v: seq<Event?>, hole: nat, c: nat)
    requires (c == 2 * hole + 1 || c == 2 * hole + 2) && 2 * hole + 2 < |v| && Sinking(v, hole)
    requires (forall i :: 0 <= i < |v| ==> v[i] != null) && Le(v[c], v[2 * hole + 1]) && Le(v[c], v[2 * hole + 2])
    ensures forall i {:trigger v[i]} :: 0 < i < |v| && Parent(i) == hole ==> Le(v[c], v[i])
    ensures !Greater(v[hole], v[c]) ==> Ordered(v) && OrderedButLast(v)
  {
    if !Greater(v[hole], v[c]) { SinkStops(v, hole); }
  }

  /** Every edge but the one to a left child without sibling, in last position. */
  predicate OrderedButLast(v: seq<Event?>)
    reads v
  {
    forall i {:trigger Edge(v, i)} :: 0 < i < |v| && !(i == |v| - 1 && |v| % 2 == 0) ==> Edge(v, i)
  }

  /** The order does not depend on the positions the events know. */
  twostate lemma OrderFrame(new v: seq<Event?>, hole: nat)
    requires old(allocated(v)) && hole < |v|
    requires forall e :: e in v && e != null ==> e.timeout == old(e.timeout)
    ensures old(Rising(v, hole)) ==> Rising(v, hole)
    ensures old(Sinking(v, hole)) ==> Sinking(v, hole)
  {
    forall i {:trigger Edge(v, i)} | 0 < i < |v| && old(Edge(v, i)) ensures Edge(v, i) {
      assert v[i] in v && v[Parent(i)] in v;
    }
  }

  twostate lemma SameOrder(new v: seq<Event?>)
    requires old(allocated(v)) && forall e :: e in v && e != null ==> e.timeout == old(e.timeout)
    ensures Ordered(v) <==> old(Ordered(v))
    ensures OrderedButLast(v) <==> old(OrderedButLast(v))
  {
    forall i {:trigger Edge(v, i)} {:trigger old(Edge(v, i))} | 0 < i < |v| ensures Edge(v, i) <==> old(Edge(v, i)) {
      assert v[i] in v && v[Parent(i)] in v;
    }
  }

  // ---------------------------------------------------------------------------------------
  // When the order is lost
  // ---------------------------------------------------------------------------------------

  /** The child `c` is the one a sinking event is compared with at its parent. */
  predicate Picked(k: seq<Timeval>, c: nat)
    requires 0 < c < |k|
  {
    var left, right := 2 * Parent(c) + 1, 2 * Parent(c) + 2;
    if Parent(c) == 0 && !Earlier(k[0], k[1]) then c == 1
    else right < |k| && c == if Earlier(k[left], k[right]) then left else right
  }

  /** Every position from the root down to `q` is picked at its parent. */
  predicate LeastPath(k: seq<Timeval>, q: nat)
    requires q < |k|
  {
    q == 0 || (LeastPath(k, Parent(q)) && Picked(k, q))
  }

  /**
   The event that replaces the root comes to lie above an earlier one: the last position is a
   lone left child, earlier than the event, and the way down to its parent is the way of the
   sinking event.  (With two positions left, a child as early as the root does move up.)
   */
  predicate Loses(k: seq<Timeval>, t: Timeval) {
    && 2 <= |k| && |k| % 2 == 0
    && Earlier(k[|k| - 1], t) && LeastPath(k, Parent(|k| - 1))
    && (|k| == 2 ==> Earlier(k[0], k[1]))
  }

  /** Three timers in order are enough: popping the first leaves the third above the second. */
  lemma LosesExample()
    ensures Loses([Timeval(1, 0), Timeval(2, 0)], Timeval(3, 0))
  {
    assert LeastPath([Timeval(1, 0), Timeval(2, 0)], 0);
  }

  predicate Ancestor(h: nat, q: nat) {
    h == q || (h < q && Ancestor(h, Parent(q)))
  }

  ghost predicate OrderedKeys(k: seq<Timeval>) {
    forall i {:trigger k[i]} :: 0 < i < |k| ==> !Earlier(k[i], k[Parent(i)])
  }

  lemma {:induction false} AncestorEarlier(k: seq<Timeval>, h: nat, q: nat)
    requires OrderedKeys(k) && q < |k| && Ancestor(h, q)
    ensures !Earlier(k[q], k[h])
  {
    if h < q { AncestorEarlier(k, h, Parent(q)); }
  }

  /** The step from `h` towards `q` on a least path. */
  lemma {:induction false} NextOnPath(k: seq<Timeval>, h: nat, q: nat) returns (c: nat)
    requires q < |k| && LeastPath(k, q) && Ancestor(h, q) && h < q
    ensures h < c <= q && Parent(c) == h && Ancestor(c, q) && Picked(k, c)
  {
    if Parent(q) == h {
      c := q;
    } else {
      c := NextOnPath(k, h, Parent(q));
    }
  }

  /** Where the hole is, against where it has to go if the order is to be lost. */
  ghost predicate Tracking(k: seq<Timeval>, t: Timeval, hole: nat, minChild: nat) {
    && hole < |k| && LeastPath(k, hole)
    && (hole == 0 && minChild != 1 ==> |k| == 1 || Earlier(k[0], k[1]))
    && (Loses(k, t) ==> Ancestor(hole, Parent(|k| - 1)))
  }

  lemma {:induction false} RootIsAncestor(q: nat)
    ensures Ancestor(0, q)
  {
    if q > 0 { RootIsAncestor(Parent(q)); }
  }

  lemma TrackBegins(k: seq<Timeval>, t: Timeval)
    requires k != []
    ensures Tracking(k, t, 0, 1)
  {
    if 2 <= |k| { RootIsAncestor(Parent(|k| - 1)); }
  }

  /** What is compared with, of `minChild` and its left neighbour. */
  function Pick(k: seq<Timeval>, minChild: nat): nat
    requires 0 < minChild < |k|
  {
    if Earlier(k[minChild - 1], k[minChild]) then minChild - 1 else minChild
  }

  lemma PickIsPicked(k: seq<Timeval>, hole: nat, minChild: nat)
    requires 0 < minChild < |k| && ((hole == 0 && minChild == 1) || minChild == 2 * (hole + 1))
    requires hole == 0 && minChild != 1 ==> Earlier(k[0], k[1])
    ensures var c := Pick(k, minChild);
            && (c == hole ==> hole == 0 && minChild == 1 && Earlier(k[0], k[1]))
            && (c != hole ==> c > hole && Parent(c) == hole && Picked(k, c))
  {
  }

  /** The hole moves to what was picked. */
  lemma TrackStep(k: seq<Timeval>, t: Timeval, hole: nat, minChild: nat)
    requires Tracking(k, t, hole, minChild) && 0 < minChild < |k|
    requires (hole == 0 && minChild == 1) || minChild == 2 * (hole + 1)
    ensures var c := Pick(k, minChild); Tracking(k, t, c, 2 * (c + 1))
  {
    hide Ancestor, Picked, Earlier, Pick;
    var c := Pick(k, minChild);
    PickIsPicked(k, hole, minChild);
    if c != hole && Loses(k, t) {
      var q := Parent(|k| - 1);
      AncestorBelow(hole, q);
      assert hole == q ==> |k| == 2 && minChild == 1;
      assert hole < q by { PickAtEnd(k, c, minChild, hole); }
      TrackOn(k, hole, q, c);
    }
  }

  lemma PickAtEnd(k: seq<Timeval>, c: nat, minChild: nat, hole: nat)
    requires 0 < minChild < |k| && c == Pick(k, minChild) && c != hole
    ensures |k| == 2 && minChild == 1 && hole == 0 ==> !Earlier(k[0], k[1])
  {
  }

  lemma {:induction false} AncestorBelow(h: nat, q: nat)
    requires Ancestor(h, q)
    ensures h <= q
  {
  }

  lemma TrackOn(k: seq<Timeval>, hole: nat, q: nat, c: nat)
    requires q < |k| && LeastPath(k, q) && Ancestor(hole, q) && hole < q
    requires hole < c < |k| && Parent(c) == hole && Picked(k, c)
    ensures Ancestor(c, q)
  {
    var d := NextOnPath(k, hole, q);
  }

  /** The timeouts of the events. */
  function Keys(v: seq<Event?>): (k: seq<Timeval>)
    reads v
    ensures |k| == |v| && forall i :: 0 <= i < |v| && v[i] != null ==> k[i] == v[i].timeout
  {
    seq(|v|, i requires 0 <= i < |v| reads v => if v[i] == null then ZERO else v[i].timeout)
  }

  lemma KeysOrdered(v: seq<Event?>)
    requires Ordered(v) && forall i :: 0 <= i < |v| ==> v[i] != null
    ensures OrderedKeys(Keys(v))
  {
    forall i {:trigger Keys(v)[i]} | 0 < i < |v| ensures !Earlier(Keys(v)[i], Keys(v)[Parent(i)]) {
      assert Edge(v, i);
    }
  }

  /** The sinking event stops above an event that is not earlier: the order is whole. */
  lemma StopsOrdered(k: seq<Timeval>, t: Timeval, hole: nat, minChild: nat)
    requires OrderedKeys(k) && Tracking(k, t, hole, minChild) && 0 < minChild < |k|
    requires (hole == 0 && minChild == 1) || minChild == 2 * (hole + 1)
    requires !Earlier(k[Pick(k, minChild)], t)
    ensures !Loses(k, t)
  {
    hide Ancestor, Picked, Earlier;
    var c := Pick(k, minChild);
    TrackStep(k, t, hole, minChild);
    if Loses(k, t) {
      var q := Parent(|k| - 1);
      AncestorEarlier(k, c, q);
      NotEarlierTrans(k, c, q, t);
      assert false;
    }
  }

  lemma NotEarlierTrans(k: seq<Timeval>, c: nat, q: nat, t: Timeval)
    requires OrderedKeys(k) && 2 <= |k| && q == Parent(|k| - 1)
    requires c < |k| && !Earlier(k[q], k[c]) && !Earlier(k[c], t)
    ensures !Earlier(k[|k| - 1], t)
  {
  }

  /** The sinking event went to the end: the order is whole unless it was to be lost. */
  lemma EndsOrdered(v: seq<Event?>, hole: nat, k: seq<Timeval>, event: Event)
    requires hole < |v| == |k| <= 2 * hole + 2 && Sinking(v, hole) && v[hole] == event
    requires forall i :: 0 <= i < |v| ==> v[i] != null && (hole < i ==> v[i].timeout == k[i])
    requires Tracking(k, event.timeout, hole, 2 * (hole + 1))
    ensures Ordered(v) <==> !Loses(k, event.timeout)
  {
    SinkEnds(v, hole);
    var m := |v|;
    if m % 2 == 0 {
      AncestorReaches(k, event.timeout, hole);
      if Parent(m - 1) == hole {
        assert Edge(v, m - 1) <==> !Earlier(k[m - 1], event.timeout);
      } else {
        assert Edge(v, m - 1);
      }
      assert Ordered(v) <==> Edge(v, m - 1);
    } else {
      assert Ordered(v);
    }
  }

  lemma AncestorReaches(k: seq<Timeval>, t: Timeval, hole: nat)
    requires hole < |k| <= 2 * hole + 2 && |k| % 2 == 0 && Tracking(k, t, hole, 2 * (hole + 1))
    ensures Loses(k, t) ==> hole == Parent(|k| - 1)
    ensures hole == Parent(|k| - 1) && Earlier(k[|k| - 1], t) ==> Loses(k, t)
  {
    if Loses(k, t) { AncestorBelow(hole, Parent(|k| - 1)); }
  }

  // ---------------------------------------------------------------------------------------
  // The heap
  // ---------------------------------------------------------------------------------------

  /** lu_min_heap_t; the length of `elements` is the capacity. */
  class MinHeap {
    var elements: array<Event?>
    var n: nat

    constructor ()
      ensures Valid() && n == 0 && fresh(elements)
    {
      elements := new Event?[0];
      n := 0;
    }

    /** Every position but the hole holds an event that knows it. */
    predicate Indexed(hole: int)
      reads this, elements, elements[..]
    {
      && n <= elements.Length
      && forall i {:trigger elements[i]} :: 0 <= i < n && i != hole ==>
          elements[i] != null && elements[i].minHeapIdx == i
    }

    predicate Valid()
      reads this, elements, elements[..]
    {
      Indexed(-1)
    }

    /** The events at all positions but the hole. */
    ghost function Others(hole: int): set<Event?>
      requires n <= elements.Length
      reads this, elements
    {
      set i | 0 <= i < n && i != hole :: elements[i]
    }

    /** The events, in the order of the array. */
    function Items(): seq<Event?>
      requires n <= elements.Length
      reads this, elements
    {
      elements[..n]
    }

    /** lu_min_heap_reserve_; `granted` says whether the allocator delivers. */
    method Reserve(m: nat, granted: bool) returns (ok: bool)
      requires Valid()
      modifies this`elements
      ensures Valid() && Items() == old(Items())
      ensures ok <==> m <= old(elements.Length) || granted
      ensures elements == old(elements) || fresh(elements)
      ensures elements.Length == if !ok || m <= old(elements.Length) then old(elements.Length)
                                 else Max(m, if old(elements.Length) == 0 then 8 else 2 * old(elements.Length))
    {
      ok := true;
      if elements.Length < m {
        var capacity := if elements.Length != 0 then elements.Length * 2 else 8;
        if capacity < m {
          capacity := m;
        }
        if !granted {
          return false;
        }
        var larger := new Event?[capacity];
        forall i | 0 <= i < n {
          larger[i] := elements[i];
        }
        elements := larger;
        assert Items() == old(Items());
        forall i {:trigger elements[i]} | 0 <= i < n ensures elements[i] != null && elements[i].minHeapIdx == i {
          assert elements[i] == old(elements)[i];
        }
      }
    }

    /** Moves the event at `from` into the hole. */
    method MoveHole(hole: nat, from: nat)
      requires hole < n && from < n && hole != from && Indexed(hole)
      modifies elements, {elements[from]}`minHeapIdx
      ensures Indexed(from) && Others(from) == old(Others(hole))
      ensures Items() == old(Items())[hole := old(elements[from])]
    {
      ghost var v := Items();
      elements[hole] := elements[from];
      elements[hole].minHeapIdx := hole;
      ghost var w := Items();
      assert forall i :: 0 <= i < n && i != from ==> w[i] == if i == hole then v[from] else v[i];
      assert forall i :: 0 <= i < n && i != hole ==> v[i] == if i == from then w[hole] else w[i];
    }

    /** Puts the event into the hole. */
    method Fill(hole: nat, event: Event)
      requires hole < n && Indexed(hole) && event !in Others(hole)
      modifies elements, event`minHeapIdx
      ensures Valid() && Items() == old(Items())[hole := event] && Others(-1) == old(Others(hole)) + {event}
    {
      ghost var v := Items();
      assert forall i {:trigger elements[i]} :: 0 <= i < n && i != hole ==> elements[i] in Others(hole);
      elements[hole] := event;
      event.minHeapIdx := hole;
      ghost var w := Items();
      assert w[hole] == event && forall i :: 0 <= i < n && i != hole ==> v[i] == w[i];
    }

    /** lu_min_heap_shift_up_; it restores the order if only the edge above the hole was in doubt. */
    method ShiftUp(start: nat, event: Event)
      requires start < n && Indexed(start) && event !in Others(start)
      modifies elements, Others(start)`minHeapIdx, event`minHeapIdx
      ensures Valid() && n == old(n) && Others(-1) == old(Others(start)) + {event}
      ensures old(Rising(Items()[start := event], start)) ==> Ordered(Items())
      ensures start == 0 || !old(Greater(elements[Parent(start)], event)) ==> Items() == old(Items())[start := event]
      ensures Rose(old(Items())[start := event], Items(), start, event, false)
    {
      hide Rising, Ordered, UpWay, Shifted, RoseBy, OnWay, Rose;
      var hole: nat := start;
      ghost var rest, rising := Others(start), Rising(Items()[start := event], start);
      ghost var stays, v := start == 0 || !Greater(elements[Parent(start)], event), Items();
      ghost var path: seq<nat> := [start];
      WayBegins(v, start, event);
      while hole != 0 && Greater(elements[Parent(hole)], event)
        invariant n <= elements.Length && hole < n && Indexed(hole) && Others(hole) == rest
        invariant stays ==> hole == start && Items() == v && (hole == 0 || !Greater(elements[Parent(hole)], event))
        invariant rising ==> Rising(Items()[hole := event], hole)
        invariant OnWay(v, path, start, event, false, hole)
      {
        hole, path := RiseOn(hole, event, v, path, start, false);
      }
      WayEnds(v, path, start, event, false, hole);
      Land(hole, event);
      RoseFrom(v, Items(), start, event, false, path);
    }

    /** The hole has risen along the way. */
    ghost predicate OnWay(v: seq<Event?>, path: seq<nat>, start: nat, event: Event, forced: bool, hole: nat)
      reads this, elements, v, event
    {
      && n <= elements.Length && UpWay(v, path, start, event, forced) && Shifted(v, Items(), path)
      && path[|path| - 1] == hole
    }

    /** The hole moves up one step of the way. */
    method RiseOn(hole: nat, event: Event, ghost v: seq<Event?>, ghost path: seq<nat>, ghost start: nat,
        ghost forced: bool)
      returns (hole': nat, ghost path': seq<nat>)
      requires 0 < hole < n && Indexed(hole) && event !in Others(hole) && OnWay(v, path, start, event, forced, hole)
      requires (forced && |path| == 1) || Greater(elements[Parent(hole)], event)
      modifies elements, Others(hole)`minHeapIdx
      ensures hole' == Parent(hole) && Indexed(hole') && Others(hole') == old(Others(hole))
      ensures old(Rising(Items()[hole := event], hole) && Greater(elements[Parent(hole)], event)) ==>
                Rising(Items()[hole' := event], hole')
      ensures OnWay(v, path', start, event, forced, hole') && |path'| == |path| + 1
    {
      hide Rising, UpWay, Shifted;
      UpWayOn(v, Items(), path, start, event, forced);
      path' := path + [Parent(hole)];
      hole' := Rise(hole, event);
    }

    lemma WayBegins(v: seq<Event?>, start: nat, event: Event)
      requires start < n <= elements.Length && v == Items()
      ensures forall forced :: OnWay(v, [start], start, event, forced, start)
    {
    }

    lemma WayEnds(v: seq<Event?>, path: seq<nat>, start: nat, event: Event, forced: bool, hole: nat)
      requires OnWay(v, path, start, event, forced, hole) && (forced ==> |path| > 1) && Indexed(hole)
      requires hole == 0 || !Greater(elements[Parent(hole)], event)
      ensures RoseBy(v, Items()[hole := event], start, event, forced, path)
    {
      var w := Items()[hole := event];
      assert w[hole := v[hole]] == Items();
      if hole != 0 {
        forall i | 0 <= i < |path| ensures path[i] != Parent(hole) {
          UpWayFalls(v, path, start, event, forced, i, |path| - 1);
        }
      }
    }

    /** The event goes into the hole that rose for it. */
    method Land(hole: nat, event: Event)
      requires hole < n && Indexed(hole) && event !in Others(hole)
      requires hole == 0 || !Greater(elements[Parent(hole)], event)
      modifies elements, event`minHeapIdx
      ensures Valid() && Others(-1) == old(Others(hole)) + {event} && Items() == old(Items())[hole := event]
      ensures old(Rising(Items()[hole := event], hole)) ==> Ordered(Items())
    {
      hide Rising, Ordered;
      ghost var v := Items()[hole := event];
      if Rising(v, hole) { RiseEnds(v, hole); }
      Fill(hole, event);
      SameOrder(v);
    }

    /** The hole moves up one step. */
    method Rise(hole: nat, event: Event) returns (hole': nat)
      requires 0 < hole < n && Indexed(hole) && event !in Others(hole)
      modifies elements, Others(hole)`minHeapIdx
      ensures hole' == Parent(hole) && Indexed(hole') && Others(hole') == old(Others(hole))
      ensures old(Rising(Items()[hole := event], hole) && Greater(elements[Parent(hole)], event)) ==>
                Rising(Items()[hole' := event], hole')
      ensures Items() == old(Items())[hole := old(elements[Parent(hole)])]
    {
      hide Rising;
      hole' := Parent(hole);
      ghost var v := Items()[hole := event];
      ghost var w := v[hole := v[hole']][hole' := v[hole]];
      if Rising(v, hole) && Greater(elements[hole'], event) {
        RiseStep(v, hole);
      }
      assert elements[hole'] in Others(hole);
      MoveHole(hole, hole');
      OrderFrame(w, hole');
      assert Items()[hole' := event] == w;
    }

    /** lu_min_heap_push_. */
    method Push(event: Event, granted: bool) returns (r: int)
      requires Valid() && event !in Items()
      modifies this, elements, Others(-1)`minHeapIdx, event`minHeapIdx
      ensures Valid() && (old(Ordered(Items())) ==> Ordered(Items()))
      ensures r == -1 ==> Items() == old(Items())
      ensures r != -1 ==> r == 0 && n == old(n) + 1 && Others(-1) == old(Others(-1)) + {event}
      ensures elements == old(elements) || fresh(elements)
      ensures r == 0 && (old(n) == 0 || !old(Greater(elements[Parent(n)], event))) ==> Items() == old(Items()) + [event]
      ensures r == 0 ==> Rose(old(Items()) + [event], Items(), old(n), event, false)
      ensures r == -1 <==> old(n) == old(elements.Length) && !granted
    {
      hide Ordered, Rising, Edge, Rose, Parent;
      ghost var v := Items();
      var ok := Reserve(n + 1, granted);
      SameOrder(v);
      if !ok {
        return -1;
      }
      Place(v, event);
      r := 0;
    }

    /** The event goes to the end and rises from there. */
    method Place(ghost v: seq<Event?>, event: Event)
      requires Valid() && n < elements.Length && v == Items() && event !in v
      modifies this`n, elements, Others(-1)`minHeapIdx, event`minHeapIdx
      ensures Valid() && n == old(n) + 1 && Others(-1) == old(Others(-1)) + {event}
      ensures old(Ordered(v)) ==> Ordered(Items())
      ensures old(n) == 0 || !old(Greater(elements[Parent(n)], event)) ==> Items() == v + [event]
      ensures Rose(v + [event], Items(), old(n), event, false)
    {
      hide Ordered, Rising, Edge, Indexed, Rose;
      OpenHole(v, event);
      ghost var w := Items();
      assert w[n - 1 := event] == v + [event];
      ShiftUp(n - 1, event);
    }

    /** Room for one more event, at the end. */
    method OpenHole(ghost v: seq<Event?>, event: Event)
      requires Valid() && n < elements.Length && v == Items() && event !in v
      modifies this`n
      ensures n == old(n) + 1 && Indexed(n - 1) && Others(n - 1) == old(Others(-1)) && event !in Others(n - 1)
      ensures Items()[..n - 1] == v
      ensures Ordered(v) ==> Rising(Items()[n - 1 := event], n - 1)
    {
      hide Ordered, Rising, Edge;
      n := n + 1;
      ghost var w := Items()[n - 1 := event];
      assert forall i :: 0 <= i < n - 1 ==> w[i] == elements[i] == v[i];
      assert w[..n - 1] == v;
      if Ordered(v) { Appended(v, w); }
    }

    /** lu_min_heap_shift_up_unconditional_, from a position in the heap. */
    method ShiftUpUnconditional(start: nat, event: Event)
      requires 0 < start < n && Indexed(start) && event !in Others(start)
      modifies elements, Others(start)`minHeapIdx, event`minHeapIdx
      ensures Valid() && n == old(n) && Others(-1) == old(Others(start)) + {event}
      ensures old(Rising(Items()[start := event], start) && Greater(elements[Parent(start)], event)) ==>
          Ordered(Items())
      ensures Rose(old(Items())[start := event], Items(), start, event, true)
    {
      hide Rising, Ordered, UpWay, Shifted, RoseBy, OnWay, Rose;
      ghost var rest, v := Others(start), Items();
      ghost var rising := Rising(Items()[start := event], start) && Greater(elements[Parent(start)], event);
      ghost var path: seq<nat> := [start];
      WayBegins(v, start, event);
      var hole: nat;
      hole, path := RiseOn(start, event, v, path, start, true);
      while hole != 0 && Greater(elements[Parent(hole)], event)
        invariant n <= elements.Length && hole < n && Indexed(hole) && Others(hole) == rest
        invariant rising ==> Rising(Items()[hole := event], hole)
        invariant OnWay(v, path, start, event, true, hole) && |path| > 1
      {
        hole, path := RiseOn(hole, event, v, path, start, true);
      }
      WayEnds(v, path, start, event, true, hole);
      Land(hole, event);
      RoseFrom(v, Items(), start, event, true, path);
    }

    /** The hole moves down to the child, or stays: the first comparison may pick the root itself. */
    method Descend(hole: nat, child: nat)
      requires hole < n && child < n && Indexed(hole) && (hole == child ==> Indexed(-1))
      modifies elements, {elements[child]}`minHeapIdx
      ensures Indexed(child) && Others(child) == old(Others(hole))
      ensures Items() == old(Items())[hole := old(elements[child])]
    {
      if hole != child {
        MoveHole(hole, child);
      } else {
        elements[hole] := elements[child];
        elements[hole].minHeapIdx := hole;
        assert Items() == old(Items());
      }
    }

    /** The hole on its way down, against the keys `k` of the array at the start. */
    ghost predicate Descending(hole: nat, minChild: nat, event: Event, k: seq<Timeval>, rest: set<Event?>)
      reads this, elements, elements[..], event
    {
      && n <= elements.Length && hole < n == |k| && Indexed(hole) && Others(hole) == rest && event !in rest
      && ((hole == 0 && minChild == 1) || minChild == 2 * (hole + 1))
      && Sinking(Items()[hole := event], hole)
      && OrderedKeys(k) && Tracking(k, event.timeout, hole, minChild)
      && (minChild == 1 ==> Indexed(-1) && Ordered(Items()) && !Greater(elements[0], event))
      && forall i {:trigger elements[i]} :: hole < i < n || (i == 0 && minChild == 1) ==>
          elements[i] != null && elements[i].timeout == k[i]
    }

    /** The event can go into the hole. */
    ghost predicate Settled(hole: nat, event: Event, k: seq<Timeval>, rest: set<Event?>)
      reads this, elements, elements[..], event
    {
      && n <= elements.Length && hole < n == |k| && Indexed(hole) && Others(hole) == rest && event !in rest
      && OrderedButLast(Items()[hole := event]) && (Ordered(Items()[hole := event]) <==> !Loses(k, event.timeout))
    }

    /** The child to compare with, and what that tells. */
    lemma ChildFits(hole: nat, minChild: nat, c: nat, event: Event, k: seq<Timeval>, rest: set<Event?>)
      requires Descending(hole, minChild, event, k, rest) && minChild < n
      requires c == Pick(k, minChild)
      ensures hole <= c < n && elements[c] != null && elements[c].timeout == k[c]
      ensures forall i {:trigger elements[i]} :: 0 < i < n && Parent(i) == hole ==> Le(elements[c], elements[i])
      ensures hole == c ==> minChild == 1 && c == 0 && Indexed(-1)
      ensures hole < c ==> Parent(c) == hole && elements[c] in rest
      ensures !Earlier(k[c], event.timeout) ==> Settled(hole, event, k, rest)
      ensures Tracking(k, event.timeout, c, 2 * (c + 1))
    {
      hide Sinking, Ordered, OrderedButLast, Tracking, Loses, OrderedKeys;
      var v := Items()[hole := event];
      if minChild == 1 { FirstChoice(Items(), event, c); } else { Choice(v, hole, c); }
      forall i {:trigger elements[i]} | 0 < i < n && Parent(i) == hole ensures Le(elements[c], elements[i]) {
        assert Items()[i] == elements[i] && v[i] == elements[i];
      }
      TrackStep(k, event.timeout, hole, minChild);
      if !Earlier(k[c], event.timeout) { StopsOrdered(k, event.timeout, hole, minChild); }
    }

    /** The hole on its way down, in any heap: every other position is right. */
    predicate Open(hole: nat, minChild: nat, start: nat)
      reads this, elements, elements[..]
    {
      && n <= elements.Length && hole < n && Indexed(hole)
      && ((hole == start && minChild == 2 * start + 1 && Indexed(-1)) || minChild == 2 * (hole + 1))
    }

    /** The position that lu_min_heap_shift_down_ compares with. */
    method PickChild(hole: nat, minChild: nat, ghost start: nat) returns (c: nat)
      requires Open(hole, minChild, start) && minChild < n
      ensures minChild - 1 <= c <= minChild && elements[c] != null && (hole == c ==> Indexed(-1))
      ensures elements[minChild] != null && elements[minChild - 1] != null
      ensures c == if Greater(elements[minChild], elements[minChild - 1]) then minChild - 1 else minChild
    {
      assert elements[minChild] != null && elements[minChild - 1] != null;
      c := if minChild == n || Greater(elements[minChild], elements[minChild - 1]) then minChild - 1 else minChild;
    }

    /** In a descent from the root that is the child the keys tell. */
    lemma PickedByKeys(hole: nat, minChild: nat, event: Event, k: seq<Timeval>, rest: set<Event?>)
      requires Descending(hole, minChild, event, k, rest) && minChild < n
      ensures elements[minChild] != null && elements[minChild - 1] != null
      ensures Pick(k, minChild) == if Greater(elements[minChild], elements[minChild - 1]) then minChild - 1
          else minChild
    {
      hide Sinking, Ordered, Tracking, OrderedKeys;
      assert elements[minChild] != null && elements[minChild - 1] != null;
    }

    lemma DescentBegins(event: Event)
      requires 0 < n && Indexed(-1) && Ordered(Items())
      requires event !in Others(0) && !Greater(elements[0], event)
      ensures Descending(0, 1, event, Keys(Items()), Others(0))
    {
      hide Sinking, Tracking, OrderedKeys;
      RootSwap(Items(), event);
      KeysOrdered(Items());
      TrackBegins(Keys(Items()), event.timeout);
    }

    lemma DescentEnds(hole: nat, minChild: nat, event: Event, k: seq<Timeval>, rest: set<Event?>)
      requires Descending(hole, minChild, event, k, rest) && n <= minChild
      ensures Settled(hole, event, k, rest)
    {
      hide Ordered, OrderedButLast, Loses, OrderedKeys, Sinking;
      var v := Items()[hole := event];
      SinkEnds(v, hole);
      EndsOrdered(v, hole, k, event);
    }

    /** The hole moves to the picked position. */
    method Step(hole: nat, minChild: nat, c: nat, event: Event, ghost k: seq<Timeval>, ghost rest: set<Event?>)
      requires hole < n && c < n && Indexed(hole) && event !in Others(hole) && (hole == c ==> Indexed(-1))
      modifies elements, {elements[c]}`minHeapIdx
      ensures Indexed(c) && Others(c) == old(Others(hole)) && Items() == old(Items())[hole := old(elements[c])]
      ensures (old(Descending(hole, minChild, event, k, rest)) && minChild < n
               && c == Pick(k, minChild) && Earlier(k[c], event.timeout)) ==>
                Descending(c, 2 * (c + 1), event, k, rest)
    {
      hide Sinking, Ordered, Tracking, OrderedKeys, Pick;
      ghost var sinks := Descending(hole, minChild, event, k, rest)
          && minChild < n && c == Pick(k, minChild) && Earlier(k[c], event.timeout);
      if sinks { ChildFits(hole, minChild, c, event, k, rest); }
      Sink(hole, c, event);
    }

    /** One turn of the loop: the event stays above the picked position, or the hole moves there. */
    method DescendOnce(hole: nat, minChild: nat, ghost start: nat, event: Event, ghost ordered: bool,
        ghost k: seq<Timeval>, ghost rest: set<Event?>)
      returns (c: nat, stop: bool)
      requires Open(hole, minChild, start) && minChild < n && Others(hole) == rest && event !in rest
      requires ordered ==> Descending(hole, minChild, event, k, rest)
      modifies elements, (rest + {elements[hole]})`minHeapIdx
      ensures stop ==> unchanged(elements) && Items() == old(Items()) && Indexed(hole) && Others(hole) == rest
      ensures stop && ordered ==> Settled(hole, event, k, rest)
      ensures old(elements[minChild]) != null && old(elements[minChild - 1]) != null
      ensures c == old(Candidate(Items(), minChild)) && (stop <==> !old(Greater(event, elements[c])))
      ensures !stop ==> Items() == old(Items())[hole := old(elements[c])]
      ensures !stop ==> minChild - 1 <= c <= minChild && Open(c, 2 * (c + 1), start) && Others(c) == rest
      ensures !stop ==> elements[c] in rest + {old(elements[hole])}
      ensures !stop && ordered ==> Descending(c, 2 * (c + 1), event, k, rest)
    {
      hide Descending, Settled, Pick;
      c := PickChild(hole, minChild, start);
      if ordered {
        PickedByKeys(hole, minChild, event, k, rest);
        ChildFits(hole, minChild, c, event, k, rest);
      }
      stop := !Greater(event, elements[c]);
      if !stop {
        assert c != hole ==> elements[c] in Others(hole);
        Step(hole, minChild, c, event, k, rest);
      }
    }

    /**
     lu_min_heap_shift_down_ from any position, whose old event is still in its place: the event
     replaces that one, and every position is right.  From the root of an ordered heap the order
     is whole afterwards except in exactly one situation.
     */
    method ShiftDown(start: nat, event: Event)
      requires start < n && Indexed(-1) && event !in Others(start)
      modifies elements, Others(-1)`minHeapIdx, event`minHeapIdx
      ensures Valid() && n == old(n) && Others(-1) == old(Others(start)) + {event}
      ensures start == 0 && old(Ordered(Items()) && !Greater(elements[0], event)) ==>
                OrderedButLast(Items()) && (Ordered(Items()) <==> !Loses(old(Keys(Items())), event.timeout))
      ensures Sank(old(Items()), Items(), start, event)
    {
      hide Descending, Settled, Ordered, OrderedButLast, Loses, Pick, OnDescent, SankBy, Sank;
      ghost var v, path: seq<nat> := Items(), [start];
      DescentStarts(v, start, event);
      ghost var rest, all, k := Others(start), Others(-1), Keys(Items());
      ghost var ordered := start == 0 && Ordered(Items()) && !Greater(elements[0], event);
      var hole: nat, minChild: nat := start, 2 * start + 1;
      if ordered { DescentBegins(event); }
      ghost var settled := false;
      while minChild < n
        invariant !settled && Open(hole, minChild, start) && Others(hole) == rest && rest <= all
        invariant elements[hole] in all
        invariant ordered ==> Descending(hole, minChild, event, k, rest)
        invariant OnDescent(v, path, start, event, hole, minChild)
        decreases n - minChild
      {
        var c, stop;
        c, stop, path := DescendOn(hole, minChild, start, event, ordered, k, rest, v, path);
        if stop {
          settled := true;
          break;
        }
        hole := c;
        minChild := 2 * (hole + 1);
      }
      if !settled { DescentLeaves(v, path, start, event, hole, minChild); }
      if ordered && !settled { DescentEnds(hole, minChild, event, k, rest); }
      Settle(hole, event, k, rest);
      SankAlong(v, Items(), start, event, path);
    }

    /** The hole has sunk along the way. */
    ghost predicate OnDescent(v: seq<Event?>, path: seq<nat>, start: nat, event: Event, hole: nat, minChild: nat)
      reads this, elements, v`timeout, event`timeout
    {
      && n == |v| <= elements.Length && DownWay(v, path, start, event) && Shifted(v, Items(), path)
      && path[|path| - 1] == hole && Comparing(v, path, start, event, minChild)
    }

    lemma DescentStarts(v: seq<Event?>, start: nat, event: Event)
      requires start < n <= elements.Length && v == Items()
      ensures OnDescent(v, [start], start, event, start, 2 * start + 1)
    {
    }

    lemma DescentLeaves(v: seq<Event?>, path: seq<nat>, start: nat, event: Event, hole: nat, minChild: nat)
      requires OnDescent(v, path, start, event, hole, minChild) && n <= minChild
      ensures SankBy(v, Items()[hole := event], start, event, path)
    {
      DownWayEnds(v, Items(), path, start, event, minChild);
    }

    /** One turn of the loop, along the way. */
    method DescendOn(hole: nat, minChild: nat, ghost start: nat, event: Event, ghost ordered: bool,
        ghost k: seq<Timeval>, ghost rest: set<Event?>, ghost v: seq<Event?>, ghost path: seq<nat>)
      returns (c: nat, stop: bool, ghost path': seq<nat>)
      requires Open(hole, minChild, start) && minChild < n && Others(hole) == rest && event !in rest
      requires ordered ==> Descending(hole, minChild, event, k, rest)
      requires OnDescent(v, path, start, event, hole, minChild)
      modifies elements, (rest + {elements[hole]})`minHeapIdx
      ensures stop ==> unchanged(elements) && Items() == old(Items()) && Indexed(hole) && Others(hole) == rest
      ensures stop && ordered ==> Settled(hole, event, k, rest)
      ensures stop ==> path' == path && SankBy(v, Items()[hole := event], start, event, path)
      ensures !stop ==> minChild - 1 <= c <= minChild && Open(c, 2 * (c + 1), start) && Others(c) == rest
      ensures !stop ==> elements[c] in rest + {old(elements[hole])}
      ensures !stop && ordered ==> Descending(c, 2 * (c + 1), event, k, rest)
      ensures !stop ==> OnDescent(v, path', start, event, c, 2 * (c + 1))
    {
      hide Descending, Settled, DownWay, Shifted, SankBy, Comparing;
      ghost var w := Items();
      c, stop := DescendOnce(hole, minChild, start, event, ordered, k, rest);
      path' := path;
      if stop {
        DownWayEnds(v, w, path, start, event, minChild);
      } else {
        DownWayOn(v, w, path, start, event, minChild, c);
        if c != hole { path' := path + [c]; }
      }
    }

    /** The event goes into the hole. */
    method Settle(hole: nat, event: Event, ghost k: seq<Timeval>, ghost rest: set<Event?>)
      requires hole < n && Indexed(hole) && Others(hole) == rest && event !in rest
      modifies elements, event`minHeapIdx
      ensures Valid() && Others(-1) == rest + {event} && Items() == old(Items())[hole := event]
      ensures old(Settled(hole, event, k, rest)) ==>
                OrderedButLast(Items()) && (Ordered(Items()) <==> !Loses(k, event.timeout))
    {
      hide Ordered, OrderedButLast, Loses;
      ghost var v := Items()[hole := event];
      Fill(hole, event);
      SameOrder(v);
    }

    /** One step down; if no sibling precedes the child (or it is the root itself), the order sinks with it. */
    method Sink(hole: nat, c: nat, event: Event)
      requires hole < n && c < n && Indexed(hole) && event !in Others(hole) && (hole == c ==> Indexed(-1))
      modifies elements, {elements[c]}`minHeapIdx
      ensures Indexed(c) && Others(c) == old(Others(hole)) && Items() == old(Items())[hole := old(elements[c])]
      ensures forall i {:trigger elements[i]} :: 0 <= i < n && i != hole && i != c ==> elements[i] == old(elements[i])
      ensures old(SinksOver(hole, c, event)) ==> Sinking(Items()[c := event], c)
    {
      hide Sinking;
      ghost var v := Items()[hole := event];
      ghost var w := v[hole := v[c]][c := v[hole]];
      assert old(allocated(w)) && |w| == n;
      if SinksOver(hole, c, event) {
        if hole != c {
          forall i {:trigger v[i]} | 0 < i < |v| && Parent(i) == hole ensures Le(v[c], v[i]) {
            assert v[i] == elements[i];
          }
          assert forall i :: 0 <= i < |v| && i != hole ==> v[i] == elements[i];
          SinkStep(v, hole, c);
        } else {
          assert w == v;
        }
      }
      ghost var before := Items();
      Descend(hole, c);
      assert Items()[c := event] == w;
      assert forall i {:trigger elements[i]} :: 0 <= i < n ==>
          elements[i] == Items()[i] == before[hole := before[c]][i];
      OrderFrame(w, c);
    }

    ghost predicate SinksOver(hole: nat, c: nat, event: Event)
      requires hole < n <= elements.Length && c < n && elements[c] != null
      reads this, elements, elements[..], event
    {
      && hole <= c && Sinking(Items()[hole := event], hole)
      && (hole < c ==> Parent(c) == hole && Greater(event, elements[c]))
      && (forall i {:trigger elements[i]} :: 0 < i < n && Parent(i) == hole ==> Le(elements[c], elements[i]))
      && (forall i {:trigger elements[i]} :: 0 <= i < n && i != hole ==> elements[i] != null)
    }

    /** An event that left the heap. */
    method ForgetIndex(event: Event)
      requires Valid() && event !in Others(-1)
      modifies event`minHeapIdx
      ensures Valid() && event.minHeapIdx == SIZE_MAX
      ensures OrderedButLast(Items()) <==> old(OrderedButLast(Items()))
      ensures Ordered(Items()) <==> old(Ordered(Items()))
    {
      assert forall i {:trigger elements[i]} :: 0 <= i < n ==> elements[i] in Others(-1);
      event.minHeapIdx := SIZE_MAX;
      SameOrder(Items());
    }

    /** lu_min_heap_pop_: of every heap the first event; of an ordered one a least event. */
    method Pop() returns (top: Event?)
      requires Valid()
      modifies this, elements, Others(-1)`minHeapIdx
      ensures Valid()
      ensures old(n) == 0 ==> top == null && Items() == old(Items())
      ensures old(n) > 0 ==>
                && top == old(elements[0]) && top.minHeapIdx == SIZE_MAX
                && n == old(n) - 1 && Others(-1) == old(Others(-1)) - {top}
      ensures old(n) > 0 && old(Ordered(Items())) ==>
                && OrderedButLast(Items()) && (forall e :: e in old(Items()) ==> Le(top, e))
                && (Ordered(Items()) <==> !Loses(old(Keys(elements[..n - 1])), old(Keys(Items()))[old(n) - 1]))
      ensures old(n) > 1 ==>
                old(elements[n - 1]) != null && Sank(old(elements[..n - 1]), Items(), 0, old(elements[n - 1]))
    {
      hide Ordered, OrderedButLast, Loses, Edge, Keys, Sank;
      if n == 0 {
        return null;
      }
      ghost var v, m, ordered := Items(), n - 1, Ordered(Items());
      if ordered { PopBegins(v, m); }
      top := elements[0];
      n := n - 1;
      var last := elements[n];
      assert Items() == v[..m];
      if n == 0 {
        elements[0] := last;
        last.minHeapIdx := 0;
        EmptyOrder(Items());
        EmptyKeys(v[..m], last.timeout);
      } else {
        ShiftDown(0, last);
      }
      assert forall i {:trigger elements[i]} :: 0 <= i < n ==> elements[i] in Others(-1);
      assert top !in Others(-1);
      ForgetIndex(top);
    }

    /** Is the event at the position it knows? */
    predicate Holds(event: Event)
      reads this, elements, event
    {
      event.minHeapIdx < n <= elements.Length && elements[event.minHeapIdx] == event
    }

    /** Is an event later than `event` above the position `i`? */
    predicate Upward(i: nat, event: Event)
      requires Valid() && i <= n
      reads this, elements, elements[..], event
    {
      0 < i && Greater(elements[Parent(i)], event)
    }

    /** lu_min_heap_adjust_: an event whose timeout changed, or that is not in the heap yet. */
    method Adjust(event: Event, granted: bool) returns (r: int)
      requires Valid() && if event.minHeapIdx == SIZE_MAX then event !in Items() else Holds(event)
      modifies this, elements, Others(-1)`minHeapIdx, event`minHeapIdx
      ensures Valid() && (r == 0 || r == -1)
      ensures r == -1 <==> old(event.minHeapIdx) == SIZE_MAX && old(n) == old(elements.Length) && !granted
      ensures Others(-1) == old(Others(-1)) + if r == 0 then {event} else {}
      ensures old(event.minHeapIdx != SIZE_MAX && Upward(event.minHeapIdx, event) && Rising(Items(),
          event.minHeapIdx)) ==>
                Ordered(Items())
      ensures old(event.minHeapIdx) != SIZE_MAX ==>
                if old(Upward(event.minHeapIdx, event))
                then Rose(old(Items()), Items(), old(event.minHeapIdx), event, true)
                else Sank(old(Items()), Items(), old(event.minHeapIdx), event)
      ensures old(event.minHeapIdx) == SIZE_MAX && r == 0 ==>
                Rose(old(Items()) + [event], Items(), old(n), event, false)
    {
      hide Rising, Ordered, Rose, Sank;
      if event.minHeapIdx == SIZE_MAX {
        r := Push(event, granted);
      } else {
        ghost var i := event.minHeapIdx;
        assert Items()[i := event] == Items();
        assert Others(-1) == Others(i) + {event};
        if event.minHeapIdx > 0 && Greater(elements[Parent(event.minHeapIdx)], event) {
          ShiftUpUnconditional(event.minHeapIdx, event);
        } else {
          ShiftDown(event.minHeapIdx, event);
        }
        r := 0;
      }
    }

    /** Every event is at one position only. */
    lemma OneLess(hole: nat)
      requires Valid() && hole < n
      ensures Others(-1) == Others(hole) + {elements[hole]} && elements[hole] !in Others(hole) && null !in Others(-1)
      ensures forall i {:trigger elements[i]} :: 0 <= i < n ==> elements[i] in Others(-1)
    {
      assert forall i {:trigger elements[i]} :: 0 <= i < n ==> elements[i] != null && elements[i].minHeapIdx == i;
    }

    /** The parent of the position just behind the heap moves there, out of the heap. */
    method MoveOut() returns (hole: nat)
      requires Valid() && 0 < n < elements.Length
      modifies elements, {elements[Parent(n)]}`minHeapIdx
      ensures hole == Parent(n) && n == old(n) && Indexed(hole) && elements[n] == old(elements[Parent(n)])
      ensures Others(hole) == old(Others(-1)) - {elements[n]}
    {
      hole := Parent(n);
      OneLess(hole);
      ghost var v, rest := Items(), Others(hole);
      elements[n] := elements[hole];
      elements[n].minHeapIdx := n;
      assert Items() == v;
      assert Others(hole) == rest by {
        assert forall i :: 0 <= i < n ==> elements[i] == v[i];
      }
    }

    /** lu_min_heap_shift_up_unconditional_ from the position just behind the heap. */
    method ShiftUpBehind(event: Event)
      requires Valid() && 0 < n < elements.Length && event !in Others(-1)
      modifies elements, Others(-1)`minHeapIdx, event`minHeapIdx
      ensures Valid() && n == old(n)
      ensures Others(-1) == old(Others(-1)) - {old(elements[Parent(n)])} + {event}
    {
      OneLess(Parent(n));
      ghost var rest := Others(-1) - {elements[Parent(n)]};
      var hole: nat := MoveOut();
      while hole != 0 && Greater(elements[Parent(hole)], event)
        invariant n == old(n) < elements.Length && hole < n && Indexed(hole) && Others(hole) == rest
      {
        hole := Rise(hole, event);
      }
      Land(hole, event);
    }

    /** The event is the last one and stands below a later one. */
    predicate Misplaced(event: Event)
      requires Valid() && Holds(event)
      reads this, elements, elements[..], event
    {
      event.minHeapIdx == n - 1 && Upward(n - 1, event)
    }

    /** The heap gives up its last position. */
    method DropLast() returns (last: Event)
      requires Valid() && 0 < n
      modifies this`n
      ensures Valid() && n == old(n) - 1 && n < elements.Length && last == elements[n]
      ensures last !in Others(-1) && old(Others(-1)) == Others(-1) + {last}
    {
      OneLess(n - 1);
      assert Others(n - 1) == set i | 0 <= i < n - 1 :: elements[i];
      n := n - 1;
      last := elements[n];
      assert Others(-1) == set i | 0 <= i < n :: elements[i];
    }

    /** How erasing refills the position `i`, which may be just behind the heap. */
    method Refill(i: nat, last: Event)
      requires Valid() && i <= n < elements.Length && last !in Others(-1) && last == elements[n]
      modifies elements, Others(-1)`minHeapIdx, last`minHeapIdx
      ensures Valid() && n == old(n)
      ensures i < n ==> Others(-1) == old(Others(i)) + {last}
      ensures i < n && old(Upward(i, last) && Rising(Items()[i := last], i)) ==> Ordered(Items())
      ensures i == n && !old(Upward(n, last)) ==> Others(-1) == old(Others(-1)) && Items() == old(Items())
      ensures i < n ==>
                if old(Upward(i, last)) then Rose(old(Items())[i := last], Items(), i, last, true)
                else Sank(old(Items()), Items(), i, last)
      ensures i == n && old(Upward(n, last)) ==> Others(-1) == old(Others(-1)) - {old(elements[Parent(n)])} + {last}
    {
      hide Rising, Ordered, Rose, Sank;
      if i < n { OneLess(i); }
      if i > 0 && Greater(elements[Parent(i)], last) {
        if i == n {
          ShiftUpBehind(last);
        } else {
          ShiftUpUnconditional(i, last);
        }
      } else if i == n {
        // the shift down starts behind the heap and only writes there
        elements[i] := last;
        last.minHeapIdx := i;
        assert forall j :: 0 <= j < n ==> elements[j] == old(elements[j]);
      } else {
        ShiftDown(i, last);
      }
    }

    /** The last event leaves its position and refills the one of `event`. */
    method Vacate(event: Event)
      requires Valid() && Holds(event)
      modifies this`n, elements, Others(-1)`minHeapIdx
      ensures Valid() && n == old(n) - 1
      ensures !old(Misplaced(event)) ==> Others(-1) == old(Others(-1)) - {event}
      ensures old(Misplaced(event)) ==>
                Others(-1) == old(Others(-1)) - {old(elements[Parent(n - 1)])} && event in Others(-1)
      ensures old(Ordered(Items()) && event.minHeapIdx < n - 1 && Upward(event.minHeapIdx, elements[n - 1])) ==>
                Ordered(Items())
      ensures old(event.minHeapIdx < n - 1) ==>
                Refilled(old(elements[..n - 1]), Items(), old(event.minHeapIdx), old(elements[n - 1]))
      ensures old(event.minHeapIdx == n - 1) && !old(Misplaced(event)) ==> Items() == old(elements[..n - 1])
    {
      hide Ordered, Rising, Edge, Indexed, Rose, Sank;
      var i := event.minHeapIdx;
      OneLess(i);
      ghost var v, ordered := Items(), Ordered(Items());
      var last := DropLast();
      assert Items() == v[..n];
      if ordered && i < n && Upward(i, last) { EraseRises(v, i); }
      if i < n { OneLess(i); }
      if 0 < i == n { OneLess(Parent(n)); }
      Refill(i, last);
    }

    /**
     lu_min_heap_erase_: the last event replaces the erased one.  Exactly if the erased event is
     the last one and stands below a later one, it stays in the heap and its parent leaves.
     */
    method Erase(event: Event) returns (r: int)
      requires Valid() && n <= SIZE_MAX && (event.minHeapIdx == SIZE_MAX || Holds(event))
      modifies this`n, elements, Others(-1)`minHeapIdx
      ensures r == if old(event.minHeapIdx) == SIZE_MAX then -1 else 0
      ensures r == -1 ==> n == old(n) && unchanged(elements) && Valid()
      ensures r == 0 ==> n == old(n) - 1 && event.minHeapIdx == SIZE_MAX && old(Holds(event))
      ensures r == 0 && !old(Misplaced(event)) ==> Valid() && Others(-1) == old(Others(-1)) - {event}
      ensures r == 0 && old(Misplaced(event)) ==>
                !Valid() && event in Others(-1) && Others(-1) == old(Others(-1)) - {old(elements[Parent(n - 1)])}
      ensures r == 0 && old(Ordered(Items())) ==> !old(Misplaced(event))
      ensures r == 0 ==>
                old(Ordered(Items()) && event.minHeapIdx < n - 1 && Upward(event.minHeapIdx, elements[n - 1])) ==>
                  Ordered(Items())
      ensures r == 0 && old(event.minHeapIdx < n - 1) ==>
                Refilled(old(elements[..n - 1]), Items(), old(event.minHeapIdx), old(elements[n - 1]))
      ensures r == 0 && old(event.minHeapIdx == n - 1) && !old(Misplaced(event)) ==> Items() == old(elements[..n - 1])
    {
      hide Ordered, Rising, Edge, Indexed, Refilled;
      if event.minHeapIdx == SIZE_MAX {
        return -1;
      }
      if Ordered(Items()) { NotMisplaced(event); }
      Vacate(event);
      Forget(event);
      r := 0;
    }

    /** The last line of the erasure; if the event is still there, the heap is not right any more. */
    method Forget(event: Event)
      requires Valid() && n <= SIZE_MAX
      modifies event`minHeapIdx
      ensures event.minHeapIdx == SIZE_MAX && (Valid() <==> event !in Others(-1)) && Others(-1) == old(Others(-1))
      ensures Ordered(Items()) <==> old(Ordered(Items()))
    {
      assert forall i {:trigger elements[i]} :: 0 <= i < n ==> elements[i] in Others(-1);
      ghost var there := event in Others(-1);
      ghost var i: nat;
      if there { i :| i < n && elements[i] == event; }
      event.minHeapIdx := SIZE_MAX;
      if there { assert elements[i].minHeapIdx != i; }
      SameOrder(Items());
    }

    lemma NotMisplaced(event: Event)
      requires Valid() && Holds(event) && Ordered(Items())
      ensures !Misplaced(event)
    {
      if 0 < n - 1 { assert Edge(Items(), n - 1); }
    }
  }

  /** An event above which a later one stands: nothing below its new place is earlier. */
  lemma EraseRises(v: seq<Event?>, i: nat)
    requires Ordered(v) && 0 < i < |v| - 1 && (forall j :: 0 <= j < |v| ==> v[j] != null)
    requires Greater(v[Parent(i)], v[|v| - 1])
    ensures Rising(v[..|v| - 1][i := v[|v| - 1]], i)
  {
    var m := |v| - 1;
    var w := v[..m][i := v[m]];
    assert Edge(v, i);
    forall j {:trigger Edge(w, j)} | 0 < j < m && j != i ensures Edge(w, j) {
      assert Edge(v, j);
    }
    forall j {:trigger w[j]} | 0 < j < m && Parent(j) == i ensures Le(w[Parent(i)], w[j]) {
      assert Edge(v, j);
    }
  }

  /** Two timers pushed in order. */
  method TwoTimers() returns (h: MinHeap, a: Event, b: Event)
    ensures fresh(h) && fresh(h.elements) && fresh(a) && fresh(b) && a != b && h.Valid() && h.n == 2
    ensures h.Items() == [a, b] && Ordered(h.Items())
    ensures a.timeout == Timeval(1, 0) && b.timeout == Timeval(2, 0)
  {
    hide Ordered, Rose, Edge;
    a := new Event(Timeval(1, 0));
    b := new Event(Timeval(2, 0));
    h := new MinHeap();
    EmptyOrder(h.Items());
    var r := h.Push(a, true);
    assert h.elements[0] == h.Items()[0] == a && h.Items() == [a];
    r := h.Push(b, true);
  }

  /** Three timers pushed in order. */
  method ThreeTimers() returns (h: MinHeap, a: Event, b: Event, c: Event)
    ensures fresh(h) && fresh(h.elements) && fresh(a) && fresh(b) && fresh(c) && h.Valid() && h.n == 3
    ensures h.Items() == [a, b, c] && a != b && b != c && a != c && Ordered(h.Items())
    ensures a.timeout == Timeval(1, 0) && b.timeout == Timeval(2, 0) && c.timeout == Timeval(3, 0)
  {
    hide Ordered, Rose, Edge;
    h, a, b := TwoTimers();
    c := new Event(Timeval(3, 0));
    assert h.elements[0] == h.Items()[0] == a;
    var r := h.Push(c, true);
  }

  /** Popping the first of them leaves the third above the second. */
  method FirstPopped() returns (h: MinHeap, b: Event, c: Event)
    ensures fresh(h) && fresh(h.elements) && fresh(b) && fresh(c) && h.Valid() && h.n == 2 && b != c
    ensures h.elements[0] == c && h.elements[1] == b && !Ordered(h.Items())
    ensures b.timeout == Timeval(2, 0) && c.timeout == Timeval(3, 0)
  {
    hide Loses, Sank;
    var a;
    h, a, b, c := ThreeTimers();
    LosesExample();
    assert Keys(h.Items()) == [Timeval(1, 0), Timeval(2, 0), Timeval(3, 0)];
    assert Keys(h.elements[..2]) == [Timeval(1, 0), Timeval(2, 0)];
    var top := h.Pop();
    assert !Ordered(h.Items());
    assert h.elements[0] in h.Others(-1) && h.elements[1] in h.Others(-1);
  }

  /**
   Popping the first of them leaves the third above the second; erasing the second then erases
   the third instead, and leaves the second in the heap.
   */
  method TimersGoWrong() returns (h: MinHeap, b: Event, c: Event)
    ensures h.n == 1 && h.n <= h.elements.Length && h.Others(-1) == {b} && b != c && !h.Valid()
    ensures b.timeout == Timeval(2, 0) && c.timeout == Timeval(3, 0)
  {
    hide Ordered, Refilled;
    h, b, c := FirstPopped();
    var r := h.Erase(b);
  }

  lemma EmptyOrder(v: seq<Event?>)
    requires v == []
    ensures Ordered(v) && OrderedButLast(v)
  {
  }

  lemma EmptyKeys(v: seq<Event?>, t: Timeval)
    requires v == []
    ensures !Loses(Keys(v), t)
  {
  }

  /** The array without its last event. */
  lemma PopBegins(v: seq<Event?>, m: nat)
    requires m + 1 == |v| && Ordered(v) && forall i :: 0 <= i < |v| ==> v[i] != null
    ensures Ordered(v[..m]) && forall i :: 0 <= i < |v| ==> !Greater(v[0], v[i])
  {
    forall i {:trigger Edge(v[..m], i)} | 0 < i < m ensures Edge(v[..m], i) {
      assert Edge(v, i);
    }
    forall i | 0 <= i < |v| ensures !Greater(v[0], v[i]) {
      RootLeast(v, i);
    }
  }

  function Max(a: nat, b: nat): nat {
    if a > b then a else b
  }
}
