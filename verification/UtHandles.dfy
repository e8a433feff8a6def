/**
 The hash handles of other/lu_hash.h and the merge sort that relinks them (HASH_SRT).
 */
module UtHandles {
  import opened UtSort

  newtype byte = x: int | 0 <= x < 256

  type Key = seq<byte>

  /** UT_hash_handle: `prev` and `next` thread the insertion order, `hhPrev` and `hhNext` a bucket. */
  class Handle {
    const key: Key
    var hashv: nat
    var prev: Handle?
    var next: Handle?
    var hhPrev: Handle?
    var hhNext: Handle?

    constructor (key: Key)
      ensures this.key == key
    {
      this.key := key;
      hashv, prev, next, hhPrev, hhNext := 0, null, null, null, null;
    }
  }

  predicate Distinct(s: seq<Handle>) {
    forall i, j :: 0 <= i < j < |s| ==> s[i] != s[j]
  }

  /** The handle at position `i`, or NULL beyond the ends. */
  function At(s: seq<Handle>, i: int): Handle? {
    if 0 <= i < |s| then s[i] else null
  }

  /** `s` threaded through `next`, with `prev` its exact inverse. */
  predicate Linked(s: seq<Handle>)
    reads s
  {
    && (forall i {:trigger s[i].next} :: 0 <= i < |s| ==> s[i].next == At(s, i + 1))
    && (forall i {:trigger s[i].prev} :: 0 <= i < |s| ==> s[i].prev == At(s, i - 1))
  }

  // ---------------------------------------------------------------------------------------
  // The sort
  // ---------------------------------------------------------------------------------------

  /** The part already merged: its last `next` is not yet set. */
  predicate Done(s: seq<Handle>, list: Handle?, tail: Handle?)
    reads s
  {
    && list == At(s, 0) && tail == At(s, |s| - 1)
    && (forall i {:trigger s[i].next} :: 0 <= i < |s| - 1 ==> s[i].next == s[i + 1])
    && (forall i {:trigger s[i].prev} :: 0 <= i < |s| ==> s[i].prev == At(s, i - 1))
  }

  /** What is left of the left run: only its inner links count. */
  predicate Run(s: seq<Handle>)
    reads s
  {
    forall i {:trigger s[i].next} :: 0 <= i < |s| - 1 ==> s[i].next == s[i + 1]
  }

  /** What is left of the list, to its end. */
  predicate Rest(s: seq<Handle>, q: Handle?)
    reads s
  {
    && q == At(s, 0)
    && forall i {:trigger s[i].next} :: 0 <= i < |s| ==> s[i].next == At(s, i + 1)
  }

  /** Appends `e` to the merged part. */
  method Append(list: Handle?, tail: Handle?, e: Handle, ghost done: seq<Handle>) returns (list': Handle?,
      tail': Handle?)
    requires Done(done, list, tail) && Distinct(done) && e !in done
    modifies (if tail == null then {} else {tail})`next, e`prev
    ensures Done(done + [e], list', tail')
  {
    if tail != null { tail.next := e; } else { assert done == []; }
    list' := if tail != null then list else e;
    e.prev := tail;
    tail' := e;
    ghost var s := done + [e];
    forall i | 0 <= i < |s| ensures s[i].prev == At(s, i - 1) {
      assert 0 < i ==> s[i - 1] == done[i - 1];
      if i < |done| { assert s[i] == done[i]; }
    }
  }

  /** Counts off at most `insize` handles from `p`. */
  method TakeRun(p: Handle, insize: nat, ghost rest: seq<Handle>) returns (psize: nat, q: Handle?)
    requires 0 < insize && Rest(rest, p)
    ensures psize == Min(insize, |rest|)
    ensures q == At(rest, psize)
  {
    q, psize := p, 0;
    var i := 0;
    while i < insize
      invariant 0 <= i <= insize && psize == i < |rest| && q == rest[i]
    {
      psize := psize + 1;
      assert rest[i].next == At(rest, i + 1);
      q := q.next;
      if q == null { break; }
      i := i + 1;
    }
  }

  predicate Apart(a: seq<Handle>, b: seq<Handle>) {
    forall x :: x in a ==> x !in b
  }

  /** Three disjoint parts of a list. */
  predicate Parts(done: seq<Handle>, p: seq<Handle>, rest: seq<Handle>) {
    Distinct(done) && Distinct(p) && Distinct(rest) && Apart(done, p) && Apart(done, rest) && Apart(p, rest)
  }

  lemma PartsLeft(done: seq<Handle>, p: seq<Handle>, rest: seq<Handle>)
    requires Parts(done, p, rest) && p != []
    ensures Parts(done + [p[0]], p[1..], rest) && p[0] !in done && p[0] !in rest && p[0] !in p[1..]
  {
    assert p[0] in p;
    assert forall x :: x in p[1..] ==> x in p;
  }

  lemma PartsRight(done: seq<Handle>, p: seq<Handle>, rest: seq<Handle>)
    requires Parts(done, p, rest) && rest != []
    ensures Parts(done + [rest[0]], p, rest[1..]) && rest[0] !in done && rest[0] !in p && rest[0] !in rest[1..]
  {
    assert rest[0] in rest;
    assert forall x :: x in rest[1..] ==> x in rest;
  }

  /** What a merge keeps: the first part is done, the others are still to come. */
  predicate Merging(done: seq<Handle>, p: seq<Handle>, rest: seq<Handle>, list: Handle?, tail: Handle?, ph: Handle?,
      q: Handle?)
    reads done, p, rest
  {
    && Parts(done, p, rest)
    && Done(done, list, tail) && Run(p) && Rest(rest, q)
    && (p != [] ==> ph == p[0])
  }

  /** The head of the left run goes to the merged part. */
  method TakeLeft(list: Handle?, tail: Handle?, p: Handle?, q: Handle?, ghost done: seq<Handle>,
      ghost P: seq<Handle>, ghost rest: seq<Handle>)
    returns (list': Handle?, tail': Handle?, p': Handle?)
    requires Merging(done, P, rest, list, tail, p, q) && P != []
    modifies done`next, P`prev
    ensures Merging(done + [P[0]], P[1..], rest, list', tail', p', q)
  {
    PartsLeft(done, P, rest);
    ghost var L := P[1..];
    forall i | 0 <= i < |L| - 1 ensures L[i].next == L[i + 1] {
      assert P[i + 1].next == P[i + 2];
    }
    p' := p.next;
    assert tail != null ==> tail in done;
    assert forall x :: x in L ==> x in P && x !in done;
    list', tail' := Append(list, tail, p, done);
    forall x | x in L || x in rest ensures x.next == old(x.next) {
      assert x !in done;
    }
  }

  /** The head of the right run goes to the merged part. */
  method TakeRight(list: Handle?, tail: Handle?, p: Handle?, q: Handle?, ghost done: seq<Handle>,
      ghost P: seq<Handle>, ghost rest: seq<Handle>)
    returns (list': Handle?, tail': Handle?, q': Handle?)
    requires Merging(done, P, rest, list, tail, p, q) && rest != []
    modifies done`next, rest`prev
    ensures Merging(done + [rest[0]], P, rest[1..], list', tail', p, q')
  {
    PartsRight(done, P, rest);
    ghost var R := rest[1..];
    assert rest[0].next == At(rest, 1) == At(R, 0);
    forall i | 0 <= i < |R| ensures R[i].next == At(R, i + 1) {
      assert rest[i + 1].next == At(rest, i + 2);
    }
    q' := q.next;
    assert tail != null ==> tail in done;
    assert forall x :: x in R ==> x in rest && x !in done;
    list', tail' := Append(list, tail, q, done);
    forall x | x in R || x in P ensures x.next == old(x.next) {
      assert x !in done;
    }
  }

  /** What a merge still has to put behind the merged part. */
  function ToCome(p: seq<Handle>, rest: seq<Handle>, qsize: nat, cmp: (Handle, Handle) -> int): seq<Handle> {
    Merge(p, rest[..Min(qsize, |rest|)], cmp)
  }

  ghost predicate Within(a: seq<Handle>, nodes: set<Handle>) {
    forall x :: x in a ==> x in nodes
  }

  /** The merged part, what is to come, and what lies behind the two runs, against the goal. */
  ghost predicate OnTrack(done: seq<Handle>, p: seq<Handle>, rest: seq<Handle>, qsize: nat,
      cmp: (Handle, Handle) -> int,
                          goal: seq<Handle>, behind: seq<Handle>, nodes: set<Handle>) {
    && done + ToCome(p, rest, qsize, cmp) == goal && rest[Min(qsize, |rest|)..] == behind
    && Within(done, nodes) && Within(p, nodes) && Within(rest, nodes)
  }

  lemma StepLeft(done: seq<Handle>, p: seq<Handle>, rest: seq<Handle>, qsize: nat, cmp: (Handle, Handle) -> int,
                 goal: seq<Handle>, behind: seq<Handle>, nodes: set<Handle>)
    requires OnTrack(done, p, rest, qsize, cmp, goal, behind, nodes)
    requires p != [] && (qsize == 0 || rest == [] || cmp(p[0], rest[0]) <= 0)
    ensures OnTrack(done + [p[0]], p[1..], rest, qsize, cmp, goal, behind, nodes)
  {
    if qsize == 0 || rest == [] {
      assert rest[..Min(qsize, |rest|)] == [];
      assert p == [p[0]] + p[1..];
    }
    assert ToCome(p, rest, qsize, cmp) == [p[0]] + ToCome(p[1..], rest, qsize, cmp);
  }

  lemma StepRight(done: seq<Handle>, p: seq<Handle>, rest: seq<Handle>, qsize: nat, cmp: (Handle, Handle) -> int,
                  goal: seq<Handle>, behind: seq<Handle>, nodes: set<Handle>)
    requires OnTrack(done, p, rest, qsize, cmp, goal, behind, nodes)
    requires 0 < qsize && rest != [] && (p == [] || cmp(p[0], rest[0]) > 0)
    ensures OnTrack(done + [rest[0]], p, rest[1..], qsize - 1, cmp, goal, behind, nodes)
  {
    var y := rest[..Min(qsize, |rest|)];
    assert y[1..] == rest[1..][..Min(qsize - 1, |rest| - 1)];
    assert y == [rest[0]] + y[1..];
    assert rest[Min(qsize, |rest|)..] == rest[1..][Min(qsize - 1, |rest| - 1)..];
    assert ToCome(p, rest, qsize, cmp) == [rest[0]] + ToCome(p, rest[1..], qsize - 1, cmp);
  }

  lemma AtGoal(done: seq<Handle>, rest: seq<Handle>, qsize: nat, cmp: (Handle, Handle) -> int,
               goal: seq<Handle>, behind: seq<Handle>, nodes: set<Handle>)
    requires OnTrack(done, [], rest, qsize, cmp, goal, behind, nodes) && (qsize == 0 || rest == [])
    ensures done == goal && rest == behind
  {
    assert rest[..Min(qsize, |rest|)] == [] && rest[Min(qsize, |rest|)..] == rest;
  }

  /** The inner loop: merges the run of `psize` handles at `p` with up to `insize` at `q`. */
  method MergeRuns(list: Handle?, tail: Handle?, p: Handle?, psize: nat, q: Handle?, insize: nat,
      cmp: (Handle, Handle) -> int,
                   ghost done: seq<Handle>, ghost P: seq<Handle>, ghost rest: seq<Handle>, ghost nodes: set<Handle>)
    returns (list': Handle?, tail': Handle?, q': Handle?)
    requires Merging(done, P, rest, list, tail, p, q) && psize == |P|
    requires Within(done, nodes) && Within(P, nodes) && Within(rest, nodes)
    modifies nodes`prev, nodes`next
    ensures Merging(done + ToCome(P, rest, insize, cmp), [], rest[Min(insize, |rest|)..], list', tail', null, q')
  {
    hide OnTrack, Merging, Within, ToCome, Merge, Parts;
    list', tail', q' := list, tail, q;
    var p', psize', qsize := p, psize, insize;
    ghost var d, L, X := done, P, rest;
    ghost var goal, behind := done + ToCome(P, rest, insize, cmp), rest[Min(insize, |rest|)..];
    Started(done, P, rest, insize, cmp, nodes);
    while psize' != 0 || (qsize != 0 && q' != null)
      invariant Merging(d, L, X, list', tail', p', q') && psize' == |L|
      invariant OnTrack(d, L, X, qsize, cmp, goal, behind, nodes)
      invariant Within(d, nodes) && Within(L, nodes) && Within(X, nodes)
      decreases |L| + |X|
    {
      MergingHeads(d, L, X, list', tail', p', q');
      WithinTails(d, L, X, nodes);
      if psize' == 0 {
        StepRight(d, L, X, qsize, cmp, goal, behind, nodes);
        list', tail', q' := TakeRight(list', tail', p', q', d, L, X);
        qsize := qsize - 1;
        d, X := d + [X[0]], X[1..];
      } else if qsize == 0 || q' == null {
        StepLeft(d, L, X, qsize, cmp, goal, behind, nodes);
        list', tail', p' := TakeLeft(list', tail', p', q', d, L, X);
        psize' := psize' - 1;
        d, L := d + [L[0]], L[1..];
      } else if cmp(p', q') <= 0 {
        StepLeft(d, L, X, qsize, cmp, goal, behind, nodes);
        list', tail', p' := TakeLeft(list', tail', p', q', d, L, X);
        psize' := psize' - 1;
        d, L := d + [L[0]], L[1..];
      } else {
        StepRight(d, L, X, qsize, cmp, goal, behind, nodes);
        list', tail', q' := TakeRight(list', tail', p', q', d, L, X);
        qsize := qsize - 1;
        d, X := d + [X[0]], X[1..];
      }
    }
    MergingHeads(d, L, X, list', tail', p', q');
    AtGoal(d, X, qsize, cmp, goal, behind, nodes);
    MergingAnyLeft(d, X, list', tail', p', q');
  }

  lemma MergingHeads(done: seq<Handle>, p: seq<Handle>, rest: seq<Handle>, list: Handle?, tail: Handle?, ph: Handle?,
      q: Handle?)
    requires Merging(done, p, rest, list, tail, ph, q)
    ensures q == At(rest, 0) && (p != [] ==> ph == p[0])
  {
  }

  lemma MergingAnyLeft(done: seq<Handle>, rest: seq<Handle>, list: Handle?, tail: Handle?, ph: Handle?, q: Handle?)
    requires Merging(done, [], rest, list, tail, ph, q)
    ensures Merging(done, [], rest, list, tail, null, q)
  {
  }

  lemma WithinTails(done: seq<Handle>, p: seq<Handle>, rest: seq<Handle>, nodes: set<Handle>)
    requires Within(done, nodes) && Within(p, nodes) && Within(rest, nodes)
    ensures p != [] ==> Within(p[1..], nodes) && Within(done + [p[0]], nodes)
    ensures rest != [] ==> Within(rest[1..], nodes) && Within(done + [rest[0]], nodes)
    ensures forall x :: x in done || x in p || x in rest ==> x in nodes
  {
  }

  lemma Started(done: seq<Handle>, p: seq<Handle>, rest: seq<Handle>, qsize: nat, cmp: (Handle, Handle) -> int,
      nodes: set<Handle>)
    requires Within(done, nodes) && Within(p, nodes) && Within(rest, nodes)
    ensures OnTrack(done, p, rest, qsize, cmp, done + ToCome(p, rest, qsize, cmp), rest[Min(qsize, |rest|)..], nodes)
  {
  }

  lemma CutParts(done: seq<Handle>, rest: seq<Handle>, n: nat)
    requires Parts(done, [], rest) && n <= |rest|
    ensures Parts(done, rest[..n], rest[n..])
  {
    var a, b := rest[..n], rest[n..];
    assert rest == a + b;
    assert forall x :: x in a || x in b ==> x in rest;
    forall i, j | 0 <= i < |a| && 0 <= j < |b| ensures a[i] != b[j] {
      assert a[i] == rest[i] && b[j] == rest[n + j];
    }
  }

  lemma CutRun(done: seq<Handle>, rest: seq<Handle>, n: nat, list: Handle?, tail: Handle?, p: Handle?, ph: Handle?)
    requires Merging(done, [], rest, list, tail, ph, p) && 0 < n <= |rest|
    ensures Merging(done, rest[..n], rest[n..], list, tail, p, At(rest, n))
  {
    hide Parts;
    CutParts(done, rest, n);
    var a, b := rest[..n], rest[n..];
    forall i | 0 <= i < |b| ensures b[i].next == At(b, i + 1) {
      assert b[i] == rest[n + i] && rest[n + i].next == At(rest, n + i + 1);
    }
    forall i | 0 <= i < |a| - 1 ensures a[i].next == a[i + 1] {
      assert a[i] == rest[i] && rest[i].next == At(rest, i + 1);
    }
  }

  lemma PassUnfolds(rest: seq<Handle>, k: nat, cmp: (Handle, Handle) -> int)
    requires 0 < k && rest != []
    ensures var n := Min(k, |rest|);
            var b := rest[n..];
            Pass(rest, k, cmp) == ToCome(rest[..n], b, k, cmp) + Pass(b[Min(k, |b|)..], k, cmp)
  {
    var n, m := Min(k, |rest|), Min(2 * k, |rest|);
    var b := rest[n..];
    assert b[..Min(k, |b|)] == rest[n..m] && b[Min(k, |b|)..] == rest[m..];
  }

  /** A pass on its way: what is done, and what the rest will still become. */
  ghost predicate Passing(done: seq<Handle>, rest: seq<Handle>, k: nat, cmp: (Handle, Handle) -> int,
      goal: seq<Handle>, nodes: set<Handle>)
    requires 0 < k
  {
    done + Pass(rest, k, cmp) == goal && Within(done, nodes) && Within(rest, nodes)
  }

  lemma WithinParts(s: seq<Handle>, n: nat, nodes: set<Handle>)
    requires Within(s, nodes) && n <= |s|
    ensures Within(s[..n], nodes) && Within(s[n..], nodes)
  {
    forall x | x in s[..n] || x in s[n..] ensures x in s {
      assert s == s[..n] + s[n..];
    }
  }

  lemma WithinToCome(p: seq<Handle>, rest: seq<Handle>, k: nat, cmp: (Handle, Handle) -> int, nodes: set<Handle>)
    requires Within(p, nodes) && Within(rest, nodes)
    ensures Within(ToCome(p, rest, k, cmp), nodes) && |ToCome(p, rest, k, cmp)| == |p| + Min(k, |rest|)
  {
    var y := rest[..Min(k, |rest|)];
    WithinParts(rest, Min(k, |rest|), nodes);
    MergePermutes(p, y, cmp);
    var m := ToCome(p, rest, k, cmp);
    forall x | x in m ensures x in nodes {
      assert x in multiset(m) && multiset(m) == multiset(p) + multiset(y);
      assert x in p || x in y;
    }
  }

  lemma PassAdvances(done: seq<Handle>, rest: seq<Handle>, k: nat, cmp: (Handle, Handle) -> int, goal: seq<Handle>,
      nodes: set<Handle>)
    requires 0 < k && rest != [] && Passing(done, rest, k, cmp, goal, nodes)
    ensures var n := Min(k, |rest|);
            var b := rest[n..];
            var merged := ToCome(rest[..n], b, k, cmp);
            && Passing(done + merged, b[Min(k, |b|)..], k, cmp, goal, nodes)
            && |merged| == Min(2 * k, |rest|)
            && Within(rest[..n], nodes) && Within(b, nodes)
  {
    hide Pass, ToCome, Within;
    var n := Min(k, |rest|);
    var b := rest[n..];
    PassUnfolds(rest, k, cmp);
    WithinParts(rest, n, nodes);
    WithinParts(b, Min(k, |b|), nodes);
    WithinToCome(rest[..n], b, k, cmp, nodes);
    WithinConcat(done, ToCome(rest[..n], b, k, cmp), nodes);
  }

  lemma WithinConcat(a: seq<Handle>, b: seq<Handle>, nodes: set<Handle>)
    requires Within(a, nodes) && Within(b, nodes)
    ensures Within(a + b, nodes)
  {
    forall x | x in a + b ensures x in nodes {
      assert x in a || x in b;
    }
  }

  /** Ends the merged part with NULL. */
  method Close(list: Handle?, tail: Handle?, ghost done: seq<Handle>, ghost nodes: set<Handle>)
    requires Distinct(done) && Done(done, list, tail) && Within(done, nodes)
    modifies nodes`next
    ensures Linked(done)
  {
    if tail != null {
      tail.next := null;
    }
    forall i | 0 <= i < |done| ensures done[i].next == At(done, i + 1) && done[i].prev == At(done, i - 1) {
      assert i < |done| - 1 ==> done[i] != done[|done| - 1] && old(done[i].next) == done[i + 1];
    }
  }

  /** The number of merges tells apart none, one, and more. */
  predicate Counted(nmerges: nat, k: nat, n: nat, done: nat) {
    && (nmerges == 0 ==> done == 0) && (nmerges == 1 ==> done == Min(2 * k, n)) && (nmerges > 1 ==> done > 2 * k)
  }

  lemma MergingFacts(done: seq<Handle>, p: seq<Handle>, rest: seq<Handle>, list: Handle?, tail: Handle?, ph: Handle?,
      q: Handle?)
    requires Merging(done, p, rest, list, tail, ph, q)
    ensures Distinct(done) && Done(done, list, tail) && Rest(rest, q) && (q != null <==> rest != [])
    ensures list == At(done, 0) && tail == At(done, |done| - 1)
  {
  }

  lemma MergingBegins(s: seq<Handle>, head: Handle)
    requires Distinct(s) && Rest(s, head)
    ensures Merging([], [], s, null, null, null, head)
  {
  }

  /** One pass over the list; the number of merges tells whether it was the last one. */
  method OnePass(head: Handle, insize: nat, cmp: (Handle, Handle) -> int, ghost s: seq<Handle>,
      ghost nodes: set<Handle>)
    returns (list: Handle?, tail: Handle?, nmerges: nat)
    requires Distinct(s) && Rest(s, head) && 0 < insize && Within(s, nodes)
    modifies nodes`prev, nodes`next
    ensures var r := Pass(s, insize, cmp);
            Distinct(r) && Linked(r) && list == At(r, 0) && tail == At(r, |r| - 1)
    ensures nmerges <= 1 <==> |s| <= 2 * insize
  {
    hide Pass, Merge, Passing, ToCome, Merging, Parts, Done, Run, Rest, Distinct, Linked, Within;
    ghost var goal := Pass(s, insize, cmp);
    var p: Handle? := head;
    list, tail, nmerges := null, null, 0;
    ghost var d, X := [], s;
    PassBegins(s, insize, cmp, nodes);
    MergingBegins(s, head);
    while p != null
      invariant Merging(d, [], X, list, tail, null, p)
      invariant Passing(d, X, insize, cmp, goal, nodes) && Within(d, nodes)
      invariant |d| + |X| == |s| && Counted(nmerges, insize, |s|, |d|)
      decreases |X|
    {
      nmerges := nmerges + 1;
      MergingFacts(d, [], X, list, tail, null, p);
      var psize, q := TakeRun(p, insize, X);
      CutRun(d, X, psize, list, tail, p, null);
      PassAdvances(d, X, insize, cmp, goal, nodes);
      ghost var b, merged := X[psize..], ToCome(X[..psize], X[psize..], insize, cmp);
      WithinToCome(X[..psize], b, insize, cmp, nodes);
      list, tail, q := MergeRuns(list, tail, p, psize, q, insize, cmp, d, X[..psize], b, nodes);
      WithinConcat(d, merged, nodes);
      d, X := d + merged, b[Min(insize, |b|)..];
      p := q;
    }
    MergingFacts(d, [], X, list, tail, null, p);
    PassEnds(d, insize, cmp, goal, nodes);
    Close(list, tail, d, nodes);
  }

  lemma PassBegins(s: seq<Handle>, k: nat, cmp: (Handle, Handle) -> int, nodes: set<Handle>)
    requires 0 < k && Within(s, nodes)
    ensures Passing([], s, k, cmp, Pass(s, k, cmp), nodes)
  {
  }

  lemma PassEnds(done: seq<Handle>, k: nat, cmp: (Handle, Handle) -> int, goal: seq<Handle>, nodes: set<Handle>)
    requires 0 < k && Passing(done, [], k, cmp, goal, nodes)
    ensures done == goal
  {
  }

  const UINT_RANGE := 0x1_0000_0000

  lemma PassWithin(s: seq<Handle>, k: nat, cmp: (Handle, Handle) -> int, nodes: set<Handle>)
    requires 0 < k && Within(s, nodes)
    ensures Within(Pass(s, k, cmp), nodes) && |Pass(s, k, cmp)| == |s|
  {
    hide Pass;
    PassPermutes(s, k, cmp);
    forall h | h in Pass(s, k, cmp) ensures h in s {
      assert h in multiset(Pass(s, k, cmp)) && h in multiset(s);
    }
  }

  lemma WithinSelf(s: seq<Handle>)
    ensures Within(s, set h | h in s)
  {
  }

  lemma LinkedRest(s: seq<Handle>)
    requires Linked(s)
    ensures Rest(s, At(s, 0))
  {
  }

  lemma SortUnfolds(s: seq<Handle>, k: nat, cmp: (Handle, Handle) -> int)
    requires 0 < k
    ensures Sort(s, k, cmp) == if |s| <= 2 * k then Pass(s, k, cmp) else Sort(Pass(s, k, cmp), 2 * k, cmp)
  {
  }

  /** HASH_SRT on a list that is not empty; the item count fits the unsigned counters. */
  method SortList(head: Handle, cmp: (Handle, Handle) -> int, ghost s: seq<Handle>)
    returns (head': Handle?, tail: Handle?)
    requires s != [] && Distinct(s) && Linked(s) && head == s[0] && |s| < UINT_RANGE
    modifies s`prev, s`next
    ensures var r := Sort(s, 1, cmp);
            Distinct(r) && Linked(r) && head' == At(r, 0) && tail == At(r, |r| - 1)
  {
    hide Pass, Merge, Sort, Distinct, Linked, Rest, Within;
    var insize, looping := 1, true;
    var list: Handle? := head;
    head', tail := head, null;
    ghost var r, nodes := s, set h | h in s;
    ghost var goal := Sort(s, 1, cmp);
    WithinSelf(s);
    while looping
      invariant Distinct(r) && Linked(r) && list == At(r, 0) && |r| == |s| && Within(r, nodes)
      invariant looping ==> 0 < insize < UINT_RANGE && Sort(r, insize, cmp) == goal
      invariant !looping ==> r == goal && head' == At(r, 0) && tail == At(r, |r| - 1)
      decreases looping, |s| - insize
    {
      var last, nmerges;
      SortUnfolds(r, insize, cmp);
      LinkedRest(r);
      PassWithin(r, insize, cmp, nodes);
      ghost var before := r;
      r := Pass(r, insize, cmp);
      list, last, nmerges := OnePass(list, insize, cmp, before, nodes);
      if nmerges <= 1 {
        looping := false;
        tail := last;
        head' := list;
      }
      insize := insize * 2 % UINT_RANGE;
    }
  }
}
