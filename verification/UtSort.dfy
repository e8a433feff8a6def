/**
 The merge sort of other/lu_hash.h (HASH_SRT) on sequences: passes that merge neighbouring runs,
 with the run length doubling from pass to pass.
 */
module UtSort {

  function Min(a: nat, b: nat): nat {
    if a <= b then a else b
  }

  /** Ties go to the left run. */
  function Merge<T>(p: seq<T>, q: seq<T>, cmp: (T, T) -> int): seq<T>
    decreases |p| + |q|
  {
    if p == [] then q
    else if q == [] then p
    else if cmp(p[0], q[0]) <= 0 then [p[0]] + Merge(p[1..], q, cmp)
    else [q[0]] + Merge(p, q[1..], cmp)
  }

  function Pass<T>(s: seq<T>, k: nat, cmp: (T, T) -> int): seq<T>
    requires 0 < k
    decreases |s|
  {
    if s == [] then []
    else
      var p, q := Min(k, |s|), Min(2 * k, |s|);
      Merge(s[..p], s[p..q], cmp) + Pass(s[q..], k, cmp)
  }

  /** Passes with run lengths k, 2k, 4k, ... until one merge covers the whole list. */
  function Sort<T>(s: seq<T>, k: nat, cmp: (T, T) -> int): seq<T>
    requires 0 < k
    decreases |s| - k
  {
    PassPermutes(s, k, cmp);
    if |s| <= 2 * k then Pass(s, k, cmp) else Sort(Pass(s, k, cmp), 2 * k, cmp)
  }

  // ---------------------------------------------------------------------------------------
  // A permutation, whatever the comparison answers
  // ---------------------------------------------------------------------------------------

  lemma {:induction false} MergePermutes<T>(p: seq<T>, q: seq<T>, cmp: (T, T) -> int)
    ensures multiset(Merge(p, q, cmp)) == multiset(p) + multiset(q)
    ensures |Merge(p, q, cmp)| == |p| + |q|
    decreases |p| + |q|
  {
    if p != [] && q != [] {
      assert p == [p[0]] + p[1..] && q == [q[0]] + q[1..];
      if cmp(p[0], q[0]) <= 0 { MergePermutes(p[1..], q, cmp); } else { MergePermutes(p, q[1..], cmp); }
    }
  }

  lemma {:induction false} PassPermutes<T>(s: seq<T>, k: nat, cmp: (T, T) -> int)
    requires 0 < k
    ensures multiset(Pass(s, k, cmp)) == multiset(s)
    ensures |Pass(s, k, cmp)| == |s|
    decreases |s|
  {
    if s != [] {
      var p, q := Min(k, |s|), Min(2 * k, |s|);
      assert s == s[..p] + s[p..q] + s[q..];
      MergePermutes(s[..p], s[p..q], cmp);
      PassPermutes(s[q..], k, cmp);
    }
  }

  lemma {:induction false} SortPermutes<T>(s: seq<T>, k: nat, cmp: (T, T) -> int)
    requires 0 < k
    ensures multiset(Sort(s, k, cmp)) == multiset(s)
    ensures |Sort(s, k, cmp)| == |s|
    decreases |s| - k
  {
    PassPermutes(s, k, cmp);
    if |s| > 2 * k { SortPermutes(Pass(s, k, cmp), 2 * k, cmp); }
  }

  // ---------------------------------------------------------------------------------------
  // Sorted and stable, for a comparison that orders the items
  // ---------------------------------------------------------------------------------------

  ghost predicate Inside<T>(s: seq<T>, d: seq<T>) {
    forall x :: x in s ==> x in d
  }

  /** The comparison is total and transitive on the items of `d`. */
  ghost predicate Ordering<T>(cmp: (T, T) -> int, d: seq<T>) {
    && (forall x, y :: x in d && y in d ==> cmp(x, y) <= 0 || cmp(y, x) <= 0)
    && (forall x, y, z :: x in d && y in d && z in d && cmp(x, y) <= 0 && cmp(y, z) <= 0 ==> cmp(x, z) <= 0)
  }

  predicate Sorted<T>(s: seq<T>, cmp: (T, T) -> int) {
    forall i, j :: 0 <= i < j < |s| ==> cmp(s[i], s[j]) <= 0
  }

  predicate Same<T>(x: T, y: T, cmp: (T, T) -> int) {
    cmp(x, y) <= 0 && cmp(y, x) <= 0
  }

  /** The items that compare equal to `x`, in order. */
  function Class<T>(s: seq<T>, x: T, cmp: (T, T) -> int): seq<T> {
    if s == [] then []
    else (if Same(s[0], x, cmp) then [s[0]] else []) + Class(s[1..], x, cmp)
  }

  lemma {:induction false} ClassConcat<T>(a: seq<T>, b: seq<T>, x: T, cmp: (T, T) -> int)
    ensures Class(a + b, x, cmp) == Class(a, x, cmp) + Class(b, x, cmp)
  {
    if a == [] {
      assert a + b == b;
    } else {
      ClassConcat(a[1..], b, x, cmp);
      var h := if Same(a[0], x, cmp) then [a[0]] else [];
      assert (a + b)[1..] == a[1..] + b;
      Associates(h, Class(a[1..], x, cmp), Class(b, x, cmp));
    }
  }

  lemma Associates<T>(a: seq<T>, b: seq<T>, c: seq<T>)
    ensures a + (b + c) == (a + b) + c
  {
  }

  lemma {:induction false} ClassEmpty<T>(s: seq<T>, x: T, cmp: (T, T) -> int)
    requires forall i :: 0 <= i < |s| ==> !Same(s[i], x, cmp)
    ensures Class(s, x, cmp) == []
  {
    if s != [] { ClassEmpty(s[1..], x, cmp); }
  }

  lemma SortedCons<T>(x: T, s: seq<T>, cmp: (T, T) -> int)
    requires Sorted(s, cmp) && forall y :: y in s ==> cmp(x, y) <= 0
    ensures Sorted([x] + s, cmp)
  {
  }

  lemma LeastOf<T>(x: T, s: seq<T>, d: seq<T>, cmp: (T, T) -> int)
    requires Ordering(cmp, d) && x in d && Inside(s, d) && Sorted(s, cmp) && s != [] && cmp(x, s[0]) <= 0
    ensures forall y :: y in s ==> cmp(x, y) <= 0
  {
    forall y | y in s ensures cmp(x, y) <= 0 {
      assert s[0] in d && y in d && (y == s[0] || cmp(s[0], y) <= 0);
    }
  }

  lemma HeadLeast<T>(s: seq<T>, cmp: (T, T) -> int)
    requires Sorted(s, cmp) && s != []
    ensures forall y :: y in s[1..] ==> cmp(s[0], y) <= 0
  {
    forall y | y in s[1..] ensures cmp(s[0], y) <= 0 {
      var j :| 0 <= j < |s| - 1 && s[1..][j] == y;
      assert s[j + 1] == y;
    }
  }

  lemma ConsMerged<T>(x: T, p: seq<T>, q: seq<T>, cmp: (T, T) -> int)
    requires Sorted(Merge(p, q, cmp), cmp)
    requires (forall y :: y in p ==> cmp(x, y) <= 0) && (forall y :: y in q ==> cmp(x, y) <= 0)
    ensures Sorted([x] + Merge(p, q, cmp), cmp)
  {
    var m := Merge(p, q, cmp);
    MergePermutes(p, q, cmp);
    forall y | y in m ensures cmp(x, y) <= 0 {
      assert y in multiset(m) && multiset(m) == multiset(p) + multiset(q);
      assert y in p || y in q;
    }
    SortedCons(x, m, cmp);
  }

  lemma {:induction false} MergeSorted<T>(p: seq<T>, q: seq<T>, d: seq<T>, cmp: (T, T) -> int)
    requires Ordering(cmp, d) && Inside(p, d) && Inside(q, d) && Sorted(p, cmp) && Sorted(q, cmp)
    ensures Sorted(Merge(p, q, cmp), cmp)
    decreases |p| + |q|
  {
    if p != [] && q != [] {
      assert p[0] in p && q[0] in q;
      if cmp(p[0], q[0]) <= 0 {
        MergeSorted(p[1..], q, d, cmp);
        LeastOf(p[0], q, d, cmp);
        HeadLeast(p, cmp);
        ConsMerged(p[0], p[1..], q, cmp);
      } else {
        MergeSorted(p, q[1..], d, cmp);
        LeastOf(q[0], p, d, cmp);
        HeadLeast(q, cmp);
        ConsMerged(q[0], p, q[1..], cmp);
      }
    }
  }

  /** Merging keeps equal items in order, those of the left run first. */
  lemma {:induction false} MergeStable<T>(p: seq<T>, q: seq<T>, d: seq<T>, x: T, cmp: (T, T) -> int)
    requires Ordering(cmp, d) && Inside(p, d) && Inside(q, d) && x in d && Sorted(p, cmp)
    ensures Class(Merge(p, q, cmp), x, cmp) == Class(p, x, cmp) + Class(q, x, cmp)
    decreases |p| + |q|
  {
    if p != [] && q != [] {
      assert p[0] in p && q[0] in q;
      if cmp(p[0], q[0]) <= 0 {
        MergeStable(p[1..], q, d, x, cmp);
        assert Merge(p, q, cmp)[1..] == Merge(p[1..], q, cmp);
      } else {
        MergeStable(p, q[1..], d, x, cmp);
        assert Merge(p, q, cmp)[1..] == Merge(p, q[1..], cmp);
        if Same(q[0], x, cmp) { ClassEmpty(p, x, cmp); }
      }
    }
  }

  /** Every run of length k that starts at a multiple of k is sorted. */
  predicate Runs<T>(s: seq<T>, k: nat, cmp: (T, T) -> int)
    requires 0 < k
    decreases |s|
  {
    s == [] || (Sorted(s[..Min(k, |s|)], cmp) && Runs(s[Min(k, |s|)..], k, cmp))
  }

  lemma {:induction false} RunsOne<T>(s: seq<T>, cmp: (T, T) -> int)
    ensures Runs(s, 1, cmp)
    decreases |s|
  {
    if s != [] { RunsOne(s[1..], cmp); }
  }

  lemma RunsCons<T>(a: seq<T>, b: seq<T>, k: nat, cmp: (T, T) -> int)
    requires 0 < k && Sorted(a, cmp) && Runs(b, k, cmp) && (|a| == k || (|a| < k && b == []))
    ensures Runs(a + b, k, cmp)
  {
    assert (a + b)[..|a|] == a && (a + b)[|a|..] == b;
  }

  lemma RunsParts<T>(s: seq<T>, k: nat, cmp: (T, T) -> int)
    requires 0 < k && Runs(s, k, cmp) && s != []
    ensures var p, q := Min(k, |s|), Min(2 * k, |s|);
            Sorted(s[..p], cmp) && Sorted(s[p..q], cmp) && Runs(s[q..], k, cmp)
  {
    var p, q := Min(k, |s|), Min(2 * k, |s|);
    var t := s[p..];
    assert t[..Min(k, |t|)] == s[p..q] && t[Min(k, |t|)..] == s[q..];
  }

  lemma InsideParts<T>(s: seq<T>, p: nat, q: nat, d: seq<T>)
    requires p <= q <= |s| && Inside(s, d)
    ensures Inside(s[..p], d) && Inside(s[p..q], d) && Inside(s[q..], d)
  {
  }

  lemma {:induction false} PassRuns<T>(s: seq<T>, k: nat, d: seq<T>, cmp: (T, T) -> int)
    requires 0 < k && Ordering(cmp, d) && Inside(s, d) && Runs(s, k, cmp)
    ensures Runs(Pass(s, k, cmp), 2 * k, cmp)
    decreases |s|
  {
    if s != [] {
      var p, q := Min(k, |s|), Min(2 * k, |s|);
      RunsParts(s, k, cmp);
      InsideParts(s, p, q, d);
      MergeSorted(s[..p], s[p..q], d, cmp);
      MergePermutes(s[..p], s[p..q], cmp);
      PassRuns(s[q..], k, d, cmp);
      RunsCons(Merge(s[..p], s[p..q], cmp), Pass(s[q..], k, cmp), 2 * k, cmp);
    }
  }

  lemma ClassParts<T>(s: seq<T>, p: nat, q: nat, x: T, cmp: (T, T) -> int)
    requires p <= q <= |s|
    ensures Class(s, x, cmp) == Class(s[..p], x, cmp) + Class(s[p..q], x, cmp) + Class(s[q..], x, cmp)
  {
    hide Class;
    assert s[..q] == s[..p] + s[p..q];
    assert s == s[..q] + s[q..];
    ClassConcat(s[..q], s[q..], x, cmp);
    ClassConcat(s[..p], s[p..q], x, cmp);
  }

  lemma {:induction false} PassStable<T>(s: seq<T>, k: nat, d: seq<T>, x: T, cmp: (T, T) -> int)
    requires 0 < k && Ordering(cmp, d) && Inside(s, d) && x in d && Runs(s, k, cmp)
    ensures Class(Pass(s, k, cmp), x, cmp) == Class(s, x, cmp)
    decreases |s|
  {
    hide Class, Merge, Runs, Ordering, Sorted, Inside;
    if s != [] {
      var p, q := Min(k, |s|), Min(2 * k, |s|);
      RunsParts(s, k, cmp);
      InsideParts(s, p, q, d);
      ClassParts(s, p, q, x, cmp);
      MergeStable(s[..p], s[p..q], d, x, cmp);
      PassStable(s[q..], k, d, x, cmp);
      ClassConcat(Merge(s[..p], s[p..q], cmp), Pass(s[q..], k, cmp), x, cmp);
    }
  }

  /** `r` is a stable sorted arrangement of `s`. */
  ghost predicate StablySorted<T>(s: seq<T>, r: seq<T>, cmp: (T, T) -> int) {
    && multiset(r) == multiset(s) && Sorted(r, cmp)
    && forall x :: x in s ==> Class(r, x, cmp) == Class(s, x, cmp)
  }

  lemma PermutedInside<T>(s: seq<T>, r: seq<T>)
    requires multiset(s) == multiset(r)
    ensures forall x :: x in s <==> x in r
  {
    forall x ensures x in s <==> x in r {
      assert x in s <==> x in multiset(s);
      assert x in r <==> x in multiset(r);
    }
  }

  lemma SortUnfolds<T>(s: seq<T>, k: nat, cmp: (T, T) -> int)
    requires 0 < k
    ensures Sort(s, k, cmp) == if |s| <= 2 * k then Pass(s, k, cmp) else Sort(Pass(s, k, cmp), 2 * k, cmp)
  {
  }

  lemma StablySortedTrans<T>(s: seq<T>, m: seq<T>, r: seq<T>, cmp: (T, T) -> int)
    requires StablySorted(m, r, cmp) && multiset(m) == multiset(s)
    requires forall x :: x in s ==> Class(m, x, cmp) == Class(s, x, cmp)
    ensures StablySorted(s, r, cmp)
  {
    hide Class, Sorted;
    PermutedInside(s, m);
  }

  lemma OneRun<T>(s: seq<T>, k: nat, cmp: (T, T) -> int)
    requires 0 < k && |s| <= k && Runs(s, k, cmp)
    ensures Sorted(s, cmp)
  {
    assert s == [] || s[..Min(k, |s|)] == s;
  }

  lemma OrderingPermuted<T>(s: seq<T>, r: seq<T>, cmp: (T, T) -> int)
    requires Ordering(cmp, s) && multiset(r) == multiset(s)
    ensures Ordering(cmp, r)
  {
    PermutedInside(s, r);
  }

  lemma {:induction false} SortCorrect<T>(s: seq<T>, k: nat, cmp: (T, T) -> int)
    requires 0 < k && Ordering(cmp, s) && Runs(s, k, cmp)
    ensures StablySorted(s, Sort(s, k, cmp), cmp)
    decreases |s| - k
  {
    hide Class, Sorted, Sort, Pass, Runs, Ordering;
    SortUnfolds(s, k, cmp);
    PassPermutes(s, k, cmp);
    PassRuns(s, k, s, cmp);
    var r := Pass(s, k, cmp);
    forall x | x in s ensures Class(r, x, cmp) == Class(s, x, cmp) {
      PassStable(s, k, s, x, cmp);
    }
    if |s| > 2 * k {
      OrderingPermuted(s, r, cmp);
      SortCorrect(r, 2 * k, cmp);
      StablySortedTrans(s, r, Sort(s, k, cmp), cmp);
    } else {
      OneRun(r, 2 * k, cmp);
    }
  }

  /** Sorting from single items: the whole of HASH_SRT. */
  lemma SortWhole<T>(s: seq<T>, cmp: (T, T) -> int)
    requires Ordering(cmp, s)
    ensures StablySorted(s, Sort(s, 1, cmp), cmp)
  {
    RunsOne(s, cmp);
    SortCorrect(s, 1, cmp);
  }

  lemma {:induction false} ClassMember<T>(s: seq<T>, x: T, cmp: (T, T) -> int, y: T)
    ensures y in Class(s, x, cmp) <==> y in s && Same(y, x, cmp)
  {
    if s != [] { ClassMember(s[1..], x, cmp, y); }
  }

  lemma ClassTail<T>(s: seq<T>, x: T, cmp: (T, T) -> int)
    requires s != []
    ensures Class(s[1..], x, cmp) == if Same(s[0], x, cmp) then Class(s, x, cmp)[1..] else Class(s, x, cmp)
  {
  }

  lemma InsideEmpty<T>(t: seq<T>, r: seq<T>)
    requires Inside(t, r)
    ensures r == [] ==> t == []
  {
    assert t == [] || t[0] in t;
  }

  /** There is only one stable sorted arrangement. */
  lemma {:induction false} StablySortedUnique<T>(r: seq<T>, t: seq<T>, cmp: (T, T) -> int)
    requires Ordering(cmp, r) && Inside(t, r) && Sorted(r, cmp) && Sorted(t, cmp)
    requires forall x :: x in r ==> Class(r, x, cmp) == Class(t, x, cmp)
    ensures r == t
  {
    if r == [] || t == [] {
      if r != [] {
        assert r[0] in r;
        ClassMember(r, r[0], cmp, r[0]);
      }
      InsideEmpty(t, r);
    } else {
      HeadsAgree(r, t, cmp);
      forall x | x in r[1..] ensures Class(r[1..], x, cmp) == Class(t[1..], x, cmp) {
        assert Class(r, x, cmp) == Class(t, x, cmp);
        ClassTail(r, x, cmp);
        ClassTail(t, x, cmp);
      }
      TailsInside(r, t, cmp);
      StablySortedUnique(r[1..], t[1..], cmp);
    }
  }

  lemma TailsInside<T>(r: seq<T>, t: seq<T>, cmp: (T, T) -> int)
    requires r != [] && t != [] && r[0] == t[0] && Ordering(cmp, r) && Inside(t, r)
    requires forall x :: x in r ==> Class(r, x, cmp) == Class(t, x, cmp)
    ensures Inside(t[1..], r[1..])
  {
    forall x | x in t[1..] ensures x in r[1..] {
      assert x in t && x in r;
      ClassTail(r, x, cmp);
      ClassTail(t, x, cmp);
      ClassMember(t[1..], x, cmp, x);
      ClassMember(r[1..], x, cmp, x);
    }
  }

  lemma HeadsAgree<T>(r: seq<T>, t: seq<T>, cmp: (T, T) -> int)
    requires Ordering(cmp, r) && Inside(t, r) && Sorted(r, cmp) && Sorted(t, cmp) && r != [] && t != []
    requires forall x :: x in r ==> Class(r, x, cmp) == Class(t, x, cmp)
    ensures r[0] == t[0]
  {
    assert r[0] in r && t[0] in r;
    ClassMember(r, r[0], cmp, r[0]);
    ClassMember(t, r[0], cmp, r[0]);
    ClassMember(t, t[0], cmp, t[0]);
    ClassMember(r, t[0], cmp, t[0]);
    assert r[0] in t && t[0] in r;
    assert cmp(t[0], r[0]) <= 0 && cmp(r[0], t[0]) <= 0;
    assert Class(r, r[0], cmp)[0] == r[0] && Class(t, r[0], cmp)[0] == t[0];
  }
}
