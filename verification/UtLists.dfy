/**
 The pointer surgery of other/lu_hash.h: putting a handle into, and taking it out of, the list in
 insertion order and the list of one bucket.
 */
module UtLists {
  import opened UtHandles

  /** `s` threaded through the bucket links. */
  predicate Chained(s: seq<Handle>)
    reads s
  {
    && (forall i {:trigger s[i].hhNext} :: 0 <= i < |s| ==> s[i].hhNext == At(s, i + 1))
    && (forall i {:trigger s[i].hhPrev} :: 0 <= i < |s| ==> s[i].hhPrev == At(s, i - 1))
  }

  /** The insertion order does not depend on the bucket links. */
  twostate lemma LinkedFrame(new s: seq<Handle>)
    requires old(allocated(s)) && old(Linked(s))
    requires forall h :: h in s ==> h.next == old(h.next) && h.prev == old(h.prev)
    ensures Linked(s)
  {
    assert forall i :: 0 <= i < |s| ==> s[i] in s;
  }

  function Without(s: seq<Handle>, i: nat): seq<Handle>
    requires i < |s|
  {
    s[..i] + s[i + 1..]
  }

  lemma WithoutDistinct(s: seq<Handle>, i: nat)
    requires i < |s| && Distinct(s)
    ensures Distinct(Without(s, i)) && forall h :: h in Without(s, i) <==> h in s && h != s[i]
  {
    var r := Without(s, i);
    assert forall j :: 0 <= j < |r| ==> r[j] == if j < i then s[j] else s[j + 1];
    forall h | h in s && h != s[i] ensures h in r {
      var j :| 0 <= j < |s| && s[j] == h;
      assert r[if j < i then j else j - 1] == h;
    }
  }

  /** The head of HASH_ADD_TO_BKT. */
  method PushFront(head: Handle?, h: Handle, ghost s: seq<Handle>)
    requires Chained(s) && Distinct(s) && head == At(s, 0) && h !in s
    modifies s`hhPrev, h`hhPrev, h`hhNext
    ensures Chained([h] + s) && Distinct([h] + s)
  {
    h.hhNext := head;
    h.hhPrev := null;
    if head != null {
      head.hhPrev := h;
    }
    ghost var r := [h] + s;
    forall i | 0 <= i < |r| ensures r[i].hhNext == At(r, i + 1) && r[i].hhPrev == At(r, i - 1) {
      if 0 < i { assert r[i] == s[i - 1] && At(r, i + 1) == At(s, i); }
    }
  }

  /** The links of HASH_DEL_IN_BKT. */
  method Unchain(head: Handle?, h: Handle, ghost s: seq<Handle>, ghost i: nat) returns (head': Handle?)
    requires Chained(s) && Distinct(s) && head == At(s, 0) && i < |s| && s[i] == h
    modifies s`hhPrev, s`hhNext
    ensures Chained(Without(s, i)) && head' == At(Without(s, i), 0)
  {
    WithoutDistinct(s, i);
    assert h.hhPrev == At(s, i - 1) && h.hhNext == At(s, i + 1);
    head' := if head == h then h.hhNext else head;
    if h.hhPrev != null {
      h.hhPrev.hhNext := h.hhNext;
    }
    if h.hhNext != null {
      h.hhNext.hhPrev := h.hhPrev;
    }
    forall j {:trigger s[j].hhNext} | 0 <= j < |s| && j != i
      ensures s[j].hhNext == At(s, if j == i - 1 then i + 1 else j + 1)
    {
      assert old(s[j].hhNext) == At(s, j + 1);
    }
    forall j {:trigger s[j].hhPrev} | 0 <= j < |s| && j != i
      ensures s[j].hhPrev == At(s, if j == i + 1 then i - 1 else j - 1)
    {
      assert old(s[j].hhPrev) == At(s, j - 1);
    }
    Bridged(s, i);
  }

  /** Links that step over position `i` are those of the list without it. */
  lemma Bridged(s: seq<Handle>, i: nat)
    requires i < |s|
    requires forall j {:trigger s[j].hhNext} :: 0 <= j < |s| && j != i ==>
        s[j].hhNext == At(s, if j == i - 1 then i + 1 else j + 1)
    requires forall j {:trigger s[j].hhPrev} :: 0 <= j < |s| && j != i ==>
        s[j].hhPrev == At(s, if j == i + 1 then i - 1 else j - 1)
    ensures Chained(Without(s, i))
  {
    var r := Without(s, i);
    forall j | 0 <= j < |r| ensures r[j].hhNext == At(r, j + 1) && r[j].hhPrev == At(r, j - 1) {
      assert r[j] == s[if j < i then j else j + 1];
    }
  }

  /** HASH_APPEND_LIST. */
  method LinkLast(tail: Handle, h: Handle, ghost s: seq<Handle>)
    requires Linked(s) && Distinct(s) && s != [] && tail == s[|s| - 1] && h !in s
    modifies tail`next, h`next, h`prev
    ensures Linked(s + [h]) && Distinct(s + [h])
  {
    h.next := null;
    h.prev := tail;
    tail.next := h;
    ghost var r := s + [h];
    forall i | 0 <= i < |r| ensures r[i].next == At(r, i + 1) && r[i].prev == At(r, i - 1) {
      if i < |s| { assert r[i] == s[i] && old(s[i].next) == At(s, i + 1) && old(s[i].prev) == At(s, i - 1); }
    }
  }

  function Before(s: seq<Handle>, i: nat, h: Handle): seq<Handle>
    requires i <= |s|
  {
    s[..i] + [h] + s[i..]
  }

  lemma BeforeDistinct(s: seq<Handle>, i: nat, h: Handle)
    requires i <= |s| && Distinct(s) && h !in s
    ensures Distinct(Before(s, i, h)) && forall x :: x in Before(s, i, h) <==> x in s || x == h
  {
    var r := Before(s, i, h);
    assert forall j :: 0 <= j < |r| ==> r[j] == if j < i then s[j] else if j == i then h else s[j - 1];
    forall x | x in s ensures x in r {
      var j :| 0 <= j < |s| && s[j] == x;
      assert r[if j < i then j else j + 1] == x;
    }
    assert r[i] == h;
  }

  /** The links of an in-order addition in front of `iter`. */
  method LinkBefore(head: Handle, iter: Handle, h: Handle, ghost s: seq<Handle>, ghost i: nat) returns (head': Handle)
    requires Linked(s) && Distinct(s) && i < |s| && head == s[0] && iter == s[i] && h !in s
    modifies s`next, s`prev, h`next, h`prev
    ensures Linked(Before(s, i, h)) && head' == Before(s, i, h)[0]
  {
    BeforeDistinct(s, i, h);
    assert iter.prev == At(s, i - 1);
    h.next := iter;
    h.prev := iter.prev;
    if iter.prev != null {
      iter.prev.next := h;
      head' := head;
    } else {
      head' := h;
    }
    iter.prev := h;
    forall j {:trigger s[j].next} | 0 <= j < |s| ensures s[j].next == if j == i - 1 then h else At(s, j + 1) {
      assert old(s[j].next) == At(s, j + 1);
    }
    forall j {:trigger s[j].prev} | 0 <= j < |s| ensures s[j].prev == if j == i then h else At(s, j - 1) {
      assert old(s[j].prev) == At(s, j - 1);
    }
    Spliced(s, i, h);
  }

  lemma Spliced(s: seq<Handle>, i: nat, h: Handle)
    requires i < |s| && h !in s && h.next == s[i] && h.prev == At(s, i - 1)
    requires forall j {:trigger s[j].next} :: 0 <= j < |s| ==> s[j].next == if j == i - 1 then h else At(s, j + 1)
    requires forall j {:trigger s[j].prev} :: 0 <= j < |s| ==> s[j].prev == if j == i then h else At(s, j - 1)
    ensures Linked(Before(s, i, h))
  {
    var r := Before(s, i, h);
    forall j | 0 <= j < |r| ensures r[j].next == At(r, j + 1) && r[j].prev == At(r, j - 1) {
      if j != i { assert r[j] == s[if j < i then j else j - 1]; }
    }
  }

  /** The patching of the insertion order in HASH_DELETE_HH. */
  method Unlink(head: Handle, tail: Handle, h: Handle, ghost s: seq<Handle>, ghost i: nat) returns (head': Handle?,
      tail': Handle?)
    requires Linked(s) && Distinct(s) && i < |s| && s[i] == h && head == s[0] && tail == s[|s| - 1]
    modifies s`next, s`prev
    ensures var r := Without(s, i); Linked(r) && head' == At(r, 0) && tail' == At(r, |r| - 1)
  {
    WithoutDistinct(s, i);
    assert h.prev == At(s, i - 1) && h.next == At(s, i + 1);
    head' := head;
    tail' := if h == tail then h.prev else tail;
    if h.prev != null {
      h.prev.next := h.next;
    } else {
      head' := h.next;
    }
    if h.next != null {
      h.next.prev := h.prev;
    }
    forall j {:trigger s[j].next} | 0 <= j < |s| && j != i
      ensures s[j].next == At(s, if j == i - 1 then i + 1 else j + 1)
    {
      assert old(s[j].next) == At(s, j + 1);
    }
    forall j {:trigger s[j].prev} | 0 <= j < |s| && j != i
      ensures s[j].prev == At(s, if j == i + 1 then i - 1 else j - 1)
    {
      assert old(s[j].prev) == At(s, j - 1);
    }
    Spanned(s, i);
  }

  lemma Spanned(s: seq<Handle>, i: nat)
    requires i < |s|
    requires forall j {:trigger s[j].next} :: 0 <= j < |s| && j != i ==>
        s[j].next == At(s, if j == i - 1 then i + 1 else j + 1)
    requires forall j {:trigger s[j].prev} :: 0 <= j < |s| && j != i ==>
        s[j].prev == At(s, if j == i + 1 then i - 1 else j - 1)
    ensures Linked(Without(s, i))
  {
    var r := Without(s, i);
    forall j | 0 <= j < |r| ensures r[j].next == At(r, j + 1) && r[j].prev == At(r, j - 1) {
      assert r[j] == s[if j < i then j else j + 1];
    }
  }
}
