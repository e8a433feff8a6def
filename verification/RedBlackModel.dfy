/**
 The value-level model of the red-black tree behind a hash bucket.

 A tree is a datatype; the place of a node inside a tree is a `Path` (the frames from the
 node up to the root).  `Fixup` follows the loop of lu_rb_tree_insert_fixup arm by arm, so the
 heap version in RedBlackTree.dfy can be proved equal to it and every law of the algorithm can
 be proved here, by induction.
 */
module RedBlackModel {

  /** A `void *`; 0 is the null pointer. */
  type Ptr = nat

  const NULL: Ptr := 0

  datatype Entry = Entry(key: int, value: Ptr)

  datatype Color = Red | Black

  datatype Tree = Leaf | Branch(left: Tree, color: Color, entry: Entry, right: Tree)

  datatype Path =
    | Top
    | InLeft(up: Path, color: Color, entry: Entry, right: Tree)
    | InRight(left: Tree, color: Color, entry: Entry, up: Path)

  predicate IsRed(t: Tree) {
    t.Branch? && t.color == Red
  }

  function Blacken(t: Tree): Tree {
    if t.Branch? then t.(color := Black) else t
  }

  function Plug(p: Path, t: Tree): Tree {
    match p
    case Top => t
    case InLeft(up, c, e, r) => Plug(up, Branch(t, c, e, r))
    case InRight(l, c, e, up) => Plug(up, Branch(l, c, e, t))
  }

  /** The tree on the other side of the last turn. */
  function Sibling(p: Path): Tree
    requires !p.Top?
  {
    if p.InLeft? then p.right else p.left
  }

  function Depth(p: Path): nat {
    match p
    case Top => 0
    case InLeft(up, _, _, _) => 1 + Depth(up)
    case InRight(_, _, _, up) => 1 + Depth(up)
  }

  /** The loop of the insert fixup, started at the node that carries `t`. */
  function Fixup(p: Path, t: Tree): Tree
    requires t.Branch?
    decreases Depth(p), if p.InLeft? then 1 else 0
  {
    if p.Top? || p.color == Black then
      Blacken(Plug(p, t))
    else match p
      case InLeft(up, _, e, r) => (
        match up
        case Top =>
          // the grandparent is the sentinel: the "else" arm, inner case, rotates the red root
          Fixup(InRight(t.left, t.color, t.entry, Top), Branch(t.right, Black, e, r))
        case InLeft(gup, _, ge, u) =>
          assert Depth(p) == 2 + Depth(gup);
          if IsRed(u) then
            Fixup(gup, Branch(Branch(t, Black, e, r), Red, ge, Blacken(u)))
          else
            Fixup(InLeft(gup, Black, e, Branch(r, Red, ge, u)), t)
        case InRight(u, _, ge, gup) =>
          assert Depth(p) == 2 + Depth(gup);
          if IsRed(u) then
            Fixup(gup, Branch(Blacken(u), Red, ge, Branch(t, Black, e, r)))
          else
            Fixup(InRight(Branch(u, Red, ge, t.left), t.color, t.entry, gup), Branch(t.right, Black, e, r)))
      case InRight(l, _, e, up) => (
        match up
        case Top =>
          // the grandparent is the sentinel: the "else" arm, outer case, rotates nothing
          Blacken(Plug(InRight(l, Black, e, Top), t))
        case InRight(u, _, ge, gup) =>
          assert Depth(p) == 2 + Depth(gup);
          if IsRed(u) then
            Fixup(gup, Branch(Blacken(u), Red, ge, Branch(l, Black, e, t)))
          else
            Fixup(InRight(Branch(u, Red, ge, l), Black, e, gup), t)
        case InLeft(gup, _, ge, u) =>
          assert Depth(p) == 2 + Depth(gup);
          if IsRed(u) then
            Fixup(gup, Branch(Branch(l, Black, e, t), Red, ge, Blacken(u)))
          else
            Fixup(InLeft(gup, t.color, t.entry, Branch(t.right, Red, ge, u)), Branch(l, Black, e, t.left)))
  }

  /**
   Does the loop take the sentinel for a grandparent?  Then it paints the sentinel red.  It
   follows the arms of `Fixup`.
   */
  predicate TurnsNilRed(p: Path, t: Tree)
    requires t.Branch?
    decreases Depth(p)
  {
    if p.Top? || p.color == Black then false
    else if p.up.Top? then true
    else match p
      case InLeft(InLeft(gup, _, ge, u), _, e, r) =>
        assert Depth(p) == 2 + Depth(gup);
        if IsRed(u) then
          TurnsNilRed(gup, Branch(Branch(t, Black, e, r), Red, ge, Blacken(u)))
        else
          TurnsNilRed(InLeft(gup, Black, e, Branch(r, Red, ge, u)), t)
      case InLeft(InRight(u, _, ge, gup), _, e, r) =>
        assert Depth(p) == 2 + Depth(gup);
        if IsRed(u) then
          TurnsNilRed(gup, Branch(Blacken(u), Red, ge, Branch(t, Black, e, r)))
        else
          TurnsNilRed(InRight(Branch(u, Red, ge, t.left), t.color, t.entry, gup), Branch(t.right, Black, e, r))
      case InRight(l, _, e, InRight(u, _, ge, gup)) =>
        assert Depth(p) == 2 + Depth(gup);
        if IsRed(u) then
          TurnsNilRed(gup, Branch(Blacken(u), Red, ge, Branch(l, Black, e, t)))
        else
          TurnsNilRed(InRight(Branch(u, Red, ge, l), Black, e, gup), t)
      case InRight(l, _, e, InLeft(gup, _, ge, u)) =>
        assert Depth(p) == 2 + Depth(gup);
        if IsRed(u) then
          TurnsNilRed(gup, Branch(Branch(l, Black, e, t), Red, ge, Blacken(u)))
        else
          TurnsNilRed(InLeft(gup, t.color, t.entry, Branch(t.right, Red, ge, u)), Branch(l, Black, e, t.left))
  }

  /** The search for the insertion point: right on equal keys. */
  function Descend(p: Path, t: Tree, key: int): Path
    decreases t
  {
    match t
    case Leaf => p
    case Branch(l, c, e, r) =>
      if key < e.key then Descend(InLeft(p, c, e, r), l, key)
      else Descend(InRight(l, c, e, p), r, key)
  }

  function Insert(t: Tree, e: Entry): Tree {
    if t.Leaf? then Branch(Leaf, Black, e, Leaf)
    else Fixup(Descend(Top, t, e.key), Branch(Leaf, Red, e, Leaf))
  }

  /** The colour of the sentinel after the insertion. */
  function InsertNil(t: Tree, e: Entry, sentinel: Color): Color {
    if t.Branch? && TurnsNilRed(Descend(Top, t, e.key), Branch(Leaf, Red, e, Leaf)) then Red else sentinel
  }

  function Find(t: Tree, key: int): Ptr {
    match t
    case Leaf => NULL
    case Branch(l, _, e, r) =>
      if key == e.key then e.value
      else if key < e.key then Find(l, key)
      else Find(r, key)
  }

  // ---------------------------------------------------------------------------------------
  // What the tree stores
  // ---------------------------------------------------------------------------------------

  function InOrder(t: Tree): seq<Entry> {
    match t
    case Leaf => []
    case Branch(l, _, e, r) => InOrder(l) + [e] + InOrder(r)
  }

  /** Everything a path puts to the left, and to the right, of its hole. */
  function Before(p: Path): seq<Entry> {
    match p
    case Top => []
    case InLeft(up, _, _, _) => Before(up)
    case InRight(l, _, e, up) => Before(up) + InOrder(l) + [e]
  }

  function After(p: Path): seq<Entry> {
    match p
    case Top => []
    case InLeft(up, _, e, r) => [e] + InOrder(r) + After(up)
    case InRight(_, _, _, up) => After(up)
  }

  ghost predicate SortedKeys(s: seq<Entry>) {
    forall i, j :: 0 <= i < j < |s| ==> s[i].key <= s[j].key
  }

  /** `e` put after every entry whose key is at most its own. */
  function InsertAfter(s: seq<Entry>, e: Entry): seq<Entry> {
    if s == [] || e.key < s[0].key then [e] + s
    else [s[0]] + InsertAfter(s[1..], e)
  }

  /** The in-order sequence of `t` in its place. */
  function Whole(p: Path, t: Tree): seq<Entry> {
    Before(p) + InOrder(t) + After(p)
  }

  lemma Regroup<T>(b: seq<T>, x: seq<T>, e: seq<T>, y: seq<T>, a: seq<T>)
    ensures b + (x + e + y) + a == b + x + (e + y + a) == (b + x + e) + y + a
  {
  }

  /** A node is seen from itself as it is from its parent. */
  lemma Lift(p: Path, t: Tree, c: Color)
    ensures p.InLeft? ==> Whole(p, t) == Whole(p.up, Branch(t, c, p.entry, p.right))
    ensures p.InRight? ==> Whole(p, t) == Whole(p.up, Branch(p.left, c, p.entry, t))
  {
    match p
    case Top =>
    case InLeft(up, _, e, r) => Regroup(Before(up), InOrder(t), [e], InOrder(r), After(up));
    case InRight(l, _, e, up) => Regroup(Before(up), InOrder(l), [e], InOrder(t), After(up));
  }

  /** A rotation moves no entry. */
  lemma Rotation(a: Tree, x: Entry, b: Tree, y: Entry, c: Tree, c1: Color, c2: Color, c3: Color, c4: Color)
    ensures InOrder(Branch(Branch(a, c1, x, b), c2, y, c)) == InOrder(Branch(a, c3, x, Branch(b, c4, y, c)))
  {
    assert InOrder(a) + [x] + InOrder(b) + [y] + InOrder(c) == InOrder(a) + [x] + (InOrder(b) + [y] + InOrder(c));
  }

  lemma {:induction false} PlugInOrder(p: Path, t: Tree)
    ensures InOrder(Plug(p, t)) == Whole(p, t)
  {
    match p
    case Top =>
    case InLeft(up, c, e, r) =>
      PlugInOrder(up, Branch(t, c, e, r));
      Lift(p, t, c);
    case InRight(l, c, e, up) =>
      PlugInOrder(up, Branch(l, c, e, t));
      Lift(p, t, c);
  }

  /** Whatever the colours, the fixup moves no entry. */
  lemma {:induction false} FixupInOrder(p: Path, t: Tree)
    requires t.Branch?
    ensures InOrder(Fixup(p, t)) == Whole(p, t)
    decreases Depth(p), if p.InLeft? then 1 else 0, 1
  {
    if p.Top? || p.color == Black {
      PlugInOrder(p, t);
    } else {
      Lift(p, t, Black);
      match p
      case InLeft(Top, _, e, r) =>
        var p', t' := InRight(t.left, t.color, t.entry, Top), Branch(t.right, Black, e, r);
        Rotation(t.left, t.entry, t.right, e, r, t.color, Black, t.color, Black);
        Lift(p', t', t.color);
        FixupInOrder(p', t');
      case InLeft(up, _, e, r) => FixupInOrderLeft(up, e, r, t);
      case InRight(l, _, e, Top) =>
        PlugInOrder(InRight(l, Black, e, Top), t);
      case InRight(l, _, e, up) => FixupInOrderRight(l, e, up, t);
    }
  }

  lemma {:induction false} FixupInOrderLeft(up: Path, e: Entry, r: Tree, t: Tree)
    requires t.Branch? && !up.Top?
    ensures InOrder(Fixup(InLeft(up, Red, e, r), t)) == Whole(InLeft(up, Red, e, r), t)
    decreases 1 + Depth(up), 0, 0
  {
    var parent := Branch(t, Black, e, r);
    Lift(InLeft(up, Red, e, r), t, Black);
    Lift(up, parent, Red);
    match up
    case InLeft(gup, _, ge, u) =>
      if IsRed(u) {
        assert InOrder(Branch(parent, Red, ge, Blacken(u))) == InOrder(Branch(parent, Red, ge, u));
        FixupInOrder(gup, Branch(parent, Red, ge, Blacken(u)));
      } else {
        var p' := InLeft(gup, Black, e, Branch(r, Red, ge, u));
        Rotation(t, e, r, ge, u, Black, Red, Black, Red);
        Lift(p', t, Black);
        FixupInOrder(p', t);
      }
    case InRight(u, _, ge, gup) =>
      if IsRed(u) {
        assert InOrder(Branch(Blacken(u), Red, ge, parent)) == InOrder(Branch(u, Red, ge, parent));
        FixupInOrder(gup, Branch(Blacken(u), Red, ge, parent));
      } else {
        var p', t' := InRight(Branch(u, Red, ge, t.left), t.color, t.entry, gup), Branch(t.right, Black, e, r);
        Rotation(t.left, t.entry, t.right, e, r, t.color, Black, t.color, Black);
        Rotation(u, ge, t.left, t.entry, t', Red, t.color, Red, t.color);
        assert InOrder(Branch(u, Red, ge, parent)) ==
            InOrder(Branch(u, Red, ge, Branch(t.left, t.color, t.entry, t')));
        Lift(p', t', t.color);
        FixupInOrder(p', t');
      }
  }

  lemma {:induction false} FixupInOrderRight(l: Tree, e: Entry, up: Path, t: Tree)
    requires t.Branch? && !up.Top?
    ensures InOrder(Fixup(InRight(l, Red, e, up), t)) == Whole(InRight(l, Red, e, up), t)
    decreases 1 + Depth(up), 0, 0
  {
    var parent := Branch(l, Black, e, t);
    Lift(InRight(l, Red, e, up), t, Black);
    Lift(up, parent, Red);
    match up
    case InRight(u, _, ge, gup) =>
      if IsRed(u) {
        assert InOrder(Branch(Blacken(u), Red, ge, parent)) == InOrder(Branch(u, Red, ge, parent));
        FixupInOrder(gup, Branch(Blacken(u), Red, ge, parent));
      } else {
        var p' := InRight(Branch(u, Red, ge, l), Black, e, gup);
        Rotation(u, ge, l, e, t, Red, Black, Red, Black);
        Lift(p', t, Black);
        FixupInOrder(p', t);
      }
    case InLeft(gup, _, ge, u) =>
      if IsRed(u) {
        assert InOrder(Branch(parent, Red, ge, Blacken(u))) == InOrder(Branch(parent, Red, ge, u));
        FixupInOrder(gup, Branch(parent, Red, ge, Blacken(u)));
      } else {
        var p', t' := InLeft(gup, t.color, t.entry, Branch(t.right, Red, ge, u)), Branch(l, Black, e, t.left);
        Rotation(l, e, t.left, t.entry, t.right, Black, t.color, Black, t.color);
        Rotation(t', t.entry, t.right, ge, u, t.color, Red, t.color, Red);
        assert InOrder(Branch(parent, Red, ge, u)) ==
            InOrder(Branch(Branch(t', t.color, t.entry, t.right), Red, ge, u));
        Lift(p', t', t.color);
        FixupInOrder(p', t');
      }
  }

  // ---------------------------------------------------------------------------------------
  // Insertion is a sorted, stable insertion, for every tree in search order
  // ---------------------------------------------------------------------------------------

  /** Every key on the left is at most, every key on the right above, `key`. */
  ghost predicate Splits(before: seq<Entry>, after: seq<Entry>, key: int) {
    && (forall i :: 0 <= i < |before| ==> before[i].key <= key)
    && (forall i :: 0 <= i < |after| ==> key < after[i].key)
  }

  /** An entry splits a sorted sequence. */
  lemma SplitAt(a: seq<Entry>, e: Entry, b: seq<Entry>, key: int)
    requires SortedKeys(a + [e] + b)
    ensures key < e.key ==> forall i :: 0 <= i < |[e] + b| ==> key < ([e] + b)[i].key
    ensures e.key <= key ==> forall i :: 0 <= i < |a + [e]| ==> (a + [e])[i].key <= key
  {
    var s, m := a + [e] + b, |a|;
    assert s[m] == e;
    forall i | 0 <= i < |[e] + b| ensures key < e.key ==> key < ([e] + b)[i].key {
      assert ([e] + b)[i] == s[m + i];
    }
    forall i | 0 <= i < |a + [e]| ensures e.key <= key ==> (a + [e])[i].key <= key {
      assert (a + [e])[i] == s[i];
    }
  }

  lemma {:induction false} DescendSplits(p: Path, t: Tree, key: int)
    requires SortedKeys(Whole(p, t))
    requires Splits(Before(p), After(p), key)
    ensures var q := Descend(p, t, key);
            && Before(q) + After(q) == Whole(p, t)
            && Splits(Before(q), After(q), key)
    decreases t
  {
    match t
    case Leaf =>
      assert Before(p) + [] + After(p) == Before(p) + After(p);
    case Branch(l, c, e, r) =>
      Lift(InLeft(p, c, e, r), l, c);
      Lift(InRight(l, c, e, p), r, c);
      Around(p, l, c, e, r);
      SplitAt(Before(p) + InOrder(l), e, InOrder(r) + After(p), key);
      hide SortedKeys, InOrder, Whole;
      if key < e.key {
        DescendSplits(InLeft(p, c, e, r), l, key);
      } else {
        DescendSplits(InRight(l, c, e, p), r, key);
      }
  }

  /** The entries around one node. */
  lemma Around(p: Path, l: Tree, c: Color, e: Entry, r: Tree)
    ensures Whole(p, Branch(l, c, e, r)) == (Before(p) + InOrder(l)) + [e] + (InOrder(r) + After(p))
    ensures After(InLeft(p, c, e, r)) == [e] + (InOrder(r) + After(p))
    ensures Before(InRight(l, c, e, p)) == (Before(p) + InOrder(l)) + [e]
  {
    assert InOrder(Branch(l, c, e, r)) == InOrder(l) + [e] + InOrder(r);
    assert After(InLeft(p, c, e, r)) == [e] + InOrder(r) + After(p);
    hide InOrder, Before, After;
    Together(Before(p), InOrder(l), [e], InOrder(r), After(p));
  }

  lemma Together<T>(b: seq<T>, x: seq<T>, e: seq<T>, y: seq<T>, a: seq<T>)
    ensures b + (x + e + y) + a == (b + x) + e + (y + a)
    ensures e + y + a == e + (y + a)
  {
  }

  lemma {:induction false} InsertAfterSplit(before: seq<Entry>, after: seq<Entry>, e: Entry)
    requires Splits(before, after, e.key)
    ensures InsertAfter(before + after, e) == before + [e] + after
  {
    if before == [] {
      assert before + after == after;
    } else {
      var first, rest := before[0], before[1..];
      assert before == [first] + rest;
      InsertAfterSplit(rest, after, e);
      ConsConcat(first, rest, after);
      assert [first] + (rest + [e] + after) == before + [e] + after;
    }
  }

  lemma ConsConcat<T>(x: T, xs: seq<T>, ys: seq<T>)
    ensures ([x] + xs + ys)[0] == x && ([x] + xs + ys)[1..] == xs + ys
  {
  }

  /** The place of the new entry: after all keys at most its own, before all others. */
  lemma {:induction false} InsertAfterSorted(s: seq<Entry>, e: Entry) returns (k: nat)
    requires SortedKeys(s)
    ensures k <= |s| && InsertAfter(s, e) == s[..k] + [e] + s[k..]
    ensures Splits(s[..k], s[k..], e.key)
    ensures SortedKeys(InsertAfter(s, e))
    ensures multiset(InsertAfter(s, e)) == multiset(s) + multiset{e}
  {
    k := SplitPoint(s, e.key);
    var before, after := s[..k], s[k..];
    assert s == before + after;
    InsertAfterSplit(before, after, e);
    SplitSorted(before, after, e);
    assert multiset(before + [e] + after) == multiset(before) + multiset{e} + multiset(after);
  }

  lemma SplitPoint(s: seq<Entry>, key: int) returns (k: nat)
    requires SortedKeys(s)
    ensures k <= |s| && Splits(s[..k], s[k..], key)
  {
    k := 0;
    while k < |s| && s[k].key <= key
      invariant k <= |s|
      invariant forall i :: 0 <= i < k ==> s[i].key <= key
    {
      k := k + 1;
    }
  }

  lemma SplitSorted(before: seq<Entry>, after: seq<Entry>, e: Entry)
    requires SortedKeys(before + after) && Splits(before, after, e.key)
    ensures SortedKeys(before + [e] + after)
  {
    var s := before + [e] + after;
    forall i, j | 0 <= i < j < |s| ensures s[i].key <= s[j].key {
      if i > |before| {
        assert s[i] == (before + after)[i - 1] && s[j] == (before + after)[j - 1];
      } else if j < |before| {
        assert s[i] == (before + after)[i] && s[j] == (before + after)[j];
      }
    }
  }

  /** The in-order sequence of the new tree, whatever the colours of the old one. */
  lemma InsertInOrder(t: Tree, e: Entry)
    requires SortedKeys(InOrder(t))
    ensures InOrder(Insert(t, e)) == InsertAfter(InOrder(t), e)
  {
    if t.Branch? {
      var q, leaf := Descend(Top, t, e.key), Branch(Leaf, Red, e, Leaf);
      assert Whole(Top, t) == InOrder(t);
      DescendSplits(Top, t, e.key);
      InsertAfterSplit(Before(q), After(q), e);
      FixupInOrder(q, leaf);
      assert InOrder(leaf) == [e];
    }
  }

  /** Search succeeds exactly on the stored keys and returns the value of a stored entry. */
  lemma {:induction false} FindCorrect(t: Tree, key: int)
    requires SortedKeys(InOrder(t))
    ensures (exists e :: e in InOrder(t) && e.key == key) ==> Entry(key, Find(t, key)) in InOrder(t)
    ensures !(exists e :: e in InOrder(t) && e.key == key) ==> Find(t, key) == NULL
  {
    match t
    case Leaf =>
    case Branch(l, _, e, r) =>
      var s := InOrder(t);
      var m := |InOrder(l)|;
      assert s[..m] == InOrder(l) && s[m] == e && s[m + 1..] == InOrder(r);
      if key < e.key {
        SearchLeft(s, m, key);
        FindCorrect(l, key);
      } else if e.key < key {
        SearchRight(s, m, key);
        FindCorrect(r, key);
      }
  }

  /** No node on the way from the root has the key. */
  predicate KeyFree(p: Path, key: int) {
    p.Top? || (p.entry.key != key && KeyFree(p.up, key))
  }

  /**
   Which entry is found when several have the key: the first one on the way from the root, wherever
   it is in the tree.
   */
  lemma {:induction false} FindFirst(p: Path, t: Tree, key: int)
    requires SortedKeys(InOrder(Plug(p, t))) && t.Branch? && t.entry.key == key && KeyFree(p, key)
    ensures Find(Plug(p, t), key) == t.entry.value
  {
    PlugInOrder(p, t);
    assert t.entry in InOrder(t);
    FindThrough(p, t, t.entry);
  }

  lemma {:induction false} FindThrough(p: Path, t: Tree, e: Entry)
    requires SortedKeys(Whole(p, t)) && KeyFree(p, e.key) && e in InOrder(t)
    ensures Find(Plug(p, t), e.key) == Find(t, e.key)
  {
    if !p.Top? {
      Lift(p, t, p.color);
      var s, k := Whole(p, t), |Before(p)|;
      var i :| 0 <= i < |InOrder(t)| && InOrder(t)[i] == e;
      assert s[k + i] == e;
      if p.InLeft? {
        assert s[k + |InOrder(t)|] == After(p)[0] == p.entry;
        FindThrough(p.up, Branch(t, p.color, p.entry, p.right), e);
      } else {
        assert s[k - 1] == Before(p)[k - 1] == p.entry;
        FindThrough(p.up, Branch(p.left, p.color, p.entry, t), e);
      }
    }
  }

  lemma SearchLeft(s: seq<Entry>, m: nat, key: int)
    requires SortedKeys(s) && m < |s| && key < s[m].key
    ensures SortedKeys(s[..m])
    ensures forall e :: e in s && e.key == key ==> e in s[..m]
  {
    forall e | e in s && e.key == key ensures e in s[..m] {
      var i :| 0 <= i < |s| && s[i] == e;
      assert s[..m][i] == e;
    }
  }

  lemma SearchRight(s: seq<Entry>, m: nat, key: int)
    requires SortedKeys(s) && m < |s| && s[m].key < key
    ensures SortedKeys(s[m + 1..])
    ensures forall e :: e in s && e.key == key ==> e in s[m + 1..]
  {
    forall e | e in s && e.key == key ensures e in s[m + 1..] {
      var i :| 0 <= i < |s| && s[i] == e;
      assert s[m + 1..][i - m - 1] == e;
    }
  }

  // ---------------------------------------------------------------------------------------
  // Balance
  // ---------------------------------------------------------------------------------------

  function BlackHeight(t: Tree): nat {
    match t
    case Leaf => 0
    case Branch(l, c, _, _) => BlackHeight(l) + if c == Black then 1 else 0
  }

  /** Every two paths from one node down to the sentinel meet as many black nodes. */
  predicate Balanced(t: Tree) {
    t.Branch? ==> Balanced(t.left) && Balanced(t.right) && BlackHeight(t.left) == BlackHeight(t.right)
  }

  predicate NoRedRed(t: Tree) {
    t.Branch? ==>
      && NoRedRed(t.left) && NoRedRed(t.right)
      && (t.color == Red ==> !IsRed(t.left) && !IsRed(t.right))
  }

  predicate IsRedBlack(t: Tree) {
    !IsRed(t) && NoRedRed(t) && Balanced(t)
  }

  /**
   Does the fixup, started with a red node under this path, reach one of its two inner
   (zig-zag) arms?  It climbs past red uncles; the first uncle that is not red decides.
   */
  predicate ZigZag(p: Path) {
    match p
    case InLeft(InRight(u, _, _, gup), Red, _, _) => if IsRed(u) then ZigZag(gup) else true
    case InRight(_, Red, _, InLeft(gup, _, _, u)) => if IsRed(u) then ZigZag(gup) else true
    case InLeft(InLeft(gup, _, _, u), Red, _, _) => IsRed(u) && ZigZag(gup)
    case InRight(_, Red, _, InRight(u, _, _, gup)) => IsRed(u) && ZigZag(gup)
    case _ => false
  }

  /** A red-black tree with a hole for a subtree of black height `h`. */
  predicate Sound(p: Path, h: nat) {
    match p
    case Top => true
    case InLeft(up, c, _, r) =>
      && Balanced(r) && NoRedRed(r) && BlackHeight(r) == h
      && (c == Red ==> !IsRed(r) && !up.Top? && up.color == Black)
      && Sound(up, if c == Black then h + 1 else h)
    case InRight(l, c, _, up) =>
      && Balanced(l) && NoRedRed(l) && BlackHeight(l) == h
      && (c == Red ==> !IsRed(l) && !up.Top? && up.color == Black)
      && Sound(up, if c == Black then h + 1 else h)
  }

  /** May a red node stand in the hole? */
  predicate RedFits(p: Path) {
    !p.Top? && p.color == Black
  }

  lemma {:induction false} PlugSound(p: Path, t: Tree)
    requires Balanced(t) && NoRedRed(t) && Sound(p, BlackHeight(t))
    requires IsRed(t) ==> RedFits(p)
    ensures IsRedBlack(Plug(p, t))
  {
    match p
    case Top =>
    case InLeft(up, c, e, r) => PlugSound(up, Branch(t, c, e, r));
    case InRight(l, c, e, up) => PlugSound(up, Branch(l, c, e, t));
  }

  lemma {:induction false} DescendSound(p: Path, t: Tree, key: int)
    requires Balanced(t) && NoRedRed(t) && Sound(p, BlackHeight(t))
    requires IsRed(t) ==> RedFits(p)
    ensures Sound(Descend(p, t, key), 0)
    decreases t
  {
    match t
    case Leaf =>
    case Branch(l, c, e, r) =>
      if key < e.key {
        DescendSound(InLeft(p, c, e, r), l, key);
      } else {
        DescendSound(InRight(l, c, e, p), r, key);
      }
  }

  /** A subtree hanging off the path, or strictly below the node, is out of balance. */
  predicate Broken(p: Path, t: Tree)
    requires t.Branch?
  {
    !Balanced(t.left) || !Balanced(t.right) || BrokenPath(p)
  }

  predicate BrokenPath(p: Path) {
    match p
    case Top => false
    case InLeft(up, _, _, r) => !Balanced(r) || BrokenPath(up)
    case InRight(l, _, _, up) => !Balanced(l) || BrokenPath(up)
  }

  lemma {:induction false} PlugBroken(p: Path, t: Tree)
    requires !Balanced(t) || BrokenPath(p)
    ensures !Balanced(Plug(p, t))
  {
    match p
    case Top =>
    case InLeft(up, c, e, r) => PlugBroken(up, Branch(t, c, e, r));
    case InRight(l, c, e, up) => PlugBroken(up, Branch(l, c, e, t));
  }

  lemma {:induction false} PlugBranch(p: Path, t: Tree)
    requires t.Branch?
    ensures Plug(p, t).Branch?
  {
    match p
    case Top =>
    case InLeft(up, c, e, r) => PlugBranch(up, Branch(t, c, e, r));
    case InRight(l, c, e, up) => PlugBranch(up, Branch(l, c, e, t));
  }

  /** An imbalance off the path or strictly below the node is never repaired. */
  lemma {:induction false} FixupBroken(p: Path, t: Tree)
    requires t.Branch? && Broken(p, t)
    ensures !Balanced(Fixup(p, t))
    decreases Depth(p), if p.InLeft? then 1 else 0
  {
    PlugBroken(p, t);
    PlugBranch(p, t);
    if p.Top? || p.color == Black {
    } else {
      match p
      case InLeft(Top, _, e, r) =>
        FixupBroken(InRight(t.left, t.color, t.entry, Top), Branch(t.right, Black, e, r));
      case InLeft(InLeft(gup, _, ge, u), _, e, r) =>
        assert Depth(p) == 2 + Depth(gup) && BrokenPath(p) == (!Balanced(r) || !Balanced(u) || BrokenPath(gup));
        if IsRed(u) {
          FixupBroken(gup, Branch(Branch(t, Black, e, r), Red, ge, Blacken(u)));
        } else {
          FixupBroken(InLeft(gup, Black, e, Branch(r, Red, ge, u)), t);
        }
      case InLeft(InRight(u, _, ge, gup), _, e, r) =>
        assert Depth(p) == 2 + Depth(gup) && BrokenPath(p) == (!Balanced(r) || !Balanced(u) || BrokenPath(gup));
        if IsRed(u) {
          FixupBroken(gup, Branch(Blacken(u), Red, ge, Branch(t, Black, e, r)));
        } else {
          FixupBroken(InRight(Branch(u, Red, ge, t.left), t.color, t.entry, gup), Branch(t.right, Black, e, r));
        }
      case InRight(l, _, e, Top) =>
        PlugBroken(InRight(l, Black, e, Top), t);
      case InRight(l, _, e, InRight(u, _, ge, gup)) =>
        assert Depth(p) == 2 + Depth(gup) && BrokenPath(p) == (!Balanced(l) || !Balanced(u) || BrokenPath(gup));
        if IsRed(u) {
          FixupBroken(gup, Branch(Blacken(u), Red, ge, Branch(l, Black, e, t)));
        } else {
          FixupBroken(InRight(Branch(u, Red, ge, l), Black, e, gup), t);
        }
      case InRight(l, _, e, InLeft(gup, _, ge, u)) =>
        assert Depth(p) == 2 + Depth(gup) && BrokenPath(p) == (!Balanced(l) || !Balanced(u) || BrokenPath(gup));
        if IsRed(u) {
          FixupBroken(gup, Branch(Branch(l, Black, e, t), Red, ge, Blacken(u)));
        } else {
          FixupBroken(InLeft(gup, t.color, t.entry, Branch(t.right, Red, ge, u)), Branch(l, Black, e, t.left));
        }
    }
  }

  /** The node under the root, on its right: the loop stops here. */
  lemma FixupTop(p: Path, t: Tree)
    requires t.Branch? && p.InRight? && p.up.Top?
    ensures Fixup(p, t) == Branch(p.left, Black, p.entry, t)
  {
    var q := InRight(p.left, Black, p.entry, Top);
    assert Plug(p, t) == Plug(Top, Branch(p.left, p.color, p.entry, t));
    assert Plug(q, t) == Plug(Top, Branch(p.left, Black, p.entry, t));
  }

  /** What the first inner arm leaves behind cannot be brought back into balance. */
  lemma InnerArmBreaks(p: Path, t: Tree, h: nat)
    requires t.Branch? && t.color == Black && Balanced(t) && BlackHeight(t) == h + 1
    requires !p.Top? && p.color == Red
    requires match p case InLeft(_, _, _, g) => BlackHeight(g) == h && g.Branch? && Balanced(g)
                     case InRight(g, _, _, _) => BlackHeight(g) == h && g.Branch? && Balanced(g)
    requires Sound(p.up, h + 1)
    ensures !Balanced(Fixup(p, t))
  {
    match p
    case InLeft(Top, _, e, g) =>
      FixupTop(InRight(t.left, Black, t.entry, Top), Branch(t.right, Black, e, g));
    case InLeft(InLeft(gup, gc, ge, u), _, e, g) =>
      if IsRed(u) {
        FixupBroken(gup, Branch(Branch(t, Black, e, g), Red, ge, Blacken(u)));
      } else {
        var q := InLeft(gup, Black, e, Branch(g, Red, ge, u));
        PlugBroken(q, t);
        PlugBranch(q, t);
      }
    case InLeft(InRight(u, gc, ge, gup), _, e, g) =>
      if IsRed(u) {
        FixupBroken(gup, Branch(Blacken(u), Red, ge, Branch(t, Black, e, g)));
      } else {
        FixupBroken(InRight(Branch(u, Red, ge, t.left), t.color, t.entry, gup), Branch(t.right, Black, e, g));
      }
    case InRight(g, _, e, Top) =>
      FixupTop(p, t);
    case InRight(g, _, e, InRight(u, gc, ge, gup)) =>
      if IsRed(u) {
        FixupBroken(gup, Branch(Blacken(u), Red, ge, Branch(g, Black, e, t)));
      } else {
        var q := InRight(Branch(u, Red, ge, g), Black, e, gup);
        PlugBroken(q, t);
        PlugBranch(q, t);
      }
    case InRight(g, _, e, InLeft(gup, gc, ge, u)) =>
      if IsRed(u) {
        FixupBroken(gup, Branch(Branch(g, Black, e, t), Red, ge, Blacken(u)));
      } else {
        FixupBroken(InLeft(gup, t.color, t.entry, Branch(t.right, Red, ge, u)), Branch(g, Black, e, t.left));
      }
  }

  /** From a red-black tree, the fixup restores a red-black tree exactly when it never zig-zags. */
  lemma {:induction false} FixupBalance(p: Path, t: Tree)
    requires IsRed(t) && Balanced(t) && NoRedRed(t) && Sound(p, BlackHeight(t))
    ensures IsRedBlack(Fixup(p, t)) <==> !ZigZag(p)
    decreases Depth(p)
  {
    var h := BlackHeight(t);
    if p.Top? {
    } else if p.color == Black {
      PlugSound(p, t);
    } else {
      match p
      case InLeft(InLeft(gup, _, ge, u), _, e, r) =>
        assert Depth(p) == 2 + Depth(gup);
        if IsRed(u) {
          FixupBalance(gup, Branch(Branch(t, Black, e, r), Red, ge, Blacken(u)));
        } else {
          PlugSound(InLeft(gup, Black, e, Branch(r, Red, ge, u)), t);
        }
      case InLeft(InRight(u, _, ge, gup), _, e, r) =>
        assert Depth(p) == 2 + Depth(gup);
        if IsRed(u) {
          FixupBalance(gup, Branch(Blacken(u), Red, ge, Branch(t, Black, e, r)));
        } else {
          InnerArmBreaks(InRight(Branch(u, Red, ge, t.left), t.color, t.entry, gup), Branch(t.right, Black, e, r), h);
        }
      case InRight(l, _, e, InRight(u, _, ge, gup)) =>
        assert Depth(p) == 2 + Depth(gup);
        if IsRed(u) {
          FixupBalance(gup, Branch(Blacken(u), Red, ge, Branch(l, Black, e, t)));
        } else {
          PlugSound(InRight(Branch(u, Red, ge, l), Black, e, gup), t);
        }
      case InRight(l, _, e, InLeft(gup, _, ge, u)) =>
        assert Depth(p) == 2 + Depth(gup);
        if IsRed(u) {
          FixupBalance(gup, Branch(Branch(l, Black, e, t), Red, ge, Blacken(u)));
        } else {
          InnerArmBreaks(InLeft(gup, t.color, t.entry, Branch(t.right, Red, ge, u)), Branch(l, Black, e, t.left), h);
        }
    }
  }

  /** The exact condition under which insertion keeps the red-black rules. */
  lemma InsertBalance(t: Tree, e: Entry)
    requires IsRedBlack(t)
    ensures IsRedBlack(Insert(t, e)) <==> !ZigZag(Descend(Top, t, e.key))
  {
    if t.Branch? {
      DescendSound(Top, t, e.key);
      FixupBalance(Descend(Top, t, e.key), Branch(Leaf, Red, e, Leaf));
    }
  }

  // ---------------------------------------------------------------------------------------
  // Whole runs of insertions
  // ---------------------------------------------------------------------------------------

  function InsertAll(t: Tree, es: seq<Entry>): Tree
    decreases |es|
  {
    if es == [] then t else InsertAll(Insert(t, es[0]), es[1..])
  }

  /** The specification of a run: one stable sorted insertion after the other. */
  function InsertAfterAll(s: seq<Entry>, es: seq<Entry>): seq<Entry>
    decreases |es|
  {
    if es == [] then s else InsertAfterAll(InsertAfter(s, es[0]), es[1..])
  }

  lemma {:induction false} InsertAllInOrder(t: Tree, es: seq<Entry>)
    requires SortedKeys(InOrder(t))
    ensures InOrder(InsertAll(t, es)) == InsertAfterAll(InOrder(t), es)
    decreases |es|
  {
    if es != [] {
      InsertInOrder(t, es[0]);
      var k := InsertAfterSorted(InOrder(t), es[0]);
      InsertAllInOrder(Insert(t, es[0]), es[1..]);
    }
  }

  /** The specified run sorts, loses nothing and invents nothing. */
  lemma {:induction false} InsertAfterAllSorted(s: seq<Entry>, es: seq<Entry>)
    requires SortedKeys(s)
    ensures SortedKeys(InsertAfterAll(s, es))
    ensures multiset(InsertAfterAll(s, es)) == multiset(s) + multiset(es)
    decreases |es|
  {
    if es != [] {
      var k := InsertAfterSorted(s, es[0]);
      InsertAfterAllSorted(InsertAfter(s, es[0]), es[1..]);
      assert es == [es[0]] + es[1..];
      assert multiset(es) == multiset{es[0]} + multiset(es[1..]);
    }
  }

  /** Only right turns, or only left turns. */
  predicate RightSpine(p: Path) {
    p.Top? || (p.InRight? && RightSpine(p.up))
  }

  predicate LeftSpine(p: Path) {
    p.Top? || (p.InLeft? && LeftSpine(p.up))
  }

  lemma {:induction false} SpineNoZigZag(p: Path)
    requires RightSpine(p) || LeftSpine(p)
    ensures !ZigZag(p)
  {
    if !p.Top? && !p.up.Top? {
      SpineNoZigZag(p.up.up);
    }
  }

  lemma {:induction false} DescendSpine(p: Path, t: Tree, key: int)
    ensures RightSpine(p) && (forall e :: e in InOrder(t) ==> e.key <= key) ==> RightSpine(Descend(p, t, key))
    ensures LeftSpine(p) && (forall e :: e in InOrder(t) ==> key < e.key) ==> LeftSpine(Descend(p, t, key))
    decreases t
  {
    match t
    case Leaf =>
    case Branch(l, c, e, r) =>
      assert e in InOrder(t);
      DescendSpine(InLeft(p, c, e, r), l, key);
      DescendSpine(InRight(l, c, e, p), r, key);
  }

  /** Each key of the run is at least, or below, every key that came before it. */
  ghost predicate AtTheEnds(s: seq<Entry>, es: seq<Entry>)
    decreases |es|
  {
    es != [] ==>
    && ((forall e :: e in s ==> e.key <= es[0].key) || (forall e :: e in s ==> es[0].key < e.key))
    && AtTheEnds(InsertAfter(s, es[0]), es[1..])
  }

  /** A run that only ever extends the key range keeps a red-black tree red-black. */
  lemma {:induction false} InsertAllBalance(t: Tree, es: seq<Entry>)
    requires IsRedBlack(t) && SortedKeys(InOrder(t)) && AtTheEnds(InOrder(t), es)
    ensures IsRedBlack(InsertAll(t, es))
    decreases |es|
  {
    if es != [] {
      DescendSpine(Top, t, es[0].key);
      SpineNoZigZag(Descend(Top, t, es[0].key));
      InsertBalance(t, es[0]);
      InsertInOrder(t, es[0]);
      var k := InsertAfterSorted(InOrder(t), es[0]);
      InsertAllBalance(Insert(t, es[0]), es[1..]);
    }
  }

  lemma {:induction false} AscendingAtTheEnds(s: seq<Entry>, es: seq<Entry>)
    requires SortedKeys(es)
    requires forall i, j :: 0 <= i < |s| && 0 <= j < |es| ==> s[i].key <= es[j].key
    ensures AtTheEnds(s, es) && InsertAfterAll(s, es) == s + es
    decreases |es|
  {
    if es == [] {
      assert s + es == s;
    } else {
      var s', rest := s + [es[0]], es[1..];
      assert InsertAfter(s, es[0]) == s' by {
        InsertAfterSplit(s, [], es[0]);
        assert s + [] == s && s' + [] == s';
      }
      forall i, j | 0 <= i < |s'| && 0 <= j < |rest| ensures s'[i].key <= rest[j].key {
        assert rest[j] == es[j + 1];
      }
      AscendingAtTheEnds(s', rest);
      assert s' + rest == s + es;
    }
  }

  /** Non-decreasing keys into an empty tree: the tree is red-black and holds the run in order. */
  lemma AscendingRun(es: seq<Entry>)
    requires SortedKeys(es)
    ensures IsRedBlack(InsertAll(Leaf, es))
    ensures InOrder(InsertAll(Leaf, es)) == es
    ensures Pow2(Height(InsertAll(Leaf, es))) <= (|es| + 1) * (|es| + 1)
  {
    AscendingContents(es);
    AscendingAtTheEnds([], es);
    assert InOrder(Leaf) == [];
    InsertAllBalance(Leaf, es);
    HeightBound(InsertAll(Leaf, es));
  }

  lemma AscendingContents(es: seq<Entry>)
    requires SortedKeys(es)
    ensures InOrder(InsertAll(Leaf, es)) == es
  {
    AscendingAtTheEnds([], es);
    InsertAllInOrder(Leaf, es);
    assert [] + es == es;
  }

  /** A red, and a black, node with the value 1. */
  function R(l: Tree, key: int, r: Tree): Tree {
    Branch(l, Red, Entry(key, 1), r)
  }

  function B(l: Tree, key: int, r: Tree): Tree {
    Branch(l, Black, Entry(key, 1), r)
  }

  /**
   The red-black rules do not hold after every run, although the source's comments promise
   them: the third key of this run makes the fixup take an inner arm.
   */
  lemma ZigZagRun()
    ensures var t := InsertAll(Leaf, [Entry(10, 1), Entry(5, 2)]);
            && IsRedBlack(t)
            && ZigZag(Descend(Top, t, 7))
            && !IsRedBlack(Insert(t, Entry(7, 3)))
  {
    var t := Branch(Branch(Leaf, Red, Entry(5, 2), Leaf), Black, Entry(10, 1), Leaf);
    var es := [Entry(10, 1), Entry(5, 2)];
    assert es[1..] == [Entry(5, 2)] && es[1..][1..] == [];
    var t1 := Branch(Leaf, Black, Entry(10, 1), Leaf);
    assert Insert(t1, Entry(5, 2)) == t by {
      assert Descend(Top, t1, 5) == InLeft(Top, Black, Entry(10, 1), Leaf);
    }
    assert InsertAll(Leaf, es) == InsertAll(t1, [Entry(5, 2)]) == InsertAll(t, []) == t;
    assert Descend(Top, t, 7) == InRight(Leaf, Red, Entry(5, 2), InLeft(Top, Black, Entry(10, 1), Leaf));
    InsertBalance(t, Entry(7, 3));
  }

  function Height(t: Tree): nat {
    match t
    case Leaf => 0
    case Branch(l, _, _, r) => 1 + if Height(l) < Height(r) then Height(r) else Height(l)
  }

  function Pow2(n: nat): nat {
    if n == 0 then 1 else 2 * Pow2(n - 1)
  }

  lemma {:induction false} Pow2Monotone(m: nat, n: nat)
    requires m <= n
    ensures 1 <= Pow2(m) <= Pow2(n)
  {
    if m == n {
      if m != 0 { Pow2Monotone(m - 1, n - 1); }
    } else {
      Pow2Monotone(m, n - 1);
    }
  }

  lemma {:induction false} Pow2Square(n: nat)
    ensures Pow2(2 * n) == Pow2(n) * Pow2(n)
  {
    if n != 0 {
      Pow2Square(n - 1);
      assert Pow2(2 * n) == 4 * Pow2(2 * (n - 1));
    }
  }

  lemma {:induction false} HeightByBlackHeight(t: Tree)
    requires NoRedRed(t) && Balanced(t)
    ensures Height(t) <= 2 * BlackHeight(t) + if IsRed(t) then 1 else 0
    ensures Pow2(BlackHeight(t)) <= |InOrder(t)| + 1
  {
    if t.Branch? {
      HeightByBlackHeight(t.left);
      HeightByBlackHeight(t.right);
    }
  }

  /** The height of a red-black tree with n entries is at most 2 log2(n + 1). */
  lemma HeightBound(t: Tree)
    requires IsRedBlack(t)
    ensures Pow2(Height(t)) <= (|InOrder(t)| + 1) * (|InOrder(t)| + 1)
  {
    HeightByBlackHeight(t);
    Pow2Monotone(Height(t), 2 * BlackHeight(t));
    Pow2Square(BlackHeight(t));
    SquareMonotone(Pow2(BlackHeight(t)), |InOrder(t)| + 1);
  }

  lemma SquareMonotone(b: nat, n: nat)
    requires b <= n
    ensures b * b <= n * n
  {
    assert b * b <= b * n <= n * n;
  }
}
