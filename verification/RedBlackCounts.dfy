/**
 What the two fixups do to the number of black nodes above each gap of the in-order sequence, for
 trees that need not be balanced, and that the delete fixup repairs a tree that is one black node
 short under the loop's node.
 */
module RedBlackCounts {
  import opened RedBlackModel
  import opened RedBlackDelete
  import L = RedBlackLayout
  import D = RedBlackDeleteLayout

  /** The black nodes above each gap, where `n` more are above the whole tree. */
  function Gaps(t: Tree, n: int): seq<int> {
    match t
    case Leaf => [n]
    case Branch(l, c, _, r) => Gaps(l, n + One(c)) + Gaps(r, n + One(c))
  }

  function Blacks(p: Path): nat {
    if p.Top? then 0 else Blacks(p.up) + One(p.color)
  }

  function GapsBefore(p: Path, n: int): seq<int> {
    match p
    case Top => []
    case InLeft(up, _, _, _) => GapsBefore(up, n)
    case InRight(l, c, _, up) => GapsBefore(up, n) + Gaps(l, n + Blacks(up) + One(c))
  }

  function GapsAfter(p: Path, n: int): seq<int> {
    match p
    case Top => []
    case InLeft(up, c, _, r) => Gaps(r, n + Blacks(up) + One(c)) + GapsAfter(up, n)
    case InRight(_, _, _, up) => GapsAfter(up, n)
  }

  /** All gaps, with `x` more black nodes above those of the subtree. */
  function GapsWith(p: Path, t: Tree, n: int, x: int): seq<int> {
    GapsBefore(p, n) + Gaps(t, n + Blacks(p) + x) + GapsAfter(p, n)
  }

  lemma GapsLift(p: Path, t: Tree, n: int)
    requires !p.Top?
    ensures p.InLeft? ==> GapsWith(p, t, n, 0) == GapsWith(p.up, Branch(t, p.color, p.entry, p.right), n, 0)
    ensures p.InRight? ==> GapsWith(p, t, n, 0) == GapsWith(p.up, Branch(p.left, p.color, p.entry, t), n, 0)
  {
    var k := n + Blacks(p);
    if p.InLeft? {
      var a, x, y, b := GapsBefore(p.up, n), Gaps(t, k), Gaps(p.right, k), GapsAfter(p.up, n);
      assert a + x + (y + b) == a + (x + y) + b;
    } else {
      var a, x, y, b := GapsBefore(p.up, n), Gaps(p.left, k), Gaps(t, k), GapsAfter(p.up, n);
      assert (a + x) + y + b == a + (x + y) + b;
    }
  }

  lemma {:induction false} PlugGaps(p: Path, t: Tree, n: int)
    ensures Gaps(Plug(p, t), n) == GapsWith(p, t, n, 0)
  {
    match p
    case Top =>
    case InLeft(up, c, e, r) =>
      PlugGaps(up, Branch(t, c, e, r), n);
      GapsLift(p, t, n);
    case InRight(l, c, e, up) =>
      PlugGaps(up, Branch(l, c, e, t), n);
      GapsLift(p, t, n);
  }

  /** A black root counts one more everywhere. */
  lemma BlackRootGaps(t: Tree)
    ensures Gaps(Blacken(t), 0) == Gaps(t, if IsRed(t) then 1 else 0)
  {
  }

  /** The root is black and no red node has a red parent, on the path and beside it. */
  predicate Regular(p: Path) {
    p.Top? ||
    (&& NoRedRed(Sibling(p)) && Regular(p.up)
     && (p.color == Red ==> !IsRed(Sibling(p)) && !p.up.Top? && p.up.color == Black))
  }

  lemma BranchGaps(l: Tree, c: Color, e: Entry, r: Tree, n: int)
    ensures Gaps(Branch(l, c, e, r), n) == Gaps(l, n + One(c)) + Gaps(r, n + One(c))
  {
  }

  lemma Regrouped(x: seq<int>, v: seq<int>, w: seq<int>, z: seq<int>)
    ensures (x + v) + (w + z) == x + ((v + w) + z) && (x + v) + (w + z) == (x + (v + w)) + z
    ensures (x + v) + z == x + (v + z)
  {
  }

  /** A node with a child, on either side. */
  lemma TwoDeep(a: Tree, c: Color, e: Entry, b: Tree, d: Color, f: Entry, u: Tree, n: int)
    ensures var k := n + One(c) + One(d);
            && Gaps(Branch(Branch(a, c, e, b), d, f, u), n) == Gaps(a, k) + Gaps(b, k) + Gaps(u, n + One(d))
            && Gaps(Branch(u, d, f, Branch(a, c, e, b)), n) == Gaps(u, n + One(d)) + (Gaps(a, k) + Gaps(b, k))
  {
    BranchGaps(a, c, e, b, n + One(d));
    BranchGaps(Branch(a, c, e, b), d, f, u, n);
    BranchGaps(u, d, f, Branch(a, c, e, b), n);
    hide Gaps;
  }

  lemma BlackenedGaps(u: Tree, n: int)
    requires IsRed(u)
    ensures Gaps(Blacken(u), n) == Gaps(u, n + 1)
  {
  }

  /** The recolouring keeps the count above every gap. */
  lemma RecolorGaps(a: Tree, e: Entry, b: Tree, f: Entry, u: Tree, n: int)
    requires IsRed(u)
    ensures Gaps(Branch(Branch(a, Black, e, b), Red, f, Blacken(u)), n)
         == Gaps(Branch(Branch(a, Red, e, b), Black, f, u), n)
    ensures Gaps(Branch(Blacken(u), Red, f, Branch(a, Black, e, b)), n)
         == Gaps(Branch(u, Black, f, Branch(a, Red, e, b)), n)
  {
    hide Gaps, Blacken;
    BlackenedGaps(u, n);
    TwoDeep(a, Black, e, b, Red, f, Blacken(u), n);
    TwoDeep(a, Red, e, b, Black, f, u, n);
  }

  /** So does the rotation. */
  lemma OuterGaps(a: Tree, e: Entry, b: Tree, f: Entry, u: Tree, n: int)
    ensures Gaps(Branch(a, Black, e, Branch(b, Red, f, u)), n) == Gaps(Branch(Branch(a, Red, e, b), Black, f, u), n)
    ensures Gaps(Branch(Branch(u, Red, f, a), Black, e, b), n) == Gaps(Branch(u, Black, f, Branch(a, Red, e, b)), n)
  {
    hide Gaps;
    TwoDeep(a, Red, e, b, Black, f, u, n);
    TwoDeep(b, Red, f, u, Black, e, a, n);
    TwoDeep(u, Red, f, a, Black, e, b, n);
    Regrouped(Gaps(a, n + 1), Gaps(b, n + 1), [], Gaps(u, n + 1));
    Regrouped(Gaps(u, n + 1), Gaps(a, n + 1), [], Gaps(b, n + 1));
  }

  /** A tree that counts the same in its place counts the same in the whole. */
  lemma SameGaps(p: Path, x: Tree, y: Tree)
    requires forall n :: Gaps(x, n) == Gaps(y, n)
    ensures forall n :: Gaps(Plug(p, x), n) == Gaps(Plug(p, y), n)
  {
    forall n ensures Gaps(Plug(p, x), n) == Gaps(Plug(p, y), n) {
      PlugGaps(p, x, n);
      PlugGaps(p, y, n);
      assert Gaps(x, n + Blacks(p)) == Gaps(y, n + Blacks(p));
    }
  }

  /**
   Insertion, balanced or not: if the fixup takes no inner arm, the number of black nodes changes by
   the same amount above every gap.
   */
  lemma {:induction false} FixupCounts(p: Path, t: Tree) returns (n: int)
    requires IsRed(t) && Regular(p) && !ZigZag(p)
    ensures 0 <= n <= 1 && Gaps(Fixup(p, t), 0) == Gaps(Plug(p, t), n)
    decreases Depth(p)
  {
    if p.Top? || p.color == Black {
      BlackRootGaps(Plug(p, t));
      n := if IsRed(Plug(p, t)) then 1 else 0;
    } else {
      var gup, u, x := p.up.up, Sibling(p.up), L.Upper(p.up, L.Upper(p, t));
      var y := if IsRed(u) then L.Recolored(p, t) else L.Upper(L.OuterPlace(p), t);
      L.NextPlace(p, t);
      assert Depth(p) == 1 + Depth(p.up) == 2 + Depth(gup);
      forall k ensures Gaps(y, k) == Gaps(x, k) {
        var a, b := if p.InLeft? then t else p.left, if p.InLeft? then p.right else t;
        if IsRed(u) {
          RecolorGaps(a, p.entry, b, p.up.entry, u, k);
        } else {
          OuterGaps(a, p.entry, b, p.up.entry, u, k);
        }
      }
      SameGaps(gup, x, y);
      if IsRed(u) {
        n := FixupCounts(gup, y);
      } else {
        n := if IsRed(Plug(gup, y)) then 1 else 0;
        BlackRootGaps(Plug(gup, y));
      }
    }
  }

  // ---------------------------------------------------------------------------------------
  // Deletion
  // ---------------------------------------------------------------------------------------

  /** No sibling is missing, and no child of a red one. */
  predicate Full(p: Path) {
    p.Top? || (Filled(Sibling(p)) && Full(p.up))
  }

  predicate Filled(t: Tree) {
    t.Branch? && (t.color == Red ==> t.left.Branch? && t.right.Branch?)
  }

  lemma GapsWithLift(p: Path, t: Tree, n: int, x: int)
    requires !p.Top?
    ensures var k := n + Blacks(p);
            GapsWith(p, t, n, x) == GapsBefore(p.up, n)
            + (if p.InLeft? then Gaps(t, k + x) + Gaps(p.right, k) else Gaps(p.left, k) + Gaps(t, k + x))
            + GapsAfter(p.up, n)
  {
    var k := n + Blacks(p);
    var a, y, b := GapsBefore(p.up, n), Gaps(t, k + x), GapsAfter(p.up, n);
    if p.InLeft? {
      assert GapsWith(p, t, n, x) == a + y + (Gaps(p.right, k) + b);
      Nested(a, y, Gaps(p.right, k), b);
    } else {
      assert GapsWith(p, t, n, x) == (a + Gaps(p.left, k)) + y + b;
      Nested(a, Gaps(p.left, k), y, b);
    }
  }

  lemma Nested(a: seq<int>, x: seq<int>, y: seq<int>, b: seq<int>)
    ensures a + x + (y + b) == a + (x + y) + b == (a + x) + y + b
  {
  }

  /** A rotating case ends the loop: one more above the node's gaps, the others as before. */
  lemma FarGaps(t: Tree, e: Entry, a: Tree, f: Entry, b: Tree, n: int)
    requires IsRed(b)
    ensures Gaps(Branch(t, Black, e, a), n) + Gaps(Blacken(b), n)
         == Gaps(t, n + 1) + Gaps(Branch(a, Black, f, b), n)
    ensures Gaps(Blacken(b), n) + Gaps(Branch(a, Black, e, t), n)
         == Gaps(Branch(b, Black, f, a), n) + Gaps(t, n + 1)
  {
    var x, y, z := Gaps(t, n + 1), Gaps(a, n + 1), Gaps(b, n + 1);
    assert Gaps(Blacken(b), n) == z;
    Regrouped(x, y, [], z);
    Regrouped(z, y, [], x);
  }

  lemma NearGaps(t: Tree, e: Entry, a: Tree, f: Entry, b: Tree, n: int)
    requires IsRed(a)
    ensures Gaps(Branch(t, Black, e, a.left), n) + Gaps(Branch(a.right, Black, f, b), n)
         == Gaps(t, n + 1) + Gaps(Branch(a, Black, f, b), n)
    ensures Gaps(Branch(b, Black, f, a.left), n) + Gaps(Branch(a.right, Black, e, t), n)
         == Gaps(Branch(b, Black, f, a), n) + Gaps(t, n + 1)
  {
    hide Gaps;
    var x, v, w, z := Gaps(t, n + 1), Gaps(a.left, n + 1), Gaps(a.right, n + 1), Gaps(b, n + 1);
    BranchGaps(t, Black, e, a.left, n);
    BranchGaps(a.right, Black, f, b, n);
    BranchGaps(a, Black, f, b, n);
    BranchGaps(b, Black, f, a.left, n);
    BranchGaps(a.right, Black, e, t, n);
    BranchGaps(b, Black, f, a, n);
    BranchGaps(a.left, Red, a.entry, a.right, n + 1);
    Regrouped(x, v, w, z);
    Regrouped(z, v, w, x);
  }

  /** The tree that a rotating case leaves in the parent's place. */
  function RotatedIn(p: Path, t: Tree): Tree
    requires !p.Top? && Sibling(p).Branch? && !BlackChildren(Sibling(p), Black)
  {
    var Branch(sl, _, se, sr) := Sibling(p);
    if p.InLeft? then
      if IsRed(sr) then Branch(Branch(t, Black, p.entry, sl), p.color, se, Blacken(sr))
      else Branch(Branch(t, Black, p.entry, sl.left), p.color, sl.entry, Branch(sl.right, Black, se, sr))
    else
      if IsRed(sl) then Branch(Blacken(sl), p.color, se, Branch(sr, Black, p.entry, t))
      else Branch(Branch(sl, Black, se, sr.left), p.color, sr.entry, Branch(sr.right, Black, p.entry, t))
  }

  lemma RotatedInIs(p: Path, t: Tree)
    requires t.Branch? && !p.Top? && Sibling(p).Branch? && !BlackChildren(Sibling(p), Black)
    ensures D.RestOf(p, t, Black) == (Blacken(Plug(p.up, RotatedIn(p, t))), Black)
  {
    hide DeleteFixup, Plug;
  }

  lemma RotatedGaps(p: Path, t: Tree, n: int)
    requires !p.Top? && Sibling(p).Branch? && Sibling(p).color == Black && !BlackChildren(Sibling(p), Black)
    ensures GapsWith(p.up, RotatedIn(p, t), n, 0) == GapsWith(p, t, n, 1)
  {
    hide Gaps, GapsWith;
    var k := n + Blacks(p);
    var Branch(sl, _, se, sr) := Sibling(p);
    GapsWithLift(p, t, n, 1);
    if p.InLeft? {
      if IsRed(sr) {
        FarGaps(t, p.entry, sl, se, sr, k);
        BranchGaps(Branch(t, Black, p.entry, sl), p.color, se, Blacken(sr), n + Blacks(p.up));
      } else {
        NearGaps(t, p.entry, sl, se, sr, k);
        BranchGaps(Branch(t, Black, p.entry, sl.left), p.color, sl.entry, Branch(sl.right, Black, se, sr),
            n + Blacks(p.up));
      }
    } else {
      if IsRed(sl) {
        FarGaps(t, p.entry, sr, se, sl, k);
        BranchGaps(Blacken(sl), p.color, se, Branch(sr, Black, p.entry, t), n + Blacks(p.up));
      } else {
        NearGaps(t, p.entry, sr, se, sl, k);
        BranchGaps(Branch(sl, Black, se, sr.left), p.color, sr.entry, Branch(sr.right, Black, p.entry, t),
            n + Blacks(p.up));
      }
    }
    GapsWithIs(p.up, RotatedIn(p, t), n, 0);
  }

  lemma GapsWithIs(p: Path, t: Tree, n: int, x: int)
    ensures GapsWith(p, t, n, x) == GapsBefore(p, n) + Gaps(t, n + Blacks(p) + x) + GapsAfter(p, n)
  {
  }

  /** A climb: one less above the sibling's gaps, and so all gaps under the parent are one short. */
  lemma ClimbedGaps(p: Path, t: Tree, n: int)
    requires !p.Top? && Sibling(p).Branch? && Sibling(p).color == Black
    ensures GapsWith(p.up, D.Climbed(p, t), n, 1) == GapsWith(p, t, n, 1)
  {
    hide Gaps, GapsWith;
    var k, s := n + Blacks(p), Sibling(p);
    GapsWithLift(p, t, n, 1);
    BranchGaps(s.left, Black, s.entry, s.right, k);
    BranchGaps(s.left, Red, s.entry, s.right, k + 1);
    if p.InLeft? {
      BranchGaps(t, p.color, p.entry, Redden(s), n + Blacks(p.up) + 1);
    } else {
      BranchGaps(Redden(s), p.color, p.entry, t, n + Blacks(p.up) + 1);
    }
    GapsWithIs(p.up, D.Climbed(p, t), n, 1);
  }

  /** The first case moves no count, as the parent of a red sibling is black. */
  lemma ExposedGaps(p: Path, t: Tree, n: int)
    requires !p.Top? && p.color == Black && IsRed(Sibling(p))
    ensures GapsWith(D.Rest(p), t, n, 1) == GapsWith(p, t, n, 1)
  {
    hide Gaps, GapsWith;
    var k, q := n + Blacks(p), D.Rest(p);
    var Branch(sl, _, se, sr) := Sibling(p);
    var x, y, z := Gaps(t, k + 1), Gaps(sl, k), Gaps(sr, k);
    GapsWithLift(p, t, n, 1);
    GapsWithLift(q, t, n, 1);
    BranchGaps(sl, Red, se, sr, k);
    if p.InLeft? {
      Joined(GapsBefore(p.up, n), x, y, z, GapsAfter(p.up, n));
    } else {
      Joined(GapsBefore(p.up, n), y, z, x, GapsAfter(p.up, n));
    }
  }

  lemma Joined(a: seq<int>, x: seq<int>, y: seq<int>, z: seq<int>, b: seq<int>)
    ensures a + (x + y) + (z + b) == a + (x + (y + z)) + b
    ensures (a + x) + (y + z) + b == a + ((x + y) + z) + b
  {
  }

  lemma RestRegular(p: Path)
    requires !p.Top? && Regular(p) && Full(p)
    ensures var q := D.Rest(p);
            && !q.Top? && Regular(q) && Regular(q.up) && Full(q.up) && Sibling(q).Branch? && Sibling(q).color == Black
    ensures IsRed(Sibling(p)) ==> p.color == Black
  {
  }

  /**
   The loop of the delete fixup, balanced or not: compared with the tree it starts from, one more
   black node is above each gap under its node, up to one shift that is the same for all gaps; the
   sentinel stays black.
   */
  lemma {:induction false} DeleteFixupCounts(p: Path, t: Tree) returns (n: int)
    requires t.Branch? && Regular(p) && Full(p)
    ensures -1 <= n <= 1 && DeleteFixup(p, t, Black).1 == Black
    ensures Gaps(DeleteFixup(p, t, Black).0, 0) == GapsWith(p, t, n, 1)
    decreases 2 * Depth(p) + One(t.color)
  {
    hide D.RestOf, D.Climbed, D.Rest;
    if p.Top? {
      n := if t.color == Black then -1 else 0;
    } else if t.color == Red {
      n := 0;
      PlugGaps(p, Blacken(t), 0);
    } else {
      hide DeleteFixup, Gaps, GapsWith;
      var q := D.Rest(p);
      D.FixupRest(p, t, Black);
      RestRegular(p);
      D.RestDepth(p);
      if BlackChildren(Sibling(q), Black) {
        D.ClimbedAt(q, t, Black);
        n := DeleteFixupCounts(q.up, D.Climbed(q, t));
        ClimbedGaps(q, t, n);
      } else {
        var y := RotatedIn(q, t);
        n := if IsRed(Plug(q.up, y)) then 1 else 0;
        RotatedInIs(q, t);
        BlackRootGaps(Plug(q.up, y));
        PlugGaps(q.up, y, n);
        RotatedGaps(q, t, n);
      }
      if IsRed(Sibling(p)) { ExposedGaps(p, t, n); } else { RestSame(p); }
    }
  }

  lemma RestSame(p: Path)
    requires !p.Top? && !IsRed(Sibling(p))
    ensures D.Rest(p) == p
  {
  }

  /**
   What the fixup is for: a tree that keeps the rules but for one black node that is missing under
   the loop's node comes out red-black.
   */
  lemma {:induction false} DeleteFixupRepairs(p: Path, t: Tree)
    requires t.Branch? && Balanced(t) && Sound(p, BlackHeight(t) + 1)
    requires NoRedRed(t.left) && NoRedRed(t.right)
    ensures IsRedBlack(DeleteFixup(p, t, Black).0) && DeleteFixup(p, t, Black).1 == Black
    decreases 2 * Depth(p) + One(t.color)
  {
    hide D.RestOf, D.Climbed, D.Rest;
    if p.Top? {
    } else if t.color == Red {
      PlugSound(p, Blacken(t));
    } else {
      var q := D.Rest(p);
      D.FixupRest(p, t, Black);
      RestSound(p, BlackHeight(t) + 1);
      D.RestDepth(p);
      hide DeleteFixup;
      if BlackChildren(Sibling(q), Black) {
        D.ClimbedAt(q, t, Black);
        ClimbedSound(q, t);
        DeleteFixupRepairs(q.up, D.Climbed(q, t));
      } else {
        RotatedInIs(q, t);
        RotatedSound(q, t);
      }
    }
  }

  lemma RestSound(p: Path, h: nat)
    requires !p.Top? && Sound(p, h) && 0 < h
    ensures var q := D.Rest(p);
            !q.Top? && Sound(q, h) && Sibling(q).Branch? && Sibling(q).color == Black && Sibling(p).Branch?
  {
  }

  lemma ClimbedSound(p: Path, t: Tree)
    requires t.Branch? && t.color == Black && !p.Top? && Balanced(t) && NoRedRed(t) && Sound(p, BlackHeight(t) + 1)
    requires Sibling(p).Branch? && Sibling(p).color == Black && BlackChildren(Sibling(p), Black)
    ensures var u := D.Climbed(p, t);
            && Balanced(u) && NoRedRed(u.left) && NoRedRed(u.right) && Sound(p.up, BlackHeight(u) + 1)
  {
  }

  lemma RotatedSound(p: Path, t: Tree)
    requires t.Branch? && t.color == Black && !p.Top? && Balanced(t) && NoRedRed(t) && Sound(p, BlackHeight(t) + 1)
    requires Sibling(p).Branch? && Sibling(p).color == Black && !BlackChildren(Sibling(p), Black)
    ensures IsRedBlack(Blacken(Plug(p.up, RotatedIn(p, t))))
  {
    RotatedRules(p, t);
    RotatedHeight(p, t);
    hide RotatedIn;
    PlugSound(p.up, RotatedIn(p, t));
  }

  lemma RotatedRules(p: Path, t: Tree)
    requires t.Branch? && t.color == Black && !p.Top? && NoRedRed(t)
    requires Sibling(p).Branch? && NoRedRed(Sibling(p)) && !BlackChildren(Sibling(p), Black)
    ensures NoRedRed(RotatedIn(p, t)) && RotatedIn(p, t).color == p.color
  {
  }

  lemma RotatedHeight(p: Path, t: Tree)
    requires t.Branch? && t.color == Black && !p.Top? && Balanced(t)
    requires Sibling(p).Branch? && Sibling(p).color == Black && !BlackChildren(Sibling(p), Black)
    requires Balanced(Sibling(p)) && BlackHeight(Sibling(p)) == BlackHeight(t) + 1
    ensures Balanced(RotatedIn(p, t)) && BlackHeight(RotatedIn(p, t)) == BlackHeight(t) + 1 + One(p.color)
  {
    assert BlackHeight(Sibling(p).left) == BlackHeight(Sibling(p).right) == BlackHeight(t);
  }
}
