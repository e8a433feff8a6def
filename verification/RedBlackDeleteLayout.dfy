/**
 The deletion read off the in-order sequence, in the terms of RedBlackLayout.dfy: which spot goes,
 and what each turn of the fixup does to the colours and depths of all others, for every tree, every
 colouring and both colours of the sentinel.
 */
module RedBlackDeleteLayout {
  import opened RedBlackModel
  import opened RedBlackDelete
  import opened RedBlackLayout

  /** Is there a child on this side? */
  ghost predicate HasChild(s: seq<Spot>, i: int, left: bool) {
    exists j :: Child(s, i, j) && (j < i) == left
  }

  /** Is the child on this side red?  The sentinel stands in for a missing one. */
  ghost predicate RedChild(s: seq<Spot>, i: int, left: bool, sentinel: Color) {
    if HasChild(s, i, left) then exists j :: Child(s, i, j) && (j < i) == left && s[j].color == Red
    else sentinel == Red
  }

  ghost predicate HasSibling(x: Stage, p: int) {
    exists w :: OtherChild(x.spots, x.node, p, w)
  }

  /** The loop ends at the root and at a red node. */
  ghost predicate Ends(x: Stage) {
    0 <= x.node < |x.spots| && (IsRoot(x.spots, x.node) || x.spots[x.node].color == Red)
  }

  /** The first case: a red sibling is painted black, the parent red, and lifted over the parent. */
  ghost predicate Exposes(x: Stage, p: int, w: int, x1: Stage) {
    && OtherChild(x.spots, x.node, p, w) && 0 <= p < |x.spots|
    && x1 == if x.spots[w].color == Black then x
             else Stage(Raised(Painted(Painted(x.spots, w, Black), p, Red), w, p), x.node, x.sentinel)
  }

  /** The sibling is not red, or no longer. */
  ghost predicate Exposed(x: Stage, p: int, x1: Stage) {
    if HasSibling(x, p) then exists w :: Exposes(x, p, w, x1)
    else x.sentinel == Black && x1 == x
  }

  /** No child of the sibling is red: it turns red itself, and the parent is looked at next. */
  ghost predicate Climbs(x: Stage, p: int, w: int, y: Stage) {
    && OtherChild(x.spots, x.node, p, w)
    && !RedChild(x.spots, w, true, x.sentinel) && !RedChild(x.spots, w, false, x.sentinel)
    && y == Stage(Painted(x.spots, w, Red), p, x.sentinel)
  }

  /** A turn after which the loop goes on; a missing sibling turns the sentinel red. */
  ghost predicate DeleteTurn(x: Stage, y: Stage) {
    && !Ends(x)
    && exists p, x1 :: Child(x.spots, p, x.node) && Exposed(x, p, x1) && ClimbsOn(x1, p, y)
  }

  ghost predicate ClimbsOn(x: Stage, p: int, y: Stage) {
    if HasSibling(x, p) then exists w :: Climbs(x, p, w, y)
    else x.sentinel == Black && y == Stage(x.spots, p, Red)
  }

  /** The far child of the sibling is red: it turns black, and the sibling takes the parent's place. */
  ghost predicate LiftsSibling(x: Stage, p: int, w: int, y: Stage) {
    && OtherChild(x.spots, x.node, p, w) && 0 <= p < |x.spots|
    && RedChild(x.spots, w, w < x.node, x.sentinel)
    && var s := Painted(Painted(x.spots, w, x.spots[p].color), p, Black);
       if HasChild(s, w, w < x.node) then
         exists f :: Child(s, w, f) && (f < w) == (w < x.node) &&
           y == Stage(RootBlack(Raised(Painted(s, f, Black), w, p)), x.node, x.sentinel)
       else y == Stage(RootBlack(Raised(s, w, p)), x.node, Black)
  }

  /** The near child alone is red: it is lifted twice, into the parent's place. */
  ghost predicate LiftsNephew(x: Stage, p: int, w: int, n: int, y: Stage) {
    && OtherChild(x.spots, x.node, p, w) && 0 <= p < |x.spots|
    && !RedChild(x.spots, w, w < x.node, x.sentinel) && RedChild(x.spots, w, x.node < w, x.sentinel)
    && Child(x.spots, w, n) && (n < w) == (x.node < w)
    && var s := Painted(Painted(Painted(x.spots, n, x.spots[p].color), w, Black), p, Black);
       y == Stage(RootBlack(Raised(Raised(s, n, w), n, p)), x.node, x.sentinel)
  }

  /** The parent and all that is under it are cut off. */
  ghost predicate CutsAt(s: seq<Spot>, p: int, r: seq<Spot>) {
    exists lo, hi :: 0 <= lo <= hi <= |s| && (forall j :: Under(s, p, j) <==> lo <= j < hi) &&
      r == RootBlack(s[..lo] + s[hi..])
  }

  /** The sentinel would be rotated: it is red and stands for the sibling, or for its red near child. */
  ghost predicate Cuts(x: Stage, p: int, y: Stage) {
    && x.sentinel == Red && 0 <= p < |x.spots|
    && if HasSibling(x, p) then
         exists w :: OtherChild(x.spots, x.node, p, w) && !RedChild(x.spots, w, w < x.node, Red)
           && !HasChild(x.spots, w, x.node < w) && CutsAt(x.spots, p, y.spots)
           && y.sentinel == if IsRoot(x.spots, p) then Black else x.spots[p].color
       else CutsAt(x.spots, p, y.spots) && y.sentinel == Black
  }

  /** The loop is left for good: by a rotation of the parent, or by one of the sentinel. */
  ghost predicate Leaves(x: Stage, p: int, y: Stage) {
    || Cuts(x, p, y)
    || (exists w :: LiftsSibling(x, p, w, y))
    || (exists w, n :: LiftsNephew(x, p, w, n, y))
  }

  /** The last turn of the loop, and what follows it. */
  ghost predicate LastTurn(x: Stage, y: Stage) {
    if Ends(x) then y == Stage(Painted(x.spots, x.node, Black), x.node, x.sentinel)
    else exists p :: Child(x.spots, p, x.node) && LeavesUnder(x, p, y)
  }

  ghost predicate LeavesUnder(x: Stage, p: int, y: Stage) {
    if !HasSibling(x, p) && x.sentinel == Red then Cuts(x, p, y)
    else exists x1 :: Exposed(x, p, x1) && Leaves(x1, p, y)
  }

  // ---------------------------------------------------------------------------------------
  // The sibling and its children in the sequence
  // ---------------------------------------------------------------------------------------

  function Side(t: Tree, left: bool): Tree
    requires t.Branch?
  {
    if left then t.left else t.right
  }

  function SideAt(p: Path, t: Tree, left: bool): nat
    requires t.Branch?
  {
    if left then LeftAt(p, t) else RightAt(p, t)
  }

  /** The children of a node, as the predicates see them. */
  lemma ChildColors(p: Path, t: Tree, left: bool, sentinel: Color)
    requires t.Branch?
    ensures var s, i := Spots(p, t), Position(p, t);
            && (HasChild(s, i, left) <==> Side(t, left).Branch?)
            && (RedChild(s, i, left, sentinel) <==> ColorOf(Side(t, left), sentinel) == Red)
            && (Side(t, left).Branch? ==>
                  && SideAt(p, t, left) < |s|
                  && forall j :: Child(s, i, j) && (j < i) == left <==> j == SideAt(p, t, left))
  {
    hide Layout, Ahead, Behind, Child, Plug, Spots, Position, LeftAt, RightAt;
    Children(p, t);
    var s, i := Spots(p, t), Position(p, t);
    if Side(t, left).Branch? { assert Child(s, i, SideAt(p, t, left)); }
  }

  /** The node with another colour on one of its children. */
  function SidePainted(t: Tree, left: bool, c: Color): Tree
    requires t.Branch? && Side(t, left).Branch?
  {
    if left then t.(left := t.left.(color := c)) else t.(right := t.right.(color := c))
  }

  lemma PaintedSide(p: Path, t: Tree, left: bool, c: Color)
    requires t.Branch? && Side(t, left).Branch?
    ensures var s, u := Spots(p, t), SidePainted(t, left, c);
            && SideAt(p, t, left) < |s| && Spots(p, u) == Painted(s, SideAt(p, t, left), c)
            && Position(p, u) == Position(p, t) && SideAt(p, u, left) == SideAt(p, t, left)
  {
    hide Layout, Ahead, Behind, Child, Plug, Spots, Position, LeftAt, RightAt;
    var u := SidePainted(t, left, c);
    Halves(p, t);
    Halves(p, u);
    if left {
      Repainted(InLeft(p, t.color, t.entry, t.right), t.left, c);
    } else {
      Repainted(InRight(t.left, t.color, t.entry, p), t.right, c);
    }
    SidePositions(p, t, left, c);
  }

  lemma SidePositions(p: Path, t: Tree, left: bool, c: Color)
    requires t.Branch? && Side(t, left).Branch?
    ensures Position(p, SidePainted(t, left, c)) == Position(p, t)
    ensures SideAt(p, SidePainted(t, left, c), left) == SideAt(p, t, left)
  {
    Depths(t.left, Depth(p) + 1);
  }

  /** The place of the sibling. */
  function SiblingPlace(p: Path, t: Tree): Path
    requires !p.Top?
  {
    if p.InLeft? then InRight(t, p.color, p.entry, p.up) else InLeft(p.up, p.color, p.entry, t)
  }

  /** Whatever stands there, it is the sibling. */
  lemma InSibling(p: Path, t: Tree, x: Tree)
    requires !p.Top?
    ensures Spots(SiblingPlace(p, t), x) == Spots(WithSibling(p, x), t)
    ensures Sibling(WithSibling(p, x)) == x && SiblingPlace(WithSibling(p, x), t) == SiblingPlace(p, t)
    ensures x.Branch? ==> Position(SiblingPlace(p, t), x) == SiblingAt(WithSibling(p, x), t)
    ensures WithSibling(p, Sibling(p)) == p
  {
  }

  /** A change of the sibling that keeps its size moves neither the node nor the parent. */
  lemma SiblingSwapped(p: Path, t: Tree, x: Tree)
    requires t.Branch? && !p.Top? && Size(x) == Size(Sibling(p))
    ensures var q := WithSibling(p, x);
            && Position(q, t) == Position(p, t) && Position(q.up, Upper(q, t)) == Position(p.up, Upper(p, t))
            && q.up == p.up && q.color == p.color && q.entry == p.entry && (q.InLeft? <==> p.InLeft?)
  {
    hide Ahead;
    AheadSize(p);
    AheadSize(WithSibling(p, x));
  }

  /** The node's place after the sibling was lifted over the parent. */
  function Lifted(p: Path): Path
    requires !p.Top? && Sibling(p).Branch?
  {
    var Branch(sl, sc, se, sr) := Sibling(p);
    if p.InLeft? then InLeft(InLeft(p.up, sc, se, sr), p.color, p.entry, sl)
    else InRight(sr, p.color, p.entry, InRight(sl, sc, se, p.up))
  }

  lemma LiftedAt(p: Path, t: Tree)
    requires t.Branch? && !p.Top? && Sibling(p).Branch?
    ensures var s, i, w, q := Spots(p, t), Position(p.up, Upper(p, t)), SiblingAt(p, t), Lifted(p);
            && Spots(q, t) == Raised(s, w, i) && Position(q, t) == Position(p, t)
            && Position(q.up, Upper(q, t)) == i
  {
    hide Layout, Ahead, Behind, Under, Plug, Raised, Spots, Position, Size, LeftAt, RightAt;
    var x, q := Upper(p, t), Lifted(p);
    Higher(p, t);
    Higher(q, t);
    Higher(q.up, Upper(q, t));
    Halves(p.up, x);
    if p.InLeft? {
      RotatedLeft(p.up, x);
      Halves(p.up, Rotated(x, false));
    } else {
      RotatedRight(p.up, x);
      Halves(p.up, Rotated(x, true));
    }
    LiftedPosition(p, t);
  }

  lemma LiftedPosition(p: Path, t: Tree)
    requires t.Branch? && !p.Top? && Sibling(p).Branch?
    ensures Position(Lifted(p), t) == Position(p, t)
  {
    hide Ahead;
    AheadSize(p);
    AheadSize(Lifted(p));
    AheadSize(Lifted(p).up);
    assert Size(Sibling(p)) == Size(Sibling(p).left) + 1 + Size(Sibling(p).right);
    PositionIs(p, t);
    PositionIs(Lifted(p), t);
  }

  /** The sibling's spot, colour and children. */
  lemma SiblingFacts(p: Path, t: Tree, left: bool, sentinel: Color)
    requires t.Branch? && !p.Top? && Sibling(p).Branch?
    ensures var s, w, u := Spots(p, t), SiblingAt(p, t), Sibling(p);
            && w < |s| && s[w].color == u.color
            && (HasChild(s, w, left) <==> Side(u, left).Branch?)
            && (RedChild(s, w, left, sentinel) <==> ColorOf(Side(u, left), sentinel) == Red)
            && (Side(u, left).Branch? ==>
                  && SideAt(SiblingPlace(p, t), u, left) < |s|
                  && forall j :: Child(s, w, j) && (j < w) == left <==> j == SideAt(SiblingPlace(p, t), u, left))
            && (w < Position(p, t) <==> p.InRight?) && w != Position(p, t)
            && (Side(u, left).Branch? ==>
                  Child(s, w, NephewAt(p, t, left)) && (NephewAt(p, t, left) < w) == left)
  {
    hide Layout, Ahead, Behind, Child, Plug, Spots, Position, LeftAt, RightAt, Under, HasChild, RedChild;
    var u, q := Sibling(p), SiblingPlace(p, t);
    InSibling(p, t, u);
    ChildColors(q, u, left, sentinel);
    var s, w := Spots(p, t), SiblingAt(p, t);
    assert Spots(q, u) == s && Position(q, u) == w;
    if Side(u, left).Branch? {
      assert Child(s, w, SideAt(q, u, left));
      assert forall j :: Child(s, w, j) && (j < w) == left ==> j == SideAt(q, u, left);
    }
    Siblings(p, t);
    SiblingSide(p, t);
  }

  lemma SiblingSide(p: Path, t: Tree)
    requires t.Branch? && !p.Top? && Sibling(p).Branch?
    ensures if p.InLeft? then Position(p, t) < SiblingAt(p, t) else SiblingAt(p, t) < Position(p, t)
  {
    hide Layout, Ahead, Behind, Child, Plug, Spots, Position, LeftAt, RightAt, Under;
    var x := Upper(p, t);
    Children(p.up, x);
    Halves(p.up, x);
    Positions(p, t);
  }

  // ---------------------------------------------------------------------------------------
  // The cases of the loop are turns
  // ---------------------------------------------------------------------------------------

  /** The position of the parent. */
  function ParentAt(p: Path, t: Tree): nat
    requires !p.Top?
  {
    Position(p.up, Upper(p, t))
  }

  /** Sibling and parent painted, in this order. */
  function Dyed(p: Path, sibling: Color, parent: Color): Path
    requires !p.Top? && Sibling(p).Branch?
  {
    var s := Sibling(p).(color := sibling);
    if p.InLeft? then p.(right := s, color := parent) else p.(left := s, color := parent)
  }

  lemma DyedAt(p: Path, t: Tree, sibling: Color, parent: Color)
    requires t.Branch? && !p.Top? && Sibling(p).Branch?
    ensures var s, q := Spots(p, t), Dyed(p, sibling, parent);
            && SiblingAt(p, t) < |s| && ParentAt(p, t) < |s|
            && Spots(q, t) == Painted(Painted(s, SiblingAt(p, t), sibling), ParentAt(p, t), parent)
            && Position(q, t) == Position(p, t) && ParentAt(q, t) == ParentAt(p, t)
            && SiblingAt(q, t) == SiblingAt(p, t)
  {
    hide Layout, Ahead, Behind, Under, Plug, Painted, Spots, Position, Size, SiblingAt;
    var q := WithSibling(p, Sibling(p).(color := sibling));
    PaintedSibling(p, t, sibling);
    PaintedParent(q, t, parent);
    DyedSibling(q, t, parent);
  }

  lemma DyedSibling(p: Path, t: Tree, c: Color)
    requires t.Branch? && !p.Top?
    ensures SiblingAt(p.(color := c), t) == SiblingAt(p, t)
  {
  }

  /** The node's place once its sibling is not red. */
  function Rest(p: Path): Path
    requires !p.Top?
  {
    if IsRed(Sibling(p)) then Lifted(Dyed(p, Black, Red)) else p
  }

  lemma ExposedAt(p: Path, t: Tree, sentinel: Color)
    requires t.Branch? && !p.Top? && (Sibling(p).Branch? || sentinel == Black)
    ensures Exposed(At(p, t, sentinel), ParentAt(p, t), At(Rest(p), t, sentinel))
    ensures !Rest(p).Top? && ParentAt(Rest(p), t) == ParentAt(p, t)
  {
    hide Layout, Ahead, Behind, Under, Child, Plug, Painted, Raised, Spots, Position, Size, SiblingAt, Dyed;
    var x, i := At(p, t, sentinel), ParentAt(p, t);
    Siblings(p, t);
    Elders(p, t);
    if Sibling(p).Branch? {
      var w := SiblingAt(p, t);
      assert OtherChild(x.spots, x.node, i, w);
      if IsRed(Sibling(p)) {
        var q := Dyed(p, Black, Red);
        DyedAt(p, t, Black, Red);
        DyedKeeps(p, Black, Red);
        LiftedAt(q, t);
      }
      assert Exposes(x, i, w, At(Rest(p), t, sentinel));
    }
  }

  lemma DyedKeeps(p: Path, sibling: Color, parent: Color)
    requires !p.Top? && Sibling(p).Branch?
    ensures var q := Dyed(p, sibling, parent);
            && !q.Top? && q.up == p.up && q.color == parent && q.entry == p.entry && (q.InLeft? <==> p.InLeft?)
            && Sibling(q) == Sibling(p).(color := sibling) && !Lifted(q).Top?
  {
  }

  /** What the loop leaves from here on, with a sibling that is not red. */
  function RestOf(p: Path, t: Tree, sentinel: Color): (Tree, Color)
    requires t.Branch? && !p.Top?
  {
    if p.InLeft? then FixLeft(p.up, p.color, p.entry, p.right, t, sentinel)
    else FixRight(p.up, p.color, p.entry, p.left, t, sentinel)
  }

  lemma FixupRest(p: Path, t: Tree, sentinel: Color)
    requires t.Branch? && t.color == Black && !p.Top?
    ensures DeleteFixup(p, t, sentinel) ==
        if Sibling(p).Leaf? && sentinel == Red then (CutOff(p.up), Black) else RestOf(Rest(p), t, sentinel)
  {
    hide FixLeft, FixRight, CutOff;
  }

  /** The tree that the loop climbs to. */
  function Climbed(p: Path, t: Tree): (r: Tree)
    requires !p.Top?
    ensures r.Branch? && r.color == p.color
  {
    Upper(WithSibling(p, Redden(Sibling(p))), t)
  }

  lemma ClimbedAt(p: Path, t: Tree, sentinel: Color)
    requires t.Branch? && !p.Top? && BlackChildren(Sibling(p), sentinel)
    ensures var sentinel' := if Sibling(p).Leaf? then Red else sentinel;
            && ClimbsOn(At(p, t, sentinel), ParentAt(p, t), At(p.up, Climbed(p, t), sentinel'))
            && RestOf(p, t, sentinel) == DeleteFixup(p.up, Climbed(p, t), sentinel')
  {
    hide Layout, Ahead, Behind, Under, Child, Plug, Painted, Raised, Spots, Position, Size, SiblingAt, HasChild,
        RedChild;
    hide DeleteFixup;
    var x, i, u := At(p, t, sentinel), ParentAt(p, t), Sibling(p);
    Siblings(p, t);
    Higher(p, t);
    if u.Branch? {
      var w, q := SiblingAt(p, t), WithSibling(p, u.(color := Red));
      assert OtherChild(x.spots, x.node, i, w);
      PaintedSibling(p, t, Red);
      Higher(q, t);
      SiblingFacts(p, t, true, sentinel);
      SiblingFacts(p, t, false, sentinel);
      assert !RedChild(x.spots, w, true, sentinel) && !RedChild(x.spots, w, false, sentinel);
      assert Climbs(x, i, w, At(p.up, Climbed(p, t), sentinel));
    }
  }

  lemma CutAt(p: Path, t: Tree)
    requires t.Branch? && !p.Top?
    ensures CutsAt(Spots(p, t), ParentAt(p, t), Layout(CutOff(p.up), 0)) && ParentAt(p, t) < |Spots(p, t)|
    ensures IsRoot(Spots(p, t), ParentAt(p, t)) <==> p.up.Top?
    ensures Spots(p, t)[ParentAt(p, t)].color == p.color
  {
    hide Layout, Ahead, Behind, Under, Plug, Spots, Position, Size, RootBlack, CutsAt;
    Higher(p, t);
    Elders(p, t);
    CutHere(p.up, Upper(p, t));
  }

  lemma CutHere(p: Path, t: Tree)
    requires t.Branch?
    ensures CutsAt(Spots(p, t), Position(p, t), Layout(CutOff(p), 0))
  {
    hide Layout, Ahead, Behind, Under, Plug, Spots, Position, Size, RootBlack;
    var s, lo, hi := Spots(p, t), |Ahead(p)|, |Ahead(p)| + Size(t);
    Subtree(p, t);
    SpotsSplit(p, t);
    CutSpots(p);
    Lower(t, Depth(p), Depth(p));
    assert s[..lo] + s[hi..] == Ahead(p) + Behind(p);
  }

  lemma CutSpots(p: Path)
    ensures Layout(CutOff(p), 0) == RootBlack(Ahead(p) + Behind(p))
  {
    RootBlackened(Plug(p, Leaf));
    SpotsSplit(p, Leaf);
    assert Ahead(p) + [] + Behind(p) == Ahead(p) + Behind(p);
  }

  /** The position of the sibling's child on this side. */
  function NephewAt(p: Path, t: Tree, left: bool): nat
    requires !p.Top? && Sibling(p).Branch?
  {
    SideAt(SiblingPlace(p, t), Sibling(p), left)
  }

  function NephewPainted(p: Path, left: bool, c: Color): (q: Path)
    requires !p.Top? && Sibling(p).Branch? && Side(Sibling(p), left).Branch?
    ensures !q.Top? && Sibling(q).Branch? && Side(Sibling(q), left).Branch?
  {
    WithSibling(p, SidePainted(Sibling(p), left, c))
  }

  lemma NephewPaintedAt(p: Path, t: Tree, left: bool, c: Color)
    requires t.Branch? && !p.Top? && Sibling(p).Branch? && Side(Sibling(p), left).Branch?
    ensures var s, q, n := Spots(p, t), NephewPainted(p, left, c), NephewAt(p, t, left);
            && n < |s| && Spots(q, t) == Painted(s, n, c)
            && Position(q, t) == Position(p, t) && ParentAt(q, t) == ParentAt(p, t)
            && SiblingAt(q, t) == SiblingAt(p, t) && NephewAt(q, t, left) == n
            && q.up == p.up && q.color == p.color && q.entry == p.entry && (q.InLeft? <==> p.InLeft?)
  {
    hide Layout, Ahead, Behind, Under, Plug, Painted, Spots, Position, SideAt, SiblingAt, SiblingPlace, SidePainted;
    var u, r := Sibling(p), SiblingPlace(p, t);
    var x := SidePainted(u, left, c);
    InSibling(p, t, u);
    InSibling(p, t, x);
    SideSize(u, left, c);
    SiblingSwapped(p, t, x);
    PaintedSide(r, u, left, c);
  }

  lemma SideSize(t: Tree, left: bool, c: Color)
    requires t.Branch? && Side(t, left).Branch?
    ensures Size(SidePainted(t, left, c)) == Size(t) && SidePainted(t, left, c).Branch?
    ensures Side(SidePainted(t, left, c), left).Branch?
  {
  }

  lemma BlackenedSpots(p: Path, t: Tree)
    ensures Layout(Blacken(Plug(p, t)), 0) == RootBlack(Spots(p, t))
  {
    RootBlackened(Plug(p, t));
  }

  /** What the far child turns the loop's end into, on values. */
  lemma FarIs(p: Path, t: Tree, sentinel: Color)
    requires t.Branch? && !p.Top? && Sibling(p).Branch? && ColorOf(Side(Sibling(p), p.InRight?), sentinel) == Red
    ensures var q, far := Dyed(p, p.color, Black), Side(Sibling(p), p.InRight?);
            && !q.Top? && Sibling(q).Branch? && Side(Sibling(q), p.InRight?) == far
            && (q.InLeft? <==> p.InLeft?)
            && RestOf(p, t, sentinel) ==
               if far.Leaf? then (Blacken(Plug(Lifted(q), t)), Black)
               else (Blacken(Plug(Lifted(NephewPainted(q, p.InRight?, Black)), t)), sentinel)
  {
    hide DeleteFixup;
  }

  lemma FarAt(p: Path, t: Tree, sentinel: Color)
    requires t.Branch? && !p.Top? && Sibling(p).Branch? && ColorOf(Side(Sibling(p), p.InRight?), sentinel) == Red
    ensures LiftsSibling(At(p, t, sentinel), ParentAt(p, t), SiblingAt(p, t),
        Stage(Layout(RestOf(p, t, sentinel).0, 0), Position(p, t), RestOf(p, t, sentinel).1))
  {
    hide Layout, Ahead, Behind, Under, Child, Plug, Painted, Raised, Spots, Position, Size, SiblingAt, HasChild,
        RedChild,
        Dyed, RestOf, NephewPainted, SiblingPlace, SideAt, Lifted;
    var far, left := Side(Sibling(p), p.InRight?), p.InRight?;
    var q := Dyed(p, p.color, Black);
    Siblings(p, t);
    Elders(p, t);
    SiblingFacts(p, t, left, sentinel);
    FarIs(p, t, sentinel);
    DyedAt(p, t, p.color, Black);
    SiblingFacts(q, t, left, sentinel);
    if far.Branch? {
      var r := NephewPainted(q, left, Black);
      NephewPaintedAt(q, t, left, Black);
      LiftedAt(r, t);
      BlackenedSpots(Lifted(r), t);
      var f, s := NephewAt(q, t, left), Spots(q, t);
      assert Child(s, SiblingAt(p, t), f) && (f < SiblingAt(p, t)) == left;
    } else {
      LiftedAt(q, t);
      BlackenedSpots(Lifted(q), t);
    }
  }

  /** The sibling's child lifted over the sibling. */
  function Swapped(p: Path, left: bool): (q: Path)
    requires !p.Top? && Sibling(p).Branch? && Side(Sibling(p), left).Branch?
    ensures !q.Top? && Sibling(q).Branch?
  {
    WithSibling(p, Rotated(Sibling(p), left))
  }

  lemma SwappedAt(p: Path, t: Tree, left: bool)
    requires t.Branch? && !p.Top? && Sibling(p).Branch? && Side(Sibling(p), left).Branch?
    ensures var s, q, n := Spots(p, t), Swapped(p, left), NephewAt(p, t, left);
            && Spots(q, t) == Raised(s, n, SiblingAt(p, t)) && SiblingAt(q, t) == n
            && Position(q, t) == Position(p, t) && ParentAt(q, t) == ParentAt(p, t)
  {
    hide Layout, Ahead, Behind, Under, Plug, Raised, Spots, Position, SiblingAt, SiblingPlace;
    var u, r := Sibling(p), SiblingPlace(p, t);
    var x := Rotated(u, left);
    InSibling(p, t, u);
    InSibling(p, t, x);
    SiblingSwapped(p, t, x);
    if left { RotatedRight(r, u); } else { RotatedLeft(r, u); }
  }

  /** What the near child turns the loop's end into, on values. */
  lemma NearIs(p: Path, t: Tree, sentinel: Color)
    requires t.Branch? && !p.Top? && Sibling(p).Branch?
    requires ColorOf(Side(Sibling(p), p.InRight?), sentinel) == Black && IsRed(Side(Sibling(p), p.InLeft?))
    ensures var q := Dyed(NephewPainted(p, p.InLeft?, p.color), Black, Black);
            && !q.Top? && Sibling(q).Branch? && Side(Sibling(q), p.InLeft?).Branch?
            && RestOf(p, t, sentinel) == (Blacken(Plug(Lifted(Swapped(q, p.InLeft?)), t)), sentinel)
  {
    hide DeleteFixup;
  }

  lemma NearAt(p: Path, t: Tree, sentinel: Color)
    requires t.Branch? && !p.Top? && Sibling(p).Branch?
    requires ColorOf(Side(Sibling(p), p.InRight?), sentinel) == Black && IsRed(Side(Sibling(p), p.InLeft?))
    ensures LiftsNephew(At(p, t, sentinel), ParentAt(p, t), SiblingAt(p, t), NephewAt(p, t, p.InLeft?),
        Stage(Layout(RestOf(p, t, sentinel).0, 0), Position(p, t), RestOf(p, t, sentinel).1))
  {
    hide Layout, Ahead, Behind, Under, Child, Plug, Painted, Raised, Spots, Position, Size, SiblingAt, HasChild,
        RedChild,
        Dyed, RestOf, NephewPainted, SiblingPlace, NephewAt, SideAt, Lifted, Swapped;
    var near := p.InLeft?;
    var q := NephewPainted(p, near, p.color);
    var r := Dyed(q, Black, Black);
    Siblings(p, t);
    Elders(p, t);
    SiblingFacts(p, t, p.InRight?, sentinel);
    SiblingFacts(p, t, near, sentinel);
    NearIs(p, t, sentinel);
    NephewPaintedAt(p, t, near, p.color);
    DyedAt(q, t, Black, Black);
    DyedNephew(q, t, near, Black, Black);
    SwappedAt(r, t, near);
    LiftedAt(Swapped(r, near), t);
    BlackenedSpots(Lifted(Swapped(r, near)), t);
  }

  lemma DyedNephew(p: Path, t: Tree, left: bool, sibling: Color, parent: Color)
    requires t.Branch? && !p.Top? && Sibling(p).Branch? && Side(Sibling(p), left).Branch?
    ensures var q := Dyed(p, sibling, parent);
            && !q.Top? && Sibling(q).Branch? && Side(Sibling(q), left).Branch?
            && NephewAt(q, t, left) == NephewAt(p, t, left)
  {
    hide Ahead;
    var q := Dyed(p, sibling, parent);
    AheadSize(SiblingPlace(p, t));
    AheadSize(SiblingPlace(q, t));
    Halves(SiblingPlace(p, t), Sibling(p));
    Halves(SiblingPlace(q, t), Sibling(q));
  }

  lemma CutIs(p: Path, t: Tree, sentinel: Color)
    requires t.Branch? && !p.Top? && !BlackChildren(Sibling(p), sentinel)
    requires Sibling(p).Branch? ==>
               ColorOf(Side(Sibling(p), p.InRight?), sentinel) == Black && Side(Sibling(p), p.InLeft?).Leaf?
    ensures sentinel == Red
    ensures RestOf(p, t, sentinel) ==
        (CutOff(p.up), if Sibling(p).Leaf? || p.up.Top? then Black else p.color)
  {
    hide DeleteFixup, CutOff;
  }

  lemma LeavesAt(p: Path, t: Tree, sentinel: Color)
    requires t.Branch? && !p.Top? && !BlackChildren(Sibling(p), sentinel)
    ensures Leaves(At(p, t, sentinel), ParentAt(p, t),
        Stage(Layout(RestOf(p, t, sentinel).0, 0), Position(p, t), RestOf(p, t, sentinel).1))
  {
    hide Layout, Ahead, Behind, Under, Child, Plug, Painted, Raised, Spots, Position, Size, SiblingAt, HasChild,
        RedChild,
        RestOf, NephewAt, SideAt, LiftsSibling, LiftsNephew, CutsAt;
    var u := Sibling(p);
    if u.Branch? && ColorOf(Side(u, p.InRight?), sentinel) == Red {
      FarAt(p, t, sentinel);
    } else if u.Branch? && Side(u, p.InLeft?).Branch? {
      NearAt(p, t, sentinel);
    } else {
      var x, i, w := At(p, t, sentinel), ParentAt(p, t), SiblingAt(p, t);
      CutIs(p, t, sentinel);
      CutAt(p, t);
      Siblings(p, t);
      if u.Branch? {
        SiblingFacts(p, t, p.InRight?, sentinel);
        SiblingFacts(p, t, p.InLeft?, sentinel);
        assert OtherChild(x.spots, x.node, i, w);
        assert !RedChild(x.spots, w, w < x.node, Red) && !HasChild(x.spots, w, x.node < w);
      }
      assert Cuts(x, i, Stage(Layout(RestOf(p, t, sentinel).0, 0), Position(p, t), RestOf(p, t, sentinel).1));
    }
  }

  // ---------------------------------------------------------------------------------------
  // The whole loop
  // ---------------------------------------------------------------------------------------

  /** Turn by turn from `x` to the last turn, which leaves `y`. */
  ghost predicate DeleteChain(x: Stage, run: seq<Stage>, y: Stage) {
    && run != [] && run[0] == x && LastTurn(run[|run| - 1], y)
    && forall i {:trigger run[i]} :: 0 < i < |run| ==> DeleteTurn(run[i - 1], run[i])
  }

  lemma EndsAt(p: Path, t: Tree, sentinel: Color)
    requires t.Branch?
    ensures Ends(At(p, t, sentinel)) <==> p.Top? || t.color == Red
  {
    hide Layout, Ahead, Behind, Under, Child, Plug, Spots, Position;
    Parent(p, t);
    Subtree(p, t);
  }

  lemma EndAt(p: Path, t: Tree, sentinel: Color)
    requires t.Branch? && (p.Top? || t.color == Red)
    ensures LastTurn(At(p, t, sentinel),
        Stage(Layout(DeleteFixup(p, t, sentinel).0, 0), Position(p, t), DeleteFixup(p, t, sentinel).1))
  {
    hide Layout, Ahead, Behind, Under, Child, Plug, Painted, Position, Ends;
    EndsAt(p, t, sentinel);
    Repainted(p, t, Black);
  }

  lemma CutsFirst(p: Path, t: Tree, sentinel: Color)
    requires t.Branch? && t.color == Black && !p.Top? && Sibling(p).Leaf? && sentinel == Red
    ensures LastTurn(At(p, t, sentinel), Stage(Layout(CutOff(p.up), 0), Position(p, t), Black))
  {
    hide Layout, Ahead, Behind, Under, Child, Plug, Painted, Position, Ends, Spots, CutsAt;
    EndsAt(p, t, sentinel);
    CutAt(p, t);
    Siblings(p, t);
    Elders(p, t);
    assert Cuts(At(p, t, sentinel), ParentAt(p, t), Stage(Layout(CutOff(p.up), 0), Position(p, t), Black));
  }

  lemma GoesOn(p: Path, t: Tree, sentinel: Color)
    requires t.Branch? && t.color == Black && !p.Top? && (Sibling(p).Branch? || sentinel == Black)
    ensures var q := Rest(p);
            && !q.Top?
            && (if BlackChildren(Sibling(q), sentinel) then
                  DeleteTurn(At(p, t, sentinel),
                      At(q.up, Climbed(q, t), if Sibling(q).Leaf? then Red else sentinel))
                else
                  LastTurn(At(p, t, sentinel),
                      Stage(Layout(RestOf(q, t, sentinel).0, 0), Position(q, t), RestOf(q, t, sentinel).1)))
  {
    hide Layout, Ahead, Behind, Under, Child, Plug, Painted, Position, Ends, Spots, Exposed, ClimbsOn, Leaves, Rest,
        RestOf, Climbed, BlackChildren;
    var q, x, i := Rest(p), At(p, t, sentinel), ParentAt(p, t);
    EndsAt(p, t, sentinel);
    Elders(p, t);
    ExposedAt(p, t, sentinel);
    Siblings(p, t);
    if BlackChildren(Sibling(q), sentinel) {
      ClimbedAt(q, t, sentinel);
    } else {
      LeavesAt(q, t, sentinel);
    }
  }

  lemma RestDepth(p: Path)
    requires !p.Top?
    ensures !Rest(p).Top? && Depth(Rest(p).up) == Depth(p.up) + (if IsRed(Sibling(p)) then 1 else 0)
    ensures IsRed(Sibling(p)) ==> Rest(p).color == Red
  {
  }

  /**
   The delete fixup of every tree, from a node of every colour and with a sentinel of every colour: a
   chain of turns and a last one, which together fix every spot of the tree that is left and the
   colour of the sentinel.
   */
  lemma {:induction false} DeleteFixupChain(p: Path, t: Tree, sentinel: Color) returns (run: seq<Stage>, y: Stage)
    requires t.Branch?
    ensures DeleteChain(At(p, t, sentinel), run, y)
    ensures y.spots == Layout(DeleteFixup(p, t, sentinel).0, 0) && y.sentinel == DeleteFixup(p, t, sentinel).1
    decreases 2 * Depth(p) + One(t.color)
  {
    hide Layout, DeleteTurn, LastTurn, Plug, DeleteFixup, Rest, RestOf, Climbed, BlackChildren, CutOff;
    var x := At(p, t, sentinel);
    run := [x];
    if p.Top? || t.color == Red {
      EndAt(p, t, sentinel);
      y := Stage(Layout(DeleteFixup(p, t, sentinel).0, 0), Position(p, t), DeleteFixup(p, t, sentinel).1);
    } else {
      FixupRest(p, t, sentinel);
      if Sibling(p).Leaf? && sentinel == Red {
        CutsFirst(p, t, sentinel);
        y := Stage(Layout(CutOff(p.up), 0), Position(p, t), Black);
      } else {
        var q := Rest(p);
        GoesOn(p, t, sentinel);
        RestDepth(p);
        if BlackChildren(Sibling(q), sentinel) {
          ClimbedAt(q, t, sentinel);
          var rest;
          rest, y := DeleteFixupChain(q.up, Climbed(q, t), if Sibling(q).Leaf? then Red else sentinel);
          run := [x] + rest;
        } else {
          y := Stage(Layout(RestOf(q, t, sentinel).0, 0), Position(q, t), RestOf(q, t, sentinel).1);
        }
      }
    }
  }

  // ---------------------------------------------------------------------------------------
  // No other turns
  // ---------------------------------------------------------------------------------------

  lemma OnlySibling(p: Path, t: Tree, i: int)
    requires t.Branch? && !p.Top?
    ensures Child(Spots(p, t), i, Position(p, t)) <==> i == ParentAt(p, t)
    ensures forall w :: OtherChild(Spots(p, t), Position(p, t), ParentAt(p, t), w) <==>
              Sibling(p).Branch? && w == SiblingAt(p, t)
    ensures HasSibling(At(p, t, Red), ParentAt(p, t)) <==> Sibling(p).Branch?
  {
    hide Layout, Ahead, Behind, Under, Child, Plug, Position, Spots, SiblingAt;
    Parent(p, t);
    Siblings(p, t);
  }

  lemma SentinelAside(p: Path, t: Tree, i: int)
    ensures HasSibling(At(p, t, Black), i) <==> HasSibling(At(p, t, Red), i)
  {
  }

  lemma OnlyExposed(p: Path, t: Tree, sentinel: Color, x1: Stage)
    requires t.Branch? && !p.Top? && Exposed(At(p, t, sentinel), ParentAt(p, t), x1)
    ensures (Sibling(p).Branch? || sentinel == Black) && x1 == At(Rest(p), t, sentinel)
  {
    hide Layout, Ahead, Behind, Under, Child, Plug, Position, Spots, SiblingAt, Dyed, Lifted, OtherChild, Painted,
        Raised;
    OnlySibling(p, t, ParentAt(p, t));
    SentinelAside(p, t, ParentAt(p, t));
    if Sibling(p).Branch? {
      ExposedAt(p, t, sentinel);
    }
  }

  lemma OnlyNephew(p: Path, t: Tree, left: bool)
    requires t.Branch? && !p.Top? && Sibling(p).Branch?
    ensures forall j :: Child(Spots(p, t), SiblingAt(p, t), j) && (j < SiblingAt(p, t)) == left <==>
              Side(Sibling(p), left).Branch? && j == NephewAt(p, t, left)
  {
    hide Layout, Ahead, Behind, Under, Child, Plug, Position, Spots, SiblingAt, RedChild, SiblingPlace, SideAt;
    SiblingFacts(p, t, left, Red);
    var s, w := Spots(p, t), SiblingAt(p, t);
    assert HasChild(s, w, left) <==> Side(Sibling(p), left).Branch?;
    assert Side(Sibling(p), left).Branch? ==> NephewAt(p, t, left) == SideAt(SiblingPlace(p, t), Sibling(p), left);
    assert forall j :: Child(s, w, j) && (j < w) == left ==> Side(Sibling(p), left).Branch?;
    assert forall j :: Child(s, w, j) && (j < w) == left ==> j == NephewAt(p, t, left);
  }

  lemma OnlyCut(s: seq<Spot>, p: int, r: seq<Spot>, q: seq<Spot>)
    requires CutsAt(s, p, r) && CutsAt(s, p, q) && Under(s, p, p)
    ensures r == q
  {
    hide Under, RootBlack;
    var lo, hi :| 0 <= lo <= hi <= |s| && (forall j :: Under(s, p, j) <==> lo <= j < hi)
        && r == RootBlack(s[..lo] + s[hi..]);
    var lo', hi' :| 0 <= lo' <= hi' <= |s| && (forall j :: Under(s, p, j) <==> lo' <= j < hi')
        && q == RootBlack(s[..lo'] + s[hi'..]);
    assert Under(s, p, lo) && Under(s, p, lo') && Under(s, p, hi - 1) && Under(s, p, hi' - 1);
  }

  /** From here the loop does what `RestOf` says, or climbs. */
  lemma OnlyClimb(p: Path, t: Tree, sentinel: Color, y: Stage)
    requires t.Branch? && !p.Top? && ClimbsOn(At(p, t, sentinel), ParentAt(p, t), y)
    ensures BlackChildren(Sibling(p), sentinel)
    ensures y == At(p.up, Climbed(p, t), if Sibling(p).Leaf? then Red else sentinel)
  {
    hide Layout, Ahead, Behind, Under, Child, Plug, Position, Spots, SiblingAt, Painted, OtherChild, RedChild, Climbed;
    OnlySibling(p, t, ParentAt(p, t));
    SentinelAside(p, t, ParentAt(p, t));
    if Sibling(p).Branch? {
      SiblingFacts(p, t, true, sentinel);
      SiblingFacts(p, t, false, sentinel);
      ClimbIs(p, t, sentinel);
    } else {
      ClimbIs(p, t, sentinel);
    }
  }

  lemma ClimbIs(p: Path, t: Tree, sentinel: Color)
    requires t.Branch? && !p.Top? && BlackChildren(Sibling(p), sentinel)
    ensures ClimbsOn(At(p, t, sentinel), ParentAt(p, t),
        At(p.up, Climbed(p, t), if Sibling(p).Leaf? then Red else sentinel))
  {
    hide ClimbsOn, At, Climbed;
    ClimbedAt(p, t, sentinel);
  }

  lemma PaintedChild(s: seq<Spot>, i: int, c: Color, a: int, b: int)
    requires 0 <= i < |s|
    ensures Child(Painted(s, i, c), a, b) <==> Child(s, a, b)
  {
    assert forall m :: 0 <= m < |s| ==> Painted(s, i, c)[m].depth == s[m].depth;
    assert Under(Painted(s, i, c), a, b) ==> Under(s, a, b);
    assert Under(s, a, b) ==> Under(Painted(s, i, c), a, b);
  }

  lemma PaintedTwice(s: seq<Spot>, i: int, c: Color, j: int, d: Color, a: int)
    requires 0 <= i < |s| && 0 <= j < |s|
    ensures forall b :: Child(Painted(Painted(s, i, c), j, d), a, b) <==> Child(s, a, b)
  {
    hide Child, Painted;
    forall b ensures Child(Painted(Painted(s, i, c), j, d), a, b) <==> Child(s, a, b) {
      PaintedChild(s, i, c, a, b);
      PaintedChild(Painted(s, i, c), j, d, a, b);
    }
  }

  lemma OnlyFar(p: Path, t: Tree, sentinel: Color, y: Stage)
    requires t.Branch? && !p.Top? && Sibling(p).Branch?
    requires LiftsSibling(At(p, t, sentinel), ParentAt(p, t), SiblingAt(p, t), y)
    ensures ColorOf(Side(Sibling(p), p.InRight?), sentinel) == Red
    ensures y.spots == Layout(RestOf(p, t, sentinel).0, 0) && y.sentinel == RestOf(p, t, sentinel).1
  {
    hide Layout, Ahead, Behind, Under, Child, Plug, Position, Spots, SiblingAt, RedChild, Painted, Raised, RootBlack,
        NephewAt, RestOf;
    var far := p.InRight?;
    SiblingFacts(p, t, far, sentinel);
    FarAt(p, t, sentinel);
    OnlyNephew(p, t, far);
    var y' := Stage(Layout(RestOf(p, t, sentinel).0, 0), Position(p, t), RestOf(p, t, sentinel).1);
    var s, w := Spots(p, t), SiblingAt(p, t);
    assert forall j, k :: (Child(s, w, j) && (j < w) == far && Child(s, w, k) && (k < w) == far) ==> j == k;
    OneFar(At(p, t, sentinel), ParentAt(p, t), SiblingAt(p, t), y, y');
  }

  lemma OneFar(x: Stage, p: int, w: int, y: Stage, y': Stage)
    requires LiftsSibling(x, p, w, y) && LiftsSibling(x, p, w, y')
    requires forall j, k ::
               (Child(x.spots, w, j) && (j < w) == (w < x.node) && Child(x.spots, w, k) && (k < w) == (w < x.node))
               ==> j == k
    ensures y == y'
  {
    hide Painted, Raised, RootBlack, RedChild;
    assert 0 <= p < |x.spots| && 0 <= w < |x.spots|;
    var s := Painted(Painted(x.spots, w, x.spots[p].color), p, Black);
    PaintedTwice(x.spots, w, x.spots[p].color, p, Black, w);
    if HasChild(s, w, w < x.node) {
      var f :| Child(s, w, f) && (f < w) == (w < x.node)
          && y == Stage(RootBlack(Raised(Painted(s, f, Black), w, p)), x.node, x.sentinel);
      var f' :| Child(s, w, f') && (f' < w) == (w < x.node)
          && y' == Stage(RootBlack(Raised(Painted(s, f', Black), w, p)), x.node, x.sentinel);
    }
  }

  lemma OnlyNear(p: Path, t: Tree, sentinel: Color, n: int, y: Stage)
    requires t.Branch? && !p.Top? && Sibling(p).Branch?
    requires LiftsNephew(At(p, t, sentinel), ParentAt(p, t), SiblingAt(p, t), n, y)
    ensures ColorOf(Side(Sibling(p), p.InRight?), sentinel) == Black && IsRed(Side(Sibling(p), p.InLeft?))
    ensures y.spots == Layout(RestOf(p, t, sentinel).0, 0) && y.sentinel == RestOf(p, t, sentinel).1
  {
    hide Layout, Ahead, Behind, Under, Child, Plug, Position, Spots, SiblingAt, RedChild, Painted, Raised, RootBlack,
        NephewAt, RestOf;
    SiblingFacts(p, t, p.InRight?, sentinel);
    SiblingFacts(p, t, p.InLeft?, sentinel);
    OnlyNephew(p, t, p.InLeft?);
    NearAt(p, t, sentinel);
  }

  lemma OnlyCuts(p: Path, t: Tree, sentinel: Color, y: Stage)
    requires t.Branch? && !p.Top? && Cuts(At(p, t, sentinel), ParentAt(p, t), y)
    ensures sentinel == Red && !BlackChildren(Sibling(p), sentinel)
    ensures Sibling(p).Branch? ==>
              ColorOf(Side(Sibling(p), p.InRight?), sentinel) == Black && Side(Sibling(p), p.InLeft?).Leaf?
    ensures y.spots == Layout(RestOf(p, t, sentinel).0, 0) && y.sentinel == RestOf(p, t, sentinel).1
  {
    hide Layout, Ahead, Behind, Under, Child, Plug, Position, Spots, SiblingAt, RedChild, HasChild, CutsAt, RestOf,
        OtherChild;
    var s, i := Spots(p, t), ParentAt(p, t);
    OnlySibling(p, t, i);
    SentinelAside(p, t, i);
    if Sibling(p).Branch? {
      SiblingFacts(p, t, p.InRight?, sentinel);
      SiblingFacts(p, t, p.InLeft?, sentinel);
    }
    CutAt(p, t);
    CutIs(p, t, sentinel);
    SelfUnder(s, i);
    OnlyCut(s, i, y.spots, Layout(CutOff(p.up), 0));
  }

  lemma SelfUnder(s: seq<Spot>, i: int)
    requires 0 <= i < |s|
    ensures Under(s, i, i)
  {
  }

  lemma OnlyLeaves(p: Path, t: Tree, sentinel: Color, y: Stage)
    requires t.Branch? && !p.Top? && Leaves(At(p, t, sentinel), ParentAt(p, t), y)
    ensures !BlackChildren(Sibling(p), sentinel)
    ensures y.spots == Layout(RestOf(p, t, sentinel).0, 0) && y.sentinel == RestOf(p, t, sentinel).1
  {
    hide Layout, Cuts, LiftsSibling, LiftsNephew, RestOf, Child, Plug, Position, Spots, SiblingAt, OtherChild;
    var x, i := At(p, t, sentinel), ParentAt(p, t);
    OnlySibling(p, t, i);
    if Cuts(x, i, y) {
      OnlyCuts(p, t, sentinel, y);
    } else if w :| LiftsSibling(x, i, w, y) {
      LiftsAside(x, i, w, 0, y);
      OnlyFar(p, t, sentinel, y);
    } else {
      var w, n :| LiftsNephew(x, i, w, n, y);
      LiftsAside(x, i, w, n, y);
      OnlyNear(p, t, sentinel, n, y);
    }
  }

  lemma LiftsAside(x: Stage, p: int, w: int, n: int, y: Stage)
    requires LiftsSibling(x, p, w, y) || LiftsNephew(x, p, w, n, y)
    ensures OtherChild(x.spots, x.node, p, w)
  {
  }

  /** Any chain of turns of the loop leaves what the loop leaves. */
  lemma {:induction false} EveryDeleteChain(p: Path, t: Tree, sentinel: Color, run: seq<Stage>, y: Stage)
    requires t.Branch? && DeleteChain(At(p, t, sentinel), run, y)
    ensures y.spots == Layout(DeleteFixup(p, t, sentinel).0, 0) && y.sentinel == DeleteFixup(p, t, sentinel).1
    decreases |run|
  {
    hide Layout, DeleteTurn, LastTurn, Plug, DeleteFixup, Rest, RestOf, Climbed, BlackChildren, CutOff, At;
    if |run| == 1 {
      OnlyLast(p, t, sentinel, y);
    } else {
      assert DeleteTurn(run[0], run[1]);
      OnlyGoesOn(p, t, sentinel, run[1]);
      FixupRest(p, t, sentinel);
      var q, rest := Rest(p), run[1..];
      assert forall i {:trigger rest[i]} :: 0 < i < |rest| ==> rest[i - 1] == run[i] && rest[i] == run[i + 1];
      ClimbedAt(q, t, sentinel);
      EveryDeleteChain(q.up, Climbed(q, t), if Sibling(q).Leaf? then Red else sentinel, rest, y);
    }
  }

  lemma OnlyGoesOn(p: Path, t: Tree, sentinel: Color, y: Stage)
    requires t.Branch? && DeleteTurn(At(p, t, sentinel), y)
    ensures !p.Top? && t.color == Black && (Sibling(p).Branch? || sentinel == Black) && !Rest(p).Top?
    ensures BlackChildren(Sibling(Rest(p)), sentinel)
    ensures var q := Rest(p); y == At(q.up, Climbed(q, t), if Sibling(q).Leaf? then Red else sentinel)
  {
    hide Layout, Plug, Rest, Climbed, BlackChildren, Child, Exposed, ClimbsOn, Position, Spots, Ends;
    var x := At(p, t, sentinel);
    EndsAt(p, t, sentinel);
    var i, x1 :| Child(x.spots, i, x.node) && Exposed(x, i, x1) && ClimbsOn(x1, i, y);
    OnlySibling(p, t, i);
    OnlyExposed(p, t, sentinel, x1);
    ExposedAt(p, t, sentinel);
    OnlyClimb(Rest(p), t, sentinel, y);
  }

  lemma OnlyLast(p: Path, t: Tree, sentinel: Color, y: Stage)
    requires t.Branch? && LastTurn(At(p, t, sentinel), y)
    ensures y.spots == Layout(DeleteFixup(p, t, sentinel).0, 0) && y.sentinel == DeleteFixup(p, t, sentinel).1
  {
    hide Layout, Plug, Rest, BlackChildren, Child, Exposed, Position, Spots, Ends, DeleteFixup, RestOf, Leaves, Cuts;
    var x := At(p, t, sentinel);
    EndsAt(p, t, sentinel);
    if p.Top? || t.color == Red {
      EndAt(p, t, sentinel);
    } else {
      var i :| Child(x.spots, i, x.node) && LeavesUnder(x, i, y);
      OnlySibling(p, t, i);
      SentinelAside(p, t, i);
      FixupRest(p, t, sentinel);
      if Sibling(p).Leaf? && sentinel == Red {
        OnlyCuts(p, t, sentinel, y);
        CutAt(p, t);
        CutIs(p, t, sentinel);
      } else {
        var x1 :| Exposed(x, i, x1) && Leaves(x1, i, y);
        OnlyExposed(p, t, sentinel, x1);
        ExposedAt(p, t, sentinel);
        OnlyLeaves(Rest(p), t, sentinel, y);
      }
    }
  }

  // ---------------------------------------------------------------------------------------
  // The deletion
  // ---------------------------------------------------------------------------------------

  /** The spot that leaves: the one at `k`, or the next one if both children are there. */
  ghost function Leaver(s: seq<Spot>, k: int): int {
    if HasChild(s, k, true) && HasChild(s, k, false) then k + 1 else k
  }

  /** The spot at `y` is gone, and what was under it is one step higher. */
  ghost function WithoutSpot(s: seq<Spot>, y: int): (r: seq<Spot>)
    requires 0 <= y < |s|
    ensures |r| == |s| - 1
  {
    var risen := seq(|s|, j requires 0 <= j < |s| => if Under(s, y, j) then s[j].(depth := s[j].depth - 1) else s[j]);
    risen[..y] + risen[y + 1..]
  }

  /** The entry of the leaving spot stays, in the place of the deleted one. */
  ghost function Spliced(s: seq<Spot>, k: int): seq<Spot>
    requires 0 <= k < |s| && Leaver(s, k) < |s|
  {
    var y := Leaver(s, k);
    WithoutSpot(if y == k then s else s[k := s[k].(entry := s[y].entry)], y)
  }

  lemma WithoutMiddle(s: seq<Spot>, a: seq<Spot>, l: seq<Spot>, b: seq<Spot>, y: int, l': seq<Spot>)
    requires s == a + l + b && |a| <= y < |a| + |l| && forall j :: Under(s, y, j) <==> |a| <= j < |a| + |l|
    requires |l'| == |l| - 1
    requires forall j {:trigger l'[j]} :: 0 <= j < |l'| ==>
        var i := if j < y - |a| then j else j + 1; l'[j] == l[i].(depth := l[i].depth - 1)
    ensures WithoutSpot(s, y) == a + l' + b
  {
    hide Under;
    var r, q := WithoutSpot(s, y), a + l' + b;
    forall j | 0 <= j < |r| ensures r[j] == q[j] {
      var i := if j < y then j else j + 1;
      assert r[j] == if Under(s, y, i) then s[i].(depth := s[i].depth - 1) else s[i];
      if |a| <= j < |a| + |l'| { assert q[j] == l'[j - |a|]; }
    }
  }

  /** The only child, one step higher. */
  lemma OnlyChild(t: Tree, d: int)
    requires t.Branch? && (t.left.Leaf? || t.right.Leaf?)
    ensures var l, l', k := Layout(t, d), Layout(if t.left.Leaf? then t.right else t.left, d), Size(t.left);
            && |l| == Size(t) && |l'| == |l| - 1
            && forall j {:trigger l'[j]} :: 0 <= j < |l'| ==>
                 var i := if j < k then j else j + 1; l'[j] == l[i].(depth := l[i].depth - 1)
  {
    var x, s := if t.left.Leaf? then t.right else t.left, Spot(t.entry, t.color, d);
    Lower(x, d + 1, d);
    Sizes(t);
    OneSided(t, d);
    hide *;
    Sunk(Layout(t, d), Layout(x, d + 1), Layout(x, d), s, Size(t.left));
  }

  lemma OneSided(t: Tree, d: int)
    requires t.Branch?
    ensures t.left.Leaf? ==> Layout(t, d) == [Spot(t.entry, t.color, d)] + Layout(t.right, d + 1)
    ensures t.right.Leaf? ==> Layout(t, d) == Layout(t.left, d + 1) + [Spot(t.entry, t.color, d)]
  {
  }

  /** One spot before or behind a stretch. */
  lemma Sunk(l: seq<Spot>, m: seq<Spot>, m': seq<Spot>, s: Spot, k: nat)
    requires (k == 0 && l == [s] + m) || (k == |m| && l == m + [s])
    requires ShiftedBy(m, m', -1)
    ensures |m'| == |l| - 1
    ensures forall j {:trigger m'[j]} :: 0 <= j < |m'| ==>
              var i := if j < k then j else j + 1; m'[j] == l[i].(depth := l[i].depth - 1)
  {
    forall j {:trigger m'[j]} | 0 <= j < |m'| ensures m[j] == l[if j < k then j else j + 1] {
    }
  }

  lemma Sizes(t: Tree)
    requires t.Branch?
    ensures Size(t) == Size(t.left) + 1 + Size(t.right)
    ensures t.left.Leaf? ==> Size(t.left) == 0
    ensures t.right.Leaf? ==> Size(t.right) == 0
  {
  }

  /** A node with at most one child is spliced out. */
  lemma SplicedOut(p: Path, t: Tree)
    requires t.Branch? && (t.left.Leaf? || t.right.Leaf?)
    ensures Position(p, t) < |Spots(p, t)|
    ensures Spots(p, if t.left.Leaf? then t.right else t.left) == WithoutSpot(Spots(p, t), Position(p, t))
  {
    hide *;
    var x, d := if t.left.Leaf? then t.right else t.left, Depth(p);
    SpotsSplit(p, t);
    SpotsSplit(p, x);
    Subtree(p, t);
    OnlyChild(t, d);
    PositionIs(p, t);
    WithoutMiddle(Spots(p, t), Ahead(p), Layout(t, d), Behind(p), Position(p, t), Layout(x, d));
  }

  lemma Reentered(p: Path, t: Tree, e: Entry)
    requires t.Branch?
    ensures var s, k := Spots(p, t), Position(p, t);
            k < |s| && Spots(p, t.(entry := e)) == s[k := s[k].(entry := e)] && Position(p, t.(entry := e)) == k
  {
    hide Ahead, Behind, Plug;
    SpotsSplit(p, t);
    SpotsSplit(p, t.(entry := e));
    Depths(t.left, Depth(p) + 1);
  }

  lemma {:induction false} LeastPlace(p: Path, t: Tree)
    requires t.Branch?
    ensures Plug(LeastHole(p, t), Least(t)) == Plug(p, t) && |Ahead(LeastHole(p, t))| == |Ahead(p)|
    decreases t
  {
    if t.left.Branch? { LeastPlace(InLeft(p, t.color, t.entry, t.right), t.left); }
  }

  /** The node that leaves, at its place. */
  function LeaverPlace(p: Path, t: Tree): Path
    requires t.Branch?
  {
    if t.left.Leaf? || t.right.Leaf? then p else LeastHole(InRight(t.left, t.color, t.entry, p), t.right)
  }

  lemma LeaverAt(p: Path, t: Tree)
    requires t.Branch?
    ensures var s, k, q := Spots(p, t), Position(p, t), LeaverPlace(p, t);
            && k < |s| && Leaver(s, k) < |s| && Leaver(s, k) == Position(q, Victim(t)) && Spots(q, Victim(t)) == s
            && s[Leaver(s, k)].entry == Victim(t).entry && s[Leaver(s, k)].color == Victim(t).color
            && Leaver(s, k) == if t.left.Branch? && t.right.Branch? then k + 1 else k
  {
    hide Layout, Under, Child, HasChild, RedChild, Ahead, Spots, Plug;
    ChildColors(p, t, true, Red);
    ChildColors(p, t, false, Red);
    Subtree(p, t);
    if t.left.Branch? && t.right.Branch? {
      var r := InRight(t.left, t.color, t.entry, p);
      LeastPlace(r, t.right);
      AheadSize(r);
      Higher(r, t.right);
      SamePlug(LeastHole(r, t.right), Least(t.right), r, t.right);
      Subtree(LeastHole(r, t.right), Least(t.right));
    }
  }

  lemma SamePlug(p: Path, t: Tree, q: Path, u: Tree)
    requires Plug(p, t) == Plug(q, u)
    ensures Spots(p, t) == Spots(q, u)
  {
  }

  /** The transplant phase, on the sequence. */
  lemma SplicedAt(p: Path, t: Tree)
    requires t.Branch?
    ensures var s, k := Spots(p, t), Position(p, t);
            && k < |s| && Leaver(s, k) < |s| && Spots(HoleOf(p, t), Heir(t)) == Spliced(s, k)
  {
    hide Layout, Under, Child, HasChild, RedChild, Ahead, Spots, Plug, Leaver, WithoutSpot, Position;
    var s, k := Spots(p, t), Position(p, t);
    LeaverAt(p, t);
    if t.left.Leaf? || t.right.Leaf? {
      SplicedOut(p, t);
    } else {
      var e, r := Least(t.right).entry, InRight(t.left, t.color, t.entry, p);
      var t' := t.(entry := e);
      Reentered(p, t, e);
      LeaverAt(p, t');
      SplicedOut(LeaverPlace(p, t'), Least(t.right));
      assert LeaverPlace(p, t') == HoleOf(p, t);
    }
  }

  /** The only child of the leaving node, before and after. */
  lemma HeirAt(p: Path, t: Tree)
    requires t.Branch?
    ensures var s, y := Spots(p, t), Leaver(Spots(p, t), Position(p, t));
            && (Heir(t).Leaf? ==> forall h :: !Child(s, y, h))
            && (Heir(t).Branch? ==>
                  var h := if Victim(t).left.Leaf? then RightAt(LeaverPlace(p, t), Victim(t))
                           else LeftAt(LeaverPlace(p, t), Victim(t));
                  && Child(s, y, h) && (forall j :: Child(s, y, j) ==> j == h)
                  && Position(HoleOf(p, t), Heir(t)) == if h < y then h else h - 1)
  {
    hide Layout, Under, Child, Ahead, Spots, Plug, Position, LeaverPlace, LeftAt, RightAt, HoleOf, Leaver, Size, Victim;
    var q, v := LeaverPlace(p, t), Victim(t);
    LeaverAt(p, t);
    Children(q, v);
    Halves(q, v);
    HeirPlace(p, t);
    PositionIs(q, v);
    assert Spots(q, v) == Spots(p, t);
    if Heir(t).Branch? { PositionIs(HoleOf(p, t), Heir(t)); HeirPosition(q, v); }
  }

  lemma HeirPlace(p: Path, t: Tree)
    requires t.Branch?
    ensures |Ahead(HoleOf(p, t))| == |Ahead(LeaverPlace(p, t))|
  {
    if t.left.Branch? && t.right.Branch? {
      var r, r' := InRight(t.left, t.color, t.entry, p), InRight(t.left, t.color, Least(t.right).entry, p);
      LeastPlace(r, t.right);
      LeastPlace(r', t.right);
      AheadSize(r);
      AheadSize(r');
    }
  }

  lemma HeirPosition(p: Path, t: Tree)
    requires t.Branch? && (t.left.Leaf? || t.right.Leaf?)
    ensures t.left.Leaf? && t.right.Branch? ==> RightAt(p, t) == |Ahead(p)| + 1 + Size(t.right.left)
    ensures t.left.Branch? ==> LeftAt(p, t) == |Ahead(p)| + Size(t.left.left)
  {
    Halves(p, t);
  }

  /** A spot with the key, and none above it has it. */
  ghost predicate FirstWithKey(s: seq<Spot>, k: int, key: int) {
    0 <= k < |s| && s[k].entry.key == key && forall a :: Under(s, a, k) && a != k ==> s[a].entry.key != key
  }

  /** What is above a node is its parent, or above that. */
  lemma UnderStep(s: seq<Spot>, i: int, k: int, key: int)
    requires Child(s, i, k) && (forall g :: Child(s, g, k) ==> g == i) && s[i].entry.key != key
    requires forall a :: Under(s, a, i) && a != i ==> s[a].entry.key != key
    ensures forall a :: Under(s, a, k) && a != k ==> s[a].entry.key != key
  {
    forall a | Under(s, a, k) && a != k ensures a == i || Under(s, a, i) {
      assert s[a].depth < s[k].depth;
      if s[a].depth == s[i].depth {
        assert Child(s, a, k);
      }
    }
  }

  lemma NoneOver(t: Tree, k: int)
    requires IsRoot(Spots(Top, t), k)
    ensures forall a :: Under(Spots(Top, t), a, k) ==> a == k
  {
    Depths(t, 0);
  }

  lemma {:induction false} Above(p: Path, t: Tree, key: int)
    requires t.Branch? && KeyFree(p, key)
    ensures var s, k := Spots(p, t), Position(p, t);
            && k < |s| && s[k].entry == t.entry
            && forall a :: Under(s, a, k) && a != k ==> s[a].entry.key != key
  {
    hide Layout, Under, Child, Ahead, Spots, Plug, Position;
    Subtree(p, t);
    Parent(p, t);
    if p.Top? {
      NoneOver(t, Position(p, t));
    } else {
      Higher(p, t);
      UpperColor(p, t);
      Above(p.up, Upper(p, t), key);
      UnderStep(Spots(p, t), ParentAt(p, t), Position(p, t), key);
    }
  }

  /** Search ends at the first node with the key. */
  lemma {:induction false} SearchFirst(p: Path, t: Tree, key: int)
    requires KeyFree(p, key)
    ensures KeyFree(Search(p, t, key).0, key)
    decreases t
  {
    if t.Branch? && t.entry.key != key {
      if key < t.entry.key {
        SearchFirst(InLeft(p, t.color, t.entry, t.right), t.left, key);
      } else {
        SearchFirst(InRight(t.left, t.color, t.entry, p), t.right, key);
      }
    }
  }

  /** What a deletion does when the transplant phase is all there is. */
  lemma DeleteIs(t: Tree, key: int, sentinel: Color)
    requires Search(Top, t, key).1.Branch?
    ensures var (p, n) := Search(Top, t, key);
            var (r, c) := Delete(t, key, sentinel);
            && (Victim(n).color == Red ==> r == Plug(HoleOf(p, n), Heir(n)) && c == sentinel)
            && (Victim(n).color == Black && Heir(n).Leaf? ==> r == Plug(HoleOf(p, n), Heir(n)) && c == Black)
            && (Victim(n).color == Black && Heir(n).Branch? ==>
                  (r, c) == DeleteFixup(HoleOf(p, n), Heir(n), sentinel))
  {
    hide DeleteFixup, Plug, Transplanted, HoleOf, Search;
    var (p, n) := Search(Top, t, key);
    PlugHole(p, n, Heir(n));
  }

  /** The stage at which the fixup starts: the heir is where it came to lie. */
  ghost function Start(s: seq<Spot>, k: int, h: int, sentinel: Color): Stage
    requires 0 <= k < |s| && Leaver(s, k) < |s|
  {
    Stage(Spliced(s, k), if h < Leaver(s, k) then h else h - 1, sentinel)
  }

  /**
   The deletion of a key that the search finds, in every tree: the first spot with the key is spliced
   out, and if a black spot left that had a child, the chain of turns from that child says what is
   left; a missing child leaves the sentinel black.
   */
  lemma DeleteSpots(t: Tree, key: int, sentinel: Color) returns (k: int, h: int, run: seq<Stage>, y: Stage)
    requires Search(Top, t, key).1.Branch?
    ensures FirstWithKey(Layout(t, 0), k, key) && Leaver(Layout(t, 0), k) < |Layout(t, 0)|
    ensures var s := Layout(t, 0);
            var (v, (r, c)) := (Leaver(s, k), Delete(t, key, sentinel));
            && (s[v].color == Red ==> Layout(r, 0) == Spliced(s, k) && c == sentinel)
            && (s[v].color == Black && (forall j :: !Child(s, v, j)) ==> Layout(r, 0) == Spliced(s, k) && c == Black)
            && (s[v].color == Black && (exists j :: Child(s, v, j)) ==>
                  && Child(s, v, h) && DeleteChain(Start(s, k, h, sentinel), run, y)
                  && Layout(r, 0) == y.spots && c == y.sentinel)
  {
    hide Layout, Under, Child, Ahead, Plug, Position, Leaver, Spliced, HoleOf, Heir, Victim, Delete, DeleteFixup,
        Search,
        DeleteChain, LeftAt, RightAt;
    var (p, n) := Search(Top, t, key);
    var s := Layout(t, 0);
    k := Position(p, n);
    SearchWhole(Top, t, key);
    SearchFirst(Top, t, key);
    assert Plug(Top, t) == t by { TopPlug(t); }
    assert Spots(p, n) == s;
    Above(p, n, key);
    LeaverAt(p, n);
    SplicedAt(p, n);
    HeirAt(p, n);
    DeleteIs(t, key, sentinel);
    h, run, y := 0, [], Stage([], 0, Black);
    if Heir(n).Branch? {
      h := if Victim(n).left.Leaf? then RightAt(LeaverPlace(p, n), Victim(n)) else LeftAt(LeaverPlace(p, n), Victim(n));
      if Victim(n).color == Black {
        run, y := DeleteFixupChain(HoleOf(p, n), Heir(n), sentinel);
        assert At(HoleOf(p, n), Heir(n), sentinel) == Start(s, k, h, sentinel);
      }
    }
  }

  lemma TopPlug(t: Tree)
    ensures Plug(Top, t) == t
  {
  }
}
