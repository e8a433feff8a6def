/**
 The insert fixup read off the in-order sequence: every node is a spot with its entry, colour and
 depth, and parents, uncles and rotations are said in terms of positions and depths.  The law at
 the end says for every tree, and every colour of the node, what the loop leaves at every spot.
 */
module RedBlackLayout {
  import opened RedBlackModel

  datatype Spot = Spot(entry: Entry, color: Color, depth: int)

  function Layout(t: Tree, d: int): seq<Spot> {
    match t
    case Leaf => []
    case Branch(l, c, e, r) => Layout(l, d + 1) + [Spot(e, c, d)] + Layout(r, d + 1)
  }

  /** The node at `j` is the one at `i` or below it: everything on the way is deeper than `i`. */
  ghost predicate Under(s: seq<Spot>, i: int, j: int) {
    0 <= i < |s| && 0 <= j < |s| && forall m {:trigger s[m]} :: i < m <= j || j <= m < i ==> s[m].depth > s[i].depth
  }

  ghost predicate Child(s: seq<Spot>, i: int, j: int) {
    Under(s, i, j) && s[j].depth == s[i].depth + 1
  }

  predicate IsRoot(s: seq<Spot>, i: int) {
    0 <= i < |s| && s[i].depth == 0
  }

  function Painted(s: seq<Spot>, i: int, c: Color): (r: seq<Spot>)
    requires 0 <= i < |s|
    ensures |r| == |s|
  {
    s[i := s[i].(color := c)]
  }

  /** A rotation that lifts `i` over its parent `p`: what is between the two keeps its depth. */
  ghost function Change(s: seq<Spot>, i: int, p: int, j: int): int {
    if !Under(s, p, j) then 0
    else if !Under(s, i, j) then 1
    else if i < j < p || p < j < i then 0
    else -1
  }

  ghost function Raised(s: seq<Spot>, i: int, p: int): (r: seq<Spot>)
    ensures |r| == |s|
  {
    seq(|s|, j requires 0 <= j < |s| => s[j].(depth := s[j].depth + Change(s, i, p, j)))
  }

  function RootBlack(s: seq<Spot>): seq<Spot> {
    seq(|s|, j requires 0 <= j < |s| => if s[j].depth == 0 then s[j].(color := Black) else s[j])
  }

  // ---------------------------------------------------------------------------------------
  // Turns of the loop
  // ---------------------------------------------------------------------------------------

  /** The tree, the position of the loop's node, and the colour of the sentinel. */
  datatype Stage = Stage(spots: seq<Spot>, node: int, sentinel: Color)

  /** The parent is not red: the loop ends. */
  ghost predicate Settled(x: Stage) {
    forall p :: Child(x.spots, p, x.node) ==> x.spots[p].color == Black
  }

  /** The other child of the parent. */
  ghost predicate OtherChild(s: seq<Spot>, i: int, p: int, w: int) {
    Child(s, p, w) && w != i
  }

  /** A red uncle: three colours change, and the grandparent is looked at next. */
  ghost predicate Recolors(x: Stage, p: int, g: int, u: int, y: Stage) {
    && OtherChild(x.spots, p, g, u) && x.spots[u].color == Red
    && 0 <= p < |x.spots|
    && y == Stage(Painted(Painted(Painted(x.spots, p, Black), u, Black), g, Red), g, x.sentinel)
  }

  /** The node and its parent are on the same side: one rotation. */
  ghost predicate TurnsOuter(x: Stage, p: int, g: int, y: Stage) {
    && (x.node < p <==> p < g) && 0 <= p < |x.spots| && 0 <= g < |x.spots|
    && y == Stage(Raised(Painted(Painted(x.spots, p, Black), g, Red), p, g), x.node, x.sentinel)
  }

  /** On different sides: the node is lifted twice, and its old parent is painted and looked at next. */
  ghost predicate TurnsInner(x: Stage, p: int, g: int, y: Stage) {
    && (x.node < p <==> g < p) && 0 <= p < |x.spots| && 0 <= g < |x.spots|
    && y == Stage(Raised(Painted(Painted(Raised(x.spots, x.node, p), p, Black), g, Red), x.node, g), p, x.sentinel)
  }

  /** The parent is the root: the sentinel stands in for the grandparent and turns red. */
  ghost predicate TurnsTop(x: Stage, p: int, y: Stage) {
    && IsRoot(x.spots, p)
    && y == if x.node < p then Stage(Painted(Raised(x.spots, x.node, p), p, Black), p, Red)
            else Stage(Painted(x.spots, p, Black), x.node, Red)
  }

  ghost predicate TurnsUnder(x: Stage, p: int, g: int, y: Stage) {
    if exists u :: OtherChild(x.spots, p, g, u) && x.spots[u].color == Red then exists u :: Recolors(x, p, g, u, y)
    else TurnsOuter(x, p, g, y) || TurnsInner(x, p, g, y)
  }

  /** One turn of the loop. */
  ghost predicate Turn(x: Stage, y: Stage) {
    exists p :: Child(x.spots, p, x.node) && x.spots[p].color == Red &&
      (TurnsTop(x, p, y) || exists g :: Child(x.spots, g, p) && TurnsUnder(x, p, g, y))
  }

  /** Turn by turn from `x` until the loop ends. */
  ghost predicate Chain(x: Stage, run: seq<Stage>) {
    && run != [] && run[0] == x && Settled(run[|run| - 1])
    && forall i {:trigger run[i]} :: 0 < i < |run| ==> Turn(run[i - 1], run[i])
  }

  // ---------------------------------------------------------------------------------------
  // A subtree and its surroundings in the sequence
  // ---------------------------------------------------------------------------------------

  function Size(t: Tree): (n: nat)
    ensures n == |InOrder(t)|
  {
    if t.Leaf? then 0 else Size(t.left) + 1 + Size(t.right)
  }

  function Ahead(p: Path): seq<Spot> {
    match p
    case Top => []
    case InLeft(up, _, _, _) => Ahead(up)
    case InRight(l, c, e, up) => Ahead(up) + Layout(l, Depth(up) + 1) + [Spot(e, c, Depth(up))]
  }

  function Behind(p: Path): seq<Spot> {
    match p
    case Top => []
    case InLeft(up, c, e, r) => [Spot(e, c, Depth(up))] + Layout(r, Depth(up) + 1) + Behind(up)
    case InRight(_, _, _, up) => Behind(up)
  }

  /** The position of the node that carries `t`. */
  function Position(p: Path, t: Tree): nat {
    |Ahead(p)| + if t.Leaf? then 0 else Size(t.left)
  }

  function Spots(p: Path, t: Tree): seq<Spot> {
    Layout(Plug(p, t), 0)
  }

  lemma {:induction false} Depths(t: Tree, d: int)
    ensures |Layout(t, d)| == Size(t)
    ensures forall j :: 0 <= j < |Layout(t, d)| ==> Layout(t, d)[j].depth >= d
    ensures t.Branch? ==>
              && Layout(t, d)[Size(t.left)] == Spot(t.entry, t.color, d)
              && forall j :: 0 <= j < |Layout(t, d)| && Layout(t, d)[j].depth == d ==> j == Size(t.left)
  {
    if t.Branch? {
      Depths(t.left, d + 1);
      Depths(t.right, d + 1);
    }
  }

  lemma {:induction false} Deeper(t: Tree, d: int, d': int)
    ensures |Layout(t, d)| == |Layout(t, d')|
    ensures forall j :: 0 <= j < |Layout(t, d)| ==>
        Layout(t, d')[j] == Layout(t, d)[j].(depth := Layout(t, d)[j].depth + d' - d)
  {
    if t.Branch? {
      Deeper(t.left, d + 1, d' + 1);
      Deeper(t.right, d + 1, d' + 1);
    }
  }

  lemma {:induction false} SpotsSplit(p: Path, t: Tree)
    ensures Spots(p, t) == Ahead(p) + Layout(t, Depth(p)) + Behind(p)
  {
    match p
    case Top =>
    case InLeft(up, c, e, r) =>
      SpotsSplit(up, Branch(t, c, e, r));
      Regroup(Ahead(up), Layout(t, Depth(p)), [Spot(e, c, Depth(up))], Layout(r, Depth(p)), Behind(up));
    case InRight(l, c, e, up) =>
      SpotsSplit(up, Branch(l, c, e, t));
      Regroup(Ahead(up), Layout(l, Depth(p)), [Spot(e, c, Depth(up))], Layout(t, Depth(p)), Behind(up));
  }

  /** What is next to a subtree is an ancestor. */
  lemma {:induction false} Neighbours(p: Path)
    ensures Ahead(p) != [] ==> Ahead(p)[|Ahead(p)| - 1].depth < Depth(p)
    ensures Behind(p) != [] ==> Behind(p)[0].depth < Depth(p)
  {
    if !p.Top? { Neighbours(p.up); }
  }

  /** The spots under `i`, when those around the stretch are above it. */
  lemma UnderRange(s: seq<Spot>, lo: int, hi: int, i: int)
    requires 0 <= lo <= i < hi <= |s|
    requires forall j :: lo <= j < hi && j != i ==> s[j].depth > s[i].depth
    requires (lo > 0 ==> s[lo - 1].depth < s[i].depth) && (hi < |s| ==> s[hi].depth < s[i].depth)
    ensures forall j :: Under(s, i, j) <==> lo <= j < hi
  {
    forall j ensures Under(s, i, j) <==> lo <= j < hi {
      if 0 <= j < lo {
        assert s[lo - 1].depth < s[i].depth;
      } else if hi <= j < |s| {
        assert s[hi].depth < s[i].depth;
      }
    }
  }

  /** A stretch `l` between `a` and `b`, with one spot above all others in it. */
  lemma UnderMiddle(s: seq<Spot>, a: seq<Spot>, l: seq<Spot>, b: seq<Spot>, i: nat)
    requires s == a + l + b && |a| <= i < |a| + |l|
    requires forall j :: 0 <= j < |l| && j != i - |a| ==> l[j].depth > l[i - |a|].depth
    requires a != [] ==> a[|a| - 1].depth < l[i - |a|].depth
    requires b != [] ==> b[0].depth < l[i - |a|].depth
    ensures s[|a|..|a| + |l|] == l && s[i] == l[i - |a|]
    ensures forall j :: Under(s, i, j) <==> |a| <= j < |a| + |l|
    ensures forall j :: |a| <= j < |a| + |l| && j != i ==> s[j].depth > s[i].depth
    ensures |a| > 0 ==> s[|a| - 1] == a[|a| - 1]
    ensures |a| + |l| < |s| ==> s[|a| + |l|] == b[0]
  {
    forall j | |a| <= j < |a| + |l| ensures s[j] == l[j - |a|] { }
    UnderRange(s, |a|, |a| + |l|, i);
  }

  /** A subtree in the sequence: its spots are those that are under its root. */
  lemma Subtree(p: Path, t: Tree)
    requires t.Branch?
    ensures var s, lo, i := Spots(p, t), |Ahead(p)|, Position(p, t);
            && lo + Size(t) <= |s| && lo <= i < lo + Size(t) && s[lo..lo + Size(t)] == Layout(t, Depth(p))
            && s[i] == Spot(t.entry, t.color, Depth(p))
            && (forall j :: Under(s, i, j) <==> lo <= j < lo + Size(t))
            && (forall j :: lo <= j < lo + Size(t) && j != i ==> s[j].depth > Depth(p))
            && (lo > 0 ==> s[lo - 1].depth < Depth(p))
            && (lo + Size(t) < |s| ==> s[lo + Size(t)].depth < Depth(p))
  {
    hide *;
    SpotsSplit(p, t);
    Neighbours(p);
    RootSpot(t, Depth(p));
    PositionIs(p, t);
    UnderMiddle(Spots(p, t), Ahead(p), Layout(t, Depth(p)), Behind(p), Position(p, t));
  }

  lemma PositionIs(p: Path, t: Tree)
    requires t.Branch?
    ensures Position(p, t) == |Ahead(p)| + Size(t.left)
  {
  }

  lemma RootSpot(t: Tree, d: int)
    requires t.Branch?
    ensures var l := Layout(t, d);
            && |l| == Size(t) && Size(t.left) < |l| && l[Size(t.left)] == Spot(t.entry, t.color, d)
            && forall j :: 0 <= j < |l| && j != Size(t.left) ==> l[j].depth > d
  {
    Depths(t, d);
  }

  /** The tree one step up. */
  function Upper(p: Path, t: Tree): Tree
    requires !p.Top?
  {
    if p.InLeft? then Branch(t, p.color, p.entry, p.right) else Branch(p.left, p.color, p.entry, t)
  }

  lemma Higher(p: Path, t: Tree)
    requires !p.Top?
    ensures Spots(p.up, Upper(p, t)) == Spots(p, t) && Depth(p) == Depth(p.up) + 1
  {
  }

  lemma Positions(p: Path, t: Tree)
    requires t.Branch? && !p.Top?
    ensures p.InLeft? ==> Position(p, t) < Position(p.up, Upper(p, t)) == |Ahead(p)| + Size(t)
    ensures p.InRight? ==> Position(p.up, Upper(p, t)) < Position(p, t)
    ensures p.InRight? ==> Position(p.up, Upper(p, t)) + 1 == |Ahead(p)|
    ensures p.InLeft? ==> |Ahead(p)| == |Ahead(p.up)|
    ensures p.InRight? ==> |Ahead(p)| + Size(t) == |Ahead(p.up)| + Size(Upper(p, t))
  {
    Depths(Upper(p, t).left, Depth(p));
  }

  /** Two spots of one depth are not both above a third one. */
  lemma OneParent(s: seq<Spot>, lo: int, hi: int, i: int, k: int)
    requires 0 <= lo <= i < hi <= |s| && lo <= k < hi && Child(s, i, k)
    requires (lo > 0 ==> s[lo - 1].depth < s[i].depth) && (hi < |s| ==> s[hi].depth < s[i].depth)
    requires forall j :: lo <= j < hi && j != i ==> s[j].depth > s[i].depth
    ensures forall g :: Child(s, g, k) <==> g == i
  {
    assert lo > 0 ==> s[lo - 1].depth < s[i].depth;
    assert hi < |s| ==> s[hi].depth < s[i].depth;
    assert forall g :: lo <= g < hi && g != i ==> s[g].depth > s[i].depth;
    assert forall g :: Child(s, g, k) ==> s[g].depth == s[i].depth;
  }

  /** A node is a child of exactly one other, or of none if it is the root. */
  lemma Parent(p: Path, t: Tree)
    requires t.Branch?
    ensures p.Top? ==> IsRoot(Spots(p, t), Position(p, t)) && forall g :: !Child(Spots(p, t), g, Position(p, t))
    ensures !p.Top? ==> forall g :: Child(Spots(p, t), g, Position(p, t)) <==> g == Position(p.up, Upper(p, t))
    ensures !p.Top? ==> !IsRoot(Spots(p, t), Position(p, t))
  {
    hide Layout, Ahead, Behind, Under, Spots, Position, Size;
    var s, k := Spots(p, t), Position(p, t);
    Subtree(p, t);
    if p.Top? {
      NoneAbove(t, k);
    } else {
      var u, i := Upper(p, t), Position(p.up, Upper(p, t));
      Higher(p, t);
      Subtree(p.up, u);
      Positions(p, t);
      Inside(p, t);
      OneParent(s, |Ahead(p.up)|, |Ahead(p.up)| + Size(u), i, k);
    }
  }

  lemma NoneAbove(t: Tree, k: int)
    requires IsRoot(Spots(Top, t), k)
    ensures forall g :: !Child(Spots(Top, t), g, k)
  {
    Depths(t, 0);
  }

  lemma Inside(p: Path, t: Tree)
    requires t.Branch? && !p.Top?
    ensures |Ahead(p.up)| <= |Ahead(p)| && |Ahead(p)| + Size(t) <= |Ahead(p.up)| + Size(Upper(p, t))
  {
    if p.InRight? { Depths(p.left, Depth(p)); }
  }

  /** The position of the root of the left, and of the right, subtree. */
  function LeftAt(p: Path, t: Tree): nat
    requires t.Branch?
  {
    Position(InLeft(p, t.color, t.entry, t.right), t.left)
  }

  function RightAt(p: Path, t: Tree): nat
    requires t.Branch?
  {
    Position(InRight(t.left, t.color, t.entry, p), t.right)
  }

  /** The stretches of the two subtrees. */
  lemma Halves(p: Path, t: Tree)
    requires t.Branch?
    ensures var l, r := InLeft(p, t.color, t.entry, t.right), InRight(t.left, t.color, t.entry, p);
            && Upper(l, t.left) == t && Upper(r, t.right) == t && l.up == p && r.up == p
            && Depth(l) == Depth(r) == Depth(p) + 1
            && |Ahead(l)| == |Ahead(p)| && |Ahead(l)| + Size(t.left) == Position(p, t)
            && |Ahead(r)| == Position(p, t) + 1 && |Ahead(r)| + Size(t.right) == |Ahead(p)| + Size(t)
            && LeftAt(p, t) == Position(l, t.left) && RightAt(p, t) == Position(r, t.right)
            && Spots(l, t.left) == Spots(p, t) == Spots(r, t.right)
  {
    Depths(t.left, Depth(p) + 1);
  }

  lemma ChildrenOf(s: seq<Spot>, lo: int, hi: int, i: int, left: int, right: int)
    requires 0 <= lo <= i < hi <= |s| && (forall j :: Under(s, i, j) <==> lo <= j < hi)
    requires if left < lo then lo == i
             else left < i && s[left].depth == s[i].depth + 1 && forall j :: lo <= j < i && j != left ==>
                 s[j].depth > s[i].depth + 1
    requires if right <= i then i + 1 == hi
             else right < hi && s[right].depth == s[i].depth + 1 && forall j :: i < j < hi && j != right ==>
                 s[j].depth > s[i].depth + 1
    ensures forall j :: Child(s, i, j) <==> (left >= lo && j == left) || (right > i && j == right)
  {
    hide Under;
  }

  /** The children of a node. */
  lemma Children(p: Path, t: Tree)
    requires t.Branch?
    ensures var s, i := Spots(p, t), Position(p, t);
            && i < |s| && s[i].color == t.color
            && (t.left.Branch? ==> LeftAt(p, t) < i && s[LeftAt(p, t)].color == t.left.color)
            && (t.right.Branch? ==> i < RightAt(p, t) < |s| && s[RightAt(p, t)].color == t.right.color)
            && forall j :: Child(s, i, j) <==>
                 (t.left.Branch? && j == LeftAt(p, t)) || (t.right.Branch? && j == RightAt(p, t))
  {
    hide *;
    var s, i, lo := Spots(p, t), Position(p, t), |Ahead(p)|;
    Subtree(p, t);
    Halves(p, t);
    if t.left.Branch? { Subtree(InLeft(p, t.color, t.entry, t.right), t.left); } else { NoSize(t.left); }
    if t.right.Branch? { Subtree(InRight(t.left, t.color, t.entry, p), t.right); } else { NoSize(t.right); }
    ChildrenOf(s, lo, lo + Size(t), i, if t.left.Branch? then LeftAt(p, t) else lo - 1,
        if t.right.Branch? then RightAt(p, t) else i);
  }

  lemma NoSize(t: Tree)
    requires t.Leaf?
    ensures Size(t) == 0
  {
  }

  // ---------------------------------------------------------------------------------------
  // Painting and rotating
  // ---------------------------------------------------------------------------------------

  lemma Repainted(p: Path, t: Tree, c: Color)
    requires t.Branch?
    ensures Position(p, t) < |Spots(p, t)| && Position(p, t.(color := c)) == Position(p, t)
    ensures Spots(p, t.(color := c)) == Painted(Spots(p, t), Position(p, t), c)
  {
    hide Ahead, Behind, Plug;
    SpotsSplit(p, t);
    SpotsSplit(p, t.(color := c));
    Depths(t.left, Depth(p) + 1);
  }

  /** Five stretches and two spots between them. */
  function Seven(a: seq<Spot>, x: seq<Spot>, p: Spot, y: seq<Spot>, q: Spot, z: seq<Spot>, b: seq<Spot>): (s: seq<Spot>)
    ensures |s| == |a| + |x| + 1 + |y| + 1 + |z| + |b|
  {
    a + (x + [p] + y + [q] + z) + b
  }

  ghost predicate ShiftedBy(x: seq<Spot>, x': seq<Spot>, n: int) {
    |x'| == |x| && forall j :: 0 <= j < |x| ==> x'[j] == x[j].(depth := x[j].depth + n)
  }

  lemma SevenAt(a: seq<Spot>, x: seq<Spot>, p: Spot, y: seq<Spot>, q: Spot, z: seq<Spot>, b: seq<Spot>, j: nat)
    requires j < |Seven(a, x, p, y, q, z, b)|
    ensures var i, k := |a| + |x|, |a| + |x| + 1 + |y|;
            Seven(a, x, p, y, q, z, b)[j] ==
              if j < |a| then a[j]
              else if j < i then x[j - |a|]
              else if j == i then p
              else if j < k then y[j - i - 1]
              else if j == k then q
              else if j <= k + |z| then z[j - k - 1]
              else b[j - k - 1 - |z|]
  {
  }

  /** A rotation to the right, on the sequence. */
  lemma RaisedRight(a: seq<Spot>, x: seq<Spot>, p: Spot, y: seq<Spot>, q: Spot, z: seq<Spot>, b: seq<Spot>,
      x': seq<Spot>, z': seq<Spot>)
    requires var s, lo, i, k := Seven(a, x, p, y, q, z, b), |a|, |a| + |x|, |a| + |x| + 1 + |y|;
            && (forall j :: Under(s, k, j) <==> lo <= j < k + 1 + |z|)
            && (forall j :: Under(s, i, j) <==> lo <= j < k)
    requires ShiftedBy(x, x', -1) && ShiftedBy(z, z', 1)
    ensures Raised(Seven(a, x, p, y, q, z, b), |a| + |x|, |a| + |x| + 1 + |y|)
         == Seven(a, x', p.(depth := p.depth - 1), y, q.(depth := q.depth + 1), z', b)
  {
    hide Under, Seven;
    var s, i, k := Seven(a, x, p, y, q, z, b), |a| + |x|, |a| + |x| + 1 + |y|;
    var p', q' := p.(depth := p.depth - 1), q.(depth := q.depth + 1);
    var r := Seven(a, x', p', y, q', z', b);
    forall j | 0 <= j < |s| ensures r[j] == s[j].(depth := s[j].depth + Change(s, i, k, j)) {
      assert Under(s, k, j) <==> |a| <= j < k + 1 + |z|;
      assert Under(s, i, j) <==> |a| <= j < k;
      SevenAt(a, x, p, y, q, z, b, j);
      SevenAt(a, x', p', y, q', z', b, j);
    }
  }

  /** A rotation to the left. */
  lemma RaisedLeft(a: seq<Spot>, x: seq<Spot>, p: Spot, y: seq<Spot>, q: Spot, z: seq<Spot>, b: seq<Spot>,
      x': seq<Spot>, z': seq<Spot>)
    requires var s, lo, i, k := Seven(a, x, p, y, q, z, b), |a|, |a| + |x|, |a| + |x| + 1 + |y|;
            && (forall j :: Under(s, i, j) <==> lo <= j < k + 1 + |z|)
            && (forall j :: Under(s, k, j) <==> i + 1 <= j < k + 1 + |z|)
    requires ShiftedBy(x, x', 1) && ShiftedBy(z, z', -1)
    ensures Raised(Seven(a, x, p, y, q, z, b), |a| + |x| + 1 + |y|, |a| + |x|)
         == Seven(a, x', p.(depth := p.depth + 1), y, q.(depth := q.depth - 1), z', b)
  {
    hide Under, Seven;
    var s, i, k := Seven(a, x, p, y, q, z, b), |a| + |x|, |a| + |x| + 1 + |y|;
    var p', q' := p.(depth := p.depth + 1), q.(depth := q.depth - 1);
    var r := Seven(a, x', p', y, q', z', b);
    forall j | 0 <= j < |s| ensures r[j] == s[j].(depth := s[j].depth + Change(s, k, i, j)) {
      assert Under(s, i, j) <==> |a| <= j < k + 1 + |z|;
      assert Under(s, k, j) <==> i < j < k + 1 + |z|;
      SevenAt(a, x, p, y, q, z, b, j);
      SevenAt(a, x', p', y, q', z', b, j);
    }
  }

  /** A node with its left child, and a node with its right child, in the sequence. */
  lemma WithLeft(p: Path, a: Tree, c1: Color, e1: Entry, b: Tree, c2: Color, e2: Entry, r: Tree)
    ensures var t, d := Branch(Branch(a, c1, e1, b), c2, e2, r), Depth(p);
            && Spots(p, t) == Seven(Ahead(p), Layout(a, d + 2), Spot(e1, c1, d + 1), Layout(b, d + 2), Spot(e2, c2, d),
                 Layout(r, d + 1), Behind(p))
            && LeftAt(p, t) == |Ahead(p)| + Size(a) && Position(p, t) == |Ahead(p)| + Size(a) + 1 + Size(b)
            && Size(t) == Size(a) + 1 + Size(b) + 1 + Size(r)
  {
    hide Ahead, Behind, Plug;
    SpotsSplit(p, Branch(Branch(a, c1, e1, b), c2, e2, r));
    Halves(p, Branch(Branch(a, c1, e1, b), c2, e2, r));
  }

  lemma WithRight(p: Path, l: Tree, c1: Color, e1: Entry, b: Tree, c2: Color, e2: Entry, r: Tree)
    ensures var t, d := Branch(l, c1, e1, Branch(b, c2, e2, r)), Depth(p);
            && Spots(p, t) == Seven(Ahead(p), Layout(l, d + 1), Spot(e1, c1, d), Layout(b, d + 2), Spot(e2, c2, d + 1),
                 Layout(r, d + 2), Behind(p))
            && RightAt(p, t) == |Ahead(p)| + Size(l) + 1 + Size(b) && Position(p, t) == |Ahead(p)| + Size(l)
            && Size(t) == Size(l) + 1 + Size(b) + 1 + Size(r)
  {
    hide Ahead, Behind, Plug;
    SpotsSplit(p, Branch(l, c1, e1, Branch(b, c2, e2, r)));
    Halves(p, Branch(l, c1, e1, Branch(b, c2, e2, r)));
    Nested(Layout(l, Depth(p) + 1), Spot(e1, c1, Depth(p)), Layout(b, Depth(p) + 2), Spot(e2, c2, Depth(p) + 1),
        Layout(r, Depth(p) + 2));
  }

  lemma Nested(x: seq<Spot>, p: Spot, y: seq<Spot>, q: Spot, z: seq<Spot>)
    ensures x + [p] + (y + [q] + z) == x + [p] + y + [q] + z
  {
  }

  lemma Lower(t: Tree, d: int, d': int)
    ensures |Layout(t, d)| == Size(t) && ShiftedBy(Layout(t, d), Layout(t, d'), d' - d)
  {
    Depths(t, d);
    Deeper(t, d, d');
  }

  lemma RotatedRight(p: Path, t: Tree)
    requires t.Branch? && t.left.Branch?
    ensures var Branch(Branch(a, c1, e1, b), c2, e2, r) := t;
            var u := Branch(a, c1, e1, Branch(b, c2, e2, r));
            && Spots(p, u) == Raised(Spots(p, t), LeftAt(p, t), Position(p, t))
            && Position(p, u) == LeftAt(p, t) && RightAt(p, u) == Position(p, t)
  {
    hide *;
    var Branch(Branch(a, c1, e1, b), c2, e2, r) := t;
    var d := Depth(p);
    WithLeft(p, a, c1, e1, b, c2, e2, r);
    WithRight(p, a, c1, e1, b, c2, e2, r);
    Subtree(p, t);
    Subtree(InLeft(p, c2, e2, r), t.left);
    Halves(p, t);
    Lower(b, d + 2, d + 2);
    Lower(a, d + 2, d + 1);
    Lower(r, d + 1, d + 2);
    RaisedRight(Ahead(p), Layout(a, d + 2), Spot(e1, c1, d + 1), Layout(b, d + 2), Spot(e2, c2, d), Layout(r, d + 1),
        Behind(p), Layout(a, d + 1), Layout(r, d + 2));
  }

  lemma RotatedLeft(p: Path, t: Tree)
    requires t.Branch? && t.right.Branch?
    ensures var Branch(l, c1, e1, Branch(b, c2, e2, r)) := t;
            var u := Branch(Branch(l, c1, e1, b), c2, e2, r);
            && Spots(p, u) == Raised(Spots(p, t), RightAt(p, t), Position(p, t))
            && Position(p, u) == RightAt(p, t) && LeftAt(p, u) == Position(p, t)
  {
    hide *;
    var Branch(l, c1, e1, Branch(b, c2, e2, r)) := t;
    var d := Depth(p);
    WithRight(p, l, c1, e1, b, c2, e2, r);
    WithLeft(p, l, c1, e1, b, c2, e2, r);
    Subtree(p, t);
    Subtree(InRight(l, c1, e1, p), t.right);
    Halves(p, t);
    Lower(b, d + 2, d + 2);
    Lower(l, d + 1, d + 2);
    Lower(r, d + 2, d + 1);
    RaisedLeft(Ahead(p), Layout(l, d + 1), Spot(e1, c1, d), Layout(b, d + 2), Spot(e2, c2, d + 1), Layout(r, d + 2),
        Behind(p), Layout(l, d + 2), Layout(r, d + 1));
  }

  // ---------------------------------------------------------------------------------------
  // The arms of the loop are turns
  // ---------------------------------------------------------------------------------------

  function At(p: Path, t: Tree, sentinel: Color): Stage {
    Stage(Spots(p, t), Position(p, t), sentinel)
  }

  lemma SameSize(t: Tree, c: Color)
    ensures t.Branch? ==> Size(t.(color := c)) == Size(t)
    ensures forall d, d' :: |Layout(t, d)| == |Layout(t, d')|
  {
    forall d, d' ensures |Layout(t, d)| == |Layout(t, d')| { Deeper(t, d, d'); }
  }

  /** The positions of a node's parent and grandparent, and who they are. */
  lemma Elders(p: Path, t: Tree)
    requires t.Branch? && !p.Top?
    ensures var s, k, up := Spots(p, t), Position(p, t), Position(p.up, Upper(p, t));
            && Child(s, up, k) && 0 <= up < |s| && s[up].color == p.color
            && (p.InLeft? <==> k < up) && k != up
            && (p.up.Top? ==> IsRoot(s, up) && forall g :: !Child(s, g, up))
            && (!p.up.Top? ==> !IsRoot(s, up))
  {
    hide *;
    Parent(p, t);
    Higher(p, t);
    Positions(p, t);
    UpperColor(p, t);
    Subtree(p.up, Upper(p, t));
    Parent(p.up, Upper(p, t));
  }

  lemma UpperColor(p: Path, t: Tree)
    requires !p.Top?
    ensures Upper(p, t).Branch? && Upper(p, t).color == p.color && Upper(p, t).entry == p.entry
    ensures p.InLeft? ==> Upper(p, t).left == t && Upper(p, t).right == p.right
    ensures p.InRight? ==> Upper(p, t).right == t && Upper(p, t).left == p.left
  {
  }

  /** The position of the root of the tree beside the node. */
  function SiblingAt(p: Path, t: Tree): nat
    requires !p.Top?
  {
    if p.InLeft? then RightAt(p.up, Upper(p, t)) else LeftAt(p.up, Upper(p, t))
  }

  /** The other children of the parent: the tree beside the node, if there is one. */
  lemma Siblings(p: Path, t: Tree)
    requires t.Branch? && !p.Top?
    ensures var s, k, up := Spots(p, t), Position(p, t), Position(p.up, Upper(p, t));
            && (forall u :: Child(s, up, u) && u != k <==> Sibling(p).Branch? && u == SiblingAt(p, t))
            && (Sibling(p).Branch? ==> SiblingAt(p, t) < |s| && s[SiblingAt(p, t)].color == Sibling(p).color)
    ensures Sibling(p).Branch? ==>
        OtherChild(Spots(p, t), Position(p, t), Position(p.up, Upper(p, t)), SiblingAt(p, t))
  {
    hide Layout, Ahead, Behind, Under, Child, Plug, Spots, Position, SiblingAt, LeftAt, RightAt, Upper, Sibling;
    Higher(p, t);
    UpperColor(p, t);
    Children(p.up, Upper(p, t));
    Positions(p, t);
    SiblingIs(p, t);
  }

  lemma SiblingIs(p: Path, t: Tree)
    requires t.Branch? && !p.Top?
    ensures p.InLeft? ==>
        Sibling(p) == p.right && SiblingAt(p, t) == RightAt(p.up, Upper(p, t))
            && Position(p, t) == LeftAt(p.up, Upper(p, t))
    ensures p.InRight? ==>
        Sibling(p) == p.left && SiblingAt(p, t) == LeftAt(p.up, Upper(p, t))
            && Position(p, t) == RightAt(p.up, Upper(p, t))
  {
  }

  lemma PaintedParent(p: Path, t: Tree, c: Color)
    requires t.Branch? && !p.Top?
    ensures var q, up := p.(color := c), Position(p.up, Upper(p, t));
            && up < |Spots(p, t)| && Spots(q, t) == Painted(Spots(p, t), up, c)
            && Position(q, t) == Position(p, t) && Position(q.up, Upper(q, t)) == up && q.up == p.up
            && Upper(q, t) == Upper(p, t).(color := c) && Sibling(q) == Sibling(p)
  {
    hide Layout, Ahead, Behind, Under, Plug;
    var q := p.(color := c);
    Higher(p, t);
    Higher(q, t);
    UpperColor(p, t);
    assert Upper(q, t) == Upper(p, t).(color := c);
    Repainted(p.up, Upper(p, t), c);
    PaintedAhead(p, c);
  }

  lemma PaintedAhead(p: Path, c: Color)
    requires !p.Top?
    ensures |Ahead(p.(color := c))| == |Ahead(p)|
  {
  }

  /** The path with another tree beside its node. */
  function WithSibling(p: Path, x: Tree): (q: Path)
    requires !p.Top?
    ensures q.InLeft? || q.InRight?
  {
    if p.InLeft? then p.(right := x) else p.(left := x)
  }

  lemma PaintedSibling(p: Path, t: Tree, c: Color)
    requires t.Branch? && !p.Top? && Sibling(p).Branch?
    ensures var q, u := WithSibling(p, Sibling(p).(color := c)), SiblingAt(p, t);
            && u < |Spots(p, t)| && Spots(q, t) == Painted(Spots(p, t), u, c)
            && Position(q, t) == Position(p, t) && Position(q.up, Upper(q, t)) == Position(p.up, Upper(p, t))
            && q.up == p.up && q.color == p.color && SiblingAt(q, t) == SiblingAt(p, t)
  {
    hide Layout, Ahead, Behind, Under, Plug;
    var q, x := WithSibling(p, Sibling(p).(color := c)), Upper(p, t);
    Higher(p, t);
    Higher(q, t);
    UpperColor(p, t);
    UpperColor(q, t);
    Halves(p.up, x);
    Halves(p.up, Upper(q, t));
    if p.InLeft? {
      Repainted(InRight(x.left, x.color, x.entry, p.up), x.right, c);
    } else {
      Repainted(InLeft(p.up, x.color, x.entry, x.right), x.left, c);
    }
  }

  /** The colour of a subtree's root does not move anything. */
  lemma SamePlaces(p: Path, t: Tree, c: Color)
    requires t.Branch?
    ensures Position(p, t.(color := c)) == Position(p, t)
    ensures !p.Top? ==> SiblingAt(p, t.(color := c)) == SiblingAt(p, t)
    ensures !p.Top? ==> Position(p.up, Upper(p, t.(color := c))) == Position(p.up, Upper(p, t))
  {
    Depths(t, Depth(p));
    Depths(t.(color := c), Depth(p));
    if p.InLeft? {
      Halves(p.up, Upper(p, t));
      Halves(p.up, Upper(p, t.(color := c)));
    }
  }

  /** After the recolouring: the node's place, the parent and the uncle black, the grandparent red. */
  function Recolored(p: Path, t: Tree): Tree
    requires !p.Top? && !p.up.Top?
  {
    var up := WithSibling(p.up, Blacken(Sibling(p.up)));
    Upper(up.(color := Red), Upper(p.(color := Black), t))
  }

  lemma RecoloredSpots(p: Path, t: Tree)
    requires t.Branch? && !p.Top? && !p.up.Top? && IsRed(Sibling(p.up))
    ensures var s, x := Spots(p, t), Upper(p, t);
            var i, g, u := Position(p.up, x), Position(p.up.up, Upper(p.up, x)), SiblingAt(p.up, x);
            && 0 <= i < |s| && g < |s| && u < |s|
            && Spots(p.up.up, Recolored(p, t)) == Painted(Painted(Painted(s, i, Black), u, Black), g, Red)
            && Position(p.up.up, Recolored(p, t)) == g
  {
    hide Layout, Ahead, Behind, Under, Child, Plug, Painted, Spots, Position, SiblingAt, Size;
    var p1 := p.(color := Black);
    var x, x1 := Upper(p, t), Upper(p1, t);
    var up1 := WithSibling(p.up, Sibling(p.up).(color := Black));
    PaintedParent(p, t, Black);
    Higher(p, t);
    Higher(p1, t);
    UpperColor(p, t);
    SamePlaces(p.up, x, Black);
    PaintedSibling(p.up, x1, Black);
    PaintedParent(up1, x1, Red);
    Higher(up1.(color := Red), x1);
  }

  /** A red uncle: for every colour of the node. */
  lemma RecolorTurn(p: Path, t: Tree, sentinel: Color)
    requires t.Branch? && !p.Top? && p.color == Red && !p.up.Top? && IsRed(Sibling(p.up))
    ensures Turn(At(p, t, sentinel), At(p.up.up, Recolored(p, t), sentinel))
  {
    hide Layout, Ahead, Behind, Under, Child, Plug, Painted, Spots, Position, SiblingAt, Recolored;
    var x := Upper(p, t);
    var s, i, g, u := Spots(p, t), Position(p.up, x), Position(p.up.up, Upper(p.up, x)), SiblingAt(p.up, x);
    Elders(p, t);
    Elders(p.up, x);
    Siblings(p.up, x);
    Higher(p, t);
    RecoloredSpots(p, t);
    assert OtherChild(s, i, g, u);
    assert Recolors(At(p, t, sentinel), i, g, u, At(p.up.up, Recolored(p, t), sentinel));
    assert TurnsUnder(At(p, t, sentinel), i, g, At(p.up.up, Recolored(p, t), sentinel));
  }

  predicate SameSide(p: Path)
    requires !p.Top?
  {
    p.InLeft? == p.up.InLeft?
  }

  /** A rotation of a node with its child, in either direction. */
  function Rotated(t: Tree, left: bool): Tree
    requires t.Branch? && if left then t.left.Branch? else t.right.Branch?
  {
    if left then Branch(t.left.left, t.left.color, t.left.entry, Branch(t.left.right, t.color, t.entry, t.right))
    else Branch(Branch(t.left, t.color, t.entry, t.right.left), t.right.color, t.right.entry, t.right.right)
  }

  lemma RotatedAt(p: Path, t: Tree)
    requires t.Branch? && !p.Top?
    ensures var x := Upper(p, t);
            && Spots(p.up, Rotated(x, p.InLeft?)) == Raised(Spots(p, t), Position(p, t), Position(p.up, x))
            && Position(p.up, Rotated(x, p.InLeft?)) == Position(p, t)
  {
    hide Layout, Ahead, Behind, Under, Plug, Raised, Spots, Position, Size, LeftAt, RightAt;
    var x := Upper(p, t);
    Higher(p, t);
    Halves(p.up, x);
    if p.InLeft? { RotatedRight(p.up, x); } else { RotatedLeft(p.up, x); }
  }

  /** After the single rotation: the place of the node. */
  function OuterPlace(p: Path): Path
    requires !p.Top? && !p.up.Top?
  {
    if p.InLeft? then InLeft(p.up.up, Black, p.entry, Branch(p.right, Red, p.up.entry, Sibling(p.up)))
    else InRight(Branch(Sibling(p.up), Red, p.up.entry, p.left), Black, p.entry, p.up.up)
  }

  lemma OuterSpots(p: Path, t: Tree)
    requires t.Branch? && !p.Top? && !p.up.Top? && SameSide(p)
    ensures var s, x := Spots(p, t), Upper(p, t);
            var i, g := Position(p.up, x), Position(p.up.up, Upper(p.up, x));
            && 0 <= i < |s| && g < |s|
            && Spots(OuterPlace(p), t) == Raised(Painted(Painted(s, i, Black), g, Red), i, g)
            && Position(OuterPlace(p), t) == Position(p, t)
  {
    hide Layout, Ahead, Behind, Under, Child, Plug, Painted, Raised, Spots, Position, Size;
    var p1, up1 := p.(color := Black), p.up.(color := Red);
    var x, x1 := Upper(p, t), Upper(p1, t);
    Higher(p, t);
    Higher(p1, t);
    PaintedParent(p, t, Black);
    SamePlaces(p.up, x, Black);
    PaintedParent(p.up, x1, Red);
    RotatedAt(up1, x1);
    Higher(OuterPlace(p), t);
    OuterPosition(p, t);
  }

  lemma OuterPosition(p: Path, t: Tree)
    requires t.Branch? && !p.Top? && !p.up.Top? && SameSide(p)
    ensures Position(OuterPlace(p), t) == Position(p, t) && OuterPlace(p).up == p.up.up
    ensures Upper(OuterPlace(p), t) == Rotated(Upper(p.up.(color := Red), Upper(p.(color := Black), t)), p.InLeft?)
  {
    hide Ahead;
    AheadSize(p);
    AheadSize(p.up);
    AheadSize(OuterPlace(p));
  }

  lemma AheadSize(p: Path)
    requires !p.Top?
    ensures |Ahead(p)| == |Ahead(p.up)| + if p.InLeft? then 0 else Size(p.left) + 1
  {
    if p.InRight? { Depths(p.left, Depth(p)); }
  }

  /** The loop's node and its parent are on the same side, and no uncle is red. */
  lemma OuterTurn(p: Path, t: Tree, sentinel: Color)
    requires t.Branch? && !p.Top? && p.color == Red && !p.up.Top? && !IsRed(Sibling(p.up)) && SameSide(p)
    ensures Turn(At(p, t, sentinel), At(OuterPlace(p), t, sentinel))
  {
    hide Layout, Ahead, Behind, Under, Child, Plug, Painted, Raised, Spots, Position, SiblingAt, OuterPlace;
    var x := Upper(p, t);
    var s, i, g := Spots(p, t), Position(p.up, x), Position(p.up.up, Upper(p.up, x));
    Elders(p, t);
    Elders(p.up, x);
    Siblings(p.up, x);
    Higher(p, t);
    OuterSpots(p, t);
    assert TurnsOuter(At(p, t, sentinel), i, g, At(OuterPlace(p), t, sentinel));
    assert TurnsUnder(At(p, t, sentinel), i, g, At(OuterPlace(p), t, sentinel));
  }

  /** After the two rotations that lift the node over its parent and grandparent: the old parent's place. */
  function InnerPlace(p: Path, t: Tree): Path
    requires t.Branch? && !p.Top? && !p.up.Top?
  {
    if p.InLeft? then InRight(Branch(Sibling(p.up), Red, p.up.entry, t.left), t.color, t.entry, p.up.up)
    else InLeft(p.up.up, t.color, t.entry, Branch(t.right, Red, p.up.entry, Sibling(p.up)))
  }

  /** The old parent, with what it keeps, painted black. */
  function InnerTree(p: Path, t: Tree): Tree
    requires t.Branch? && !p.Top?
  {
    if p.InLeft? then Branch(t.right, Black, p.entry, p.right) else Branch(p.left, Black, p.entry, t.left)
  }

  /** The old parent's place after the first of the two rotations. */
  function FirstPlace(p: Path, t: Tree): (q: Path)
    requires t.Branch? && !p.Top?
    ensures !q.Top? && q.up == p.up
  {
    if p.InLeft? then InRight(t.left, t.color, t.entry, p.up) else InLeft(p.up, t.color, t.entry, t.right)
  }

  /** The first of the two rotations, where there may be no grandparent. */
  lemma FirstRotation(p: Path, t: Tree)
    requires t.Branch? && !p.Top?
    ensures var s, i, k := Spots(p, t), Position(p.up, Upper(p, t)), Position(p, t);
            var q := FirstPlace(p, t);
            && 0 <= i < |s| && Spots(q, InnerTree(p, t)) == Painted(Raised(s, k, i), i, Black)
            && Position(q, InnerTree(p, t)) == i && q.up == p.up && Position(p.up, Upper(q, InnerTree(p, t))) == k
  {
    hide Layout, Ahead, Behind, Under, Plug, Painted, Raised, Spots, Position, Size, LeftAt, RightAt;
    var x := Upper(p, t);
    var q := FirstPlace(p, t);
    Elders(p, t);
    RotatedAt(p, t);
    Halves(p.up, x);
    Halves(p.up, Rotated(x, p.InLeft?));
    Subtree(p.up, x);
    var y := if p.InLeft? then Branch(t.right, p.color, p.entry, p.right) else Branch(p.left, p.color, p.entry, t.left);
    assert Upper(q, y) == Rotated(x, p.InLeft?);
    Higher(q, y);
    if p.InLeft? { RotatedRight(p.up, x); } else { RotatedLeft(p.up, x); }
    Repainted(q, y, Black);
    SamePlaces(q, y, Black);
  }

  lemma ParentPlace(p: Path, x: Tree, z: Tree)
    requires !p.Top? && Size(x) == Size(z)
    ensures Position(p.up, Upper(p, x)) == Position(p.up, Upper(p, z))
  {
  }

  lemma InnerPosition(p: Path, t: Tree)
    requires t.Branch? && !p.Top? && !p.up.Top? && !SameSide(p)
    ensures var q := FirstPlace(p, t);
            var y, w := InnerTree(p, t), InnerPlace(p, t);
            && Size(Upper(q, y)) == Size(Upper(p, t)) && Position(w, y) == Position(q, y) && w.up == p.up.up
            && Upper(w, y) == Rotated(Upper(p.up.(color := Red), Upper(q, y)), p.up.InLeft?)
  {
    hide Ahead;
    var q := FirstPlace(p, t);
    AheadSize(q);
    AheadSize(p.up);
    AheadSize(InnerPlace(p, t));
  }

  lemma InnerSpots(p: Path, t: Tree)
    requires t.Branch? && !p.Top? && !p.up.Top? && !SameSide(p)
    ensures var s, x, k := Spots(p, t), Upper(p, t), Position(p, t);
            var i, g := Position(p.up, x), Position(p.up.up, Upper(p.up, x));
            && 0 <= i < |s| && g < |s|
            && Spots(InnerPlace(p, t), InnerTree(p, t))
            == Raised(Painted(Painted(Raised(s, k, i), i, Black), g, Red), k, g)
            && Position(InnerPlace(p, t), InnerTree(p, t)) == i
  {
    hide Layout, Ahead, Behind, Under, Child, Plug, Painted, Raised, Spots, Position, Size;
    var x, up1, y := Upper(p, t), p.up.(color := Red), InnerTree(p, t);
    var q := FirstPlace(p, t);
    var z := Upper(q, y);
    InnerPosition(p, t);
    ParentPlace(p.up, x, z);
    FirstRotation(p, t);
    Higher(p, t);
    Higher(q, y);
    PaintedParent(p.up, z, Red);
    RotatedAt(up1, z);
    Higher(InnerPlace(p, t), y);
  }

  /** On different sides, and no uncle is red. */
  lemma InnerTurn(p: Path, t: Tree, sentinel: Color)
    requires t.Branch? && !p.Top? && p.color == Red && !p.up.Top? && !IsRed(Sibling(p.up)) && !SameSide(p)
    ensures Turn(At(p, t, sentinel), At(InnerPlace(p, t), InnerTree(p, t), sentinel))
  {
    hide Layout, Ahead, Behind, Under, Child, Plug, Painted, Raised, Spots, Position, SiblingAt, InnerPlace, InnerTree;
    var x, y := Upper(p, t), At(InnerPlace(p, t), InnerTree(p, t), sentinel);
    var s, i, g := Spots(p, t), Position(p.up, x), Position(p.up.up, Upper(p.up, x));
    Elders(p, t);
    Elders(p.up, x);
    Siblings(p.up, x);
    Higher(p, t);
    InnerSpots(p, t);
    assert TurnsInner(At(p, t, sentinel), i, g, y);
    assert TurnsUnder(At(p, t, sentinel), i, g, y);
  }

  /** The parent is the root. */
  lemma TopTurn(p: Path, t: Tree, sentinel: Color)
    requires t.Branch? && !p.Top? && p.color == Red && p.up.Top?
    ensures p.InLeft? ==>
        Turn(At(p, t, sentinel), At(InRight(t.left, t.color, t.entry, Top), InnerTree(p, t), Red))
    ensures p.InRight? ==> Turn(At(p, t, sentinel), At(InRight(p.left, Black, p.entry, p.up), t, Red))
  {
    hide Layout, Ahead, Behind, Under, Child, Plug, Painted, Raised, Spots, Position;
    var i := Position(p.up, Upper(p, t));
    Elders(p, t);
    if p.InLeft? {
      FirstRotation(p, t);
      assert TurnsTop(At(p, t, sentinel), i, At(InRight(t.left, t.color, t.entry, Top), InnerTree(p, t), Red));
    } else {
      PaintedParent(p, t, Black);
      assert TurnsTop(At(p, t, sentinel), i, At(InRight(p.left, Black, p.entry, p.up), t, Red));
    }
  }

  lemma BlackParentSettled(p: Path, t: Tree, sentinel: Color)
    requires t.Branch? && (p.Top? || p.color == Black)
    ensures Settled(At(p, t, sentinel))
  {
    hide Layout, Ahead, Behind, Under, Child, Plug, Spots, Position;
    Parent(p, t);
    if !p.Top? { Elders(p, t); }
  }

  lemma RootBlackened(t: Tree)
    ensures Layout(Blacken(t), 0) == RootBlack(Layout(t, 0))
  {
    if t.Branch? {
      RootSpot(t, 0);
      RootSpot(Blacken(t), 0);
      var l, m := Layout(t, 0), Layout(Blacken(t), 0);
      assert forall j :: 0 <= j < |l| && j != Size(t.left) ==> m[j] == l[j];
    }
  }

  /** What the loop does next, on values. */
  lemma NextPlace(p: Path, t: Tree)
    requires t.Branch? && !p.Top? && p.color == Red
    ensures var (q, u) := Next(p, t);
            u.Branch? && Fixup(p, t) == Fixup(q, u) && (TurnsNilRed(p, t) <==> p.up.Top? || TurnsNilRed(q, u))
  {
    hide Plug, Blacken;
    if p.InRight? && p.up.Top? { Unpainted(p, t); }
  }

  lemma Unpainted(p: Path, t: Tree)
    requires t.Branch? && p.InRight? && p.up.Top?
    ensures Fixup(InRight(p.left, Black, p.entry, p.up), t) == Blacken(Plug(InRight(p.left, Black, p.entry, p.up), t))
  {
  }

  /** The place the loop's node has after a turn, and what it carries there. */
  function Next(p: Path, t: Tree): (r: (Path, Tree))
    requires t.Branch? && !p.Top? && p.color == Red
    ensures r.1.Branch?
    ensures Depth(r.0) < Depth(p) || (Depth(r.0) == Depth(p) && p.InLeft? && r.0.InRight?) || r.0.color == Black
  {
    if p.up.Top? then
      if p.InLeft? then (InRight(t.left, t.color, t.entry, Top), InnerTree(p, t))
      else (InRight(p.left, Black, p.entry, p.up), t)
    else if IsRed(Sibling(p.up)) then (p.up.up, Recolored(p, t))
    else if SameSide(p) then (OuterPlace(p), t)
    else (InnerPlace(p, t), InnerTree(p, t))
  }

  /**
   The insert fixup of every tree, from a node of every colour: it is a chain of turns, and then the
   root is painted black.  The colour of the sentinel is that of the last turn.
   */
  lemma {:induction false} FixupChain(p: Path, t: Tree, sentinel: Color) returns (run: seq<Stage>)
    requires t.Branch?
    ensures Chain(At(p, t, sentinel), run)
    ensures var y := run[|run| - 1];
            && RootBlack(y.spots) == Layout(Fixup(p, t), 0)
            && y.sentinel == if TurnsNilRed(p, t) then Red else sentinel
    decreases if p.Top? || p.color == Black then 0 else 1, Depth(p), if p.InLeft? then 1 else 0
  {
    hide Layout, Turn, Settled, RootBlack, Plug, Next, Fixup, TurnsNilRed;
    var x := At(p, t, sentinel);
    if p.Top? || p.color == Black {
      run := [x];
      BlackParentSettled(p, t, sentinel);
      FixupEnds(p, t);
    } else {
      var (q, u) := Next(p, t);
      var sentinel' := if p.up.Top? then Red else sentinel;
      NextPlace(p, t);
      NextTurn(p, t, sentinel);
      var rest := FixupChain(q, u, sentinel');
      run := [x] + rest;
    }
  }

  lemma FixupEnds(p: Path, t: Tree)
    requires t.Branch? && (p.Top? || p.color == Black)
    ensures Layout(Fixup(p, t), 0) == RootBlack(Spots(p, t)) && !TurnsNilRed(p, t)
  {
    RootBlackened(Plug(p, t));
  }

  lemma NextTurn(p: Path, t: Tree, sentinel: Color)
    requires t.Branch? && !p.Top? && p.color == Red
    ensures var (q, u) := Next(p, t);
            Turn(At(p, t, sentinel), At(q, u, if p.up.Top? then Red else sentinel))
  {
    hide Turn, At;
    if p.up.Top? {
      TopTurn(p, t, sentinel);
    } else if IsRed(Sibling(p.up)) {
      RecolorTurn(p, t, sentinel);
    } else if SameSide(p) {
      OuterTurn(p, t, sentinel);
    } else {
      InnerTurn(p, t, sentinel);
    }
  }

  /** No turn but the one of the loop leads on. */
  lemma OnlyTurn(p: Path, t: Tree, sentinel: Color, y: Stage)
    requires t.Branch? && Turn(At(p, t, sentinel), y)
    ensures !p.Top? && p.color == Red
    ensures var (q, u) := Next(p, t); y == At(q, u, if p.up.Top? then Red else sentinel)
  {
    hide Layout, Ahead, Behind, Under, Plug, Painted, Raised, Spots, Position, SiblingAt, Next, Child;
    hide InnerTree, InnerPlace, OuterPlace, Recolored;
    var x := At(p, t, sentinel);
    Parent(p, t);
    if !p.Top? {
      Elders(p, t);
      if p.color == Red {
        Higher(p, t);
        UpperColor(p, t);
        Parent(p.up, Upper(p, t));
        NextTurn(p, t, sentinel);
        if !p.up.Top? { Elders(p.up, Upper(p, t)); Siblings(p.up, Upper(p, t)); }
      }
    }
  }

  /** Two trees with the same spots are the same tree. */
  lemma {:induction false} SpotsTellTrees(t: Tree, u: Tree, d: int)
    requires Layout(t, d) == Layout(u, d)
    ensures t == u
  {
    if t.Branch? {
      RootSpot(t, d);
      RootSpot(u, d);
      var l, m := Layout(t, d), Size(t.left);
      assert l[Size(u.left)].depth == d;
      assert l[..m] == Layout(t.left, d + 1) && l[m + 1..] == Layout(t.right, d + 1) by { Depths(t.left, d + 1); }
      assert l[..m] == Layout(u.left, d + 1) && l[m + 1..] == Layout(u.right, d + 1) by { Depths(u.left, d + 1); }
      SpotsTellTrees(t.left, u.left, d + 1);
      SpotsTellTrees(t.right, u.right, d + 1);
    }
  }

  /** Whatever chain of turns is followed, it ends at what the loop leaves. */
  lemma {:induction false} EveryChain(p: Path, t: Tree, sentinel: Color, run: seq<Stage>)
    requires t.Branch? && Chain(At(p, t, sentinel), run)
    ensures var y := run[|run| - 1];
            && RootBlack(y.spots) == Layout(Fixup(p, t), 0)
            && y.sentinel == if TurnsNilRed(p, t) then Red else sentinel
    decreases |run|
  {
    hide Layout, Turn, Settled, RootBlack, Plug, Next, Fixup, TurnsNilRed, At;
    if |run| == 1 {
      SettledEnds(p, t, sentinel);
      FixupEnds(p, t);
      AtIs(p, t, sentinel);
    } else {
      assert Turn(run[0], run[1]);
      OnlyTurn(p, t, sentinel, run[1]);
      var (q, u) := Next(p, t);
      NextPlace(p, t);
      var rest := run[1..];
      assert forall i {:trigger rest[i]} :: 0 < i < |rest| ==> rest[i - 1] == run[i] && rest[i] == run[i + 1];
      EveryChain(q, u, if p.up.Top? then Red else sentinel, rest);
    }
  }

  lemma AtIs(p: Path, t: Tree, sentinel: Color)
    ensures At(p, t, sentinel) == Stage(Spots(p, t), Position(p, t), sentinel)
  {
  }

  lemma SettledEnds(p: Path, t: Tree, sentinel: Color)
    requires t.Branch? && Settled(At(p, t, sentinel))
    ensures p.Top? || p.color == Black
  {
    hide Layout, Ahead, Behind, Under, Child, Plug, Spots, Position;
    if !p.Top? { Elders(p, t); }
  }

  // ---------------------------------------------------------------------------------------
  // The insertion
  // ---------------------------------------------------------------------------------------

  function Entries(s: seq<Spot>): (r: seq<Entry>)
    ensures |r| == |s| && forall j :: 0 <= j < |s| ==> r[j] == s[j].entry
  {
    seq(|s|, j requires 0 <= j < |s| => s[j].entry)
  }

  /** The depth of a new leaf before position `k`: one below the deeper of its neighbours. */
  function LeafDepth(s: seq<Spot>, k: nat): int
    requires k <= |s|
  {
    var before, after := if k == 0 then -1 else s[k - 1].depth, if k == |s| then -1 else s[k].depth;
    1 + if before < after then after else before
  }

  function Planted(s: seq<Spot>, k: nat, e: Entry): (r: seq<Spot>)
    requires k <= |s|
  {
    s[..k] + [Spot(e, Red, LeafDepth(s, k))] + s[k..]
  }

  lemma {:induction false} LayoutEntries(t: Tree, d: int)
    ensures Entries(Layout(t, d)) == InOrder(t)
  {
    if t.Branch? {
      LayoutEntries(t.left, d + 1);
      LayoutEntries(t.right, d + 1);
    }
  }

  lemma {:induction false} PathEntries(p: Path)
    ensures Entries(Ahead(p)) == Before(p) && Entries(Behind(p)) == After(p)
  {
    match p
    case Top =>
    case InLeft(up, _, _, r) =>
      PathEntries(up);
      LayoutEntries(r, Depth(p));
    case InRight(l, _, _, up) =>
      PathEntries(up);
      LayoutEntries(l, Depth(p));
  }

  lemma {:induction false} DescendPlug(p: Path, t: Tree, key: int)
    ensures Plug(Descend(p, t, key), Leaf) == Plug(p, t)
    decreases t
  {
    if t.Branch? {
      if key < t.entry.key {
        DescendPlug(InLeft(p, t.color, t.entry, t.right), t.left, key);
      } else {
        DescendPlug(InRight(t.left, t.color, t.entry, p), t.right, key);
      }
    }
  }

  /** The parent of a leaf is the deeper one of its neighbours. */
  lemma Deepest(p: Path)
    ensures Ahead(p) != [] ==> Ahead(p)[|Ahead(p)| - 1].depth < Depth(p)
    ensures Behind(p) != [] ==> Behind(p)[0].depth < Depth(p)
    ensures p.InLeft? ==> Behind(p) != [] && Behind(p)[0].depth == Depth(p) - 1
    ensures p.InRight? ==> Ahead(p) != [] && Ahead(p)[|Ahead(p)| - 1].depth == Depth(p) - 1
    ensures p.Top? ==> Ahead(p) == [] && Behind(p) == []
  {
    Neighbours(p);
  }

  /** A leaf under `p` is one below the deeper of its neighbours. */
  lemma PlantedAt(p: Path, e: Entry)
    ensures var s, k := Spots(p, Leaf), |Ahead(p)|;
            && k <= |s| && LeafDepth(s, k) == Depth(p) && Spots(p, Branch(Leaf, Red, e, Leaf)) == Planted(s, k, e)
            && Position(p, Branch(Leaf, Red, e, Leaf)) == k
  {
    var s, k, leaf := Spots(p, Leaf), |Ahead(p)|, Branch(Leaf, Red, e, Leaf);
    SpotsSplit(p, Leaf);
    SpotsSplit(p, leaf);
    Deepest(p);
    assert Layout(Leaf, Depth(p)) == [] && Layout(leaf, Depth(p)) == [Spot(e, Red, Depth(p))];
    hide Layout, Plug, Ahead, Behind, Spots;
    Joint(s, Ahead(p), Behind(p));
  }

  lemma Joint(s: seq<Spot>, a: seq<Spot>, b: seq<Spot>)
    requires s == a + [] + b
    ensures s[..|a|] == a && s[|a|..] == b
    ensures a != [] ==> s[|a| - 1] == a[|a| - 1]
    ensures b != [] ==> |s| > |a| && s[|a|] == b[0]
  {
  }

  /**
   Insertion into every tree in search order: a red leaf behind all keys at most its own, a chain of
   turns from there, and a black root.
   */
  lemma InsertChain(t: Tree, e: Entry, sentinel: Color) returns (k: nat, run: seq<Stage>)
    requires t.Branch? && SortedKeys(InOrder(t))
    ensures k <= |InOrder(t)| == |Layout(t, 0)| && Splits(InOrder(t)[..k], InOrder(t)[k..], e.key)
    ensures Chain(Stage(Planted(Layout(t, 0), k, e), k, sentinel), run)
    ensures Layout(Insert(t, e), 0) == RootBlack(run[|run| - 1].spots)
    ensures InsertNil(t, e, sentinel) == run[|run| - 1].sentinel
  {
    hide Layout, Chain, Fixup, TurnsNilRed, RootBlack, Planted;
    var q, leaf := Descend(Top, t, e.key), Branch(Leaf, Red, e, Leaf);
    k := |Ahead(q)|;
    assert Whole(Top, t) == InOrder(t);
    DescendSplits(Top, t, e.key);
    DescendPlug(Top, t, e.key);
    PathEntries(q);
    LayoutEntries(t, 0);
    PlantedAt(q, e);
    assert Spots(q, Leaf) == Layout(t, 0);
    run := FixupChain(q, leaf, sentinel);
    assert InOrder(t)[..k] == Before(q) && InOrder(t)[k..] == After(q);
  }
}
