/**
 Deletion from the red-black tree of src/lu_hash_table.c, on values: the transplant phase, the
 fixup with its rotations, for every tree and every colour of the sentinel, and whole runs.
 */
module RedBlackDelete {
  import opened RedBlackModel

  /** lu_rb_tree_minimum: the entry, colour and right child of the leftmost node. */
  function Least(t: Tree): Tree
    requires t.Branch?
    ensures Least(t).Branch? && Least(t).left.Leaf?
  {
    if t.left.Leaf? then t else Least(t.left)
  }

  /** The tree with `x` in place of its leftmost node. */
  function ReplaceLeast(t: Tree, x: Tree): Tree
    requires t.Branch?
  {
    if t.left.Leaf? then x else t.(left := ReplaceLeast(t.left, x))
  }

  /** The node that is spliced out: the deleted one itself, or its successor. */
  function Victim(t: Tree): Tree
    requires t.Branch?
    ensures Victim(t).Branch? && (Victim(t).left.Leaf? || Victim(t).right.Leaf?)
  {
    if t.left.Leaf? || t.right.Leaf? then t else Least(t.right)
  }

  /** Its only child, which takes its place. */
  function Heir(t: Tree): Tree
    requires t.Branch?
  {
    var y := Victim(t);
    if y.left.Leaf? then y.right else y.left
  }

  /** The three cases of the transplant phase, with `x` in the place of the heir. */
  function Transplanted(t: Tree, x: Tree): Tree
    requires t.Branch?
  {
    if t.left.Leaf? || t.right.Leaf? then x
    else Branch(t.left, t.color, Least(t.right).entry, ReplaceLeast(t.right, x))
  }

  /** The place of the leftmost node of `t`, where `t` itself sits at `p`. */
  function LeastHole(p: Path, t: Tree): Path
    requires t.Branch?
    decreases t
  {
    if t.left.Leaf? then p else LeastHole(InLeft(p, t.color, t.entry, t.right), t.left)
  }

  /** The place the heir ends up at. */
  function HoleOf(p: Path, t: Tree): Path
    requires t.Branch?
  {
    if t.left.Leaf? || t.right.Leaf? then p
    else LeastHole(InRight(t.left, t.color, Least(t.right).entry, p), t.right)
  }

  /** The left turns of `p`, from another start. */
  function Rebase(p: Path, start: Path): Path {
    match p
    case InLeft(up, c, e, r) => InLeft(Rebase(up, start), c, e, r)
    case _ => start
  }

  lemma {:induction false} PlugLeast(p: Path, t: Tree, x: Tree)
    requires t.Branch?
    ensures Plug(LeastHole(p, t), x) == Plug(p, ReplaceLeast(t, x))
    decreases t
  {
    if t.left.Branch? { PlugLeast(InLeft(p, t.color, t.entry, t.right), t.left, x); }
  }

  lemma {:induction false} RebaseLeast(p: Path, start: Path, t: Tree)
    requires t.Branch?
    ensures Rebase(LeastHole(p, t), start) == LeastHole(Rebase(p, start), t)
    decreases t
  {
    if t.left.Branch? { RebaseLeast(InLeft(p, t.color, t.entry, t.right), start, t.left); }
  }

  /** Whatever takes the heir's place, the rest of the tree is the same. */
  lemma PlugHole(p: Path, t: Tree, x: Tree)
    requires t.Branch?
    ensures Plug(HoleOf(p, t), x) == Plug(p, Transplanted(t, x))
  {
    if t.left.Branch? && t.right.Branch? {
      PlugLeast(InRight(t.left, t.color, Least(t.right).entry, p), t.right, x);
    }
  }

  /** lu_hash_rb_tree_find: where the node is, and its subtree; a leaf if there is none. */
  function Search(p: Path, t: Tree, key: int): (Path, Tree)
    decreases t
  {
    match t
    case Leaf => (p, t)
    case Branch(l, c, e, r) =>
      if key == e.key then (p, t)
      else if key < e.key then Search(InLeft(p, c, e, r), l, key)
      else Search(InRight(l, c, e, p), r, key)
  }

  // ---------------------------------------------------------------------------------------
  // The fixup
  // ---------------------------------------------------------------------------------------

  /** The colour of a node, where the sentinel has a colour of its own. */
  function ColorOf(t: Tree, sentinel: Color): Color {
    if t.Leaf? then sentinel else t.color
  }

  function LeftOf(t: Tree): Tree {
    if t.Leaf? then Leaf else t.left
  }

  function RightOf(t: Tree): Tree {
    if t.Leaf? then Leaf else t.right
  }

  function Redden(t: Tree): Tree {
    if t.Leaf? then t else t.(color := Red)
  }

  /** A rotation onto the sentinel: the subtree of the parent, which sat at `up`, is cut off. */
  function CutOff(up: Path): Tree {
    Blacken(Plug(up, Leaf))
  }

  function One(c: Color): nat {
    if c == Black then 1 else 0
  }

  /**
   The loop of lu_rb_tree_delete_fixup, started at a node that carries `t`: the tree, and the
   colour of the sentinel.
   */
  function DeleteFixup(p: Path, t: Tree, sentinel: Color): (Tree, Color)
    requires t.Branch?
    decreases 2 * Depth(p) + One(t.color), 0
  {
    if p.Top? || t.color == Red then (Plug(p, Blacken(t)), sentinel)
    else match p
      case InLeft(up, c, e, s) => (
        if ColorOf(s, sentinel) == Black then FixLeft(up, c, e, s, t, sentinel)
        else match s
          case Leaf => (CutOff(up), Black)
          case Branch(sl, _, se, sr) => FixLeft(InLeft(up, Black, se, sr), Red, e, sl, t, sentinel))
      case InRight(s, c, e, up) => (
        if ColorOf(s, sentinel) == Black then FixRight(up, c, e, s, t, sentinel)
        else match s
          case Leaf => (CutOff(up), Black)
          case Branch(sl, _, se, sr) => FixRight(InRight(sl, Black, se, up), Red, e, sr, t, sentinel))
  }

  /** The cases after the first one: `t` is a left child, `s` its sibling, the parent has colour `c`. */
  function FixLeft(up: Path, c: Color, e: Entry, s: Tree, t: Tree, sentinel: Color): (Tree, Color)
    requires t.Branch?
    decreases 2 * Depth(up) + One(c), 1
  {
    if ColorOf(LeftOf(s), sentinel) == Black && ColorOf(RightOf(s), sentinel) == Black then
      DeleteFixup(up, Branch(t, c, e, Redden(s)), if s.Leaf? then Red else sentinel)
    else match s
      case Leaf => (CutOff(up), Black)
      case Branch(sl, _, se, sr) =>
        if ColorOf(sr, sentinel) == Red then
          (Blacken(Plug(up, Branch(Branch(t, Black, e, sl), c, se, Blacken(sr)))),
              if sr.Leaf? then Black else sentinel)
        else match sl
          case Leaf => (CutOff(up), if up.Top? then Black else c)
          case Branch(a, _, ae, b) =>
            (Blacken(Plug(up, Branch(Branch(t, Black, e, a), c, ae, Branch(b, Black, se, sr)))), sentinel)
  }

  /** The mirror image. */
  function FixRight(up: Path, c: Color, e: Entry, s: Tree, t: Tree, sentinel: Color): (Tree, Color)
    requires t.Branch?
    decreases 2 * Depth(up) + One(c), 1
  {
    if ColorOf(RightOf(s), sentinel) == Black && ColorOf(LeftOf(s), sentinel) == Black then
      DeleteFixup(up, Branch(Redden(s), c, e, t), if s.Leaf? then Red else sentinel)
    else match s
      case Leaf => (CutOff(up), Black)
      case Branch(sl, _, se, sr) =>
        if ColorOf(sl, sentinel) == Red then
          (Blacken(Plug(up, Branch(Blacken(sl), c, se, Branch(sr, Black, e, t)))),
              if sl.Leaf? then Black else sentinel)
        else match sr
          case Leaf => (CutOff(up), if up.Top? then Black else c)
          case Branch(a, _, ae, b) =>
            (Blacken(Plug(up, Branch(Branch(sl, Black, se, a), c, ae, Branch(b, Black, e, t)))), sentinel)
  }

  /** The child of the sibling on the side of the node, and on the far side. */
  function Near(p: Path, s: Tree): Tree {
    if p.InLeft? then LeftOf(s) else RightOf(s)
  }

  function Far(p: Path, s: Tree): Tree {
    if p.InLeft? then RightOf(s) else LeftOf(s)
  }

  predicate BlackChildren(s: Tree, sentinel: Color) {
    ColorOf(LeftOf(s), sentinel) == Black && ColorOf(RightOf(s), sentinel) == Black
  }

  /** A black far child, and a missing near one that counts as red. */
  predicate Stuck(p: Path, s: Tree, sentinel: Color) {
    sentinel == Red && Near(p, s).Leaf? && Far(p, s).Branch? && Far(p, s).color == Black
  }

  /**
   Does the loop, at a node of this colour, rotate onto the sentinel?  It climbs past siblings
   with black children; a missing sibling on the way turns the sentinel red.  The first other
   sibling decides, and only a red sentinel can make it fatal.
   */
  predicate Loses(p: Path, color: Color, sentinel: Color) {
    if p.Top? || color == Red then false
    else
      var s := Sibling(p);
      if s.Leaf? then sentinel == Red || Loses(p.up, p.color, Red)
      else if s.color == Red then
        if Near(p, s).Leaf? then sentinel == Red else Stuck(p, Near(p, s), sentinel)
      else if BlackChildren(s, sentinel) then Loses(p.up, p.color, sentinel)
      else Stuck(p, s, sentinel)
  }

  /** The same question once the sibling `s` is not the red one of the first case. */
  predicate RestLoses(p: Path, s: Tree, sentinel: Color)
    requires !p.Top?
  {
    if BlackChildren(s, sentinel) then Loses(p.up, p.color, if s.Leaf? then Red else sentinel)
    else s.Leaf? || Stuck(p, s, sentinel)
  }

  /** Without the fatal rotation the fixup moves no entry, whatever the colours. */
  lemma {:induction false} DeleteFixupInOrder(p: Path, t: Tree, sentinel: Color)
    requires t.Branch? && !Loses(p, t.color, sentinel)
    ensures InOrder(DeleteFixup(p, t, sentinel).0) == Whole(p, t)
    decreases 2 * Depth(p) + One(t.color), 0
  {
    if p.Top? || t.color == Red {
      PlugInOrder(p, Blacken(t));
      BlackenInOrder(t);
    } else {
      match p
      case InLeft(up, c, e, s) =>
        Lift(p, t, c);
        if ColorOf(s, sentinel) == Black {
          FixLeftInOrder(up, c, e, s, t, sentinel);
        } else {
          Rotation(t, e, s.left, s.entry, s.right, Red, Black, c, s.color);
          var up' := InLeft(up, Black, s.entry, s.right);
          Lift(up', Branch(t, Red, e, s.left), Black);
          FixLeftInOrder(up', Red, e, s.left, t, sentinel);
        }
      case InRight(s, c, e, up) =>
        Lift(p, t, c);
        if ColorOf(s, sentinel) == Black {
          FixRightInOrder(up, c, e, s, t, sentinel);
        } else {
          Rotation(s.left, s.entry, s.right, e, t, s.color, c, Black, Red);
          var up' := InRight(s.left, Black, s.entry, up);
          Lift(up', Branch(s.right, Red, e, t), Black);
          FixRightInOrder(up', Red, e, s.right, t, sentinel);
        }
    }
  }

  lemma {:induction false} FixLeftInOrder(up: Path, c: Color, e: Entry, s: Tree, t: Tree, sentinel: Color)
    requires t.Branch?
    requires BlackChildren(s, sentinel) ==> !Loses(up, c, if s.Leaf? then Red else sentinel)
    requires !BlackChildren(s, sentinel) ==> s.Branch? && !Stuck(InLeft(up, c, e, s), s, sentinel)
    ensures InOrder(FixLeft(up, c, e, s, t, sentinel).0) == Whole(up, Branch(t, c, e, s))
    decreases 2 * Depth(up) + One(c), 1
  {
    if BlackChildren(s, sentinel) {
      ReddenInOrder(s);
      DeleteFixupInOrder(up, Branch(t, c, e, Redden(s)), if s.Leaf? then Red else sentinel);
    } else {
      var Branch(sl, _, se, sr) := s;
      if ColorOf(sr, sentinel) == Red {
        var r := Branch(Branch(t, Black, e, sl), c, se, Blacken(sr));
        Rotation(t, e, sl, se, Blacken(sr), Black, c, c, s.color);
        BlackenInOrder(sr);
        assert InOrder(Branch(sl, s.color, se, Blacken(sr))) == InOrder(s);
        BlackenedPlug(up, r);
      } else {
        var Branch(a, _, ae, b) := sl;
        var r := Branch(Branch(t, Black, e, a), c, ae, Branch(b, Black, se, sr));
        Rotation(a, ae, b, se, sr, sl.color, s.color, c, Black);
        Rotation(t, e, a, ae, Branch(b, Black, se, sr), Black, c, c, c);
        BlackenedPlug(up, r);
      }
    }
  }

  lemma {:induction false} FixRightInOrder(up: Path, c: Color, e: Entry, s: Tree, t: Tree, sentinel: Color)
    requires t.Branch?
    requires BlackChildren(s, sentinel) ==> !Loses(up, c, if s.Leaf? then Red else sentinel)
    requires !BlackChildren(s, sentinel) ==> s.Branch? && !Stuck(InRight(s, c, e, up), s, sentinel)
    ensures InOrder(FixRight(up, c, e, s, t, sentinel).0) == Whole(up, Branch(s, c, e, t))
    decreases 2 * Depth(up) + One(c), 1
  {
    if BlackChildren(s, sentinel) {
      ReddenInOrder(s);
      DeleteFixupInOrder(up, Branch(Redden(s), c, e, t), if s.Leaf? then Red else sentinel);
    } else {
      var Branch(sl, _, se, sr) := s;
      if ColorOf(sl, sentinel) == Red {
        var r := Branch(Blacken(sl), c, se, Branch(sr, Black, e, t));
        Rotation(Blacken(sl), se, sr, e, t, s.color, c, c, Black);
        BlackenInOrder(sl);
        assert InOrder(Branch(Blacken(sl), s.color, se, sr)) == InOrder(s);
        BlackenedPlug(up, r);
      } else {
        var Branch(a, _, ae, b) := sr;
        var r := Branch(Branch(sl, Black, se, a), c, ae, Branch(b, Black, e, t));
        Rotation(sl, se, a, ae, b, Black, c, s.color, sr.color);
        Rotation(Branch(sl, Black, se, a), ae, b, e, t, c, c, c, Black);
        BlackenedPlug(up, r);
      }
    }
  }

  lemma BlackenedPlug(p: Path, t: Tree)
    ensures InOrder(Blacken(Plug(p, t))) == Whole(p, t)
  {
    PlugInOrder(p, t);
    BlackenInOrder(Plug(p, t));
  }

  lemma ReddenInOrder(t: Tree)
    ensures InOrder(Redden(t)) == InOrder(t)
  {
  }

  /** The fatal rotation cuts a whole subtree off, at some place on the way up. */
  lemma {:induction false} DeleteFixupLoses(p: Path, t: Tree, sentinel: Color) returns (q: Path, cut: Tree)
    requires t.Branch? && Loses(p, t.color, sentinel)
    ensures cut.Branch? && Whole(q, cut) == Whole(p, t) && DeleteFixup(p, t, sentinel).0 == CutOff(q)
    decreases Depth(p)
  {
    var s := Sibling(p);
    q, cut := p.up, if p.InLeft? then Branch(t, p.color, p.entry, s) else Branch(s, p.color, p.entry, t);
    Lift(p, t, p.color);
    if s.Leaf? || (s.color == Black && BlackChildren(s, sentinel)) {
      if ColorOf(s, sentinel) == Black {
        var climbed := if p.InLeft? then Branch(t, p.color, p.entry, Redden(s))
            else Branch(Redden(s), p.color, p.entry, t);
        ReddenInOrder(s);
        q, cut := DeleteFixupLoses(p.up, climbed, if s.Leaf? then Red else sentinel);
      }
    } else if s.color == Red {
      if p.InLeft? {
        q, cut := InLeft(p.up, Black, s.entry, s.right), Branch(t, Red, p.entry, s.left);
        Rotation(t, p.entry, s.left, s.entry, s.right, Red, Black, p.color, s.color);
        Lift(q, cut, Black);
      } else {
        q, cut := InRight(s.left, Black, s.entry, p.up), Branch(s.right, Red, p.entry, t);
        Rotation(s.left, s.entry, s.right, p.entry, t, s.color, p.color, Black, Red);
        Lift(q, cut, Black);
      }
    }
  }

  /** The tree and the colour of the sentinel after the deletion. */
  function Delete(t: Tree, key: int, sentinel: Color): (Tree, Color) {
    var (p, n) := Search(Top, t, key);
    if n.Leaf? then (t, sentinel)
    else if Victim(n).color == Red then (Plug(p, Transplanted(n, Heir(n))), sentinel)
    else if Heir(n).Leaf? then (Plug(p, Transplanted(n, Leaf)), Black)
    else DeleteFixup(HoleOf(p, n), Heir(n), sentinel)
  }

  /** The fixup, if the key is found and a black node goes, does not rotate onto the sentinel. */
  predicate Keeps(t: Tree, key: int, sentinel: Color) {
    var (p, n) := Search(Top, t, key);
    n.Branch? && Victim(n).color == Black && Heir(n).Branch? ==> !Loses(HoleOf(p, n), Heir(n).color, sentinel)
  }

  // ---------------------------------------------------------------------------------------
  // What is stored afterwards
  // ---------------------------------------------------------------------------------------

  lemma {:induction false} ReplaceLeastInOrder(t: Tree, x: Tree)
    requires t.Branch? && InOrder(x) == InOrder(Least(t).right)
    ensures InOrder(t) == [Least(t).entry] + InOrder(ReplaceLeast(t, x))
  {
    if t.left.Leaf? {
      assert InOrder(t) == [] + [t.entry] + InOrder(t.right);
    } else {
      ReplaceLeastInOrder(t.left, x);
      var a, b, c := [Least(t).entry], InOrder(ReplaceLeast(t.left, x)), [t.entry] + InOrder(t.right);
      assert InOrder(t) == (a + b) + [t.entry] + InOrder(t.right) == a + (b + [t.entry] + InOrder(t.right));
    }
  }

  /** The transplant phase removes exactly the entry of the node, in all three cases. */
  lemma TransplantedInOrder(t: Tree, x: Tree)
    requires t.Branch? && InOrder(x) == InOrder(Heir(t))
    ensures InOrder(Transplanted(t, x)) == InOrder(t.left) + InOrder(t.right)
  {
    if t.left.Leaf? {
      assert [] + InOrder(t.right) == InOrder(t.right);
    } else if t.right.Leaf? {
      assert InOrder(t.left) + [] == InOrder(t.left);
    } else {
      ReplaceLeastInOrder(t.right, x);
      var a, e, b := InOrder(t.left), [Least(t.right).entry], InOrder(ReplaceLeast(t.right, x));
      assert a + e + b == a + (e + b);
    }
  }

  lemma {:induction false} SearchWhole(p: Path, t: Tree, key: int)
    ensures var (q, n) := Search(p, t, key);
            Whole(q, n) == Whole(p, t) && Plug(q, n) == Plug(p, t) && (n.Branch? ==> n.entry.key == key)
    decreases t
  {
    match t
    case Leaf =>
    case Branch(l, c, e, r) =>
      if key < e.key {
        Lift(InLeft(p, c, e, r), l, c);
        SearchWhole(InLeft(p, c, e, r), l, key);
      } else if key > e.key {
        Lift(InRight(l, c, e, p), r, c);
        SearchWhole(InRight(l, c, e, p), r, key);
      }
  }

  lemma {:induction false} SearchMisses(p: Path, t: Tree, key: int)
    requires SortedKeys(InOrder(t)) && Search(p, t, key).1.Leaf?
    ensures forall e :: e in InOrder(t) ==> e.key != key
    decreases t
  {
    match t
    case Leaf =>
    case Branch(l, c, e, r) =>
      var s, m := InOrder(t), |InOrder(l)|;
      assert s[..m] == InOrder(l) && s[m] == e && s[m + 1..] == InOrder(r);
      if key < e.key {
        SearchLeft(s, m, key);
        SearchMisses(InLeft(p, c, e, r), l, key);
      } else {
        SearchRight(s, m, key);
        SearchMisses(InRight(l, c, e, p), r, key);
      }
  }

  /** `s` without the entry at position `k`. */
  function Without(s: seq<Entry>, k: nat): seq<Entry>
    requires k < |s|
  {
    s[..k] + s[k + 1..]
  }

  /** Once the transplant phase is over, exactly the entry of the node found is gone. */
  lemma Unlinked(t: Tree, key: int, x: Tree) returns (k: nat)
    requires Search(Top, t, key).1.Branch?
    requires InOrder(x) == InOrder(Heir(Search(Top, t, key).1))
    ensures k < |InOrder(t)| && InOrder(t)[k].key == key
    ensures var (p, n) := Search(Top, t, key);
            && InOrder(Plug(p, Transplanted(n, x))) == Without(InOrder(t), k)
            && Whole(HoleOf(p, n), x) == Without(InOrder(t), k)
  {
    hide InOrder, Plug, Transplanted, Heir, HoleOf, Search, Before, After, Without;
    var (p, n) := Search(Top, t, key);
    SearchWhole(Top, t, key);
    TransplantedInOrder(n, x);
    PlugInOrder(p, Transplanted(n, x));
    PlugHole(p, n, x);
    PlugInOrder(HoleOf(p, n), x);
    k := |Before(p)| + |InOrder(n.left)|;
    CutEntry(Before(p), InOrder(n.left), n.entry, InOrder(n.right), After(p));
    BranchInOrder(n);
    TopWhole(t);
  }

  /** `s` without the stretch from `i` to `j`. */
  function Cut(s: seq<Entry>, i: nat, j: nat): seq<Entry>
    requires i <= j <= |s|
  {
    s[..i] + s[j..]
  }

  /**
   What deleting a key that is found does to the in-order sequence: one entry with the key goes,
   and if the fixup rotates onto the sentinel, a whole stretch of other entries goes with it.
   */
  lemma DeleteFound(t: Tree, key: int, sentinel: Color) returns (k: nat, i: nat, j: nat)
    requires Search(Top, t, key).1.Branch?
    ensures k < |InOrder(t)| && InOrder(t)[k].key == key
    ensures i <= j <= |InOrder(t)| - 1
    ensures InOrder(Delete(t, key, sentinel).0) == Cut(Without(InOrder(t), k), i, j)
    ensures i == j <==> Keeps(t, key, sentinel)
  {
    hide InOrder, Plug, Transplanted, Heir, Victim, HoleOf, DeleteFixup, Loses, Search;
    var (p, n) := Search(Top, t, key);
    k := Unlinked(t, key, Heir(n));
    i, j := 0, 0;
    if Victim(n).color == Black && Heir(n).Branch? {
      if Keeps(t, key, sentinel) {
        DeleteFixupInOrder(HoleOf(p, n), Heir(n), sentinel);
      } else {
        var q, cut := DeleteFixupLoses(HoleOf(p, n), Heir(n), sentinel);
        BlackenedPlug(q, Leaf);
        i, j := |Before(q)|, |Before(q)| + |InOrder(cut)|;
        BranchInOrder(cut);
        LeafInOrder();
        assert Cut(Before(q) + InOrder(cut) + After(q), i, j) == Before(q) + [] + After(q);
      }
    } else {
      BlackenInOrder(Heir(n));
    }
  }

  /** A deletion removes one entry with the key and nothing else if and only if `Keeps` holds. */
  lemma DeleteExact(t: Tree, key: int, sentinel: Color)
    requires Search(Top, t, key).1.Branch?
    ensures Keeps(t, key, sentinel) <==>
            exists k :: 0 <= k < |InOrder(t)| && InOrder(t)[k].key == key
                     && InOrder(Delete(t, key, sentinel).0) == Without(InOrder(t), k)
  {
    hide Delete, InOrder, Search, Keeps;
    var k, i, j := DeleteFound(t, key, sentinel);
    if i == j {
      assert Cut(Without(InOrder(t), k), i, j) == Without(InOrder(t), k);
    } else {
      assert |Cut(Without(InOrder(t), k), i, j)| < |InOrder(t)| - 1;
    }
  }

  lemma LeafInOrder()
    ensures InOrder(Leaf) == []
  {
  }

  lemma BlackenInOrder(t: Tree)
    ensures InOrder(Blacken(t)) == InOrder(t)
  {
  }

  lemma BranchInOrder(t: Tree)
    requires t.Branch?
    ensures InOrder(t) == InOrder(t.left) + [t.entry] + InOrder(t.right)
  {
  }

  lemma TopWhole(t: Tree)
    ensures Whole(Top, t) == InOrder(t)
  {
  }

  /**
   In search order: the deletion takes one entry with the key if there is one, leaves the rest in
   order even when it loses a part of it, and changes nothing if there is none.
   */
  lemma DeleteInOrder(t: Tree, key: int, sentinel: Color) returns (k: nat, i: nat, j: nat)
    requires SortedKeys(InOrder(t))
    ensures SortedKeys(InOrder(Delete(t, key, sentinel).0))
    ensures (exists e :: e in InOrder(t) && e.key == key) ==>
              && k < |InOrder(t)| && InOrder(t)[k].key == key && i <= j <= |InOrder(t)| - 1
              && InOrder(Delete(t, key, sentinel).0) == Cut(Without(InOrder(t), k), i, j)
              && (i == j <==> Keeps(t, key, sentinel))
    ensures (forall e :: e in InOrder(t) ==> e.key != key) ==> Delete(t, key, sentinel) == (t, sentinel)
  {
    hide InOrder, Search, Delete, Keeps;
    if Search(Top, t, key).1.Leaf? {
      k, i, j := 0, 0, 0;
      SearchMisses(Top, t, key);
      NothingDeleted(t, key, sentinel);
    } else {
      k, i, j := DeleteFound(t, key, sentinel);
      assert InOrder(t)[k] in InOrder(t);
      CutSorted(InOrder(t), k, i, j);
    }
  }

  lemma CutSorted(s: seq<Entry>, k: nat, i: nat, j: nat)
    requires SortedKeys(s) && k < |s| && i <= j <= |s| - 1
    ensures SortedKeys(Cut(Without(s, k), i, j))
  {
    var w := Without(s, k);
    assert SortedKeys(w);
  }

  lemma NothingDeleted(t: Tree, key: int, sentinel: Color)
    requires Search(Top, t, key).1.Leaf?
    ensures Delete(t, key, sentinel) == (t, sentinel) && Keeps(t, key, sentinel)
  {
  }

  lemma CutEntry(b: seq<Entry>, l: seq<Entry>, e: Entry, r: seq<Entry>, a: seq<Entry>)
    ensures var s, k := b + (l + [e] + r) + a, |b| + |l|;
            s[k] == e && Without(s, k) == b + (l + r) + a
  {
    var s, k := b + (l + [e] + r) + a, |b| + |l|;
    assert s[..k] == b + l && s[k + 1..] == r + a;
  }

  // ---------------------------------------------------------------------------------------
  // Balance
  // ---------------------------------------------------------------------------------------

  lemma {:induction false} SearchSound(p: Path, t: Tree, key: int)
    requires Balanced(t) && NoRedRed(t) && Sound(p, BlackHeight(t)) && (IsRed(t) ==> RedFits(p))
    ensures var (q, n) := Search(p, t, key);
            Balanced(n) && NoRedRed(n) && Sound(q, BlackHeight(n)) && (IsRed(n) ==> RedFits(q))
    decreases t
  {
    match t
    case Leaf =>
    case Branch(l, c, e, r) =>
      if key < e.key {
        SearchSound(InLeft(p, c, e, r), l, key);
      } else if key > e.key {
        SearchSound(InRight(l, c, e, p), r, key);
      }
  }

  /** In a balanced tree a node with a missing child has at most a red leaf on the other side. */
  lemma OnlyChild(t: Tree)
    requires t.Branch? && Balanced(t) && NoRedRed(t) && (t.left.Leaf? || t.right.Leaf?)
    ensures var x := if t.left.Leaf? then t.right else t.left;
            x.Branch? ==> IsRed(x) && t.color == Black && BlackHeight(x) == 0
  {
  }

  lemma {:induction false} LeastBalanced(t: Tree)
    requires t.Branch? && Balanced(t) && NoRedRed(t)
    ensures Balanced(Least(t)) && NoRedRed(Least(t))
  {
    if t.left.Branch? { LeastBalanced(t.left); }
  }

  /** What replacing the leftmost node does to the balance. */
  lemma {:induction false} ReplaceLeastBalance(t: Tree)
    requires t.Branch? && Balanced(t) && NoRedRed(t)
    ensures var y := Least(t);
            var r := ReplaceLeast(t, if y.color == Black then Blacken(y.right) else y.right);
            if y.color == Red || IsRed(y.right)
            then Balanced(r) && NoRedRed(r) && BlackHeight(r) == BlackHeight(t) && (IsRed(r) ==> IsRed(t))
            else !Balanced(r) || BlackHeight(r) != BlackHeight(t)
  {
    LeastBalanced(t);
    OnlyChild(Least(t));
    if t.left.Branch? {
      ReplaceLeastBalance(t.left);
    }
  }

  /** A subtree of the wrong black height unbalances the tree above it. */
  lemma PlugWrongHeight(p: Path, t: Tree, h: nat)
    requires Sound(p, h) && !p.Top? && BlackHeight(t) != h
    ensures !Balanced(Plug(p, t))
  {
    match p
    case InLeft(up, c, e, r) => PlugBroken(up, Branch(t, c, e, r));
    case InRight(l, c, e, up) => PlugBroken(up, Branch(l, c, e, t));
  }

  /**
   From a red-black tree the fixup never has anything to rotate, so nothing is lost, whatever the
   colour of the sentinel.  The red-black rules survive exactly if a red node or one with a red
   child is spliced out, or the node was the only one.
   */
  lemma DeleteBalance(t: Tree, key: int, sentinel: Color)
    requires IsRedBlack(t) && Search(Top, t, key).1.Branch?
    ensures Keeps(t, key, sentinel)
    ensures var n := Search(Top, t, key).1;
            IsRedBlack(Delete(t, key, sentinel).0) <==>
              Victim(n).color == Red || IsRed(Heir(n)) || (t.left.Leaf? && t.right.Leaf?)
  {
    hide Search, Plug, Delete, Keeps, InOrder, IsRedBlack;
    var (p, n) := Search(Top, t, key);
    Rules(t);
    SearchSound(Top, t, key);
    HeirColour(n);
    DeleteSettled(t, key, sentinel);
    SingleAtTop(t, key);
    SearchWhole(Top, t, key);
    SplicedBalance(p, n);
    PlugNone(t);
    if p.Top? { PlugNone(n); }
  }

  lemma Rules(t: Tree)
    requires IsRedBlack(t)
    ensures Balanced(t) && NoRedRed(t) && !IsRed(t)
  {
  }

  lemma PlugNone(t: Tree)
    ensures Plug(Top, t) == t
  {
  }

  /** Where a black node with a black child cannot be spliced out, the fixup only blackens. */
  lemma DeleteSettled(t: Tree, key: int, sentinel: Color)
    requires var n := Search(Top, t, key).1; n.Branch? && (Heir(n).Branch? ==> IsRed(Heir(n)))
    ensures Keeps(t, key, sentinel)
    ensures var (p, n) := Search(Top, t, key);
            Delete(t, key, sentinel).0
              == Plug(p, Transplanted(n, if Victim(n).color == Black then Blacken(Heir(n)) else Heir(n)))
  {
    hide Search, Plug, Transplanted;
    var (p, n) := Search(Top, t, key);
    PlugHole(p, n, Blacken(Heir(n)));
  }

  lemma HeirColour(n: Tree)
    requires n.Branch? && Balanced(n) && NoRedRed(n)
    ensures Heir(n).Branch? ==> IsRed(Heir(n)) && Victim(n).color == Black
  {
    if n.left.Branch? && n.right.Branch? {
      LeastBalanced(n.right);
      OnlyChild(Least(n.right));
    } else {
      OnlyChild(n);
    }
  }

  /** The balance of the tree once the heir, blackened, is in its place. */
  lemma SplicedBalance(p: Path, n: Tree)
    requires n.Branch? && Balanced(n) && NoRedRed(n) && Sound(p, BlackHeight(n)) && (IsRed(n) ==> RedFits(p))
    ensures var m := Transplanted(n, if Victim(n).color == Black then Blacken(Heir(n)) else Heir(n));
            IsRedBlack(Plug(p, m)) <==>
              Victim(n).color == Red || IsRed(Heir(n)) || (p.Top? && n.left.Leaf? && n.right.Leaf?)
  {
    var x := if Victim(n).color == Black then Blacken(Heir(n)) else Heir(n);
    var m := Transplanted(n, x);
    if n.left.Leaf? || n.right.Leaf? {
      OnlyChild(n);
      if Victim(n).color == Red || IsRed(Heir(n)) || p.Top? {
        if !p.Top? || x.Branch? { PlugSound(p, m); }
      } else {
        PlugWrongHeight(p, m, BlackHeight(n));
      }
    } else {
      LeastBalanced(n.right);
      OnlyChild(Least(n.right));
      ReplaceLeastBalance(n.right);
      if Victim(n).color == Red || IsRed(Heir(n)) {
        PlugSound(p, m);
      } else {
        PlugBroken(p, m);
      }
    }
  }

  lemma SingleAtTop(t: Tree, key: int)
    requires Search(Top, t, key).1.Branch?
    ensures t.Branch? && (t.left.Leaf? && t.right.Leaf? ==> Search(Top, t, key) == (Top, t))
  {
  }

  // ---------------------------------------------------------------------------------------
  // Whole runs of insertions and deletions
  // ---------------------------------------------------------------------------------------

  datatype Op = Put(entry: Entry) | Remove(key: int)

  /**
   A tree and the colour of its sentinel; `cut` says that a deletion rotated onto the sentinel,
   whose own links then lead to the part that was cut off.
   */
  datatype State = State(tree: Tree, sentinel: Color, cut: bool)

  function Step(s: State, op: Op): State
    requires !s.cut
  {
    match op
    case Put(e) => State(Insert(s.tree, e), InsertNil(s.tree, e, s.sentinel), false)
    case Remove(key) =>
      var (t, c) := Delete(s.tree, key, s.sentinel);
      State(t, c, !Keeps(s.tree, key, s.sentinel))
  }

  /** A run ends with the first deletion that cuts the tree: later operations read the sentinel's links. */
  function Run(s: State, ops: seq<Op>): State
    decreases |ops|
  {
    if ops == [] || s.cut then s else Run(Step(s, ops[0]), ops[1..])
  }

  /** The keys stored in a sequence, with repetitions. */
  function Keys(s: seq<Entry>): multiset<int> {
    if s == [] then multiset{} else multiset{s[0].key} + Keys(s[1..])
  }

  /** The keys a run should leave: a deletion takes one occurrence away, if there is one. */
  function KeysAfter(keys: multiset<int>, ops: seq<Op>): multiset<int>
    decreases |ops|
  {
    if ops == [] then keys
    else match ops[0]
      case Put(e) => KeysAfter(keys + multiset{e.key}, ops[1..])
      case Remove(key) => KeysAfter(keys - multiset{key}, ops[1..])
  }

  lemma {:induction false} KeysConcat(a: seq<Entry>, b: seq<Entry>)
    ensures Keys(a + b) == Keys(a) + Keys(b)
  {
    hide Keys;
    KeysNone();
    if a == [] {
      assert a + b == b;
    } else {
      var s, rest := a + b, a[1..] + b;
      KeysConcat(a[1..], b);
      assert s != [] && s[0] == a[0] && s[1..] == rest;
      KeysFirst(s);
      KeysFirst(a);
      Regrouped(multiset{a[0].key}, Keys(a[1..]), Keys(b));
    }
  }

  lemma KeysNone()
    ensures Keys([]) == multiset{}
  {
  }

  lemma KeysFirst(s: seq<Entry>)
    requires s != []
    ensures Keys(s) == multiset{s[0].key} + Keys(s[1..])
  {
  }

  lemma Regrouped(x: multiset<int>, y: multiset<int>, z: multiset<int>)
    ensures x + (y + z) == (x + y) + z
  {
  }

  lemma {:induction false} KeysMember(s: seq<Entry>, key: int)
    ensures key in Keys(s) <==> exists e :: e in s && e.key == key
  {
    if s != [] {
      KeysMember(s[1..], key);
      assert s == [s[0]] + s[1..];
    }
  }

  lemma KeysWithout(s: seq<Entry>, k: nat)
    requires k < |s|
    ensures Keys(Without(s, k)) == Keys(s) - multiset{s[k].key}
  {
    KeysConcat(s[..k], s[k + 1..]);
    KeysConcat(s[..k], s[k..]);
    assert s == s[..k] + s[k..] && s[k..][0] == s[k] && s[k..][1..] == s[k + 1..];
  }

  lemma KeysInsertAfter(s: seq<Entry>, e: Entry)
    requires SortedKeys(s)
    ensures Keys(InsertAfter(s, e)) == Keys(s) + multiset{e.key}
  {
    hide Keys, InsertAfter;
    var k := InsertAfterSorted(s, e);
    assert s == s[..k] + s[k..] && s[..k] + [e] + s[k..] == s[..k] + ([e] + s[k..]);
    KeysConcat(s[..k], s[k..]);
    KeysConcat(s[..k], [e] + s[k..]);
    KeysFirst([e] + s[k..]);
    assert ([e] + s[k..])[1..] == s[k..];
  }

  /** One step keeps search order and, if it loses nothing, the multiset of keys. */
  lemma StepSorted(s: State, op: Op)
    requires !s.cut && SortedKeys(InOrder(s.tree))
    ensures SortedKeys(InOrder(Step(s, op).tree))
    ensures !Step(s, op).cut ==>
              Keys(InOrder(Step(s, op).tree)) ==
              if op.Put? then Keys(InOrder(s.tree)) + multiset{op.entry.key}
              else Keys(InOrder(s.tree)) - multiset{op.key}
  {
    hide InOrder, Insert, Delete, Keeps, InsertNil, Keys, InsertAfter;
    match op
    case Put(e) =>
      InsertInOrder(s.tree, e);
      var k := InsertAfterSorted(InOrder(s.tree), e);
      KeysInsertAfter(InOrder(s.tree), e);
    case Remove(key) =>
      RemoveKeys(s.tree, key, s.sentinel);
  }

  lemma RemoveKeys(t: Tree, key: int, sentinel: Color)
    requires SortedKeys(InOrder(t))
    ensures SortedKeys(InOrder(Delete(t, key, sentinel).0))
    ensures Keeps(t, key, sentinel) ==> Keys(InOrder(Delete(t, key, sentinel).0)) == Keys(InOrder(t)) - multiset{key}
  {
    hide InOrder, Delete, Keeps, Keys;
    var k, i, j := DeleteInOrder(t, key, sentinel);
    KeysMember(InOrder(t), key);
    if exists e :: e in InOrder(t) && e.key == key {
      KeysWithout(InOrder(t), k);
      if i == j { assert Cut(Without(InOrder(t), k), i, j) == Without(InOrder(t), k); }
    }
  }

  /**
   Every run keeps search order, up to and including the first deletion that cuts the tree; a run
   without one leaves exactly the keys it should, whatever the colours on the way.
   */
  lemma {:induction false} RunSorted(s: State, ops: seq<Op>)
    requires SortedKeys(InOrder(s.tree))
    ensures SortedKeys(InOrder(Run(s, ops).tree))
    ensures !Run(s, ops).cut ==> Keys(InOrder(Run(s, ops).tree)) == KeysAfter(Keys(InOrder(s.tree)), ops)
    decreases |ops|
  {
    hide InOrder, Step, Keys, Keeps;
    if ops != [] && !s.cut {
      StepSorted(s, ops[0]);
      RunSorted(Step(s, ops[0]), ops[1..]);
    }
  }

  /**
   A run that is cut is cut by its first deletion for which `Keeps` does not hold, and that
   deletion loses more than one entry.
   */
  lemma {:induction false} RunCut(s: State, ops: seq<Op>) returns (i: nat)
    requires !s.cut && Run(s, ops).cut
    ensures i < |ops| && ops[i].Remove?
    ensures var m := Run(s, ops[..i]);
            && !m.cut && !Keeps(m.tree, ops[i].key, m.sentinel) && Run(s, ops) == Step(m, ops[i])
            && |InOrder(Run(s, ops).tree)| < |InOrder(m.tree)| - 1
    decreases |ops|
  {
    hide Keeps, Delete, InOrder, Insert, InsertNil;
    var next := Step(s, ops[0]);
    if next.cut {
      i := 0;
      CutsMore(s.tree, ops[0].key, s.sentinel);
      assert Run(next, ops[1..]) == next;
    } else {
      var j := RunCut(next, ops[1..]);
      i := j + 1;
      assert ops[..i][0] == ops[0] && ops[..i][1..] == ops[1..][..j];
    }
  }

  lemma CutsMore(t: Tree, key: int, sentinel: Color)
    requires !Keeps(t, key, sentinel)
    ensures |InOrder(Delete(t, key, sentinel).0)| < |InOrder(t)| - 1
  {
    hide InOrder, Delete, Search;
    if Search(Top, t, key).1.Branch? {
      var k, i, j := DeleteFound(t, key, sentinel);
    }
  }

  function Add(key: int): Op {
    Put(Entry(key, 1))
  }

  const EMPTY := State(Leaf, Black, false)

  /** The third key takes an inner arm, at the root, and leaves the sentinel red. */
  lemma LosingRunStarts()
    ensures Run(EMPTY, [Add(1), Add(4), Add(3)]) == State(B(R(Leaf, 1, Leaf), 3, B(Leaf, 4, Leaf)), Red, false)
  {
    var t2 := B(Leaf, 1, R(Leaf, 4, Leaf));
    assert Step(EMPTY, Add(1)) == State(B(Leaf, 1, Leaf), Black, false);
    assert Step(State(B(Leaf, 1, Leaf), Black, false), Add(4)) == State(t2, Black, false);
    assert Step(State(t2, Black, false), Add(3)) == State(B(R(Leaf, 1, Leaf), 3, B(Leaf, 4, Leaf)), Red, false);
  }

  lemma LosingRunGoesOn()
    ensures Run(State(B(R(Leaf, 1, Leaf), 3, B(Leaf, 4, Leaf)), Red, false), [Add(2), Add(6), Add(5)])
         == State(B(Leaf, 1, B(Leaf, 2, B(R(Leaf, 3, R(Leaf, 4, Leaf)), 5, B(Leaf, 6, Leaf)))), Red, false)
  {
    var t3 := B(R(Leaf, 1, Leaf), 3, B(Leaf, 4, Leaf));
    var t4 := B(Leaf, 1, B(Leaf, 2, R(Leaf, 3, B(Leaf, 4, Leaf))));
    var t5 := B(Leaf, 1, B(Leaf, 2, R(Leaf, 3, B(Leaf, 4, R(Leaf, 6, Leaf)))));
    var t6 := B(Leaf, 1, B(Leaf, 2, B(R(Leaf, 3, R(Leaf, 4, Leaf)), 5, B(Leaf, 6, Leaf))));
    assert Step(State(t3, Red, false), Add(2)) == State(t4, Red, false);
    assert Step(State(t4, Red, false), Add(6)) == State(t5, Red, false);
    assert Step(State(t5, Red, false), Add(5)) == State(t6, Red, false);
  }

  /** Deleting 2 then rotates onto the red sentinel at the root: five entries more are lost. */
  lemma LosingDeletion()
    ensures var s := Run(Run(EMPTY, [Add(1), Add(4), Add(3)]), [Add(2), Add(6), Add(5)]);
            |InOrder(s.tree)| == 6 && !Keeps(s.tree, 2, s.sentinel) && Step(s, Remove(2)).tree == Leaf
  {
    LosingRunStarts();
    LosingRunGoesOn();
    var heir := B(R(Leaf, 3, R(Leaf, 4, Leaf)), 5, B(Leaf, 6, Leaf));
    var t := B(Leaf, 1, B(Leaf, 2, heir));
    assert Search(Top, t, 2) == (InRight(Leaf, Black, Entry(1, 1), Top), B(Leaf, 2, heir));
    assert Loses(InRight(Leaf, Black, Entry(1, 1), Top), Black, Red);
  }

  /** Another run: here the deletion cuts off a part, and what is left is in order. */
  lemma CuttingRunStarts()
    ensures Run(EMPTY, [Add(3), Add(6), Add(5)]) == State(B(R(Leaf, 3, Leaf), 5, B(Leaf, 6, Leaf)), Red, false)
  {
    var t1, t2 := B(Leaf, 3, Leaf), B(Leaf, 3, R(Leaf, 6, Leaf));
    assert Step(EMPTY, Add(3)) == State(t1, Black, false);
    assert Step(State(t1, Black, false), Add(6)) == State(t2, Black, false);
    assert Step(State(t2, Black, false), Add(5)) == State(B(R(Leaf, 3, Leaf), 5, B(Leaf, 6, Leaf)), Red, false);
  }

  lemma CuttingRunGoesOn()
    ensures Run(State(B(R(Leaf, 3, Leaf), 5, B(Leaf, 6, Leaf)), Red, false), [Add(3), Add(4), Add(1)])
         == State(B(R(Leaf, 1, Leaf), 3, R(R(Leaf, 3, Leaf), 4, B(Leaf, 5, B(Leaf, 6, Leaf)))), Red, false)
  {
    var t3 := B(R(Leaf, 3, Leaf), 5, B(Leaf, 6, Leaf));
    var t4 := B(Leaf, 3, B(Leaf, 3, R(Leaf, 5, B(Leaf, 6, Leaf))));
    var t5 := B(R(Leaf, 3, R(Leaf, 3, Leaf)), 4, B(Leaf, 5, B(Leaf, 6, Leaf)));
    var t6 := B(R(Leaf, 1, Leaf), 3, R(R(Leaf, 3, Leaf), 4, B(Leaf, 5, B(Leaf, 6, Leaf))));
    assert Step(State(t3, Red, false), Add(3)) == State(t4, Red, false);
    assert Step(State(t4, Red, false), Add(4)) == State(t5, Red, false);
    assert Step(State(t5, Red, false), Add(1)) == State(t6, Red, false);
  }

  /**
   Deleting 5 cuts the nodes 4 and 6 off.  The next insertion of 2 would turn the sentinel red,
   and so rotate at the sentinel, whose right link is no longer its own.
   */
  lemma CuttingDeletion()
    ensures var s := Run(Run(EMPTY, [Add(3), Add(6), Add(5)]), [Add(3), Add(4), Add(1)]);
            && !s.cut && Step(s, Remove(5)) == State(B(R(Leaf, 1, Leaf), 3, B(Leaf, 3, Leaf)), Black, true)
            && InsertNil(Step(s, Remove(5)).tree, Entry(2, 1), Black) == Red
  {
    CuttingRunStarts();
    CuttingRunGoesOn();
    var heir := B(Leaf, 6, Leaf);
    var t := B(R(Leaf, 1, Leaf), 3, R(R(Leaf, 3, Leaf), 4, B(Leaf, 5, heir)));
    var p := InRight(R(Leaf, 3, Leaf), Red, Entry(4, 1), InRight(R(Leaf, 1, Leaf), Black, Entry(3, 1), Top));
    assert Search(Top, t, 5) == (p, B(Leaf, 5, heir));
    assert Loses(p, Black, Red);
  }

  /** Four ascending keys: a red-black tree. */
  lemma AscendingFour()
    ensures Run(EMPTY, [Add(10), Add(20), Add(30), Add(40)])
         == State(B(B(Leaf, 10, Leaf), 20, B(Leaf, 30, R(Leaf, 40, Leaf))), Black, false)
  {
    var t2, t3 := B(Leaf, 10, R(Leaf, 20, Leaf)), B(R(Leaf, 10, Leaf), 20, R(Leaf, 30, Leaf));
    assert Step(EMPTY, Add(10)) == State(B(Leaf, 10, Leaf), Black, false);
    assert Step(State(B(Leaf, 10, Leaf), Black, false), Add(20)) == State(t2, Black, false);
    assert Step(State(t2, Black, false), Add(30)) == State(t3, Black, false);
  }

  /** Deleting 10 from it takes a black leaf away and leaves it unbalanced. */
  lemma UnbalancingDeletion()
    ensures var s := Run(EMPTY, [Add(10), Add(20), Add(30), Add(40)]);
            IsRedBlack(s.tree) && !IsRedBlack(Step(s, Remove(10)).tree)
  {
    AscendingFour();
    var t := B(B(Leaf, 10, Leaf), 20, B(Leaf, 30, R(Leaf, 40, Leaf)));
    assert Search(Top, t, 10) == (InLeft(Top, t.color, t.entry, t.right), t.left);
    DeleteBalance(t, 10, Black);
  }
}
