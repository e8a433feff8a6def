/**
 The fixup after a deletion from the pointer tree of src/lu_hash_table.c, with its rotations, and
 the deletion as a whole.  A rotation onto the sentinel writes to the sentinel's own links; what
 is left of the tree after that is stated by what a traversal from the root meets.
 */
module RedBlackRepair {
  import opened RedBlackModel
  import opened RedBlackTree
  import opened RedBlackErase
  import D = RedBlackDelete

  // ---------------------------------------------------------------------------------------
  // What is read once a subtree has changed
  // ---------------------------------------------------------------------------------------

  /** A subtree whose links and colours are as they were reads as it did. */
  twostate lemma {:induction false} ReadsFrame(new t: RBTree, new n: Node)
    requires old(allocated(t)) && old(allocated(n)) && old(t.Valid()) && (n == t.nil || n in old(t.nodes))
    requires forall m {:trigger m in old(Range(t, n))} :: m in old(Range(t, n)) ==>
               m.left == old(m.left) && m.right == old(m.right) && m.color == old(m.color)
    ensures Reads(t.nil, n, old(t.TreeAt(n)), old(Range(t, n)))
    decreases if n == t.nil then 0 else old(n.hi) - old(n.lo)
  {
    if n != t.nil {
      var l, r := old(n.left), old(n.right);
      assert old(t.NodeOk(n)) && n in old(Range(t, n));
      assert l != t.nil ==> old(t.NodeOk(l));
      assert r != t.nil ==> old(t.NodeOk(r));
      assert old(Range(t, l)) <= old(Range(t, n)) - {n};
      assert old(Range(t, r)) <= old(Range(t, n)) - {n};
      ReadsFrame(t, l);
      ReadsFrame(t, r);
      ReadsMore(t.nil, l, old(t.TreeAt(l)), old(Range(t, l)), old(Range(t, n)) - {n});
      ReadsMore(t.nil, r, old(t.TreeAt(r)), old(Range(t, r)), old(Range(t, n)) - {n});
    }
  }

  /** What sat at `n` is now `cur`, and nothing outside that subtree changed. */
  twostate predicate Hung(t: RBTree, n: Node, new cur: Node)
    reads t, t.nodes
  {
    && n in old(t.nodes) && t.nodes == old(t.nodes)
    && t.root == (if old(t.root) == n then cur else old(t.root))
    && forall m {:trigger m in t.nodes} :: m in t.nodes && !(old(n.lo) <= old(m.pos) < old(n.hi)) ==>
         && m.color == old(m.color)
         && m.left == (if old(m.left) == n then cur else old(m.left))
         && m.right == (if old(m.right) == n then cur else old(m.right))
  }

  /** The parent's subtree, with `x` in the place of `n`. */
  ghost function Joined(t: RBTree, n: Node, x: Tree): Tree
    requires t.Valid() && n in t.nodes && n.parent != t.nil
    reads t, t.nodes, t.nil
  {
    assert t.NodeOk(n) && t.NodeOk(n.parent);
    var p := n.parent;
    var e := Entry(p.key, p.value);
    if p.left == n then Branch(x, p.color, e, t.TreeAt(p.right)) else Branch(t.TreeAt(p.left), p.color, e, x)
  }

  /** Outside the parent's subtree nothing changed either, and no link there led to the parent. */
  twostate lemma HungAbove(new t: RBTree, new n: Node, new cur: Node)
    requires old(allocated(t)) && old(allocated(n)) && old(t.Valid()) && Hung(t, n, cur) && old(n.parent) != t.nil
    ensures var p := old(n.parent);
            && p in old(t.nodes) && Hung(t, p, p) && old(p.hi) - old(p.lo) > old(n.hi) - old(n.lo)
  {
    var p := old(n.parent);
    assert old(t.NodeOk(n)) && old(t.NodeOk(p));
    forall m | m in t.nodes && (old(m.left) == n || old(m.right) == n) ensures m == p {
      assert old(t.NodeOk(m));
    }
  }

  /** One step up: the parent reads as it did, with the new subtree on the side of `n`. */
  twostate lemma HungParent(new t: RBTree, new n: Node, new cur: Node, x: Tree)
    requires old(allocated(t)) && old(allocated(n)) && old(t.Valid()) && Hung(t, n, cur) && old(n.parent) != t.nil
    requires Reads(t.nil, cur, x, old(Range(t, n)))
    requires old(n.parent) in old(t.nodes)
    requires old(n.parent).color == old(n.parent.color)
    ensures Reads(t.nil, old(n.parent), old(Joined(t, n, x)), old(Range(t, n.parent)))
  {
    var p := old(n.parent);
    assert old(t.NodeOk(n)) && old(t.NodeOk(p));
    var s := if old(p.left) == n then old(p.right) else old(p.left);
    assert s != t.nil ==> old(t.NodeOk(s));
    forall m | m in t.nodes && (old(m.left) == n || old(m.right) == n) ensures m == p {
      assert old(t.NodeOk(m));
    }
    assert old(Range(t, n)) <= old(Range(t, p)) - {p};
    assert old(Range(t, s)) <= old(Range(t, p)) - {p};
    ReadsFrame(t, s);
    ReadsMore(t.nil, s, old(t.TreeAt(s)), old(Range(t, s)), old(Range(t, p)) - {p});
    ReadsMore(t.nil, cur, x, old(Range(t, n)), old(Range(t, p)) - {p});
  }

  /** The whole tree is its old surroundings around the new subtree. */
  twostate lemma {:induction false} HungReads(new t: RBTree, new n: Node, new cur: Node, x: Tree)
    requires old(allocated(t)) && old(allocated(n)) && old(t.Valid()) && Hung(t, n, cur)
    requires Reads(t.nil, cur, x, old(Range(t, n)))
    ensures Reads(t.nil, t.root, Plug(old(t.PathAt(n)), x), t.nodes)
    decreases old(|t.order|) - (old(n.hi) - old(n.lo))
  {
    var p := old(n.parent);
    assert old(t.NodeOk(n));
    if p == t.nil {
      ReadsMore(t.nil, cur, x, old(Range(t, n)), t.nodes);
    } else {
      assert old(t.NodeOk(p)) && p in t.nodes;
      HungAbove(t, n, cur);
      HungParent(t, n, cur, x);
      HungReads(t, p, p, old(Joined(t, n, x)));
      assert Plug(old(t.PathAt(n)), x) == Plug(old(t.PathAt(p)), old(Joined(t, n, x)));
    }
  }

  // ---------------------------------------------------------------------------------------
  // Rotations onto the sentinel
  // ---------------------------------------------------------------------------------------

  /** lu_rb_tree_left_rotate_delete at a node without a right child: the sentinel takes its place. */
  method DropLeft(t: RBTree, x: Node)
    requires t.nil !in t.nodes && x in t.nodes && x.right == t.nil && t.nil.left == t.nil
    requires x.parent != t.nil ==> x.parent in t.nodes && x.parent != x
    modifies t`root, x`right, x`parent, t.nil`parent, t.nil`left
    modifies (t.nodes * {x.parent})`left, (t.nodes * {x.parent})`right
    ensures x.right == t.nil && x.parent == t.nil && t.nil.left == x && t.nil.parent == old(x.parent)
    ensures t.root == if old(x.parent) == t.nil then t.nil else old(t.root)
    ensures var p := old(x.parent);
            p != t.nil ==>
              && p.left == (if old(p.left) == x then t.nil else old(p.left))
              && p.right == (if old(p.left) == x then old(p.right) else t.nil)
  {
    var right := x.right;
    x.right := right.left;
    right.parent := x.parent;
    if x.parent == t.nil {
      t.root := right;
    } else if x == x.parent.left {
      x.parent.left := right;
    } else {
      x.parent.right := right;
    }
    right.left := x;
    x.parent := right;
  }

  /** lu_rb_tree_right_rotate_delete at a node without a left child. */
  method DropRight(t: RBTree, x: Node)
    requires t.nil !in t.nodes && x in t.nodes && x.left == t.nil && t.nil.right == t.nil
    requires x.parent != t.nil ==> x.parent in t.nodes && x.parent != x
    modifies t`root, x`left, x`parent, t.nil`parent, t.nil`right
    modifies (t.nodes * {x.parent})`left, (t.nodes * {x.parent})`right
    ensures x.left == t.nil && x.parent == t.nil && t.nil.right == x && t.nil.parent == old(x.parent)
    ensures t.root == if old(x.parent) == t.nil then t.nil else old(t.root)
    ensures var p := old(x.parent);
            p != t.nil ==>
              && p.right == (if old(p.right) == x then t.nil else old(p.right))
              && p.left == (if old(p.right) == x then old(p.left) else t.nil)
  {
    var left := x.left;
    x.left := left.right;
    left.parent := x.parent;
    if x.parent == t.nil {
      t.root := left;
    } else if x == x.parent.right {
      x.parent.right := left;
    } else {
      x.parent.left := left;
    }
    left.right := x;
    x.parent := left;
  }

  /** lu_rb_tree_right_rotate_delete at the sentinel, which has the node `x` to its left. */
  method LiftRight(t: RBTree, ghost x: Node)
    requires t.nil !in t.nodes && x in t.nodes && t.nil.left == x && x.right == t.nil
    requires var p := t.nil.parent; p != t.nil ==> p in t.nodes && p != x
    modifies t`root, x`right, x`parent, t.nil`parent, t.nil`left
    modifies (t.nodes * {t.nil.parent})`left, (t.nodes * {t.nil.parent})`right
    ensures x.right == t.nil && x.parent == old(t.nil.parent) && t.nil.left == t.nil && t.nil.parent == x
    ensures t.root == if old(t.nil.parent) == t.nil then x else old(t.root)
    ensures var p := old(t.nil.parent);
            p != t.nil ==>
              && p.right == (if old(p.right) == t.nil then x else old(p.right))
              && p.left == (if old(p.right) == t.nil then old(p.left) else x)
  {
    var node := t.nil;
    var left := node.left;
    node.left := left.right;
    left.parent := node.parent;
    if node.parent == t.nil {
      t.root := left;
    } else if node == node.parent.right {
      node.parent.right := left;
    } else {
      node.parent.left := left;
    }
    left.right := node;
    node.parent := left;
  }

  /** lu_rb_tree_left_rotate_delete at the sentinel, which has the node `x` to its right. */
  method LiftLeft(t: RBTree, ghost x: Node)
    requires t.nil !in t.nodes && x in t.nodes && t.nil.right == x && x.left == t.nil
    requires var p := t.nil.parent; p != t.nil ==> p in t.nodes && p != x
    modifies t`root, x`left, x`parent, t.nil`parent, t.nil`right
    modifies (t.nodes * {t.nil.parent})`left, (t.nodes * {t.nil.parent})`right
    ensures x.left == t.nil && x.parent == old(t.nil.parent) && t.nil.right == t.nil && t.nil.parent == x
    ensures t.root == if old(t.nil.parent) == t.nil then x else old(t.root)
    ensures var p := old(t.nil.parent);
            p != t.nil ==>
              && p.left == (if old(p.left) == t.nil then x else old(p.left))
              && p.right == (if old(p.left) == t.nil then old(p.right) else x)
  {
    var node := t.nil;
    var right := node.right;
    node.right := right.left;
    right.parent := node.parent;
    if node.parent == t.nil {
      t.root := right;
    } else if node == node.parent.left {
      node.parent.left := right;
    } else {
      node.parent.right := right;
    }
    right.left := node;
    node.parent := right;
  }

  /** The subtree of `p` hangs off the sentinel, and not off the tree any more. */
  twostate predicate Fallen(t: RBTree, p: Node)
    reads t, t.nodes, t.nil
  {
    Hung(t, p, t.nil) && (t.nil.left == p || t.nil.right == p)
  }

  /** First case, on the sentinel: the missing right sibling counts as red, and comes off and on again. */
  method RedSentinelTurnLeft(t: RBTree, node: Node)
    requires t.Valid() && node in t.nodes && node.parent in t.nodes
    requires node.parent.left == node && node.parent.right == t.nil && t.nil.color == Red
    modifies t`root, node.parent, t.nil
    modifies (t.nodes * {node.parent.parent})`left, (t.nodes * {node.parent.parent})`right
    ensures node.parent == old(node.parent) && t.nil.left == t.nil && t.nil.right == t.nil
    ensures var p := node.parent;
            var g := p.parent;
            && p.right == t.nil && g == old(p.parent) && t.root == old(t.root)
            && (g != t.nil ==>
                  if old(g.right) == p || old(g.right) == t.nil
                  then g.right == p && g.left == (if old(g.left) == p then t.nil else old(g.left))
                  else g.left == p && g.right == old(g.right))
  {
    hide RBTree.Valid, RBTree.NodeOk;
    ghost var p := node.parent;
    Incoming(t, p);
    var sibling := node.parent.right;
    sibling.color := Black;
    node.parent.color := Red;
    DropLeft(t, node.parent);
    sibling := node.parent.right;
    assert sibling.left.color == Red && sibling.right.color == Black;
    sibling.left.color := Black;
    sibling.color := Red;
    LiftRight(t, p);
  }

  /** And then comes off for good. */
  method RedSentinelLeft(t: RBTree, node: Node)
    requires t.Valid() && node in t.nodes && node.parent in t.nodes
    requires node.parent.left == node && node.parent.right == t.nil && t.nil.color == Red
    modifies t, t.nodes, t.nil
    ensures Fallen(t, old(node.parent)) && t.nil.color == Black
  {
    hide RBTree.Valid, RBTree.NodeOk;
    Incoming(t, node.parent);
    RedSentinelTurnLeft(t, node);
    var sibling := node.parent.right;
    sibling.color := node.parent.color;
    node.parent.color := Black;
    sibling.right.color := Black;
    DropLeft(t, node.parent);
  }

  /** First case, on the sentinel: the missing left sibling counts as red, and comes off and on again. */
  method RedSentinelTurnRight(t: RBTree, node: Node)
    requires t.Valid() && node in t.nodes && node.parent in t.nodes
    requires node.parent.right == node && node.parent.left == t.nil && t.nil.color == Red
    modifies t`root, node.parent, t.nil
    modifies (t.nodes * {node.parent.parent})`left, (t.nodes * {node.parent.parent})`right
    ensures node.parent == old(node.parent) && t.nil.left == t.nil && t.nil.right == t.nil
    ensures var p := node.parent;
            var g := p.parent;
            && p.left == t.nil && g == old(p.parent) && t.root == old(t.root)
            && (g != t.nil ==>
                  if old(g.left) == p || old(g.left) == t.nil
                  then g.left == p && g.right == (if old(g.right) == p then t.nil else old(g.right))
                  else g.right == p && g.left == old(g.left))
  {
    hide RBTree.Valid, RBTree.NodeOk;
    ghost var p := node.parent;
    Incoming(t, p);
    var sibling := node.parent.left;
    sibling.color := Black;
    node.parent.color := Red;
    DropRight(t, node.parent);
    sibling := node.parent.left;
    assert sibling.right.color == Red && sibling.left.color == Black;
    sibling.right.color := Black;
    sibling.color := Red;
    LiftLeft(t, p);
  }

  /** And then comes off for good. */
  method RedSentinelRight(t: RBTree, node: Node)
    requires t.Valid() && node in t.nodes && node.parent in t.nodes
    requires node.parent.right == node && node.parent.left == t.nil && t.nil.color == Red
    modifies t, t.nodes, t.nil
    ensures Fallen(t, old(node.parent)) && t.nil.color == Black
  {
    hide RBTree.Valid, RBTree.NodeOk;
    Incoming(t, node.parent);
    RedSentinelTurnRight(t, node);
    var sibling := node.parent.left;
    sibling.color := node.parent.color;
    node.parent.color := Black;
    sibling.left.color := Black;
    DropRight(t, node.parent);
  }

  /** Third case, on the sentinel: the near child of the sibling is missing and counts as red. */
  method MissingNearLeft(t: RBTree, node: Node, s: Node)
    requires t.Valid() && node in t.nodes && node.parent in t.nodes && node.parent.left == node
    requires s == node.parent.right && s in t.nodes && s.left == t.nil && t.nil.color == Red
    modifies t, t.nodes, t.nil
    ensures Fallen(t, old(node.parent)) && t.nil.color == old(node.parent.color)
  {
    ghost var p := node.parent;
    Incoming(t, p);
    assert t.NodeOk(p) && t.NodeOk(node) && t.NodeOk(s);
    var sibling := s;
    sibling.left.color := Black;
    sibling.color := Red;
    DropRight(t, sibling);
    sibling := node.parent.right;
    sibling.color := node.parent.color;
    node.parent.color := Black;
    sibling.right.color := Black;
    DropLeft(t, node.parent);
  }

  /** The mirror image. */
  method MissingNearRight(t: RBTree, node: Node, s: Node)
    requires t.Valid() && node in t.nodes && node.parent in t.nodes && node.parent.right == node
    requires s == node.parent.left && s in t.nodes && s.right == t.nil && t.nil.color == Red
    modifies t, t.nodes, t.nil
    ensures Fallen(t, old(node.parent)) && t.nil.color == old(node.parent.color)
  {
    ghost var p := node.parent;
    Incoming(t, p);
    assert t.NodeOk(p) && t.NodeOk(node) && t.NodeOk(s);
    var sibling := s;
    sibling.right.color := Black;
    sibling.color := Red;
    DropLeft(t, sibling);
    sibling := node.parent.left;
    sibling.color := node.parent.color;
    node.parent.color := Black;
    sibling.left.color := Black;
    DropRight(t, node.parent);
  }

  /** Fourth case, on the sentinel: after the first case the new sibling is missing. */
  method MissingSiblingLeft(t: RBTree, node: Node)
    requires t.Valid() && node in t.nodes && node.parent in t.nodes
    requires node.parent.left == node && node.parent.right == t.nil
    modifies t, t.nodes, t.nil
    ensures Fallen(t, old(node.parent)) && t.nil.color == Black
  {
    ghost var p := node.parent;
    Incoming(t, p);
    var sibling := node.parent.right;
    sibling.color := node.parent.color;
    node.parent.color := Black;
    sibling.right.color := Black;
    DropLeft(t, node.parent);
  }

  /** The mirror image. */
  method MissingSiblingRight(t: RBTree, node: Node)
    requires t.Valid() && node in t.nodes && node.parent in t.nodes
    requires node.parent.right == node && node.parent.left == t.nil
    modifies t, t.nodes, t.nil
    ensures Fallen(t, old(node.parent)) && t.nil.color == Black
  {
    ghost var p := node.parent;
    Incoming(t, p);
    var sibling := node.parent.left;
    sibling.color := node.parent.color;
    node.parent.color := Black;
    sibling.left.color := Black;
    DropRight(t, node.parent);
  }

  // ---------------------------------------------------------------------------------------
  // The cases of the loop, on real nodes
  // ---------------------------------------------------------------------------------------

  ghost predicate IsNode(t: RBTree, n: Node)
    reads t
  {
    n == t.nil || n in t.nodes
  }

  /** The rest of the loop's work at a node, as the model computes it. */
  ghost function Work(t: RBTree, n: Node): (Tree, Color)
    requires t.Valid() && n in t.nodes
    reads t, t.nodes, t.nil
  {
    D.DeleteFixup(t.PathAt(n), t.TreeAt(n), t.nil.color)
  }

  ghost predicate Fatal(t: RBTree, n: Node)
    requires t.Valid() && n in t.nodes
    reads t, t.nodes, t.nil
  {
    D.Loses(t.PathAt(n), n.color, t.nil.color)
  }

  /** The same at the parent, once the first case is dealt with: the node is its left child. */
  ghost function WorkLeft(t: RBTree, p: Node): (Tree, Color)
    requires t.Valid() && p in t.nodes && p.left in t.nodes && IsNode(t, p.right)
    reads t, t.nodes, t.nil
  {
    t.TreeStep(p.left);
    D.FixLeft(t.PathAt(p), p.color, Entry(p.key, p.value), t.TreeAt(p.right), t.TreeAt(p.left), t.nil.color)
  }

  ghost predicate FatalLeft(t: RBTree, p: Node)
    requires t.Valid() && p in t.nodes && IsNode(t, p.right)
    reads t, t.nodes, t.nil
  {
    D.RestLoses(InLeft(t.PathAt(p), p.color, Entry(p.key, p.value), t.TreeAt(p.right)), t.TreeAt(p.right),
        t.nil.color)
  }

  /** Colours and children as the model sees them, for the sentinel too. */
  lemma ColoursAt(t: RBTree, m: Node)
    requires t.Valid() && IsNode(t, m)
    ensures IsNode(t, m.left) && IsNode(t, m.right)
    ensures m.color == D.ColorOf(t.TreeAt(m), t.nil.color) && (m == t.nil <==> t.TreeAt(m).Leaf?)
    ensures t.TreeAt(m.left) == D.LeftOf(t.TreeAt(m)) && t.TreeAt(m.right) == D.RightOf(t.TreeAt(m))
    ensures m.left.color == D.ColorOf(D.LeftOf(t.TreeAt(m)), t.nil.color)
    ensures m.right.color == D.ColorOf(D.RightOf(t.TreeAt(m)), t.nil.color)
  {
    if m != t.nil {
      t.TreeStep(m);
      if m.left != t.nil { t.TreeStep(m.left); }
      if m.right != t.nil { t.TreeStep(m.right); }
    }
  }

  /** Second case: the sibling, or the sentinel in its place, turns red and the work moves up. */
  method SecondCaseLeft(t: RBTree, node: Node, p: Node, sibling: Node)
    requires t.Valid() && p in t.nodes && node in t.nodes
    requires p.left == node && p.right == sibling && IsNode(t, sibling)
    requires sibling.left.color == Black && sibling.right.color == Black
    modifies sibling`color
    ensures t.Valid() && Work(t, p) == old(WorkLeft(t, p)) && Fatal(t, p) == old(FatalLeft(t, p))
    ensures t.PathAt(p) == old(t.PathAt(p)) && p.color == old(p.color)
  {
    hide RBTree.NodeOk;
    ColoursAt(t, sibling);
    t.SidesDiffer(p);
    t.TreeStep(p);
    t.TreeStep(node);
    PaintChild(t, p, sibling, node);
    t.TreeStep(p);
  }

  /** Painting one child red leaves its sibling and the place of the parent alone. */
  method PaintChild(t: RBTree, p: Node, s: Node, other: Node)
    requires t.Valid() && p in t.nodes && IsNode(t, s) && IsNode(t, other)
    requires (s == p.left && other == p.right) || (s == p.right && other == p.left)
    modifies s`color
    ensures t.Valid() && t.PathAt(p) == old(t.PathAt(p)) && t.TreeAt(other) == old(t.TreeAt(other))
    ensures t.TreeAt(s) == D.Redden(old(t.TreeAt(s))) && s.color == Red && p.color == old(p.color)
  {
    assert t.NodeOk(p);
    if s != t.nil {
      t.TreeStep(s);
      assert t.NodeOk(s);
      assert s.left != t.nil ==> t.NodeOk(s.left);
      assert s.right != t.nil ==> t.NodeOk(s.right);
      assert other != t.nil ==> t.NodeOk(other);
    }
    t.Paint(s, Red);
    if s != t.nil { t.TreeStep(s); }
  }

  /** First case: the red sibling turns black and is rotated up over the parent, which turns red. */
  method FirstCaseLeft(t: RBTree, node: Node, p: Node, sibling: Node)
    requires t.Valid() && p in t.nodes && node in t.nodes && sibling in t.nodes
    requires p.left == node && p.right == sibling && node.parent == p && sibling.color == Red && node.color == Black
    modifies t, t.nodes
    ensures t.Valid() && t.nodes == old(t.nodes) && t.order == old(t.order)
    ensures node.parent == p && p.left == node && IsNode(t, p.right) && p.color == Red
    ensures WorkLeft(t, p) == old(Work(t, node)) && FatalLeft(t, p) == old(Fatal(t, node))
    ensures Depth(t.PathAt(p)) == old(Depth(t.PathAt(node)))
  {
    hide RBTree.NodeOk, D.FixLeft;
    t.PathStep(node);
    t.TreeStep(node);
    t.TreeStep(sibling);
    RotateUpLeft(t, p, sibling);
    t.PathStep(p);
  }

  /** A node, its children and its place among the nodes. */
  lemma Kin(t: RBTree, n: Node)
    requires t.Valid() && n in t.nodes
    ensures t.nil !in t.nodes && t.root in t.nodes
    ensures n.left != t.nil ==> n.left in t.nodes && n.left.parent == n && n.left != n.right && n.left != n
    ensures n.right != t.nil ==> n.right in t.nodes && n.right.parent == n && n.right != n
  {
    assert t.NodeOk(n);
    assert n.left != t.nil ==> t.NodeOk(n.left);
    assert n.right != t.nil ==> t.NodeOk(n.right);
  }

  /** What the first case does to the links, to the places and to the subtrees. */
  method RotateUpLeft(t: RBTree, p: Node, s: Node)
    requires t.Valid() && p in t.nodes && s in t.nodes && p.right == s
    requires p.left in t.nodes && IsNode(t, s.left) && IsNode(t, s.right)
    modifies t, t.nodes
    ensures t.Valid() && t.nodes == old(t.nodes) && t.order == old(t.order)
    ensures p.left == old(p.left) && p.left.parent == old(p.left.parent) && p.right == old(s.left) && p.color == Red
    ensures t.TreeAt(p.left) == old(t.TreeAt(p.left)) && t.TreeAt(p.right) == old(t.TreeAt(s.left))
    ensures t.PathAt(p) == InLeft(old(t.PathAt(p)), Black, Entry(s.key, s.value), old(t.TreeAt(s.right)))
  {
    hide RBTree.NodeOk, RBTree.Valid;
    Kin(t, p);
    Kin(t, s);
    t.TreeStep(p);
    t.Family(s, p, p.left);
    t.Family(s, p, s.left);
    t.Family(s, p, s.right);
    t.PaintPair(s, p);
    TurnLeft(t, p, s);
    t.PathStep(p);
    t.TreeStep(s);
    t.TreeStep(p);
  }

  /** Third case: the red near child is rotated up over the sibling; its colours are exchanged. */
  method ThirdCaseLeft(t: RBTree, node: Node, p: Node, sibling: Node)
    requires t.Valid() && p in t.nodes && node in t.nodes && sibling in t.nodes && sibling.left in t.nodes
    requires p.left == node && p.right == sibling && node.parent == p
    requires sibling.right.color == Black && sibling.left.color == Red
    modifies t, t.nodes
    ensures t.Valid() && t.nodes == old(t.nodes) && t.order == old(t.order)
    ensures node.parent == p && p.left == node && p.right in t.nodes && p.right.right.color == Red
    ensures WorkLeft(t, p) == old(WorkLeft(t, p)) && !FatalLeft(t, p) && !old(FatalLeft(t, p))
    ensures t.PathAt(p) == old(t.PathAt(p))
  {
    hide RBTree.NodeOk;
    ColoursAt(t, sibling);
    t.TreeStep(sibling);
    t.TreeStep(node);
    t.TreeStep(sibling.left);
    RotateNearUpLeft(t, p, sibling, sibling.left);
    ColoursAt(t, p.right);
    t.TreeStep(node);
  }

  method RotateNearUpLeft(t: RBTree, p: Node, s: Node, near: Node)
    requires t.Valid() && p in t.nodes && s in t.nodes && near in t.nodes
    requires p.right == s && s.left == near && p.left in t.nodes
    requires IsNode(t, near.left) && IsNode(t, near.right) && IsNode(t, s.right)
    modifies t, t.nodes
    ensures t.Valid() && t.nodes == old(t.nodes) && t.order == old(t.order)
    ensures p.left == old(p.left) && p.left.parent == old(p.left.parent) && p.right == near && p.color == old(p.color)
    ensures t.TreeAt(p.left) == old(t.TreeAt(p.left)) && t.PathAt(p) == old(t.PathAt(p))
    ensures t.TreeAt(near) == Branch(old(t.TreeAt(near.left)), Black, Entry(near.key, near.value),
              Branch(old(t.TreeAt(near.right)), Red, Entry(s.key, s.value), old(t.TreeAt(s.right))))
  {
    assert t.NodeOk(p) && t.NodeOk(s) && t.NodeOk(near);
    t.PathStep(s);
    t.SidesDiffer(p);
    t.SidesDiffer(s);
    TurnNearRight(t, s, near);
    t.PathStep(near);
  }

  /** What a right rotation of `s` does to the subtrees and to the links above. */
  method TurnRight(t: RBTree, s: Node, near: Node)
    requires t.Valid() && s in t.nodes && near in t.nodes && s.left == near
    requires s.right != near && near.parent == s && s.left != t.nil
    requires IsNode(t, near.left) && IsNode(t, near.right) && IsNode(t, s.right)
    modifies t, t.nodes
    ensures t.Valid() && t.nodes == old(t.nodes) && t.order == old(t.order)
    ensures near.right == s && s.parent == near && s.right == old(s.right) && s.left == old(near.right)
    ensures near.parent == old(s.parent) && t.PathAt(near) == old(t.PathAt(s))
    ensures t.TreeAt(near) == Branch(old(t.TreeAt(near.left)), old(near.color), Entry(near.key, near.value),
              Branch(old(t.TreeAt(near.right)), old(s.color), Entry(s.key, s.value), old(t.TreeAt(s.right))))
    ensures var p := near.parent;
            p in t.nodes ==>
              && p.color == old(p.color)
              && p.left == (if old(p.left) == s then near else old(p.left))
              && p.right == (if old(p.right) == s then near else old(p.right))
    ensures forall n :: n in t.nodes && n != s && n != near && n != old(near.right) ==> n.parent == old(n.parent)
  {
    t.NeighboursRight(s);
    assert t.NodeOk(s) && t.NodeOk(near);
    t.Family(near, s, near.left);
    t.Family(near, s, near.right);
    t.Family(near, s, s.right);
    t.RightRotate(s);
    t.TreeStep(near);
    t.TreeStep(s);
  }

  /** Two colours and a right rotation of `s`. */
  method TurnNearRight(t: RBTree, s: Node, near: Node)
    requires t.Valid() && s in t.nodes && near in t.nodes && s.left == near && s.right != near && near.parent == s
    requires IsNode(t, near.left) && IsNode(t, near.right) && IsNode(t, s.right)
    modifies t, t.nodes
    ensures t.Valid() && t.nodes == old(t.nodes) && t.order == old(t.order)
    ensures near.parent == old(s.parent) && t.PathAt(near) == old(t.PathAt(s))
    ensures t.TreeAt(near) == Branch(old(t.TreeAt(near.left)), Black, Entry(near.key, near.value),
              Branch(old(t.TreeAt(near.right)), Red, Entry(s.key, s.value), old(t.TreeAt(s.right))))
    ensures var p := near.parent;
            p in t.nodes ==>
              && (p != s && p != near ==> p.color == old(p.color))
              && p.left == (if old(p.left) == s then near else old(p.left))
              && p.right == (if old(p.right) == s then near else old(p.right))
    ensures forall n :: n in t.nodes && n != s && n != near && n != old(near.right) ==> n.parent == old(n.parent)
  {
    hide RBTree.NodeOk, RBTree.Valid;
    t.Family(near, s, near.left);
    t.Family(near, s, near.right);
    t.Family(near, s, s.right);
    t.PaintPair(near, s);
    TurnRight(t, s, near);
  }

  /** Fourth case: three colours change and the sibling is rotated up over the parent. */
  method FourthCaseLeft(t: RBTree, node: Node, p: Node, sibling: Node)
    requires t.Valid() && p in t.nodes && node in t.nodes && sibling in t.nodes
    requires p.left == node && p.right == sibling && sibling.right.color == Red
    modifies t, t.nodes, t.nil`color
    ensures t.Valid() && t.nodes == old(t.nodes) && t.order == old(t.order) && t.root in t.nodes
    ensures Work(t, t.root) == old(WorkLeft(t, p)) && !Fatal(t, t.root) && !old(FatalLeft(t, p))
    ensures t.PathAt(t.root) == Top
  {
    hide RBTree.NodeOk;
    ColoursAt(t, sibling);
    t.TreeStep(sibling);
    t.TreeStep(node);
    RotateFarUpLeft(t, p, sibling);
    t.PlugAt(sibling);
    t.PathTop();
    t.TreeStep(t.root);
  }

  method RotateFarUpLeft(t: RBTree, p: Node, s: Node)
    requires t.Valid() && p in t.nodes && s in t.nodes && p.right == s
    requires p.left in t.nodes && IsNode(t, s.left) && IsNode(t, s.right)
    modifies t, t.nodes, t.nil`color
    ensures t.Valid() && t.nodes == old(t.nodes) && t.order == old(t.order) && s in t.nodes && t.root in t.nodes
    ensures t.PathAt(s) == old(t.PathAt(p))
    ensures t.TreeAt(s) == Branch(Branch(old(t.TreeAt(p.left)), Black, Entry(p.key, p.value), old(t.TreeAt(s.left))),
              old(p.color), Entry(s.key, s.value), Blacken(old(t.TreeAt(s.right))))
    ensures t.nil.color == if old(s.right) == t.nil then Black else old(t.nil.color)
  {
    hide RBTree.NodeOk, RBTree.Valid;
    Kin(t, p);
    Kin(t, s);
    PaintThreeLeft(t, p, s);
    TurnLeft(t, p, s);
    Kin(t, s);
  }

  /** The far child lies below the parent, and beside the two other subtrees. */
  lemma FarApart(t: RBTree, p: Node, s: Node)
    requires t.Valid() && p in t.nodes && s in t.nodes && p.right == s && p.left in t.nodes && IsNode(t, s.left)
    ensures s.right != t.nil ==>
              && s.right in t.nodes && t.Below(s.right, p) && s.right != p
              && (s.left == t.nil || !t.Below(s.right, s.left)) && !t.Below(s.right, p.left)
  {
    assert t.NodeOk(p) && t.NodeOk(s) && t.NodeOk(p.left);
    assert s.right != t.nil ==> t.NodeOk(s.right);
    assert s.left != t.nil ==> t.NodeOk(s.left);
  }

  /** The three colours of the fourth case. */
  method PaintThreeLeft(t: RBTree, p: Node, s: Node)
    requires t.Valid() && p in t.nodes && s in t.nodes && p.right == s
    requires p.left in t.nodes && IsNode(t, s.left) && IsNode(t, s.right)
    modifies t.nodes`color, t.nil`color
    ensures t.Valid() && t.PathAt(p) == old(t.PathAt(p)) && s.color == old(p.color) && p.color == Black
    ensures t.TreeAt(p.left) == old(t.TreeAt(p.left)) && t.TreeAt(s.left) == old(t.TreeAt(s.left))
    ensures t.TreeAt(s.right) == Blacken(old(t.TreeAt(s.right)))
    ensures t.nil.color == if s.right == t.nil then Black else old(t.nil.color)
  {
    assert t.NodeOk(p) && t.NodeOk(s);
    t.SidesDiffer(p);
    t.SidesDiffer(s);
    t.Family(s, p, p.left);
    t.Family(s, p, s.left);
    t.Family(s, p, s.right);
    FarApart(t, p, s);
    var c := p.color;
    t.Paint(s, c);
    t.Paint(p, Black);
    Darken(t, s.right, s.left, p.left, p);
  }

  /** Blackening a node: its own subtree, two beside it, and a place above it. */
  method Darken(t: RBTree, n: Node, a: Node, b: Node, above: Node)
    requires t.Valid() && IsNode(t, n) && IsNode(t, a) && IsNode(t, b) && above in t.nodes
    requires n != t.nil ==>
               t.Below(n, above) && (a == t.nil || !t.Below(n, a)) && (b == t.nil || !t.Below(n, b))
    modifies n`color
    ensures t.Valid() && t.PathAt(above) == old(t.PathAt(above))
    ensures t.TreeAt(a) == old(t.TreeAt(a)) && t.TreeAt(b) == old(t.TreeAt(b))
    ensures t.TreeAt(n) == Blacken(old(t.TreeAt(n))) && n.color == Black
  {
    if n != t.nil {
      t.TreeStep(n);
      t.SidesDiffer(n);
      if n.left != t.nil { t.Child(n, n.left); }
      if n.right != t.nil { t.Child(n, n.right); }
    }
    t.Paint(n, Black);
    if n != t.nil { t.TreeStep(n); }
  }

  // ---------------------------------------------------------------------------------------
  // One turn of the loop
  // ---------------------------------------------------------------------------------------

  /** The tree was cut: what is left of it, before the root is painted, against the model. */
  ghost predicate Damaged(t: RBTree, x: Tree, goal: (Tree, Color))
    reads t, t.nodes, t.nil
  {
    && Reads(t.nil, t.root, x, t.nodes) && goal.0 == Blacken(x)
    && (if t.root == t.nil then goal.1 == Black else t.nil.color == goal.1)
    && (t.nil.left != t.nil || t.nil.right != t.nil)
  }

  /** A fallen subtree leaves the surroundings of its parent. */
  twostate lemma FallenReads(new t: RBTree, new p: Node)
    requires old(allocated(t)) && old(allocated(p)) && old(t.Valid()) && p in old(t.nodes) && Fallen(t, p)
    ensures Reads(t.nil, t.root, Plug(old(t.PathAt(p)), Leaf), t.nodes)
    ensures IsNode(t, t.root) && (t.root == t.nil <==> old(t.PathAt(p)) == Top)
    ensures p in t.nodes && (t.nil.left != t.nil || t.nil.right != t.nil)
  {
    HungReads(t, p, t.nil, Leaf);
    assert old(t.NodeOk(p));
    if old(p.parent) != t.nil { assert old(t.NodeOk(p.parent)); }
  }

  /** The second to fourth case, for a left child. */
  method RestLeft(t: RBTree, node: Node, p: Node) returns (next: Node, ghost lost: bool, ghost x: Tree)
    requires t.Valid() && p in t.nodes && node in t.nodes && node.parent == p && p.left == node && IsNode(t, p.right)
    modifies t, t.nodes, t.nil
    ensures t.nodes == old(t.nodes) && (lost ==> old(FatalLeft(t, p)) && next == t.root && IsNode(t, next))
    ensures lost ==> Damaged(t, x, old(WorkLeft(t, p)))
    ensures !lost ==>
              && t.Valid() && next in t.nodes && Work(t, next) == old(WorkLeft(t, p))
              && Fatal(t, next) == old(FatalLeft(t, p))
              && (t.PathAt(next) == Top || (t.PathAt(next) == old(t.PathAt(p)) && next.color == old(p.color)))
  {
    ghost var up := t.PathAt(p);
    x := Plug(up, Leaf);
    lost := false;
    var sibling := p.right;
    ColoursAt(t, sibling);
    if sibling.left.color == Black && sibling.right.color == Black {
      SecondCaseLeft(t, node, p, sibling);
      next := p;
    } else if sibling == t.nil {
      lost := true;
      MissingSiblingLeft(t, node);
      FallenReads(t, p);
      next := t.root;
    } else if sibling.right.color == Black && sibling.left == t.nil {
      lost := true;
      MissingNearLeft(t, node, sibling);
      FallenReads(t, p);
      next := t.root;
    } else {
      if sibling.right.color == Black {
        ThirdCaseLeft(t, node, p, sibling);
        sibling := node.parent.right;
      }
      FourthCaseLeft(t, node, p, sibling);
      next := t.root;
    }
  }

  /** The same at the parent, once the first case is dealt with: the node is its right child. */
  ghost function WorkRight(t: RBTree, p: Node): (Tree, Color)
    requires t.Valid() && p in t.nodes && p.right in t.nodes && IsNode(t, p.left)
    reads t, t.nodes, t.nil
  {
    t.TreeStep(p.right);
    D.FixRight(t.PathAt(p), p.color, Entry(p.key, p.value), t.TreeAt(p.left), t.TreeAt(p.right), t.nil.color)
  }

  ghost predicate FatalRight(t: RBTree, p: Node)
    requires t.Valid() && p in t.nodes && IsNode(t, p.left)
    reads t, t.nodes, t.nil
  {
    D.RestLoses(InRight(t.TreeAt(p.left), p.color, Entry(p.key, p.value), t.PathAt(p)), t.TreeAt(p.left), t.nil.color)
  }

  /** Second case: the sibling, or the sentinel in its place, turns red and the work moves up. */
  method SecondCaseRight(t: RBTree, node: Node, p: Node, sibling: Node)
    requires t.Valid() && p in t.nodes && node in t.nodes
    requires p.right == node && p.left == sibling && IsNode(t, sibling)
    requires sibling.right.color == Black && sibling.left.color == Black
    modifies sibling`color
    ensures t.Valid() && Work(t, p) == old(WorkRight(t, p)) && Fatal(t, p) == old(FatalRight(t, p))
    ensures t.PathAt(p) == old(t.PathAt(p)) && p.color == old(p.color)
  {
    hide RBTree.NodeOk;
    ColoursAt(t, sibling);
    t.SidesDiffer(p);
    t.TreeStep(p);
    t.TreeStep(node);
    PaintChild(t, p, sibling, node);
    t.TreeStep(p);
  }

  /** First case: the red sibling turns black and is rotated up over the parent, which turns red. */
  method FirstCaseRight(t: RBTree, node: Node, p: Node, sibling: Node)
    requires t.Valid() && p in t.nodes && node in t.nodes && sibling in t.nodes
    requires p.right == node && p.left == sibling && node.parent == p && sibling.color == Red && node.color == Black
    modifies t, t.nodes
    ensures t.Valid() && t.nodes == old(t.nodes) && t.order == old(t.order)
    ensures node.parent == p && p.right == node && IsNode(t, p.left) && p.color == Red
    ensures WorkRight(t, p) == old(Work(t, node)) && FatalRight(t, p) == old(Fatal(t, node))
    ensures Depth(t.PathAt(p)) == old(Depth(t.PathAt(node)))
  {
    hide RBTree.NodeOk, D.FixRight;
    t.PathStep(node);
    t.TreeStep(node);
    t.TreeStep(sibling);
    RotateUpRight(t, p, sibling);
    t.PathStep(p);
  }

  /** What the first case does to the links, to the places and to the subtrees. */
  method RotateUpRight(t: RBTree, p: Node, s: Node)
    requires t.Valid() && p in t.nodes && s in t.nodes && p.left == s
    requires p.right in t.nodes && IsNode(t, s.right) && IsNode(t, s.left)
    modifies t, t.nodes
    ensures t.Valid() && t.nodes == old(t.nodes) && t.order == old(t.order)
    ensures p.right == old(p.right) && p.right.parent == old(p.right.parent)
    ensures p.left == old(s.right) && p.color == Red
    ensures t.TreeAt(p.right) == old(t.TreeAt(p.right)) && t.TreeAt(p.left) == old(t.TreeAt(s.right))
    ensures t.PathAt(p) == InRight(old(t.TreeAt(s.left)), Black, Entry(s.key, s.value), old(t.PathAt(p)))
  {
    hide RBTree.NodeOk, RBTree.Valid;
    Kin(t, p);
    Kin(t, s);
    t.TreeStep(p);
    t.Family(s, p, p.right);
    t.Family(s, p, s.left);
    t.Family(s, p, s.right);
    t.PaintPair(s, p);
    TurnRight(t, p, s);
    t.SidesDiffer(s);
    t.PathStep(p);
    t.TreeStep(s);
    t.TreeStep(p);
  }

  /** Third case: the red near child is rotated up over the sibling; its colours are exchanged. */
  method ThirdCaseRight(t: RBTree, node: Node, p: Node, sibling: Node)
    requires t.Valid() && p in t.nodes && node in t.nodes && sibling in t.nodes && sibling.right in t.nodes
    requires p.right == node && p.left == sibling && node.parent == p
    requires sibling.left.color == Black && sibling.right.color == Red
    modifies t, t.nodes
    ensures t.Valid() && t.nodes == old(t.nodes) && t.order == old(t.order)
    ensures node.parent == p && p.right == node && p.left in t.nodes && p.left.left.color == Red
    ensures WorkRight(t, p) == old(WorkRight(t, p)) && !FatalRight(t, p) && !old(FatalRight(t, p))
    ensures t.PathAt(p) == old(t.PathAt(p))
  {
    hide RBTree.NodeOk;
    ColoursAt(t, sibling);
    t.TreeStep(sibling);
    t.TreeStep(node);
    t.TreeStep(sibling.right);
    RotateNearUpRight(t, p, sibling, sibling.right);
    ColoursAt(t, p.left);
    t.TreeStep(node);
  }

  method RotateNearUpRight(t: RBTree, p: Node, s: Node, near: Node)
    requires t.Valid() && p in t.nodes && s in t.nodes && near in t.nodes
    requires p.left == s && s.right == near && p.right in t.nodes
    requires IsNode(t, near.right) && IsNode(t, near.left) && IsNode(t, s.left)
    modifies t, t.nodes
    ensures t.Valid() && t.nodes == old(t.nodes) && t.order == old(t.order)
    ensures p.right == old(p.right) && p.right.parent == old(p.right.parent)
    ensures p.left == near && p.color == old(p.color)
    ensures t.TreeAt(p.right) == old(t.TreeAt(p.right)) && t.PathAt(p) == old(t.PathAt(p))
    ensures t.TreeAt(near) == Branch(Branch(old(t.TreeAt(s.left)), Red, Entry(s.key, s.value),
        old(t.TreeAt(near.left))), Black, Entry(near.key, near.value), old(t.TreeAt(near.right)))
  {
    assert t.NodeOk(p) && t.NodeOk(s) && t.NodeOk(near);
    t.PathStep(s);
    t.SidesDiffer(p);
    t.SidesDiffer(s);
    TurnNearLeft(t, s, near);
    t.PathStep(near);
  }

  /** What a left rotation of `s` does to the subtrees and to the links above. */
  method TurnLeft(t: RBTree, s: Node, near: Node)
    requires t.Valid() && s in t.nodes && near in t.nodes && s.right == near
    requires s.left != near && near.parent == s && s.right != t.nil
    requires IsNode(t, near.right) && IsNode(t, near.left) && IsNode(t, s.left)
    modifies t, t.nodes
    ensures t.Valid() && t.nodes == old(t.nodes) && t.order == old(t.order)
    ensures near.left == s && s.parent == near && s.left == old(s.left) && s.right == old(near.left)
    ensures near.parent == old(s.parent) && t.PathAt(near) == old(t.PathAt(s))
    ensures t.TreeAt(near) == Branch(Branch(old(t.TreeAt(s.left)), old(s.color), Entry(s.key, s.value),
        old(t.TreeAt(near.left))), old(near.color), Entry(near.key, near.value), old(t.TreeAt(near.right)))
    ensures var p := near.parent;
            p in t.nodes ==>
              && p.color == old(p.color)
              && p.right == (if old(p.right) == s then near else old(p.right))
              && p.left == (if old(p.left) == s then near else old(p.left))
    ensures forall n :: n in t.nodes && n != s && n != near && n != old(near.left) ==> n.parent == old(n.parent)
  {
    t.NeighboursLeft(s);
    assert t.NodeOk(s) && t.NodeOk(near);
    t.Family(near, s, near.right);
    t.Family(near, s, near.left);
    t.Family(near, s, s.left);
    t.LeftRotate(s);
    t.TreeStep(near);
    t.TreeStep(s);
  }

  /** Two colours and a left rotation of `s`. */
  method TurnNearLeft(t: RBTree, s: Node, near: Node)
    requires t.Valid() && s in t.nodes && near in t.nodes && s.right == near && s.left != near && near.parent == s
    requires IsNode(t, near.right) && IsNode(t, near.left) && IsNode(t, s.left)
    modifies t, t.nodes
    ensures t.Valid() && t.nodes == old(t.nodes) && t.order == old(t.order)
    ensures near.parent == old(s.parent) && t.PathAt(near) == old(t.PathAt(s))
    ensures t.TreeAt(near) == Branch(Branch(old(t.TreeAt(s.left)), Red, Entry(s.key, s.value),
        old(t.TreeAt(near.left))), Black, Entry(near.key, near.value), old(t.TreeAt(near.right)))
    ensures var p := near.parent;
            p in t.nodes ==>
              && (p != s && p != near ==> p.color == old(p.color))
              && p.right == (if old(p.right) == s then near else old(p.right))
              && p.left == (if old(p.left) == s then near else old(p.left))
    ensures forall n :: n in t.nodes && n != s && n != near && n != old(near.left) ==> n.parent == old(n.parent)
  {
    hide RBTree.NodeOk, RBTree.Valid;
    t.Family(near, s, near.right);
    t.Family(near, s, near.left);
    t.Family(near, s, s.left);
    t.PaintPair(near, s);
    TurnLeft(t, s, near);
  }

  /** Fourth case: three colours change and the sibling is rotated up over the parent. */
  method FourthCaseRight(t: RBTree, node: Node, p: Node, sibling: Node)
    requires t.Valid() && p in t.nodes && node in t.nodes && sibling in t.nodes
    requires p.right == node && p.left == sibling && sibling.left.color == Red
    modifies t, t.nodes, t.nil`color
    ensures t.Valid() && t.nodes == old(t.nodes) && t.order == old(t.order) && t.root in t.nodes
    ensures Work(t, t.root) == old(WorkRight(t, p)) && !Fatal(t, t.root) && !old(FatalRight(t, p))
    ensures t.PathAt(t.root) == Top
  {
    hide RBTree.NodeOk;
    ColoursAt(t, sibling);
    t.TreeStep(sibling);
    t.TreeStep(node);
    RotateFarUpRight(t, p, sibling);
    t.PlugAt(sibling);
    t.PathTop();
    t.TreeStep(t.root);
  }

  method RotateFarUpRight(t: RBTree, p: Node, s: Node)
    requires t.Valid() && p in t.nodes && s in t.nodes && p.left == s
    requires p.right in t.nodes && IsNode(t, s.right) && IsNode(t, s.left)
    modifies t, t.nodes, t.nil`color
    ensures t.Valid() && t.nodes == old(t.nodes) && t.order == old(t.order) && s in t.nodes && t.root in t.nodes
    ensures t.PathAt(s) == old(t.PathAt(p))
    ensures t.TreeAt(s) == Branch(Blacken(old(t.TreeAt(s.left))), old(p.color), Entry(s.key, s.value),
        Branch(old(t.TreeAt(s.right)), Black, Entry(p.key, p.value), old(t.TreeAt(p.right))))
    ensures t.nil.color == if old(s.left) == t.nil then Black else old(t.nil.color)
  {
    hide RBTree.NodeOk, RBTree.Valid;
    Kin(t, p);
    Kin(t, s);
    PaintThreeRight(t, p, s);
    TurnRight(t, p, s);
    Kin(t, s);
  }

  /** The far child lies below the parent, and beside the two other subtrees. */
  lemma FarBeside(t: RBTree, p: Node, s: Node)
    requires t.Valid() && p in t.nodes && s in t.nodes && p.left == s && p.right in t.nodes && IsNode(t, s.right)
    ensures s.left != t.nil ==>
              && s.left in t.nodes && t.Below(s.left, p) && s.left != p
              && (s.right == t.nil || !t.Below(s.left, s.right)) && !t.Below(s.left, p.right)
  {
    assert t.NodeOk(p) && t.NodeOk(s) && t.NodeOk(p.right);
    assert s.left != t.nil ==> t.NodeOk(s.left);
    assert s.right != t.nil ==> t.NodeOk(s.right);
  }

  /** The three colours of the fourth case. */
  method PaintThreeRight(t: RBTree, p: Node, s: Node)
    requires t.Valid() && p in t.nodes && s in t.nodes && p.left == s
    requires p.right in t.nodes && IsNode(t, s.right) && IsNode(t, s.left)
    modifies t.nodes`color, t.nil`color
    ensures t.Valid() && t.PathAt(p) == old(t.PathAt(p)) && s.color == old(p.color) && p.color == Black
    ensures t.TreeAt(p.right) == old(t.TreeAt(p.right)) && t.TreeAt(s.right) == old(t.TreeAt(s.right))
    ensures t.TreeAt(s.left) == Blacken(old(t.TreeAt(s.left)))
    ensures t.nil.color == if s.left == t.nil then Black else old(t.nil.color)
  {
    assert t.NodeOk(p) && t.NodeOk(s);
    t.SidesDiffer(p);
    t.SidesDiffer(s);
    t.Family(s, p, p.right);
    t.Family(s, p, s.right);
    t.Family(s, p, s.left);
    FarBeside(t, p, s);
    var c := p.color;
    t.Paint(s, c);
    t.Paint(p, Black);
    Darken(t, s.left, s.right, p.right, p);
  }

  /** The second to fourth case, for a right child. */
  method RestRight(t: RBTree, node: Node, p: Node) returns (next: Node, ghost lost: bool, ghost x: Tree)
    requires t.Valid() && p in t.nodes && node in t.nodes && node.parent == p && p.right == node && IsNode(t, p.left)
    modifies t, t.nodes, t.nil
    ensures t.nodes == old(t.nodes) && (lost ==> old(FatalRight(t, p)) && next == t.root && IsNode(t, next))
    ensures lost ==> Damaged(t, x, old(WorkRight(t, p)))
    ensures !lost ==>
              && t.Valid() && next in t.nodes && Work(t, next) == old(WorkRight(t, p))
              && Fatal(t, next) == old(FatalRight(t, p))
              && (t.PathAt(next) == Top || (t.PathAt(next) == old(t.PathAt(p)) && next.color == old(p.color)))
  {
    ghost var up := t.PathAt(p);
    x := Plug(up, Leaf);
    lost := false;
    var sibling := p.left;
    ColoursAt(t, sibling);
    if sibling.right.color == Black && sibling.left.color == Black {
      SecondCaseRight(t, node, p, sibling);
      next := p;
    } else if sibling == t.nil {
      lost := true;
      MissingSiblingRight(t, node);
      FallenReads(t, p);
      next := t.root;
    } else if sibling.left.color == Black && sibling.right == t.nil {
      lost := true;
      MissingNearRight(t, node, sibling);
      FallenReads(t, p);
      next := t.root;
    } else {
      if sibling.left.color == Black {
        ThirdCaseRight(t, node, p, sibling);
        sibling := node.parent.left;
      }
      FourthCaseRight(t, node, p, sibling);
      next := t.root;
    }
  }

  /** The body of the loop at a left child. */
  method LeftCase(t: RBTree, node: Node) returns (next: Node, ghost lost: bool, ghost x: Tree)
    requires t.Valid() && node in t.nodes && node.color == Black && node != t.root && node == node.parent.left
    modifies t, t.nodes, t.nil
    ensures t.nodes == old(t.nodes) && (lost ==> old(Fatal(t, node)) && next == t.root && IsNode(t, next))
    ensures lost ==> Damaged(t, x, old(Work(t, node)))
    ensures !lost ==>
              && t.Valid() && next in t.nodes && Work(t, next) == old(Work(t, node))
              && Fatal(t, next) == old(Fatal(t, node))
              && 2 * Depth(t.PathAt(next)) + D.One(next.color) <= 2 * old(Depth(t.PathAt(node)))
  {
    assert t.NodeOk(node);
    var p := node.parent;
    t.PathStep(node);
    t.TreeStep(node);
    var sibling := p.right;
    ColoursAt(t, sibling);
    if sibling.color == Red && sibling == t.nil {
      x, lost := Plug(t.PathAt(p), Leaf), true;
      RedSentinelLeft(t, node);
      FallenReads(t, p);
      next := t.root;
    } else {
      if sibling.color == Red {
        FirstCaseLeft(t, node, p, sibling);
      }
      next, lost, x := RestLeft(t, node, p);
    }
  }

  /** The body of the loop at a right child. */
  method RightCase(t: RBTree, node: Node) returns (next: Node, ghost lost: bool, ghost x: Tree)
    requires t.Valid() && node in t.nodes && node.color == Black && node != t.root && node != node.parent.left
    modifies t, t.nodes, t.nil
    ensures t.nodes == old(t.nodes) && (lost ==> old(Fatal(t, node)) && next == t.root && IsNode(t, next))
    ensures lost ==> Damaged(t, x, old(Work(t, node)))
    ensures !lost ==>
              && t.Valid() && next in t.nodes && Work(t, next) == old(Work(t, node))
              && Fatal(t, next) == old(Fatal(t, node))
              && 2 * Depth(t.PathAt(next)) + D.One(next.color) <= 2 * old(Depth(t.PathAt(node)))
  {
    assert t.NodeOk(node);
    var p := node.parent;
    t.PathStep(node);
    t.TreeStep(node);
    var sibling := p.left;
    ColoursAt(t, sibling);
    if sibling.color == Red && sibling == t.nil {
      x, lost := Plug(t.PathAt(p), Leaf), true;
      RedSentinelRight(t, node);
      FallenReads(t, p);
      next := t.root;
    } else {
      if sibling.color == Red {
        FirstCaseRight(t, node, p, sibling);
      }
      next, lost, x := RestRight(t, node, p);
    }
  }

  // ---------------------------------------------------------------------------------------
  // The loop, and the whole deletion
  // ---------------------------------------------------------------------------------------

  /** Only the colour of one node changed. */
  twostate predicate OnlyPainted(t: RBTree, n: Node)
    reads t, t.nodes, t.nil
  {
    && t.nodes == old(t.nodes) && t.order == old(t.order) && t.root == old(t.root)
    && t.nil.left == old(t.nil.left) && t.nil.right == old(t.nil.right) && t.nil.parent == old(t.nil.parent)
    && forall m {:trigger m in t.nodes} :: m in t.nodes ==>
         && m.left == old(m.left) && m.right == old(m.right) && m.parent == old(m.parent)
         && m.pos == old(m.pos) && m.lo == old(m.lo) && m.hi == old(m.hi)
         && (m != n ==> m.color == old(m.color))
  }

  twostate lemma PaintedValid(new t: RBTree, new n: Node)
    requires old(allocated(t)) && old(allocated(n)) && old(t.Valid()) && OnlyPainted(t, n)
    ensures t.Valid()
  {
    forall m {:trigger t.NodeOk(m)} | m in t.nodes ensures t.NodeOk(m) {
      assert old(t.NodeOk(m));
    }
  }

  twostate lemma PaintedTree(new t: RBTree, new n: Node)
    requires old(allocated(t)) && old(allocated(n)) && old(t.Valid())
    requires OnlyPainted(t, n) && n in old(t.nodes) && n.color == Black
    ensures t.Valid() && n in t.nodes
    ensures t.TreeAt(n) == Blacken(old(t.TreeAt(n))) && t.PathAt(n) == old(t.PathAt(n))
  {
    PaintedValid(t, n);
    assert t.NodeOk(n) && old(t.NodeOk(n));
    var l, r := n.left, n.right;
    if l != t.nil { assert old(t.NodeOk(l)); }
    if r != t.nil { assert old(t.NodeOk(r)); }
    if n.parent != t.nil { assert old(t.NodeOk(n.parent)); }
    t.TreeFrame(l);
    t.TreeFrame(r);
    t.PathFrame(n, n);
  }

  /** The last line of the fixup; `lost` says whether the tree was cut, and `goal` is the model's result. */
  method PaintLast(t: RBTree, node: Node, ghost lost: bool, ghost x: Tree, ghost goal: (Tree, Color))
    requires t.nil !in t.nodes
    requires lost ==> node == t.root && Damaged(t, x, goal)
    requires !lost ==> t.Valid() && IsNode(t, node)
    requires !lost && node != t.nil ==> Work(t, node) == goal && (node == t.root || node.color == Red)
    modifies node`color
    ensures lost ==> Reads(t.nil, t.root, goal.0, t.nodes) && t.nil.color == goal.1 && !t.Valid()
    ensures !lost ==> t.Valid()
    ensures !lost && node == t.nil ==> t.Model() == old(t.Model()) && t.nil.color == Black
    ensures !lost && node != t.nil ==> t.Model() == goal.0 && t.nil.color == goal.1 && !old(Fatal(t, node))
  {
    if !lost {
      t.PathTop();
      if node != t.nil { t.TreeStep(node); }
    }
    node.color := Black;
    if !lost {
      PaintedValid(t, node);
      if node != t.nil {
        PaintedTree(t, node);
        t.PlugAt(node);
      } else {
        t.TreeFrame(t.root);
      }
    }
  }

  /**
   lu_rb_tree_delete_fixup, on every tree.  A traversal from the root afterwards meets the
   model's tree; the links stay well formed exactly if no rotation runs onto the sentinel.
   */
  method DeleteFixup(t: RBTree, start: Node)
    requires t.Valid() && IsNode(t, start)
    modifies t, t.nodes, t.nil
    ensures t.nodes == old(t.nodes)
    ensures start == t.nil ==> t.Valid() && t.Model() == old(t.Model()) && t.nil.color == Black
    ensures start != t.nil ==>
              && Reads(t.nil, t.root, old(Work(t, start)).0, t.nodes) && t.nil.color == old(Work(t, start)).1
              && (t.Valid() <==> !old(Fatal(t, start)))
              && (t.Valid() ==> t.Model() == old(Work(t, start)).0)
  {
    hide D.DeleteFixup, D.Loses, Damaged;
    var node := start;
    ghost var lost, x: Tree := false, Leaf;
    ghost var goal := if start == t.nil then (Leaf, Black) else Work(t, start);
    ghost var fatal := start != t.nil && Fatal(t, start);
    while node != t.root && node.color == Black
      invariant t.nodes == old(t.nodes) && t.nil !in t.nodes
      invariant start == t.nil ==> !lost && node == t.nil && t.Valid() && t.Model() == old(t.Model())
      invariant start != t.nil && !lost ==>
          t.Valid() && node in t.nodes && Work(t, node) == goal && Fatal(t, node) == fatal
      invariant lost ==> start != t.nil && fatal && node == t.root && IsNode(t, node) && Damaged(t, x, goal)
      decreases if lost || start == t.nil then 0 else 2 * Depth(t.PathAt(node)) + 1, D.One(node.color)
    {
      if node == t.nil {
        // its own parent, child and sibling
        t.Paint(node.parent.right, Red);
        node := node.parent;
      } else if node == node.parent.left {
        node, lost, x := LeftCase(t, node);
      } else {
        node, lost, x := RightCase(t, node);
      }
    }
    PaintLast(t, node, lost, x, goal);
    if !lost { ModelReads(t); }
  }

  /** The node lu_hash_rb_tree_find returns, or the sentinel. */
  method FindNode(t: RBTree, key: int) returns (node: Node)
    requires t.Valid()
    ensures if node == t.nil then D.Search(Top, t.Model(), key).1.Leaf?
            else node in t.nodes && D.Search(Top, t.Model(), key) == (t.PathAt(node), t.TreeAt(node))
  {
    node := t.root;
    t.PathTop();
    while node != t.nil
      invariant node == t.nil || node in t.nodes
      invariant node == t.nil ==> D.Search(Top, t.Model(), key).1.Leaf?
      invariant node != t.nil ==> D.Search(t.PathAt(node), t.TreeAt(node), key) == D.Search(Top, t.Model(), key)
      decreases if node == t.nil then 0 else node.hi - node.lo
    {
      t.TreeStep(node);
      t.SidesDiffer(node);
      assert t.NodeOk(node);
      if node.left != t.nil { t.Child(node, node.left); t.PathStep(node.left); }
      if node.right != t.nil { t.Child(node, node.right); t.PathStep(node.right); }
      if key == node.key {
        return;
      } else if key < node.key {
        node := node.left;
      } else {
        node := node.right;
      }
    }
  }

  /**
   lu_hash_rb_tree_delete, on every tree and for every colour of the sentinel.  What a traversal
   meets afterwards is the model's tree; the links stay well formed exactly if the model keeps
   every other entry.
   */
  method Delete(t: RBTree, key: int)
    requires t.Valid()
    modifies t, t.nodes, t.nil
    ensures t.nodes <= old(t.nodes)
    ensures var (tree, colour) := D.Delete(old(t.Model()), key, old(t.nil.color));
            Reads(t.nil, t.root, tree, t.nodes) && t.nil.color == colour && (t.Valid() ==> t.Model() == tree)
    ensures t.Valid() <==> D.Keeps(old(t.Model()), key, old(t.nil.color))
  {
    hide D.DeleteFixup, D.Loses, D.HoleOf, D.Transplanted, D.Heir, D.Victim, D.Search, Plug;
    var node := FindNode(t, key);
    if node == t.nil {
      ModelReads(t);
      return;
    }
    ghost var p, n := t.PathAt(node), t.TreeAt(node);
    t.TreeStep(node);
    var x, color := Unlink(t, node);
    if x != t.nil { t.TreeStep(x); }
    if color == Black {
      DeleteFixup(t, x);
    }
    if color == Red || x == t.nil { ModelReads(t); }
  }

  /** No step but the last one may cut the tree. */
  predicate CutsLast(s: D.State, ops: seq<D.Op>)
    decreases |ops|
  {
    !s.cut && (|ops| > 1 ==> CutsLast(D.Step(s, ops[0]), ops[1..]))
  }

  /** The links read as the tree of `s`, and are well formed unless it was cut. */
  ghost predicate Matches(t: RBTree, s: D.State)
    reads t, t.nodes, t.nil
  {
    && Reads(t.nil, t.root, s.tree, t.nodes) && t.nil.color == s.sentinel
    && (t.Valid() <==> !s.cut) && (t.Valid() ==> t.Model() == s.tree)
  }

  method RunStep(t: RBTree, op: D.Op)
    requires t.Valid()
    modifies t, t.nodes, t.nil
    ensures fresh(t.nodes - old(t.nodes))
    ensures Matches(t, D.Step(D.State(old(t.Model()), old(t.nil.color), false), op))
  {
    hide D.Delete, D.Keeps, Insert, InsertNil, Reads;
    match op
    case Put(e) =>
      t.Insert(e.key, e.value);
      assert e == Entry(e.key, e.value);
      ModelReads(t);
    case Remove(key) =>
      Delete(t, key);
  }

  /** A run of insertions and deletions on the links, up to a deletion that cuts the tree. */
  method RunAll(t: RBTree, ops: seq<D.Op>)
    requires t.Valid() && CutsLast(D.State(t.Model(), t.nil.color, false), ops)
    modifies t, t.nodes, t.nil
    ensures Matches(t, D.Run(D.State(old(t.Model()), old(t.nil.color), false), ops))
  {
    hide D.Step, Reads;
    ghost var s := D.State(t.Model(), t.nil.color, false);
    ghost var goal := D.Run(s, ops);
    ModelReads(t);
    for i := 0 to |ops|
      invariant D.Run(s, ops[i..]) == goal && (i < |ops| ==> CutsLast(s, ops[i..]))
      invariant Matches(t, s) && fresh(t.nodes - old(t.nodes))
    {
      assert ops[i..][0] == ops[i] && ops[i..][1..] == ops[i + 1..];
      assert s == D.State(t.Model(), t.nil.color, false);
      RunStep(t, ops[i]);
      s := D.Step(s, ops[i]);
    }
  }
}
