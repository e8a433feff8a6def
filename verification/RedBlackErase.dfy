/**
 The transplant phase of a deletion from the pointer tree of src/lu_hash_table.c, in all three
 cases and for every tree.
 */
module RedBlackErase {
  import opened RedBlackModel
  import opened RedBlackTree
  import D = RedBlackDelete

  ghost function Removed(s: seq<Node>, k: nat): (r: seq<Node>)
    requires k < |s|
    ensures |r| == |s| - 1
    ensures forall i :: 0 <= i < k ==> r[i] == s[i]
    ensures forall i :: k <= i < |r| ==> r[i] == s[i + 1]
  {
    s[..k] + s[k + 1..]
  }

  /** `node` gave way to its only child `c` (or the sentinel). */
  twostate predicate Spliced(t: RBTree, node: Node, new c: Node, k: nat)
    reads t, t.nodes
  {
    && node in old(t.nodes) && t.nodes == old(t.nodes) - {node}
    && k == old(node.pos) < |old(t.order)| && t.order == Removed(old(t.order), k)
    && t.root == (if old(t.root) == node then c else old(t.root))
    && forall n {:trigger n in t.nodes} :: n in t.nodes ==>
         && n.color == old(n.color)
         && n.left == (if old(n.left) == node then c else old(n.left))
         && n.right == (if old(n.right) == node then c else old(n.right))
         && n.parent == (if n == c then old(node.parent) else old(n.parent))
         && n.pos == old(n.pos) - (if old(n.pos) > k then 1 else 0)
         && n.lo == old(n.lo) - (if old(n.lo) > k then 1 else 0)
         && n.hi == old(n.hi) - (if old(n.hi) > k then 1 else 0)
  }

  /** The only child of a node, or the sentinel. */
  ghost predicate OnlyChild(t: RBTree, node: Node, c: Node)
    reads t, node
  {
    (node.left == t.nil && c == node.right) || (node.right == t.nil && c == node.left)
  }

  twostate lemma SplicedOk(new t: RBTree, new node: Node, new c: Node, k: nat, new n: Node)
    requires old(allocated(t)) && old(allocated(node)) && old(allocated(c))
    requires old(t.Valid()) && Spliced(t, node, c, k) && old(OnlyChild(t, node, c)) && n in t.nodes
    ensures t.NodeOk(n)
  {
    assert old(t.NodeOk(node)) && old(t.NodeOk(n));
    assert c != t.nil ==> old(t.NodeOk(c));
    assert old(node.parent) != t.nil ==> old(t.NodeOk(node.parent));
  }

  twostate lemma SplicedRoot(new t: RBTree, new node: Node, new c: Node, k: nat)
    requires old(allocated(t)) && old(allocated(node)) && old(allocated(c))
    requires old(t.Valid()) && Spliced(t, node, c, k) && old(OnlyChild(t, node, c))
    ensures if t.nodes == {} then t.root == t.nil && t.order == [] else t.root in t.nodes && t.root.parent == t.nil
  {
    assert old(t.NodeOk(node));
    assert c != t.nil ==> old(t.NodeOk(c)) && c != node && c in t.nodes;
    if old(t.root) == node {
      if c == t.nil {
        assert |old(t.order)| == 1;
        forall n | n in old(t.nodes) ensures n == node {
          assert old(t.NodeOk(n));
        }
      }
    } else {
      assert old(t.root) in t.nodes && old(t.NodeOk(t.root));
    }
  }

  twostate lemma SplicedOrder(new t: RBTree, new node: Node, new c: Node, k: nat)
    requires old(allocated(t)) && old(allocated(node)) && old(allocated(c))
    requires old(t.Valid()) && Spliced(t, node, c, k)
    ensures forall i :: 0 <= i < |t.order| ==> t.order[i] in t.nodes && t.order[i].pos == i
  {
    forall i | 0 <= i < |t.order| ensures t.order[i] in t.nodes && t.order[i].pos == i {
      var j := if i < k then i else i + 1;
      assert t.order[i] == old(t.order)[j] && old(t.order[j] in t.nodes && t.order[j].pos == j);
    }
  }

  /** Every index behind the removed node's moves down by one. */
  ghost method ShiftDown(k: nat, others: set<Node>)
    modifies others`pos, others`lo, others`hi
    ensures forall n {:trigger n in others} :: n in others ==>
              && n.pos as int == old(n.pos) - (if old(n.pos) > k then 1 else 0)
              && n.lo as int == old(n.lo) - (if old(n.lo) > k then 1 else 0)
              && n.hi as int == old(n.hi) - (if old(n.hi) > k then 1 else 0)
  {
    forall n | n in others { n.pos := if n.pos > k then n.pos - 1 else n.pos; }
    forall n | n in others { n.lo := if n.lo > k then n.lo - 1 else n.lo; }
    forall n | n in others { n.hi := if n.hi > k then n.hi - 1 else n.hi; }
  }

  /** lu_rb_tree_transplant. */
  method Transplant(t: RBTree, u: Node, v: Node)
    requires u.parent == t.nil || u.parent in t.nodes
    modifies t`root, ({u.parent} - {t.nil})`left, ({u.parent} - {t.nil})`right, ({v} - {t.nil})`parent
    ensures old(u.parent) == t.nil ==>
        t.root == v && old(u.parent).left == old(u.parent.left) && old(u.parent).right == old(u.parent.right)
    ensures old(u.parent) != t.nil ==> t.root == old(t.root)
    ensures old(u.parent) != t.nil && old(u.parent.left) == u ==>
        old(u.parent).left == v && old(u.parent).right == old(u.parent.right)
    ensures old(u.parent) != t.nil && old(u.parent.left) != u ==>
        old(u.parent).right == v && old(u.parent).left == old(u.parent.left)
    ensures v.parent == if v != t.nil then old(u.parent) else old(v.parent)
  {
    if u.parent == t.nil {
      t.root := v;
    } else if u == u.parent.left {
      u.parent.left := v;
    } else {
      u.parent.right := v;
    }
    if v != t.nil {
      v.parent := u.parent;
    }
  }

  /** The parent of a node, and the links that lead to it. */
  lemma Incoming(t: RBTree, p: Node)
    requires t.Valid() && p in t.nodes
    ensures p.parent == t.nil <==> p == t.root
    ensures p.parent != t.nil ==>
              p.parent in t.nodes && p.parent != p && !(p.lo <= p.parent.pos < p.hi)
                  && (p.parent.left == p <==> p.parent.right != p)
    ensures p.lo <= p.pos < p.hi && p.left != p && p.right != p
    ensures t.nil !in t.nodes && t.nil.left == t.nil && t.nil.right == t.nil
    ensures forall m {:trigger m in t.nodes} :: m in t.nodes && (m.left == p || m.right == p) ==> m == p.parent
  {
    assert t.NodeOk(p);
    assert p.parent != t.nil ==> t.NodeOk(p.parent);
    assert p.left != t.nil ==> t.NodeOk(p.left);
    assert p.right != t.nil ==> t.NodeOk(p.right);
    forall m {:trigger m in t.nodes} | m in t.nodes
      ensures m.left == p || m.right == p ==> m == p.parent
    {
      assert t.NodeOk(m);
    }
  }

  /** The links that lead to a node, and its child `c`. */
  ghost predicate Lone(t: RBTree, node: Node, c: Node)
    reads t, t.nodes, node
  {
    && t.nil !in t.nodes && node in t.nodes && (c == t.nil || c in t.nodes) && c != node && node.pos < |t.order|
    && (node.parent == t.nil <==> node == t.root)
    && (node.parent != t.nil ==>
          && node.parent in t.nodes && node.parent != node
          && (node.parent.left == node <==> node.parent.right != node))
    && (forall m {:trigger m in t.nodes} :: m in t.nodes && (m.left == node || m.right == node) ==> m == node.parent)
  }

  lemma LoneNode(t: RBTree, node: Node, c: Node)
    requires t.Valid() && node in t.nodes && OnlyChild(t, node, c)
    ensures Lone(t, node, c)
  {
    assert t.NodeOk(node);
    if c != t.nil { assert t.NodeOk(c); }
    Incoming(t, node);
  }

  method SpliceLinks(t: RBTree, node: Node, c: Node)
    requires Lone(t, node, c)
    modifies t, t.nodes
    ensures Spliced(t, node, c, old(node.pos))
  {
    ghost var k := node.pos;
    Transplant(t, node, c);
    t.nodes := t.nodes - {node};
    ShiftDown(k, t.nodes);
    t.order := Removed(t.order, k);
  }

  method SpliceNodes(t: RBTree, node: Node, c: Node)
    requires t.Valid() && node in t.nodes && OnlyChild(t, node, c)
    modifies t, t.nodes
    ensures Spliced(t, node, c, old(node.pos)) && forall n {:trigger t.NodeOk(n)} :: n in t.nodes ==> t.NodeOk(n)
  {
    ghost var k := node.pos;
    assert t.NodeOk(node);
    LoneNode(t, node, c);
    SpliceLinks(t, node, c);
    forall n {:trigger t.NodeOk(n)} | n in t.nodes ensures t.NodeOk(n) {
      SplicedOk(t, node, c, k, n);
    }
  }

  /** The first two cases: the node gives way to its only child. */
  method SpliceShape(t: RBTree, node: Node, c: Node)
    requires t.Valid() && node in t.nodes && OnlyChild(t, node, c)
    modifies t, t.nodes
    ensures t.Valid() && Spliced(t, node, c, old(node.pos))
  {
    ghost var k := node.pos;
    assert t.NodeOk(node);
    SpliceNodes(t, node, c);
    SplicedRoot(t, node, c, k);
    SplicedOrder(t, node, c, k);
  }

  /** Only the parent of the node and its child were relinked. */
  twostate lemma SplicedElsewhere(new t: RBTree, new node: Node, new c: Node, k: nat)
    requires old(allocated(t)) && old(allocated(node)) && old(allocated(c))
    requires old(t.Valid()) && Spliced(t, node, c, k)
    ensures forall m {:trigger m in t.nodes} :: m in t.nodes ==>
              && m in old(t.nodes) && m.color == old(m.color) && (m != c ==> m.parent == old(m.parent))
              && (m != old(node.parent) ==> m.left == old(m.left) && m.right == old(m.right))
              && (old(m.left) != node ==> m.left == old(m.left)) && (old(m.right) != node ==> m.right == old(m.right))
  {
    forall m {:trigger m in t.nodes} | m in t.nodes && m != old(node.parent)
      ensures m.left == old(m.left) && m.right == old(m.right)
    {
      assert old(t.NodeOk(m));
    }
  }

  /** A subtree that holds neither the node nor its parent is as before. */
  twostate lemma SplicedTree(new t: RBTree, new node: Node, new c: Node, k: nat, new s: Node)
    requires old(allocated(t)) && old(allocated(node)) && old(allocated(c)) && old(allocated(s))
    requires old(t.Valid()) && t.Valid() && Spliced(t, node, c, k)
    requires s == t.nil || (s in old(t.nodes) && s in t.nodes)
    requires s != t.nil ==>
        !(old(s.lo) <= old(node.pos) < old(s.hi))
            && (old(node.parent) != t.nil ==> !(old(s.lo) <= old(node.parent.pos) < old(s.hi)))
    ensures t.TreeAt(s) == old(t.TreeAt(s))
  {
    SplicedElsewhere(t, node, c, k);
    if s != t.nil {
      assert old(t.NodeOk(s));
      forall m | m in old(t.nodes) && old(s.lo) <= old(m.pos) < old(s.hi)
        ensures m in t.nodes && m != old(node.parent)
      {
        assert old(t.NodeOk(m));
      }
    }
    t.TreeFrame(s);
  }

  /** The child keeps its subtree, and sits where the node sat. */
  twostate lemma SplicedChild(new t: RBTree, new node: Node, new c: Node, k: nat)
    requires old(allocated(t)) && old(allocated(node)) && old(allocated(c))
    requires old(t.Valid()) && t.Valid() && Spliced(t, node, c, k) && old(OnlyChild(t, node, c)) && c != t.nil
    ensures c in t.nodes && t.PathAt(c) == old(t.PathAt(node)) && c in old(t.nodes) && t.TreeAt(c) == old(t.TreeAt(c))
  {
    assert old(t.NodeOk(node)) && old(t.NodeOk(c));
    if old(node.parent) != t.nil { assert old(t.NodeOk(node.parent)); }
    SplicedTree(t, node, c, k, c);
    SplicedPlace(t, node, c, k);
  }

  twostate lemma SplicedPlace(new t: RBTree, new node: Node, new c: Node, k: nat)
    requires old(allocated(t)) && old(allocated(node)) && old(allocated(c))
    requires old(t.Valid()) && t.Valid() && Spliced(t, node, c, k) && old(OnlyChild(t, node, c)) && c != t.nil
    ensures c in t.nodes && t.PathAt(c) == old(t.PathAt(node))
  {
    assert old(t.NodeOk(node)) && old(t.NodeOk(c));
    if old(node.parent) != t.nil { assert old(t.NodeOk(node.parent)); }
    SplicedElsewhere(t, node, c, k);
    forall m | m in old(t.nodes) && !(old(node.lo) <= old(m.pos) < old(node.hi)) ensures m in t.nodes && m != c {
    }
    t.PathFrame(node, c);
  }

  /** The parent stays where it is. */
  twostate lemma SplicedAbove(new t: RBTree, new node: Node, k: nat)
    requires old(allocated(t)) && old(allocated(node))
    requires old(t.Valid()) && t.Valid() && Spliced(t, node, t.nil, k) && old(node.parent) != t.nil
    ensures var p := old(node.parent); p in t.nodes && p in old(t.nodes) && t.PathAt(p) == old(t.PathAt(p))
  {
    var p := old(node.parent);
    assert old(t.NodeOk(node)) && old(t.NodeOk(p));
    if old(p.parent) != t.nil { assert old(t.NodeOk(p.parent)); }
    SplicedElsewhere(t, node, t.nil, k);
    forall m | m in old(t.nodes) && !(old(p.lo) <= old(m.pos) < old(p.hi)) ensures m in t.nodes && m != p {
    }
    t.PathFrame(p, p);
  }

  /** Without a child, the parent's side is empty and its other side as before. */
  twostate lemma SplicedParent(new t: RBTree, new node: Node, k: nat)
    requires old(allocated(t)) && old(allocated(node))
    requires old(t.Valid()) && t.Valid() && Spliced(t, node, t.nil, k) && old(node.parent) != t.nil
    ensures var p := old(node.parent);
            && p in t.nodes && p in old(t.nodes) && t.PathAt(p) == old(t.PathAt(p))
            && (old(p.left) == node ==>
                  && p.left == t.nil && p.right == old(p.right)
                  && (p.right == t.nil || (p.right in t.nodes && p.right in old(t.nodes)))
                  && t.TreeAt(p.right) == old(t.TreeAt(p.right)))
            && (old(p.left) != node ==>
                  && p.right == t.nil && p.left == old(p.left)
                  && (p.left == t.nil || (p.left in t.nodes && p.left in old(t.nodes)))
                  && t.TreeAt(p.left) == old(t.TreeAt(p.left)))
  {
    var p := old(node.parent);
    assert old(t.NodeOk(node)) && old(t.NodeOk(p));
    SplicedAbove(t, node, k);
    var s := if old(p.left) == node then old(p.right) else old(p.left);
    if s != t.nil { assert old(t.NodeOk(s)); }
    SplicedTree(t, node, t.nil, k, s);
  }

  /** The first two cases, on the tree. */
  method Splice(t: RBTree, node: Node, c: Node)
    requires t.Valid() && node in t.nodes && OnlyChild(t, node, c) && (c == t.nil || c in t.nodes)
    modifies t, t.nodes
    ensures t.Valid() && t.nodes == old(t.nodes) - {node} && t.Model() == Plug(old(t.PathAt(node)), old(t.TreeAt(c)))
    ensures c != t.nil ==> c in t.nodes && t.PathAt(c) == old(t.PathAt(node))
    ensures (c == t.nil || c in t.nodes) && t.TreeAt(c) == old(t.TreeAt(c))
  {
    ghost var k := node.pos;
    assert t.NodeOk(node);
    if node.parent != t.nil { t.PathStep(node); }
    ghost var p := node.parent;
    SpliceShape(t, node, c);
    if c != t.nil {
      SplicedChild(t, node, c, k);
      t.PlugAt(c);
    } else if p != t.nil {
      SplicedParent(t, node, k);
      t.TreeStep(p);
      t.PlugAt(p);
    } else {
      SplicedRoot(t, node, c, k);
    }
  }

  // ---------------------------------------------------------------------------------------
  // Two children: the successor takes the node's place
  // ---------------------------------------------------------------------------------------

  /** `y` is the leftmost node below the right child of `node`. */
  ghost predicate Successor(t: RBTree, node: Node, y: Node)
    reads t, t.nodes, t.nil, node, y
  {
    && node in t.nodes && y in t.nodes && node.left != t.nil && node.right != t.nil
    && y.left == t.nil && y.pos == node.pos + 1 && y != node
    && y.hi <= node.hi
  }

  /** lu_rb_tree_minimum on the right subtree. */
  method Minimum(t: RBTree, node: Node) returns (y: Node)
    requires t.Valid() && node in t.nodes && node.left != t.nil && node.right != t.nil
    ensures Successor(t, node, y) && y in t.nodes && node.right in t.nodes
    ensures t.TreeAt(node.right).Branch? && D.Least(t.TreeAt(node.right)) == t.TreeAt(y)
    ensures t.PathAt(y) == D.LeastHole(t.PathAt(node.right), t.TreeAt(node.right))
  {
    assert t.NodeOk(node);
    y := node.right;
    while y.left != t.nil
      invariant y in t.nodes && y.lo == node.pos + 1 && y.hi <= node.hi && y != node
      invariant t.TreeAt(y).Branch? && D.Least(t.TreeAt(y)) == D.Least(t.TreeAt(node.right))
      invariant t.TreeAt(node.right).Branch?
      invariant D.LeastHole(t.PathAt(y), t.TreeAt(y)) == D.LeastHole(t.PathAt(node.right), t.TreeAt(node.right))
      decreases y.hi - y.lo
    {
      assert t.NodeOk(y) && t.NodeOk(y.left);
      t.TreeStep(y);
      t.TreeStep(y.left);
      t.PathStep(y.left);
      y := y.left;
    }
    assert t.NodeOk(y);
    t.TreeStep(y);
  }

  /** `y`, which was outside the tree, sits where `node` sat. */
  twostate predicate Substituted(t: RBTree, node: Node, y: Node)
    reads t, t.nodes
  {
    && node in old(t.nodes) && y !in old(t.nodes) && t.nodes == old(t.nodes) - {node} + {y}
    && old(node.pos) < |old(t.order)| && t.order == old(t.order)[old(node.pos) := y]
    && t.root == (if old(t.root) == node then y else old(t.root))
    && y.parent == old(node.parent) && y.left == old(node.left)
    && y.right == old(node.right) && y.color == old(node.color)
    && y.pos == old(node.pos) && y.lo == old(node.lo) && y.hi == old(node.hi)
    && forall n {:trigger n in old(t.nodes)} :: n in old(t.nodes) && n != node ==>
         && n.color == old(n.color) && n.pos == old(n.pos) && n.lo == old(n.lo) && n.hi == old(n.hi)
         && n.left == (if old(n.left) == node then y else old(n.left))
         && n.right == (if old(n.right) == node then y else old(n.right))
         && n.parent == (if old(n.parent) == node then y else old(n.parent))
  }

  /** The links around a node with two children. */
  ghost predicate Around(t: RBTree, node: Node)
    reads t, t.nodes, node
  {
    && t.nil !in t.nodes && node in t.nodes && node.left in t.nodes && node.right in t.nodes
    && node.left != node && node.right != node && node.left != node.right
    && node.parent != node && (node.parent == t.nil || node.parent in t.nodes)
    && node.parent != node.left && node.parent != node.right
    && (t.root == node <==> node.parent == t.nil) && node.pos < |t.order|
    && (node.parent != t.nil ==> (node.parent.left == node <==> node.parent.right != node))
    && forall n {:trigger n in t.nodes} :: n in t.nodes ==>
         && (n.left == node || n.right == node ==> n == node.parent)
         && (n.parent == node <==> n == node.left || n == node.right)
  }

  lemma AroundNode(t: RBTree, node: Node)
    requires t.Valid() && node in t.nodes && node.left != t.nil && node.right != t.nil
    ensures Around(t, node)
  {
    assert t.NodeOk(node) && t.NodeOk(node.left) && t.NodeOk(node.right);
    if node.parent != t.nil { assert t.NodeOk(node.parent); }
    forall n {:trigger n in t.nodes} | n in t.nodes
      ensures n.left == node || n.right == node ==> n == node.parent
      ensures n.parent == node <==> n == node.left || n == node.right
    {
      assert t.NodeOk(n);
    }
  }

  /** The pointers, before the ghost state follows. */
  method SubstitutePointers(t: RBTree, node: Node, y: Node)
    requires Around(t, node) && y !in t.nodes && y != t.nil
    modifies t`root, t.nodes`left, t.nodes`right, t.nodes`parent, y`left, y`right, y`parent, y`color
    ensures t.root == (if old(t.root) == node then y else old(t.root))
    ensures y.parent == old(node.parent) && y.left == old(node.left)
    ensures y.right == old(node.right) && y.color == old(node.color)
    ensures forall n {:trigger n in old(t.nodes)} :: n in old(t.nodes) && n != node ==>
              && n.left == (if old(n.left) == node then y else old(n.left))
              && n.right == (if old(n.right) == node then y else old(n.right))
              && n.parent == (if old(n.parent) == node then y else old(n.parent))
  {
    y.right := node.right;
    y.right.parent := y;
    Transplant(t, node, y);
    y.left := node.left;
    y.left.parent := y;
    y.color := node.color;
  }

  /** The ghost state follows the pointers. */
  ghost method Enter(t: RBTree, node: Node, y: Node)
    requires node in t.nodes && node.pos < |t.order| && y !in t.nodes
    modifies t`order, t`nodes, y`pos, y`lo, y`hi
    ensures t.nodes == old(t.nodes) - {node} + {y} && t.order == old(t.order)[node.pos := y]
    ensures y.pos == node.pos && y.lo == node.lo && y.hi == node.hi
  {
    y.pos, y.lo, y.hi := node.pos, node.lo, node.hi;
    t.order := t.order[node.pos := y];
    t.nodes := t.nodes - {node} + {y};
  }

  lemma AroundItself(t: RBTree, node: Node)
    requires Around(t, node)
    ensures node in t.nodes && node.pos < |t.order|
  {
  }

  method SubstituteLinks(t: RBTree, node: Node, y: Node)
    requires Around(t, node) && y !in t.nodes && y != t.nil
    modifies t, t.nodes, y
    ensures Substituted(t, node, y)
  {
    hide Around;
    AroundItself(t, node);
    SubstitutePointers(t, node, y);
    Enter(t, node, y);
  }

  twostate lemma SubstitutedOk(new t: RBTree, new node: Node, new y: Node, new n: Node)
    requires old(allocated(t)) && old(allocated(node)) && old(allocated(y))
    requires old(t.Valid()) && Substituted(t, node, y) && y != t.nil && n in t.nodes
    ensures t.NodeOk(n)
  {
    assert old(t.NodeOk(node));
    assert n != y ==> old(t.NodeOk(n));
    assert n != y && n != node ==> old(n.pos) != old(node.pos);
  }

  method SubstituteShape(t: RBTree, node: Node, y: Node)
    requires t.Valid() && Around(t, node) && y !in t.nodes && y != t.nil
    modifies t, t.nodes, y
    ensures t.Valid() && Substituted(t, node, y)
  {
    SubstituteLinks(t, node, y);
    forall n {:trigger t.NodeOk(n)} | n in t.nodes ensures t.NodeOk(n) {
      SubstitutedOk(t, node, y, n);
    }
    SubstitutedOrder(t, node, y);
  }

  twostate lemma SubstitutedOrder(new t: RBTree, new node: Node, new y: Node)
    requires old(allocated(t)) && old(allocated(node)) && old(allocated(y))
    requires old(t.Valid()) && Substituted(t, node, y)
    ensures forall i :: 0 <= i < |t.order| ==> t.order[i] in t.nodes && t.order[i].pos == i
    ensures t.root in t.nodes && t.root.parent == t.nil
  {
    assert old(t.NodeOk(node));
    assert old(t.root) in old(t.nodes) && old(t.NodeOk(t.root));
    forall i | 0 <= i < |t.order| ensures t.order[i] in t.nodes && t.order[i].pos == i {
      assert old(t.order[i] in t.nodes && t.order[i].pos == i);
    }
  }

  twostate lemma SubstitutedTrees(new t: RBTree, new node: Node, new y: Node)
    requires old(allocated(t)) && old(allocated(node)) && old(allocated(y))
    requires old(t.Valid()) && t.Valid() && Substituted(t, node, y) && old(Around(t, node))
    ensures y in t.nodes && t.PathAt(y) == old(t.PathAt(node))
    ensures old(node.left) in t.nodes && old(node.right) in t.nodes
    ensures old(node.left) in old(t.nodes) && old(node.right) in old(t.nodes)
    ensures t.TreeAt(old(node.left)) == old(t.TreeAt(node.left))
    ensures t.TreeAt(old(node.right)) == old(t.TreeAt(node.right))
  {
    var l, r := old(node.left), old(node.right);
    assert old(t.NodeOk(node)) && old(t.NodeOk(l)) && old(t.NodeOk(r));
    forall m | m in old(t.nodes) && m != node
      ensures m in t.nodes && m != y && (m != old(node.parent) ==> m.left == old(m.left) && m.right == old(m.right))
      ensures m != l && m != r ==> m.parent == old(m.parent)
    {
    }
    if old(node.parent) != t.nil { assert old(t.NodeOk(node.parent)); }
    forall m | m in old(t.nodes) && (m == node || m == old(node.parent))
      ensures !(old(l.lo) <= old(m.pos) < old(l.hi)) && !(old(r.lo) <= old(m.pos) < old(r.hi))
    {
    }
    t.TreeFrame(l);
    t.TreeFrame(r);
    t.PathFrame(node, y);
  }

  // ---------------------------------------------------------------------------------------
  // The successor leaves its own place first
  // ---------------------------------------------------------------------------------------

  /** A node within the stretch of another one lies below it. */
  lemma {:induction false} Nested(t: RBTree, a: Node, b: Node)
    requires t.Valid() && a in t.nodes && b in t.nodes && a.lo <= b.pos < a.hi
    ensures a.lo <= b.lo && b.hi <= a.hi
    ensures b.pos < a.pos ==> b.hi <= a.pos
    ensures a.pos < b.pos ==> a.pos < b.lo
    decreases a.hi - a.lo
  {
    assert t.NodeOk(a) && t.NodeOk(b);
    if b.pos < a.pos {
      Nested(t, a.left, b);
      assert t.NodeOk(a.left);
    } else if a.pos < b.pos {
      Nested(t, a.right, b);
      assert t.NodeOk(a.right);
    }
  }

  /** `y` is the leftmost node below `n`, and another node. */
  ghost predicate OnSpine(t: RBTree, n: Node, y: Node)
    reads t, n, y
  {
    n in t.nodes && y in t.nodes && n != y && y.left == t.nil && y.pos == n.lo && y.pos < n.hi
  }

  /** The parent of the leftmost node is not behind any node of the spine. */
  ghost predicate LowParent(t: RBTree, y: Node)
    reads t, t.nodes, y
  {
    forall n {:trigger OnSpine(t, n, y)} :: n in t.nodes && OnSpine(t, n, y) ==>
        y.parent in t.nodes && y.parent.pos <= n.pos
  }

  lemma SpineParent(t: RBTree, y: Node)
    requires t.Valid() && y in t.nodes
    ensures LowParent(t, y)
  {
    assert t.NodeOk(y);
    forall n {:trigger OnSpine(t, n, y)} | n in t.nodes && OnSpine(t, n, y)
      ensures y.parent in t.nodes && y.parent.pos <= n.pos
    {
      assert t.NodeOk(n);
      Nested(t, n, y);
      assert y.parent != t.nil ==> t.NodeOk(y.parent);
    }
  }

  /** The right subtrees along the spine are as before. */
  twostate lemma SpineSide(new t: RBTree, new n: Node, new y: Node, new z: Node, k: nat)
    requires old(allocated(t)) && old(allocated(n)) && old(allocated(y)) && old(allocated(z))
    requires old(t.Valid()) && t.Valid() && Spliced(t, y, z, k)
    requires z == old(y.right) && old(OnSpine(t, n, y) && LowParent(t, y))
    ensures n in t.nodes && n in old(t.nodes) && n.color == old(n.color) && n.right == old(n.right)
    ensures n.left == if old(n.left) == y then z else old(n.left)
    ensures n.right == t.nil || (n.right in t.nodes && n.right in old(t.nodes))
    ensures t.TreeAt(n.right) == old(t.TreeAt(n.right))
  {
    var r, p := old(n.right), old(y.parent);
    assert old(t.NodeOk(n)) && old(t.NodeOk(y));
    SplicedElsewhere(t, y, z, k);
    if r != t.nil {
      assert old(t.NodeOk(r));
      assert old(p.pos) <= old(n.pos) < old(r.lo);
      forall m | m in old(t.nodes) && old(r.lo) <= old(m.pos) < old(r.hi) ensures m in t.nodes && m != p {
      }
    }
    t.TreeFrame(r);
  }

  twostate lemma {:induction false} SpineFrame(new t: RBTree, new n: Node, new y: Node, new z: Node, k: nat)
    requires old(allocated(t)) && old(allocated(n)) && old(allocated(y)) && old(allocated(z))
    requires old(t.Valid()) && t.Valid() && Spliced(t, y, z, k)
    requires z == old(y.right) && old(OnSpine(t, n, y) && LowParent(t, y))
    requires z == t.nil || (z in t.nodes && z in old(t.nodes) && t.TreeAt(z) == old(t.TreeAt(z)))
    ensures n in t.nodes && n in old(t.nodes) && (z == t.nil || z in old(t.nodes))
    ensures old(t.TreeAt(n)).Branch? && t.TreeAt(n) == D.ReplaceLeast(old(t.TreeAt(n)), old(t.TreeAt(z)))
    decreases old(n.hi) - old(n.lo)
  {
    var l := old(n.left);
    assert old(t.NodeOk(n)) && old(t.NodeOk(y)) && old(t.NodeOk(l));
    SpineSide(t, n, y, z, k);
    t.TreeStep(n);
    if l != y {
      SpineFrame(t, l, y, z, k);
    } else {
      assert old(t.TreeAt(y.left)).Leaf?;
      assert old(t.TreeAt(y)).left == old(t.TreeAt(y.left));
    }
  }

  /** The successor is not the right child: its parent lies strictly inside the right subtree. */
  ghost predicate Deep(t: RBTree, node: Node, y: Node)
    reads t, t.nodes, node, y
  {
    && t.nil !in t.nodes && y.parent in t.nodes && node.pos < y.parent.pos < node.hi && y.hi <= node.hi
    && node.right in t.nodes && OnSpine(t, node.right, y) && LowParent(t, y)
  }

  lemma SuccessorDeep(t: RBTree, node: Node, y: Node)
    requires t.Valid() && Successor(t, node, y) && y != node.right
    ensures Deep(t, node, y)
  {
    var r := node.right;
    assert t.NodeOk(node) && t.NodeOk(y) && t.NodeOk(r);
    SpineParent(t, y);
    assert OnSpine(t, r, y);
    assert t.NodeOk(y.parent);
  }

  twostate lemma DeepPlace(new t: RBTree, new node: Node, new y: Node, new z: Node, k: nat)
    requires old(allocated(t)) && old(allocated(node)) && old(allocated(y)) && old(allocated(z))
    requires old(t.Valid()) && t.Valid() && Spliced(t, y, z, k) && z == old(y.right)
    requires old(Successor(t, node, y) && Deep(t, node, y))
    ensures node in old(t.nodes) && node in t.nodes && t.PathAt(node) == old(t.PathAt(node))
    ensures node.left == old(node.left) && node.right == old(node.right) && node.color == old(node.color)
    ensures node.left in old(t.nodes) && node.left in t.nodes && t.TreeAt(node.left) == old(t.TreeAt(node.left))
    ensures node.right in old(t.nodes) && node.right in t.nodes
  {
    var l := old(node.left);
    assert old(t.NodeOk(node)) && old(t.NodeOk(y)) && old(t.NodeOk(l)) && old(t.NodeOk(node.right));
    assert z != t.nil ==> old(t.NodeOk(z));
    assert old(node.parent) != t.nil ==> old(t.NodeOk(node.parent));
    SplicedElsewhere(t, y, z, k);
    forall m | m in old(t.nodes) && !(old(node.lo) <= old(m.pos) < old(node.hi))
      ensures m in t.nodes && m != z && m != y && m != old(y.parent)
    {
    }
    forall m | m in old(t.nodes) && old(l.lo) <= old(m.pos) < old(l.hi) ensures m in t.nodes && m != old(y.parent) {
    }
    t.PathFrame(node, node);
    t.TreeFrame(l);
  }

  /** `m` is `node`'s right child or on the left spine below it. */
  ghost predicate OnWay(t: RBTree, node: Node, m: Node)
    reads t, node, m
  {
    m in t.nodes && m.lo == node.pos + 1 && m.hi <= node.hi && m != node
  }

  method DetachSuccessor(t: RBTree, node: Node, y: Node)
    requires t.Valid() && Successor(t, node, y) && y != node.right
    requires node.right in t.nodes && (y.right == t.nil || y.right in t.nodes)
    modifies t, t.nodes
    ensures t.Valid() && t.nodes == old(t.nodes) - {y} && node in t.nodes && y != t.nil
    ensures node.left == old(node.left) && node.right == old(node.right) && node.color == old(node.color)
    ensures node.left in old(t.nodes) && node.left in t.nodes && node.right in t.nodes && Around(t, node)
    ensures t.PathAt(node) == old(t.PathAt(node)) && t.TreeAt(node.left) == old(t.TreeAt(node.left))
    ensures old(t.TreeAt(node.right)).Branch?
    ensures t.TreeAt(node.right) == D.ReplaceLeast(old(t.TreeAt(node.right)), old(t.TreeAt(y.right)))
    ensures var z := old(y.right);
            z != t.nil ==>
                z in t.nodes && t.PathAt(z) == old(t.PathAt(y))
                    && t.TreeAt(z) == old(t.TreeAt(z)) && OnWay(t, node, z)
  {
    ghost var k, r := y.pos, node.right;
    var z := y.right;
    assert t.NodeOk(y) && (z != t.nil ==> t.NodeOk(z) && z.pos > y.pos && z != node);
    SuccessorDeep(t, node, y);
    SpliceShape(t, y, z);
    if z != t.nil { SplicedChild(t, y, z, k); }
    DeepPlace(t, node, y, z, k);
    SpineFrame(t, r, y, z, k);
    AroundNode(t, node);
  }

  // ---------------------------------------------------------------------------------------
  // The successor is the right child itself
  // ---------------------------------------------------------------------------------------

  /** `y`, the right child of `node`, moved up into its place and took over its left subtree. */
  twostate predicate Raised(t: RBTree, node: Node, y: Node, k: nat)
    reads t, t.nodes
  {
    && node in old(t.nodes) && t.nodes == old(t.nodes) - {node} && y in t.nodes
    && k == old(node.pos) < |old(t.order)| && t.order == Removed(old(t.order), k)
    && t.root == (if old(t.root) == node then y else old(t.root))
    && y.parent == old(node.parent) && y.left == old(node.left)
    && y.right == old(y.right) && y.color == old(node.color)
    && y.pos == k && y.lo == old(node.lo) && y.hi == old(node.hi) - 1
    && forall n {:trigger n in t.nodes} :: n in t.nodes && n != y ==>
         && n.color == old(n.color)
         && n.left == (if old(n.left) == node then y else old(n.left))
         && n.right == (if old(n.right) == node then y else old(n.right))
         && n.parent == (if old(n.parent) == node then y else old(n.parent))
         && n.pos == old(n.pos) - (if old(n.pos) > k then 1 else 0)
         && n.lo == old(n.lo) - (if old(n.lo) > k then 1 else 0)
         && n.hi == old(n.hi) - (if old(n.hi) > k then 1 else 0)
  }

  method RaiseLinks(t: RBTree, node: Node, y: Node)
    requires Around(t, node) && y == node.right && y.pos == node.pos + 1 && y.hi == node.hi > y.pos
    modifies t, t.nodes
    ensures Raised(t, node, y, old(node.pos))
  {
    ghost var k, h := node.pos, node.hi;
    Transplant(t, node, y);
    y.left := node.left;
    y.left.parent := y;
    y.color := node.color;
    t.nodes := t.nodes - {node};
    ShiftDown(k, t.nodes);
    y.lo := node.lo;
    t.order := Removed(t.order, k);
  }

  /** The raised node itself. */
  twostate lemma RaisedSelfOk(new t: RBTree, new node: Node, new y: Node, k: nat)
    requires old(allocated(t)) && old(allocated(node)) && old(allocated(y))
    requires old(t.Valid()) && old(Around(t, node))
    requires old(Successor(t, node, y) && y == node.right) && Raised(t, node, y, k)
    ensures t.NodeOk(y)
  {
    assert old(t.NodeOk(node)) && old(t.NodeOk(y)) && old(t.NodeOk(node.left));
    assert old(y.right) != t.nil ==> old(t.NodeOk(y.right));
    assert old(node.parent) != t.nil ==> old(t.NodeOk(node.parent));
  }

  /** Every other node. */
  twostate lemma RaisedOk(new t: RBTree, new node: Node, new y: Node, k: nat, new n: Node)
    requires old(allocated(t)) && old(allocated(node)) && old(allocated(y))
    requires old(t.Valid()) && old(Around(t, node))
    requires old(Successor(t, node, y) && y == node.right) && Raised(t, node, y, k)
    requires n in t.nodes && n != y
    ensures t.NodeOk(n)
  {
    assert old(t.NodeOk(node)) && old(t.NodeOk(y)) && old(t.NodeOk(n));
  }

  twostate lemma RaisedOrder(new t: RBTree, new node: Node, new y: Node, k: nat)
    requires old(allocated(t)) && old(allocated(node)) && old(allocated(y))
    requires old(t.Valid()) && old(Around(t, node))
    requires old(Successor(t, node, y) && y == node.right) && Raised(t, node, y, k)
    ensures forall i :: 0 <= i < |t.order| ==> t.order[i] in t.nodes && t.order[i].pos == i
    ensures t.root in t.nodes && t.root.parent == t.nil
  {
    assert old(t.root) in old(t.nodes) && old(t.NodeOk(t.root)) && old(t.NodeOk(node)) && old(t.NodeOk(y));
    forall i | 0 <= i < |t.order| ensures t.order[i] in t.nodes && t.order[i].pos == i {
      var j := if i < k then i else i + 1;
      assert t.order[i] == old(t.order)[j] && old(t.order[j] in t.nodes && t.order[j].pos == j);
    }
  }

  method RaiseShape(t: RBTree, node: Node, y: Node)
    requires t.Valid() && Around(t, node) && Successor(t, node, y) && y == node.right
    modifies t, t.nodes
    ensures t.Valid() && Raised(t, node, y, old(node.pos))
  {
    ghost var k := node.pos;
    assert t.NodeOk(node) && t.NodeOk(y);
    RaiseLinks(t, node, y);
    forall n {:trigger t.NodeOk(n)} | n in t.nodes ensures t.NodeOk(n) {
      if n == y { RaisedSelfOk(t, node, y, k); } else { RaisedOk(t, node, y, k, n); }
    }
    RaisedOrder(t, node, y, k);
  }

  twostate lemma RaisedTrees(new t: RBTree, new node: Node, new y: Node, k: nat)
    requires old(allocated(t)) && old(allocated(node)) && old(allocated(y))
    requires old(t.Valid()) && t.Valid() && Raised(t, node, y, k)
    requires old(Around(t, node)) && old(Successor(t, node, y) && y == node.right)
    ensures y in t.nodes && t.PathAt(y) == old(t.PathAt(node))
    ensures y.left == old(node.left) && y.left in t.nodes
    ensures y.left in old(t.nodes) && t.TreeAt(y.left) == old(t.TreeAt(node.left))
    ensures y.right == old(y.right) && (y.right == t.nil || (y.right in t.nodes && y.right in old(t.nodes)))
    ensures t.TreeAt(y.right) == old(t.TreeAt(y.right))
  {
    var l, z := old(node.left), old(y.right);
    assert old(t.NodeOk(node)) && old(t.NodeOk(l)) && old(t.NodeOk(y));
    assert z != t.nil ==> old(t.NodeOk(z));
    if old(node.parent) != t.nil { assert old(t.NodeOk(node.parent)); }
    forall m | m in old(t.nodes) && m != node && m != y
      ensures m in t.nodes && (m != old(node.parent) ==> m.left == old(m.left) && m.right == old(m.right))
      ensures m != l ==> m.parent == old(m.parent)
    {
    }
    forall m | m in old(t.nodes) && (m == node || m == y || m == old(node.parent))
      ensures !(old(l.lo) <= old(m.pos) < old(l.hi)) && (z != t.nil ==> !(old(z.lo) <= old(m.pos) < old(z.hi)))
    {
    }
    t.TreeFrame(l);
    t.TreeFrame(z);
    t.PathFrame(node, y);
  }

  method Raise(t: RBTree, node: Node, y: Node)
    requires t.Valid() && Around(t, node) && Successor(t, node, y)
    requires y == node.right && (y.right == t.nil || y.right in t.nodes)
    modifies t, t.nodes
    ensures t.Valid() && t.nodes == old(t.nodes) - {node}
    ensures t.Model() ==
        Plug(old(t.PathAt(node)),
            Branch(old(t.TreeAt(node.left)), old(node.color), Entry(y.key, y.value), old(t.TreeAt(y.right))))
    ensures y.right == old(y.right)
    ensures (y.right != t.nil ==> y.right in t.nodes && t.TreeAt(y.right) == old(t.TreeAt(y.right)))
    ensures y.right != t.nil ==>
        t.PathAt(y.right) ==
            InRight(old(t.TreeAt(node.left)), old(node.color), Entry(y.key, y.value), old(t.PathAt(node)))
  {
    ghost var k := node.pos;
    RaiseShape(t, node, y);
    RaisedTrees(t, node, y, k);
    t.TreeStep(y);
    t.PlugAt(y);
    assert t.NodeOk(y);
    if y.right != t.nil { t.PathStep(y.right); }
  }

  // ---------------------------------------------------------------------------------------
  // Where the heir ends up
  // ---------------------------------------------------------------------------------------

  /** From every node on the way, the way leads up over left turns to the right child. */
  ghost predicate Way(t: RBTree, node: Node)
    reads t, t.nodes, node
  {
    forall m {:trigger OnWay(t, node, m)} :: m in t.nodes && OnWay(t, node, m) && m != node.right ==>
      && m.parent in t.nodes && m.parent.left == m && OnWay(t, node, m.parent)
      && m.parent.hi - m.parent.lo > m.hi - m.lo && node.pos < m.parent.pos < node.hi
  }

  lemma WayUp(t: RBTree, node: Node)
    requires t.Valid() && node in t.nodes && node.right != t.nil
    ensures Way(t, node)
  {
    var r := node.right;
    assert t.NodeOk(node) && t.NodeOk(r);
    forall m {:trigger OnWay(t, node, m)} | m in t.nodes && OnWay(t, node, m) && m != r
      ensures && m.parent in t.nodes && m.parent.left == m && OnWay(t, node, m.parent)
              && m.parent.hi - m.parent.lo > m.hi - m.lo && node.pos < m.parent.pos < node.hi
    {
      assert t.NodeOk(m);
      Nested(t, r, m);
      assert m.parent != t.nil ==> t.NodeOk(m.parent);
      Nested(t, node, m.parent);
    }
  }

  /** The right subtrees along the way are as before. */
  twostate lemma SubstitutedSide(new t: RBTree, new node: Node, new y: Node, new q: Node)
    requires old(allocated(t)) && old(allocated(node)) && old(allocated(y)) && old(allocated(q))
    requires old(t.Valid()) && t.Valid() && Substituted(t, node, y)
    requires y != t.nil && old(Around(t, node) && OnWay(t, node, q))
    ensures q in old(t.nodes) && q in t.nodes && q.right == old(q.right) && q.color == old(q.color)
    ensures q.right == t.nil || (q.right in t.nodes && q.right in old(t.nodes))
    ensures t.TreeAt(q.right) == old(t.TreeAt(q.right))
  {
    var r := old(q.right);
    assert old(t.NodeOk(q)) && old(t.NodeOk(node));
    if old(node.parent) != t.nil { assert old(t.NodeOk(node.parent)); }
    if r != t.nil {
      assert old(t.NodeOk(r));
      forall m | m in old(t.nodes) && old(r.lo) <= old(m.pos) < old(r.hi)
        ensures m in t.nodes && m != y && m != node && m != old(node.parent)
        ensures m.left == old(m.left) && m.right == old(m.right)
      {
      }
    }
    t.TreeFrame(r);
  }

  twostate lemma {:induction false} SubstitutedPath(new t: RBTree, new node: Node, new y: Node, new m: Node)
    requires old(allocated(t)) && old(allocated(node)) && old(allocated(y)) && old(allocated(m))
    requires old(t.Valid()) && t.Valid() && Substituted(t, node, y)
    requires y != t.nil && old(Around(t, node) && Way(t, node) && OnWay(t, node, m))
    ensures m in old(t.nodes) && m in t.nodes && y in t.nodes
    ensures t.PathAt(m) ==
        D.Rebase(old(t.PathAt(m)),
            InRight(old(t.TreeAt(node.left)), old(node.color), Entry(y.key, y.value), old(t.PathAt(node))))
    decreases old(node.hi) - (old(m.hi) - old(m.lo))
  {
    var q := old(m.parent);
    assert old(t.NodeOk(node)) && old(t.NodeOk(m)) && t.NodeOk(m);
    SubstitutedTrees(t, node, y);
    if m != old(node.right) {
      assert old(t.NodeOk(q));
      SubstitutedPath(t, node, y, q);
      SubstitutedSide(t, node, y, q);
      assert m.parent == q && q.left == m;
      t.PathStep(m);
    } else {
      t.PathStep(m);
    }
  }

  twostate lemma SubstitutedBelow(new t: RBTree, new node: Node, new y: Node, new z: Node)
    requires old(allocated(t)) && old(allocated(node)) && old(allocated(y)) && old(allocated(z))
    requires old(t.Valid()) && t.Valid() && Substituted(t, node, y)
    requires y != t.nil && old(Around(t, node) && OnWay(t, node, z))
    ensures z in old(t.nodes) && z in t.nodes && t.TreeAt(z) == old(t.TreeAt(z))
  {
    assert old(t.NodeOk(z)) && old(t.NodeOk(node));
    if old(node.parent) != t.nil { assert old(t.NodeOk(node.parent)); }
    forall m | m in old(t.nodes) && old(z.lo) <= old(m.pos) < old(z.hi)
      ensures m in t.nodes && m != y && m != node && m != old(node.parent)
      ensures m.left == old(m.left) && m.right == old(m.right)
    {
    }
    t.TreeFrame(z);
  }

  /** The successor, already taken out, replaces the node: only the entry changes. */
  method Substitute(t: RBTree, node: Node, y: Node, ghost z: Node)
    requires t.Valid() && Around(t, node) && y !in t.nodes && y != t.nil
    requires z == t.nil || (z in t.nodes && OnWay(t, node, z))
    modifies t, t.nodes, y
    ensures t.Valid() && t.nodes == old(t.nodes) - {node} + {y}
    ensures t.Model() ==
        Plug(old(t.PathAt(node)),
            Branch(old(t.TreeAt(node.left)), old(node.color), Entry(y.key, y.value), old(t.TreeAt(node.right))))
    ensures z != t.nil ==> z in t.nodes && t.TreeAt(z) == old(t.TreeAt(z))
    ensures z != t.nil ==>
              t.PathAt(z) ==
                  D.Rebase(old(t.PathAt(z)),
                      InRight(old(t.TreeAt(node.left)), old(node.color), Entry(y.key, y.value), old(t.PathAt(node))))
  {
    WayUp(t, node);
    SubstituteShape(t, node, y);
    SubstitutedTrees(t, node, y);
    if z != t.nil {
      SubstitutedPath(t, node, y, z);
      SubstitutedBelow(t, node, y, z);
    }
    t.TreeStep(y);
    t.PlugAt(y);
  }

  // ---------------------------------------------------------------------------------------
  // The transplant phase
  // ---------------------------------------------------------------------------------------

  /** What the transplant phase leaves: the tree `m`, with the heir `x` at the place `p`. */
  ghost predicate Transplanted(t: RBTree, m: Tree, p: Path, x: Node, heir: Tree)
    reads t, t.nodes, t.nil
  {
    && t.Valid() && t.Model() == m && (x == t.nil || x in t.nodes) && t.TreeAt(x) == heir
    && (x != t.nil ==> t.PathAt(x) == p)
  }

  /** The place of the right subtree once the entry of `y` is above it. */
  ghost function Under(t: RBTree, node: Node, y: Node): Path
    requires t.Valid() && node in t.nodes && (node.left == t.nil || node.left in t.nodes)
    reads t, t.nodes, t.nil
  {
    InRight(t.TreeAt(node.left), node.color, Entry(y.key, y.value), t.PathAt(node))
  }

  /** The successor leaves its place and then takes the node's. */
  method TakeOverFar(t: RBTree, node: Node, y: Node)
    requires t.Valid() && Successor(t, node, y) && y != node.right && (y.right == t.nil || y.right in t.nodes)
    requires node.left in t.nodes && node.right in t.nodes
    modifies t, t.nodes
    ensures t.Valid() && t.nodes == old(t.nodes) - {node} && old(t.TreeAt(node.right)).Branch?
    ensures Transplanted(t,
              Plug(old(Under(t, node, y)).up,
                  Branch(old(t.TreeAt(node.left)), old(node.color), Entry(y.key, y.value),
                      D.ReplaceLeast(old(t.TreeAt(node.right)), old(t.TreeAt(y.right))))),
              D.Rebase(old(t.PathAt(y)), old(Under(t, node, y))), old(y.right), old(t.TreeAt(y.right)))
  {
    hide Plug, D.ReplaceLeast, D.Rebase;
    ghost var z := y.right;
    DetachSuccessor(t, node, y);
    Substitute(t, node, y, z);
  }

  /** The successor takes the node's place, by whichever of the two ways. */
  method TakeOver(t: RBTree, node: Node, y: Node)
    requires t.Valid() && Successor(t, node, y) && Around(t, node) && (y.right == t.nil || y.right in t.nodes)
    requires t.TreeAt(node.right).Branch? && D.Least(t.TreeAt(node.right)) == t.TreeAt(y)
    requires t.PathAt(y) == D.LeastHole(t.PathAt(node.right), t.TreeAt(node.right))
    modifies t, t.nodes
    ensures t.Valid() && t.nodes == old(t.nodes) - {node} && old(t.TreeAt(node.right)).Branch?
    ensures Transplanted(t,
              Plug(old(Under(t, node, y)).up,
                  Branch(old(t.TreeAt(node.left)), old(node.color), Entry(y.key, y.value),
                      D.ReplaceLeast(old(t.TreeAt(node.right)), old(t.TreeAt(y.right))))),
              D.LeastHole(old(Under(t, node, y)), old(t.TreeAt(node.right))), old(y.right), old(t.TreeAt(y.right)))
  {
    hide Plug;
    if y.parent != node {
      TowardsRight(t, node, y);
      TakeOverFar(t, node, y);
    } else {
      assert t.NodeOk(y) && t.NodeOk(node);
      t.TreeStep(y);
      Raise(t, node, y);
    }
  }

  lemma TowardsRight(t: RBTree, node: Node, y: Node)
    requires t.Valid() && Around(t, node) && t.TreeAt(node.right).Branch? && y in t.nodes
    requires t.PathAt(y) == D.LeastHole(t.PathAt(node.right), t.TreeAt(node.right))
    ensures D.Rebase(t.PathAt(y), Under(t, node, y)) == D.LeastHole(Under(t, node, y), t.TreeAt(node.right))
  {
    t.PathStep(node.right);
    D.RebaseLeast(t.PathAt(node.right), Under(t, node, y), t.TreeAt(node.right));
  }

  lemma TwoChildren(p: Path, n: Tree)
    requires n.Branch? && n.left.Branch? && n.right.Branch?
    ensures var y := D.Least(n.right);
            && D.Victim(n) == y && D.Heir(n) == y.right
            && D.Transplanted(n, y.right) == Branch(n.left, n.color, y.entry, D.ReplaceLeast(n.right, y.right))
            && D.HoleOf(p, n) == D.LeastHole(InRight(n.left, n.color, y.entry, p), n.right)
  {
  }

  /** The third case. */
  method UnlinkTwo(t: RBTree, node: Node) returns (x: Node, color: Color)
    requires t.Valid() && node in t.nodes && node.left != t.nil && node.right != t.nil
    modifies t, t.nodes
    ensures t.Valid() && t.nodes == old(t.nodes) - {node} && old(t.TreeAt(node)).Branch?
    ensures var p, n := old(t.PathAt(node)), old(t.TreeAt(node));
            && Transplanted(t, Plug(p, D.Transplanted(n, D.Heir(n))), D.HoleOf(p, n), x, D.Heir(n))
            && color == D.Victim(n).color
  {
    hide Plug, D.Victim, D.Heir, D.Transplanted, D.HoleOf;
    t.TreeStep(node);
    var y := Minimum(t, node);
    AroundNode(t, node);
    t.TreeStep(y);
    t.TreeStep(node.left);
    TwoChildren(t.PathAt(node), t.TreeAt(node));
    color := y.color;
    x := y.right;
    TakeOver(t, node, y);
  }

  method Unlink(t: RBTree, node: Node) returns (x: Node, color: Color)
    requires t.Valid() && node in t.nodes
    modifies t, t.nodes
    ensures t.Valid() && t.nodes == old(t.nodes) - {node} && old(t.TreeAt(node)).Branch?
    ensures var p, n := old(t.PathAt(node)), old(t.TreeAt(node));
            && Transplanted(t, Plug(p, D.Transplanted(n, D.Heir(n))), D.HoleOf(p, n), x, D.Heir(n))
            && color == D.Victim(n).color
  {
    t.TreeStep(node);
    color := node.color;
    if node.left == t.nil {
      x := node.right;
      Splice(t, node, node.right);
    } else if node.right == t.nil {
      x := node.left;
      t.TreeStep(node.left);
      Splice(t, node, node.left);
    } else {
      x, color := UnlinkTwo(t, node);
    }
  }
}
