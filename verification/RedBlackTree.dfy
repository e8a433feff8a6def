/**
 The pointer tree of src/lu_hash_table.c: nodes with left, right and parent pointers, one
 shared sentinel, and methods that rewrite those fields in place.

 Ghost state: `order` is the in-order sequence of the nodes, every node knows its index in it
 (`pos`) and the stretch its subtree covers (`lo`, `hi`).  A rotation leaves `order` alone and
 changes the stretch of two nodes, so the shape invariant is local to each node.
 */
module RedBlackTree {
  import opened RedBlackModel

  class Node {
    var left: Node
    var right: Node
    var parent: Node
    var color: Color
    const key: int
    const value: Ptr

    ghost var pos: nat
    ghost var lo: nat
    ghost var hi: nat

    constructor Sentinel()
      ensures left == this && right == this && parent == this && color == Black
    {
      left, right, parent, color := this, this, this, Black;
      key, value := 0, NULL;
    }

    constructor (key: int, value: Ptr, nil: Node)
      ensures left == nil && right == nil && parent == nil && color == Red
      ensures this.key == key && this.value == value
    {
      left, right, parent, color := nil, nil, nil, Red;
      this.key, this.value := key, value;
    }
  }

  class RBTree {
    var root: Node
    const nil: Node

    ghost var order: seq<Node>
    ghost var nodes: set<Node>

    ghost predicate NodeOk(n: Node)
      requires n in nodes
      reads this, nodes
    {
      && n.lo <= n.pos < n.hi <= |order| && order[n.pos] == n
      && (if n.left == nil then n.lo == n.pos
          else n.left in nodes && n.left.parent == n && n.left.lo == n.lo && n.left.hi == n.pos)
      && (if n.right == nil then n.hi == n.pos + 1
          else n.right in nodes && n.right.parent == n && n.right.lo == n.pos + 1 && n.right.hi == n.hi)
      && (if n.parent == nil then n == root && n.lo == 0 && n.hi == |order|
          else n.parent in nodes && (n == n.parent.left || n == n.parent.right))
    }

    /** All links mutual, the sentinel linked only to itself, every node below the root. */
    ghost predicate Valid()
      reads this, nodes, nil
    {
      && nil !in nodes && nil.left == nil && nil.right == nil && nil.parent == nil
      && (forall i :: 0 <= i < |order| ==> order[i] in nodes && order[i].pos == i)
      && (forall n {:trigger NodeOk(n)} :: n in nodes ==> NodeOk(n))
      && (if nodes == {} then root == nil && order == [] else root in nodes && root.parent == nil)
    }

    ghost function TreeAt(n: Node): Tree
      requires Valid() && (n == nil || n in nodes)
      reads this, nodes, nil
      decreases if n == nil then 0 else n.hi - n.lo
    {
      if n == nil then Leaf
      else
        assert NodeOk(n);
        Branch(TreeAt(n.left), n.color, Entry(n.key, n.value), TreeAt(n.right))
    }

    ghost function PathAt(n: Node): Path
      requires Valid() && n in nodes
      reads this, nodes, nil
      decreases |order| - (n.hi - n.lo)
    {
      assert NodeOk(n);
      var p := n.parent;
      if p == nil then Top
      else
        assert NodeOk(p);
        if n == p.left then InLeft(PathAt(p), p.color, Entry(p.key, p.value), TreeAt(p.right))
      else InRight(TreeAt(p.left), p.color, Entry(p.key, p.value), PathAt(p))
    }

    ghost function Model(): Tree
      requires Valid()
      reads this, nodes, nil
    {
      TreeAt(root)
    }

    ghost function Entries(): seq<Entry>
      reads this, order
    {
      seq(|order|, i requires 0 <= i < |order| reads this, order => Entry(order[i].key, order[i].value))
    }

    static lemma Parts(s: seq<Entry>, lo: nat, pos: nat, hi: nat)
      requires lo <= pos < hi <= |s|
      ensures s[lo..hi] == s[lo..pos] + [s[pos]] + s[pos + 1..hi]
    {
    }

    lemma {:induction false} TreeAtEntries(n: Node)
      requires Valid() && n in nodes
      ensures n.lo <= n.hi <= |order| && InOrder(TreeAt(n)) == Entries()[n.lo..n.hi]
      decreases n.hi - n.lo
    {
      assert NodeOk(n);
      if n.left != nil { TreeAtEntries(n.left); }
      if n.right != nil { TreeAtEntries(n.right); }
      Parts(Entries(), n.lo, n.pos, n.hi);
    }

    /** The ghost order is the in-order traversal of the links. */
    lemma ModelEntries()
      requires Valid()
      ensures InOrder(Model()) == Entries()
    {
      if nodes != {} {
        assert NodeOk(root);
        TreeAtEntries(root);
        assert Entries()[0..|order|] == Entries();
      }
    }

    lemma {:induction false} PlugAt(n: Node)
      requires Valid() && n in nodes
      ensures Plug(PathAt(n), TreeAt(n)) == Model()
      decreases |order| - (n.hi - n.lo)
    {
      assert NodeOk(n);
      if n.parent != nil {
        assert NodeOk(n.parent);
        PlugAt(n.parent);
      }
    }

    /** A subtree none of whose links and colours changed reads the same. */
    twostate lemma {:induction false} TreeFrame(n: Node)
      requires old(Valid()) && Valid()
      requires n == nil || (n in old(nodes) && n in nodes)
      requires n != nil ==> forall m :: m in old(nodes) && old(n.lo) <= old(m.pos) < old(n.hi) ==>
                 m in nodes && m.left == old(m.left) && m.right == old(m.right) && m.color == old(m.color)
      ensures TreeAt(n) == old(TreeAt(n))
      decreases if n == nil then 0 else old(n.hi) - old(n.lo)
    {
      if n != nil {
        assert old(NodeOk(n)) && NodeOk(n);
        TreeFrame(old(n.left));
        TreeFrame(old(n.right));
      }
    }

    /** A place none of whose surroundings changed, now taken by `n` instead of `m`. */
    twostate lemma {:induction false} PathFrame(m: Node, new n: Node)
      requires old(Valid()) && Valid() && m in old(nodes) && n in nodes
      requires n.parent == old(m.parent)
      requires n.parent != nil ==>
                 && n.parent in nodes
                 && (old(m.parent.left) == m ==> n.parent.left == n && n.parent.right == old(m.parent.right))
                 && (old(m.parent.left) != m ==> n.parent.right == n && n.parent.left == old(m.parent.left))
      requires forall k :: k in old(nodes) && !(old(m.lo) <= old(k.pos) < old(m.hi)) ==>
                 && k in nodes && k.color == old(k.color) && k.parent == old(k.parent)
                 && (k != old(m.parent) ==> k.left == old(k.left) && k.right == old(k.right))
      ensures PathAt(n) == old(PathAt(m))
      decreases old(|order|) - (old(m.hi) - old(m.lo))
    {
      var p := n.parent;
      assert old(NodeOk(m)) && NodeOk(n);
      if p != nil {
        assert old(NodeOk(p)) && NodeOk(p);
        if old(p.parent) != nil {
          assert old(NodeOk(p.parent));
        }
        PathFrame(p, p);
        if old(p.left) == m {
          TreeFrame(old(p.right));
        } else {
          TreeFrame(old(p.left));
        }
      }
    }

    constructor ()
      ensures Valid() && fresh(nil) && nodes == {} && order == []
      ensures Model() == Leaf
    {
      var sentinel := new Node.Sentinel();
      nil := sentinel;
      root := sentinel;
      nodes, order := {}, [];
    }

    // -------------------------------------------------------------------------------------
    // Rotations
    // -------------------------------------------------------------------------------------

    /** Everything but the links around `x` and `y` and their stretches is as before. */
    twostate predicate Rotated(x: Node, y: Node, mid: Node, p: Node)
      reads this, nodes
    {
      && nodes == old(nodes) && order == old(order)
      && root == (if p == nil then y else old(root))
      && (forall n :: n in nodes ==> n.color == old(n.color) && n.pos == old(n.pos))
      && (forall n :: n in nodes && n != x && n != y ==>
            && n.parent == (if n == mid then x else old(n.parent))
            && n.lo == old(n.lo) && n.hi == old(n.hi))
      && (forall n :: n in nodes && n != x && n != y && n != p ==> n.left == old(n.left) && n.right == old(n.right))
      && (p in nodes ==>
            && p.left == (if old(p.left) == x then y else old(p.left))
            && p.right == (if old(p.right) == x then y else old(p.right)))
    }

    /** Is `k` in the subtree of `m`? */
    ghost predicate Below(k: Node, m: Node)
      reads k, m
    {
      m.lo <= k.pos < m.hi
    }

    /** A subtree that holds neither of the rotated nodes nor their parent. */
    ghost predicate Beside(m: Node, x: Node, y: Node, p: Node)
      reads this, m, x, y, p
    {
      m == nil || (m in nodes && !Below(x, m) && !Below(y, m) && (p != nil ==> !Below(p, m)))
    }

    /** A proper ancestor's place. */
    ghost predicate Above(m: Node, y: Node, p: Node)
      reads this, m, y, p
    {
      m in nodes && p != nil && Below(p, m) && m.lo <= y.lo && y.hi <= m.hi
    }

    /** What RightRotate did: `y` was the left child of `x` and is now its parent. */
    twostate predicate RightRotated(x: Node, y: Node)
      requires x in old(nodes) && y in old(nodes)
      reads this, nodes, x, y
    {
      && Rotated(x, y, old(y.right), old(x.parent))
      && x.left == old(y.right) && x.right == old(x.right) && x.parent == y
      && y.left == old(y.left) && y.right == x && y.parent == old(x.parent)
      && y.lo == old(x.lo) && y.hi == x.hi == old(x.hi) && x.lo == y.pos + 1
    }

    /** The nodes a rotation touches are distinct. */
    lemma NeighboursRight(x: Node)
      requires Valid() && (x == nil || x in nodes) && x.left != nil
      ensures x in nodes && x.left in nodes && x.left != x
      ensures var y, mid, p := x.left, x.left.right, x.parent;
              && (mid != nil ==> mid in nodes && mid != x && mid != y)
              && (p != nil ==> p in nodes && p != x && p != y && p != mid && (p.left == x <==> p.right != x))
              && (p == nil <==> root == x)
    {
      assert NodeOk(x) && NodeOk(x.left);
      assert x.left.right != nil ==> NodeOk(x.left.right);
      assert x.parent != nil ==> NodeOk(x.parent);
    }

    /** The link that led to `node`, from its parent or from the root, now leads to `heir`. */
    method Redirect(node: Node, heir: Node)
      requires nil !in nodes && (node.parent != nil ==> node.parent in nodes)
      modifies `root, (nodes * {node.parent})`left, (nodes * {node.parent})`right
      ensures node.parent == nil ==> root == heir
      ensures node.parent != nil ==> root == old(root)
      ensures node.parent != nil ==>
          node.parent.left == if old(node.parent.left) == node then heir else old(node.parent.left)
      ensures node.parent != nil ==>
          node.parent.right == if old(node.parent.left) != node then heir else old(node.parent.right)
    {
      if node.parent == nil {
        root := heir;
      } else if node == node.parent.left {
        node.parent.left := heir;
      } else {
        node.parent.right := heir;
      }
    }

    /** The five relinking steps of the rotation. */
    method RightRelink(node: Node)
      requires nil !in nodes && node in nodes && node.left in nodes && node.left != node
      requires var y, mid, p := node.left, node.left.right, node.parent;
              && (mid != nil ==> mid in nodes && mid != node && mid != y)
              && (p != nil ==> p in nodes && p != node && p != y && p != mid && (p.left == node <==> p.right != node))
              && (p == nil <==> root == node)
      modifies `root, nodes`left, nodes`right, nodes`parent, nodes`lo, nodes`hi
      ensures RightRotated(node, old(node.left))
    {
      var left := node.left;
      node.left := left.right;
      if left.right != nil {
        left.right.parent := node;
      }
      left.parent := node.parent;
      Redirect(node, left);
      left.right := node;
      node.parent := left;
      left.lo, left.hi, node.lo := node.lo, node.hi, left.pos + 1;
    }

    /** The relinking keeps the shape invariant. */
    method RightRotateShape(node: Node)
      requires Valid() && node in nodes && node.left != nil
      modifies this, nodes
      ensures Valid() && old(node.left) in old(nodes) && RightRotated(node, old(node.left))
    {
      ghost var y := node.left;
      NeighboursRight(node);
      RightRelink(node);
      assert old(NodeOk(node)) && old(NodeOk(y));
      assert node.parent == y && NodeOk(node) && NodeOk(y) by {
        assert old(y.right) != nil ==> old(NodeOk(y.right));
        assert y.parent != nil ==> old(NodeOk(y.parent));
      }
      forall n {:trigger NodeOk(n)} | n in nodes ensures NodeOk(n) {
        assert old(NodeOk(n));
      }
    }

    /** What a rotation leaves alone: the place it happened in, the trees beside it, the places above it. */
    twostate lemma RightFrameTree(x: Node, new y: Node, new m: Node)
      requires old(Valid()) && Valid() && x in old(nodes) && y in old(nodes) && old(x.left) == y && RightRotated(x, y)
      requires Beside(m, x, y, y.parent)
      ensures TreeAt(m) == old(TreeAt(m))
    {
      assert NodeOk(x) && NodeOk(y) && nodes == old(nodes);
      TreeFrame(m);
    }

    twostate lemma RightFramePlace(x: Node, new y: Node)
      requires old(Valid()) && Valid() && x in old(nodes) && y in old(nodes) && old(x.left) == y && RightRotated(x, y)
      ensures PathAt(y) == old(PathAt(x))
    {
      assert old(NodeOk(x)) && old(NodeOk(y));
      assert y.parent != nil ==> NodeOk(y.parent) && old(NodeOk(y.parent));
      assert x.left != nil ==> NodeOk(x.left);
      PathFrame(x, y);
    }

    twostate lemma RightFramePath(x: Node, new y: Node, new m: Node)
      requires old(Valid()) && Valid() && x in old(nodes) && y in old(nodes) && old(x.left) == y && RightRotated(x, y)
      requires Above(m, y, y.parent)
      ensures PathAt(m) == old(PathAt(m))
    {
      assert old(NodeOk(x)) && old(NodeOk(y)) && old(NodeOk(m));
      assert x.left != nil ==> NodeOk(x.left);
      assert m.parent != nil ==> NodeOk(m.parent);
      PathFrame(m, m);
    }

    method RightRotate(node: Node)
      requires Valid() && (node == nil || node in nodes)
      modifies this, nodes
      ensures Valid() && nodes == old(nodes) && order == old(order)
      ensures old(node.left) == nil ==> unchanged(this) && unchanged(nodes)
      ensures old(node.left) != nil ==>
                var y := old(node.left);
                && node in nodes && y in nodes && RightRotated(node, y)
                && PathAt(y) == old(PathAt(node))
                && (forall m {:trigger TreeAt(m)} :: Beside(m, node, y, y.parent) ==> TreeAt(m) == old(TreeAt(m)))
                && (forall m {:trigger PathAt(m)} :: Above(m, y, y.parent) ==> PathAt(m) == old(PathAt(m)))
    {
      if node.left == nil {
        return;
      }
      ghost var y := node.left;
      RightRotateShape(node);
      RightFramePlace(node, y);
      forall m {:trigger TreeAt(m)} | Beside(m, node, y, y.parent) ensures TreeAt(m) == old(TreeAt(m)) {
        RightFrameTree(node, y, m);
      }
      forall m {:trigger PathAt(m)} | Above(m, y, y.parent) ensures PathAt(m) == old(PathAt(m)) {
        RightFramePath(node, y, m);
      }
    }

    /** What LeftRotate did: `y` was the right child of `x` and is now its parent. */
    twostate predicate LeftRotated(x: Node, y: Node)
      requires x in old(nodes) && y in old(nodes)
      reads this, nodes, x, y
    {
      && Rotated(x, y, old(y.left), old(x.parent))
      && x.right == old(y.left) && x.left == old(x.left) && x.parent == y
      && y.right == old(y.right) && y.left == x && y.parent == old(x.parent)
      && y.hi == old(x.hi) && y.lo == x.lo == old(x.lo) && x.hi == y.pos
    }

    lemma NeighboursLeft(x: Node)
      requires Valid() && (x == nil || x in nodes) && x.right != nil
      ensures x in nodes && x.right in nodes && x.right != x
      ensures var y, mid, p := x.right, x.right.left, x.parent;
              && (mid != nil ==> mid in nodes && mid != x && mid != y)
              && (p != nil ==> p in nodes && p != x && p != y && p != mid && (p.left == x <==> p.right != x))
              && (p == nil <==> root == x)
    {
      assert NodeOk(x) && NodeOk(x.right);
      assert x.right.left != nil ==> NodeOk(x.right.left);
      assert x.parent != nil ==> NodeOk(x.parent);
    }

    /** The five relinking steps of the rotation. */
    method LeftRelink(node: Node)
      requires nil !in nodes && node in nodes && node.right in nodes && node.right != node
      requires var y, mid, p := node.right, node.right.left, node.parent;
              && (mid != nil ==> mid in nodes && mid != node && mid != y)
              && (p != nil ==> p in nodes && p != node && p != y && p != mid && (p.left == node <==> p.right != node))
              && (p == nil <==> root == node)
      modifies `root, nodes`left, nodes`right, nodes`parent, nodes`lo, nodes`hi
      ensures LeftRotated(node, old(node.right))
    {
      var right := node.right;
      right.hi, right.lo, node.hi := node.hi, node.lo, right.pos;
      node.right := right.left;
      if right.left != nil {
        right.left.parent := node;
      }
      right.parent := node.parent;
      Redirect(node, right);
      right.left := node;
      node.parent := right;
    }

    /** The relinking keeps the shape invariant. */
    method LeftRotateShape(node: Node)
      requires Valid() && node in nodes && node.right != nil
      modifies this, nodes
      ensures Valid() && old(node.right) in old(nodes) && LeftRotated(node, old(node.right))
    {
      ghost var y := node.right;
      NeighboursLeft(node);
      LeftRelink(node);
      assert old(NodeOk(node)) && old(NodeOk(y));
      assert node.parent == y && NodeOk(node) && NodeOk(y) by {
        assert old(y.left) != nil ==> old(NodeOk(y.left));
        assert y.parent != nil ==> old(NodeOk(y.parent));
      }
      forall n {:trigger NodeOk(n)} | n in nodes ensures NodeOk(n) {
        assert old(NodeOk(n));
      }
    }

    /** What a rotation leaves alone: the place it happened in, the trees beside it, the places above it. */
    twostate lemma LeftFrameTree(x: Node, new y: Node, new m: Node)
      requires old(Valid()) && Valid() && x in old(nodes) && y in old(nodes) && old(x.right) == y && LeftRotated(x, y)
      requires Beside(m, x, y, y.parent)
      ensures TreeAt(m) == old(TreeAt(m))
    {
      assert NodeOk(x) && NodeOk(y) && nodes == old(nodes);
      TreeFrame(m);
    }

    twostate lemma LeftFramePlace(x: Node, new y: Node)
      requires old(Valid()) && Valid() && x in old(nodes) && y in old(nodes) && old(x.right) == y && LeftRotated(x, y)
      ensures PathAt(y) == old(PathAt(x))
    {
      assert old(NodeOk(x)) && old(NodeOk(y));
      assert y.parent != nil ==> NodeOk(y.parent) && old(NodeOk(y.parent));
      assert x.right != nil ==> NodeOk(x.right);
      PathFrame(x, y);
    }

    twostate lemma LeftFramePath(x: Node, new y: Node, new m: Node)
      requires old(Valid()) && Valid() && x in old(nodes) && y in old(nodes) && old(x.right) == y && LeftRotated(x, y)
      requires Above(m, y, y.parent)
      ensures PathAt(m) == old(PathAt(m))
    {
      assert old(NodeOk(x)) && old(NodeOk(y)) && old(NodeOk(m));
      assert x.right != nil ==> NodeOk(x.right);
      assert m.parent != nil ==> NodeOk(m.parent);
      PathFrame(m, m);
    }

    method LeftRotate(node: Node)
      requires Valid() && (node == nil || node in nodes)
      modifies this, nodes
      ensures Valid() && nodes == old(nodes) && order == old(order)
      ensures old(node.right) == nil ==> unchanged(this) && unchanged(nodes)
      ensures old(node.right) != nil ==>
                var y := old(node.right);
                && node in nodes && y in nodes && LeftRotated(node, y)
                && PathAt(y) == old(PathAt(node))
                && (forall m {:trigger TreeAt(m)} :: Beside(m, node, y, y.parent) ==> TreeAt(m) == old(TreeAt(m)))
                && (forall m {:trigger PathAt(m)} :: Above(m, y, y.parent) ==> PathAt(m) == old(PathAt(m)))
    {
      if node.right == nil {
        return;
      }
      ghost var y := node.right;
      LeftRotateShape(node);
      LeftFramePlace(node, y);
      forall m {:trigger TreeAt(m)} | Beside(m, node, y, y.parent) ensures TreeAt(m) == old(TreeAt(m)) {
        LeftFrameTree(node, y, m);
      }
      forall m {:trigger PathAt(m)} | Above(m, y, y.parent) ensures PathAt(m) == old(PathAt(m)) {
        LeftFramePath(node, y, m);
      }
    }

    // -------------------------------------------------------------------------------------
    // The arms of the insert fixup
    // -------------------------------------------------------------------------------------

    /** The rest of the loop's work, as the model computes it. */
    ghost function Remaining(n: Node): Tree
      requires Valid() && n in nodes
      reads this, nodes, nil
    {
      Fixup(PathAt(n), TreeAt(n))
    }

    /** Does that work turn the sentinel red? */
    ghost predicate Stains(n: Node)
      requires Valid() && n in nodes
      reads this, nodes, nil
    {
      TurnsNilRed(PathAt(n), TreeAt(n))
    }

    /** One step up, one step down. */
    lemma PathStep(n: Node)
      requires Valid() && n in nodes && n.parent != nil
      ensures n.parent in nodes && (n.parent.left == nil || n.parent.left in nodes)
      ensures (n.parent.right == nil || n.parent.right in nodes)
      ensures var p := n.parent;
              var e := Entry(p.key, p.value);
              && (p.left == n ==> PathAt(n) == InLeft(PathAt(p), p.color, e, TreeAt(p.right)))
              && (p.left != n ==> p.right == n && PathAt(n) == InRight(TreeAt(p.left), p.color, e, PathAt(p)))
    {
      assert NodeOk(n) && NodeOk(n.parent);
    }

    lemma TreeStep(n: Node)
      requires Valid() && n in nodes
      ensures (n.left == nil || n.left in nodes) && (n.right == nil || n.right in nodes)
      ensures TreeAt(n) == Branch(TreeAt(n.left), n.color, Entry(n.key, n.value), TreeAt(n.right))
    {
      assert NodeOk(n);
    }

    method Paint(n: Node, c: Color)
      requires Valid() && (n == nil || n in nodes)
      modifies n`color
      ensures Valid() && n.color == c
      ensures forall m {:trigger TreeAt(m)} :: m == nil || (m in nodes && (n == nil || !Below(n, m))) ==>
          TreeAt(m) == old(TreeAt(m))
      ensures forall m {:trigger PathAt(m)} :: m in nodes && (n == nil || Below(n, m)) ==> PathAt(m) == old(PathAt(m))
    {
      n.color := c;
      forall m {:trigger NodeOk(m)} | m in nodes ensures NodeOk(m) {
        assert old(NodeOk(m));
      }
      forall m {:trigger TreeAt(m)} | m == nil
          || (m in nodes && (n == nil || !Below(n, m))) ensures TreeAt(m) == old(TreeAt(m)) {
        TreeFrame(m);
      }
      forall m {:trigger PathAt(m)} | m in nodes && (n == nil || Below(n, m)) ensures PathAt(m) == old(PathAt(m)) {
        assert NodeOk(m) && (m.parent != nil ==> NodeOk(m.parent));
        PathFrame(m, m);
      }
    }

    /** `node` is a child of its red parent, whose sibling is not red. */
    ghost predicate NeedsRotation(node: Node, parent: Node, grandparent: Node, uncle: Node)
      requires Valid()
      reads this, nodes, nil
    {
      && node in nodes && node.parent == parent && parent in nodes && parent.color == Red
      && parent.parent == grandparent && grandparent in nodes
      && (uncle == nil || (uncle in nodes && uncle.color != Red))
      && (if grandparent.left == parent then grandparent.right == uncle else grandparent.left == uncle)
    }

    method PaintPair(parent: Node, grandparent: Node)
      requires Valid() && parent in nodes && grandparent in nodes && parent != grandparent
      modifies parent`color, grandparent`color
      ensures Valid() && parent.color == Black && grandparent.color == Red
      ensures forall m {:trigger TreeAt(m)} :: Clear(m, parent, grandparent) ==> TreeAt(m) == old(TreeAt(m))
      ensures forall m {:trigger PathAt(m)} :: m in nodes && Below(parent, m) && Below(grandparent, m) ==>
          PathAt(m) == old(PathAt(m))
    {
      Paint(parent, Black);
      Paint(grandparent, Red);
    }

    /** A subtree that holds neither of the two nodes. */
    ghost predicate Clear(m: Node, a: Node, b: Node)
      reads this, m, a, b
    {
      m == nil || (m in nodes && !Below(a, m) && !Below(b, m))
    }

    /** Where the subtrees below a grandparent lie. */
    lemma Family(parent: Node, grandparent: Node, m: Node)
      requires Valid() && parent in nodes && grandparent in nodes && parent.parent == grandparent
      requires m == parent.left || m == parent.right
          || (m != parent && (m == grandparent.left || m == grandparent.right))
      ensures parent != grandparent && Below(grandparent, grandparent) && Below(parent, grandparent)
      ensures parent.hi - parent.lo < grandparent.hi - grandparent.lo
      ensures Clear(m, parent, grandparent) && Beside(m, grandparent, parent, grandparent.parent)
    {
      assert NodeOk(parent) && NodeOk(grandparent);
      assert m != nil ==> NodeOk(m);
      assert grandparent.parent != nil ==> NodeOk(grandparent.parent);
    }

    /** The neighbours of a rotation of the grandparent. */
    lemma PivotFactsRight(grandparent: Node)
      requires Valid() && grandparent in nodes && grandparent.left != nil
      ensures var y := grandparent.left;
              && y in nodes && y != grandparent
              && Below(y, y) && Below(y, grandparent) && Below(grandparent, grandparent)
              && y.parent == grandparent && y.left != y && y.left != grandparent
      ensures var p := grandparent.parent;
              p != nil ==> p in nodes && p != grandparent && p != grandparent.left && !Below(p, grandparent)
    {
      assert NodeOk(grandparent) && NodeOk(grandparent.left);
      assert grandparent.parent != nil ==> NodeOk(grandparent.parent);
      assert grandparent.left.left != nil ==> NodeOk(grandparent.left.left);
    }

    /** Lines that end the arm: two colours, then a right rotation of the grandparent. */
    method PivotRight(parent: Node, grandparent: Node)
      requires Valid() && parent in nodes && grandparent in nodes && parent != grandparent
      requires grandparent.left != nil && grandparent.left in nodes && Below(parent, grandparent)
      modifies this, nodes
      ensures Valid() && nodes == old(nodes) && order == old(order)
      ensures var y := old(grandparent.left);
              && PathAt(y) == old(PathAt(grandparent))
              && y.right == grandparent && y.left == old(y.left) && y.parent == old(grandparent.parent)
              && grandparent.parent == y && grandparent.left == old(y.right)
              && grandparent.right == old(grandparent.right)
              && y.hi - y.lo == old(grandparent.hi - grandparent.lo)
              && (y != parent && old(y.right) != parent && old(grandparent.parent) != parent ==>
                    parent.left == old(parent.left) && parent.right == old(parent.right)
                        && parent.parent == old(parent.parent))
              && (y != parent ==> y.color == old(y.color))
      ensures parent.color == Black && grandparent.color == Red
      ensures forall m {:trigger TreeAt(m)} ::
                (m == nil || m in old(nodes))
                    && old(Clear(m, parent, grandparent) && Beside(m, grandparent, grandparent.left,
                        grandparent.parent))
                ==> TreeAt(m) == old(TreeAt(m))
    {
      hide NodeOk;
      PivotFactsRight(grandparent);
      PaintPair(parent, grandparent);
      assert forall m {:trigger TreeAt(m)} ::
               (m == nil || m in old(nodes)) && old(Clear(m, parent, grandparent)) ==> TreeAt(m) == old(TreeAt(m));
      RightRotate(grandparent);
    }

    method LeftArmOuter(node: Node, parent: Node, grandparent: Node)
      requires Valid() && NeedsRotation(node, parent, grandparent, grandparent.right)
      requires grandparent.left == parent && parent.left == node
      requires parent.right == nil || parent.right in nodes
      modifies this, nodes
      ensures Valid() && nodes == old(nodes) && order == old(order)
      ensures node.parent == parent && parent.hi - parent.lo > old(parent.hi - parent.lo)
      ensures TreeAt(node) == old(TreeAt(node))
      ensures PathAt(node) == InLeft(old(PathAt(grandparent)), Black, Entry(parent.key, parent.value),
                Branch(old(TreeAt(parent.right)), Red, Entry(grandparent.key, grandparent.value),
                    old(TreeAt(grandparent.right))))
    {
      Family(parent, grandparent, node);
      Family(parent, grandparent, parent.right);
      Family(parent, grandparent, grandparent.right);
      PivotRight(parent, grandparent);
      assert NodeOk(parent);
      PathStep(node);
      TreeStep(grandparent);
    }

    /** The neighbours of a rotation of the grandparent. */
    lemma PivotFactsLeft(grandparent: Node)
      requires Valid() && grandparent in nodes && grandparent.right != nil
      ensures var y := grandparent.right;
              && y in nodes && y != grandparent
              && Below(y, y) && Below(y, grandparent) && Below(grandparent, grandparent)
              && y.parent == grandparent && y.right != y && y.right != grandparent
      ensures var p := grandparent.parent;
              p != nil ==> p in nodes && p != grandparent && p != grandparent.right && !Below(p, grandparent)
    {
      assert NodeOk(grandparent) && NodeOk(grandparent.right);
      assert grandparent.parent != nil ==> NodeOk(grandparent.parent);
      assert grandparent.right.right != nil ==> NodeOk(grandparent.right.right);
    }

    /** Lines that end the arm: two colours, then a left rotation of the grandparent. */
    method PivotLeft(parent: Node, grandparent: Node)
      requires Valid() && parent in nodes && grandparent in nodes && parent != grandparent
      requires grandparent.right != nil && grandparent.right in nodes && Below(parent, grandparent)
      modifies this, nodes
      ensures Valid() && nodes == old(nodes) && order == old(order)
      ensures var y := old(grandparent.right);
              && PathAt(y) == old(PathAt(grandparent))
              && y.left == grandparent && y.right == old(y.right) && y.parent == old(grandparent.parent)
              && grandparent.parent == y && grandparent.right == old(y.left)
              && grandparent.left == old(grandparent.left)
              && y.hi - y.lo == old(grandparent.hi - grandparent.lo)
              && (y != parent && old(y.left) != parent && old(grandparent.parent) != parent ==>
                    parent.left == old(parent.left) && parent.right == old(parent.right)
                        && parent.parent == old(parent.parent))
              && (y != parent ==> y.color == old(y.color))
      ensures parent.color == Black && grandparent.color == Red
      ensures forall m {:trigger TreeAt(m)} ::
                (m == nil || m in old(nodes))
                    && old(Clear(m, parent, grandparent) && Beside(m, grandparent, grandparent.right,
                        grandparent.parent))
                ==> TreeAt(m) == old(TreeAt(m))
    {
      hide NodeOk;
      PivotFactsLeft(grandparent);
      PaintPair(parent, grandparent);
      assert forall m {:trigger TreeAt(m)} ::
               (m == nil || m in old(nodes)) && old(Clear(m, parent, grandparent)) ==> TreeAt(m) == old(TreeAt(m));
      LeftRotate(grandparent);
    }

    method RightArmOuter(node: Node, parent: Node, grandparent: Node)
      requires Valid() && NeedsRotation(node, parent, grandparent, grandparent.left)
      requires grandparent.right == parent && parent.right == node
      requires parent.left == nil || parent.left in nodes
      modifies this, nodes
      ensures Valid() && nodes == old(nodes) && order == old(order)
      ensures node.parent == parent && parent.hi - parent.lo > old(parent.hi - parent.lo)
      ensures TreeAt(node) == old(TreeAt(node))
      ensures PathAt(node) ==
          InRight(Branch(old(TreeAt(grandparent.left)), Red, Entry(grandparent.key, grandparent.value),
              old(TreeAt(parent.left))),
                Black, Entry(parent.key, parent.value), old(PathAt(grandparent)))
    {
      Family(parent, grandparent, node);
      Family(parent, grandparent, parent.left);
      Family(parent, grandparent, grandparent.left);
      PivotLeft(parent, grandparent);
      assert NodeOk(parent);
      PathStep(node);
      TreeStep(grandparent);
    }

    /** A node, its parent and its grandparent. */
    lemma Generations(node: Node, parent: Node, grandparent: Node)
      requires Valid() && node in nodes && parent in nodes && grandparent in nodes
      requires node.parent == parent && parent.parent == grandparent
      ensures node != parent && node != grandparent && parent != grandparent
      ensures Below(node, parent) && Below(node, grandparent) && Below(parent, grandparent)
      ensures parent.left == node || parent.right == node
      ensures grandparent.left == parent || grandparent.right == parent
      ensures grandparent.lo <= parent.lo <= node.lo < node.hi <= parent.hi <= grandparent.hi
      ensures node.hi - node.lo < parent.hi - parent.lo < grandparent.hi - grandparent.lo
      ensures grandparent.parent != nil ==>
                && grandparent.parent in nodes && grandparent.parent != node && grandparent.parent != parent
                && !(grandparent.lo <= grandparent.parent.pos < grandparent.hi)
    {
      assert NodeOk(node) && NodeOk(parent) && NodeOk(grandparent);
      assert grandparent.parent != nil ==> NodeOk(grandparent.parent);
    }

    /** Where the subtrees below the three of them lie. */
    lemma Cousin(node: Node, parent: Node, grandparent: Node, m: Node)
      requires Valid() && node in nodes && parent in nodes && grandparent in nodes
      requires node.parent == parent && parent.parent == grandparent
      requires m == node.left || m == node.right
            || (m != node && (m == parent.left || m == parent.right))
            || (m != parent && (m == grandparent.left || m == grandparent.right))
      ensures Clear(m, parent, grandparent) && Beside(m, parent, node, grandparent)
      ensures Beside(m, grandparent, node, grandparent.parent)
    {
      Generations(node, parent, grandparent);
      if m != nil {
        assert m in nodes && grandparent.lo <= m.lo && m.hi <= grandparent.hi
            && !Below(node, m) && !Below(parent, m) && !Below(grandparent, m) by {
          if m == node.left || m == node.right {
            Child(node, m); Apart(parent, node, m); Apart(grandparent, parent, m);
          } else if m != node && (m == parent.left || m == parent.right) {
            Child(parent, m); Siblings(parent, m, node); Apart(grandparent, parent, m);
          } else {
            Child(grandparent, m); Siblings(grandparent, m, parent);
          }
        }
      }
    }

    lemma Child(n: Node, m: Node)
      requires Valid() && n in nodes && m != nil && (m == n.left || m == n.right)
      ensures m in nodes && n.lo <= m.lo < m.hi <= n.hi && !Below(n, m)
    {
      assert NodeOk(n) && NodeOk(m);
    }

    lemma Siblings(n: Node, m: Node, k: Node)
      requires Valid() && n in nodes && m != nil && k != nil
      requires (m == n.left || m == n.right) && (k == n.left || k == n.right) && m != k
      ensures m in nodes && k in nodes && (m.hi <= k.lo || k.hi <= m.lo) && Below(k, k)
    {
      assert NodeOk(n) && NodeOk(m) && NodeOk(k);
    }

    lemma Apart(n: Node, k: Node, m: Node)
      requires Valid() && n in nodes && k in nodes && k.parent == n && k.lo <= m.lo && m.hi <= k.hi
      ensures !Below(n, m)
    {
      assert NodeOk(n) && NodeOk(k);
    }

    /** A subtree that the second rotation of an inner arm will not touch. */
    ghost predicate Settled(m: Node, parent: Node, grandparent: Node, node: Node)
      reads this, m, parent, grandparent, node, grandparent.parent
    {
      Clear(m, parent, grandparent) && Beside(m, grandparent, node, grandparent.parent)
    }

    /** The first rotation of an inner arm: `node` changes places with its parent. */
    method LeftTurn(node: Node, parent: Node, grandparent: Node)
      requires Valid() && NeedsRotation(node, parent, grandparent, grandparent.right)
      requires grandparent.left == parent && parent.right == node && parent.left != node
      requires (parent.left == nil || parent.left in nodes)
      requires (node.left == nil || node.left in nodes) && (node.right == nil || node.right in nodes)
      modifies this, nodes
      ensures Valid() && nodes == old(nodes) && order == old(order)
      ensures grandparent.left == node && grandparent.right == old(grandparent.right)
      ensures grandparent.parent == old(grandparent.parent)
      ensures node.parent == grandparent && node.left == parent
      ensures node.right == old(node.right) && node.color == old(node.color)
      ensures parent.parent == node && parent.left == old(parent.left) && parent.right == old(node.left)
      ensures parent in nodes && Below(parent, grandparent) && parent != grandparent && grandparent.parent != parent
      ensures grandparent.hi - grandparent.lo == old(grandparent.hi - grandparent.lo)
      ensures PathAt(grandparent) == old(PathAt(grandparent))
      ensures TreeAt(parent.left) == old(TreeAt(parent.left)) && Settled(parent.left, parent, grandparent, node)
      ensures TreeAt(parent.right) == old(TreeAt(node.left)) && Settled(parent.right, parent, grandparent, node)
      ensures TreeAt(node.right) == old(TreeAt(node.right)) && Settled(node.right, parent, grandparent, node)
      ensures TreeAt(grandparent.right) == old(TreeAt(grandparent.right))
      ensures Settled(grandparent.right, parent, grandparent, node)
    {
      Generations(node, parent, grandparent);
      assert NodeOk(node) && NodeOk(parent) && NodeOk(grandparent);
      Cousin(node, parent, grandparent, parent.left);
      Cousin(node, parent, grandparent, node.left);
      Cousin(node, parent, grandparent, node.right);
      Cousin(node, parent, grandparent, grandparent.right);
      LeftRotate(parent);
      assert NodeOk(node) && NodeOk(parent) && NodeOk(grandparent);
    }

    method LeftArmInner(node: Node, parent: Node, grandparent: Node)
      requires Valid() && NeedsRotation(node, parent, grandparent, grandparent.right)
      requires grandparent.left == parent && parent.right == node && parent.left != node
      requires (parent.left == nil || parent.left in nodes)
      requires (node.left == nil || node.left in nodes) && (node.right == nil || node.right in nodes)
      modifies this, nodes
      ensures Valid() && nodes == old(nodes) && order == old(order)
      ensures parent.parent == node && node.hi - node.lo > old(parent.hi - parent.lo)
      ensures TreeAt(parent) ==
          Branch(old(TreeAt(parent.left)), Black, Entry(parent.key, parent.value), old(TreeAt(node.left)))
      ensures PathAt(parent) == InLeft(old(PathAt(grandparent)), old(node.color), Entry(node.key, node.value),
                Branch(old(TreeAt(node.right)), Red, Entry(grandparent.key, grandparent.value),
                    old(TreeAt(grandparent.right))))
    {
      Generations(node, parent, grandparent);
      LeftTurn(node, parent, grandparent);
      PivotRight(parent, grandparent);
      assert NodeOk(node);
      PathStep(parent);
      TreeStep(parent);
      TreeStep(grandparent);
    }

    /** The first rotation of an inner arm: `node` changes places with its parent. */
    method RightTurn(node: Node, parent: Node, grandparent: Node)
      requires Valid() && NeedsRotation(node, parent, grandparent, grandparent.left)
      requires grandparent.right == parent && parent.left == node && parent.right != node
      requires (parent.right == nil || parent.right in nodes)
      requires (node.left == nil || node.left in nodes) && (node.right == nil || node.right in nodes)
      modifies this, nodes
      ensures Valid() && nodes == old(nodes) && order == old(order)
      ensures grandparent.right == node && grandparent.left == old(grandparent.left)
      ensures grandparent.parent == old(grandparent.parent)
      ensures node.parent == grandparent && node.right == parent
      ensures node.left == old(node.left) && node.color == old(node.color)
      ensures parent.parent == node && parent.right == old(parent.right) && parent.left == old(node.right)
      ensures parent in nodes && Below(parent, grandparent) && parent != grandparent && grandparent.parent != parent
      ensures grandparent.hi - grandparent.lo == old(grandparent.hi - grandparent.lo)
      ensures PathAt(grandparent) == old(PathAt(grandparent))
      ensures TreeAt(parent.right) == old(TreeAt(parent.right)) && Settled(parent.right, parent, grandparent, node)
      ensures TreeAt(parent.left) == old(TreeAt(node.right)) && Settled(parent.left, parent, grandparent, node)
      ensures TreeAt(node.left) == old(TreeAt(node.left)) && Settled(node.left, parent, grandparent, node)
      ensures TreeAt(grandparent.left) == old(TreeAt(grandparent.left))
      ensures Settled(grandparent.left, parent, grandparent, node)
    {
      Generations(node, parent, grandparent);
      assert NodeOk(node) && NodeOk(parent) && NodeOk(grandparent);
      Cousin(node, parent, grandparent, parent.right);
      Cousin(node, parent, grandparent, node.left);
      Cousin(node, parent, grandparent, node.right);
      Cousin(node, parent, grandparent, grandparent.left);
      RightRotate(parent);
      assert NodeOk(node) && NodeOk(parent) && NodeOk(grandparent);
    }

    method RightArmInner(node: Node, parent: Node, grandparent: Node)
      requires Valid() && NeedsRotation(node, parent, grandparent, grandparent.left)
      requires grandparent.right == parent && parent.left == node && parent.right != node
      requires (parent.right == nil || parent.right in nodes)
      requires (node.left == nil || node.left in nodes) && (node.right == nil || node.right in nodes)
      modifies this, nodes
      ensures Valid() && nodes == old(nodes) && order == old(order)
      ensures parent.parent == node && node.hi - node.lo > old(parent.hi - parent.lo)
      ensures TreeAt(parent) ==
          Branch(old(TreeAt(node.right)), Black, Entry(parent.key, parent.value), old(TreeAt(parent.right)))
      ensures PathAt(parent) ==
          InRight(Branch(old(TreeAt(grandparent.left)), Red, Entry(grandparent.key, grandparent.value),
              old(TreeAt(node.left))),
                old(node.color), Entry(node.key, node.value), old(PathAt(grandparent)))
    {
      Generations(node, parent, grandparent);
      RightTurn(node, parent, grandparent);
      PivotLeft(parent, grandparent);
      assert NodeOk(node);
      PathStep(parent);
      TreeStep(parent);
      TreeStep(grandparent);
    }

    lemma SidesDiffer(n: Node)
      requires Valid() && n in nodes
      ensures n.left != nil ==> n.left != n.right
    {
      assert NodeOk(n);
    }

    /** The uncle is not red and the parent is a left child. */
    method LeftArm(node: Node, parent: Node, grandparent: Node) returns (next: Node)
      requires Valid() && NeedsRotation(node, parent, grandparent, grandparent.right) && grandparent.left == parent
      modifies this, nodes
      ensures Valid() && nodes == old(nodes) && order == old(order)
      ensures next in nodes && next.parent in nodes && next.parent.hi - next.parent.lo > old(parent.hi - parent.lo)
      ensures Remaining(next) == old(Remaining(node)) && Stains(next) == old(Stains(node))
    {
      PathStep(node); PathStep(parent); TreeStep(node); TreeStep(parent); TreeStep(grandparent);
      if node == parent.right {
        SidesDiffer(parent);
        next := parent;
        LeftArmInner(node, parent, grandparent);
      } else {
        next := node;
        LeftArmOuter(node, parent, grandparent);
      }
    }

    /** The uncle is not red and the parent is a right child. */
    method RightArm(node: Node, parent: Node, grandparent: Node) returns (next: Node)
      requires Valid() && NeedsRotation(node, parent, grandparent, grandparent.left) && grandparent.right == parent
      modifies this, nodes
      ensures Valid() && nodes == old(nodes) && order == old(order)
      ensures next in nodes && next.parent in nodes && next.parent.hi - next.parent.lo > old(parent.hi - parent.lo)
      ensures Remaining(next) == old(Remaining(node)) && Stains(next) == old(Stains(node))
    {
      PathStep(node); PathStep(parent); TreeStep(node); TreeStep(parent); TreeStep(grandparent);
      if node == parent.left {
        SidesDiffer(parent);
        next := parent;
        RightArmInner(node, parent, grandparent);
      } else {
        next := node;
        RightArmOuter(node, parent, grandparent);
      }
    }

    /** The red root and its left child change places, under the sentinel. */
    method RootTurn(node: Node, parent: Node)
      requires Valid() && node in nodes && node.parent == parent
      requires parent in nodes && parent.parent == nil && parent.left == node
      requires (parent.right == nil || parent.right in nodes)
      requires (node.left == nil || node.left in nodes) && (node.right == nil || node.right in nodes)
      modifies this, nodes
      ensures Valid() && nodes == old(nodes) && order == old(order)
      ensures node.parent == nil && node.right == parent && parent.parent == node
      ensures node.hi - node.lo == old(parent.hi - parent.lo) && node.left != parent
      ensures PathAt(parent) == InRight(old(TreeAt(node.left)), old(node.color), Entry(node.key, node.value), Top)
      ensures TreeAt(parent) ==
          Branch(old(TreeAt(node.right)), old(parent.color), Entry(parent.key, parent.value),
              old(TreeAt(parent.right)))
    {
      assert NodeOk(node) && NodeOk(parent);
      Family(node, parent, node.left);
      Family(node, parent, node.right);
      Family(node, parent, parent.right);
      RightRotate(parent);
      SidesDiffer(node);
      PathStep(parent); TreeStep(parent);
    }

    /** The same three lines with the sentinel as grandparent: it turns red, and nothing rotates. */
    method RootPivot(parent: Node)
      requires Valid() && parent in nodes
      modifies this, nodes, nil`color
      ensures Valid() && parent.color == Black && nil.color == Red && nodes == old(nodes) && order == old(order)
      ensures root == old(root) && forall n :: n in nodes ==>
                n.left == old(n.left) && n.right == old(n.right)
                    && n.parent == old(n.parent) && n.lo == old(n.lo) && n.hi == old(n.hi)
      ensures forall m {:trigger TreeAt(m)} :: m == nil || (m in nodes && !Below(parent, m)) ==>
          TreeAt(m) == old(TreeAt(m))
      ensures forall m {:trigger PathAt(m)} :: m in nodes && Below(parent, m) ==> PathAt(m) == old(PathAt(m))
    {
      Paint(parent, Black);
      Paint(nil, Red);
      LeftRotate(nil);
    }

    /** The parent is the red root: its parent is the sentinel, whose own links never change. */
    method RootArm(node: Node, parent: Node) returns (next: Node)
      requires Valid() && node in nodes && node.parent == parent && parent in nodes && parent.color == Red
      requires parent.parent == nil
      modifies this, nodes, nil`color
      ensures Valid() && nodes == old(nodes) && order == old(order)
      ensures next in nodes && next.parent in nodes && next.parent.hi - next.parent.lo == old(parent.hi - parent.lo)
      ensures Rank(next) < old(Rank(node))
      ensures Remaining(next) == old(Remaining(node)) && old(Stains(node)) && nil.color == Red
    {
      PathStep(node); TreeStep(node); TreeStep(parent);
      SidesDiffer(parent);
      next := node;
      if node == parent.left {
        next := parent;
        RootTurn(node, parent);
      }
      assert NodeOk(parent);
      if parent.left != nil { Child(parent, parent.left); }
      if parent.right != nil { Child(parent, parent.right); }
      PathStep(next); TreeStep(next);
      RootPivot(parent);
      PathStep(next); TreeStep(next);
    }

    ghost function Rank(n: Node): nat
      requires Valid() && n in nodes
      reads this, nodes, nil
    {
      if n.parent == nil then 0
      else
        assert NodeOk(n);
        if n == n.parent.left then 2 else if n.parent.color == Red then 1 else 0
    }

    ghost predicate ClearOfThree(m: Node, a: Node, b: Node, c: Node)
      reads this, m, a, b, c
    {
      m == nil || (m in nodes && !Below(a, m) && !Below(b, m) && !Below(c, m))
    }

    method PaintThree(parent: Node, uncle: Node, grandparent: Node)
      requires Valid() && parent in nodes && uncle in nodes && grandparent in nodes
      requires parent != grandparent && uncle != grandparent
      modifies parent`color, uncle`color, grandparent`color
      ensures Valid() && parent.color == Black && uncle.color == Black && grandparent.color == Red
      ensures forall m {:trigger TreeAt(m)} :: ClearOfThree(m, parent, uncle, grandparent) ==>
          TreeAt(m) == old(TreeAt(m))
      ensures PathAt(grandparent) == old(PathAt(grandparent)) || !Below(parent, grandparent)
          || !Below(uncle, grandparent) || !Below(grandparent, grandparent)
    {
      Paint(parent, Black);
      Paint(uncle, Black);
      Paint(grandparent, Red);
    }

    /** The six subtrees around a red uncle. */
    lemma Household(parent: Node, uncle: Node, grandparent: Node, m: Node)
      requires Valid() && parent in nodes && uncle in nodes && grandparent in nodes && parent != uncle
      requires parent.parent == grandparent && uncle != nil
      requires (uncle == grandparent.left || uncle == grandparent.right)
      requires m == parent.left || m == parent.right || m == uncle.left || m == uncle.right
      ensures parent == grandparent.left || parent == grandparent.right
      ensures parent != grandparent && uncle != grandparent
      ensures Below(parent, grandparent) && Below(uncle, grandparent) && Below(grandparent, grandparent)
      ensures ClearOfThree(m, parent, uncle, grandparent)
    {
      assert NodeOk(parent) && NodeOk(uncle) && NodeOk(grandparent);
      if m != nil {
        assert NodeOk(m);
      }
    }

    /** Three colours change under an unchanged place. */
    method RecolorShape(parent: Node, uncle: Node, grandparent: Node)
      requires Valid() && parent in nodes && uncle in nodes && grandparent in nodes && parent != uncle
      requires parent.parent == grandparent && (uncle == grandparent.left || uncle == grandparent.right)
      modifies parent`color, uncle`color, grandparent`color
      ensures Valid() && PathAt(grandparent) == old(PathAt(grandparent))
      ensures var p, u := Blacken(old(TreeAt(parent))), Blacken(old(TreeAt(uncle)));
              var ge := Entry(grandparent.key, grandparent.value);
              TreeAt(grandparent) == if grandparent.left == parent then Branch(p, Red, ge, u)
                  else Branch(u, Red, ge, p)
    {
      hide TreeAt, PathAt, NodeOk;
      TreeStep(parent); TreeStep(uncle);
      SidesDiffer(grandparent);
      Household(parent, uncle, grandparent, parent.left);
      Household(parent, uncle, grandparent, parent.right);
      Household(parent, uncle, grandparent, uncle.left);
      Household(parent, uncle, grandparent, uncle.right);
      PaintThree(parent, uncle, grandparent);
      TreeStep(grandparent); TreeStep(parent); TreeStep(uncle);
    }

    /** The uncle is red: three colours change and the work moves to the grandparent. */
    method Recolor(node: Node, parent: Node, uncle: Node, grandparent: Node)
      requires Valid() && node in nodes && node.parent == parent && parent in nodes && parent.color == Red
      requires parent.parent == grandparent && grandparent in nodes
      requires uncle in nodes && uncle.color == Red && uncle != parent
      requires (uncle == grandparent.left || uncle == grandparent.right)
      modifies nodes`color
      ensures Valid()
      ensures Remaining(grandparent) == old(Remaining(node)) && Stains(grandparent) == old(Stains(node))
    {
      PathStep(node); PathStep(parent); TreeStep(node); TreeStep(parent); TreeStep(uncle);
      SidesDiffer(grandparent); SidesDiffer(parent);
      RecolorShape(parent, uncle, grandparent);
    }

    // -------------------------------------------------------------------------------------
    // Insertion and search
    // -------------------------------------------------------------------------------------

    /** What is left of the tree above the parent's subtree; the loop's work shrinks with it. */
    ghost function Distance(n: Node): nat
      requires Valid() && n in nodes
      reads this, nodes, nil
    {
      if n.parent == nil then 0
      else
        assert NodeOk(n) && NodeOk(n.parent);
        1 + |order| - (n.parent.hi - n.parent.lo)
    }

    /** The loop terminates from every colouring and leaves the tree the model computes. */
    method InsertFixup(start: Node)
      requires Valid() && start in nodes
      modifies this, nodes, nil`color
      ensures Valid() && nodes == old(nodes) && order == old(order)
      ensures Model() == old(Remaining(start))
      ensures nil.color == if old(Stains(start)) then Red else old(nil.color)
    {
      hide Remaining, Stains, Rank;
      var node := start;
      while node != root && node.parent != nil && node.parent.color == Red
        invariant Valid() && node in nodes && nodes == old(nodes) && order == old(order)
        invariant Remaining(node) == old(Remaining(start))
        invariant (if Stains(node) then Red else nil.color) == if old(Stains(start)) then Red else old(nil.color)
        decreases Distance(node), Rank(node)
      {
        assert NodeOk(node) && NodeOk(node.parent);
        var parent := node.parent;
        var grandparent := parent.parent;
        if parent == grandparent.left {
          var uncle := grandparent.right;
          if uncle != nil && uncle.color == Red {
            TreeStep(grandparent); SidesDiffer(grandparent);
            Recolor(node, parent, uncle, grandparent);
            Climb(parent);
            node := grandparent;
          } else {
            TreeStep(grandparent);
            node := LeftArm(node, parent, grandparent);
          }
        } else {
          var uncle := grandparent.left;
          if uncle != nil && uncle.color == Red {
            TreeStep(grandparent);
            Recolor(node, parent, uncle, grandparent);
            Climb(parent);
            node := grandparent;
          } else if grandparent == nil {
            node := RootArm(node, parent);
          } else {
            TreeStep(grandparent);
            node := RightArm(node, parent, grandparent);
          }
        }
      }
      BlackenRoot(node);
    }

    method BlackenRoot(ghost node: Node)
      requires Valid() && node in nodes
      requires node == root || node.parent == nil || node.parent.color == Black
      modifies nodes`color
      ensures Valid() && Model() == old(Remaining(node)) && !old(Stains(node))
    {
      Finished(node);
      TreeStep(root);
      assert NodeOk(root);
      if root.left != nil { Child(root, root.left); }
      if root.right != nil { Child(root, root.right); }
      Paint(root, Black);
      TreeStep(root);
    }

    lemma Climb(parent: Node)
      requires Valid() && parent in nodes && parent.parent != nil
      ensures parent.parent in nodes && Distance(parent.parent) < 1 + |order| - (parent.hi - parent.lo)
    {
      assert NodeOk(parent) && NodeOk(parent.parent);
      if parent.parent.parent != nil {
        assert NodeOk(parent.parent.parent);
      }
    }

    lemma Finished(n: Node)
      requires Valid() && n in nodes
      requires n == root || n.parent == nil || n.parent.color == Black
      ensures root in nodes && Remaining(n) == Blacken(Model()) && !Stains(n)
    {
      PlugAt(n);
      TreeStep(n);
      if n.parent != nil {
        PathStep(n);
      }
    }

    static ghost function Inserted(s: seq<Node>, k: nat, n: Node): (r: seq<Node>)
      requires k <= |s|
      ensures |r| == |s| + 1 && r[k] == n
      ensures forall i :: 0 <= i < k ==> r[i] == s[i]
      ensures forall i :: k < i < |r| ==> r[i] == s[i - 1]
    {
      s[..k] + [n] + s[k..]
    }

    /** What hanging `leaf` under `parent`, on the left, did to the nodes. */
    twostate predicate LeftAttached(new parent: Node, new leaf: Node, k: nat)
      reads this, nodes
    {
      && parent in old(nodes) && leaf !in old(nodes) && leaf != nil
      && nodes == old(nodes) + {leaf} && root == old(root)
      && k == old(parent.pos) <= |old(order)| && order == Inserted(old(order), k, leaf)
      && leaf.left == nil && leaf.right == nil && leaf.parent == parent && parent.left == leaf
      && leaf.pos == leaf.lo == k && leaf.hi == k + 1
      && (forall n :: n in old(nodes) ==>
            && n.color == old(n.color) && n.parent == old(n.parent) && n.right == old(n.right)
            && (n != parent ==> n.left == old(n.left))
            && n.pos == old(n.pos) + (if old(n.pos) >= k then 1 else 0)
            && n.lo == old(n.lo) + (if old(n.lo) > k then 1 else 0)
            && n.hi == old(n.hi) + (if old(n.hi) > k then 1 else 0))
    }

    twostate lemma LeftAttachedOk(new parent: Node, new leaf: Node, k: nat, new n: Node)
      requires old(Valid()) && parent in old(nodes) && old(parent.left) == nil
      requires LeftAttached(parent, leaf, k) && n in nodes
      ensures NodeOk(n)
    {
      assert old(NodeOk(parent));
      assert n != leaf ==> old(NodeOk(n));
    }

    /** Hangs a new leaf under `parent` and makes room for it in the order. */
    method AttachLeftShape(parent: Node, leaf: Node)
      requires Valid() && parent in nodes && parent.left == nil
      requires leaf !in nodes && leaf != nil && leaf.left == nil && leaf.right == nil
      modifies this, nodes, leaf
      ensures Valid() && leaf.color == old(leaf.color) && LeftAttached(parent, leaf, old(parent.pos))
    {
      ghost var k := parent.pos;
      assert NodeOk(parent);
      leaf.parent := parent;
      parent.left := leaf;
      ShiftLeft(k, nodes, leaf);
      order := Inserted(order, k, leaf);
      nodes := nodes + {leaf};
      forall n {:trigger NodeOk(n)} | n in nodes ensures NodeOk(n) {
        LeftAttachedOk(parent, leaf, k, n);
      }
    }

    method AttachLeft(parent: Node, leaf: Node)
      requires Valid() && parent in nodes && parent.left == nil && (parent.right == nil || parent.right in nodes)
      requires leaf !in nodes && leaf != nil && leaf.left == nil && leaf.right == nil && leaf.color == Red
      modifies this, nodes, leaf
      ensures Valid() && nodes == old(nodes) + {leaf}
      ensures TreeAt(leaf) == Branch(Leaf, Red, Entry(leaf.key, leaf.value), Leaf)
      ensures PathAt(leaf) ==
          InLeft(old(PathAt(parent)), old(parent.color), Entry(parent.key, parent.value), old(TreeAt(parent.right)))
    {
      assert NodeOk(parent);
      assert parent.parent != nil ==> NodeOk(parent.parent);
      assert parent.right != nil ==> NodeOk(parent.right);
      AttachLeftShape(parent, leaf);
      PathFrame(parent, parent);
      TreeFrame(parent.right);
      PathStep(leaf);
    }

    /** Every index at or behind the new leaf's moves up by one. */
    ghost method ShiftLeft(k: nat, others: set<Node>, leaf: Node)
      requires leaf !in others
      modifies others`pos, others`lo, others`hi, leaf`pos, leaf`lo, leaf`hi
      ensures leaf.pos == leaf.lo == k && leaf.hi == k + 1
      ensures forall n :: n in others ==>
                && n.pos == old(n.pos) + (if old(n.pos) >= k then 1 else 0)
                && n.lo == old(n.lo) + (if old(n.lo) > k then 1 else 0)
                && n.hi == old(n.hi) + (if old(n.hi) > k then 1 else 0)
    {
      forall n | n in others { n.pos := if n.pos >= k then n.pos + 1 else n.pos; }
      forall n | n in others { n.lo := if n.lo > k then n.lo + 1 else n.lo; }
      forall n | n in others { n.hi := if n.hi > k then n.hi + 1 else n.hi; }
      leaf.pos, leaf.lo, leaf.hi := k, k, k + 1;
    }

    /** What hanging `leaf` under `parent`, on the right, did to the nodes. */
    twostate predicate RightAttached(new parent: Node, new leaf: Node, k: nat)
      reads this, nodes
    {
      && parent in old(nodes) && leaf !in old(nodes) && leaf != nil
      && nodes == old(nodes) + {leaf} && root == old(root)
      && k == old(parent.pos + 1) <= |old(order)| && order == Inserted(old(order), k, leaf)
      && leaf.left == nil && leaf.right == nil && leaf.parent == parent && parent.right == leaf
      && leaf.pos == leaf.lo == k && leaf.hi == k + 1
      && (forall n :: n in old(nodes) ==>
            && n.color == old(n.color) && n.parent == old(n.parent) && n.left == old(n.left)
            && (n != parent ==> n.right == old(n.right))
            && n.pos == old(n.pos) + (if old(n.pos) >= k then 1 else 0)
            && n.lo == old(n.lo) + (if old(n.lo) >= k then 1 else 0)
            && n.hi == old(n.hi) + (if old(n.hi) >= k then 1 else 0))
    }

    twostate lemma RightAttachedOk(new parent: Node, new leaf: Node, k: nat, new n: Node)
      requires old(Valid()) && parent in old(nodes) && old(parent.right) == nil
      requires RightAttached(parent, leaf, k) && n in nodes
      ensures NodeOk(n)
    {
      assert old(NodeOk(parent));
      assert n != leaf ==> old(NodeOk(n));
    }

    /** Hangs a new leaf under `parent` and makes room for it in the order. */
    method AttachRightShape(parent: Node, leaf: Node)
      requires Valid() && parent in nodes && parent.right == nil
      requires leaf !in nodes && leaf != nil && leaf.left == nil && leaf.right == nil
      modifies this, nodes, leaf
      ensures Valid() && leaf.color == old(leaf.color) && RightAttached(parent, leaf, old(parent.pos + 1))
    {
      ghost var k := parent.pos + 1;
      assert NodeOk(parent);
      leaf.parent := parent;
      parent.right := leaf;
      ShiftRight(k, nodes, leaf);
      order := Inserted(order, k, leaf);
      nodes := nodes + {leaf};
      forall n {:trigger NodeOk(n)} | n in nodes ensures NodeOk(n) {
        RightAttachedOk(parent, leaf, k, n);
      }
    }

    method AttachRight(parent: Node, leaf: Node)
      requires Valid() && parent in nodes && parent.right == nil && (parent.left == nil || parent.left in nodes)
      requires leaf !in nodes && leaf != nil && leaf.left == nil && leaf.right == nil && leaf.color == Red
      modifies this, nodes, leaf
      ensures Valid() && nodes == old(nodes) + {leaf}
      ensures TreeAt(leaf) == Branch(Leaf, Red, Entry(leaf.key, leaf.value), Leaf)
      ensures PathAt(leaf) ==
          InRight(old(TreeAt(parent.left)), old(parent.color), Entry(parent.key, parent.value), old(PathAt(parent)))
    {
      assert NodeOk(parent);
      assert parent.parent != nil ==> NodeOk(parent.parent);
      assert parent.left != nil ==> NodeOk(parent.left);
      AttachRightShape(parent, leaf);
      PathFrame(parent, parent);
      TreeFrame(parent.left);
      PathStep(leaf);
    }

    /** Every index at or behind the new leaf's moves up by one. */
    ghost method ShiftRight(k: nat, others: set<Node>, leaf: Node)
      requires leaf !in others
      modifies others`pos, others`lo, others`hi, leaf`pos, leaf`lo, leaf`hi
      ensures leaf.pos == leaf.lo == k && leaf.hi == k + 1
      ensures forall n :: n in others ==>
                && n.pos == old(n.pos) + (if old(n.pos) >= k then 1 else 0)
                && n.lo == old(n.lo) + (if old(n.lo) >= k then 1 else 0)
                && n.hi == old(n.hi) + (if old(n.hi) >= k then 1 else 0)
    {
      forall n | n in others { n.pos := if n.pos >= k then n.pos + 1 else n.pos; }
      forall n | n in others { n.lo := if n.lo >= k then n.lo + 1 else n.lo; }
      forall n | n in others { n.hi := if n.hi >= k then n.hi + 1 else n.hi; }
      leaf.pos, leaf.lo, leaf.hi := k, k, k + 1;
    }

    /** The empty side of `n` on which `key` belongs, as a path. */
    ghost function HoleAt(n: Node, key: int): Path
      requires Valid() && n in nodes
      reads this, nodes, nil
    {
      assert NodeOk(n);
      var e := Entry(n.key, n.value);
      if key < n.key then InLeft(PathAt(n), n.color, e, TreeAt(n.right))
      else InRight(TreeAt(n.left), n.color, e, PathAt(n))
    }

    lemma StepDown(n: Node, key: int)
      requires Valid() && n in nodes
      ensures var c := if key < n.key then n.left else n.right;
              && (c != nil ==> c in nodes && PathAt(c) == HoleAt(n, key) && c.hi - c.lo < n.hi - n.lo)
              && Descend(PathAt(n), TreeAt(n), key) == Descend(HoleAt(n, key), TreeAt(c), key)
    {
      TreeStep(n);
      SidesDiffer(n);
      assert NodeOk(n);
      var c := if key < n.key then n.left else n.right;
      if c != nil {
        Child(n, c);
        PathStep(c);
      }
    }

    /** Down the search path to the parent of the new leaf: right on equal keys. */
    method Locate(key: int) returns (parent: Node)
      requires Valid() && root != nil
      ensures parent in nodes && (if key < parent.key then parent.left else parent.right) == nil
      ensures HoleAt(parent, key) == Descend(Top, Model(), key)
    {
      parent := root;
      var current := root;
      PathTop();
      while current != nil
        invariant parent in nodes
        invariant current != nil ==>
            current in nodes && Descend(PathAt(current), TreeAt(current), key) == Descend(Top, Model(), key)
        invariant current == nil ==> (if key < parent.key then parent.left else parent.right) == nil
        invariant current == nil ==> HoleAt(parent, key) == Descend(Top, Model(), key)
        decreases if current == nil then 0 else current.hi - current.lo
      {
        StepDown(current, key);
        assert NodeOk(current);
        parent := current;
        if key < current.key {
          current := current.left;
        } else {
          current := current.right;
        }
      }
    }

    lemma PathTop()
      requires Valid()
      ensures root != nil ==> root in nodes && PathAt(root) == Top
    {
      if root != nil { assert NodeOk(root); }
    }

    /** The first node: it becomes the black root. */
    method PlantRoot(leaf: Node)
      requires Valid() && root == nil && leaf != nil && leaf.left == nil && leaf.right == nil && leaf.parent == nil
      modifies this, leaf
      ensures Valid() && nodes == {leaf}
      ensures Model() == Branch(Leaf, Black, Entry(leaf.key, leaf.value), Leaf)
    {
      root := leaf;
      leaf.color := Black;
      leaf.pos, leaf.lo, leaf.hi := 0, 0, 1;
      order, nodes := [leaf], {leaf};
      assert NodeOk(leaf);
      TreeStep(leaf);
    }

    /** The red leaf under the parent the search ended at. */
    method Attach(parent: Node, leaf: Node)
      requires Valid() && parent in nodes && (if leaf.key < parent.key then parent.left else parent.right) == nil
      requires leaf !in nodes && leaf != nil && leaf.left == nil && leaf.right == nil && leaf.color == Red
      modifies this, nodes, leaf
      ensures Valid() && nodes == old(nodes) + {leaf}
      ensures PathAt(leaf) == old(HoleAt(parent, leaf.key))
      ensures TreeAt(leaf) == Branch(Leaf, Red, Entry(leaf.key, leaf.value), Leaf)
    {
      assert NodeOk(parent);
      if leaf.key < parent.key {
        AttachLeft(parent, leaf);
      } else {
        AttachRight(parent, leaf);
      }
    }

    method Insert(key: int, value: Ptr)
      requires Valid()
      modifies this, nodes, nil`color
      ensures Valid() && fresh(nodes - old(nodes))
      ensures Model() == RedBlackModel.Insert(old(Model()), Entry(key, value))
      ensures nil.color == InsertNil(old(Model()), Entry(key, value), old(nil.color))
      ensures old(SortedKeys(Entries())) ==> Entries() == InsertAfter(old(Entries()), Entry(key, value))
    {
      ModelEntries();
      if SortedKeys(Entries()) { InsertInOrder(Model(), Entry(key, value)); }
      Plant(key, value);
      ModelEntries();
    }

    /** The insertion itself. */
    method Plant(key: int, value: Ptr)
      requires Valid()
      modifies this, nodes, nil`color
      ensures Valid() && fresh(nodes - old(nodes))
      ensures Model() == RedBlackModel.Insert(old(Model()), Entry(key, value))
      ensures nil.color == InsertNil(old(Model()), Entry(key, value), old(nil.color))
    {
      hide Fixup, TurnsNilRed, HoleAt;
      var newNode := new Node(key, value, nil);
      if root == nil {
        PlantRoot(newNode);
      } else {
        TreeStep(root);
        var parent := Locate(key);
        Attach(parent, newNode);
        InsertFixup(newNode);
      }
    }

    /** The value under the key, null if there is none; the links need only read as some tree `x`. */
    method Find(key: int, ghost x: Tree) returns (value: Ptr)
      requires Reads(nil, root, x, nodes)
      ensures value == RedBlackModel.Find(x, key)
    {
      var current := root;
      ghost var y, s := x, nodes;
      while current != nil
        invariant Reads(nil, current, y, s) && RedBlackModel.Find(y, key) == RedBlackModel.Find(x, key)
        decreases y
      {
        s := s - {current};
        if key == current.key {
          return current.value;
        } else if key < current.key {
          current, y := current.left, y.left;
        } else {
          current, y := current.right, y.right;
        }
      }
      value := NULL;
    }
  }

  // ---------------------------------------------------------------------------------------
  // Reading a tree off the links
  // ---------------------------------------------------------------------------------------

  /** A traversal from `n` meets the tree `x`, and no node a second time below itself. */
  ghost predicate Reads(sentinel: Node, n: Node, x: Tree, s: set<Node>)
    reads s
    decreases x
  {
    match x
    case Leaf => n == sentinel
    case Branch(l, c, e, r) =>
      && n != sentinel && n in s && n.color == c && Entry(n.key, n.value) == e
      && Reads(sentinel, n.left, l, s - {n}) && Reads(sentinel, n.right, r, s - {n})
  }

  lemma {:induction false} ReadsMore(sentinel: Node, n: Node, x: Tree, s: set<Node>, s': set<Node>)
    requires Reads(sentinel, n, x, s) && s <= s'
    ensures Reads(sentinel, n, x, s')
    decreases x
  {
    if x.Branch? {
      ReadsMore(sentinel, n.left, x.left, s - {n}, s' - {n});
      ReadsMore(sentinel, n.right, x.right, s - {n}, s' - {n});
    }
  }

  /** The nodes of a subtree. */
  ghost function Range(t: RBTree, n: Node): set<Node>
    reads t, t.nodes, n
  {
    if n == t.nil then {} else set m | m in t.nodes && n.lo <= m.pos < n.hi
  }

  /** The stretches of the two children lie inside, beside the node itself. */
  lemma RangeParts(t: RBTree, n: Node)
    requires t.Valid() && n in t.nodes
    ensures n.left == t.nil || n.left in t.nodes
    ensures n.right == t.nil || n.right in t.nodes
    ensures n in Range(t, n) && Range(t, n.left) <= Range(t, n) - {n} && Range(t, n.right) <= Range(t, n) - {n}
    ensures Range(t, n) <= t.nodes
  {
    assert t.NodeOk(n);
    assert n.left != t.nil ==> t.NodeOk(n.left);
    assert n.right != t.nil ==> t.NodeOk(n.right);
  }

  lemma {:induction false} TreeReads(t: RBTree, n: Node)
    requires t.Valid() && (n == t.nil || n in t.nodes)
    ensures Reads(t.nil, n, t.TreeAt(n), Range(t, n))
    decreases if n == t.nil then 0 else n.hi - n.lo
  {
    if n != t.nil {
      assert t.NodeOk(n);
      RangeParts(t, n);
      TreeReads(t, n.left);
      TreeReads(t, n.right);
      ReadsMore(t.nil, n.left, t.TreeAt(n.left), Range(t, n.left), Range(t, n) - {n});
      ReadsMore(t.nil, n.right, t.TreeAt(n.right), Range(t, n.right), Range(t, n) - {n});
    }
  }

  lemma ModelReads(t: RBTree)
    requires t.Valid()
    ensures Reads(t.nil, t.root, t.Model(), t.nodes)
  {
    TreeReads(t, t.root);
    if t.root != t.nil { RangeParts(t, t.root); }
    ReadsMore(t.nil, t.root, t.Model(), Range(t, t.root), t.nodes);
  }
}
