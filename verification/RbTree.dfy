/** The pointer-based red-black tree of smart-queue.c: nodes with parent links, in-place rotations and
    iterative recolouring.  A node is one object for `struct rb_node` and the `struct cfs_task` around it;
    `rb_parent_color` is split into `parent` and `red`.

    The proof keeps four ghost numbers per node instead of a recursive heap predicate: the subtree of `n`
    occupies the positions `lo .. hi` of the in-order sequence `order`, `n` itself is at `pos`, and `bh` is
    its black height.  Every invariant is then a statement about a node and its neighbours. */
module RbTree {

  class Node {
    var left: Node?
    var right: Node?
    var parent: Node?
    var red: bool
    var t: nat
    ghost var lo: int
    ghost var pos: int
    ghost var hi: int
    ghost var bh: nat

    constructor ()
    {
      left, right, parent, red, t := null, null, null, false, 0;
    }
  }

  ghost function Opt(n: Node?): set<Node> {
    if n == null then {} else {n}
  }

  /** Removing an element of a sequence and overwriting its predecessor with it is removing the predecessor. */
  lemma RemoveBefore<T>(s: seq<T>, p: nat)
    requires p + 1 < |s|
    ensures (s[..p + 1] + s[p + 2..])[p := s[p + 1]] == s[..p] + s[p + 1..]
  {
  }

  lemma SliceAt<T>(s: seq<T>, lo: nat, p: nat, hi: nat)
    requires lo <= p < hi <= |s|
    ensures s[lo..hi] == s[lo..p] + [s[p]] + s[p + 1..hi]
    ensures lo == p ==> s[lo..p] == []
    ensures p + 1 == hi ==> s[p + 1..hi] == []
  {
  }

  class Tree {
    var root: Node?
    ghost var order: seq<Node>
    ghost var nodes: set<Node>

    /** `RB_ROOT` */
    constructor ()
      ensures Valid() && order == [] && nodes == {}
    {
      root, order, nodes := null, [], {};
    }

    // ---------------------------------------------------------------- structure

    ghost predicate LeftOk(n: Node)
      reads this, nodes, n
    {
      && 0 <= n.lo <= n.pos
      && (n.left == null <==> n.lo == n.pos)
      && (n.left != null ==> n.left in nodes && n.left.parent == n && n.left.lo == n.lo && n.left.hi == n.pos)
    }

    ghost predicate RightOk(n: Node)
      reads this, nodes, n
    {
      && n.pos < n.hi <= |order|
      && (n.right == null <==> n.pos + 1 == n.hi)
      && (n.right != null ==> n.right in nodes && n.right.parent == n && n.right.lo == n.pos + 1 && n.right.hi == n.hi)
    }

    ghost predicate UpOk(n: Node)
      reads this, nodes, n
    {
      && (n.parent == null <==> n == root)
      && (n == root ==> n.lo == 0 && n.hi == |order|)
      && (n.parent != null ==>
           n.parent in nodes && if n.pos < n.parent.pos then n.parent.left == n else n.parent.right == n)
    }

    /** Parent and child links agree, and they form one binary tree whose in-order sequence is `order`. */
    ghost predicate Linked()
      reads this, nodes
    {
      && (root == null <==> order == [])
      && (root != null ==> root in nodes)
      && (forall n {:trigger LeftOk(n)} :: n in nodes ==> LeftOk(n))
      && (forall n {:trigger RightOk(n)} :: n in nodes ==> RightOk(n))
      && (forall n {:trigger UpOk(n)} :: n in nodes ==> UpOk(n))
    }

    /** `order` lists exactly the nodes of the tree, each once, at its own position. */
    ghost predicate Indexed()
      reads this, nodes
    {
      && (forall n :: n in nodes ==> 0 <= n.pos < |order| && order[n.pos] == n)
      && (forall i :: 0 <= i < |order| ==> order[i] in nodes && order[i].pos == i)
    }

    // ---------------------------------------------------------------- colours

    /** Number of black nodes on a path from `c` down to a missing child. */
    ghost function Bh(c: Node?): nat
      reads this, nodes
    {
      if c != null && c in nodes then c.bh else 0
    }

    /** Equal black heights below `n`; the link (dp, dl) is credited with one black node more than it leads to. */
    ghost predicate HeightOk(n: Node, dp: Node?, dl: bool)
      reads this, nodes, n
    {
      && n.bh == Bh(n.left) + (if n == dp && dl then 1 else 0) + (if n.red then 0 else 1)
      && n.bh == Bh(n.right) + (if n == dp && !dl then 1 else 0) + (if n.red then 0 else 1)
    }

    ghost predicate Heights(dp: Node?, dl: bool)
      reads this, nodes
    {
      forall n {:trigger HeightOk(n, dp, dl)} :: n in nodes ==> HeightOk(n, dp, dl)
    }

    /** No red node under a red parent, except `x` itself and the children of `y`. */
    ghost predicate RedOk(n: Node, x: Node?, y: Node?)
      reads this, nodes, n
    {
      n.red && n != x && n.parent != null && n.parent in nodes && n.parent != y ==> !n.parent.red
    }

    ghost predicate Reds(x: Node?, y: Node?)
      reads this, nodes
    {
      forall n {:trigger RedOk(n, x, y)} :: n in nodes ==> RedOk(n, x, y)
    }

    /** A red-black tree: linked, ordered positions, equal black heights, no red-red edge, black root. */
    ghost predicate Valid()
      reads this, nodes
    {
      && Linked() && Indexed()
      && Heights(null, false) && Reds(null, null)
      && (root != null ==> !root.red)
    }

    // ---------------------------------------------------------------- the usual recursive readings of the invariants

    ghost function InOrder(n: Node?): seq<Node>
      requires Linked() && (n != null ==> n in nodes)
      reads this, nodes
      decreases if n == null then 0 else (assert LeftOk(n) && RightOk(n); n.hi - n.lo)
    {
      if n == null then [] else
      assert LeftOk(n) && RightOk(n);
      assert n.left != null ==> LeftOk(n.left) && RightOk(n.left);
      assert n.right != null ==> LeftOk(n.right) && RightOk(n.right);
      InOrder(n.left) + [n] + InOrder(n.right)
    }

    /** Every path from `n` to a missing child has `h` black nodes, and none has two red nodes in a row. */
    ghost predicate Balanced(n: Node?, h: int, underRed: bool)
      requires Linked() && (n != null ==> n in nodes)
      reads this, nodes
      decreases if n == null then 0 else (assert LeftOk(n) && RightOk(n); n.hi - n.lo)
    {
      if n == null then h == 0 else
      assert LeftOk(n) && RightOk(n);
      assert n.left != null ==> LeftOk(n.left) && RightOk(n.left);
      assert n.right != null ==> LeftOk(n.right) && RightOk(n.right);
      && !(underRed && n.red)
      && Balanced(n.left, if n.red then h else h - 1, n.red)
      && Balanced(n.right, if n.red then h else h - 1, n.red)
    }

    lemma {:induction false} SubtreeInOrder(n: Node)
      requires Linked() && Indexed() && n in nodes
      ensures 0 <= n.lo <= n.hi <= |order| && InOrder(n) == order[n.lo..n.hi]
      decreases assert LeftOk(n) && RightOk(n); n.hi - n.lo
    {
      assert LeftOk(n) && RightOk(n);
      SliceAt(order, n.lo, n.pos, n.hi);
      if n.left != null { assert RightOk(n.left); SubtreeInOrder(n.left); }
      if n.right != null { assert LeftOk(n.right); SubtreeInOrder(n.right); }
    }

    lemma {:induction false} SubtreeBalanced(n: Node)
      requires Valid() && n in nodes
      ensures Balanced(n, n.bh, n.parent != null && n.parent in nodes && n.parent.red)
      decreases assert LeftOk(n) && RightOk(n); n.hi - n.lo
    {
      assert LeftOk(n) && RightOk(n) && HeightOk(n, null, false) && RedOk(n, null, null);
      if n.left != null { assert RightOk(n.left); SubtreeBalanced(n.left); }
      if n.right != null { assert LeftOk(n.right); SubtreeBalanced(n.right); }
    }

    /** The invariant means what it should: reading the tree in order gives `order`, all paths from the root have
        the same number of black nodes, and no red node has a red child. */
    lemma ValidMeans()
      requires Valid()
      ensures (root != null ==> root in nodes) && InOrder(root) == order
      ensures exists h :: Balanced(root, h, true)
    {
      if root == null {
        assert Balanced(root, 0, true);
      } else {
        assert UpOk(root);
        SubtreeInOrder(root);
        SubtreeBalanced(root);
        assert Balanced(root, root.bh, true);
      }
    }

    // ---------------------------------------------------------------- frames

    twostate predicate SameLinks()
      reads this, nodes
    {
      && nodes == old(nodes) && order == old(order) && root == old(root)
      && (forall n :: n in nodes ==> n.left == old(n.left) && n.right == old(n.right) && n.parent == old(n.parent))
      && (forall n :: n in nodes ==> n.lo == old(n.lo) && n.pos == old(n.pos) && n.hi == old(n.hi))
    }

    twostate lemma SameLinksIsLinked()
      requires old(Linked()) && SameLinks()
      ensures Linked()
    {
      forall n {:trigger LeftOk(n)} | n in nodes ensures LeftOk(n) { assert old(LeftOk(n)); }
      forall n {:trigger RightOk(n)} | n in nodes ensures RightOk(n) { assert old(RightOk(n)); }
      forall n {:trigger UpOk(n)} | n in nodes ensures UpOk(n) { assert old(UpOk(n)); }
    }

    // ---------------------------------------------------------------- rotations

    static ghost function Kid(n: Node, left: bool): Node?
      reads n
    {
      if left then n.left else n.right
    }

    /** Where `n` ends up when `node` is rotated (to the left when `l`): the child `y` on the other side moves
        above `node`, and the grandchild `z` between them changes side. */
    twostate predicate Moved(n: Node, node: Node, l: bool)
      requires old(if l then node.right else node.left) != null
      reads n
    {
      var y, p := old(if l then node.right else node.left), old(node.parent);
      var z := old(if l then y.left else y.right);
      && n.left == (if n == y && l then node else if n == node && !l then z
                    else if n == p && old(n.left) == node then y else old(n.left))
      && n.right == (if n == y && !l then node else if n == node && l then z
                     else if n == p && old(n.left) != node then y else old(n.right))
      && n.parent == (if n == node then y else if n == y then p else if n == z then node else old(n.parent))
      && n.lo == (if n == y && l then old(node.lo) else if n == node && !l then old(y.pos) + 1 else old(n.lo))
      && n.hi == (if n == node && l then old(y.pos) else if n == y && !l then old(node.hi) else old(n.hi))
      && n.pos == old(n.pos)
    }

    twostate predicate Rotated(node: Node, l: bool)
      requires old(if l then node.right else node.left) != null
      reads this, nodes
    {
      && nodes == old(nodes) && order == old(order)
      && root == (if old(node.parent) == null then old(if l then node.right else node.left) else old(root))
      && (forall n {:trigger Moved(n, node, l)} :: n in nodes ==> Moved(n, node, l))
    }

    twostate lemma RotatedLeftIsLinked(node: Node)
      requires node in old(nodes) && old(Kid(node, false)) != null
      requires old(Linked()) && Rotated(node, true)
      ensures Linked()
    {
      var y, z, p := old(node.right), old(node.right.left), old(node.parent);
      assert old(LeftOk(node)) && old(RightOk(node)) && old(UpOk(node));
      assert old(LeftOk(y)) && old(RightOk(y)) && old(UpOk(y));
      assert p != null ==> old(LeftOk(p)) && old(RightOk(p));
      assert z != null ==> old(LeftOk(z)) && old(RightOk(z)) && old(UpOk(z));
      assert Moved(node, node, true) && Moved(y, node, true);
      forall n {:trigger LeftOk(n)} | n in nodes ensures LeftOk(n) {
        assert old(LeftOk(n)) && Moved(n, node, true);
        assert n.left != null ==> Moved(n.left, node, true);
      }
      forall n {:trigger RightOk(n)} | n in nodes ensures RightOk(n) {
        assert old(RightOk(n)) && Moved(n, node, true);
        assert n.right != null ==> Moved(n.right, node, true);
      }
      forall n {:trigger UpOk(n)} | n in nodes ensures UpOk(n) {
        assert old(UpOk(n)) && Moved(n, node, true);
        assert n.parent != null ==> Moved(n.parent, node, true);
      }
    }

    twostate lemma RotatedRightIsLinked(node: Node)
      requires node in old(nodes) && old(Kid(node, true)) != null
      requires old(Linked()) && Rotated(node, false)
      ensures Linked()
    {
      var y, z, p := old(node.left), old(node.left.right), old(node.parent);
      assert old(LeftOk(node)) && old(RightOk(node)) && old(UpOk(node));
      assert old(LeftOk(y)) && old(RightOk(y)) && old(UpOk(y));
      assert p != null ==> old(LeftOk(p)) && old(RightOk(p));
      assert z != null ==> old(LeftOk(z)) && old(RightOk(z)) && old(UpOk(z));
      assert Moved(node, node, false) && Moved(y, node, false);
      forall n {:trigger LeftOk(n)} | n in nodes ensures LeftOk(n) {
        assert old(LeftOk(n)) && Moved(n, node, false);
        assert n.left != null ==> Moved(n.left, node, false);
      }
      forall n {:trigger RightOk(n)} | n in nodes ensures RightOk(n) {
        assert old(RightOk(n)) && Moved(n, node, false);
        assert n.right != null ==> Moved(n.right, node, false);
      }
      forall n {:trigger UpOk(n)} | n in nodes ensures UpOk(n) {
        assert old(UpOk(n)) && Moved(n, node, false);
        assert n.parent != null ==> Moved(n.parent, node, false);
      }
    }

    method RotateLinksLeft(node: Node)
      requires node.right != null && node != node.right && node.right != node.right.left && node.right.left != node
      requires node.parent != node && node.parent != node.right
      modifies this`root, node`right, node`parent, node`hi, node.right`left, node.right`parent, node.right`lo
      modifies Opt(node.right.left)`parent, Opt(node.parent)`left, Opt(node.parent)`right
      ensures node.right == old(node.right.left) && node.parent == old(node.right) && node.hi == old(node.right.pos)
      ensures var y := old(node.right); y.left == node && y.parent == old(node.parent) && y.lo == node.lo
      ensures var z := old(node.right.left); z != null ==> z.parent == node
      ensures var p := old(node.parent);
              p != null ==> p.left == if old(p.left) == node then old(node.right) else old(p.left)
      ensures var p := old(node.parent);
              p != null ==> p.right == if old(p.left) == node then old(p.right) else old(node.right)
      ensures root == if old(node.parent) == null then old(node.right) else old(root)
    {
      var right := node.right;
      var parent := node.parent;
      node.right := right.left;
      if right.left != null {
        right.left.parent := node;
      }
      right.left := node;
      right.parent := parent;
      if parent != null {
        if node == parent.left {
          parent.left := right;
        } else {
          parent.right := right;
        }
      } else {
        root := right;
      }
      node.parent := right;
      node.hi, right.lo := right.pos, node.lo;
    }

    method RotateLinksRight(node: Node)
      requires node.left != null && node != node.left && node.left != node.left.right && node.left.right != node
      requires node.parent != node && node.parent != node.left
      requires node.parent != null ==> (node.parent.left == node <==> node.parent.right != node)
      modifies this`root, node`left, node`parent, node`lo, node.left`right, node.left`parent, node.left`hi
      modifies Opt(node.left.right)`parent, Opt(node.parent)`left, Opt(node.parent)`right
      ensures node.left == old(node.left.right) && node.parent == old(node.left) && node.lo == old(node.left.pos) + 1
      ensures var y := old(node.left); y.right == node && y.parent == old(node.parent) && y.hi == node.hi
      ensures var z := old(node.left.right); z != null ==> z.parent == node
      ensures var p := old(node.parent);
              p != null ==> p.left == if old(p.left) == node then old(node.left) else old(p.left)
      ensures var p := old(node.parent);
              p != null ==> p.right == if old(p.left) == node then old(p.right) else old(node.left)
      ensures root == if old(node.parent) == null then old(node.left) else old(root)
    {
      var left := node.left;
      var parent := node.parent;
      node.left := left.right;
      if left.right != null {
        left.right.parent := node;
      }
      left.right := node;
      left.parent := parent;
      if parent != null {
        if node == parent.right {
          parent.right := left;
        } else {
          parent.left := left;
        }
      } else {
        root := left;
      }
      node.parent := left;
      node.lo, left.hi := left.pos + 1, node.hi;
    }

    method Rotate(node: Node, l: bool)
      requires Linked() && node in nodes && Kid(node, !l) != null
      modifies this`root, nodes`left, nodes`right, nodes`parent, nodes`lo, nodes`hi
      ensures Rotated(node, l)
      ensures Linked()
    {
      var y := if l then node.right else node.left;
      assert LeftOk(node) && RightOk(node) && UpOk(node) && LeftOk(y) && RightOk(y);
      if l {
        RotateLinksLeft(node);
        RotatedLeftIsLinked(node);
      } else {
        assert node.parent != null ==> LeftOk(node.parent) && RightOk(node.parent);
        RotateLinksRight(node);
        RotatedRightIsLinked(node);
      }
    }

    // ---------------------------------------------------------------- insertion

    /** `rb_set_red`, `rb_set_black` and `rb_set_color`, with the black height the caller accounts for. */
    method Paint(n: Node, red: bool, ghost bh: nat)
      requires n in nodes && Linked()
      modifies n`red, n`bh
      ensures n.red == red && n.bh == bh && Linked()
    {
      n.red := red;
      n.bh := bh;
      SameLinksIsLinked();
    }

    /** Painting a red node black pays the black node its parent's link was credited with, and ends a red-red edge. */
    twostate lemma BlackenedOk(x: Node, new dl: bool)
      requires x in old(nodes) && old(Linked()) && SameLinks() && old(Heights(x.parent, dl)) && old(Reds(x, x))
      requires old(x.red) && (x.parent != null ==> Kid(x.parent, dl) == x)
      requires forall n :: n in nodes ==> n.red == (n != x && old(n.red))
      requires forall n :: n in nodes ==> n.bh == old(n.bh) + (if n == x then 1 else 0)
      ensures Heights(null, false) && Reds(null, null)
    {
      var dp := x.parent;
      assert old(UpOk(x));
      assert dp != null ==> old(LeftOk(dp)) && old(RightOk(dp));
      forall n {:trigger HeightOk(n, null, false)} | n in nodes ensures HeightOk(n, null, false) {
        assert old(HeightOk(n, dp, dl)) && old(LeftOk(n)) && old(RightOk(n));
      }
      forall n {:trigger RedOk(n, null, null)} | n in nodes ensures RedOk(n, null, null) {
        assert old(RedOk(n, x, x)) && old(UpOk(n));
      }
    }

    method Blacken(n: Node, ghost dl: bool)
      requires n in nodes && Linked() && Heights(n.parent, dl) && Reds(n, n)
      requires n.red || n.parent == null
      requires n.parent != null ==> Kid(n.parent, dl) == n
      modifies n`red, n`bh
      ensures !n.red && Linked() && Heights(null, false) && Reds(null, null)
    {
      assert UpOk(n);
      Paint(n, false, if n.red then n.bh + 1 else n.bh);
      if old(n.red) {
        BlackenedOk(n, dl);
      } else {
        forall m {:trigger HeightOk(m, null, false)} | m in nodes ensures HeightOk(m, null, false) {
          assert old(HeightOk(m, n.parent, dl));
        }
        forall m {:trigger RedOk(m, null, null)} | m in nodes ensures RedOk(m, null, null) {
          assert old(RedOk(m, n, n));
        }
      }
    }

    /** What holds before each round of `rb_insert_color`: a red-black tree, but for `node` being red
        under a possibly red parent or at the root. */
    ghost predicate Inserting(node: Node)
      reads this, nodes
    {
      && node in nodes && node.red && root != null
      && Linked() && Heights(null, false) && Reds(node, null)
      && (root != node ==> !root.red)
    }

    /** Both children of `g` turn black and `g` red: black heights agree and the red-red edge can only be at `g`. */
    twostate lemma RecolouredOk(g: Node, new x: Node)
      requires x in old(nodes) && old(Linked()) && SameLinks() && old(Heights(null, false)) && old(Reds(x, null))
      requires g in nodes && g.left != null && g.right != null && g.left in nodes && g.right in nodes
      requires old(g.left.red && g.right.red && !g.red)
      requires x != g.left && x != g.right && x != g && (x.parent == g.left || x.parent == g.right)
      requires forall n :: n in nodes ==> n.red == (n == g || (n != g.left && n != g.right && old(n.red)))
      requires forall n :: n in nodes ==> n.bh == old(n.bh) + (if n == g.left || n == g.right then 1 else 0)
      ensures Heights(null, false) && Reds(g, null)
    {
      assert old(HeightOk(g, null, false)) && old(HeightOk(g.left, null, false)) && old(HeightOk(g.right, null, false));
      assert old(LeftOk(g)) && old(RightOk(g));
      forall n {:trigger HeightOk(n, null, false)} | n in nodes ensures HeightOk(n, null, false) {
        assert old(HeightOk(n, null, false)) && old(LeftOk(n)) && old(RightOk(n));
      }
      forall n {:trigger RedOk(n, g, null)} | n in nodes ensures RedOk(n, g, null) {
        assert old(RedOk(n, x, null)) && old(UpOk(n));
      }
    }

    method Recolour(uncle: Node, parent: Node, gparent: Node, ghost node: Node, ghost l: bool)
      requires Inserting(node) && node.parent == parent && parent.red && parent.parent == gparent && uncle.red
      requires gparent in nodes && Kid(gparent, !l) == parent && Kid(gparent, l) == uncle
      modifies nodes`red, nodes`bh
      ensures Inserting(gparent) && gparent.hi - gparent.lo > node.hi - node.lo
    {
      assert UpOk(node) && UpOk(parent) && LeftOk(gparent) && RightOk(gparent) && LeftOk(parent) && RightOk(parent);
      assert RedOk(parent, node, null);
      Paint(uncle, false, uncle.bh + 1);
      Paint(parent, false, parent.bh + 1);
      Paint(gparent, true, gparent.bh);
      RecolouredOk(gparent, node);
    }

    /** Rotating a red child above its red parent moves the red-red edge to the old parent. */
    twostate lemma InnerOk(parent: Node, new l: bool)
      requires parent in old(nodes) && old(Kid(parent, !l)) != null && old(Kid(parent, !l)) in old(nodes)
      requires old(Linked()) && old(Heights(null, false)) && old(Reds(Kid(parent, !l), null)) && Rotated(parent, l)
      requires old(parent.red) && old(Kid(parent, !l).red) && old(parent.parent) != null && !old(parent.parent.red)
      requires forall n :: n in nodes ==> n.red == old(n.red) && n.bh == old(n.bh)
      ensures Heights(null, false) && Reds(parent, null)
    {
      var y := old(Kid(parent, !l));
      assert old(LeftOk(parent)) && old(RightOk(parent)) && old(UpOk(parent)) && old(LeftOk(y)) && old(RightOk(y));
      assert old(HeightOk(parent, null, false)) && old(HeightOk(y, null, false));
      forall n {:trigger HeightOk(n, null, false)} | n in nodes ensures HeightOk(n, null, false) {
        assert old(HeightOk(n, null, false)) && old(LeftOk(n)) && old(RightOk(n)) && Moved(n, parent, l);
      }
      forall n {:trigger RedOk(n, parent, null)} | n in nodes ensures RedOk(n, parent, null) {
        assert old(RedOk(n, y, null)) && old(UpOk(n)) && Moved(n, parent, l);
      }
    }

    /** The final rotation of an insertion: the red parent `p` of `x` turns black above the red grandparent `g`. */
    twostate predicate Pivoted(g: Node, l: bool, new x: Node)
      reads this, nodes
    {
      && g in old(nodes) && old(Kid(g, !l)) != null && old(Kid(g, !l)) in old(nodes) && x in old(nodes)
      && var p := old(Kid(g, !l));
      && old(p.red) && !old(g.red) && old(x.parent) == p && old(Kid(p, !l)) == x && old(x.red)
      && (old(Kid(g, l)) != null ==> old(Kid(g, l)) in old(nodes) && !old(Kid(g, l).red)) && Rotated(g, l)
      && (forall n :: n in nodes ==> n.red == (n == g || (n != p && old(n.red))))
      && (forall n :: n in nodes ==>
            n.bh == if n == g then old(n.bh) - 1 else if n == p then old(n.bh) + 1 else old(n.bh))
    }

    twostate lemma PivotHeights(g: Node, new l: bool, new x: Node)
      requires old(Linked()) && old(Heights(null, false)) && Pivoted(g, l, x)
      ensures Heights(null, false)
    {
      var p := old(Kid(g, !l));
      assert old(LeftOk(g)) && old(RightOk(g)) && old(UpOk(g)) && old(LeftOk(p)) && old(RightOk(p));
      assert old(HeightOk(g, null, false)) && old(HeightOk(p, null, false)) && old(HeightOk(x, null, false));
      forall n {:trigger HeightOk(n, null, false)} | n in nodes ensures HeightOk(n, null, false) {
        assert old(HeightOk(n, null, false)) && old(LeftOk(n)) && old(RightOk(n)) && Moved(n, g, l);
      }
    }

    twostate lemma PivotReds(g: Node, new l: bool, new x: Node)
      requires x in old(nodes) && old(Linked()) && old(Reds(x, null)) && Pivoted(g, l, x)
      ensures Reds(null, null)
    {
      var p := old(Kid(g, !l));
      assert old(LeftOk(g)) && old(RightOk(g)) && old(UpOk(g)) && old(LeftOk(p)) && old(RightOk(p));
      forall n {:trigger RedOk(n, null, null)} | n in nodes ensures RedOk(n, null, null) {
        assert old(RedOk(n, x, null)) && old(UpOk(n)) && Moved(n, g, l);
      }
    }

    method Pivot(parent: Node, gparent: Node, l: bool, ghost node: Node)
      requires Inserting(node) && node.parent == parent && parent.red && parent.parent == gparent
      requires gparent in nodes && Kid(gparent, !l) == parent && Kid(parent, !l) == node
      requires Kid(gparent, l) != null ==> !Kid(gparent, l).red
      modifies this`root, nodes`left, nodes`right, nodes`parent, nodes`lo, nodes`hi, nodes`red, nodes`bh
      ensures Linked() && Heights(null, false) && Reds(null, null) && root != null && !root.red
      ensures node.red && node.parent == parent && !parent.red
    {
      assert UpOk(node) && UpOk(parent) && LeftOk(gparent) && RightOk(gparent) && LeftOk(parent) && RightOk(parent);
      assert UpOk(gparent) && LeftOk(node) && RightOk(node);
      assert RedOk(parent, node, null) && HeightOk(gparent, null, false);
      Paint(parent, false, parent.bh + 1);
      Paint(gparent, true, gparent.bh - 1);
      label M:
      Rotate(gparent, l);
      forall n {:trigger Moved(n, gparent, l)} | n in nodes ensures Moved(n, gparent, l) {
        assert Moved@M(n, gparent, l);
      }
      PivotHeights(gparent, l, node);
      PivotReds(gparent, l, node);
      assert Moved(node, gparent, l);
    }

    /** One side of one round of `rb_insert_color`; the parent is the left child of the grandparent if `l` is false. */
    method InsertRound(node: Node, l: bool) returns (next: Node)
      requires Inserting(node) && node.parent != null && node.parent.red
      requires node.parent.parent != null && Kid(node.parent.parent, !l) == node.parent
      modifies this`root, nodes`left, nodes`right, nodes`parent, nodes`lo, nodes`hi, nodes`red, nodes`bh
      ensures Inserting(next)
      ensures next.parent != null && next.parent.red ==> next.hi - next.lo > old(node.hi - node.lo)
    {
      next := node;
      assert UpOk(node);
      var parent := node.parent;
      assert UpOk(parent) && LeftOk(parent) && RightOk(parent) && RedOk(parent, node, null);
      var gparent := parent.parent;
      assert LeftOk(gparent) && RightOk(gparent);
      var uncle := if l then gparent.left else gparent.right;
      if uncle != null && uncle.red {
        Recolour(uncle, parent, gparent, node, l);
        return gparent;
      }
      if (if l then parent.left else parent.right) == node {
        assert LeftOk(node) && RightOk(node) && UpOk(gparent);
        label M:
        Rotate(parent, !l);
        InnerOk(parent, !l);
        assert Moved@M(parent, parent, !l) && Moved@M(node, parent, !l) && Moved@M(gparent, parent, !l);
        next, parent := parent, node;
      }
      Pivot(parent, gparent, l, next);
      forall n {:trigger RedOk(n, next, null)} | n in nodes ensures RedOk(n, next, null) {
        assert RedOk(n, null, null);
      }
    }

    method InsertColor(node0: Node)
      requires Inserting(node0)
      modifies this`root, nodes`left, nodes`right, nodes`parent, nodes`lo, nodes`hi, nodes`red, nodes`bh
      ensures Linked() && Heights(null, false) && Reds(null, null)
      ensures root != null && !root.red
    {
      var node := node0;
      assert LeftOk(node) && RightOk(node) && UpOk(node);
      while node.parent != null && node.parent.red
        invariant Inserting(node) && UpOk(node)
        decreases if node.parent != null && node.parent.red then |order| - (node.hi - node.lo) + 1 else 0
      {
        assert LeftOk(node) && RightOk(node) && UpOk(node.parent);
        var gparent := node.parent.parent;
        node := InsertRound(node, node.parent == gparent.right);
        assert UpOk(node) && LeftOk(node) && RightOk(node);
      }
      assert RedOk(node, node, null);
      forall n {:trigger RedOk(n, null, null)} | n in nodes ensures RedOk(n, null, null) {
        assert RedOk(n, node, null);
      }
      forall n {:trigger RedOk(n, root, root)} | n in nodes ensures RedOk(n, root, root) {
        assert RedOk(n, null, null);
      }
      assert UpOk(root);
      Blacken(root, false);
    }

    // ---------------------------------------------------------------- erasure

    /** What holds before each round of `__rb_erase_color`: the link from `parent` to `node` leads to one black
        node too few, and any red-red edge is at `node`. */
    ghost predicate Erasing(node: Node?, parent: Node?, dl: bool)
      reads this, nodes
    {
      && Linked() && Heights(parent, dl) && Reds(node, node)
      && (node != null ==> node in nodes && node.parent == parent)
      && (parent == null ==> node == root)
      && (parent != null ==> root != null && parent in nodes && Kid(parent, dl) == node)
      && (root != null && root != node ==> !root.red)
    }

    /** Size of the subtree at the link (p, left). */
    static ghost function Span(p: Node, left: bool): int
      reads p
    {
      if left then p.pos - p.lo else p.hi - p.pos - 1
    }

    /** Red sibling: it turns black and moves above the parent, which turns red. */
    twostate predicate SiblingRaised(parent: Node, dl: bool)
      reads this, nodes
    {
      && parent in old(nodes) && old(Kid(parent, !dl)) != null && old(Kid(parent, !dl)) in old(nodes)
      && var o := old(Kid(parent, !dl));
      && old(o.red) && (old(Kid(parent, dl)) != null ==> !old(Kid(parent, dl).red)) && Rotated(parent, dl)
      && (forall n :: n in nodes ==> n.red == (n == parent || (n != o && old(n.red))))
      && (forall n :: n in nodes ==>
            n.bh == if n == parent then old(n.bh) - 1 else if n == o then old(n.bh) + 1 else old(n.bh))
    }

    twostate lemma RedSiblingHeights(parent: Node, new dl: bool)
      requires old(Linked()) && old(Heights(parent, dl)) && old(Reds(null, null)) && SiblingRaised(parent, dl)
      ensures Heights(parent, dl)
    {
      var o := old(Kid(parent, !dl));
      assert old(LeftOk(parent)) && old(RightOk(parent)) && old(UpOk(parent)) && old(LeftOk(o)) && old(RightOk(o));
      assert old(HeightOk(parent, parent, dl)) && old(HeightOk(o, parent, dl)) && old(RedOk(o, null, null));
      forall n {:trigger HeightOk(n, parent, dl)} | n in nodes ensures HeightOk(n, parent, dl) {
        assert old(HeightOk(n, parent, dl)) && old(LeftOk(n)) && old(RightOk(n)) && Moved(n, parent, dl);
      }
    }

    twostate lemma RedSiblingReds(parent: Node, new dl: bool)
      requires old(Linked()) && old(Reds(null, null)) && SiblingRaised(parent, dl)
      ensures Reds(null, null)
    {
      var o := old(Kid(parent, !dl));
      assert old(LeftOk(parent)) && old(RightOk(parent)) && old(UpOk(parent)) && old(LeftOk(o)) && old(RightOk(o));
      assert old(RedOk(o, null, null));
      forall n {:trigger RedOk(n, null, null)} | n in nodes ensures RedOk(n, null, null) {
        assert old(RedOk(n, null, null)) && old(UpOk(n)) && Moved(n, parent, dl);
      }
    }

    method RedSibling(other: Node, parent: Node, dl: bool)
      requires parent in nodes && Kid(parent, !dl) == other && other.red
      requires Kid(parent, dl) != null ==> !Kid(parent, dl).red
      requires Linked() && Heights(parent, dl) && Reds(null, null) && root != null && !root.red
      modifies this`root, nodes`left, nodes`right, nodes`parent, nodes`lo, nodes`hi, nodes`red, nodes`bh
      ensures Linked() && Heights(parent, dl) && Reds(null, null) && root != null && !root.red
      ensures parent.red && Kid(parent, dl) == old(Kid(parent, dl))
      ensures Kid(parent, !dl) == old(Kid(Kid(parent, !dl), dl))
      ensures Span(parent, dl) == old(Span(parent, dl))
    {
      assert LeftOk(parent) && RightOk(parent) && UpOk(parent);
      assert RedOk(other, null, null) && HeightOk(parent, parent, dl);
      Paint(other, false, other.bh + 1);
      Paint(parent, true, parent.bh - 1);
      label M:
      Rotate(parent, dl);
      forall n {:trigger Moved(n, parent, dl)} | n in nodes ensures Moved(n, parent, dl) {
        assert Moved@M(n, parent, dl);
      }
      RedSiblingHeights(parent, dl);
      RedSiblingReds(parent, dl);
      assert Moved(parent, parent, dl);
    }

    /** Black sibling with black children: it turns red and the missing black node moves up to the parent's link. */
    twostate predicate SiblingReddened(parent: Node, dl: bool)
      reads this, nodes
    {
      && parent in old(nodes) && old(Kid(parent, !dl)) != null && old(Kid(parent, !dl)) in old(nodes) && SameLinks()
      && var o := old(Kid(parent, !dl));
      && !old(o.red)
      && (forall n :: n in nodes ==> n.red == (n == o || old(n.red)))
      && (forall n :: n in nodes ==> n.bh == if n == parent || n == o then old(n.bh) - 1 else old(n.bh))
    }

    /** A node that is neither the parent nor above it keeps the height below it. */
    twostate lemma ReddenedElsewhere(parent: Node, new dl: bool, new n: Node)
      requires old(Linked()) && old(Heights(parent, dl)) && SiblingReddened(parent, dl)
      requires n in nodes && n != parent && n != parent.parent
      ensures HeightOk(n, parent.parent, parent.parent != null && parent.parent.left == parent)
    {
      var o := old(Kid(parent, !dl));
      assert old(LeftOk(n)) && old(RightOk(n)) && old(HeightOk(n, parent, dl));
      assert old(LeftOk(parent)) && old(RightOk(parent)) && old(LeftOk(o)) && old(RightOk(o));
    }

    twostate lemma ReddenedAbove(parent: Node, new dl: bool)
      requires old(Linked()) && old(Heights(parent, dl)) && SiblingReddened(parent, dl)
      ensures HeightOk(parent, parent.parent, parent.parent != null && parent.parent.left == parent)
      ensures parent.parent != null ==>
                parent.parent in nodes && HeightOk(parent.parent, parent.parent, parent.parent.left == parent)
    {
      var o, g := old(Kid(parent, !dl)), parent.parent;
      assert old(LeftOk(parent)) && old(RightOk(parent)) && old(UpOk(parent)) && old(HeightOk(parent, parent, dl));
      if g != null { assert old(LeftOk(g)) && old(RightOk(g)) && old(HeightOk(g, parent, dl)); }
    }

    twostate lemma RedderSiblingHeights(parent: Node, new dl: bool)
      requires old(Linked()) && old(Heights(parent, dl)) && SiblingReddened(parent, dl)
      ensures Heights(parent.parent, parent.parent != null && parent.parent.left == parent)
    {
      var g := parent.parent;
      var gl := g != null && g.left == parent;
      ReddenedAbove(parent, dl);
      forall n {:trigger HeightOk(n, g, gl)} | n in nodes ensures HeightOk(n, g, gl) {
        if n != parent && n != g { ReddenedElsewhere(parent, dl, n); }
      }
    }

    twostate lemma RedderSiblingReds(parent: Node, new dl: bool)
      requires old(Linked()) && old(Reds(null, null)) && SiblingReddened(parent, dl)
      requires var o := old(Kid(parent, !dl));
               (o.left != null ==> !old(o.left.red)) && (o.right != null ==> !old(o.right.red))
      ensures Reds(parent, parent)
    {
      assert old(LeftOk(parent)) && old(RightOk(parent));
      forall n {:trigger RedOk(n, parent, parent)} | n in nodes ensures RedOk(n, parent, parent) {
        assert old(RedOk(n, null, null)) && old(UpOk(n));
      }
    }

    /** Only the nephew next to `node` is red: it moves above the sibling, which turns red. */
    twostate lemma NearNephewOk(other: Node, new parent: Node, new dl: bool)
      requires other in old(nodes) && parent in old(nodes) && old(Kid(parent, !dl)) == other
      requires old(Kid(other, dl)) != null && old(Kid(other, dl)) in old(nodes)
      requires old(Linked()) && old(Heights(parent, dl)) && old(Reds(null, null)) && Rotated(other, !dl)
      requires !old(other.red) && old(Kid(other, dl).red)
      requires old(Kid(other, !dl)) != null ==> !old(Kid(other, !dl).red)
      requires var y := old(Kid(other, dl));
               && (forall n :: n in nodes ==> n.red == (n == other || (n != y && old(n.red))))
               && (forall n :: n in nodes ==>
                    n.bh == if n == other then old(n.bh) - 1 else if n == y then old(n.bh) + 1 else old(n.bh))
      ensures Heights(parent, dl) && Reds(null, null)
    {
      var y := old(Kid(other, dl));
      assert old(LeftOk(parent)) && old(RightOk(parent)) && old(UpOk(other));
      assert old(LeftOk(other)) && old(RightOk(other)) && old(LeftOk(y)) && old(RightOk(y));
      assert old(HeightOk(other, parent, dl)) && old(HeightOk(y, parent, dl));
      forall n {:trigger HeightOk(n, parent, dl)} | n in nodes ensures HeightOk(n, parent, dl) {
        assert old(HeightOk(n, parent, dl)) && old(LeftOk(n)) && old(RightOk(n)) && Moved(n, other, !dl);
      }
      forall n {:trigger RedOk(n, null, null)} | n in nodes ensures RedOk(n, null, null) {
        assert old(RedOk(n, null, null)) && old(UpOk(n)) && Moved(n, other, !dl);
      }
    }

    /** Red far nephew `f` of the sibling `o`: `o` takes the parent's place and colour; parent and nephew turn black. */
    twostate predicate FarRotated(parent: Node, dl: bool)
      reads this, nodes
    {
      && parent in old(nodes) && old(Kid(parent, !dl)) != null && old(Kid(parent, !dl)) in old(nodes)
      && var o := old(Kid(parent, !dl)); var f := old(Kid(o, !dl));
      && f != null && f in old(nodes) && !old(o.red) && old(f.red) && Rotated(parent, dl)
      && (forall n :: n in nodes ==>
            n.red == if n == o then old(parent.red) else n != parent && n != f && old(n.red))
      && (forall n :: n in nodes ==>
            n.bh == if n == o then old(parent.bh) else if n == f then old(n.bh) + 1
                    else if n == parent && !old(n.red) then old(n.bh) - 1 else old(n.bh))
    }

    /** The two nodes that the rotation moves. */
    twostate lemma FarRotatedHeights(parent: Node, new dl: bool)
      requires old(Linked()) && old(Heights(parent, dl)) && FarRotated(parent, dl)
      ensures HeightOk(parent, null, false) && HeightOk(old(Kid(parent, !dl)), null, false)
    {
      var o := old(Kid(parent, !dl));
      var f := old(Kid(o, !dl));
      assert old(LeftOk(parent)) && old(RightOk(parent)) && old(UpOk(parent)) && old(LeftOk(o)) && old(RightOk(o));
      assert old(HeightOk(parent, parent, dl)) && old(HeightOk(o, parent, dl)) && old(HeightOk(f, parent, dl));
      assert Moved(parent, parent, dl) && Moved(o, parent, dl);
      var z, w := old(Kid(o, dl)), old(Kid(parent, dl));
      assert z != null ==> z in nodes && z != parent && z != o && z != f && z.bh == old(z.bh);
      assert w != null ==> w in nodes && w != parent && w != o && w != f && w.bh == old(w.bh);
    }

    twostate lemma FarElsewhere(parent: Node, new dl: bool, new n: Node)
      requires old(Linked()) && old(Heights(parent, dl)) && FarRotated(parent, dl)
      requires n in nodes && n != parent && n != old(Kid(parent, !dl))
      ensures HeightOk(n, null, false)
    {
      var o := old(Kid(parent, !dl));
      assert old(LeftOk(parent)) && old(RightOk(parent)) && old(UpOk(parent)) && old(LeftOk(o)) && old(RightOk(o));
      assert old(HeightOk(n, parent, dl)) && old(LeftOk(n)) && old(RightOk(n)) && Moved(n, parent, dl);
      assert Bh(n.left) == old(Bh(n.left)) && Bh(n.right) == old(Bh(n.right));
    }

    twostate lemma FarNephewHeights(parent: Node, new dl: bool)
      requires old(Linked()) && old(Heights(parent, dl)) && FarRotated(parent, dl)
      ensures Heights(null, false)
    {
      FarRotatedHeights(parent, dl);
      forall n {:trigger HeightOk(n, null, false)} | n in nodes ensures HeightOk(n, null, false) {
        if n != parent && n != old(Kid(parent, !dl)) { FarElsewhere(parent, dl, n); }
      }
    }

    twostate lemma FarNephewReds(parent: Node, new dl: bool)
      requires old(Linked()) && old(Reds(null, null)) && FarRotated(parent, dl)
      ensures Reds(null, null)
    {
      var o := old(Kid(parent, !dl));
      assert old(LeftOk(parent)) && old(RightOk(parent)) && old(UpOk(parent)) && old(LeftOk(o)) && old(RightOk(o));
      assert old(RedOk(parent, null, null));
      forall n {:trigger RedOk(n, null, null)} | n in nodes ensures RedOk(n, null, null) {
        assert old(RedOk(n, null, null)) && old(UpOk(n)) && Moved(n, parent, dl);
      }
    }

    ghost method Account(n: Node, bh: nat)
      requires n in nodes && Linked()
      modifies n`bh
      ensures n.bh == bh && Linked()
    {
      n.bh := bh;
      SameLinksIsLinked();
    }

    method RedderSibling(other: Node, parent: Node, dl: bool)
      requires parent in nodes && Kid(parent, !dl) == other && other in nodes && !other.red
      requires (other.left != null ==> !other.left.red) && (other.right != null ==> !other.right.red)
      requires Linked() && Heights(parent, dl) && Reds(null, null)
      modifies nodes`red, nodes`bh
      ensures Linked() && Reds(parent, parent)
      ensures Heights(parent.parent, parent.parent != null && parent.parent.left == parent)
      ensures root == old(root) && other.red && forall n :: n in nodes && n != other ==> n.red == old(n.red)
    {
      assert LeftOk(parent) && RightOk(parent) && UpOk(parent) && LeftOk(other) && RightOk(other);
      assert HeightOk(parent, parent, dl) && HeightOk(other, parent, dl);
      Paint(other, true, other.bh - 1);
      Account(parent, parent.bh - 1);
      RedderSiblingHeights(parent, dl);
      RedderSiblingReds(parent, dl);
    }

    method NearNephew(other: Node, parent: Node, dl: bool)
      requires parent in nodes && Kid(parent, !dl) == other && other in nodes && !other.red
      requires Kid(other, dl) != null && Kid(other, dl).red && (Kid(other, !dl) != null ==> !Kid(other, !dl).red)
      requires Linked() && Heights(parent, dl) && Reds(null, null) && root != null && !root.red
      modifies this`root, nodes`left, nodes`right, nodes`parent, nodes`lo, nodes`hi, nodes`red, nodes`bh
      ensures Linked() && Heights(parent, dl) && Reds(null, null) && root != null && !root.red
      ensures parent.red == old(parent.red) && Kid(parent, !dl) == old(Kid(Kid(parent, !dl), dl))
      ensures var o := Kid(parent, !dl); o != null && o in nodes && !o.red && Kid(o, !dl) == other && other.red
    {
      assert LeftOk(parent) && RightOk(parent) && UpOk(parent) && LeftOk(other) && RightOk(other) && UpOk(other);
      assert HeightOk(parent, parent, dl) && HeightOk(other, parent, dl);
      var near := if dl then other.left else other.right;
      assert LeftOk(near) && RightOk(near) && UpOk(near);
      Paint(near, false, near.bh + 1);
      Paint(other, true, other.bh - 1);
      label M:
      var r := !dl;
      Rotate(other, r);
      forall n {:trigger Moved(n, other, r)} | n in nodes ensures Moved(n, other, r) { assert Moved@M(n, other, r); }
      NearNephewOk(other, parent, dl);
      assert Moved(other, other, !dl) && Moved(near, other, !dl) && Moved(parent, other, !dl);
    }

    method FarNephew(other: Node, parent: Node, dl: bool)
      requires parent in nodes && Kid(parent, !dl) == other && other in nodes && !other.red
      requires Kid(other, !dl) != null && Kid(other, !dl).red
      requires Linked() && Heights(parent, dl) && Reds(null, null) && root != null && !root.red
      modifies this`root, nodes`left, nodes`right, nodes`parent, nodes`lo, nodes`hi, nodes`red, nodes`bh
      ensures Linked() && Heights(null, false) && Reds(null, null) && root != null && !root.red
    {
      assert LeftOk(parent) && RightOk(parent) && UpOk(parent) && LeftOk(other) && RightOk(other);
      assert HeightOk(parent, parent, dl) && HeightOk(other, parent, dl);
      var far := if dl then other.right else other.left;
      assert UpOk(other) && UpOk(far);
      ghost var pb, pr := parent.bh, parent.red;
      Paint(other, parent.red, parent.bh);
      Paint(parent, false, if pr then pb else pb - 1);
      Paint(far, false, far.bh + 1);
      label M:
      Rotate(parent, dl);
      forall n {:trigger Moved(n, parent, dl)} | n in nodes ensures Moved(n, parent, dl) {
        assert Moved@M(n, parent, dl);
      }
      FarNephewHeights(parent, dl);
      FarNephewReds(parent, dl);
    }

    /** The part of a round of `__rb_erase_color` after the sibling is known to be black. */
    method BlackSibling(other0: Node, parent: Node, dl: bool) returns (up: bool)
      requires parent in nodes && Kid(parent, !dl) == other0 && !other0.red
      requires Linked() && Heights(parent, dl) && Reds(null, null) && root != null && !root.red
      modifies this`root, nodes`left, nodes`right, nodes`parent, nodes`lo, nodes`hi, nodes`red, nodes`bh
      ensures up ==> Erasing(parent, parent.parent, parent.parent != null && parent.parent.left == parent)
      ensures up ==> parent.lo == old(parent.lo) && parent.hi == old(parent.hi)
      ensures !up ==> Linked() && Heights(null, false) && Reds(null, null) && root != null && !root.red
    {
      var other := other0;
      assert LeftOk(parent) && RightOk(parent) && UpOk(parent);
      assert LeftOk(other) && RightOk(other) && UpOk(other);
      if (other.left == null || !other.left.red) && (other.right == null || !other.right.red) {
        RedderSibling(other, parent, dl);
        up := true;
      } else {
        var far := if dl then other.right else other.left;
        if far == null || !far.red {
          NearNephew(other, parent, dl);
          other := if dl then parent.right else parent.left;
        }
        FarNephew(other, parent, dl);
        up := false;
      }
    }

    /** One side of one round of `__rb_erase_color`; `up` tells whether the loop goes on at the parent. */
    method EraseRound(node: Node?, parent: Node, dl: bool) returns (up: bool)
      requires Erasing(node, parent, dl) && (node == null || !node.red) && node != root
      modifies this`root, nodes`left, nodes`right, nodes`parent, nodes`lo, nodes`hi, nodes`red, nodes`bh
      ensures up ==> Erasing(parent, parent.parent, parent.parent != null && parent.parent.left == parent)
      ensures up ==> parent.hi - parent.lo > old(Span(parent, dl))
      ensures !up ==> Linked() && Heights(null, false) && Reds(null, null) && root != null && !root.red
    {
      forall n {:trigger RedOk(n, null, null)} | n in nodes ensures RedOk(n, null, null) {
        assert RedOk(n, node, node);
      }
      assert LeftOk(parent) && RightOk(parent) && UpOk(parent) && HeightOk(parent, parent, dl);
      var other := if dl then parent.right else parent.left;
      assert HeightOk(other, parent, dl) && LeftOk(other) && RightOk(other);
      if other.red {
        RedSibling(other, parent, dl);
        other := if dl then parent.right else parent.left;
        assert HeightOk(parent, parent, dl) && LeftOk(parent) && RightOk(parent);
        assert RedOk(other, null, null);
      }
      up := BlackSibling(other, parent, dl);
    }

    method EraseColor(node0: Node?, parent0: Node?, ghost dl0: bool)
      requires Erasing(node0, parent0, dl0)
      modifies this`root, nodes`left, nodes`right, nodes`parent, nodes`lo, nodes`hi, nodes`red, nodes`bh
      ensures Linked() && Heights(null, false) && Reds(null, null)
      ensures root != null ==> !root.red
    {
      var node, parent := node0, parent0;
      ghost var dl := dl0;
      while (node == null || !node.red) && node != root
        invariant Erasing(node, parent, dl)
        decreases if parent == null then 0 else |order| + 1 - Span(parent, dl)
      {
        assert LeftOk(parent) && RightOk(parent) && HeightOk(parent, parent, dl);
        if node != null { assert LeftOk(node) && RightOk(node); }
        var up := EraseRound(node, parent, parent.left == node);
        if !up {
          return;
        }
        assert UpOk(parent) && LeftOk(parent) && RightOk(parent);
        node := parent;
        parent := node.parent;
        dl := parent != null && parent.left == node;
        if parent != null { assert LeftOk(parent) && RightOk(parent); }
      }
      if node != null {
        assert UpOk(node);
        Blacken(node, dl);
      } else {
        forall n {:trigger HeightOk(n, null, false)} | n in nodes ensures HeightOk(n, null, false) {
          assert HeightOk(n, parent, dl);
        }
      }
    }

    // ---------------------------------------------------------------- linking a new leaf

    /** How `n` changes when `x` becomes a leaf at position `k`, on the left link of `parent` when `l`. */
    twostate predicate Pushed(n: Node, new x: Node, parent: Node?, l: bool, k: int)
      reads n
    {
      && n.left == (if n == parent && l then x else old(n.left))
      && n.right == (if n == parent && !l then x else old(n.right))
      && n.parent == old(n.parent)
      && n.lo == old(n.lo) + (if old(n.lo) < k || (l && old(n.lo) == k) then 0 else 1)
      && n.hi == old(n.hi) + (if old(n.hi) < k || (l && old(n.hi) == k) then 0 else 1)
      && n.pos == old(n.pos) + (if old(n.pos) < k then 0 else 1)
    }

    ghost predicate FreeLink(parent: Node?, l: bool, k: int)
      reads this, nodes
    {
      if parent == null then root == null && k == 0
      else parent in nodes && Kid(parent, l) == null && k == parent.pos + (if l then 0 else 1)
    }

    twostate lemma LinkedLeafIsLinked(new x: Node, new parent: Node?, new l: bool, new k: int)
      requires x !in old(nodes) && nodes == old(nodes) + {x} && (parent != null ==> parent in old(nodes))
      requires old(Linked()) && old(Indexed()) && old(FreeLink(parent, l, k)) && 0 <= k <= |old(order)|
      requires order == old(order)[..k] + [x] + old(order)[k..]
      requires root == (if parent == null then x else old(root))
      requires x.left == null && x.right == null && x.parent == parent && x.lo == k && x.pos == k && x.hi == k + 1
      requires forall n {:trigger Pushed(n, x, parent, l, k)} :: n in old(nodes) ==> Pushed(n, x, parent, l, k)
      ensures Linked()
    {
      assert parent != null ==> old(LeftOk(parent)) && old(RightOk(parent)) && Pushed(parent, x, parent, l, k);
      forall n {:trigger LeftOk(n)} | n in nodes ensures LeftOk(n) {
        if n != x {
          assert old(LeftOk(n)) && Pushed(n, x, parent, l, k);
          assert parent != null && old(n.pos == parent.pos) ==> n == parent;
          assert n.left != null && n.left != x ==> old(RightOk(n.left)) && Pushed(n.left, x, parent, l, k);
        }
      }
      forall n {:trigger RightOk(n)} | n in nodes ensures RightOk(n) {
        if n != x {
          assert old(RightOk(n)) && Pushed(n, x, parent, l, k);
          assert parent != null && old(n.pos == parent.pos) ==> n == parent;
          assert n.right != null && n.right != x ==> old(LeftOk(n.right)) && Pushed(n.right, x, parent, l, k);
        }
      }
      forall n {:trigger UpOk(n)} | n in nodes ensures UpOk(n) {
        if n != x {
          assert old(UpOk(n)) && Pushed(n, x, parent, l, k);
          assert n.parent != null ==> Pushed(n.parent, x, parent, l, k);
        }
      }
    }

    twostate lemma LinkedLeafIsColoured(new x: Node, new parent: Node?, new l: bool, new k: int)
      requires x !in old(nodes) && nodes == old(nodes) + {x} && (parent != null ==> parent in old(nodes))
      requires old(Linked()) && old(FreeLink(parent, l, k)) && old(Heights(null, false)) && old(Reds(null, null))
      requires x.left == null && x.right == null && x.parent == parent && x.red && x.bh == 0
      requires forall n {:trigger Pushed(n, x, parent, l, k)} :: n in old(nodes) ==> Pushed(n, x, parent, l, k)
      requires forall n :: n in old(nodes) ==> n.red == old(n.red) && n.bh == old(n.bh)
      ensures Heights(null, false) && Reds(x, null)
    {
      forall n {:trigger HeightOk(n, null, false)} | n in nodes ensures HeightOk(n, null, false) {
        if n != x {
          assert old(HeightOk(n, null, false)) && old(LeftOk(n)) && old(RightOk(n)) && Pushed(n, x, parent, l, k);
        }
      }
      forall n {:trigger RedOk(n, x, null)} | n in nodes ensures RedOk(n, x, null) {
        if n != x {
          assert old(RedOk(n, null, null)) && old(UpOk(n)) && Pushed(n, x, parent, l, k);
        }
      }
    }

    ghost method Open(k: int, l: bool)
      modifies nodes`lo, nodes`pos, nodes`hi
      ensures forall n :: n in nodes ==> n.lo == old(n.lo) + (if old(n.lo) < k || (l && old(n.lo) == k) then 0 else 1)
      ensures forall n :: n in nodes ==> n.hi == old(n.hi) + (if old(n.hi) < k || (l && old(n.hi) == k) then 0 else 1)
      ensures forall n :: n in nodes ==> n.pos == old(n.pos) + (if old(n.pos) < k then 0 else 1)
    {
      forall n | n in nodes { n.lo := n.lo + if n.lo < k || (l && n.lo == k) then 0 else 1; }
      forall n | n in nodes { n.hi := n.hi + if n.hi < k || (l && n.hi == k) then 0 else 1; }
      forall n | n in nodes { n.pos := n.pos + if n.pos < k then 0 else 1; }
    }

    twostate lemma LinkedLeafIsIndexed(new x: Node, new k: int)
      requires x !in old(nodes) && nodes == old(nodes) + {x} && old(Indexed()) && 0 <= k <= |old(order)|
      requires order == old(order)[..k] + [x] + old(order)[k..] && x.pos == k
      requires forall n :: n in old(nodes) ==> n.pos == old(n.pos) + (if old(n.pos) < k then 0 else 1)
      ensures Indexed()
    {
      forall i | 0 <= i < |order| ensures order[i] in nodes && order[i].pos == i {
        assert i < k ==> order[i] == old(order)[i];
        assert i > k ==> order[i] == old(order)[i - 1];
      }
    }

    /** `rb_link_node`: the link variable of the source is the left or right link of `parent`, or the root. */
    method LinkNode(node: Node, parent: Node?, l: bool)
      requires node != parent
      modifies this`root, node`left, node`right, node`parent, node`red, Opt(parent)`left, Opt(parent)`right
      ensures node.left == null && node.right == null && node.parent == parent && node.red
      ensures root == if parent == null then node else old(root)
      ensures parent != null ==> parent.left == if l then node else old(parent.left)
      ensures parent != null ==> parent.right == if l then old(parent.right) else node
    {
      node.parent, node.red := parent, true;
      node.left, node.right := null, null;
      if parent == null {
        root := node;
      } else if l {
        parent.left := node;
      } else {
        parent.right := node;
      }
    }

    /** The links, and the ghost side of the new leaf. */
    method LinkFresh(node: Node, parent: Node?, l: bool, ghost k: int)
      requires node !in nodes && (parent != null ==> parent in nodes) && 0 <= k <= |order|
      modifies this, node`left, node`right, node`parent, node`red, node`lo, node`pos, node`hi, node`bh
      modifies nodes`left, nodes`right, nodes`lo, nodes`pos, nodes`hi
      ensures nodes == old(nodes) + {node} && order == old(order)[..k] + [node] + old(order)[k..]
      ensures root == if parent == null then node else old(root)
      ensures node.left == null && node.right == null && node.parent == parent && node.red && node.bh == 0
      ensures node.lo == k && node.pos == k && node.hi == k + 1
      ensures forall n {:trigger Pushed(n, node, parent, l, k)} :: n in old(nodes) ==> Pushed(n, node, parent, l, k)
    {
      LinkNode(node, parent, l);
      Open(k, l);
      node.lo, node.pos, node.hi, node.bh := k, k, k + 1, 0;
      order := order[..k] + [node] + order[k..];
      nodes := nodes + {node};
      forall n {:trigger Pushed(n, node, parent, l, k)} | n in old(nodes) ensures Pushed(n, node, parent, l, k) {}
    }

    method LinkLeaf(node: Node, parent: Node?, l: bool, ghost k: int)
      requires Valid() && node !in nodes && FreeLink(parent, l, k)
      modifies this, node`left, node`right, node`parent, node`red, node`lo, node`pos, node`hi, node`bh
      modifies nodes`left, nodes`right, nodes`lo, nodes`pos, nodes`hi
      ensures Inserting(node) && Indexed()
      ensures 0 <= k <= |old(order)| && order == old(order)[..k] + [node] + old(order)[k..]
      ensures nodes == old(nodes) + {node}
    {
      LinkFresh(node, parent, l, k);
      forall n | n in old(nodes) ensures n.pos == old(n.pos) + (if old(n.pos) < k then 0 else 1) {
        assert Pushed(n, node, parent, l, k);
      }
      LinkedLeafIsIndexed(node, k);
      LinkedLeafIsLinked(node, parent, l, k);
      LinkedLeafIsColoured(node, parent, l, k);
    }

    /** `rb_link_node` followed by `rb_insert_color`, as every insertion does. */
    method Insert(node: Node, parent: Node?, l: bool, ghost k: int)
      requires Valid() && node !in nodes && FreeLink(parent, l, k)
      modifies this, node`left, node`right, node`parent, node`red, node`lo, node`pos, node`hi, node`bh
      modifies nodes`left, nodes`right, nodes`parent, nodes`lo, nodes`pos, nodes`hi, nodes`red, nodes`bh
      ensures Valid() && nodes == old(nodes) + {node}
      ensures 0 <= k <= |old(order)| && order == old(order)[..k] + [node] + old(order)[k..]
    {
      LinkLeaf(node, parent, l, k);
      InsertColor(node);
    }

    // ---------------------------------------------------------------- unlinking

    /** The only child, if any, of a node without a left or without a right child. */
    static ghost function OnlyKid(x: Node): Node?
      reads x
    {
      if x.left == null then x.right else x.left
    }

    /** How `n` changes when `x`, which has at most one child, leaves the tree and the child takes its place. */
    twostate predicate Pulled(n: Node, x: Node)
      reads n
    {
      && n.left == (if n == old(x.parent) && old(n.left) == x then old(OnlyKid(x)) else old(n.left))
      && n.right == (if n == old(x.parent) && old(n.left) != x then old(OnlyKid(x)) else old(n.right))
      && n.parent == (if n == old(OnlyKid(x)) then old(x.parent) else old(n.parent))
      && n.lo == old(n.lo) - (if old(n.lo) <= old(x.pos) then 0 else 1)
      && n.hi == old(n.hi) - (if old(n.hi) <= old(x.pos) then 0 else 1)
      && n.pos == old(n.pos) - (if old(n.pos) <= old(x.pos) then 0 else 1)
    }

    twostate predicate Unlinked(x: Node)
      requires x in old(nodes) && 0 <= old(x.pos) < |old(order)|
      reads this, nodes
    {
      && nodes == old(nodes) - {x}
      && order == old(order)[..old(x.pos)] + old(order)[old(x.pos) + 1..]
      && root == (if old(x.parent) == null then old(OnlyKid(x)) else old(root))
      && (forall n {:trigger Pulled(n, x)} :: n in nodes ==> Pulled(n, x))
    }

    twostate lemma PulledLeftOk(x: Node)
      requires x in old(nodes) && (old(x.left) == null || old(x.right) == null)
      requires old(Linked()) && old(Indexed()) && Unlinked(x)
      ensures forall n {:trigger LeftOk(n)} :: n in nodes ==> LeftOk(n)
    {
      var c, p := old(OnlyKid(x)), old(x.parent);
      assert old(LeftOk(x)) && old(RightOk(x)) && old(UpOk(x));
      assert c != null ==> old(LeftOk(c)) && old(RightOk(c)) && old(UpOk(c)) && Pulled(c, x);
      assert p != null ==> old(LeftOk(p)) && old(RightOk(p)) && Pulled(p, x);
      forall n {:trigger LeftOk(n)} | n in nodes ensures LeftOk(n) {
        assert old(LeftOk(n)) && Pulled(n, x) && old(n.pos) != old(x.pos);
        var k := old(n.left);
        assert k != null ==> old(LeftOk(k)) && old(RightOk(k)) && (k != x ==> old(k.pos) != old(x.pos));
        assert n.left != null ==> Pulled(n.left, x);
      }
    }

    twostate lemma PulledRightOk(x: Node)
      requires x in old(nodes) && (old(x.left) == null || old(x.right) == null)
      requires old(Linked()) && old(Indexed()) && Unlinked(x)
      ensures forall n {:trigger RightOk(n)} :: n in nodes ==> RightOk(n)
    {
      var c, p := old(OnlyKid(x)), old(x.parent);
      assert old(LeftOk(x)) && old(RightOk(x)) && old(UpOk(x));
      assert c != null ==> old(LeftOk(c)) && old(RightOk(c)) && old(UpOk(c)) && Pulled(c, x);
      assert p != null ==> old(LeftOk(p)) && old(RightOk(p)) && Pulled(p, x);
      forall n {:trigger RightOk(n)} | n in nodes ensures RightOk(n) {
        assert old(RightOk(n)) && Pulled(n, x) && old(n.pos) != old(x.pos);
        var k := old(n.right);
        assert k != null ==> old(LeftOk(k)) && old(RightOk(k)) && (k != x ==> old(k.pos) != old(x.pos));
        assert n.right != null ==> Pulled(n.right, x);
      }
    }

    twostate lemma PulledIsLinked(x: Node)
      requires x in old(nodes) && (old(x.left) == null || old(x.right) == null)
      requires old(Linked()) && old(Indexed()) && Unlinked(x)
      ensures Linked()
    {
      var c, p := old(OnlyKid(x)), old(x.parent);
      assert old(LeftOk(x)) && old(RightOk(x)) && old(UpOk(x));
      assert c != null ==> old(LeftOk(c)) && old(RightOk(c)) && old(UpOk(c)) && Pulled(c, x);
      assert p != null ==> old(LeftOk(p)) && old(RightOk(p)) && Pulled(p, x);
      PulledLeftOk(x);
      PulledRightOk(x);
      forall n {:trigger UpOk(n)} | n in nodes ensures UpOk(n) {
        assert old(UpOk(n)) && Pulled(n, x) && old(n.pos) != old(x.pos);
        assert n.parent != null ==> Pulled(n.parent, x);
      }
    }

    twostate lemma PulledIsIndexed(x: Node)
      requires x in old(nodes) && old(Indexed()) && Unlinked(x)
      ensures Indexed()
    {
      var p := old(x.pos);
      forall n | n in nodes ensures 0 <= n.pos < |order| && order[n.pos] == n { assert Pulled(n, x); }
      forall i | 0 <= i < |order| ensures order[i] in nodes && order[i].pos == i {
        assert order[i] == old(order)[if i < p then i else i + 1] && Pulled(order[i], x);
      }
    }

    twostate lemma PulledIsColoured(x: Node, new dl: bool)
      requires x in old(nodes) && old(Indexed()) && Unlinked(x) && (old(x.left) == null || old(x.right) == null)
      requires old(Linked()) && old(Heights(null, false)) && old(Reds(null, null))
      requires old(x.parent) != null ==> old(x.parent) in old(nodes) && dl == (old(x.parent.left) == x)
      requires forall n :: n in nodes ==> n.red == old(n.red) && n.bh == old(n.bh)
      ensures old(x.red) ==> Heights(null, false) && Reds(null, null)
      ensures !old(x.red) ==> Heights(old(x.parent), dl) && Reds(old(OnlyKid(x)), old(OnlyKid(x)))
    {
      var c, p := old(OnlyKid(x)), old(x.parent);
      var dp := if old(x.red) then null else p;
      var e := if old(x.red) then null else c;
      var d := if old(x.red) then false else dl;
      assert old(LeftOk(x)) && old(RightOk(x)) && old(UpOk(x)) && old(HeightOk(x, null, false));
      assert c != null ==> old(RedOk(c, null, null));
      assert p != null ==> old(LeftOk(p)) && old(RightOk(p));
      forall n {:trigger HeightOk(n, dp, d)} | n in nodes ensures HeightOk(n, dp, d) {
        assert old(HeightOk(n, null, false)) && old(LeftOk(n)) && old(RightOk(n)) && Pulled(n, x);
      }
      forall n {:trigger RedOk(n, e, e)} | n in nodes ensures RedOk(n, e, e) {
        assert old(RedOk(n, null, null)) && old(UpOk(n)) && Pulled(n, x);
      }
    }

    method SpliceLinks(child: Node?, parent: Node?, l: bool)
      requires parent != child || parent == null
      modifies this`root, Opt(child)`parent, Opt(parent)`left, Opt(parent)`right
      ensures child != null ==> child.parent == parent
      ensures root == if parent == null then child else old(root)
      ensures parent != null ==> parent.left == if l then child else old(parent.left)
      ensures parent != null ==> parent.right == if l then old(parent.right) else child
    {
      if child != null {
        child.parent := parent;
      }
      if parent != null {
        if l {
          parent.left := child;
        } else {
          parent.right := child;
        }
      } else {
        root := child;
      }
    }

    /** The ghost side of taking out `x`. */
    ghost method Forget(x: Node)
      requires x in nodes && Indexed()
      modifies this`nodes, this`order, nodes`lo, nodes`pos, nodes`hi
      ensures nodes == old(nodes) - {x}
      ensures order == old(order)[..old(x.pos)] + old(order)[old(x.pos) + 1..]
      ensures forall n :: n in nodes ==> n.lo == old(n.lo) - (if old(n.lo) <= old(x.pos) then 0 else 1)
      ensures forall n :: n in nodes ==> n.hi == old(n.hi) - (if old(n.hi) <= old(x.pos) then 0 else 1)
      ensures forall n :: n in nodes ==> n.pos == old(n.pos) - (if old(n.pos) <= old(x.pos) then 0 else 1)
    {
      var p := x.pos;
      order := order[..p] + order[p + 1..];
      nodes := nodes - {x};
      forall n | n in nodes { n.lo := n.lo - if n.lo <= p then 0 else 1; }
      forall n | n in nodes { n.hi := n.hi - if n.hi <= p then 0 else 1; }
      forall n | n in nodes { n.pos := n.pos - if n.pos <= p then 0 else 1; }
    }

    method SpliceShape(node: Node, child: Node?, parent: Node?, l: bool)
      requires Linked() && Indexed() && node in nodes && (node.left == null || node.right == null)
      requires child == OnlyKid(node) && parent == node.parent
      requires parent != null ==> parent in nodes && l == (parent.left == node)
      modifies this, nodes`left, nodes`right, nodes`parent, nodes`lo, nodes`pos, nodes`hi
      ensures Linked() && Indexed() && Unlinked(node)
    {
      assert LeftOk(node) && RightOk(node) && UpOk(node);
      assert parent != null ==> LeftOk(parent) && RightOk(parent);
      assert child != null ==> LeftOk(child) && RightOk(child);
      Forget(node);
      SpliceLinks(child, parent, l);
      forall n {:trigger Pulled(n, node)} | n in nodes ensures Pulled(n, node) {}
      PulledIsIndexed(node);
      PulledIsLinked(node);
    }

    /** Takes out a node with at most one child; afterwards the link (parent, l) may lead to one black node too few. */
    method Splice(node: Node, child: Node?, parent: Node?, l: bool)
      requires Valid() && node in nodes && (node.left == null || node.right == null)
      requires child == OnlyKid(node) && parent == node.parent
      requires parent != null ==> parent in nodes && l == (parent.left == node)
      modifies this, nodes`left, nodes`right, nodes`parent, nodes`lo, nodes`pos, nodes`hi
      ensures Linked() && Indexed() && Unlinked(node)
      ensures node.red ==> Heights(null, false) && Reds(null, null)
      ensures !node.red ==> Heights(parent, l) && Reds(child, child)
    {
      SpliceShape(node, child, parent, l);
      PulledIsColoured(node, l);
    }

    // ---------------------------------------------------------------- putting the successor in a node's place

    /** `n` after `x` has taken the place of `o`. */
    twostate predicate Swapped(n: Node, o: Node, x: Node)
      reads n
    {
      var m := if n == x then o else n;
      && n.left == (if old(m.left) == o then x else old(m.left))
      && n.right == (if old(m.right) == o then x else old(m.right))
      && n.parent == (if old(m.parent) == o then x else old(m.parent))
      && n.lo == old(m.lo) && n.pos == old(m.pos) && n.hi == old(m.hi)
      && n.red == old(m.red) && n.bh == old(m.bh)
    }

    twostate predicate Replaced(o: Node, x: Node)
      requires o in old(nodes) && 0 <= old(o.pos) < |old(order)|
      reads this, nodes
    {
      && nodes == old(nodes) - {o} + {x}
      && order == old(order)[old(o.pos) := x]
      && root == (if old(root) == o then x else old(root))
      && (forall n {:trigger Swapped(n, o, x)} :: n in nodes ==> Swapped(n, o, x))
    }

    twostate lemma ReplacedIsLinked(o: Node, new x: Node)
      requires old(allocated(x)) && o in old(nodes) && x !in old(nodes) && old(Linked()) && old(Indexed())
      requires Replaced(o, x)
      ensures Linked() && Indexed()
    {
      assert Swapped(x, o, x);
      assert old(LeftOk(o)) && old(RightOk(o)) && old(UpOk(o));
      forall n {:trigger LeftOk(n)} | n in nodes ensures LeftOk(n) {
        assert Swapped(n, o, x) && old(LeftOk(if n == x then o else n));
        assert n.left != null ==> Swapped(n.left, o, x);
      }
      forall n {:trigger RightOk(n)} | n in nodes ensures RightOk(n) {
        assert Swapped(n, o, x) && old(RightOk(if n == x then o else n));
        assert n.right != null ==> Swapped(n.right, o, x);
      }
      forall n {:trigger UpOk(n)} | n in nodes ensures UpOk(n) {
        assert Swapped(n, o, x) && old(UpOk(if n == x then o else n));
        assert n.parent != null ==> Swapped(n.parent, o, x);
      }
      forall n | n in nodes ensures 0 <= n.pos < |order| && order[n.pos] == n { assert Swapped(n, o, x); }
      forall i | 0 <= i < |order| ensures order[i] in nodes && order[i].pos == i { assert Swapped(order[i], o, x); }
    }

    /** A subtree keeps its black height, also when its top is the replaced node. */
    twostate lemma ReplacedBh(o: Node, new x: Node, new c: Node?)
      requires old(allocated(x)) && o in old(nodes) && x !in old(nodes) && old(Indexed()) && Replaced(o, x)
      requires c != null ==> c in old(nodes)
      ensures Bh(if c == o then x else c) == old(Bh(c))
    {
      assert Swapped(x, o, x);
      assert c != null && c != o ==> Swapped(c, o, x);
    }

    twostate lemma ReplacedHeights(o: Node, new x: Node, new dp: Node?, new dl: bool)
      requires old(allocated(x)) && o in old(nodes) && x !in old(nodes) && old(Linked()) && old(Indexed())
      requires Replaced(o, x) && (dp != null ==> dp in old(nodes)) && old(Heights(dp, dl))
      ensures Heights(if dp == o then x else dp, dl)
    {
      var dq := if dp == o then x else dp;
      forall n {:trigger HeightOk(n, dq, dl)} | n in nodes ensures HeightOk(n, dq, dl) {
        var m := if n == x then o else n;
        assert Swapped(n, o, x) && old(HeightOk(m, dp, dl)) && old(LeftOk(m)) && old(RightOk(m));
        ReplacedBh(o, x, old(m.left));
        ReplacedBh(o, x, old(m.right));
      }
    }

    twostate lemma ReplacedReds(o: Node, new x: Node, new e: Node?)
      requires old(allocated(x)) && o in old(nodes) && x !in old(nodes) && old(Linked()) && old(Indexed())
      requires Replaced(o, x) && (e != null ==> e in old(nodes)) && e != o && old(Reds(e, e))
      ensures Reds(e, e)
    {
      forall n {:trigger RedOk(n, e, e)} | n in nodes ensures RedOk(n, e, e) {
        var m := if n == x then o else n;
        assert Swapped(n, o, x) && old(RedOk(m, e, e)) && old(UpOk(m));
        assert n.parent != null ==> Swapped(n.parent, o, x);
      }
    }

    /** Lines 398-413 of the source: `node` takes over the place, links and colour of `o`. */
    method ReplaceLinks(o: Node, node: Node)
      requires o != node && o.left != null && o.left != o && o.left != node && o.right != o && o.right != node
      requires o.parent != o && o.parent != node && (o.left != o.right || o.left == null) && o.parent != o.left
      requires o.parent != o.right || o.parent == null
      requires o.parent != null ==> (o.parent.left == o) != (o.parent.right == o)
      modifies this`root, node`left, node`right, node`parent, node`red, node`lo, node`pos, node`hi, node`bh
      modifies Opt(o.parent)`left, Opt(o.parent)`right, Opt(o.left)`parent, Opt(o.right)`parent
      ensures node.left == o.left && node.right == o.right && node.parent == o.parent && node.red == o.red
      ensures node.lo == o.lo && node.pos == o.pos && node.hi == o.hi && node.bh == o.bh
      ensures root == if o.parent == null then node else old(root)
      ensures o.left.parent == node && (o.right != null ==> o.right.parent == node)
      ensures var p := o.parent; p != null ==> p.left == if old(p.left) == o then node else old(p.left)
      ensures var p := o.parent; p != null ==> p.right == if old(p.right) == o then node else old(p.right)
    {
      node.parent, node.red := o.parent, o.red;
      node.right := o.right;
      node.left := o.left;
      node.lo, node.pos, node.hi, node.bh := o.lo, o.pos, o.hi, o.bh;
      if o.parent != null {
        if o.parent.left == o {
          o.parent.left := node;
        } else {
          o.parent.right := node;
        }
      } else {
        root := node;
      }
      o.left.parent := node;
      if o.right != null {
        o.right.parent := node;
      }
    }

    /** Links to and from `o` are mutual, and its neighbours are different nodes of the tree. */
    ghost predicate Mutual(o: Node)
      reads this, nodes, o
    {
      && (o.left != null ==> o.left in nodes) && (o.right != null ==> o.right in nodes)
      && (o.parent != null ==> o.parent in nodes) && (root == o <==> o.parent == null)
      && o.parent != o && o.left != o && o.right != o && (o.left != null ==> o.left != o.right)
      && (o.parent != null ==> o.parent != o.left && o.parent != o.right)
      && (forall n {:trigger n.left} :: n in nodes && n != o.parent ==> n.left != o)
      && (forall n {:trigger n.right} :: n in nodes && n != o.parent ==> n.right != o)
      && (forall n {:trigger n.parent} :: n in nodes ==> (n.parent == o <==> o.left == n || o.right == n))
      && (o.parent != null ==> (o.parent.left == o) != (o.parent.right == o))
    }

    lemma LinksAreMutual(o: Node)
      requires Linked() && o in nodes
      ensures Mutual(o)
    {
      assert LeftOk(o) && RightOk(o) && UpOk(o);
      assert o.left != null ==> LeftOk(o.left) && RightOk(o.left);
      assert o.right != null ==> LeftOk(o.right) && RightOk(o.right);
      assert o.parent != null ==> LeftOk(o.parent) && RightOk(o.parent);
      forall n | n in nodes
        ensures (n != o.parent ==> n.left != o && n.right != o) && (n.parent == o <==> o.left == n || o.right == n)
      {
        assert LeftOk(n) && RightOk(n) && UpOk(n);
      }
    }

    method ReplaceNode(o: Node, node: Node)
      requires Mutual(o) && o in nodes && node !in nodes && o.left != null && 0 <= o.pos < |order|
      modifies this, nodes`left, nodes`right, nodes`parent
      modifies node`left, node`right, node`parent, node`red, node`lo, node`pos, node`hi, node`bh
      ensures Replaced(o, node)
    {
      ReplaceLinks(o, node);
      nodes := nodes - {o} + {node};
      order := order[o.pos := node];
    }

    method Replace(o: Node, node: Node, ghost dp: Node?, ghost dl: bool, ghost e: Node?)
      requires Linked() && Indexed() && o in nodes && node !in nodes && o.left != null
      requires (dp != null ==> dp in nodes) && (e != null ==> e in nodes) && e != o
      requires Heights(dp, dl) && Reds(e, e) && root != null
      modifies this, nodes`left, nodes`right, nodes`parent
      modifies node`left, node`right, node`parent, node`red, node`lo, node`pos, node`hi, node`bh
      ensures Linked() && Indexed() && Replaced(o, node)
      ensures Heights(if dp == o then node else dp, dl) && Reds(e, e)
      ensures root != null && root.red == old(root.red)
    {
      LinksAreMutual(o);
      ReplaceNode(o, node);
      ReplacedIsLinked(o, node);
      assert Swapped(root, o, node);
      ReplacedHeights(o, node, dp, dl);
      ReplacedReds(o, node, e);
    }

    /** The leftmost node right of `o`: the loop of lines 383-385. */
    method Successor(o: Node) returns (node: Node)
      requires Linked() && Indexed() && o in nodes && o.right != null
      ensures node in nodes && node.left == null && node.pos == o.pos + 1 && node.parent != null
      ensures node.parent in nodes && if node.parent == o then o.left != node else node.parent.left == node
    {
      assert RightOk(o);
      node := o.right;
      assert LeftOk(node) && RightOk(node);
      while node.left != null
        invariant node in nodes && node.lo == o.pos + 1 && LeftOk(node) && RightOk(node)
        invariant node == o.right || (node.parent != null && node.parent != o && node.parent.left == node)
        decreases node.pos
      {
        node := node.left;
        assert LeftOk(node) && RightOk(node);
      }
      assert UpOk(node) && LeftOk(o);
    }

    lemma NearSuccessor(o: Node, node: Node)
      requires Linked() && o in nodes && node in nodes && node.left == null && node.pos == o.pos + 1
      ensures root != null && node.parent != node && node.right != o && node.right != node
      ensures node.right != null ==> node.right in nodes
    {
      assert RightOk(node) && LeftOk(node) && UpOk(node) && LeftOk(o) && RightOk(o) && UpOk(o);
    }

    method SpliceSuccessor(o: Node) returns (node: Node, child: Node?, parent: Node, l: bool, red: bool)
      requires Valid() && o in nodes && o.left != null && o.right != null
      modifies this, nodes`left, nodes`right, nodes`parent, nodes`lo, nodes`pos, nodes`hi
      ensures Linked() && Indexed() && node in old(nodes) && nodes == old(nodes) - {node}
      ensures o in nodes && o.left != null
      ensures o.pos + 1 < |old(order)| && node == old(order)[o.pos + 1]
      ensures o.pos == old(o.pos) && order == old(order)[..o.pos + 1] + old(order)[o.pos + 2..]
      ensures root == old(root) && root != null && !root.red
      ensures red ==> Heights(null, false) && Reds(null, null)
      ensures !red ==> Heights(parent, l) && Reds(child, child)
      ensures parent in nodes && Kid(parent, l) == child && child != o
      ensures child != null ==> child in nodes && child.parent == parent
    {
      node := Successor(o);
      NearSuccessor(o, node);
      child := node.right;
      parent := node.parent;
      red := node.red;
      l := parent != o;
      label S:
      Splice(node, child, parent, l);
      assert Pulled@S(o, node) && Pulled@S(parent, node);
      assert child != null ==> Pulled@S(child, node);
    }

    /** A node with two children leaves the tree: its successor is taken out and put in its place.
        Afterwards `child` hangs from `parent` on the side `l`. */
    method EraseInner(o: Node) returns (child: Node?, parent: Node, l: bool, red: bool)
      requires Valid() && o in nodes && o.left != null && o.right != null
      modifies this, nodes`left, nodes`right, nodes`parent, nodes`lo, nodes`pos, nodes`hi, nodes`red, nodes`bh
      ensures Linked() && Indexed() && nodes == old(nodes) - {o}
      ensures order == old(order)[..old(o.pos)] + old(order)[old(o.pos) + 1..]
      ensures red ==> Heights(null, false) && Reds(null, null)
      ensures !red ==> Heights(parent, l) && Reds(child, child)
      ensures parent in nodes && Kid(parent, l) == child && (child != null ==> child in nodes && child.parent == parent)
      ensures root != null && !root.red
    {
      var node;
      ghost var p := o.pos;
      node, child, parent, l, red := SpliceSuccessor(o);
      ghost var dp := if red then null else parent;
      if parent == o {
        parent := node;
      }
      RemoveBefore(old(order), p);
      label R:
      Replace(o, node, dp, !red && l, if red then null else child);
      assert Swapped@R(parent, o, node);
      assert child != null ==> Swapped@R(child, o, node);
    }

    method EraseOuter(node: Node) returns (child: Node?, parent: Node?, l: bool, red: bool)
      requires Valid() && node in nodes && (node.left == null || node.right == null)
      modifies this, nodes`left, nodes`right, nodes`parent, nodes`lo, nodes`pos, nodes`hi
      ensures Linked() && Indexed() && nodes == old(nodes) - {node}
      ensures order == old(order)[..old(node.pos)] + old(order)[old(node.pos) + 1..]
      ensures red ==> Valid()
      ensures !red ==> Erasing(child, parent, l)
    {
      assert LeftOk(node) && RightOk(node) && UpOk(node);
      child := if node.left == null then node.right else node.left;
      parent := node.parent;
      red := node.red;
      l := parent != null && parent.left == node;
      assert parent != null ==> LeftOk(parent) && RightOk(parent);
      Splice(node, child, parent, l);
      assert parent != null ==> Pulled(parent, node);
      assert child != null ==> Pulled(child, node);
    }

    method Erase(node: Node)
      requires Valid() && node in nodes
      modifies this, nodes`left, nodes`right, nodes`parent, nodes`lo, nodes`pos, nodes`hi, nodes`red, nodes`bh
      ensures Valid() && nodes == old(nodes) - {node}
      ensures order == old(order)[..old(node.pos)] + old(order)[old(node.pos) + 1..]
    {
      var child, parent: Node?, red, l;
      if node.left != null && node.right != null {
        child, parent, l, red := EraseInner(node);
      } else {
        child, parent, l, red := EraseOuter(node);
      }
      if !red {
        EraseColor(child, parent, l);
      }
    }

    // ---------------------------------------------------------------- traversal

    method First() returns (n: Node?)
      requires Linked() && Indexed()
      ensures n == if order == [] then null else order[0]
    {
      n := root;
      if n == null {
        return;
      }
      assert UpOk(n) && LeftOk(n) && RightOk(n);
      while n.left != null
        invariant n != null && n in nodes && n.lo == 0 && LeftOk(n) && RightOk(n)
        decreases n.hi - n.lo
      {
        n := n.left;
        assert LeftOk(n) && RightOk(n);
      }
    }

    method Last() returns (n: Node?)
      requires Linked() && Indexed()
      ensures n == if order == [] then null else order[|order| - 1]
    {
      n := root;
      if n == null {
        return;
      }
      assert UpOk(n) && LeftOk(n) && RightOk(n);
      while n.right != null
        invariant n != null && n in nodes && n.hi == |order| && LeftOk(n) && RightOk(n)
        decreases n.hi - n.lo
      {
        n := n.right;
        assert LeftOk(n) && RightOk(n);
      }
    }

    method Next(node0: Node) returns (r: Node?)
      requires Linked() && Indexed() && (node0 in nodes || node0.parent == node0)
      ensures node0.parent == node0 ==> r == null
      ensures node0.parent != node0 ==> r == if node0.pos + 1 < |order| then order[node0.pos + 1] else null
    {
      var node := node0;
      if node.parent == node {
        return null;
      }
      assert LeftOk(node) && RightOk(node) && UpOk(node);
      if node.right != null {
        node := node.right;
        assert LeftOk(node) && RightOk(node);
        while node.left != null
          invariant node in nodes && node.lo == node0.pos + 1 && LeftOk(node) && RightOk(node)
          decreases node.hi - node.lo
        {
          node := node.left;
          assert LeftOk(node) && RightOk(node);
        }
        return node;
      }
      while node.parent != null && node == node.parent.right
        invariant node in nodes && node.hi == node0.pos + 1 && LeftOk(node) && RightOk(node) && UpOk(node)
        decreases node.lo
      {
        node := node.parent;
        assert LeftOk(node) && RightOk(node) && UpOk(node);
      }
      if node.parent != null {
        assert LeftOk(node.parent) && RightOk(node.parent);
      }
      return node.parent;
    }

    method Prev(node0: Node) returns (r: Node?)
      requires Linked() && Indexed() && (node0 in nodes || node0.parent == node0)
      ensures node0.parent == node0 ==> r == null
      ensures node0.parent != node0 ==> r == if node0.pos > 0 then order[node0.pos - 1] else null
    {
      var node := node0;
      if node.parent == node {
        return null;
      }
      assert LeftOk(node) && RightOk(node) && UpOk(node);
      if node.left != null {
        node := node.left;
        assert LeftOk(node) && RightOk(node);
        while node.right != null
          invariant node in nodes && node.hi == node0.pos && LeftOk(node) && RightOk(node)
          decreases node.hi - node.lo
        {
          node := node.right;
          assert LeftOk(node) && RightOk(node);
        }
        return node;
      }
      while node.parent != null && node == node.parent.left
        invariant node in nodes && node.lo == node0.pos && LeftOk(node) && RightOk(node) && UpOk(node)
        decreases |order| - node.hi
      {
        node := node.parent;
        assert LeftOk(node) && RightOk(node) && UpOk(node);
      }
      if node.parent != null {
        assert LeftOk(node.parent) && RightOk(node.parent);
      }
      return node.parent;
    }

    /** A node in the tree is never its own parent, the mark of a cleared node. */
    lemma NotCleared(n: Node)
      requires Linked() && n in nodes
      ensures n.parent != n
    {
      assert LeftOk(n) && RightOk(n) && UpOk(n);
    }

    /** `rb_prev` undoes `rb_next`. */
    method NextThenPrev(node: Node) returns (next: Node?, back: Node?)
      requires Linked() && Indexed() && node in nodes
      ensures node.pos + 1 < |order| ==> next != null && next == order[node.pos + 1] && back == node
      ensures node.pos + 1 == |order| ==> next == null
    {
      NotCleared(node);
      back := null;
      next := Next(node);
      if next != null {
        NotCleared(next);
        back := Prev(next);
      }
    }

    /** From `rb_first`, repeating `rb_next` until NULL visits exactly the in-order sequence. */
    method Walk() returns (visited: seq<Node>)
      requires Linked() && Indexed()
      ensures visited == order
    {
      visited := [];
      var n := First();
      while n != null
        invariant |visited| <= |order| && visited == order[..|visited|]
        invariant n == if |visited| < |order| then order[|visited|] else null
        decreases |order| - |visited|
      {
        NotCleared(n);
        visited := visited + [n];
        n := Next(n);
      }
    }
  }
}
