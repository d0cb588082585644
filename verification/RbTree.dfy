/**
  The nodes of the intrusive red-black tree of util/rbtree.c, linked by parent, left
  and right pointers: which tree the links represent, and rotations in place.
 */
module RbTree {
  import opened RbSpec
  import opened RbFixup

  /**
    struct rb_node. The source packs the colour into the low bit of the parent
    word; here the two halves are separate fields. `entry` is what rb_entry
    (container_of) recovers from the node's address.
   */
  class RbNode {
    const entry: object?
    var color: Color
    var parent: RbNode?
    var left: RbNode?
    var right: RbNode?

    /** RB_CLEAR_NODE: a node outside any tree is its own red parent. */
    constructor (entry: object?)
      ensures this.entry == entry && IsCleared() && left == null && right == null
    {
      this.entry := entry;
      color := Red;
      left, right := null, null;
      new;
      parent := this;
    }

    /** RB_EMPTY_NODE */
    predicate IsCleared()
      reads this
    {
      parent == this && color == Red
    }
  }

  /** struct rb_root, with the abstract tree it holds. */
  class RbRoot {
    var node: RbNode?
    ghost var tree: Tree<RbNode>

    constructor ()
      ensures Valid() && tree == Leaf
    {
      node := null;
      tree := Leaf;
    }

    ghost predicate Valid()
      reads this, Nodes(tree)
    {
      Focus(Top, tree, this) && RedBlack(tree)
    }
  }

  // ---------------------------------------------------------------------
  // Heap shape
  // ---------------------------------------------------------------------

  ghost function RootOf(t: Tree<RbNode>): (n: RbNode?)
    ensures n != null ==> n in Nodes(t)
  {
    if t.Leaf? then null else t.node
  }

  ghost function HoleParent(c: Context<RbNode>): (n: RbNode?)
    ensures n != null ==> n in ContextNodes(c)
  {
    if c.Top? then null else c.node
  }

  /** The singleton of a non-null pointer, for frames. */
  ghost function NodeSet(n: RbNode?): set<RbNode> {
    if n == null then {} else {n}
  }

  /** The nodes of `t` carry its links and colours, and its root's parent is `p`. */
  ghost predicate Linked(t: Tree<RbNode>, p: RbNode?)
    reads Nodes(t)
  {
    match t
    case Leaf => true
    case Node(l, x, c, r) =>
      x.color == c && x.parent == p && x.left == RootOf(l) && x.right == RootOf(r) && Linked(l, x) && Linked(r, x)
  }

  /** The nodes around the hole carry the context, and the hole is filled by `hole`. */
  ghost predicate LinkedContext(c: Context<RbNode>, root: RbRoot, hole: RbNode?)
    reads root`node, ContextNodes(c)
  {
    match c
    case Top => root.node == hole
    case InLeft(x, col, s, up) =>
      x.color == col && x.parent == HoleParent(up) && x.left == hole && x.right == RootOf(s) &&
      Linked(s, x) && LinkedContext(up, root, x)
    case InRight(s, x, col, up) =>
      x.color == col && x.parent == HoleParent(up) && x.left == RootOf(s) && x.right == hole &&
      Linked(s, x) && LinkedContext(up, root, x)
  }

  /** The heap holds `t` in the hole of `c`, no node twice. */
  ghost predicate Focus(c: Context<RbNode>, t: Tree<RbNode>, root: RbRoot)
    reads root`node, ContextNodes(c), Nodes(t)
  {
    Linked(t, HoleParent(c)) && LinkedContext(c, root, RootOf(t)) &&
    SeparatedContext(c) && Separated(t) && ContextNodes(c) !! Nodes(t)
  }

  /** What a valid tree means for the nodes themselves: no red node has a red child, and every child names its parent. */
  ghost predicate NodeFits(n: RbNode, nodes: set<RbNode>)
    reads n, nodes
  {
    (n.left != null ==> n.left in nodes && n.left.parent == n && (n.color == Red ==> n.left.color == Black)) &&
    (n.right != null ==> n.right in nodes && n.right.parent == n && (n.color == Red ==> n.right.color == Black)) &&
    (n.left != null ==> n.left != n.right)
  }

  lemma {:induction false} LinkedNodesFit(t: Tree<RbNode>, p: RbNode?, nodes: set<RbNode>)
    requires Linked(t, p) && NoRedRed(t) && Separated(t) && Nodes(t) <= nodes
    ensures forall n :: n in Nodes(t) ==> NodeFits(n, nodes)
  {
    if t.Node? {
      LinkedNodesFit(t.left, t.node, nodes);
      LinkedNodesFit(t.right, t.node, nodes);
      RootLinked(t.left, t.node);
      RootLinked(t.right, t.node);
    }
  }

  lemma RootLinked(t: Tree<RbNode>, p: RbNode?)
    requires Linked(t, p)
    ensures var n := RootOf(t); n != null ==> n in Nodes(t) && n.parent == p && n.color == t.color
  {
  }

  lemma ValidOnNodes(root: RbRoot)
    requires root.Valid()
    ensures root.node == null <==> Nodes(root.tree) == {}
    ensures root.node != null ==> root.node in Nodes(root.tree) && root.node.parent == null && root.node.color == Black
    ensures forall n :: n in Nodes(root.tree) ==> NodeFits(n, Nodes(root.tree))
  {
    LinkedNodesFit(root.tree, null, Nodes(root.tree));
    RootLinked(root.tree, null);
  }

  lemma {:induction false} FocusIffPlugged(c: Context<RbNode>, t: Tree<RbNode>, root: RbRoot)
    ensures Focus(c, t, root) <==> Focus(Top, Plug(c, t), root)
    decreases c
  {
    PlugNodes(c, t);
    match c
    case Top =>
    case InLeft(x, col, r, up) =>
      FocusIffPlugged(up, Node(t, x, col, r), root);
    case InRight(l, x, col, up) =>
      FocusIffPlugged(up, Node(l, x, col, t), root);
  }

  // ---------------------------------------------------------------------
  // Shared helpers
  // ---------------------------------------------------------------------

  /** __rb_change_child */
  method ChangeChild(old_: RbNode, new_: RbNode?, parent: RbNode?, root: RbRoot, ghost c: Context<RbNode>)
    requires parent == HoleParent(c)
    requires LinkedContext(c, root, old_) && SeparatedContext(c) && old_ !in ContextNodes(c)
    modifies root`node, NodeSet(parent)`left, NodeSet(parent)`right
    ensures LinkedContext(c, root, new_)
  {
    if parent != null {
      if parent.left == old_ {
        parent.left := new_;
      } else {
        parent.right := new_;
      }
    } else {
      root.node := new_;
    }
  }

  /** __rb_rotate_set_parents: `new_` takes over the place of `old_`, which becomes its child. */
  method RotateSetParents(old_: RbNode, new_: RbNode, root: RbRoot, color: Color, ghost c: Context<RbNode>)
    requires old_.parent == HoleParent(c) && old_ != new_
    requires LinkedContext(c, root, old_) && SeparatedContext(c)
    requires old_ !in ContextNodes(c) && new_ !in ContextNodes(c)
    modifies root`node, NodeSet(HoleParent(c))`left, NodeSet(HoleParent(c))`right, old_`parent, old_`color, new_`parent, new_`color
    ensures LinkedContext(c, root, new_)
    ensures new_.parent == HoleParent(c) && new_.color == old(old_.color)
    ensures old_.parent == new_ && old_.color == color
  {
    var parent := old_.parent;
    new_.parent, new_.color := old_.parent, old_.color;
    old_.parent, old_.color := new_, color;
    ChangeChild(old_, new_, parent, root, c);
  }

  /** The three subtrees of a rotation at `x` and `y` and the context around it, all disjoint. */
  ghost predicate RotationParts(c: Context<RbNode>, a: Tree<RbNode>, x: RbNode, b: Tree<RbNode>, y: RbNode, d: Tree<RbNode>) {
    SeparatedContext(c) && Separated(a) && Separated(b) && Separated(d) &&
    x != y && Outside(x, c, a, b, d) && Outside(y, c, a, b, d) &&
    ContextNodes(c) !! Nodes(a) && ContextNodes(c) !! Nodes(b) && ContextNodes(c) !! Nodes(d) &&
    Nodes(a) !! Nodes(b) && Nodes(a) !! Nodes(d) && Nodes(b) !! Nodes(d)
  }

  ghost predicate Outside(x: RbNode, c: Context<RbNode>, a: Tree<RbNode>, b: Tree<RbNode>, d: Tree<RbNode>) {
    x !in ContextNodes(c) && x !in Nodes(a) && x !in Nodes(b) && x !in Nodes(d)
  }

  lemma PartsSeparated(c: Context<RbNode>, a: Tree<RbNode>, x: RbNode, b: Tree<RbNode>, y: RbNode, d: Tree<RbNode>,
                       xc: Color, yc: Color)
    requires RotationParts(c, a, x, b, y, d)
    ensures var t := Node(a, x, xc, Node(b, y, yc, d)); Separated(t) && ContextNodes(c) !! Nodes(t)
    ensures var t := Node(Node(a, x, xc, b), y, yc, d); Separated(t) && ContextNodes(c) !! Nodes(t)
  {
    assert Nodes(Node(b, y, yc, d)) == Nodes(b) + {y} + Nodes(d);
    assert Nodes(Node(a, x, xc, b)) == Nodes(a) + {x} + Nodes(b);
  }

  /** A node whose fields say it roots `t` under `p`. */
  ghost predicate Rooted(t: Tree<RbNode>, p: RbNode?)
    requires t.Node?
    reads t.node
  {
    t.node.color == t.color && t.node.parent == p && t.node.left == RootOf(t.left) && t.node.right == RootOf(t.right)
  }

  lemma FoldLinked(t: Tree<RbNode>, p: RbNode?)
    requires t.Node? ==> Rooted(t, p) && Linked(t.left, t.node) && Linked(t.right, t.node)
    ensures Linked(t, p)
  {
  }

  /** A tree's root is not below itself. */
  lemma TopApart(t: Tree<RbNode>)
    requires t.Node? && Separated(t)
    ensures t.node !in Nodes(t.left) && t.node !in Nodes(t.right) && t.node in Nodes(t)
    ensures Nodes(t.left) <= Nodes(t) && Nodes(t.right) <= Nodes(t)
  {
  }

  lemma UnfoldLinked(t: Tree<RbNode>, p: RbNode?)
    requires Linked(t, p) && t.Node? && Separated(t)
    ensures Rooted(t, p) && Linked(t.left, t.node) && Linked(t.right, t.node)
    ensures t.node !in Nodes(t.left) && t.node !in Nodes(t.right) && t.node in Nodes(t)
    ensures Nodes(t.left) <= Nodes(t) && Nodes(t.right) <= Nodes(t)
  {
  }

  lemma LinkedRight(t: Tree<RbNode>, p: RbNode?)
    requires t.Node? && t.right.Node?
    requires var x := t.node; x.color == t.color && x.parent == p && x.left == RootOf(t.left) && x.right == t.right.node
    requires var y := t.right.node;
      y.color == t.right.color && y.parent == t.node && y.left == RootOf(t.right.left) && y.right == RootOf(t.right.right)
    requires Linked(t.left, t.node) && Linked(t.right.left, t.right.node) && Linked(t.right.right, t.right.node)
    ensures Linked(t, p)
  {
  }

  lemma LinkedLeft(t: Tree<RbNode>, p: RbNode?)
    requires t.Node? && t.left.Node?
    requires var y := t.node; y.color == t.color && y.parent == p && y.left == t.left.node && y.right == RootOf(t.right)
    requires var x := t.left.node;
      x.color == t.left.color && x.parent == t.node && x.left == RootOf(t.left.left) && x.right == RootOf(t.left.right)
    requires Linked(t.left.left, t.left.node) && Linked(t.left.right, t.left.node) && Linked(t.right, t.node)
    ensures Linked(t, p)
  {
  }

  /**
    The closing steps that cases 3 of insertion and 1 and 4 of removal share:
    `y` comes up over its parent `x`, handing its inner subtree `tmp` to `x`.
    `blacken` tells rb_set_parent_color(tmp, x, RB_BLACK) from rb_set_parent(tmp, x).
   */
  method RotateRight(x: RbNode, y: RbNode, tmp: RbNode?, root: RbRoot, color: Color, blacken: bool,
                     ghost c: Context<RbNode>, ghost a: Tree<RbNode>, ghost b: Tree<RbNode>, ghost d: Tree<RbNode>)
    requires RotationParts(c, a, y, b, x, d) && (blacken ==> BlackRoot(b))
    requires y.left == RootOf(a) && Linked(a, y)
    requires tmp == RootOf(b) && Linked(b, y)
    requires x.right == RootOf(d) && Linked(d, x)
    requires x.parent == HoleParent(c) && LinkedContext(c, root, x)
    modifies root`node, NodeSet(HoleParent(c))`left, NodeSet(HoleParent(c))`right, x, y, NodeSet(tmp)`parent, NodeSet(tmp)`color
    ensures Focus(c, Node(a, y, old(x.color), Node(b, x, color, d)), root)
  {
    hide Nodes, ContextNodes, Linked, LinkedContext, Separated, SeparatedContext;
    PartsSeparated(c, a, y, b, x, d, x.color, color);
    x.left := tmp;
    y.right := x;
    if tmp != null {
      UnfoldLinked(b, y);
      tmp.parent, tmp.color := x, if blacken then Black else tmp.color;
    }
    FoldLinked(b, x);
    assert allocated(Nodes(a)) && allocated(Nodes(b)) && allocated(Nodes(d));
    RotateSetParents(x, y, root, color, c);
    LinkedRight(Node(a, y, y.color, Node(b, x, color, d)), y.parent);
  }

  /** The mirror image. */
  method RotateLeft(x: RbNode, y: RbNode, tmp: RbNode?, root: RbRoot, color: Color, blacken: bool,
                    ghost c: Context<RbNode>, ghost a: Tree<RbNode>, ghost b: Tree<RbNode>, ghost d: Tree<RbNode>)
    requires RotationParts(c, a, x, b, y, d) && (blacken ==> BlackRoot(b))
    requires x.left == RootOf(a) && Linked(a, x)
    requires tmp == RootOf(b) && Linked(b, y)
    requires y.right == RootOf(d) && Linked(d, y)
    requires x.parent == HoleParent(c) && LinkedContext(c, root, x)
    modifies root`node, NodeSet(HoleParent(c))`left, NodeSet(HoleParent(c))`right, x, y, NodeSet(tmp)`parent, NodeSet(tmp)`color
    ensures Focus(c, Node(Node(a, x, color, b), y, old(x.color), d), root)
  {
    hide Nodes, ContextNodes, Linked, LinkedContext, Separated, SeparatedContext;
    PartsSeparated(c, a, x, b, y, d, color, x.color);
    x.right := tmp;
    y.left := x;
    if tmp != null {
      UnfoldLinked(b, y);
      tmp.parent, tmp.color := x, if blacken then Black else tmp.color;
    }
    FoldLinked(b, x);
    assert allocated(Nodes(a)) && allocated(Nodes(b)) && allocated(Nodes(d));
    RotateSetParents(x, y, root, color, c);
    LinkedLeft(Node(Node(a, x, color, b), y, y.color, d), y.parent);
  }

  /** What the fields of a cursor and of its parent say. */
  lemma CursorFields(c: Context<RbNode>, t: Tree<RbNode>, root: RbRoot)
    requires Focus(c, t, root) && t.Node?
    ensures Rooted(t, HoleParent(c)) && t.node in Nodes(t)
    ensures c != Top ==> c.node.color == c.color && c.node.parent == HoleParent(c.up)
  {
  }

  lemma LinkedColor(t: Tree<RbNode>, p: RbNode?)
    requires Linked(t, p)
    ensures BlackRoot(t) <==> RootOf(t) == null || RootOf(t).color == Black
  {
  }

  lemma PaintedRoot(t: Tree<RbNode>)
    requires t.Node?
    ensures Nodes(Painted(t, Black)) == Nodes(t) && (Separated(t) ==> Separated(Painted(t, Black)))
    ensures Inorder(Painted(t, Black)) == Inorder(t)
    ensures Sound(t) ==> RedBlack(Painted(t, Black))
  {
  }

  lemma OpenNode(c: Context<RbNode>, n: Tree<RbNode>, root: RbRoot)
    requires Focus(c, n, root) && n.Node?
    ensures Rooted(n, HoleParent(c)) && LinkedContext(c, root, n.node)
    ensures Linked(n.left, n.node) && Linked(n.right, n.node)
  {
  }

  lemma NodeApart(c: Context<RbNode>, n: Tree<RbNode>)
    requires n.Node? && SeparatedContext(c) && Separated(n) && ContextNodes(c) !! Nodes(n)
    ensures Separated(n.left) && Separated(n.right)
    ensures n.node !in Nodes(n.left) && n.node !in Nodes(n.right) && n.node !in ContextNodes(c) && n.node in Nodes(n)
    ensures Nodes(n.left) !! Nodes(n.right) && Nodes(n.left) !! ContextNodes(c) && Nodes(n.right) !! ContextNodes(c)
    ensures Nodes(n.left) <= Nodes(n) && Nodes(n.right) <= Nodes(n)
  {
  }
}
