/**
  Insertion into the red-black tree: rb_link_node and the fix-up loop of
  rb_insert_color.
 */
module RbInsert {
  import opened RbSpec
  import opened RbFixup
  import opened RbTree

  /** rb_red_parent: only a red node's packed word is its parent's address. */
  function RedParent(red: RbNode): RbNode?
    requires red.color == Red
    reads red
  {
    red.parent
  }

  lemma OpenInsert(c: Context<RbNode>, t: Tree<RbNode>, root: RbRoot)
    requires Focus(c, t, root) && t.Node? && c != Top && c.up != Top
    ensures Rooted(t, c.node) && Linked(t.left, t.node) && Linked(t.right, t.node)
    ensures var s := if c.InLeft? then c.right else c.left; Linked(s, c.node)
    ensures if c.InLeft? then Rooted(Node(t, c.node, c.color, c.right), c.up.node)
            else Rooted(Node(c.left, c.node, c.color, t), c.up.node)
    ensures var s := if c.up.InLeft? then c.up.right else c.up.left; Linked(s, c.up.node)
    ensures c.up.node.color == c.up.color && c.up.node.parent == HoleParent(c.up.up)
    ensures if c.up.InLeft? then c.up.node.left == c.node && c.up.node.right == RootOf(c.up.right)
            else c.up.node.left == RootOf(c.up.left) && c.up.node.right == c.node
    ensures LinkedContext(c.up.up, root, c.up.node)
  {
    hide Nodes, ContextNodes, Separated, SeparatedContext;
    assert LinkedContext(c.up, root, c.node);
  }

  ghost predicate InsertParts(c: Context<RbNode>, t: Tree<RbNode>)
    requires t.Node? && c != Top && c.up != Top
  {
    var s, u, up := if c.InLeft? then c.right else c.left, if c.up.InLeft? then c.up.right else c.up.left, c.up.up;
    var p, g, n, l, r := c.node, c.up.node, t.node, t.left, t.right;
    p != g && p != n && g != n &&
    Separated(l) && Separated(r) && Separated(s) && Separated(u) && SeparatedContext(up) &&
    Nodes(l) !! Nodes(r) && Nodes(l) !! Nodes(s) && Nodes(l) !! Nodes(u) && Nodes(l) !! ContextNodes(up) &&
    Nodes(r) !! Nodes(s) && Nodes(r) !! Nodes(u) && Nodes(r) !! ContextNodes(up) &&
    Nodes(s) !! Nodes(u) && Nodes(s) !! ContextNodes(up) && Nodes(u) !! ContextNodes(up) &&
    Nodes(l) !! {p, g, n} && Nodes(r) !! {p, g, n} && Nodes(s) !! {p, g, n} && Nodes(u) !! {p, g, n} &&
    ContextNodes(up) !! {p, g, n} &&
    ContextNodes(c) + Nodes(t) == Nodes(l) + Nodes(r) + Nodes(s) + Nodes(u) + ContextNodes(up) + {p, g, n}
  }

  lemma OpenInsertParts(c: Context<RbNode>, t: Tree<RbNode>)
    requires t.Node? && c != Top && c.up != Top
    requires SeparatedContext(c) && Separated(t) && ContextNodes(c) !! Nodes(t)
    ensures InsertParts(c, t)
  {
    assert SeparatedContext(c.up);
  }

  /** The parts of the closing rotation, parent the left child of gparent. */
  lemma InsertPartsLeft(c: Context<RbNode>, t: Tree<RbNode>)
    requires t.Node? && c != Top && c.up.InLeft? && InsertParts(c, t)
    requires Separated(t)
    ensures c.InLeft? ==> RotationParts(c.up.up, t, c.node, c.right, c.up.node, c.up.right)
    ensures c.InRight? ==>
              RotationParts(c.up.up, Node(c.left, c.node, Red, t.left), t.node, t.right, c.up.node, c.up.right)
  {
  }

  /** ... and the right child. */
  lemma InsertPartsRight(c: Context<RbNode>, t: Tree<RbNode>)
    requires t.Node? && c != Top && c.up.InRight? && InsertParts(c, t)
    requires Separated(t)
    ensures c.InRight? ==> RotationParts(c.up.up, c.up.left, c.up.node, c.left, c.node, t)
    ensures c.InLeft? ==>
              RotationParts(c.up.up, c.up.left, c.up.node, t.left, t.node, Node(t.right, c.node, Red, c.right))
  {
  }

  /** Cases 2 and 3 with parent the left child of gparent. */
  method RotateInsertLeft(node: RbNode, parent0: RbNode, gparent: RbNode, root: RbRoot,
                          ghost c: Context<RbNode>, ghost t: Tree<RbNode>)
    requires Focus(c, t, root) && t.Node? && t.node == node && t.color == Red
    requires Sound(t) && SoundContext(c, BlackHeight(t)) && RedParentFrame(c) && c.node == parent0
    requires c.up.InLeft? && c.up.node == gparent
    modifies root`node, ContextNodes(c), Nodes(t)
    ensures Focus(c.up.up, RotatedInsert(c, t), root)
  {
    hide Nodes, ContextNodes, Linked, LinkedContext, Separated, SeparatedContext;
    var parent := parent0;
    var tmp := parent.right;
    ghost var up, u := c.up.up, c.up.right;
    ghost var a, b := t, if c.InLeft? then c.right else Leaf;
    OpenInsert(c, t, root);
    OpenInsertParts(c, t);
    InsertPartsLeft(c, t);
    if node == tmp {
      tmp := node.left;
      parent.right := tmp;
      node.left := parent;
      if tmp != null {
        UnfoldLinked(t.left, node);
        tmp.parent, tmp.color := parent, Black;
      }
      FoldLinked(t.left, parent);
      parent.parent, parent.color := node, Red;
      a, b := Node(c.left, parent, Red, t.left), t.right;
      FoldLinked(a, node);
      parent := node;
      tmp := node.right;
    } else {
      FoldLinked(t, parent);
    }
    RotateRight(gparent, parent, tmp, root, Red, true, up, a, b, u);
  }

  lemma FlippedInsertApart(c: Context<RbNode>, t: Tree<RbNode>)
    requires t.Node? && RedParentFrame(c) && SeparatedContext(c) && Separated(t) && ContextNodes(c) !! Nodes(t)
    ensures var r := FlippedInsert(c, t);
      SeparatedContext(c.up.up) && Separated(r) && ContextNodes(c.up.up) !! Nodes(r)
  {
    var r, u := FlippedInsert(c, t), if c.up.InLeft? then c.up.right else c.up.left;
    assert SeparatedContext(c.up);
    assert Nodes(Painted(u, Black)) == Nodes(u) && Separated(Painted(u, Black));
    assert Separated(r.left) && Separated(r.right);
  }

  /** Cases 2 and 3 with parent the right child of gparent. */
  method RotateInsertRight(node: RbNode, parent0: RbNode, gparent: RbNode, root: RbRoot,
                           ghost c: Context<RbNode>, ghost t: Tree<RbNode>)
    requires Focus(c, t, root) && t.Node? && t.node == node && t.color == Red
    requires Sound(t) && SoundContext(c, BlackHeight(t)) && RedParentFrame(c) && c.node == parent0
    requires c.up.InRight? && c.up.node == gparent
    modifies root`node, ContextNodes(c), Nodes(t)
    ensures Focus(c.up.up, RotatedInsert(c, t), root)
  {
    hide Nodes, ContextNodes, Linked, LinkedContext, Separated, SeparatedContext;
    var parent := parent0;
    var tmp := parent.left;
    ghost var up, u := c.up.up, c.up.left;
    ghost var b, d := if c.InRight? then c.left else Leaf, t;
    OpenInsert(c, t, root);
    OpenInsertParts(c, t);
    InsertPartsRight(c, t);
    if node == tmp {
      tmp := node.right;
      parent.left := tmp;
      node.right := parent;
      if tmp != null {
        UnfoldLinked(t.right, node);
        tmp.parent, tmp.color := parent, Black;
      }
      FoldLinked(t.right, parent);
      parent.parent, parent.color := node, Red;
      b, d := t.left, Node(t.right, parent, Red, c.right);
      FoldLinked(d, node);
      parent := node;
      tmp := node.left;
    } else {
      FoldLinked(t, parent);
    }
    RotateLeft(gparent, parent, tmp, root, Red, true, up, u, b, d);
  }

  /** Case 1, the same on both sides: parent and its sibling turn black, gparent red. */
  method FlipInsert(tmp: RbNode, parent: RbNode, gparent: RbNode, root: RbRoot,
                    ghost c: Context<RbNode>, ghost t: Tree<RbNode>)
    requires Focus(c, t, root) && t.Node? && RedParentFrame(c)
    requires c.node == parent && c.up.node == gparent
    requires tmp == if c.up.InLeft? then RootOf(c.up.right) else RootOf(c.up.left)
    modifies root`node, ContextNodes(c), Nodes(t)
    ensures Focus(c.up.up, FlippedInsert(c, t), root)
  {
    hide Nodes, ContextNodes, Linked, LinkedContext, Separated, SeparatedContext;
    ghost var up, u := c.up.up, if c.up.InLeft? then c.up.right else c.up.left;
    OpenInsert(c, t, root);
    OpenInsertParts(c, t);
    UnfoldLinked(u, gparent);
    tmp.parent, tmp.color := gparent, Black;
    parent.parent, parent.color := gparent, Black;
    gparent.color := Red;
    ghost var u' := Painted(u, Black);
    FoldLinked(u', gparent);
    FoldLinked(t, parent);
    ghost var p := if c.InLeft? then Node(t, parent, Black, c.right) else Node(c.left, parent, Black, t);
    FoldLinked(p, gparent);
    FoldLinked(FlippedInsert(c, t), HoleParent(up));
    FlippedInsertApart(c, t);
  }

  /** rb_link_node: hang a fresh red node into the empty slot of `c`. */
  method LinkNode(node: RbNode, parent: RbNode?, left: bool, root: RbRoot, ghost c: Context<RbNode>)
    requires Focus(c, Leaf, root) && parent == HoleParent(c) && (parent != null ==> left == c.InLeft?)
    requires node !in ContextNodes(c)
    modifies root`node, NodeSet(parent)`left, NodeSet(parent)`right, node
    ensures Focus(c, Node(Leaf, node, Red, Leaf), root)
  {
    node.parent, node.color := parent, Red;
    node.left, node.right := null, null;
    if parent == null {
      root.node := node;
    } else if left {
      parent.left := node;
    } else {
      parent.right := node;
    }
  }

  /** rb_set_parent_color(node, NULL, RB_BLACK) at the root. */
  method BlackenRoot(node: RbNode, root: RbRoot, ghost t: Tree<RbNode>)
    requires Focus(Top, t, root) && t.Node? && t.node == node
    modifies node
    ensures Focus(Top, Painted(t, Black), root)
  {
    node.parent, node.color := null, Black;
    PaintedRoot(t);
  }

  lemma LinkedOrder(c: Context<RbNode>, node: RbNode)
    ensures var t := Node(Leaf, node, Red, Leaf);
      Inorder(Plug(c, t)) == Before(c) + [node] + After(c) && Nodes(Plug(c, t)) == ContextNodes(c) + {node}
  {
    var t := Node(Leaf, node, Red, Leaf);
    PlugInorder(c, t);
    PlugNodes(c, t);
  }

  lemma FreshNodeSound(c: Context<RbNode>, node: RbNode)
    requires RedBlack(Plug(c, Leaf))
    ensures var t := Node(Leaf, node, Red, Leaf); Sound(t) && SoundContext(c, BlackHeight(t))
  {
    PlugRedBlack(c, Leaf);
  }

  lemma GrandparentFields(c: Context<RbNode>, t: Tree<RbNode>, root: RbRoot)
    requires Focus(c, t, root) && t.Node? && RedParentFrame(c)
    ensures c.node.parent == c.up.node && c.node.color == Red
    ensures c.up.InLeft? <==> c.node != c.up.node.right
  {
    OpenInsert(c, t, root);
    OpenInsertParts(c, t);
  }

  /** The body of the loop when parent is the left child of gparent. `done` ends the loop. */
  method FixInsertLeft(node: RbNode, parent: RbNode, gparent: RbNode, root: RbRoot,
                       ghost c: Context<RbNode>, ghost t: Tree<RbNode>)
    returns (done: bool)
    requires Focus(c, t, root) && t.Node? && t.node == node && t.color == Red
    requires Sound(t) && SoundContext(c, BlackHeight(t)) && RedParentFrame(c) && c.node == parent
    requires c.up.InLeft? && c.up.node == gparent
    modifies root`node, ContextNodes(c), Nodes(t)
    ensures Focus(c.up.up, InsertStep(c, t), root)
    ensures done == BlackRoot(Uncle(c))
  {
    hide Linked, LinkedContext, Separated, SeparatedContext, ContextNodes, Nodes;
    OpenInsert(c, t, root);
    LinkedColor(Uncle(c), gparent);
    var tmp := gparent.right;
    done := tmp == null || tmp.color != Red;
    if !done {
      FlipInsert(tmp, parent, gparent, root, c, t);
    } else {
      RotateInsertLeft(node, parent, gparent, root, c, t);
    }
  }

  /** The body of the loop when parent is the right child of gparent. `done` ends the loop. */
  method FixInsertRight(node: RbNode, parent: RbNode, gparent: RbNode, root: RbRoot,
                       ghost c: Context<RbNode>, ghost t: Tree<RbNode>)
    returns (done: bool)
    requires Focus(c, t, root) && t.Node? && t.node == node && t.color == Red
    requires Sound(t) && SoundContext(c, BlackHeight(t)) && RedParentFrame(c) && c.node == parent
    requires c.up.InRight? && c.up.node == gparent
    modifies root`node, ContextNodes(c), Nodes(t)
    ensures Focus(c.up.up, InsertStep(c, t), root)
    ensures done == BlackRoot(Uncle(c))
  {
    hide Linked, LinkedContext, Separated, SeparatedContext, ContextNodes, Nodes;
    OpenInsert(c, t, root);
    LinkedColor(Uncle(c), gparent);
    var tmp := gparent.left;
    done := tmp == null || tmp.color != Red;
    if !done {
      FlipInsert(tmp, parent, gparent, root, c, t);
    } else {
      RotateInsertRight(node, parent, gparent, root, c, t);
    }
  }

  /** rb_insert_color on the node linked at `c0`. */
  method InsertColor(node0: RbNode, root: RbRoot, ghost c0: Context<RbNode>)
    requires Focus(c0, Node(Leaf, node0, Red, Leaf), root) && RedBlack(Plug(c0, Leaf))
    modifies root, ContextNodes(c0), node0
    ensures root.Valid()
    ensures Inorder(root.tree) == Before(c0) + [node0] + After(c0)
    ensures Nodes(root.tree) == ContextNodes(c0) + {node0}
  {
    hide Linked, LinkedContext, Separated, SeparatedContext, ContextNodes, Nodes, Inorder, BlackHeight, Balanced,
      NoRedRed, Before, After, InsertStep, Painted;
    ghost var c, t := c0, Node(Leaf, node0, Red, Leaf);
    ghost var linked := Plug(c, t);
    CursorFields(c, t, root);
    LinkedOrder(c, node0);
    FreshNodeSound(c, node0);
    var node, parent := node0, RedParent(node0);
    while true
      invariant Focus(c, t, root) && t.Node? && t.node == node && t.color == Red && parent == HoleParent(c)
      invariant Sound(t) && SoundContext(c, BlackHeight(t))
      invariant Inorder(Plug(c, t)) == Inorder(linked)
      decreases c
    {
      PlugRedBlack(c, t);
      CursorFields(c, t, root);
      SameOrderSameNodes(Plug(c, t), linked);
      PlugNodes(c, t);
      if parent == null {
        BlackenRoot(node, root, t);
        PaintedRoot(t);
        t := Painted(t, Black);
        break;
      } else if parent.color == Black {
        break;
      }
      GrandparentFields(c, t, root);
      var gparent := RedParent(parent);
      ghost var next := InsertStep(c, t);
      var done;
      if parent != gparent.right {
        done := FixInsertLeft(node, parent, gparent, root, c, t);
      } else {
        done := FixInsertRight(node, parent, gparent, root, c, t);
      }
      InsertStepCorrect(c, t);
      c, t := c.up.up, next;
      if done {
        break;
      }
      CursorFields(c, t, root);
      node, parent := gparent, gparent.parent;
    }
    root.tree := Plug(c, t);
    FocusIffPlugged(c, t, root);
    PlugRedBlack(c, t);
    SameOrderSameNodes(root.tree, linked);
  }
}
