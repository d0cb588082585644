/**
  Removal from the red-black tree: the structural cases of __rb_erase_augmented
  and the fix-up loop of ____rb_erase_color.
 */
module RbErase {
  import opened RbSpec
  import opened RbFixup
  import opened RbTree

  // ---------------------------------------------------------------------
  // The fix-up loop
  // ---------------------------------------------------------------------

  lemma OpenSibling(c: Context<RbNode>, t: Tree<RbNode>, root: RbRoot)
    requires Focus(c, t, root) && c != Top && Sibling(c).Node?
    ensures c.node.color == c.color && c.node.parent == HoleParent(c.up) && LinkedContext(c.up, root, c.node)
    ensures if c.InLeft? then c.node.left == RootOf(t) && c.node.right == c.right.node
            else c.node.left == c.left.node && c.node.right == RootOf(t)
    ensures Linked(t, c.node) && Linked(Sibling(c), c.node) && Rooted(Sibling(c), c.node)
    ensures Linked(Sibling(c).left, Sibling(c).node) && Linked(Sibling(c).right, Sibling(c).node)
  {
  }

  lemma SiblingPartsLeft(c: Context<RbNode>, t: Tree<RbNode>)
    requires c.InLeft? && Sibling(c).Node?
    requires SeparatedContext(c) && Separated(t) && ContextNodes(c) !! Nodes(t)
    ensures RotationParts(c.up, t, c.node, Sibling(c).left, Sibling(c).node, Sibling(c).right)
    ensures Nodes(Sibling(c)) <= ContextNodes(c) && ContextNodes(c.up) <= ContextNodes(c) && c.node in ContextNodes(c)
    ensures Nodes(Sibling(c).left) <= Nodes(Sibling(c)) && Nodes(Sibling(c).right) <= Nodes(Sibling(c))
    ensures Sibling(c).node in Nodes(Sibling(c))
  {
  }

  lemma SiblingPartsRight(c: Context<RbNode>, t: Tree<RbNode>)
    requires c.InRight? && Sibling(c).Node?
    requires SeparatedContext(c) && Separated(t) && ContextNodes(c) !! Nodes(t)
    ensures RotationParts(c.up, Sibling(c).left, Sibling(c).node, Sibling(c).right, c.node, t)
    ensures Nodes(Sibling(c)) <= ContextNodes(c) && ContextNodes(c.up) <= ContextNodes(c) && c.node in ContextNodes(c)
    ensures Nodes(Sibling(c).left) <= Nodes(Sibling(c)) && Nodes(Sibling(c).right) <= Nodes(Sibling(c))
    ensures Sibling(c).node in Nodes(Sibling(c))
  {
  }

  /** Case 1, node on the left: a red sibling comes up, its near child is the new sibling. */
  method RotateSiblingLeft(parent: RbNode, sibling: RbNode, root: RbRoot, ghost c: Context<RbNode>, ghost t: Tree<RbNode>)
    returns (tmp1: RbNode)
    requires Focus(c, t, root) && OneShort(c, t) && c.InLeft? && !BlackRoot(c.right)
    requires parent == c.node && sibling == c.right.node
    modifies root`node, ContextNodes(c), Nodes(t)
    ensures Focus(RotatedSibling(c), t, root) && tmp1 == RootOf(Sibling(RotatedSibling(c)))
  {
    hide Nodes, ContextNodes, Linked, LinkedContext, Separated, SeparatedContext;
    ghost var s := c.right;
    OpenSibling(c, t, root);
    SiblingPartsLeft(c, t);
    RotatedSiblingCorrect(c, t);
    tmp1 := sibling.left;
    ghost var r := RotatedSibling(c);
    assert Plug(r, t) == Plug(c.up, Node(Node(t, parent, Red, s.left), sibling, c.color, s.right));
    RotateLeft(parent, sibling, tmp1, root, Red, true, c.up, t, s.left, s.right);
    FocusIffPlugged(r, t, root);
    FocusIffPlugged(c.up, Node(Node(t, parent, Red, s.left), sibling, c.color, s.right), root);
  }

  /** Case 1, node on the right. */
  method RotateSiblingRight(parent: RbNode, sibling: RbNode, root: RbRoot, ghost c: Context<RbNode>, ghost t: Tree<RbNode>)
    returns (tmp1: RbNode)
    requires Focus(c, t, root) && OneShort(c, t) && c.InRight? && !BlackRoot(c.left)
    requires parent == c.node && sibling == c.left.node
    modifies root`node, ContextNodes(c), Nodes(t)
    ensures Focus(RotatedSibling(c), t, root) && tmp1 == RootOf(Sibling(RotatedSibling(c)))
  {
    hide Nodes, ContextNodes, Linked, LinkedContext, Separated, SeparatedContext;
    ghost var s := c.left;
    OpenSibling(c, t, root);
    SiblingPartsRight(c, t);
    RotatedSiblingCorrect(c, t);
    tmp1 := sibling.right;
    ghost var r := RotatedSibling(c);
    assert Plug(r, t) == Plug(c.up, Node(s.left, sibling, c.color, Node(s.right, parent, Red, t)));
    RotateRight(parent, sibling, tmp1, root, Red, true, c.up, s.left, s.right, t);
    FocusIffPlugged(r, t, root);
    FocusIffPlugged(c.up, Node(s.left, sibling, c.color, Node(s.right, parent, Red, t)), root);
  }

  lemma FlippedEraseApart(c: Context<RbNode>, t: Tree<RbNode>)
    requires c != Top && SeparatedContext(c) && Separated(t) && ContextNodes(c) !! Nodes(t)
    ensures var r := FlippedErase(c, t);
      SeparatedContext(c.up) && Separated(r) && ContextNodes(c.up) !! Nodes(r)
    ensures Sibling(c).Node? ==>
              Sibling(c).node !in Nodes(Sibling(c).left) && Sibling(c).node !in Nodes(Sibling(c).right) &&
              Sibling(c).node !in Nodes(t) && Sibling(c).node !in ContextNodes(c.up) && Sibling(c).node != c.node &&
              Sibling(c).node in ContextNodes(c) && c.node in ContextNodes(c) &&
              c.node !in Nodes(Sibling(c).left) && c.node !in Nodes(Sibling(c).right) && c.node !in Nodes(t) &&
              c.node !in ContextNodes(c.up)
  {
  }

  /** Case 2, the same on both sides: the sibling turns red, a red parent black. */
  method FlipErase(parent: RbNode, sibling: RbNode, root: RbRoot, ghost c: Context<RbNode>, ghost t: Tree<RbNode>)
    requires Focus(c, t, root) && c != Top && Sibling(c).Node?
    requires parent == c.node && sibling == Sibling(c).node
    modifies root`node, ContextNodes(c), Nodes(t)
    ensures Focus(c.up, FlippedErase(c, t), root)
  {
    hide Nodes, ContextNodes, Linked, LinkedContext, Separated, SeparatedContext;
    OpenSibling(c, t, root);
    FlippedEraseApart(c, t);
    sibling.parent, sibling.color := parent, Red;
    if parent.color == Red {
      parent.color := Black;
    }
    FoldLinked(Painted(Sibling(c), Red), parent);
    FoldLinked(FlippedErase(c, t), HoleParent(c.up));
  }

  /** The parts of the closing rotation when the near child comes up first (case 3). */
  lemma NearParts(c: Context<RbNode>, t: Tree<RbNode>)
    requires c != Top && Sibling(c).Node? && Near(c).Node?
    requires SeparatedContext(c) && Separated(t) && ContextNodes(c) !! Nodes(t)
    ensures var s, n := Sibling(c), Near(c);
      if c.InLeft? then
        RotationParts(c.up, t, c.node, n.left, n.node, Node(n.right, s.node, Black, s.right))
      else
        RotationParts(c.up, Node(s.left, s.node, Black, n.left), n.node, n.right, c.node, t)
    ensures var n := Near(c); Separated(n.left) && Separated(n.right) && Separated(Far(c))
    ensures var s, n, f := Sibling(c).node, Near(c), Far(c);
      s != n.node && s !in Nodes(n.left) && s !in Nodes(n.right) && s !in Nodes(f) && s !in Nodes(t) && s != c.node &&
      n.node !in Nodes(f) && n.node !in Nodes(n.left) && n.node !in Nodes(n.right) &&
      c.node !in Nodes(f) && c.node !in Nodes(n.left) && c.node !in Nodes(n.right) &&
      Nodes(n.left) !! Nodes(n.right) && Nodes(n.left) !! Nodes(f) && Nodes(n.right) !! Nodes(f) &&
      s in ContextNodes(c) && n.node in ContextNodes(c) && Nodes(n.left) <= ContextNodes(c) && Nodes(n.right) <= ContextNodes(c)
  {
    var s, n := Sibling(c), Near(c);
    assert Separated(s) && Separated(n);
    assert Nodes(s) == Nodes(s.left) + {s.node} + Nodes(s.right);
    var outer := if c.InLeft? then Node(n.right, s.node, Black, s.right) else Node(s.left, s.node, Black, n.left);
    assert Nodes(outer) == Nodes(outer.left) + {s.node} + Nodes(outer.right);
    assert Nodes(n) == Nodes(n.left) + {n.node} + Nodes(n.right);
  }

  /** Case 3 applies: the near child is red, so its own children are black. */
  lemma RedNear(c: Context<RbNode>, t: Tree<RbNode>)
    requires OneShort(c, t) && c != Top && Sibling(c).Node? && !BlackRoot(Near(c))
    ensures Near(c).Node? && BlackRoot(Near(c).left) && BlackRoot(Near(c).right)
  {
    assert NoRedRed(Sibling(c)) && NoRedRed(Near(c));
  }

  lemma PaintedParts(c: Context<RbNode>, t: Tree<RbNode>)
    requires c != Top && Sibling(c).Node? && Far(c).Node?
    requires SeparatedContext(c) && Separated(t) && ContextNodes(c) !! Nodes(t)
    ensures var s := Sibling(c);
      if c.InLeft? then RotationParts(c.up, t, c.node, s.left, s.node, Painted(s.right, Black))
      else RotationParts(c.up, Painted(s.left, Black), s.node, s.right, c.node, t)
  {
    if c.InLeft? {
      SiblingPartsLeft(c, t);
    } else {
      SiblingPartsRight(c, t);
    }
    PaintedRoot(Far(c));
  }

  /** Case 4, node on the left: `tmp1`, below sibling on the far side, turns black and sibling comes up. */
  method CloseEraseLeft(parent: RbNode, sibling: RbNode, tmp1: RbNode, root: RbRoot,
                        ghost up: Context<RbNode>, ghost t: Tree<RbNode>, ghost b: Tree<RbNode>, ghost d: Tree<RbNode>)
    requires RotationParts(up, t, parent, b, sibling, d) && d.Node? && d.node == tmp1 && d.color == Black
    requires parent.left == RootOf(t) && Linked(t, parent)
    requires sibling.left == RootOf(b) && Linked(b, sibling)
    requires sibling.right == tmp1 && tmp1.left == RootOf(d.left) && tmp1.right == RootOf(d.right)
    requires Linked(d.left, tmp1) && Linked(d.right, tmp1)
    requires parent.parent == HoleParent(up) && LinkedContext(up, root, parent)
    modifies root`node, ContextNodes(up), parent, sibling, tmp1, Nodes(b)
    ensures Focus(up, Node(Node(t, parent, Black, b), sibling, old(parent.color), d), root)
  {
    hide Nodes, ContextNodes, Linked, LinkedContext, Separated, SeparatedContext;
    var tmp2 := sibling.left;
    TopApart(d);
    tmp1.parent, tmp1.color := sibling, Black;
    FoldLinked(d, sibling);
    RotateLeft(parent, sibling, tmp2, root, Black, false, up, t, b, d);
  }

  /** Cases 3 and 4, node on the left. */
  method RotateEraseLeft(parent: RbNode, sibling0: RbNode, root: RbRoot, ghost c: Context<RbNode>, ghost t: Tree<RbNode>)
    requires Focus(c, t, root) && OneShort(c, t) && c.InLeft? && c.right.Node? && BlackRoot(c.right)
    requires !(BlackRoot(Far(c)) && BlackRoot(Near(c)))
    requires parent == c.node && sibling0 == c.right.node
    modifies root`node, ContextNodes(c), Nodes(t)
    ensures Focus(c.up, RotatedErase(c, t), root)
  {
    hide Nodes, ContextNodes, Linked, LinkedContext, Separated, SeparatedContext;
    ghost var s, n, f := c.right, Near(c), Far(c);
    var sibling, tmp1 := sibling0, sibling0.right;
    OpenSibling(c, t, root);
    SiblingPartsLeft(c, t);
    LinkedColor(f, sibling);
    LinkedColor(n, sibling);
    ghost var b, d := n, Painted(f, Black);
    if tmp1 == null || tmp1.color == Black {
      var tmp2 := sibling.left;
      RedNear(c, t);
      NearParts(c, t);
      UnfoldLinked(n, sibling);
      tmp1 := tmp2.right;
      sibling.left := tmp1;
      tmp2.right := sibling;
      parent.right := tmp2;
      if tmp1 != null {
        UnfoldLinked(n.right, tmp2);
        tmp1.parent, tmp1.color := sibling, Black;
      }
      FoldLinked(n.right, sibling);
      tmp1 := sibling;
      sibling := tmp2;
      b, d := n.left, Node(n.right, s.node, Black, f);
    } else {
      PaintedParts(c, t);
      UnfoldLinked(f, sibling);
    }
    CloseEraseLeft(parent, sibling, tmp1, root, c.up, t, b, d);
  }

  /** Case 4, node on the right. */
  method CloseEraseRight(parent: RbNode, sibling: RbNode, tmp1: RbNode, root: RbRoot,
                         ghost up: Context<RbNode>, ghost a: Tree<RbNode>, ghost b: Tree<RbNode>, ghost t: Tree<RbNode>)
    requires RotationParts(up, a, sibling, b, parent, t) && a.Node? && a.node == tmp1 && a.color == Black
    requires parent.right == RootOf(t) && Linked(t, parent)
    requires sibling.right == RootOf(b) && Linked(b, sibling)
    requires sibling.left == tmp1 && tmp1.left == RootOf(a.left) && tmp1.right == RootOf(a.right)
    requires Linked(a.left, tmp1) && Linked(a.right, tmp1)
    requires parent.parent == HoleParent(up) && LinkedContext(up, root, parent)
    modifies root`node, ContextNodes(up), parent, sibling, tmp1, Nodes(b)
    ensures Focus(up, Node(a, sibling, old(parent.color), Node(b, parent, Black, t)), root)
  {
    hide Nodes, ContextNodes, Linked, LinkedContext, Separated, SeparatedContext;
    var tmp2 := sibling.right;
    TopApart(a);
    tmp1.parent, tmp1.color := sibling, Black;
    FoldLinked(a, sibling);
    RotateRight(parent, sibling, tmp2, root, Black, false, up, a, b, t);
  }

  /** Cases 3 and 4, node on the right. */
  method RotateEraseRight(parent: RbNode, sibling0: RbNode, root: RbRoot, ghost c: Context<RbNode>, ghost t: Tree<RbNode>)
    requires Focus(c, t, root) && OneShort(c, t) && c.InRight? && c.left.Node? && BlackRoot(c.left)
    requires !(BlackRoot(Far(c)) && BlackRoot(Near(c)))
    requires parent == c.node && sibling0 == c.left.node
    modifies root`node, ContextNodes(c), Nodes(t)
    ensures Focus(c.up, RotatedErase(c, t), root)
  {
    hide Nodes, ContextNodes, Linked, LinkedContext, Separated, SeparatedContext;
    ghost var s, n, f := c.left, Near(c), Far(c);
    var sibling, tmp1 := sibling0, sibling0.left;
    OpenSibling(c, t, root);
    SiblingPartsRight(c, t);
    LinkedColor(f, sibling);
    LinkedColor(n, sibling);
    ghost var a, b := Painted(f, Black), n;
    if tmp1 == null || tmp1.color == Black {
      var tmp2 := sibling.right;
      RedNear(c, t);
      NearParts(c, t);
      UnfoldLinked(n, sibling);
      tmp1 := tmp2.left;
      sibling.right := tmp1;
      tmp2.left := sibling;
      parent.left := tmp2;
      if tmp1 != null {
        UnfoldLinked(n.left, tmp2);
        tmp1.parent, tmp1.color := sibling, Black;
      }
      FoldLinked(n.left, sibling);
      tmp1 := sibling;
      sibling := tmp2;
      a, b := Node(f, s.node, Black, n.left), n.right;
    } else {
      PaintedParts(c, t);
      UnfoldLinked(f, sibling);
    }
    CloseEraseRight(parent, sibling, tmp1, root, c.up, a, b, t);
  }

  /** The body of the loop when node is the left child of parent. */
  method FixEraseLeft(parent: RbNode, root: RbRoot, ghost c: Context<RbNode>, ghost t: Tree<RbNode>)
    returns (again: bool)
    requires Focus(c, t, root) && OneShort(c, t) && c.InLeft? && Sibling(c).Node? && parent == c.node
    modifies root`node, ContextNodes(c), Nodes(t)
    ensures Focus(BlackSibling(c).up, EraseStep(c, t), root)
    ensures again == EraseContinues(c)
  {
    hide Nodes, ContextNodes, Linked, LinkedContext, Separated, SeparatedContext;
    ghost var c1 := BlackSibling(c);
    OpenSibling(c, t, root);
    RotatedSiblingNode(c, t);
    RotatedSiblingNodes(c, t);
    var sibling := parent.right;
    if sibling.color == Red {
      sibling := RotateSiblingLeft(parent, sibling, root, c, t);
    }
    OpenSibling(c1, t, root);
    LinkedColor(Far(c1), sibling);
    LinkedColor(Near(c1), sibling);
    var tmp1, tmp2 := sibling.right, sibling.left;
    again := false;
    if (tmp1 == null || tmp1.color == Black) && (tmp2 == null || tmp2.color == Black) {
      again := parent.color == Black && parent.parent != null;
      FlipErase(parent, sibling, root, c1, t);
    } else {
      RotateEraseLeft(parent, sibling, root, c1, t);
    }
  }

  /** ... and the right child. */
  method FixEraseRight(parent: RbNode, root: RbRoot, ghost c: Context<RbNode>, ghost t: Tree<RbNode>)
    returns (again: bool)
    requires Focus(c, t, root) && OneShort(c, t) && c.InRight? && Sibling(c).Node? && parent == c.node
    modifies root`node, ContextNodes(c), Nodes(t)
    ensures Focus(BlackSibling(c).up, EraseStep(c, t), root)
    ensures again == EraseContinues(c)
  {
    hide Nodes, ContextNodes, Linked, LinkedContext, Separated, SeparatedContext;
    ghost var c1 := BlackSibling(c);
    OpenSibling(c, t, root);
    RotatedSiblingNode(c, t);
    RotatedSiblingNodes(c, t);
    var sibling := parent.left;
    if sibling.color == Red {
      sibling := RotateSiblingRight(parent, sibling, root, c, t);
    }
    OpenSibling(c1, t, root);
    LinkedColor(Far(c1), sibling);
    LinkedColor(Near(c1), sibling);
    var tmp1, tmp2 := sibling.left, sibling.right;
    again := false;
    if (tmp1 == null || tmp1.color == Black) && (tmp2 == null || tmp2.color == Black) {
      again := parent.color == Black && parent.parent != null;
      FlipErase(parent, sibling, root, c1, t);
    } else {
      RotateEraseRight(parent, sibling, root, c1, t);
    }
  }

  lemma RotatedSiblingNodes(c: Context<RbNode>, t: Tree<RbNode>)
    requires c != Top && Sibling(c).Node?
    ensures ContextNodes(BlackSibling(c)) == ContextNodes(c) && BlackSibling(c).node == c.node
  {
  }

  /** Which child slot of parent the hole is; the loop compares node with parent's right child. */
  lemma HoleSide(c: Context<RbNode>, t: Tree<RbNode>, root: RbRoot)
    requires Focus(c, t, root) && OneShort(c, t) && c != Top
    ensures Sibling(c).Node?
    ensures c.InLeft? <==> RootOf(t) != c.node.right
  {
  }

  /** ____rb_erase_color: the empty hole of `c0` is one black node short. */
  method EraseColor(parent0: RbNode, root: RbRoot, ghost c0: Context<RbNode>)
    requires Focus(c0, Leaf, root) && c0 != Top && parent0 == c0.node
    requires OneShort(c0, Leaf)
    modifies root, ContextNodes(c0)
    ensures root.Valid()
    ensures Inorder(root.tree) == Before(c0) + After(c0)
    ensures Nodes(root.tree) == ContextNodes(c0)
  {
    hide Nodes, ContextNodes, Linked, LinkedContext, Separated, SeparatedContext, Inorder, BlackHeight, Balanced,
      NoRedRed, Before, After, EraseStep, BlackSibling;
    var node: RbNode?, parent := null, parent0;
    ghost var c, t := c0, Leaf;
    ghost var hollow := Plug(c0, Leaf);
    HollowOrder(c0);
    while true
      invariant Focus(c, t, root) && c != Top && parent == c.node && node == RootOf(t)
      invariant OneShort(c, t)
      invariant Inorder(Plug(c, t)) == Inorder(hollow)
      decreases c
    {
      SameOrderSameNodes(Plug(c, t), hollow);
      PlugNodes(c, t);
      HoleSide(c, t, root);
      RotatedSiblingNode(c, t);
      ghost var next, up := EraseStep(c, t), BlackSibling(c).up;
      var again;
      if node != parent.right {
        again := FixEraseLeft(parent, root, c, t);
      } else {
        again := FixEraseRight(parent, root, c, t);
      }
      EraseStepCorrect(c, t);
      c, t := up, next;
      if !again {
        break;
      }
      CursorFields(c, t, root);
      node := parent;
      parent := node.parent;
    }
    root.tree := Plug(c, t);
    FocusIffPlugged(c, t, root);
    SameOrderSameNodes(root.tree, hollow);
  }

  lemma HollowOrder(c: Context<RbNode>)
    ensures Inorder(Plug(c, Leaf)) == Before(c) + After(c) && Nodes(Plug(c, Leaf)) == ContextNodes(c)
  {
    PlugInorder(c, Leaf);
    PlugNodes(c, Leaf);
  }

  // ---------------------------------------------------------------------
  // Taking the node out
  // ---------------------------------------------------------------------

  /** Case 1: `child` takes the place and the colour of node, its only possible parent. */
  method LiftChild(node: RbNode, child: RbNode?, root: RbRoot, ghost c: Context<RbNode>, ghost n: Tree<RbNode>)
    requires Focus(c, n, root) && n.Node? && n.node == node && (n.left.Leaf? || n.right.Leaf?)
    requires child == RootOf(if n.left.Leaf? then n.right else n.left)
    modifies root`node, ContextNodes(c), Nodes(n)
    ensures Focus(c, Lifted(n), root)
    ensures unchanged(node)
  {
    hide Nodes, ContextNodes, Linked, LinkedContext, Separated, SeparatedContext;
    ghost var s := if n.left.Leaf? then n.right else n.left;
    OpenNode(c, n, root);
    NodeApart(c, n);
    PaintedApart(s, n.color);
    var parent, color := node.parent, node.color;
    assert allocated(Nodes(s));
    ChangeChild(node, child, parent, root, c);
    if child != null {
      UnfoldLinked(s, node);
      child.parent, child.color := parent, color;
    }
    FoldLinked(Lifted(n), parent);
  }

  lemma PaintedApart(t: Tree<RbNode>, color: Color)
    ensures Nodes(Painted(t, color)) == Nodes(t) && (Separated(t) ==> Separated(Painted(t, color)))
  {
  }

  /** The successor stands in for node: its left subtree, its parent link and its colour. */
  ghost function Replaced(n: Tree<RbNode>, y: RbNode, right: Tree<RbNode>): Tree<RbNode>
    requires n.Node?
  {
    Node(n.left, y, n.color, right)
  }

  lemma ReplacedApart(c: Context<RbNode>, n: Tree<RbNode>)
    requires n.Node? && SeparatedContext(c) && Separated(n) && ContextNodes(c) !! Nodes(n)
    requires n.right.Node? && n.right.left.Leaf?
    ensures var m := Replaced(n, n.right.node, Painted(n.right.right, Black));
      Separated(m) && ContextNodes(c) !! Nodes(m) && n.node !in Nodes(m)
    ensures Separated(n.right.right) && Nodes(n.right.right) <= Nodes(n.right)
    ensures n.right.node !in Nodes(n.right.right) && n.right.node in Nodes(n.right)
  {
    PaintedApart(n.right.right, Black);
    assert Nodes(n.right) == Nodes(n.right.left) + {n.right.node} + Nodes(n.right.right);
  }

  /** The common end of cases 2 and 3: the successor, already over `right`, takes node's place. */
  method TakePlace(node: RbNode, successor: RbNode, root: RbRoot, ghost c: Context<RbNode>,
                   ghost n: Tree<RbNode>, ghost right: Tree<RbNode>)
    requires n.Node? && n.node == node && Rooted(n, HoleParent(c))
    requires n.left.Node? && Linked(n.left, node) && LinkedContext(c, root, node)
    requires successor.right == RootOf(right) && Linked(right, successor)
    requires var m := Replaced(n, successor, right);
      SeparatedContext(c) && Separated(m) && ContextNodes(c) !! Nodes(m) && node !in Nodes(m) && node !in ContextNodes(c)
    modifies root`node, NodeSet(HoleParent(c))`left, NodeSet(HoleParent(c))`right, successor, n.left.node`parent
    ensures Focus(c, Replaced(n, successor, right), root)
  {
    hide Nodes, ContextNodes, Linked, LinkedContext, Separated, SeparatedContext;
    ghost var l, m := n.left, Replaced(n, successor, right);
    NodeApart(c, m);
    UnfoldLinked(l, node);
    var tmp := node.left;
    successor.left := tmp;
    tmp.parent := successor;
    FoldLinked(l, successor);
    var parent, color := node.parent, node.color;
    assert allocated(Nodes(l)) && allocated(Nodes(right));
    ChangeChild(node, successor, parent, root, c);
    successor.parent, successor.color := parent, color;
    FoldLinked(m, parent);
  }

  /** Case 2: node's successor is its right child. */
  method ReplaceByRightChild(node: RbNode, successor: RbNode, root: RbRoot, ghost c: Context<RbNode>, ghost n: Tree<RbNode>)
    requires Focus(c, n, root) && n.Node? && n.node == node && n.left.Node?
    requires n.right.Node? && n.right.node == successor && n.right.left.Leaf?
    modifies root`node, ContextNodes(c), Nodes(n)
    ensures Focus(c, Replaced(n, successor, Painted(n.right.right, Black)), root)
  {
    hide Nodes, ContextNodes, Linked, LinkedContext, Separated, SeparatedContext;
    ghost var r, sub := n.right, n.right.right;
    var child2 := successor.right;
    OpenNode(c, n, root);
    NodeApart(c, n);
    UnfoldLinked(r, node);
    TopApart(n.left);
    ReplacedApart(c, n);
    if child2 != null {
      UnfoldLinked(sub, successor);
      child2.parent, child2.color := successor, Black;
    }
    FoldLinked(Painted(sub, Black), successor);
    TakePlace(node, successor, root, c, n, Painted(sub, Black));
  }

  /** Case 3, first half: the successor, leftmost and not a root child, gives way to its right child. */
  method SpliceLeft(parent: RbNode, successor: RbNode, root: RbRoot, ghost c: Context<RbNode>, ghost s: Tree<RbNode>)
    returns (child2: RbNode?)
    requires Focus(c, s, root) && s.Node? && s.node == successor && s.left.Leaf? && c.InLeft? && c.node == parent
    modifies root`node, ContextNodes(c), Nodes(s)
    ensures Focus(c, Painted(s.right, Black), root) && child2 == RootOf(s.right)
    ensures unchanged(successor)
  {
    hide Nodes, ContextNodes, Linked, LinkedContext, Separated, SeparatedContext;
    ghost var sub := s.right;
    OpenNode(c, s, root);
    NodeApart(c, s);
    PaintedApart(sub, Black);
    child2 := successor.right;
    if child2 != null {
      UnfoldLinked(sub, successor);
      child2.parent, child2.color := parent, Black;
    }
    FoldLinked(Painted(sub, Black), parent);
    assert allocated(Nodes(sub));
    SetLeft(parent, successor, child2, root, c);
  }

  /** parent->rb_left = child2 */
  method SetLeft(parent: RbNode, ghost was: RbNode, child2: RbNode?, root: RbRoot, ghost c: Context<RbNode>)
    requires LinkedContext(c, root, was) && SeparatedContext(c) && c.InLeft? && c.node == parent
    modifies parent`left
    ensures LinkedContext(c, root, child2)
  {
    parent.left := child2;
  }

  /** What the right subtree becomes when the first node `s.node` on its left spine is spliced out. */
  ghost function Spliced(spine: Context<RbNode>, s: Tree<RbNode>): Tree<RbNode>
    requires s.Node?
  {
    Plug(spine, Painted(s.right, Black))
  }

  lemma SplicedApart(c: Context<RbNode>, n: Tree<RbNode>, spine: Context<RbNode>, s: Tree<RbNode>)
    requires n.Node? && SeparatedContext(c) && Separated(n) && ContextNodes(c) !! Nodes(n)
    requires s.Node? && Plug(spine, s) == n.right
    ensures Nodes(Spliced(spine, s)) <= Nodes(n.right) && s.node in Nodes(n.right) && s.node !in Nodes(Spliced(spine, s))
    ensures s.node != n.node && s.node !in Nodes(n.left) && s.node !in ContextNodes(c)
    ensures var m := Replaced(n, s.node, Spliced(spine, s));
      Separated(m) && ContextNodes(c) !! Nodes(m) && n.node !in Nodes(m)
  {
    var sub := Painted(s.right, Black);
    PaintedApart(s.right, Black);
    PlugNodes(spine, s);
    PlugNodes(spine, sub);
    PlugSeparated(spine, s);
    PlugSeparated(spine, sub);
  }

  lemma {:induction false} SpineRoot(spine: Context<RbNode>, t: Tree<RbNode>, t': Tree<RbNode>)
    requires spine != Top
    ensures Plug(spine, t).Node? && Plug(spine, t').Node? && Plug(spine, t).node == Plug(spine, t').node
    decreases spine
  {
    if spine.up != Top {
      match spine
      case InLeft(x, col, r, up) => SpineRoot(up, Node(t, x, col, r), Node(t', x, col, r));
      case InRight(l, x, col, up) => SpineRoot(up, Node(l, x, col, t), Node(l, x, col, t'));
    }
  }

  /** Focus moves freely between a node's right subtree and a path inside it. */
  lemma FocusRight(c: Context<RbNode>, l: Tree<RbNode>, x: RbNode, col: Color, spine: Context<RbNode>,
                   t: Tree<RbNode>, root: RbRoot)
    ensures Focus(Append(spine, InRight(l, x, col, c)), t, root) <==> Focus(c, Node(l, x, col, Plug(spine, t)), root)
  {
    var base := InRight(l, x, col, c);
    FocusIffPlugged(Append(spine, base), t, root);
    FocusIffPlugged(c, Node(l, x, col, Plug(spine, t)), root);
    AppendPlug(spine, base, t);
  }

  /** The successor search of case 3. */
  method FindSuccessor(child: RbNode, root: RbRoot, ghost c: Context<RbNode>, ghost n: Tree<RbNode>)
    returns (parent: RbNode, successor: RbNode, ghost spine: Context<RbNode>, ghost s: Tree<RbNode>)
    requires Focus(c, n, root) && n.Node? && n.right.Node? && n.right.node == child && n.right.left.Node?
    ensures LeftSpine(spine) && spine.InLeft? && spine.node == parent
    ensures s.Node? && s.node == successor && s.left.Leaf? && Plug(spine, s) == n.right
    ensures Focus(Append(spine, InRight(n.left, n.node, n.color, c)), s, root)
  {
    ghost var base := InRight(n.left, n.node, n.color, c);
    spine, s := Top, n.right;
    FocusRight(c, n.left, n.node, n.color, spine, s, root);
    OpenNode(base, s, root);
    successor := child;
    var tmp := child.left;
    while true
      invariant Focus(Append(spine, base), s, root) && LeftSpine(spine) && Plug(spine, s) == n.right
      invariant s.Node? && s.node == successor && s.left.Node? && tmp == s.left.node
      decreases s
    {
      parent := successor;
      successor := tmp;
      tmp := tmp.left;
      spine, s := InLeft(parent, s.color, s.right, spine), s.left;
      FocusRight(c, n.left, n.node, n.color, spine, s, root);
      FocusRight(c, n.left, n.node, n.color, spine.up, Node(s, parent, spine.color, spine.right), root);
      OpenNode(Append(spine, base), s, root);
      if tmp == null {
        break;
      }
    }
  }

  /** Case 3: node's successor is leftmost in its right subtree, below its right child. */
  method ReplaceByLeftmost(node: RbNode, child: RbNode, root: RbRoot, ghost c: Context<RbNode>, ghost n: Tree<RbNode>)
    returns (parent: RbNode, child2: RbNode?, color2: Color, ghost spine: Context<RbNode>, ghost s: Tree<RbNode>)
    requires Focus(c, n, root) && n.Node? && n.node == node && n.left.Node?
    requires n.right.Node? && n.right.node == child && n.right.left.Node?
    modifies root`node, ContextNodes(c), Nodes(n)
    ensures LeftSpine(spine) && spine.InLeft? && spine.node == parent
    ensures s.Node? && s.left.Leaf? && Plug(spine, s) == n.right && child2 == RootOf(s.right) && color2 == s.color
    ensures Focus(Append(spine, InRight(n.left, s.node, n.color, c)), Painted(s.right, Black), root)
  {
    hide Nodes, ContextNodes, Linked, LinkedContext, Separated, SeparatedContext, Plug, Append;
    var successor;
    parent, successor, spine, s := FindSuccessor(child, root, c, n);
    ghost var cc := Append(spine, InRight(n.left, node, n.color, c));
    ghost var right := Spliced(spine, s);
    ghost var hollow := n.(right := right);
    OpenNode(cc, s, root);
    color2 := successor.color;
    NodeApart(c, n);
    SpliceFrame(c, n, spine, s);
    SplicedApart(c, n, spine, s);
    child2 := SpliceLeft(parent, successor, root, cc, s);
    FocusRight(c, n.left, node, n.color, spine, Painted(s.right, Black), root);
    SpineRoot(spine, s, Painted(s.right, Black));
    OpenNode(c, hollow, root);
    NodeApart(c, hollow);
    UnfoldLinked(right, node);
    successor.right := child;
    child.parent := successor;
    FoldLinked(right, successor);
    TakePlace(node, successor, root, c, hollow, right);
    FocusRight(c, n.left, successor, n.color, spine, Painted(s.right, Black), root);
  }

  lemma SpliceFrame(c: Context<RbNode>, n: Tree<RbNode>, spine: Context<RbNode>, s: Tree<RbNode>)
    requires n.Node? && s.Node? && Plug(spine, s) == n.right && spine.InLeft?
    ensures var cc := Append(spine, InRight(n.left, n.node, n.color, c));
      ContextNodes(cc) + Nodes(s) == ContextNodes(c) + Nodes(n) && cc.InLeft? && cc.node == spine.node
  {
    var base := InRight(n.left, n.node, n.color, c);
    AppendPlug(spine, base, s);
    PlugNodes(Append(spine, base), s);
    PlugNodes(base, n.right);
  }

  /** __rb_erase_augmented. The result says where a black node went missing, if one did. */
  method RemoveNode(node: RbNode, root: RbRoot, ghost c: Context<RbNode>, ghost n: Tree<RbNode>)
    returns (rebalance: RbNode?, ghost c': Context<RbNode>, ghost t': Tree<RbNode>)
    requires Focus(c, n, root) && n.Node? && n.node == node && RedBlack(Plug(c, n))
    modifies root`node, ContextNodes(c), Nodes(n)
    ensures Focus(c', t', root)
    ensures Inorder(Plug(c', t')) == Before(c) + Inorder(n.left) + Inorder(n.right) + After(c)
    ensures rebalance == null ==> RedBlack(Plug(c', t'))
    ensures rebalance != null ==> t' == Leaf && c' != Top && rebalance == c'.node && OneShort(c', Leaf)
  {
    hide Nodes, ContextNodes, Linked, LinkedContext, Separated, SeparatedContext, Before, After, Inorder;
    OpenNode(c, n, root);
    var child, tmp := node.right, node.left;
    var parent, color := node.parent, node.color;
    if tmp == null || child == null {
      LiftedSound(c, n);
      LiftedOrder(c, n);
      LiftChild(node, if tmp == null then child else tmp, root, c, n);
      rebalance := if tmp == null && child == null && color == Black then parent else null;
      c', t' := c, Lifted(n);
    } else {
      LeftChildField(n.right, node);
      ghost var spine, s;
      var child2, color2;
      if child.left == null {
        parent, child2, color2 := child, child.right, child.color;
        spine, s := Top, n.right;
        ReplaceByRightChild(node, child, root, c, n);
        FocusRight(c, n.left, s.node, n.color, spine, Painted(s.right, Black), root);
      } else {
        parent, child2, color2, spine, s := ReplaceByLeftmost(node, child, root, c, n);
      }
      rebalance := if child2 == null && color2 == Black then parent else null;
      SuccessorSound(c, n, spine, s);
      SuccessorOrder(c, n, spine, s);
      c', t' := Append(spine, InRight(n.left, s.node, n.color, c)), Painted(s.right, Black);
    }
  }

  lemma LiftedOrder(c: Context<RbNode>, n: Tree<RbNode>)
    requires n.Node? && (n.left.Leaf? || n.right.Leaf?)
    requires Inorder(Lifted(n)) == Inorder(n.left) + Inorder(n.right)
    ensures Inorder(Plug(c, Lifted(n))) == Before(c) + Inorder(n.left) + Inorder(n.right) + After(c)
  {
    PlugInorder(c, Lifted(n));
  }

  lemma LeftChildField(t: Tree<RbNode>, p: RbNode?)
    requires Linked(t, p) && t.Node?
    ensures Rooted(t, p)
  {
  }

  lemma EraseOrder(tree: Tree<RbNode>, x: RbNode, c: Context<RbNode>, n: Tree<RbNode>)
    requires Separated(tree) && Plug(c, n) == tree && n.Node? && n.node == x
    ensures var rest := Before(c) + Inorder(n.left) + Inorder(n.right) + After(c);
      rest == Without(Inorder(tree), x) && Elements(rest) == Nodes(tree) - {x}
    ensures ContextNodes(c) + Nodes(n) == Nodes(tree)
  {
    hide Inorder, Before, After, Plug, Nodes, ContextNodes, Without;
    AroundNode(tree, c, n);
    var a, b := Before(c) + Inorder(n.left), Inorder(n.right) + After(c);
    assert Before(c) + Inorder(n.left) + Inorder(n.right) + After(c) == a + b;
    assert x in a ==> x in Elements(a);
    WithoutMiddle(a, x, b);
    ElementsConcat(a, x, b);
    ElementsPair(a, b);
    NodesInorder(tree);
    PlugNodes(c, n);
  }

  lemma AroundNode(tree: Tree<RbNode>, c: Context<RbNode>, n: Tree<RbNode>)
    requires Separated(tree) && Plug(c, n) == tree && n.Node?
    ensures var a, b := Before(c) + Inorder(n.left), Inorder(n.right) + After(c);
      Inorder(tree) == a + [n.node] + b && n.node !in Elements(a) && n.node !in Elements(b)
  {
    AroundOrder(c, n);
    NodeOutside(c, n);
  }

  lemma NodeOutside(c: Context<RbNode>, n: Tree<RbNode>)
    requires Separated(Plug(c, n)) && n.Node?
    ensures n.node !in Elements(Before(c) + Inorder(n.left)) && n.node !in Elements(Inorder(n.right) + After(c))
  {
    hide Inorder, Before, After, Plug;
    PlugSeparated(c, n);
    NodeApart(c, n);
    BeforeInContext(c);
    AfterInContext(c);
    NodesInorder(n.left);
    NodesInorder(n.right);
    ElementsPair(Before(c), Inorder(n.left));
    ElementsPair(Inorder(n.right), After(c));
  }

  lemma ElementsPair(a: seq<RbNode>, b: seq<RbNode>)
    ensures Elements(a + b) == Elements(a) + Elements(b)
  {
  }

  /**
    rb_erase: the in-order sequence loses exactly `node`, and the links and the
    red-black properties hold again.
   */
  method Erase(node: RbNode, root: RbRoot)
    requires root.Valid() && node in Nodes(root.tree)
    modifies root, Nodes(root.tree)
    ensures root.Valid()
    ensures Inorder(root.tree) == Without(old(Inorder(root.tree)), node)
    ensures Nodes(root.tree) == old(Nodes(root.tree)) - {node}
  {
    hide Linked, LinkedContext, Plug, Inorder, Before, After, Nodes, ContextNodes;
    ghost var (c, n) := Position(root.tree, node);
    EraseOrder(root.tree, node, c, n);
    FocusIffPlugged(c, n, root);
    var rebalance;
    ghost var c', t';
    rebalance, c', t' := RemoveNode(node, root, c, n);
    NodesInorder(Plug(c', t'));
    PlugNodes(c', t');
    if rebalance != null {
      HollowOrder(c');
      EraseColor(rebalance, root, c');
    } else {
      root.tree := Plug(c', t');
      FocusIffPlugged(c', t', root);
    }
  }
}
