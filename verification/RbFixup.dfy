/**
  The rebalancing steps of util/rbtree.c as functions on contexts and trees,
  each proved to restore the red-black properties and to keep the order.
 */
module RbFixup {
  import opened RbSpec

  /** The ancestors of a red node under a red parent: parent and its sibling, then a black grandparent. */
  ghost predicate RedParentFrame<T>(c: Context<T>) {
    c != Top && c.color == Red && BlackHole(c.up)
  }

  /** The subtree that cases 2 and 3 leave in place of gparent's. */
  ghost function RotatedInsert<T>(c: Context<T>, t: Tree<T>): Tree<T>
    requires t.Node? && RedParentFrame(c)
  {
    match c
    case InLeft(p, _, s, InLeft(g, _, u, _)) => Node(t, p, Black, Node(s, g, Red, u))
    case InRight(s, p, _, InLeft(g, _, u, _)) =>
      Node(Node(s, p, Red, t.left), t.node, Black, Node(t.right, g, Red, u))
    case InRight(s, p, _, InRight(u, g, _, _)) => Node(Node(u, g, Red, s), p, Black, t)
    case InLeft(p, _, s, InRight(u, g, _, _)) =>
      Node(Node(u, g, Red, t.left), t.node, Black, Node(t.right, p, Red, s))
  }

  /** Rotation repairs the red-red pair at `c` for good. */
  lemma RotatedInsertSound<T>(c: Context<T>, t: Tree<T>)
    requires t.Node? && t.color == Red && Sound(t) && SoundContext(c, BlackHeight(t)) && RedParentFrame(c)
    requires BlackRoot(if c.up.InLeft? then c.up.right else c.up.left)
    ensures RedBlack(Plug(c.up.up, RotatedInsert(c, t)))
  {
    var r := RotatedInsert(c, t);
    assert SoundContext(c.up, BlackHeight(t));
    assert Sound(r.left) && Sound(r.right);
    PlugRedBlack(c.up.up, r);
  }

  /** A rotation keeps the order, whatever the colours. */
  lemma RotationOrder<T>(a: Tree<T>, x: T, b: Tree<T>, y: T, d: Tree<T>, c1: Color, c2: Color, c3: Color, c4: Color)
    ensures Inorder(Node(Node(a, x, c1, b), y, c2, d)) == Inorder(Node(a, x, c3, Node(b, y, c4, d)))
  {
  }

  /** Trees with the same order may replace each other in a context. */
  lemma PlugSameOrder<T>(c: Context<T>, t: Tree<T>, t': Tree<T>)
    requires Inorder(t) == Inorder(t')
    ensures Inorder(Plug(c, t)) == Inorder(Plug(c, t'))
  {
  }

  /** ... and keeps the order. */
  lemma RotatedInsertOrder<T>(c: Context<T>, t: Tree<T>)
    requires t.Node? && RedParentFrame(c)
    ensures Inorder(Plug(c.up.up, RotatedInsert(c, t))) == Inorder(Plug(c, t))
  {
    var r, up, l := RotatedInsert(c, t), c.up.up, Inorder(t.left);
    match c
    case InLeft(p, pc, s, InLeft(g, gc, u, _)) =>
      RotationOrder(t, p, s, g, u, pc, gc, Black, Red);
      PlugSameOrder(up, r, Node(Node(t, p, pc, s), g, gc, u));
    case InRight(s, p, pc, InLeft(g, gc, u, _)) =>
      RotationOrder(s, p, t.left, t.node, t.right, Red, t.color, pc, t.color);
      RotationOrder(Node(s, p, Red, t.left), t.node, t.right, g, u, Black, gc, Black, Red);
      PlugSameOrder(up, r, Node(Node(s, p, pc, t), g, gc, u));
    case InRight(s, p, pc, InRight(u, g, gc, _)) =>
      RotationOrder(u, g, s, p, t, Red, Black, gc, pc);
      PlugSameOrder(up, r, Node(u, g, gc, Node(s, p, pc, t)));
    case InLeft(p, pc, s, InRight(u, g, gc, _)) =>
      RotationOrder(t.left, t.node, t.right, p, s, t.color, pc, Black, Red);
      RotationOrder(u, g, t.left, t.node, Node(t.right, p, Red, s), Red, Black, gc, Black);
      PlugSameOrder(up, r, Node(u, g, gc, Node(t, p, pc, s)));
  }

  /** Paint the root of a subtree. */
  ghost function Painted<T>(t: Tree<T>, color: Color): Tree<T> {
    if t.Leaf? then t else t.(color := color)
  }

  /** Case 1: the subtree at gparent after the colour flip. */
  ghost function FlippedInsert<T>(c: Context<T>, t: Tree<T>): Tree<T>
    requires t.Node? && RedParentFrame(c)
  {
    var parent := if c.InLeft? then Node(t, c.node, Black, c.right) else Node(c.left, c.node, Black, t);
    if c.up.InLeft? then Node(parent, c.up.node, Red, Painted(c.up.right, Black))
    else Node(Painted(c.up.left, Black), c.up.node, Red, parent)
  }

  /** The flip moves the only possible violation up to gparent. */
  lemma FlippedInsertSound<T>(c: Context<T>, t: Tree<T>)
    requires t.Node? && t.color == Red && Sound(t) && SoundContext(c, BlackHeight(t)) && RedParentFrame(c)
    requires !BlackRoot(if c.up.InLeft? then c.up.right else c.up.left)
    ensures Sound(FlippedInsert(c, t)) && SoundContext(c.up.up, BlackHeight(FlippedInsert(c, t)))
  {
  }

  lemma FlippedInsertOrder<T>(c: Context<T>, t: Tree<T>)
    requires t.Node? && RedParentFrame(c)
    ensures Inorder(Plug(c.up.up, FlippedInsert(c, t))) == Inorder(Plug(c, t))
  {
    var r := FlippedInsert(c, t);
    var parent := if c.InLeft? then Node(t, c.node, c.color, c.right) else Node(c.left, c.node, c.color, t);
    var g := if c.up.InLeft? then Node(parent, c.up.node, c.up.color, c.up.right)
             else Node(c.up.left, c.up.node, c.up.color, parent);
    assert Inorder(r.left) == Inorder(g.left) && Inorder(r.right) == Inorder(g.right);
    PlugSameOrder(c.up.up, r, g);
  }

  ghost function Uncle<T>(c: Context<T>): Tree<T>
    requires c != Top && c.up != Top
  {
    if c.up.InLeft? then c.up.right else c.up.left
  }

  /** One turn of the insertion loop below a red parent: a flip, or the closing rotations. */
  ghost function InsertStep<T>(c: Context<T>, t: Tree<T>): Tree<T>
    requires t.Node? && RedParentFrame(c)
  {
    if BlackRoot(Uncle(c)) then RotatedInsert(c, t) else FlippedInsert(c, t)
  }

  /** Every turn keeps the order and either ends with a red-black tree or leaves a red node two levels up. */
  lemma InsertStepCorrect<T>(c: Context<T>, t: Tree<T>)
    requires t.Node? && t.color == Red && Sound(t) && SoundContext(c, BlackHeight(t)) && RedParentFrame(c)
    ensures Inorder(Plug(c.up.up, InsertStep(c, t))) == Inorder(Plug(c, t))
    ensures BlackRoot(Uncle(c)) ==> RedBlack(Plug(c.up.up, InsertStep(c, t)))
    ensures !BlackRoot(Uncle(c)) ==>
              var r := InsertStep(c, t);
              r.Node? && r.node == c.up.node && r.color == Red && Sound(r) && SoundContext(c.up.up, BlackHeight(r))
  {
    if BlackRoot(Uncle(c)) {
      RotatedInsertSound(c, t);
      RotatedInsertOrder(c, t);
    } else {
      FlippedInsertSound(c, t);
      FlippedInsertOrder(c, t);
    }
  }

  // ---------------------------------------------------------------------
  // Removal
  // ---------------------------------------------------------------------

  /** The hole holds a black subtree that is one black node short; `c` is otherwise sound. */
  ghost predicate OneShort<T>(c: Context<T>, t: Tree<T>) {
    Sound(t) && BlackRoot(t) && SoundContext(c, BlackHeight(t) + 1)
  }

  ghost function Sibling<T>(c: Context<T>): Tree<T>
    requires c != Top
  {
    if c.InLeft? then c.right else c.left
  }

  /** Case 1: the context of the hole after rotating a red sibling up. */
  ghost function RotatedSibling<T>(c: Context<T>): Context<T>
    requires c != Top && Sibling(c).Node?
  {
    var s := Sibling(c);
    if c.InLeft? then InLeft(c.node, Red, s.left, InLeft(s.node, c.color, s.right, c.up))
    else InRight(s.right, c.node, Red, InRight(s.left, s.node, c.color, c.up))
  }

  lemma RotatedSiblingCorrect<T>(c: Context<T>, t: Tree<T>)
    requires OneShort(c, t) && c != Top && !BlackRoot(Sibling(c))
    ensures OneShort(RotatedSibling(c), t) && Sibling(RotatedSibling(c)).Node? && BlackRoot(Sibling(RotatedSibling(c)))
    ensures Inorder(Plug(RotatedSibling(c), t)) == Inorder(Plug(c, t))
  {
    var s := Sibling(c);
    if c.InLeft? {
      RotationOrder(t, c.node, s.left, s.node, s.right, Red, c.color, c.color, s.color);
      PlugSameOrder(c.up, Node(Node(t, c.node, Red, s.left), s.node, c.color, s.right), Node(t, c.node, c.color, s));
    } else {
      RotationOrder(s.left, s.node, s.right, c.node, t, s.color, c.color, c.color, Red);
      PlugSameOrder(c.up, Node(s.left, s.node, c.color, Node(s.right, c.node, Red, t)), Node(s, c.node, c.color, t));
    }
  }

  /** The sibling's child on the far side from the hole, and on the near side. */
  ghost function Far<T>(c: Context<T>): Tree<T>
    requires c != Top && Sibling(c).Node?
  {
    if c.InLeft? then Sibling(c).right else Sibling(c).left
  }

  ghost function Near<T>(c: Context<T>): Tree<T>
    requires c != Top && Sibling(c).Node?
  {
    if c.InLeft? then Sibling(c).left else Sibling(c).right
  }

  /** Case 2: the subtree at parent once the sibling has turned red. */
  ghost function FlippedErase<T>(c: Context<T>, t: Tree<T>): Tree<T>
    requires c != Top
  {
    if c.InLeft? then Node(t, c.node, Black, Painted(c.right, Red)) else Node(Painted(c.left, Red), c.node, Black, t)
  }

  /** A red parent absorbs the shortage; a black one hands it up. */
  lemma FlippedEraseCorrect<T>(c: Context<T>, t: Tree<T>)
    requires OneShort(c, t) && c != Top && Sibling(c).Node?
    requires BlackRoot(Sibling(c)) && BlackRoot(Far(c)) && BlackRoot(Near(c))
    ensures Inorder(Plug(c.up, FlippedErase(c, t))) == Inorder(Plug(c, t))
    ensures c.color == Red || c.up == Top ==> RedBlack(Plug(c.up, FlippedErase(c, t)))
    ensures c.color == Black ==> OneShort(c.up, FlippedErase(c, t))
  {
    var s, r := Sibling(c), FlippedErase(c, t);
    assert Sound(Painted(s, Red)) && Inorder(Painted(s, Red)) == Inorder(s);
    PlugSameOrder(c.up, r, if c.InLeft? then Node(t, c.node, c.color, s) else Node(s, c.node, c.color, t));
    PlugRedBlack(c.up, r);
  }

  /** Cases 3 and 4: the subtree at parent after the closing rotations. */
  ghost function RotatedErase<T>(c: Context<T>, t: Tree<T>): Tree<T>
    requires c != Top && Sibling(c).Node? && !(BlackRoot(Far(c)) && BlackRoot(Near(c)))
  {
    var s, n := Sibling(c), Near(c);
    if c.InLeft? then
      if BlackRoot(Far(c)) then Node(Node(t, c.node, Black, n.left), n.node, c.color, Node(n.right, s.node, Black, s.right))
      else Node(Node(t, c.node, Black, s.left), s.node, c.color, Painted(s.right, Black))
    else
      if BlackRoot(Far(c)) then Node(Node(s.left, s.node, Black, n.left), n.node, c.color, Node(n.right, c.node, Black, t))
      else Node(Painted(s.left, Black), s.node, c.color, Node(s.right, c.node, Black, t))
  }

  lemma RotatedEraseSound<T>(c: Context<T>, t: Tree<T>)
    requires OneShort(c, t) && c != Top && Sibling(c).Node?
    requires BlackRoot(Sibling(c)) && !(BlackRoot(Far(c)) && BlackRoot(Near(c)))
    ensures RedBlack(Plug(c.up, RotatedErase(c, t)))
  {
    var r := RotatedErase(c, t);
    assert Sound(Near(c)) && Sound(Far(c));
    assert Sound(r.left) && Sound(r.right);
    PlugRedBlack(c.up, r);
  }

  lemma RotatedEraseOrder<T>(c: Context<T>, t: Tree<T>)
    requires c != Top && Sibling(c).Node? && !(BlackRoot(Far(c)) && BlackRoot(Near(c)))
    ensures Inorder(Plug(c.up, RotatedErase(c, t))) == Inorder(Plug(c, t))
  {
    var s, n, r := Sibling(c), Near(c), RotatedErase(c, t);
    if c.InLeft? {
      var was := Node(t, c.node, c.color, s);
      if BlackRoot(Far(c)) {
        RotationOrder(n.left, n.node, n.right, s.node, s.right, n.color, s.color, Red, Black);
        RotationOrder(t, c.node, n.left, n.node, r.right, Black, c.color, c.color, Red);
      } else {
        RotationOrder(t, c.node, s.left, s.node, s.right, Black, c.color, c.color, s.color);
        assert Inorder(r.right) == Inorder(s.right);
      }
      PlugSameOrder(c.up, r, was);
    } else {
      var was := Node(s, c.node, c.color, t);
      if BlackRoot(Far(c)) {
        RotationOrder(s.left, s.node, n.left, n.node, n.right, Black, Red, s.color, n.color);
        RotationOrder(r.left, n.node, n.right, c.node, t, Red, c.color, c.color, Black);
      } else {
        RotationOrder(s.left, s.node, s.right, c.node, t, s.color, c.color, c.color, Black);
        assert Inorder(r.left) == Inorder(s.left);
      }
      PlugSameOrder(c.up, r, was);
    }
  }

  /** The context and sibling that cases 2 to 4 work on, after case 1 if it applies. */
  ghost function BlackSibling<T>(c: Context<T>): Context<T>
    requires c != Top && Sibling(c).Node?
  {
    if BlackRoot(Sibling(c)) then c else RotatedSibling(c)
  }

  /** One turn of the removal loop: the subtree left at parent. */
  ghost function EraseStep<T>(c: Context<T>, t: Tree<T>): Tree<T>
    requires OneShort(c, t) && c != Top && Sibling(c).Node?
  {
    var c1 := BlackSibling(c);
    RotatedSiblingNode(c, t);
    if BlackRoot(Far(c1)) && BlackRoot(Near(c1)) then FlippedErase(c1, t) else RotatedErase(c1, t)
  }

  /** The turn after which the loop goes on: everything around the hole is black. */
  ghost predicate EraseContinues<T>(c: Context<T>)
    requires c != Top && Sibling(c).Node?
  {
    BlackRoot(Sibling(c)) && BlackRoot(Far(c)) && BlackRoot(Near(c)) && c.color == Black && c.up != Top
  }

  lemma RotatedSiblingNode<T>(c: Context<T>, t: Tree<T>)
    requires OneShort(c, t) && c != Top && Sibling(c).Node?
    ensures BlackSibling(c) != Top && Sibling(BlackSibling(c)).Node? && BlackRoot(Sibling(BlackSibling(c)))
    ensures OneShort(BlackSibling(c), t)
    ensures !BlackRoot(Sibling(c)) ==> BlackSibling(c).color == Red
  {
  }

  /** Every turn keeps the order and either ends with a red-black tree or moves the shortage one level up. */
  lemma EraseStepCorrect<T>(c: Context<T>, t: Tree<T>)
    requires OneShort(c, t) && c != Top && Sibling(c).Node?
    ensures Inorder(Plug(BlackSibling(c).up, EraseStep(c, t))) == Inorder(Plug(c, t))
    ensures EraseContinues(c) ==> OneShort(c.up, EraseStep(c, t)) && BlackSibling(c) == c && EraseStep(c, t).Node? && EraseStep(c, t).node == c.node
    ensures !EraseContinues(c) ==> RedBlack(Plug(BlackSibling(c).up, EraseStep(c, t)))
  {
    var c1 := BlackSibling(c);
    RotatedSiblingNode(c, t);
    if !BlackRoot(Sibling(c)) {
      RotatedSiblingCorrect(c, t);
    }
    if BlackRoot(Far(c1)) && BlackRoot(Near(c1)) {
      FlippedEraseCorrect(c1, t);
    } else {
      RotatedEraseSound(c1, t);
      RotatedEraseOrder(c1, t);
    }
  }

  /** What is left at `c` of a node with at most one child: the child, in the node's colour. */
  ghost function Lifted<T>(n: Tree<T>): Tree<T>
    requires n.Node? && (n.left.Leaf? || n.right.Leaf?)
  {
    Painted(if n.left.Leaf? then n.right else n.left, n.color)
  }

  /** Removing a node with at most one child: an only child is red, so only a black leaf leaves a shortage. */
  lemma LiftedSound<T>(c: Context<T>, n: Tree<T>)
    requires RedBlack(Plug(c, n)) && n.Node? && (n.left.Leaf? || n.right.Leaf?)
    ensures Lifted(n).Node? || n.color == Red || c == Top ==> RedBlack(Plug(c, Lifted(n)))
    ensures Lifted(n).Leaf? && n.color == Black ==> OneShort(c, Leaf)
    ensures Inorder(Lifted(n)) == Inorder(n.left) + Inorder(n.right)
  {
    var s := if n.left.Leaf? then n.right else n.left;
    PlugRedBlack(c, n);
    assert Sound(s) && BlackHeight(s) == 0;
    if s.Node? {
      assert s.color == Red && n.color == Black;
    }
    PlugRedBlack(c, Lifted(n));
  }

  /** Removing the successor from its place below: its right child, if any, turns black in its stead. */
  lemma SplicedSound<T>(c: Context<T>, s: Tree<T>)
    requires s.Node? && s.left.Leaf? && Sound(s) && SoundContext(c, BlackHeight(s))
    requires BlackRoot(s) || BlackHole(c)
    ensures s.right.Node? ==> Sound(Painted(s.right, Black)) && SoundContext(c, BlackHeight(Painted(s.right, Black)))
    ensures s.right.Leaf? && s.color == Red ==> SoundContext(c, 0)
    ensures s.right.Leaf? && s.color == Black ==> OneShort(c, Leaf)
  {
    assert Sound(s.right) && BlackHeight(s.right) == 0;
    if s.right.Node? {
      assert s.right.color == Red && s.color == Black;
    }
  }

  /** Cases 2 and 3 of the removal: the successor, first below the right child, stands in for the node. */
  lemma SuccessorSound<T>(c: Context<T>, n: Tree<T>, spine: Context<T>, s: Tree<T>)
    requires n.Node? && RedBlack(Plug(c, n)) && LeftSpine(spine)
    requires s.Node? && s.left.Leaf? && Plug(spine, s) == n.right
    ensures var c' := Append(spine, InRight(n.left, s.node, n.color, c));
      if s.right.Node? || s.color == Red then RedBlack(Plug(c', Painted(s.right, Black))) else OneShort(c', Leaf)
  {
    var base := InRight(n.left, n.node, n.color, c);
    var cc, c' := Append(spine, base), Append(spine, InRight(n.left, s.node, n.color, c));
    AppendPlug(spine, base, s);
    PlugRedBlack(cc, s);
    SplicedSound(cc, s);
    PlugRedBlack(c', Painted(s.right, Black));
    if s.right.Node? || s.color == Red {
      AppendSound(spine, n.left, n.node, s.node, n.color, c, BlackHeight(Painted(s.right, Black)));
    } else {
      AppendSound(spine, n.left, n.node, s.node, n.color, c, 1);
    }
  }

  lemma SuccessorOrder<T>(c: Context<T>, n: Tree<T>, spine: Context<T>, s: Tree<T>)
    requires n.Node? && LeftSpine(spine) && s.Node? && s.left.Leaf? && Plug(spine, s) == n.right
    ensures var c' := Append(spine, InRight(n.left, s.node, n.color, c));
      Inorder(Plug(c', Painted(s.right, Black))) == Before(c) + Inorder(n.left) + Inorder(n.right) + After(c)
  {
    hide Inorder, Before, After, Plug, Append;
    var base := InRight(n.left, s.node, n.color, c);
    var sub := Painted(s.right, Black);
    AppendOrder(spine, base);
    AppendOrder(spine, Top);
    AppendTop(spine);
    PlugInorder(Append(spine, base), sub);
    PlugInorder(spine, s);
    StepOrder(c, n.left, s, n.color);
    var a, l, r, d, e := Before(c), Inorder(n.left), Inorder(s.right), After(spine), After(c);
    assert Inorder(n.right) == [s.node] + r + d;
    assert a + l + [s.node] + r + (d + e) == a + l + ([s.node] + r + d) + e;
  }

  lemma StepOrder<T>(c: Context<T>, l: Tree<T>, s: Tree<T>, col: Color)
    requires s.Node? && s.left.Leaf?
    ensures Before(InRight(l, s.node, col, c)) == Before(c) + Inorder(l) + [s.node]
    ensures After(InRight(l, s.node, col, c)) == After(c)
    ensures Inorder(Painted(s.right, Black)) == Inorder(s.right)
    ensures Inorder(s) == [s.node] + Inorder(s.right)
    ensures Before<T>(Top) == After<T>(Top) == []
  {
  }

  lemma {:induction false} AppendTop<T>(c: Context<T>)
    ensures Append(c, Top) == c
  {
    if c != Top {
      AppendTop(c.up);
    }
  }
}
