/**
  Traversal of the red-black tree: rb_first, rb_last, rb_next, rb_prev, the
  postorder walk, and rb_replace_node.
 */
module RbWalk {
  import opened Basics
  import opened RbSpec
  import opened RbTree

  /** `y` comes right after position `i` of `s`, or is NULL at the end. */
  ghost predicate NextAt(s: seq<RbNode>, i: int, x: RbNode, y: RbNode?) {
    0 <= i < |s| && s[i] == x && y == if i + 1 < |s| then s[i + 1] else null
  }

  /** `y` comes right after `x` in `s`, or `x` is the last and `y` is NULL. */
  ghost predicate Follows(s: seq<RbNode>, x: RbNode, y: RbNode?) {
    exists i :: NextAt(s, i, x, y)
  }

  ghost predicate PrevAt(s: seq<RbNode>, i: int, x: RbNode, y: RbNode?) {
    0 <= i < |s| && s[i] == x && y == if 0 < i then s[i - 1] else null
  }

  /** `y` comes right before `x` in `s`, or `x` is the first and `y` is NULL. */
  ghost predicate Precedes(s: seq<RbNode>, x: RbNode, y: RbNode?) {
    exists i :: PrevAt(s, i, x, y)
  }

  lemma SplitFollows(a: seq<RbNode>, x: RbNode, b: seq<RbNode>)
    ensures Follows(a + [x] + b, x, if b == [] then null else b[0])
    ensures Precedes(a + [x] + b, x, if a == [] then null else a[|a| - 1])
  {
    assert NextAt(a + [x] + b, |a|, x, if b == [] then null else b[0]);
    assert PrevAt(a + [x] + b, |a|, x, if a == [] then null else a[|a| - 1]);
  }

  // ---------------------------------------------------------------------
  // One step of a cursor; the heap does not change
  // ---------------------------------------------------------------------

  /** A cursor into the tree of `root`: the subtree at `n` and what surrounds it. */
  ghost predicate Cursor(c: Context<RbNode>, t: Tree<RbNode>, n: RbNode?, root: RbRoot)
    reads root, ContextNodes(c), Nodes(t)
  {
    Focus(c, t, root) && Plug(c, t) == root.tree && t.Node? && t.node == n && Rooted(t, HoleParent(c))
  }

  lemma CursorAt(n: RbNode, root: RbRoot) returns (c: Context<RbNode>, t: Tree<RbNode>)
    requires root.Valid() && n in Nodes(root.tree)
    ensures Cursor(c, t, n, root) && (c, t) == Position(root.tree, n)
  {
    var p := Position(root.tree, n);
    c, t := p.0, p.1;
    FocusIffPlugged(c, t, root);
    OpenNode(c, t, root);
  }

  lemma DownLeft(c: Context<RbNode>, t: Tree<RbNode>, n: RbNode, root: RbRoot)
    requires Cursor(c, t, n, root) && t.left.Node?
    ensures Cursor(InLeft(n, t.color, t.right, c), t.left, n.left, root)
    ensures Before(InLeft(n, t.color, t.right, c)) == Before(c)
  {
  }

  lemma DownRight(c: Context<RbNode>, t: Tree<RbNode>, n: RbNode, root: RbRoot)
    requires Cursor(c, t, n, root) && t.right.Node?
    ensures Cursor(InRight(t.left, n, t.color, c), t.right, n.right, root)
    ensures Before(InRight(t.left, n, t.color, c)) == Before(c) + Inorder(t.left) + [n]
    ensures After(InRight(t.left, n, t.color, c)) == After(c)
  {
  }

  /** The subtree hanging from a cursor's parent. */
  ghost function UpTree(c: Context<RbNode>, t: Tree<RbNode>): Tree<RbNode>
    requires c != Top
  {
    if c.InLeft? then Node(t, c.node, c.color, c.right) else Node(c.left, c.node, c.color, t)
  }

  lemma Up(c: Context<RbNode>, t: Tree<RbNode>, n: RbNode, root: RbRoot)
    requires Cursor(c, t, n, root) && c != Top
    ensures Cursor(c.up, UpTree(c, t), c.node, root)
    ensures c.InRight? ==> Before(c.up) + Inorder(UpTree(c, t)) == Before(c) + Inorder(t) && n == c.node.right
    ensures c.InLeft? ==> Inorder(UpTree(c, t)) + After(c.up) == Inorder(t) + After(c) && n == c.node.left
    ensures c.InLeft? ==> n != c.node.right
    ensures c.InRight? ==> n != c.node.left
  {
    UpLinks(c, t, n, root);
    FocusIffPlugged(c, t, root);
    FocusIffPlugged(c.up, UpTree(c, t), root);
    OpenNode(c.up, UpTree(c, t), root);
  }

  lemma UpLinks(c: Context<RbNode>, t: Tree<RbNode>, n: RbNode, root: RbRoot)
    requires Focus(c, t, root) && t.Node? && t.node == n && c != Top
    ensures c.InLeft? ==> n == c.node.left && n != c.node.right
    ensures c.InRight? ==> n == c.node.right && n != c.node.left
  {
  }

  // ---------------------------------------------------------------------
  // In-order steps
  // ---------------------------------------------------------------------

  /** rb_first */
  method First(root: RbRoot) returns (n: RbNode?)
    requires root.Valid()
    ensures n == if Inorder(root.tree) == [] then null else Inorder(root.tree)[0]
  {
    n := root.node;
    if n == null {
      return;
    }
    RootPosition(root);
    ghost var c, t := Top, root.tree;
    while n.left != null
      invariant Cursor(c, t, n, root) && Before(c) == []
      decreases t
    {
      DownLeft(c, t, n, root);
      c, t := InLeft(n, t.color, t.right, c), t.left;
      n := n.left;
    }
    PlugInorder(c, t);
  }

  lemma RootPosition(root: RbRoot)
    requires root.Valid() && root.node != null
    ensures Cursor(Top, root.tree, root.node, root)
  {
  }

  /** rb_last */
  method Last(root: RbRoot) returns (n: RbNode?)
    requires root.Valid()
    ensures var s := Inorder(root.tree); n == if s == [] then null else s[|s| - 1]
  {
    n := root.node;
    if n == null {
      return;
    }
    RootPosition(root);
    ghost var c, t := Top, root.tree;
    while n.right != null
      invariant Cursor(c, t, n, root) && After(c) == []
      decreases t
    {
      DownRight(c, t, n, root);
      c, t := InRight(t.left, n, t.color, c), t.right;
      n := n.right;
    }
    PlugInorder(c, t);
  }

  /** A linked node is not RB_EMPTY_NODE: its parent is another node or NULL. */
  lemma LinkedNotCleared(n: RbNode, root: RbRoot)
    ensures root.Valid() && n in Nodes(root.tree) ==> !n.IsCleared()
  {
    if root.Valid() && n in Nodes(root.tree) {
      var c, t := CursorAt(n, root);
      NodeApart(c, t);
    }
  }

  /** rb_next; `root` is whichever tree holds the node. */
  method Next(node0: RbNode, ghost root: RbRoot) returns (next: RbNode?)
    requires node0.IsCleared() || (root.Valid() && node0 in Nodes(root.tree))
    ensures node0.IsCleared() ==> next == null
    ensures root.Valid() && node0 in Nodes(root.tree) ==> Follows(Inorder(root.tree), node0, next)
  {
    hide Inorder, Before, After, Linked, LinkedContext, Separated, SeparatedContext, Nodes, ContextNodes;
    var node := node0;
    LinkedNotCleared(node0, root);
    if node.IsCleared() {
      return null;
    }
    ghost var c, t := CursorAt(node, root);
    ghost var upto := Before(c) + Inorder(t.left);
    if node.right != null {
      DownRight(c, t, node, root);
      c, t := InRight(t.left, node, t.color, c), t.right;
      node := node.right;
      while node.left != null
        invariant Cursor(c, t, node, root) && Before(c) == upto + [node0]
        decreases t
      {
        DownLeft(c, t, node, root);
        c, t := InLeft(node, t.color, t.right, c), t.left;
        node := node.left;
      }
      FirstAfter(upto, node0, c, t);
      return node;
    }
    LastOfSubtree(c, t);
    var parent := node.parent;
    while parent != null && node == parent.right
      invariant Cursor(c, t, node, root) && parent == HoleParent(c)
      invariant Before(c) + Inorder(t) == upto + [node0]
      decreases c
    {
      Up(c, t, node, root);
      c, t := c.up, UpTree(c, t);
      node := parent;
      parent := node.parent;
    }
    EndOfSubtree(upto, node0, c, t, root);
    return parent;
  }

  lemma LastOfSubtree(c: Context<RbNode>, t: Tree<RbNode>)
    requires t.Node?
    ensures t.right.Leaf? ==> Before(c) + Inorder(t) == Before(c) + Inorder(t.left) + [t.node]
    ensures t.left.Leaf? ==> Inorder(t) + After(c) == [t.node] + (Inorder(t.right) + After(c))
  {
  }

  lemma FirstAfter(upto: seq<RbNode>, x: RbNode, c: Context<RbNode>, t: Tree<RbNode>)
    requires Before(c) == upto + [x] && t.Node? && t.left == Leaf
    ensures Follows(Inorder(Plug(c, t)), x, t.node)
  {
    PlugInorder(c, t);
    LastOfSubtree(c, t);
    var rest := [t.node] + (Inorder(t.right) + After(c));
    assert Before(c) + Inorder(t) + After(c) == Before(c) + (Inorder(t) + After(c));
    SplitFollows(upto, x, rest);
  }

  lemma EndOfSubtree(upto: seq<RbNode>, x: RbNode, c: Context<RbNode>, t: Tree<RbNode>, root: RbRoot)
    requires Focus(c, t, root) && t.Node? && Before(c) + Inorder(t) == upto + [x]
    requires c == Top || t.node != c.node.right
    ensures Follows(Inorder(Plug(c, t)), x, HoleParent(c))
  {
    PlugInorder(c, t);
    if c != Top {
      UpLinks(c, t, t.node, root);
    }
    SplitFollows(upto, x, After(c));
  }

  /** rb_prev */
  method Prev(node0: RbNode, ghost root: RbRoot) returns (prev: RbNode?)
    requires node0.IsCleared() || (root.Valid() && node0 in Nodes(root.tree))
    ensures node0.IsCleared() ==> prev == null
    ensures root.Valid() && node0 in Nodes(root.tree) ==> Precedes(Inorder(root.tree), node0, prev)
  {
    hide Inorder, Before, After, Linked, LinkedContext, Separated, SeparatedContext, Nodes, ContextNodes;
    var node := node0;
    LinkedNotCleared(node0, root);
    if node.IsCleared() {
      return null;
    }
    ghost var c, t := CursorAt(node, root);
    ghost var from := Inorder(t.right) + After(c);
    if node.left != null {
      DownLeft(c, t, node, root);
      LeftFrameOrder(node, t.color, t.right, c);
      c, t := InLeft(node, t.color, t.right, c), t.left;
      node := node.left;
      while node.right != null
        invariant Cursor(c, t, node, root) && After(c) == [node0] + from
        decreases t
      {
        DownRight(c, t, node, root);
        c, t := InRight(t.left, node, t.color, c), t.right;
        node := node.right;
      }
      LastBefore(from, node0, c, t);
      return node;
    }
    LastOfSubtree(c, t);
    var parent := node.parent;
    while parent != null && node == parent.left
      invariant Cursor(c, t, node, root) && parent == HoleParent(c)
      invariant Inorder(t) + After(c) == [node0] + from
      decreases c
    {
      Up(c, t, node, root);
      c, t := c.up, UpTree(c, t);
      node := parent;
      parent := node.parent;
    }
    StartOfSubtree(from, node0, c, t, root);
    return parent;
  }

  lemma LeftFrameOrder(x: RbNode, col: Color, r: Tree<RbNode>, c: Context<RbNode>)
    ensures After(InLeft(x, col, r, c)) == [x] + (Inorder(r) + After(c))
  {
  }

  lemma LastBefore(from: seq<RbNode>, x: RbNode, c: Context<RbNode>, t: Tree<RbNode>)
    requires After(c) == [x] + from && t.Node? && t.right == Leaf
    ensures Precedes(Inorder(Plug(c, t)), x, t.node)
  {
    PlugInorder(c, t);
    LastOfSubtree(c, t);
    var rest := Before(c) + Inorder(t.left) + [t.node];
    assert Before(c) + Inorder(t) + After(c) == rest + [x] + from;
    SplitFollows(rest, x, from);
  }

  lemma StartOfSubtree(from: seq<RbNode>, x: RbNode, c: Context<RbNode>, t: Tree<RbNode>, root: RbRoot)
    requires Focus(c, t, root) && t.Node? && Inorder(t) + After(c) == [x] + from
    requires c == Top || t.node != c.node.left
    ensures Precedes(Inorder(Plug(c, t)), x, HoleParent(c))
  {
    PlugInorder(c, t);
    if c != Top {
      UpLinks(c, t, t.node, root);
    }
    assert Before(c) + Inorder(t) + After(c) == Before(c) + (Inorder(t) + After(c));
    assert Before(c) + ([x] + from) == Before(c) + [x] + from;
    SplitFollows(Before(c), x, from);
  }

  lemma {:induction false} SeparatedDistinct(t: Tree<RbNode>)
    requires Separated(t)
    ensures Distinct(Inorder(t))
  {
    if t.Node? {
      SeparatedDistinct(t.left);
      SeparatedDistinct(t.right);
      NodesInorder(t.left);
      NodesInorder(t.right);
      var l, r := Inorder(t.left), Inorder(t.right);
      forall i, j | 0 <= i < j < |l + [t.node] + r| ensures (l + [t.node] + r)[i] != (l + [t.node] + r)[j] {
        assert i < |l| ==> l[i] in Elements(l);
        assert j > |l| ==> r[j - |l| - 1] in Elements(r);
      }
    }
  }

  /** In a tree the two steps undo each other: y follows x exactly when x precedes y. */
  lemma NextPrevInverse(root: RbRoot, x: RbNode, y: RbNode)
    requires root.Valid()
    ensures Follows(Inorder(root.tree), x, y) <==> Precedes(Inorder(root.tree), y, x)
  {
    var s := Inorder(root.tree);
    SeparatedDistinct(root.tree);
    if Follows(s, x, y) {
      var i :| NextAt(s, i, x, y);
      assert PrevAt(s, i + 1, y, x);
    }
    if Precedes(s, y, x) {
      var i :| PrevAt(s, i, y, x);
      assert NextAt(s, i - 1, x, y);
    }
  }

  /** The step is a function of the node: no node has two successors. */
  lemma NextUnique(root: RbRoot, x: RbNode, y: RbNode?, z: RbNode?)
    requires root.Valid() && Follows(Inorder(root.tree), x, y) && Follows(Inorder(root.tree), x, z)
    ensures y == z
  {
    var s := Inorder(root.tree);
    SeparatedDistinct(root.tree);
    var i :| NextAt(s, i, x, y);
    var j :| NextAt(s, j, x, z);
  }

  /** Nor two predecessors. */
  lemma PrevUnique(root: RbRoot, y: RbNode, x: RbNode?, z: RbNode?)
    requires root.Valid() && Precedes(Inorder(root.tree), y, x) && Precedes(Inorder(root.tree), y, z)
    ensures x == z
  {
    var s := Inorder(root.tree);
    SeparatedDistinct(root.tree);
    var i :| PrevAt(s, i, y, x);
    var j :| PrevAt(s, j, y, z);
  }

  /** So a step forward and a step back, or back and forward, return to the node. */
  lemma StepAndBack(root: RbRoot, x: RbNode, y: RbNode, z: RbNode?)
    requires root.Valid()
    ensures Follows(Inorder(root.tree), x, y) && Precedes(Inorder(root.tree), y, z) ==> z == x
    ensures Precedes(Inorder(root.tree), x, y) && Follows(Inorder(root.tree), y, z) ==> z == x
  {
    NextPrevInverse(root, x, y);
    NextPrevInverse(root, y, x);
    if Follows(Inorder(root.tree), x, y) && Precedes(Inorder(root.tree), y, z) {
      PrevUnique(root, y, x, z);
    }
    if Precedes(Inorder(root.tree), x, y) && Follows(Inorder(root.tree), y, z) {
      NextUnique(root, y, x, z);
    }
  }

  // ---------------------------------------------------------------------
  // Postorder
  // ---------------------------------------------------------------------

  ghost function Postorder(t: Tree<RbNode>): seq<RbNode> {
    match t
    case Leaf => []
    case Node(l, x, _, r) => Postorder(l) + Postorder(r) + [x]
  }

  /** What the postorder walk visits before and after the subtree in the hole. */
  ghost function VisitedBefore(c: Context<RbNode>): seq<RbNode> {
    match c
    case Top => []
    case InLeft(_, _, _, up) => VisitedBefore(up)
    case InRight(l, _, _, up) => VisitedBefore(up) + Postorder(l)
  }

  ghost function VisitedAfter(c: Context<RbNode>): seq<RbNode> {
    match c
    case Top => []
    case InLeft(x, _, r, up) => Postorder(r) + [x] + VisitedAfter(up)
    case InRight(_, x, _, up) => [x] + VisitedAfter(up)
  }

  lemma {:induction false} PlugPostorder(c: Context<RbNode>, t: Tree<RbNode>)
    ensures Postorder(Plug(c, t)) == VisitedBefore(c) + Postorder(t) + VisitedAfter(c)
    decreases c
  {
    match c
    case Top =>
    case InLeft(x, col, r, up) =>
      PlugPostorder(up, Node(t, x, col, r));
      Regroup([], Postorder(t), Postorder(r), [x]);
      Regroup(VisitedBefore(up), Postorder(t), Postorder(r) + [x], VisitedAfter(up));
    case InRight(l, x, col, up) =>
      PlugPostorder(up, Node(l, x, col, t));
      Regroup([], Postorder(l), Postorder(t), [x]);
      Regroup(VisitedBefore(up), Postorder(l), Postorder(t) + [x], VisitedAfter(up));
      Regroup(VisitedBefore(up) + Postorder(l), Postorder(t), [x], VisitedAfter(up));
  }

  /** Every node is visited exactly once. */
  lemma {:induction false} PostorderPermutesInorder(t: Tree<RbNode>)
    ensures multiset(Postorder(t)) == multiset(Inorder(t))
  {
    if t.Node? {
      PostorderPermutesInorder(t.left);
      PostorderPermutesInorder(t.right);
    }
  }

  /** Children before parents: everything below a node comes in the visit before it. */
  lemma PostorderChildrenFirst(root: RbRoot, c: Context<RbNode>, t: Tree<RbNode>, y: RbNode)
    requires root.Valid() && Plug(c, t) == root.tree && t.Node? && y in Nodes(t.left) + Nodes(t.right)
    ensures exists i, j :: 0 <= i < j < |Postorder(root.tree)| && Postorder(root.tree)[i] == y && Postorder(root.tree)[j] == t.node
  {
    PlugPostorder(c, t);
    var a, b, d := VisitedBefore(c), Postorder(t.left) + Postorder(t.right), VisitedAfter(c);
    assert Postorder(root.tree) == a + b + [t.node] + d;
    PostorderNodes(t.left);
    PostorderNodes(t.right);
    assert y in b;
    var k :| 0 <= k < |b| && b[k] == y;
    assert (a + b + [t.node] + d)[|a| + k] == y && (a + b + [t.node] + d)[|a| + |b|] == t.node;
  }

  lemma {:induction false} PostorderNodes(t: Tree<RbNode>)
    ensures Nodes(t) == Elements(Postorder(t))
  {
    if t.Node? {
      PostorderNodes(t.left);
      PostorderNodes(t.right);
      assert Elements(Postorder(t)) == Elements(Postorder(t.left)) + Elements(Postorder(t.right)) + {t.node};
    }
  }

  /** rb_left_deepest_node: the first node of a subtree in postorder. */
  method LeftDeepest(node0: RbNode, ghost c0: Context<RbNode>, ghost t0: Tree<RbNode>, ghost root: RbRoot) returns (node: RbNode)
    requires Cursor(c0, t0, node0, root)
    ensures node in Nodes(root.tree)
    ensures node == Postorder(t0)[0]
  {
    node := node0;
    ghost var c, t := c0, t0;
    while true
      invariant Cursor(c, t, node, root) && Postorder(t)[0] == Postorder(t0)[0]
      decreases t
    {
      if node.left != null {
        DownLeft(c, t, node, root);
        c, t := InLeft(node, t.color, t.right, c), t.left;
        node := node.left;
      } else if node.right != null {
        DownRight(c, t, node, root);
        c, t := InRight(t.left, node, t.color, c), t.right;
        node := node.right;
      } else {
        PlugNodes(c, t);
        return;
      }
    }
  }

  /** rb_first_postorder */
  method FirstPostorder(root: RbRoot) returns (n: RbNode?)
    requires root.Valid()
    ensures n == if Postorder(root.tree) == [] then null else Postorder(root.tree)[0]
  {
    if root.node == null {
      return null;
    }
    RootPosition(root);
    n := LeftDeepest(root.node, Top, root.tree, root);
  }

  /** rb_next_postorder */
  method NextPostorder(node: RbNode?, ghost root: RbRoot) returns (next: RbNode?)
    requires node != null ==> root.Valid() && node in Nodes(root.tree)
    ensures node == null ==> next == null
    ensures node != null ==> Follows(Postorder(root.tree), node, next)
  {
    if node == null {
      return null;
    }
    var parent := node.parent;
    ghost var c, t := CursorAt(node, root);
    PlugPostorder(c, t);
    SplitFollows(VisitedBefore(c) + Postorder(t.left) + Postorder(t.right), node, VisitedAfter(c));
    PostorderAround(c, t);
    if parent != null {
      Up(c, t, node, root);
    }
    if parent != null && node == parent.left && parent.right != null {
      RightSibling(c, t, node, root);
      next := LeftDeepest(parent.right, InRight(t, parent, c.color, c.up), c.right, root);
    } else {
      next := parent;
    }
  }

  lemma PostorderAround(c: Context<RbNode>, t: Tree<RbNode>)
    requires t.Node?
    ensures VisitedBefore(c) + Postorder(t) + VisitedAfter(c) ==
            VisitedBefore(c) + Postorder(t.left) + Postorder(t.right) + [t.node] + VisitedAfter(c)
  {
    hide VisitedBefore, VisitedAfter;
    RegroupVisit(VisitedBefore(c), Postorder(t.left), Postorder(t.right), t.node, VisitedAfter(c));
  }

  lemma RegroupVisit<T>(a: seq<T>, l: seq<T>, r: seq<T>, x: T, b: seq<T>)
    ensures a + (l + r + [x]) + b == a + l + r + [x] + b
  {
  }

  lemma RightSibling(c: Context<RbNode>, t: Tree<RbNode>, n: RbNode, root: RbRoot)
    requires Cursor(c, t, n, root) && c.InLeft? && c.right.Node?
    ensures Cursor(InRight(t, c.node, c.color, c.up), c.right, c.node.right, root)
  {
  }

  lemma {:induction false} PostorderDistinct(t: Tree<RbNode>)
    requires Separated(t)
    ensures Distinct(Postorder(t))
  {
    if t.Node? {
      PostorderDistinct(t.left);
      PostorderDistinct(t.right);
      PostorderNodes(t.left);
      PostorderNodes(t.right);
      var l, r := Postorder(t.left), Postorder(t.right);
      forall i, j | 0 <= i < j < |l + r + [t.node]| ensures (l + r + [t.node])[i] != (l + r + [t.node])[j] {
        assert i < |l| ==> l[i] in Elements(l);
        assert |l| <= i < |l| + |r| ==> r[i - |l|] in Elements(r);
        assert |l| <= j < |l| + |r| ==> r[j - |l|] in Elements(r);
      }
    }
  }

  lemma TreeSeparated(root: RbRoot)
    requires root.Valid()
    ensures Separated(root.tree)
  {
  }

  /** rbtree_postorder_for_each_entry_safe over the whole tree. */
  method PostorderWalk(root: RbRoot) returns (visited: seq<RbNode>)
    requires root.Valid()
    ensures visited == Postorder(root.tree)
  {
    hide Linked, LinkedContext, Separated, SeparatedContext, Nodes, ContextNodes, Inorder;
    ghost var order := Postorder(root.tree);
    TreeSeparated(root);
    PostorderDistinct(root.tree);
    PostorderNodes(root.tree);
    visited := [];
    assert allocated(Nodes(root.tree));
    var pos := FirstPostorder(root);
    while pos != null
      invariant root.Valid() && root.tree == old(root.tree)
      invariant |visited| <= |order| && visited == order[..|visited|]
      invariant pos == if |visited| < |order| then order[|visited|] else null
      decreases |order| - |visited|
    {
      assert pos in Elements(order);
      assert allocated(Nodes(root.tree));
      var next := NextPostorder(pos, root);
      ghost var i :| NextAt(order, i, pos, next);
      assert i == |visited|;
      visited := visited + [pos];
      pos := next;
    }
  }

  // ---------------------------------------------------------------------
  // Replacement
  // ---------------------------------------------------------------------

  /** `s` with `y` where `x` was. */
  ghost predicate Renamed(s: seq<RbNode>, x: RbNode, y: RbNode, s': seq<RbNode>) {
    exists i :: 0 <= i < |s| && s[i] == x && s' == s[i := y]
  }

  lemma RenamedRedBlack(c: Context<RbNode>, t: Tree<RbNode>, y: RbNode)
    requires t.Node? && RedBlack(Plug(c, t))
    ensures RedBlack(Plug(c, t.(node := y)))
  {
    PlugRedBlack(c, t);
    PlugRedBlack(c, t.(node := y));
  }

  lemma RenamedOrder(c: Context<RbNode>, t: Tree<RbNode>, y: RbNode)
    requires t.Node?
    ensures Renamed(Inorder(Plug(c, t)), t.node, y, Inorder(Plug(c, t.(node := y))))
  {
    AroundOrder(c, t);
    AroundOrder(c, t.(node := y));
    RenamedMiddle(Before(c) + Inorder(t.left), t.node, y, Inorder(t.right) + After(c));
  }

  lemma RenamedMiddle(a: seq<RbNode>, x: RbNode, y: RbNode, b: seq<RbNode>)
    ensures Renamed(a + [x] + b, x, y, a + [y] + b)
  {
    var s := a + [x] + b;
    assert s[|a|] == x && a + [y] + b == s[|a| := y];
  }

  /** The children of `victim`, if any, get `new_` as their parent. */
  method AdoptChildren(victim: RbNode, new_: RbNode, ghost t: Tree<RbNode>)
    requires t.Node? && Separated(t.left) && Separated(t.right) && Nodes(t.left) !! Nodes(t.right)
    requires victim.left == RootOf(t.left) && victim.right == RootOf(t.right)
    requires victim !in Nodes(t.left) && victim !in Nodes(t.right) && Linked(t.left, victim) && Linked(t.right, victim)
    modifies NodeSet(victim.left)`parent, NodeSet(victim.right)`parent
    ensures Linked(t.left, new_) && Linked(t.right, new_)
  {
    hide Linked, Separated, Nodes;
    if victim.left != null {
      UnfoldLinked(t.left, victim);
      victim.left.parent := new_;
    }
    FoldLinked(t.left, new_);
    if victim.right != null {
      UnfoldLinked(t.right, victim);
      victim.right.parent := new_;
    }
    FoldLinked(t.right, new_);
  }

  /** The pointer writes of rb_replace_node. */
  method ReplaceLinks(victim: RbNode, new_: RbNode, root: RbRoot, ghost c: Context<RbNode>, ghost t: Tree<RbNode>)
    requires Focus(c, t, root) && t.Node? && t.node == victim && new_ !in ContextNodes(c) && new_ !in Nodes(t)
    modifies root`node, ContextNodes(c), Nodes(t), new_
    ensures Focus(c, t.(node := new_), root)
  {
    hide Linked, LinkedContext, Separated, SeparatedContext, Nodes, ContextNodes;
    var parent := victim.parent;
    OpenNode(c, t, root);
    NodeApart(c, t);
    RenamedApart(c, t, new_);
    assert allocated(Nodes(t.left)) && allocated(Nodes(t.right)) && allocated(ContextNodes(c));
    ChangeChild(victim, new_, parent, root, c);
    AdoptChildren(victim, new_, t);
    assert allocated(Nodes(t.left)) && allocated(Nodes(t.right)) && allocated(ContextNodes(c));
    assert LinkedContext(c, root, new_);
    new_.parent, new_.color, new_.left, new_.right := victim.parent, victim.color, victim.left, victim.right;
    FoldLinked(t.(node := new_), parent);
  }

  /** rb_replace_node: `new_` takes the place and the colour of `victim`. */
  method ReplaceNode(victim: RbNode, new_: RbNode, root: RbRoot)
    requires root.Valid() && victim in Nodes(root.tree) && new_ !in Nodes(root.tree)
    modifies root, Nodes(root.tree), new_
    ensures root.Valid()
    ensures Renamed(old(Inorder(root.tree)), victim, new_, Inorder(root.tree))
  {
    hide Linked, LinkedContext, Separated, SeparatedContext, Nodes, ContextNodes, Inorder, Renamed, Plug;
    ghost var c, t := CursorAt(victim, root);
    PlugNodes(c, t);
    RenamedRedBlack(c, t, new_);
    RenamedOrder(c, t, new_);
    ReplaceLinks(victim, new_, root, c, t);
    root.tree := Plug(c, t.(node := new_));
    FocusIffPlugged(c, t.(node := new_), root);
  }

  lemma RenamedApart(c: Context<RbNode>, t: Tree<RbNode>, y: RbNode)
    requires SeparatedContext(c) && Separated(t) && ContextNodes(c) !! Nodes(t) && t.Node?
    requires y !in ContextNodes(c) && y !in Nodes(t)
    ensures var t' := t.(node := y); Separated(t') && ContextNodes(c) !! Nodes(t') && y !in Nodes(t.left) && y !in Nodes(t.right)
  {
  }
}
