/**
  The search trees of disk/qcow.c: cached tables keyed by their offset in the
  image, looked up and inserted in the red-black tree.
 */
module CacheTree {
  import opened RbSpec
  import opened RbTree
  import opened RbWalk
  import RbInsert
  import LinuxList

  /**
    struct qcow_l2_table and its twin struct qcow_refcount_block: an offset, the
    tree link, the list link, and the entries read from the image.
   */
  class CachedTable {
    const offset: nat
    var node: RbNode?
    var list: LinuxList.ListHead?
    var dirty: bool
    var table: seq<nat>

    /** new_cache_table: zeroed entries, links that are in no tree and no list. */
    constructor (offset: nat, size: nat)
      ensures this.offset == offset && |table| == size && !dirty
      ensures node != null && fresh(node) && node.entry == this && node.IsCleared()
      ensures list != null && fresh(list) && list.entry == this
    {
      this.offset := offset;
      dirty := false;
      table := seq(size, _ => 0);
      node, list := null, null;
      new;
      node := new RbNode(this);
      list := new LinuxList.ListHead(this);
    }
  }

  /** rb_entry(n, ...)->offset */
  ghost function Key(n: RbNode): nat {
    if n.entry is CachedTable then (n.entry as CachedTable).offset else 0
  }

  ghost predicate Sorted(s: seq<RbNode>) {
    forall i, j :: 0 <= i < j < |s| ==> Key(s[i]) < Key(s[j])
  }

  ghost predicate AllBelow(s: seq<RbNode>, k: nat) {
    forall i :: 0 <= i < |s| ==> Key(s[i]) < k
  }

  ghost predicate AllAbove(k: nat, s: seq<RbNode>) {
    forall i :: 0 <= i < |s| ==> k < Key(s[i])
  }

  ghost predicate Typed(nodes: set<RbNode>) {
    forall n :: n in nodes ==> n.entry is CachedTable
  }

  /** A search for `k` has reached the slot `link`, below which `k` must be if anywhere. */
  ghost predicate Searching(c: Context<RbNode>, t: Tree<RbNode>, link: RbNode?, k: nat, root: RbRoot)
    reads root, ContextNodes(c), Nodes(t)
  {
    Focus(c, t, root) && Plug(c, t) == root.tree && link == RootOf(t) && AllBelow(Before(c), k) && AllAbove(k, After(c))
  }

  lemma StartSearch(k: nat, root: RbRoot)
    requires root.Valid()
    ensures Searching(Top, root.tree, root.node, k, root)
  {
  }

  lemma SearchLeft(c: Context<RbNode>, t: Tree<RbNode>, link: RbNode, k: nat, root: RbRoot)
    requires Searching(c, t, link, k, root) && Sorted(Inorder(root.tree)) && k < Key(link)
    ensures t.Node? && Searching(InLeft(link, t.color, t.right, c), t.left, link.left, k, root)
    ensures Height(t.left) < Height(t)
  {
    hide Linked, LinkedContext, Separated, SeparatedContext, Nodes, ContextNodes, Inorder, Before, After;
    OpenNode(c, t, root);
    FocusIffPlugged(c, t, root);
    FocusIffPlugged(InLeft(link, t.color, t.right, c), t.left, root);
    AroundOrder(c, t);
    LeftFrameOrder(link, t.color, t.right, c);
    LeftFrameBefore(link, t.color, t.right, c);
    AboveNode(Before(c) + Inorder(t.left), link, Inorder(t.right) + After(c), k);
  }

  lemma LeftFrameBefore(x: RbNode, col: Color, r: Tree<RbNode>, c: Context<RbNode>)
    ensures Before(InLeft(x, col, r, c)) == Before(c)
  {
  }

  lemma AboveNode(a: seq<RbNode>, x: RbNode, b: seq<RbNode>, k: nat)
    requires Sorted(a + [x] + b) && k < Key(x)
    ensures AllAbove(k, [x] + b)
  {
    var s := a + [x] + b;
    assert s[|a|] == x;
    forall i | 0 <= i < |b| ensures k < Key(b[i]) {
      assert s[|a| + 1 + i] == b[i];
    }
  }

  lemma SearchRight(c: Context<RbNode>, t: Tree<RbNode>, link: RbNode, k: nat, root: RbRoot)
    requires Searching(c, t, link, k, root) && Sorted(Inorder(root.tree)) && Key(link) < k
    ensures t.Node? && Searching(InRight(t.left, link, t.color, c), t.right, link.right, k, root)
    ensures Height(t.right) < Height(t)
  {
    hide Linked, LinkedContext, Separated, SeparatedContext, Nodes, ContextNodes, Inorder, Before, After;
    OpenNode(c, t, root);
    FocusIffPlugged(c, t, root);
    FocusIffPlugged(InRight(t.left, link, t.color, c), t.right, root);
    AroundOrder(c, t);
    RightFrameOrder(t.left, link, t.color, c);
    BelowNode(Before(c) + Inorder(t.left), link, Inorder(t.right) + After(c), k);
  }

  lemma RightFrameOrder(l: Tree<RbNode>, x: RbNode, col: Color, c: Context<RbNode>)
    ensures Before(InRight(l, x, col, c)) == Before(c) + Inorder(l) + [x]
    ensures After(InRight(l, x, col, c)) == After(c)
  {
  }

  lemma BelowNode(a: seq<RbNode>, x: RbNode, b: seq<RbNode>, k: nat)
    requires Sorted(a + [x] + b) && Key(x) < k
    ensures AllBelow(a + [x], k)
  {
    var s := a + [x] + b;
    assert s[|a|] == x;
    forall i | 0 <= i < |a| ensures Key(a[i]) < k {
      assert s[i] == a[i];
    }
  }

  lemma SearchNode(c: Context<RbNode>, t: Tree<RbNode>, link: RbNode, k: nat, root: RbRoot)
    requires Searching(c, t, link, k, root)
    ensures link in Nodes(root.tree) && t.Node? && Height(t) > 0
  {
    PlugNodes(c, t);
  }

  /** An empty slot: every key of the tree is on one side of `k`. */
  lemma SearchEmpty(c: Context<RbNode>, t: Tree<RbNode>, k: nat, root: RbRoot)
    requires Searching(c, t, null, k, root)
    ensures t == Leaf && forall n :: n in Nodes(root.tree) ==> Key(n) != k
  {
    hide Linked, LinkedContext, Separated, SeparatedContext, Nodes, ContextNodes, Inorder, Before, After;
    SlotSplit(c);
    NodesInorder(root.tree);
    NoneEqual(Before(c), After(c), k);
  }

  lemma SlotSplit(c: Context<RbNode>)
    ensures Inorder(Plug(c, Leaf)) == Before(c) + After(c)
    ensures Nodes(Plug(c, Leaf)) == ContextNodes(c)
  {
    PlugInorder(c, Leaf);
    PlugNodes(c, Leaf);
  }

  lemma NoneEqual(a: seq<RbNode>, b: seq<RbNode>, k: nat)
    requires AllBelow(a, k) && AllAbove(k, b)
    ensures forall n :: n in Elements(a + b) ==> Key(n) != k
  {
  }

  /**
    l2_table_lookup and refcount_block_lookup: the table cached for `offset`, if
    there is one, after at most as many comparisons as the tree is high.
   */
  method Lookup(root: RbRoot, offset: nat) returns (found: CachedTable?, ghost steps: nat)
    requires root.Valid() && Sorted(Inorder(root.tree)) && Typed(Nodes(root.tree))
    ensures found != null ==> found.offset == offset && exists n :: n in Nodes(root.tree) && n.entry == found
    ensures found == null ==> forall n :: n in Nodes(root.tree) ==> Key(n) != offset
    ensures Pow2((steps + 1) / 2) <= Size(root.tree) + 1
  {
    hide Inorder, Before, After, Nodes, Linked, LinkedContext, Separated, SeparatedContext;
    HeightBound(root.tree);
    var link := root.node;
    steps := 0;
    StartSearch(offset, root);
    ghost var c, t := Top, root.tree;
    while link != null
      invariant Searching(c, t, link, offset, root)
      invariant steps + Height(t) <= Height(root.tree)
      decreases Height(t)
    {
      SearchNode(c, t, link, offset, root);
      steps := steps + 1;
      var entry := link.entry as CachedTable;
      if entry.offset > offset {
        SearchLeft(c, t, link, offset, root);
        c, t := InLeft(link, t.color, t.right, c), t.left;
        link := link.left;
      } else if entry.offset < offset {
        SearchRight(c, t, link, offset, root);
        c, t := InRight(t.left, link, t.color, c), t.right;
        link := link.right;
      } else {
        found := entry;
        FewSteps(steps, root.tree);
        return;
      }
    }
    SearchEmpty(c, t, offset, root);
    FewSteps(steps, root.tree);
    return null, steps;
  }

  lemma FewSteps(steps: nat, t: Tree<RbNode>)
    requires steps <= Height(t) && Pow2((Height(t) + 1) / 2) <= Size(t) + 1
    ensures Pow2((steps + 1) / 2) <= Size(t) + 1
  {
    Pow2Monotone((steps + 1) / 2, (Height(t) + 1) / 2);
  }

  /** `s` with `x` added at some place. */
  ghost predicate Inserted(s: seq<RbNode>, x: RbNode, s': seq<RbNode>) {
    exists i :: 0 <= i <= |s| && s' == s[..i] + [x] + s[i..]
  }

  /**
    l2_table_insert and refcount_block_insert. A key that is already there leaves
    the tree as it was, and the call still reports success.
   */
  method Insert(root: RbRoot, new_: CachedTable)
    requires root.Valid() && Sorted(Inorder(root.tree)) && Typed(Nodes(root.tree))
    requires new_.node != null && new_.node.entry == new_ && new_.node !in Nodes(root.tree)
    modifies root, Nodes(root.tree), new_.node
    ensures root.Valid() && Sorted(Inorder(root.tree)) && Typed(Nodes(root.tree))
    ensures if exists n :: n in old(Nodes(root.tree)) && Key(n) == new_.offset then root.tree == old(root.tree)
            else Inserted(old(Inorder(root.tree)), new_.node, Inorder(root.tree)) &&
                 Nodes(root.tree) == old(Nodes(root.tree)) + {new_.node}
  {
    hide Inorder, Before, After, Nodes, ContextNodes, Linked, LinkedContext, Separated, SeparatedContext, Inserted;
    var link, parent, left := root.node, null, false;
    var offset := new_.offset;
    StartSearch(offset, root);
    ghost var c, t := Top, root.tree;
    while link != null
      invariant Searching(c, t, link, offset, root) && parent == HoleParent(c)
      invariant parent != null ==> left == c.InLeft?
      invariant root.Valid()
      modifies {}
      decreases t
    {
      SearchNode(c, t, link, offset, root);
      var entry := link.entry as CachedTable;
      parent := link;
      if entry.offset > offset {
        SearchLeft(c, t, link, offset, root);
        c, t := InLeft(link, t.color, t.right, c), t.left;
        link, left := link.left, true;
      } else if entry.offset < offset {
        SearchRight(c, t, link, offset, root);
        c, t := InRight(t.left, link, t.color, c), t.right;
        link, left := link.right, false;
      } else {
        return;
      }
    }
    SearchEmpty(c, t, offset, root);
    SlotOrder(c, new_.node, offset, root);
    RbInsert.LinkNode(new_.node, parent, left, root, c);
    RbInsert.InsertColor(new_.node, root, c);
  }

  lemma SlotOrder(c: Context<RbNode>, x: RbNode, k: nat, root: RbRoot)
    requires Searching(c, Leaf, null, k, root) && Sorted(Inorder(root.tree)) && Key(x) == k
    ensures Inserted(Inorder(root.tree), x, Before(c) + [x] + After(c))
    ensures Sorted(Before(c) + [x] + After(c))
    ensures ContextNodes(c) == Nodes(root.tree)
  {
    hide Linked, LinkedContext, Separated, SeparatedContext, Nodes, ContextNodes, Inorder, Before, After;
    SlotSplit(c);
    InsertedSorted(Before(c), x, After(c));
  }

  lemma InsertedSorted(a: seq<RbNode>, x: RbNode, b: seq<RbNode>)
    requires Sorted(a + b) && AllBelow(a, Key(x)) && AllAbove(Key(x), b)
    ensures Sorted(a + [x] + b) && Inserted(a + b, x, a + [x] + b)
  {
    var s, s' := a + b, a + [x] + b;
    assert s[..|a|] == a && s[|a|..] == b;
    forall i, j | 0 <= i < j < |s'| ensures Key(s'[i]) < Key(s'[j]) {
      assert i != |a| ==> s'[i] == s[if i < |a| then i else i - 1];
      assert j != |a| ==> s'[j] == s[if j < |a| then j else j - 1];
      assert i < |a| ==> s'[i] == a[i];
      assert j > |a| ==> s'[j] == b[j - |a| - 1];
    }
  }
}
