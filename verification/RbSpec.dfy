/**
  The abstract side of the red-black tree: ghost trees over nodes, the five
  colour properties, and one-hole contexts that follow a pointer walking up the
  tree.  Nothing here looks at the heap; RbTree.dfy ties these values to it.
 */
module RbSpec {

  datatype Color = Red | Black

  /** A shape: which node sits where, and with what colour. NULL children are leaves. */
  datatype Tree<T> = Leaf | Node(left: Tree<T>, node: T, color: Color, right: Tree<T>)

  ghost function Inorder<T>(t: Tree<T>): seq<T> {
    match t
    case Leaf => []
    case Node(l, x, _, r) => Inorder(l) + [x] + Inorder(r)
  }

  ghost function Nodes<T>(t: Tree<T>): set<T> {
    match t
    case Leaf => {}
    case Node(l, x, _, r) => Nodes(l) + {x} + Nodes(r)
  }

  ghost function Elements<T>(s: seq<T>): set<T> {
    set x | x in s
  }

  lemma ElementsConcat<T>(a: seq<T>, x: T, b: seq<T>)
    ensures Elements(a + [x] + b) == Elements(a) + {x} + Elements(b)
  {
  }

  lemma {:induction false} NodesInorder<T>(t: Tree<T>)
    ensures Nodes(t) == Elements(Inorder(t))
  {
    if t.Node? {
      NodesInorder(t.left);
      NodesInorder(t.right);
      ElementsConcat(Inorder(t.left), t.node, Inorder(t.right));
    }
  }

  /** Two trees in the same order hold the same nodes. */
  lemma SameOrderSameNodes<T>(t: Tree<T>, t': Tree<T>)
    requires Inorder(t) == Inorder(t')
    ensures Nodes(t) == Nodes(t')
  {
    NodesInorder(t);
    NodesInorder(t');
  }

  /** No node occurs twice. */
  ghost predicate Separated<T>(t: Tree<T>) {
    match t
    case Leaf => true
    case Node(l, x, _, r) =>
      Separated(l) && Separated(r) && x !in Nodes(l) && x !in Nodes(r) && Nodes(l) !! Nodes(r)
  }

  // ---------------------------------------------------------------------
  // The red-black properties
  // ---------------------------------------------------------------------

  ghost predicate BlackRoot<T>(t: Tree<T>) {
    t.Leaf? || t.color == Black
  }

  /** Property 4: both children of every red node are black. */
  ghost predicate NoRedRed<T>(t: Tree<T>) {
    match t
    case Leaf => true
    case Node(l, _, c, r) => NoRedRed(l) && NoRedRed(r) && (c == Red ==> BlackRoot(l) && BlackRoot(r))
  }

  ghost function Weight(c: Color): nat {
    if c == Black then 1 else 0
  }

  /** Number of black nodes on the leftmost path. */
  ghost function BlackHeight<T>(t: Tree<T>): nat {
    match t
    case Leaf => 0
    case Node(l, _, c, _) => BlackHeight(l) + Weight(c)
  }

  /** Property 5, stated locally: the two sides of every node weigh the same. */
  ghost predicate Balanced<T>(t: Tree<T>) {
    match t
    case Leaf => true
    case Node(l, _, _, r) => Balanced(l) && Balanced(r) && BlackHeight(l) == BlackHeight(r)
  }

  /** A subtree that keeps properties 4 and 5, with either root colour. */
  ghost predicate Sound<T>(t: Tree<T>) {
    NoRedRed(t) && Balanced(t)
  }

  ghost predicate RedBlack<T>(t: Tree<T>) {
    Sound(t) && BlackRoot(t)
  }

  /** A root-to-NULL path, as the turns it takes (true is left). */
  ghost predicate IsPath<T>(t: Tree<T>, turns: seq<bool>) {
    match t
    case Leaf => turns == []
    case Node(l, _, _, r) => turns != [] && IsPath(if turns[0] then l else r, turns[1..])
  }

  ghost function BlacksOn<T>(t: Tree<T>, turns: seq<bool>): nat
    requires IsPath(t, turns)
  {
    match t
    case Leaf => 0
    case Node(l, _, c, r) => Weight(c) + BlacksOn(if turns[0] then l else r, turns[1..])
  }

  /** Property 5: every path from the root to a leaf holds the same number of black nodes. */
  ghost predicate PathsAgree<T>(t: Tree<T>) {
    forall p, q :: IsPath(t, p) && IsPath(t, q) ==> BlacksOn(t, p) == BlacksOn(t, q)
  }

  ghost function LeftmostPath<T>(t: Tree<T>): (turns: seq<bool>)
    ensures IsPath(t, turns) && BlacksOn(t, turns) == BlackHeight(t)
  {
    match t
    case Leaf => []
    case Node(l, _, _, _) =>
      var rest := LeftmostPath(l);
      assert ([true] + rest)[1..] == rest;
      [true] + rest
  }

  /** The local form of property 5 is the path form the source states. */
  lemma {:induction false} BalancedIffAllPathsEqual<T>(t: Tree<T>)
    ensures Balanced(t) <==> PathsAgree(t)
  {
    if Balanced(t) {
      forall p, q | IsPath(t, p) && IsPath(t, q) ensures BlacksOn(t, p) == BlacksOn(t, q) {
        BalancedPathWeight(t, p);
        BalancedPathWeight(t, q);
      }
    }
    if PathsAgree(t) {
      EqualPathsBalanced(t);
    }
  }

  lemma {:induction false} BalancedPathWeight<T>(t: Tree<T>, p: seq<bool>)
    requires Balanced(t) && IsPath(t, p)
    ensures BlacksOn(t, p) == BlackHeight(t)
    decreases t
  {
    if t.Node? {
      BalancedPathWeight(if p[0] then t.left else t.right, p[1..]);
    }
  }

  lemma {:induction false} EqualPathsBalanced<T>(t: Tree<T>)
    requires PathsAgree(t)
    ensures Balanced(t)
  {
    if t.Node? {
      forall p, q | IsPath(t.left, p) && IsPath(t.left, q) ensures BlacksOn(t.left, p) == BlacksOn(t.left, q) {
        assert ([true] + p)[1..] == p && ([true] + q)[1..] == q;
        assert IsPath(t, [true] + p) && IsPath(t, [true] + q);
      }
      forall p, q | IsPath(t.right, p) && IsPath(t.right, q) ensures BlacksOn(t.right, p) == BlacksOn(t.right, q) {
        assert ([false] + p)[1..] == p && ([false] + q)[1..] == q;
        assert IsPath(t, [false] + p) && IsPath(t, [false] + q);
      }
      EqualPathsBalanced(t.left);
      EqualPathsBalanced(t.right);
      var p, q := LeftmostPath(t.left), LeftmostPath(t.right);
      assert ([true] + p)[1..] == p && ([false] + q)[1..] == q;
      assert IsPath(t, [true] + p) && IsPath(t, [false] + q);
    }
  }

  // ---------------------------------------------------------------------
  // Height
  // ---------------------------------------------------------------------

  ghost function Height<T>(t: Tree<T>): nat {
    match t
    case Leaf => 0
    case Node(l, _, _, r) => 1 + if Height(l) < Height(r) then Height(r) else Height(l)
  }

  ghost function Size<T>(t: Tree<T>): nat {
    |Inorder(t)|
  }

  ghost function Pow2(n: nat): nat {
    if n == 0 then 1 else 2 * Pow2(n - 1)
  }

  lemma {:induction false} Pow2Monotone(a: nat, b: nat)
    requires a <= b
    ensures 1 <= Pow2(a) <= Pow2(b)
    decreases b
  {
    if a < b {
      Pow2Monotone(a, b - 1);
    } else if 0 < a {
      Pow2Monotone(a - 1, a - 1);
    }
  }

  /** A path is at most twice as long as it is black, plus one for a red root. */
  lemma {:induction false} HeightVsBlackHeight<T>(t: Tree<T>)
    requires Sound(t)
    ensures Height(t) <= 2 * BlackHeight(t) + (if BlackRoot(t) then 0 else 1)
  {
    if t.Node? {
      HeightVsBlackHeight(t.left);
      HeightVsBlackHeight(t.right);
    }
  }

  lemma {:induction false} SizeVsBlackHeight<T>(t: Tree<T>)
    requires Balanced(t)
    ensures Pow2(BlackHeight(t)) <= Size(t) + 1
  {
    if t.Node? {
      SizeVsBlackHeight(t.left);
      SizeVsBlackHeight(t.right);
      assert Size(t) == Size(t.left) + 1 + Size(t.right);
    }
  }

  /** height <= 2 * log2(n + 1), written without the logarithm. */
  lemma HeightBound<T>(t: Tree<T>)
    requires RedBlack(t)
    ensures Pow2((Height(t) + 1) / 2) <= Size(t) + 1
  {
    HeightVsBlackHeight(t);
    SizeVsBlackHeight(t);
    Pow2Monotone((Height(t) + 1) / 2, BlackHeight(t));
  }

  // ---------------------------------------------------------------------
  // Contexts: a tree with one subtree missing
  // ---------------------------------------------------------------------

  /** The path from a hole up to the root: each frame is one ancestor and its other subtree. */
  datatype Context<T> =
    | Top
    | InLeft(node: T, color: Color, right: Tree<T>, up: Context<T>)
    | InRight(left: Tree<T>, node: T, color: Color, up: Context<T>)

  ghost function Plug<T>(c: Context<T>, t: Tree<T>): Tree<T> {
    match c
    case Top => t
    case InLeft(x, col, r, up) => Plug(up, Node(t, x, col, r))
    case InRight(l, x, col, up) => Plug(up, Node(l, x, col, t))
  }

  ghost function ContextNodes<T>(c: Context<T>): set<T> {
    match c
    case Top => {}
    case InLeft(x, _, r, up) => {x} + Nodes(r) + ContextNodes(up)
    case InRight(l, x, _, up) => Nodes(l) + {x} + ContextNodes(up)
  }

  ghost predicate SeparatedContext<T>(c: Context<T>) {
    match c
    case Top => true
    case InLeft(x, _, s, up) =>
      SeparatedContext(up) && Separated(s) && x !in Nodes(s) && x !in ContextNodes(up) && Nodes(s) !! ContextNodes(up)
    case InRight(s, x, _, up) =>
      SeparatedContext(up) && Separated(s) && x !in Nodes(s) && x !in ContextNodes(up) && Nodes(s) !! ContextNodes(up)
  }

  /** The nodes before and after the hole, in order. */
  ghost function Before<T>(c: Context<T>): seq<T> {
    match c
    case Top => []
    case InLeft(_, _, _, up) => Before(up)
    case InRight(l, x, _, up) => Before(up) + Inorder(l) + [x]
  }

  ghost function After<T>(c: Context<T>): seq<T> {
    match c
    case Top => []
    case InLeft(x, _, r, up) => [x] + Inorder(r) + After(up)
    case InRight(_, _, _, up) => After(up)
  }

  lemma Regroup<T>(a: seq<T>, b: seq<T>, c: seq<T>, d: seq<T>)
    ensures a + (b + c) + d == a + b + (c + d)
  {
  }

  lemma {:induction false} PlugInorder<T>(c: Context<T>, t: Tree<T>)
    ensures Inorder(Plug(c, t)) == Before(c) + Inorder(t) + After(c)
    decreases c
  {
    match c
    case Top =>
    case InLeft(x, col, r, up) =>
      PlugInorder(up, Node(t, x, col, r));
      RegroupLeft(Before(up), Inorder(t), x, Inorder(r), After(up));
    case InRight(l, x, col, up) =>
      PlugInorder(up, Node(l, x, col, t));
      RegroupRight(Before(up), Inorder(l), x, Inorder(t), After(up));
  }

  lemma RegroupLeft<T>(a: seq<T>, l: seq<T>, x: T, r: seq<T>, b: seq<T>)
    ensures a + (l + [x] + r) + b == a + l + ([x] + r + b)
  {
  }

  lemma RegroupRight<T>(a: seq<T>, l: seq<T>, x: T, r: seq<T>, b: seq<T>)
    ensures a + (l + [x] + r) + b == (a + l + [x]) + r + b
  {
  }

  /** The order around a node: what precedes it, the node, what follows. */
  lemma AroundOrder<T>(c: Context<T>, t: Tree<T>)
    requires t.Node?
    ensures Inorder(Plug(c, t)) == (Before(c) + Inorder(t.left)) + [t.node] + (Inorder(t.right) + After(c))
  {
    PlugInorder(c, t);
    RegroupAround(Before(c), Inorder(t.left), t.node, Inorder(t.right), After(c));
  }

  lemma RegroupAround<T>(a: seq<T>, l: seq<T>, x: T, r: seq<T>, b: seq<T>)
    ensures a + (l + [x] + r) + b == (a + l) + [x] + (r + b)
  {
  }

  lemma {:induction false} PlugNodes<T>(c: Context<T>, t: Tree<T>)
    ensures Nodes(Plug(c, t)) == ContextNodes(c) + Nodes(t)
    decreases c
  {
    match c
    case Top =>
    case InLeft(x, col, r, up) => PlugNodes(up, Node(t, x, col, r));
    case InRight(l, x, col, up) => PlugNodes(up, Node(l, x, col, t));
  }

  lemma {:induction false} PlugSeparated<T>(c: Context<T>, t: Tree<T>)
    ensures Separated(Plug(c, t)) <==> SeparatedContext(c) && Separated(t) && ContextNodes(c) !! Nodes(t)
    decreases c
  {
    match c
    case Top =>
    case InLeft(x, col, r, up) => PlugSeparated(up, Node(t, x, col, r));
    case InRight(l, x, col, up) => PlugSeparated(up, Node(l, x, col, t));
  }

  /**
    `c` is what surrounds a subtree of black height `h` in a red-black tree:
    filling the hole with a sound subtree of that height and a black root gives
    a red-black tree.
   */
  ghost predicate SoundContext<T>(c: Context<T>, h: nat) {
    match c
    case Top => true
    case InLeft(_, col, s, up) =>
      Sound(s) && BlackHeight(s) == h && SoundContext(up, h + Weight(col)) &&
      (col == Red ==> BlackRoot(s) && BlackHole(up))
    case InRight(s, _, col, up) =>
      Sound(s) && BlackHeight(s) == h && SoundContext(up, h + Weight(col)) &&
      (col == Red ==> BlackRoot(s) && BlackHole(up))
  }

  /** A red root may fill the hole. */
  ghost predicate BlackHole<T>(c: Context<T>) {
    c != Top && c.color == Black
  }

  lemma {:induction false} PlugRedBlack<T>(c: Context<T>, t: Tree<T>)
    ensures RedBlack(Plug(c, t)) <==>
            Sound(t) && SoundContext(c, BlackHeight(t)) && (BlackRoot(t) || BlackHole(c))
    decreases c
  {
    match c
    case Top =>
    case InLeft(x, col, r, up) => PlugRedBlack(up, Node(t, x, col, r));
    case InRight(l, x, col, up) => PlugRedBlack(up, Node(l, x, col, t));
  }

  /** The context of a given node, searched from the root. */
  ghost function Locate<T>(t: Tree<T>, x: T, c: Context<T>): (r: (Context<T>, Tree<T>))
    requires x in Nodes(t)
    ensures r.1.Node? && r.1.node == x && Plug(r.0, r.1) == Plug(c, t)
    decreases t
  {
    if t.node == x then (c, t)
    else if x in Nodes(t.left) then Locate(t.left, x, InLeft(t.node, t.color, t.right, c))
    else Locate(t.right, x, InRight(t.left, t.node, t.color, c))
  }

  /** Where a node sits in a tree: its context and its subtree. */
  ghost function Position<T>(t: Tree<T>, x: T): (r: (Context<T>, Tree<T>))
    requires x in Nodes(t)
    ensures r.1.Node? && r.1.node == x && Plug(r.0, r.1) == t
  {
    Locate(t, x, Top)
  }

  /** One path on top of another: the hole of `b` is where the root of `a` hangs. */
  ghost function Append<T>(a: Context<T>, b: Context<T>): Context<T> {
    match a
    case Top => b
    case InLeft(x, col, s, up) => InLeft(x, col, s, Append(up, b))
    case InRight(s, x, col, up) => InRight(s, x, col, Append(up, b))
  }

  lemma {:induction false} AppendPlug<T>(a: Context<T>, b: Context<T>, t: Tree<T>)
    ensures Plug(Append(a, b), t) == Plug(b, Plug(a, t))
    decreases a
  {
    match a
    case Top =>
    case InLeft(x, col, s, up) => AppendPlug(up, b, Node(t, x, col, s));
    case InRight(s, x, col, up) => AppendPlug(up, b, Node(s, x, col, t));
  }

  /** A path that always turns left: it leads to the first node. */
  ghost predicate LeftSpine<T>(c: Context<T>) {
    c == Top || (c.InLeft? && LeftSpine(c.up))
  }

  lemma {:induction false} AppendOrder<T>(a: Context<T>, b: Context<T>)
    requires LeftSpine(a)
    ensures Before(Append(a, b)) == Before(b)
    ensures After(Append(a, b)) == After(a) + After(b)
  {
    if a != Top {
      AppendOrder(a.up, b);
    }
  }

  /** The node in a frame does not matter to soundness. */
  lemma {:induction false} AppendSound<T>(a: Context<T>, l: Tree<T>, x: T, y: T, col: Color, c: Context<T>, h: nat)
    requires SoundContext(Append(a, InRight(l, x, col, c)), h)
    ensures SoundContext(Append(a, InRight(l, y, col, c)), h)
    ensures BlackHole(Append(a, InRight(l, y, col, c))) <==> BlackHole(Append(a, InRight(l, x, col, c)))
    decreases a
  {
    if a != Top {
      AppendSound(a.up, l, x, y, col, c, h + Weight(a.color));
    }
  }

  /** `s` with the first `x` taken out. */
  function Without<T(==)>(s: seq<T>, x: T): seq<T> {
    if s == [] then [] else if s[0] == x then s[1..] else [s[0]] + Without(s[1..], x)
  }

  lemma {:induction false} WithoutMiddle<T>(a: seq<T>, x: T, b: seq<T>)
    requires x !in a
    ensures Without(a + [x] + b, x) == a + b
  {
    if a == [] {
      assert a + [x] + b == [x] + b && ([x] + b)[1..] == b == a + b;
    } else {
      HeadOff(a, x, b);
      WithoutMiddle(a[1..], x, b);
      WithoutCons(a[0], a[1..] + [x] + b, x);
    }
  }

  lemma WithoutCons<T>(y: T, s: seq<T>, x: T)
    requires y != x
    ensures Without([y] + s, x) == [y] + Without(s, x)
  {
  }

  lemma HeadOff<T>(a: seq<T>, x: T, b: seq<T>)
    requires a != []
    ensures a + [x] + b == [a[0]] + (a[1..] + [x] + b) && a + b == [a[0]] + (a[1..] + b)
  {
  }

  /** The nodes before a hole are nodes of its context. */
  lemma {:induction false} BeforeInContext<T>(c: Context<T>)
    ensures Elements(Before(c)) <= ContextNodes(c)
  {
    match c
    case Top =>
    case InLeft(x, col, s, up) => BeforeInContext(up);
    case InRight(s, x, col, up) =>
      BeforeInContext(up);
      NodesInorder(s);
      assert Elements(Before(c)) == Elements(Before(up)) + Elements(Inorder(s)) + {x};
  }

  lemma {:induction false} AfterInContext<T>(c: Context<T>)
    ensures Elements(After(c)) <= ContextNodes(c)
  {
    match c
    case Top =>
    case InLeft(x, col, s, up) =>
      AfterInContext(up);
      NodesInorder(s);
      assert Elements(After(c)) == {x} + Elements(Inorder(s)) + Elements(After(up));
    case InRight(s, x, col, up) => AfterInContext(up);
  }
}
