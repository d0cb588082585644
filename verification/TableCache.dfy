/**
  The caches of disk/qcow.c (struct qcow_l1_table and struct qcow_refcount_table):
  a search tree, a recency list and a counter over the same tables.
 */
module TableCache {
  import opened Basics
  import opened RbSpec
  import opened RbTree
  import opened CacheTree
  import opened LinuxList
  import Lru
  import RbErase


  ghost function Offsets(tables: seq<CachedTable>): seq<nat> {
    seq(|tables|, i requires 0 <= i < |tables| => tables[i].offset)
  }

  ghost predicate DistinctOffsets(tables: seq<CachedTable>) {
    forall i, j :: 0 <= i < j < |tables| ==> tables[i].offset != tables[j].offset
  }

  /** Each table with its own tree link and list link; no offset twice. */
  ghost predicate Aligned(tables: seq<CachedTable>, nodes: seq<RbNode>, links: seq<ListHead>)
    reads set t | t in tables
  {
    |tables| == |nodes| == |links| && DistinctOffsets(tables) &&
    forall i :: 0 <= i < |tables| ==>
      tables[i].node == nodes[i] && tables[i].list == links[i] &&
      nodes[i].entry == tables[i] && links[i].entry == tables[i]
  }

  lemma AlignedRotated(tables: seq<CachedTable>, nodes: seq<RbNode>, links: seq<ListHead>, k: int)
    requires Aligned(tables, nodes, links) && 0 <= k < |tables|
    ensures Aligned(Rotated(tables, k), Rotated(nodes, k), Rotated(links, k))
  {
  }

  lemma FirstWired(tables: seq<CachedTable>, nodes: seq<RbNode>, links: seq<ListHead>)
    requires Aligned(tables, nodes, links) && tables != []
    ensures |links| == |nodes| == |tables| && links[0].entry == tables[0] && nodes[0].entry == tables[0]
    ensures tables[0].node == nodes[0] && tables[0].list == links[0] && nodes[0] in Elements(nodes)
  {
  }

  lemma MembersAppend(head: ListHead, links: seq<ListHead>, x: ListHead)
    ensures Members(head, links + [x]) == Members(head, links) + {x}
  {
  }

  lemma MembersTail(head: ListHead, links: seq<ListHead>)
    requires links != []
    ensures Members(head, links[1..]) <= Members(head, links)
    ensures links == [] + [links[0]] + links[1..] && links[1..] == [] + links[1..]
  {
  }

  lemma AlignedTail(tables: seq<CachedTable>, nodes: seq<RbNode>, links: seq<ListHead>)
    requires Aligned(tables, nodes, links) && tables != []
    ensures Aligned(tables[1..], nodes[1..], links[1..])
    ensures Elements(nodes[1..]) == Elements(nodes) - {nodes[0]}
  {
  }

  lemma OffsetsTail(tables: seq<CachedTable>)
    requires tables != []
    ensures forall x :: x in Offsets(tables[1..]) ==> x in Offsets(tables)
  {
    assert Offsets(tables[1..]) == Offsets(tables)[1..];
  }

  lemma AlignedAppend(tables: seq<CachedTable>, nodes: seq<RbNode>, links: seq<ListHead>, c: CachedTable)
    requires Aligned(tables, nodes, links) && c.offset !in Offsets(tables)
    requires c.node != null && c.list != null && c.node.entry == c && c.list.entry == c
    ensures Aligned(tables + [c], nodes + [c.node], links + [c.list])
    ensures var n: RbNode := c.node; Elements(nodes + [n]) == Elements(nodes) + {n}
  {
    forall i | 0 <= i < |tables| ensures tables[i].offset != c.offset {
      assert Offsets(tables)[i] == tables[i].offset;
    }
  }

  lemma SameMembers(head: ListHead, s: seq<ListHead>, s': seq<ListHead>)
    requires Elements(s) == Elements(s')
    ensures Members(head, s) == Members(head, s')
  {
  }

  lemma NotALink(o: object, head: ListHead, s: seq<ListHead>)
    requires !(o is ListHead)
    ensures o !in set x: object | x in Members(head, s)
  {
  }

  class Cache {
    const root: RbRoot
    const lru: ListHead
    var nrCached: int
    /** The cached tables, least recently used first, with their links. */
    ghost var tables: seq<CachedTable>
    ghost var nodes: seq<RbNode>
    ghost var links: seq<ListHead>

    /** The tree, the list and the counter agree on what is cached. */
    ghost predicate Valid()
      reads this, root, lru, Nodes(root.tree), Members(lru, links), set t | t in tables
    {
      root.Valid() && Sorted(Inorder(root.tree)) && Ring(lru, links) &&
      nrCached == |tables| <= MAX_CACHE_NODES && Nodes(root.tree) == Elements(nodes) &&
      Aligned(tables, nodes, links)
    }

    /** Every object an operation may touch, apart from the tables themselves. */
    ghost function Footprint(): set<object>
      reads this, root
    {
      {this, root, lru} + Nodes(root.tree) + Members(lru, links)
    }

    constructor ()
      ensures Valid() && tables == [] && fresh(root) && fresh(lru)
    {
      root := new RbRoot();
      lru := new ListHead(null);
      nrCached := 0;
      tables, nodes, links := [], [], [];
      new;
      assert [lru] + [] + [lru] == [lru, lru];
    }

    /** Only links, nodes, their heads and the cache itself are in its footprint. */
    lemma Outside(o: object)
      requires !(o is RbNode) && !(o is ListHead) && !(o is RbRoot) && !(o is Cache)
      ensures o !in Footprint()
    {
    }

    lemma OffsetsDistinct()
      requires Valid()
      ensures DistinctOffsets(tables) && |tables| <= MAX_CACHE_NODES
    {
    }

    lemma NodeOfTable(n: RbNode) returns (i: int)
      requires Valid() && n in Nodes(root.tree)
      ensures 0 <= i < |tables| && nodes[i] == n && n.entry == tables[i] && Key(n) == tables[i].offset
    {
      i :| 0 <= i < |nodes| && nodes[i] == n;
    }

    lemma AbsentOffset(offset: nat)
      requires Valid() && forall n :: n in Nodes(root.tree) ==> Key(n) != offset
      ensures offset !in Offsets(tables)
    {
      forall i | 0 <= i < |tables| ensures tables[i].offset != offset {
        assert nodes[i] in Elements(nodes);
      }
    }

    lemma PresentOffset(n: RbNode)
      requires Valid() && n in Nodes(root.tree)
      ensures Key(n) in Offsets(tables)
    {
      var i := NodeOfTable(n);
      assert Offsets(tables)[i] == tables[i].offset;
    }

    lemma TypedNodes()
      requires Valid()
      ensures Typed(Nodes(root.tree))
    {
    }

    /** l2_table_search, refcount_block_search: a hit becomes the most recently used. */
    method Search(offset: nat) returns (found: CachedTable?)
      requires Valid()
      modifies this, Members(lru, links)
      ensures Valid() && Footprint() == old(Footprint())
      ensures found == null <==> offset !in old(Offsets(tables))
      ensures found == null ==> tables == old(tables)
      ensures found != null ==> found.offset == offset && MovedToTail(old(tables), found, tables)
    {
      hide Nodes, Inorder, Linked, LinkedContext, Separated, SeparatedContext, Ring, Threaded, Members;
      TypedNodes();
      ghost var steps;
      assert allocated(Members(lru, links)) && allocated(Nodes(root.tree));
      found, steps := Lookup(root, offset);
      if found == null {
        AbsentOffset(offset);
        return;
      }
      ghost var n :| n in Nodes(root.tree) && n.entry == found;
      ghost var k := NodeOfTable(n);
      assert Offsets(tables)[k] == offset;
      MoveToTail(found, k);
    }

    /** list_move_tail on the entry at position `k` of the recency order. */
    method MoveToTail(t: CachedTable, ghost k: int)
      requires Valid() && 0 <= k < |tables| && tables[k] == t
      modifies this, Members(lru, links)
      ensures Valid() && MovedToTail(old(tables), t, tables) && root.tree == old(root.tree)
      ensures Members(lru, links) == old(Members(lru, links))
    {
      hide Nodes, Inorder, Linked, LinkedContext, Separated, SeparatedContext, Ring, Threaded, Sorted;
      ghost var a, b := links[..k], links[k + 1..];
      assert links == a + [links[k]] + b;
      assert allocated(Nodes(root.tree));
      MoveTail(t.list, lru, a, b);
      RotatedElements(nodes, k);
      AlignedRotated(tables, nodes, links, k);
      assert Rotated(links, k) == a + b + [links[k]];
      ghost var order := Rotated(links, k);
      NotALink(this, lru, order);
      RotatedElements(links, k);
      SameMembers(lru, links, order);
      nodes, tables := Rotated(nodes, k), Rotated(tables, k);
      assert Ring(lru, order);
      links := order;
    }

    /**
      cache_table, cache_refcount_block: called only for an offset that is not
      cached. A full cache gives up its least recently used table first.
     */
    method Add(c: CachedTable)
      requires Valid() && c.offset !in Offsets(tables)
      requires c.node != null && c.node.entry == c && c.node !in Nodes(root.tree)
      requires c.list != null && c.list.entry == c && c.list !in Members(lru, links)
      modifies Footprint(), c.node, c.list
      ensures Valid() && Footprint() <= old(Footprint()) + {c.node, c.list}
      ensures tables == (if |old(tables)| == MAX_CACHE_NODES then old(tables)[1..] else old(tables)) + [c]
    {
      hide Nodes, Inorder, Linked, LinkedContext, Separated, SeparatedContext, Ring, Threaded, Sorted, Members,
        Aligned;
      if nrCached == MAX_CACHE_NODES {
        Evict();
      }
      Append(c);
    }

    /** The insertion in cache_table: into the tree, at the tail of the list, and counted. */
    method Append(c: CachedTable)
      requires Valid() && c.offset !in Offsets(tables) && |tables| < MAX_CACHE_NODES
      requires c.node != null && c.node.entry == c && c.node !in Nodes(root.tree)
      requires c.list != null && c.list.entry == c && c.list !in Members(lru, links)
      modifies this, root, Nodes(root.tree), Members(lru, links), c.node, c.list
      ensures Valid() && tables == old(tables) + [c]
      ensures Nodes(root.tree) == old(Nodes(root.tree)) + {c.node}
      ensures Members(lru, links) == old(Members(lru, links)) + {c.list}
    {
      hide Elements, Key, Offsets, Nodes, Inorder, Linked, LinkedContext, Separated, SeparatedContext, Ring,
        Threaded, Sorted, Members, Aligned, Typed, RbRoot.Valid;
      TypedNodes();
      NoSuchKey(c.offset);
      AlignedAppend(tables, nodes, links, c);
      assert allocated(Members(lru, links));
      var n: RbNode, link: ListHead := c.node, c.list;
      AddNode(c, n);
      assert allocated(Nodes(root.tree));
      assert Ring(lru, links);
      AppendLink(link);
      nrCached := nrCached + 1;
      tables, nodes := tables + [c], nodes + [n];
    }

    /** The tree half, for a key that is not there. */
    method AddNode(c: CachedTable, n: RbNode)
      requires root.Valid() && Sorted(Inorder(root.tree)) && Typed(Nodes(root.tree))
      requires c.node == n && n.entry == c && n !in Nodes(root.tree)
      requires forall x :: x in Nodes(root.tree) ==> Key(x) != c.offset
      modifies root, Nodes(root.tree), n
      ensures root.Valid() && Sorted(Inorder(root.tree)) && Nodes(root.tree) == old(Nodes(root.tree)) + {n}
    {
      hide Inserted, Key, Nodes, Inorder, Linked, LinkedContext, Separated, SeparatedContext, Sorted, Typed, RbRoot.Valid;
      CacheTree.Insert(root, c);
    }

    /** The list half: list_add_tail. */
    method AppendLink(link: ListHead)
      requires Ring(lru, links) && link !in Members(lru, links)
      modifies `links, Members(lru, links), link
      ensures Ring(lru, links) && links == old(links) + [link]
      ensures Members(lru, links) == old(Members(lru, links)) + {link}
    {
      hide Ring, Threaded, Members, Elements;
      AddTail(link, lru, links);
      ghost var order := links + [link];
      MembersAppend(lru, links, link);
      NotALink(this, lru, order);
      links := order;
    }

    lemma NoSuchKey(offset: nat)
      requires Valid() && offset !in Offsets(tables)
      ensures forall n :: n in Nodes(root.tree) ==> Key(n) != offset
    {
      forall n | n in Nodes(root.tree) ensures Key(n) != offset {
        PresentOffset(n);
      }
    }

    /** The eviction in cache_table: the head of the list leaves the list, the tree and the count. */
    method Evict()
      requires Valid() && 0 < |tables|
      modifies this, root, Nodes(root.tree), Members(lru, links)
      ensures Valid() && tables == old(tables)[1..]
      ensures Nodes(root.tree) <= old(Nodes(root.tree)) && Members(lru, links) <= old(Members(lru, links))
      ensures forall x :: x in Offsets(tables) ==> x in old(Offsets(tables))
    {
      hide Elements, Nodes, Inorder, Linked, LinkedContext, Separated, SeparatedContext, Ring, Threaded, Aligned, Members,
        Sorted, Offsets, Without, RbRoot.Valid;
      assert allocated(Members(lru, links)) && allocated(Nodes(root.tree));
      FirstWired(tables, nodes, links);
      var first := LinuxList.First(lru, links);
      MembersTail(lru, links);
      var victim := first.entry as CachedTable;
      AlignedTail(tables, nodes, links);
      OffsetsTail(tables);
      DropNode(victim.node);
      assert allocated(Nodes(root.tree));
      assert Ring(lru, links);
      DropLink(victim.list);
      nrCached := nrCached - 1;
      tables, nodes := tables[1..], nodes[1..];
    }

    /** The tree half: rb_erase, which keeps the keys sorted. */
    method DropNode(node: RbNode)
      requires root.Valid() && Sorted(Inorder(root.tree)) && node in Nodes(root.tree)
      modifies root, Nodes(root.tree)
      ensures root.Valid() && Sorted(Inorder(root.tree)) && Nodes(root.tree) == old(Nodes(root.tree)) - {node}
    {
      hide Nodes, Inorder, Linked, LinkedContext, Separated, SeparatedContext, Sorted, Without, RbRoot.Valid;
      ErasedSorted(root.tree, node);
      RbErase.Erase(node, root);
    }

    /** The list half: list_del_init of the first entry. */
    method DropLink(link: ListHead)
      requires Ring(lru, links) && links != [] && links[0] == link
      modifies `links, Members(lru, links)
      ensures Ring(lru, links) && links == old(links)[1..]
      ensures Members(lru, links) <= old(Members(lru, links))
    {
      hide Ring, Threaded, Elements;
      ghost var order := links[1..];
      MembersTail(lru, links);
      NotALink(this, lru, links);
      NotALink(this, lru, order);
      assert links == [] + [link] + order;
      DelInit(link, lru, [], order);
      links := order;
    }
  }

  function Rotated<T>(s: seq<T>, k: int): seq<T>
    requires 0 <= k < |s|
  {
    s[..k] + s[k + 1..] + [s[k]]
  }

  /** `s'` is `s` with `t` moved to the end. */
  ghost predicate MovedToTail(s: seq<CachedTable>, t: CachedTable, s': seq<CachedTable>) {
    exists k :: 0 <= k < |s| && s[k] == t && s' == Rotated(s, k)
  }

  lemma RotatedElements<T>(s: seq<T>, k: int)
    requires 0 <= k < |s|
    ensures Elements(Rotated(s, k)) == Elements(s)
  {
  }

  /** Taking a node out keeps the keys sorted. */
  lemma ErasedSorted(t: Tree<RbNode>, n: RbNode)
    requires Sorted(Inorder(t))
    ensures Sorted(Without(Inorder(t), n))
  {
    WithoutSorted(Inorder(t), n);
  }

  lemma {:induction false} WithoutSorted(s: seq<RbNode>, n: RbNode)
    requires Sorted(s)
    ensures Sorted(Without(s, n)) && forall x :: x in Without(s, n) ==> x in s
  {
    if s != [] {
      assert Sorted(s[1..]);
      WithoutSorted(s[1..], n);
      if s[0] != n {
        SortedCons(s[0], Without(s[1..], n), s[1..]);
      }
    }
  }

  lemma SortedCons(x: RbNode, w: seq<RbNode>, rest: seq<RbNode>)
    requires Sorted(w) && Sorted([x] + rest) && forall y :: y in w ==> y in rest
    ensures Sorted([x] + w)
  {
    forall i | 0 <= i < |w| ensures Key(x) < Key(w[i]) {
      assert w[i] in rest;
      var j :| 0 <= j < |rest| && rest[j] == w[i];
      assert ([x] + rest)[0] == x && ([x] + rest)[j + 1] == w[i];
    }
    forall i, j | 0 <= i < j < |[x] + w| ensures Key(([x] + w)[i]) < Key(([x] + w)[j]) {
      assert ([x] + w)[j] == w[j - 1];
    }
  }

  /** A hit and a miss both act on the offsets as one request of the recency order. */
  lemma MovedOffsets(s: seq<CachedTable>, t: CachedTable, s': seq<CachedTable>)
    requires DistinctOffsets(s) && MovedToTail(s, t, s')
    ensures Offsets(s') == Lru.Touch(Offsets(s), t.offset, MAX_CACHE_NODES)
  {
    var k :| 0 <= k < |s| && s[k] == t && s' == Rotated(s, k);
    hide Without;
    var o := Offsets(s);
    SplitAt(o, k);
    WithoutMiddle(o[..k], t.offset, o[k + 1..]);
    RotatedOffsets(s, k);
  }

  lemma SplitAt<T>(s: seq<T>, k: nat)
    requires k < |s|
    ensures s == s[..k] + [s[k]] + s[k + 1..]
  {
  }

  lemma RotatedOffsets(s: seq<CachedTable>, k: nat)
    requires k < |s|
    ensures Offsets(Rotated(s, k)) == Offsets(s)[..k] + Offsets(s)[k + 1..] + [s[k].offset]
  {
  }

  lemma AddedOffsets(s: seq<CachedTable>, c: CachedTable)
    requires c.offset !in Offsets(s) && |s| <= MAX_CACHE_NODES
    ensures var s' := (if |s| == MAX_CACHE_NODES then s[1..] else s) + [c];
      Offsets(s') == Lru.Touch(Offsets(s), c.offset, MAX_CACHE_NODES)
  {
  }
}
