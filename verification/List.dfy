/**
  The circular doubly linked list of include/linux/list.h: a head that is itself
  a link, and entries threaded through it in both directions.
 */
module LinuxList {
  import opened Basics

  /** struct list_head. `entry` is what list_entry (container_of) recovers. */
  class ListHead {
    const entry: object?
    var next: ListHead?
    var prev: ListHead?

    /** INIT_LIST_HEAD: alone in its own ring. */
    constructor (entry: object?)
      ensures this.entry == entry && next == this && prev == this
    {
      this.entry := entry;
      new;
      next, prev := this, this;
    }
  }

  ghost function Members(head: ListHead, s: seq<ListHead>): set<ListHead> {
    {head} + set x | x in s
  }

  /** Neighbours on the path point at each other. */
  ghost predicate Threaded(path: seq<ListHead>)
    reads set x | x in path
  {
    forall i :: 0 <= i < |path| - 1 ==> path[i].next == path[i + 1] && path[i + 1].prev == path[i]
  }

  /** The list at `head` holds exactly the entries `s`, in this order, in both directions. */
  ghost predicate Ring(head: ListHead, s: seq<ListHead>)
    reads Members(head, s)
  {
    head !in s && Distinct(s) && Threaded([head] + s + [head])
  }

  /** INIT_LIST_HEAD on an entry that is already out of every list. */
  method InitListHead(list: ListHead)
    modifies list
    ensures Ring(list, [])
  {
    list.next := list;
    list.prev := list;
  }

  /** __list_add, between the last entry of `a` (or the head) and the first of `b` (or the head). */
  method AddBetween(new_: ListHead, prev: ListHead, next: ListHead,
                    ghost head: ListHead, ghost a: seq<ListHead>, ghost b: seq<ListHead>)
    requires Ring(head, a + b) && new_ !in Members(head, a + b)
    requires prev == ([head] + a)[|a|] && next == (b + [head])[0]
    modifies next`prev, new_, prev`next
    ensures Ring(head, a + [new_] + b)
  {
    ghost var was := [head] + (a + b) + [head];
    ghost var path := [head] + (a + [new_] + b) + [head];
    assert prev == was[|a|] && next == was[|a| + 1];
    next.prev := new_;
    new_.next := next;
    new_.prev := prev;
    prev.next := new_;
    forall i | 0 <= i < |path| - 1
      ensures path[i].next == path[i + 1] && path[i + 1].prev == path[i]
    {
      if i < |a| {
        assert path[i] == was[i] && path[i + 1] == was[i + 1];
      } else if i > |a| + 1 {
        assert path[i] == was[i - 1] && path[i + 1] == was[i];
      }
    }
    InsertDistinct(a, new_, b);
  }

  lemma InsertDistinct(a: seq<ListHead>, x: ListHead, b: seq<ListHead>)
    requires Distinct(a + b) && x !in a + b
    ensures Distinct(a + [x] + b)
  {
    var s, t := a + b, a + [x] + b;
    forall i, j | 0 <= i < j < |t| ensures t[i] != t[j] {
      assert i != |a| ==> t[i] == s[if i < |a| then i else i - 1];
      assert j != |a| ==> t[j] == s[if j < |a| then j else j - 1];
    }
  }

  /** list_add_tail */
  method AddTail(new_: ListHead, head: ListHead, ghost s: seq<ListHead>)
    requires Ring(head, s) && new_ !in Members(head, s)
    modifies Members(head, s), new_
    ensures Ring(head, s + [new_])
  {
    ghost var path := [head] + s + [head];
    assert path[|s|].next == path[|s| + 1];
    assert s + [] == s && s + [new_] + [] == s + [new_];
    AddBetween(new_, head.prev, head, head, s, []);
  }

  /** list_add */
  method AddFront(new_: ListHead, head: ListHead, ghost s: seq<ListHead>)
    requires Ring(head, s) && new_ !in Members(head, s)
    modifies Members(head, s), new_
    ensures Ring(head, [new_] + s)
  {
    ghost var path := [head] + s + [head];
    assert path[0].next == path[1];
    assert [] + s == s && [] + [new_] + s == [new_] + s;
    AddBetween(new_, head, head.next, head, [], s);
  }

  /** __list_del_entry: the neighbours of `entry` close the gap; its own links stay. */
  method Unlink(entry: ListHead, ghost head: ListHead, ghost a: seq<ListHead>, ghost b: seq<ListHead>)
    requires Ring(head, a + [entry] + b)
    modifies Members(head, a + b)
    ensures Ring(head, a + b) && entry !in Members(head, a + b)
  {
    ghost var was := [head] + (a + [entry] + b) + [head];
    ghost var path := [head] + (a + b) + [head];
    assert was[|a| + 1] == entry && was[|a|].next == entry && was[|a| + 2].prev == entry;
    assert entry.prev == was[|a|] && entry.next == was[|a| + 2];
    assert was[|a|] == path[|a|] && was[|a| + 2] == path[|a| + 1];
    var prev, next := entry.prev, entry.next;
    assert entry !in a + b by {
      assert (a + [entry] + b)[|a|] == entry;
      assert forall i :: 0 <= i < |a| ==> (a + [entry] + b)[i] == a[i];
      assert forall i :: 0 <= i < |b| ==> (a + [entry] + b)[|a| + 1 + i] == b[i];
    }
    next.prev := prev;
    prev.next := next;
    forall i | 0 <= i < |path| - 1
      ensures path[i].next == path[i + 1] && path[i + 1].prev == path[i]
    {
      if i < |a| {
        assert path[i] == was[i] && path[i + 1] == was[i + 1];
      } else if i > |a| {
        assert path[i] == was[i + 1] && path[i + 1] == was[i + 2];
      }
    }
    forall i, j | 0 <= i < j < |a + b| ensures (a + b)[i] != (a + b)[j] {
      var s := a + [entry] + b;
      assert (a + b)[i] == s[if i < |a| then i else i + 1];
      assert (a + b)[j] == s[if j < |a| then j else j + 1];
    }
  }

  /** list_del */
  method Del(entry: ListHead, ghost head: ListHead, ghost a: seq<ListHead>, ghost b: seq<ListHead>)
    requires Ring(head, a + [entry] + b)
    modifies Members(head, a + [entry] + b)
    ensures Ring(head, a + b) && entry.next == null && entry.prev == null
  {
    Unlink(entry, head, a, b);
    entry.next := null;
    entry.prev := null;
  }

  /** list_del_init */
  method DelInit(entry: ListHead, ghost head: ListHead, ghost a: seq<ListHead>, ghost b: seq<ListHead>)
    requires Ring(head, a + [entry] + b)
    modifies Members(head, a + [entry] + b)
    ensures Ring(head, a + b) && Ring(entry, [])
  {
    Unlink(entry, head, a, b);
    InitListHead(entry);
  }

  /** list_move_tail */
  method MoveTail(entry: ListHead, head: ListHead, ghost a: seq<ListHead>, ghost b: seq<ListHead>)
    requires Ring(head, a + [entry] + b)
    modifies Members(head, a + [entry] + b)
    ensures Ring(head, a + b + [entry])
  {
    Unlink(entry, head, a, b);
    AddTail(entry, head, a + b);
  }

  /** list_first_entry, on a list that is not empty. */
  method First(head: ListHead, ghost s: seq<ListHead>) returns (entry: ListHead)
    requires Ring(head, s) && s != []
    ensures entry == s[0]
  {
    ghost var path := [head] + s + [head];
    assert path[0].next == path[1];
    entry := head.next;
  }

  /** list_empty */
  method IsEmpty(head: ListHead, ghost s: seq<ListHead>) returns (empty: bool)
    requires Ring(head, s)
    ensures empty <==> s == []
  {
    ghost var path := [head] + s + [head];
    assert path[0].next == path[1];
    empty := head.next == head;
  }
}
