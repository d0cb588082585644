/**
  The refcount blocks that disk/qcow.c keeps in memory: which of them the allocator
  requests, in what order, and when that frees one it is still to write to.
 */
module BlockCache {
  import opened Basics
  import opened QcowCounts
  import RbSpec
  import Lru

  /** The blocks requested by looking at the counts of the clusters of [a, b) in turn. */
  ghost function Reads(s: Refcounts, a: nat, b: nat): seq<nat> {
    if b <= a then [] else Reads(s, a, b - 1) + s.Request(b - 1)
  }

  /** The blocks one update of the count of `c` requests, the search standing at `from`; a new one is requested when it is made. */
  ghost function Requests(s: Refcounts, c: nat, from: nat): seq<nat>
    requires s.Shaped()
    decreases s.Missing()
  {
    if s.HasBlock(c) then s.Request(c)
    else
      var b := FirstFree(s, from);
      if s.Group(c) >= |s.table| || b == 0 || s.IsBlock(b) then []
      else
        WithBlockOf(s, c, b);
        Reads(s, from, b + 1) + [b * s.ClusterSize()] + Requests(s.WithBlock(c, b), b, b + 1)
  }

  /** The groups between the one of `from` and that of the first free cluster after `from`. */
  ghost function FullBetween(s: Refcounts, from: nat): int
    requires s.Shaped()
  {
    s.Group(FirstFree(s, from + 1)) - s.Group(from) - 1
  }

  /**
    The block made for `c` goes to the last cluster of a group without one, and the search
    for that group's own block passes so many groups that the cache frees the first.
   */
  ghost predicate HeldLost(s: Refcounts, c: nat, from: nat)
    requires s.Shaped()
  {
    !s.HasBlock(c) && s.Group(from) != s.Group(c) && !s.HasBlock(from) && s.Slot(from) == s.perBlock - 1 &&
    MAX_CACHE_NODES - 2 <= FullBetween(s, from)
  }

  /** That happens at the first cluster without a block of the run found for a request. */
  ghost predicate RequestLost(s: Refcounts, start: nat, end: nat)
    requires s.Shaped()
  {
    exists c :: start <= c < end && HeldLost(s, c, end) && forall k :: start <= k < c ==> s.HasBlock(k)
  }

  /** Cached are only blocks the table names, each once and no more than there is room for. */
  ghost predicate CachedIn(cached: seq<nat>, table: seq<nat>) {
    Lru.WithinCapacity(cached, MAX_CACHE_NODES) && forall o :: o in cached ==> o != 0 && o in table
  }

  /** No entry of the table that names a block has changed. */
  ghost predicate NamesKept(table: seq<nat>, table': seq<nat>) {
    |table'| == |table| && forall i :: 0 <= i < |table| && table[i] != 0 ==> table'[i] == table[i]
  }

  /** A look at one count is at most one request, for a block the table names. */
  lemma RequestOne(s: Refcounts, cached: seq<nat>, c: nat)
    requires s.Shaped() && CachedIn(cached, s.table)
    ensures s.HasBlock(c) ==> Lru.RunFrom(cached, s.Request(c), MAX_CACHE_NODES) == Lru.Touch(cached, s.table[c / s.perBlock], MAX_CACHE_NODES)
    ensures !s.HasBlock(c) ==> Lru.RunFrom(cached, s.Request(c), MAX_CACHE_NODES) == cached
    ensures CachedIn(Lru.RunFrom(cached, s.Request(c), MAX_CACHE_NODES), s.table)
  {
    hide Refcounts.Shaped, Lru.Touch, Lru.WithinCapacity;
    Lru.RunWithin(cached, s.Request(c), MAX_CACHE_NODES);
    if s.HasBlock(c) {
      RunOne(cached, s.table[c / s.perBlock]);
    }
  }

  lemma RunOne(cached: seq<nat>, o: nat)
    ensures Lru.RunFrom(cached, [o], MAX_CACHE_NODES) == Lru.Touch(cached, o, MAX_CACHE_NODES)
  {
    hide Lru.Touch;
    assert [o][..0] == [];
    assert Lru.RunFrom(cached, [], MAX_CACHE_NODES) == cached;
  }

  lemma NoReads(s: Refcounts, cached: seq<nat>, a: nat)
    ensures Reads(s, a, a) == [] && Lru.RunFrom(cached, Reads(s, a, a), MAX_CACHE_NODES) == cached
  {
  }

  lemma ReadNext(s: Refcounts, cached: seq<nat>, a: nat, b: nat)
    requires a <= b
    ensures Lru.RunFrom(cached, Reads(s, a, b + 1), MAX_CACHE_NODES) ==
      Lru.RunFrom(Lru.RunFrom(cached, Reads(s, a, b), MAX_CACHE_NODES), s.Request(b), MAX_CACHE_NODES)
  {
    Lru.RunTwice(cached, Reads(s, a, b), s.Request(b), MAX_CACHE_NODES);
  }

  /** What an update requests for a cluster that has a block. */
  lemma RequestBlock(s: Refcounts, cached: seq<nat>, c: nat, from: nat)
    requires s.Shaped() && CachedIn(cached, s.table)
    ensures s.HasBlock(c) ==> Requests(s, c, from) == s.Request(c) && !HeldLost(s, c, from)
    ensures s.HasBlock(c) ==> Lru.RunFrom(cached, s.Request(c), MAX_CACHE_NODES) == Lru.Touch(cached, s.table[c / s.perBlock], MAX_CACHE_NODES)
    ensures s.HasBlock(c) ==> CachedIn(Lru.Touch(cached, s.table[c / s.perBlock], MAX_CACHE_NODES), s.table)
    ensures !s.HasBlock(c) ==> s.Request(c) == [] && Lru.RunFrom(cached, s.Request(c), MAX_CACHE_NODES) == cached
    ensures NamesKept(s.table, s.table)
  {
    hide Refcounts.Shaped, Lru.RunFrom, Lru.Touch, CachedIn;
    RequestOne(s, cached, c);
  }

  lemma NameKept(a: seq<nat>, b: seq<nat>, i: nat)
    requires NamesKept(a, b) && i < |a| && a[i] != 0
    ensures b[i] == a[i]
  {
  }

  lemma NamesTwice(a: seq<nat>, b: seq<nat>, c: seq<nat>)
    requires NamesKept(a, b) && NamesKept(b, c)
    ensures NamesKept(a, c)
  {
  }

  /** A new block is not in the cache, goes in as its most recent one, and is named like all others there. */
  lemma Entered(s: Refcounts, c: nat, b: nat, cached: seq<nat>)
    requires s.Shaped() && s.Group(c) < |s.table| && !s.HasBlock(c) && b != 0 && !s.IsBlock(b) && CachedIn(cached, s.table)
    ensures var x := b * (2 * s.perBlock); var table := s.table[c / s.perBlock := x];
      x !in cached && NamesKept(s.table, table) && CachedIn(Lru.Touch(cached, x, MAX_CACHE_NODES), table) &&
      Lru.RunFrom(cached, [x], MAX_CACHE_NODES) == Lru.Touch(cached, x, MAX_CACHE_NODES)
  {
    NewOffset(s, b);
    RunOne(cached, b * (2 * s.perBlock));
    hide Refcounts.IsBlock, Lru.WithinCapacity, Lru.Touch, Lru.RunFrom;
    EnteredAt(s.table, c / s.perBlock, b * s.ClusterSize(), cached);
  }

  lemma EnteredAt(table: seq<nat>, i: nat, x: nat, cached: seq<nat>)
    requires i < |table| && table[i] == 0 && x != 0 && CachedIn(cached, table)
    requires forall j :: 0 <= j < |table| && table[j] != 0 ==> table[j] != x
    ensures var table' := table[i := x];
      x !in cached && NamesKept(table, table') && CachedIn(Lru.Touch(cached, x, MAX_CACHE_NODES), table')
  {
    hide Lru.WithinCapacity, Lru.Touch;
    Lru.TouchWithin(cached, x, MAX_CACHE_NODES);
    var table' := table[i := x];
    assert table'[i] == x;
    forall o | o in table && o != 0 ensures o in table' {
      var j :| 0 <= j < |table| && table[j] == o;
      assert table'[j] == o;
    }
  }

  /** The block of a block is still in the cache when it is written. */
  lemma NextNotLost(s: Refcounts, c: nat)
    requires s.Shaped()
    ensures !HeldLost(s, c, c + 1)
  {
    NextSlot(s, c);
  }

  /** The requests of a growth: those of its search, its own, and those of counting its cluster. */
  lemma RequestsGrown(s: Refcounts, c: nat, from: nat, b: nat, cached: seq<nat>)
    requires s.Shaped() && s.FirstRun(from, b, 1) && !s.HasBlock(c) && s.Group(c) < |s.table| && b != 0 && !s.IsBlock(b)
    ensures s.WithBlock(c, b).Shaped()
    ensures Lru.RunFrom(cached, Requests(s, c, from), MAX_CACHE_NODES) ==
      Lru.RunFrom(Lru.RunFrom(Lru.RunFrom(cached, Reads(s, from, b + 1), MAX_CACHE_NODES), [b * s.ClusterSize()], MAX_CACHE_NODES),
        Requests(s.WithBlock(c, b), b, b + 1), MAX_CACHE_NODES)
  {
    FirstIs(s, from, b);
    hide Refcounts.Of, Refcounts.Shaped, Refcounts.IsBlock, Refcounts.HasBlock, Refcounts.Missing, Refcounts.Group,
      Refcounts.FirstRun, Refcounts.WithBlock, FirstFree, Reads, Lru.RunFrom;
    WithBlockOf(s, c, b);
    var search, x, rest := Reads(s, from, b + 1), [b * s.ClusterSize()], Requests(s.WithBlock(c, b), b, b + 1);
    assert Requests(s, c, from) == search + x + rest;
    Lru.RunTwice(cached, search + x, rest, MAX_CACHE_NODES);
    Lru.RunTwice(cached, search, x, MAX_CACHE_NODES);
  }

  /** Free clusters from `from` on hold no block. */
  ghost predicate FreeAreNoBlocks(s: Refcounts, from: nat)
    requires s.Shaped()
  {
    forall k: nat {:trigger s.IsBlock(k)} :: from <= k && s.Of(k) == 0 ==> !s.IsBlock(k)
  }

  /** The offsets of the blocks of the groups of [a, b). */
  ghost function BlocksOf(s: Refcounts, a: nat, b: nat): set<nat>
    requires a <= b <= |s.table|
  {
    RbSpec.Elements(s.table[a..b])
  }

  // ---------------------------------------------------------------------
  // What a search, and then a growth, requests
  // ---------------------------------------------------------------------

  lemma {:induction false} ReadsMembers(s: Refcounts, a: nat, b: nat)
    ensures forall o :: o in Reads(s, a, b) <==> exists k :: a <= k < b && s.HasBlock(k) && o in s.Request(k)
  {
    if a < b {
      ReadsMembers(s, a, b - 1);
      hide Refcounts.HasBlock, Refcounts.Request;
      forall o ensures o in Reads(s, a, b) <==> exists k :: a <= k < b && s.HasBlock(k) && o in s.Request(k) {
        if o in s.Request(b - 1) {
          assert s.HasBlock(b - 1) by { RequestOf(s, b - 1); }
        }
      }
    }
  }

  lemma SameRequest(s: Refcounts, s': Refcounts, c: nat)
    requires s.perBlock == s'.perBlock && s.table == s'.table
    ensures s.Request(c) == s'.Request(c)
  {
  }

  lemma RequestOf(s: Refcounts, c: nat)
    ensures forall o :: o in s.Request(c) <==> s.HasBlock(c) && o == s.table[s.Group(c)]
  {
  }

  /** A search over clusters without a block requests nothing. */
  lemma ReadsNone(s: Refcounts, a: nat, b: nat)
    requires forall k :: a <= k < b ==> !s.HasBlock(k)
    ensures RbSpec.Elements(Reads(s, a, b)) == {}
  {
    hide Refcounts.HasBlock, Refcounts.Request, Reads;
    ReadsMembers(s, a, b);
  }

  /** One that starts at a group and ends at the first free cluster requests each block on the way. */
  lemma ReadsGroups(s: Refcounts, a: nat)
    requires s.Shaped() && s.Slot(a) == 0 && s.Group(FirstFree(s, a)) <= |s.table|
    ensures s.Group(a) <= s.Group(FirstFree(s, a))
    ensures var d := FirstFree(s, a);
      var last := if s.HasBlock(d) then {s.table[s.Group(d)]} else {};
      RbSpec.Elements(Reads(s, a, d + 1)) == BlocksOf(s, s.Group(a), s.Group(d)) + last
    ensures forall g :: s.Group(a) <= g < s.Group(FirstFree(s, a)) ==> s.table[g] != 0
  {
    var d := FirstFree(s, a);
    hide Refcounts.Shaped, FirstFree, Reads, Refcounts.Of;
    DivMonotone(a, d, s.perBlock);
    ReadsMembers(s, a, d + 1);
    forall o | o in Reads(s, a, d + 1) ensures o in BlocksOf(s, s.Group(a), s.Group(d)) || (s.HasBlock(d) && o == s.table[s.Group(d)]) {
      var k :| a <= k < d + 1 && s.HasBlock(k) && o in s.Request(k);
      DivMonotone(a, k, s.perBlock);
      DivMonotone(k, d, s.perBlock);
      assert s.Group(a) <= s.Group(k) <= s.Group(d) && o == s.table[s.Group(k)];
      if s.Group(k) < s.Group(d) {
        assert s.table[s.Group(a)..s.Group(d)][s.Group(k) - s.Group(a)] == o;
      }
    }
    forall g | s.Group(a) <= g < s.Group(d) ensures s.table[g] != 0 && s.table[g] in Reads(s, a, d + 1) {
      GroupStart(s, a, g, d);
      assert s.HasBlock(g * s.perBlock) && s.table[g] in s.Request(g * s.perBlock) by { Counted(s, g * s.perBlock); }
    }
    assert s.HasBlock(d) ==> s.table[s.Group(d)] in s.Request(d);
  }

  lemma BlocksCount(s: Refcounts, a: nat, b: nat)
    requires s.Shaped() && a <= b <= |s.table| && forall g :: a <= g < b ==> s.table[g] != 0
    ensures |BlocksOf(s, a, b)| == b - a
  {
    Lru.ElementsCount(s.table[a..b]);
  }

  /** In a group without a block the next slot is free as well. */
  lemma NextInGroup(s: Refcounts, c: nat)
    requires s.Shaped() && !s.HasBlock(c) && s.Slot(c) != s.perBlock - 1
    ensures s.Group(c + 1) == s.Group(c) && !s.HasBlock(c + 1) && FirstFree(s, c + 1) == c + 1
  {
    NextSlot(s, c);
    NoBlock(s, c, c + 1);
  }

  /** Counting a new block in a group that has none: what is requested after the block itself. */
  lemma AfterOne(s: Refcounts, c: nat)
    requires s.Shaped() && !s.HasBlock(c) && s.Group(c) < |s.table| && FreeAreNoBlocks(s, c + 1)
    requires s.Slot(c) != s.perBlock - 1
    ensures RbSpec.Elements(Requests(s, c, c + 1)) == {(c + 1) * s.ClusterSize()}
  {
    NextInGroup(s, c);
    hide Refcounts.Of, Refcounts.Shaped, Refcounts.IsBlock, Refcounts.HasBlock, Refcounts.Missing, Refcounts.Group,
      Refcounts.Slot, FirstFree, Reads, FreeAreNoBlocks;
    FreeNoBlock(s, c + 1, c + 1);
    WithBlockOf(s, c, c + 1);
    ReadsNone(s, c + 1, c + 2);
    OwnBlock(s, c, c + 1);
  }

  lemma FreeNoBlock(s: Refcounts, from: nat, b: nat)
    requires s.Shaped() && FreeAreNoBlocks(s, from) && from <= b && FirstFree(s, from) == b
    ensures !s.IsBlock(b) && s.Of(b) == 0
  {
  }

  /** A new block in the group it counts is looked up, and there it is. */
  lemma OwnBlock(s: Refcounts, c: nat, b: nat)
    requires s.Shaped() && s.Group(c) < |s.table| && !s.HasBlock(c) && b != 0 && !s.IsBlock(b) && s.Group(b) == s.Group(c)
    ensures s.WithBlock(c, b).Shaped() && Requests(s.WithBlock(c, b), b, b + 1) == [b * s.ClusterSize()]
  {
    WithBlockShaped(s, c, b);
    SameGrouping(s, s.WithBlock(c, b), b);
  }

  lemma OtherBlock(s: Refcounts, c: nat, b: nat)
    requires s.Shaped() && s.Group(c) < |s.table| && !s.HasBlock(c) && b != 0 && !s.IsBlock(b) && s.HasBlock(b)
    ensures s.WithBlock(c, b).Shaped() && Requests(s.WithBlock(c, b), b, b + 1) == [s.table[s.Group(b)]]
  {
    WithBlockShaped(s, c, b);
    SameGrouping(s, s.WithBlock(c, b), b);
  }

  lemma NewBlockAgain(s: Refcounts, c: nat, b: nat)
    requires s.Shaped() && s.Group(c) < |s.table| && !s.HasBlock(c) && b != 0 && !s.IsBlock(b) && !s.HasBlock(b)
    requires s.Group(b) < |s.table| && s.Group(b) != s.Group(c) && s.Slot(b) != s.perBlock - 1 && FreeAreNoBlocks(s, b)
    ensures s.WithBlock(c, b).Shaped()
    ensures RbSpec.Elements(Requests(s.WithBlock(c, b), b, b + 1)) == {(b + 1) * s.ClusterSize()}
  {
    hide Refcounts.Of, Refcounts.Shaped, Refcounts.IsBlock, Refcounts.HasBlock, Refcounts.Missing, Refcounts.Group,
      Refcounts.Slot;
    WithBlockOf(s, c, b);
    SameGrouping(s, s.WithBlock(c, b), b);
    AfterOne(s.WithBlock(c, b), b);
  }

  /** Where the first free cluster is in a group without a block, the next slot is in that group too. */
  lemma FirstInGroup(s: Refcounts, c: nat, d: nat)
    requires s.Shaped() && s.Slot(c) == s.perBlock - 1 && d == FirstFree(s, c + 1) && !s.HasBlock(d)
    ensures s.Slot(d) != s.perBlock - 1
  {
    NextSlot(s, d - 1);
    if c + 1 < d {
      NoBlock(s, d, d - 1);
    }
  }

  /** The block requested last: that of the first free cluster, or a second new one. */
  ghost function LastRequest(s: Refcounts, d: nat): nat
    requires 0 < s.perBlock && s.Group(d) < |s.table|
  {
    if s.HasBlock(d) then s.table[s.Group(d)] else (d + 1) * s.ClusterSize()
  }

  /** The same where the new block took the last slot: every block passed is requested, and at the end one more. */
  lemma AfterLast(s: Refcounts, c: nat, d: nat)
    requires s.Shaped() && !s.HasBlock(c) && s.Group(c) < |s.table| && FreeAreNoBlocks(s, c + 1)
    requires s.Slot(c) == s.perBlock - 1 && d == FirstFree(s, c + 1) && s.Group(d) < |s.table|
    ensures s.Group(c) + 1 <= s.Group(d) && forall g :: s.Group(c) < g < s.Group(d) ==> s.table[g] != 0
    ensures RbSpec.Elements(Requests(s, c, c + 1)) ==
      BlocksOf(s, s.Group(c) + 1, s.Group(d)) + {d * s.ClusterSize()} + {LastRequest(s, d)}
  {
    hide Refcounts.Of, Refcounts.Shaped, Refcounts.IsBlock, Refcounts.HasBlock, Refcounts.Missing, Refcounts.Group,
      Refcounts.Slot, FirstFree, Reads, FreeAreNoBlocks, BlocksOf, Requests, Refcounts.ClusterSize;
    NoBlock(s, c, c);
    LastSlot(s, c);
    NextSlot(s, c);
    ReadsGroups(s, c + 1);
    FreeNoBlock(s, c + 1, d);
    AfterLastStep(s, c, d);
    AfterSecond(s, c, d);
    assert s.Group(c + 1) == s.Group(c) + 1;
    var passed, all := BlocksOf(s, s.Group(c) + 1, s.Group(d)), RbSpec.Elements(Requests(s, c, c + 1));
    var x, last := d * s.ClusterSize(), LastRequest(s, d);
    if s.HasBlock(d) {
      assert all == (passed + {last}) + {x} + {last};
    } else {
      assert all == (passed + {}) + {x} + {last};
    }
  }

  lemma AfterSecond(s: Refcounts, c: nat, d: nat)
    requires s.Shaped() && !s.HasBlock(c) && s.Group(c) < |s.table| && FreeAreNoBlocks(s, c + 1) && !s.IsBlock(d)
    requires s.Slot(c) == s.perBlock - 1 && d == FirstFree(s, c + 1) && s.Group(d) < |s.table| && s.Group(c) < s.Group(d)
    ensures s.WithBlock(c, d).Shaped()
    ensures RbSpec.Elements(Requests(s.WithBlock(c, d), d, d + 1)) == {LastRequest(s, d)}
  {
    hide Refcounts.Of, Refcounts.Shaped, Refcounts.IsBlock, Refcounts.HasBlock, Refcounts.Missing, Refcounts.Group,
      Refcounts.Slot, FirstFree, FreeAreNoBlocks, Requests, Refcounts.ClusterSize;
    if s.HasBlock(d) {
      OtherBlock(s, c, d);
    } else {
      FirstInGroup(s, c, d);
      FreeLater(s, c + 1, d);
      NewBlockAgain(s, c, d);
    }
  }

  lemma FreeLater(s: Refcounts, from: nat, from': nat)
    requires s.Shaped() && FreeAreNoBlocks(s, from) && from <= from'
    ensures FreeAreNoBlocks(s, from')
  {
  }

  lemma AfterLastStep(s: Refcounts, c: nat, d: nat)
    requires s.Shaped() && !s.HasBlock(c) && s.Group(c) < |s.table| && d == FirstFree(s, c + 1) && !s.IsBlock(d)
    ensures s.WithBlock(c, d).Shaped()
    ensures RbSpec.Elements(Requests(s, c, c + 1)) ==
      RbSpec.Elements(Reads(s, c + 1, d + 1)) + {d * s.ClusterSize()} + RbSpec.Elements(Requests(s.WithBlock(c, d), d, d + 1))
  {
    hide Refcounts.Of, Refcounts.Shaped, Refcounts.IsBlock, Refcounts.HasBlock, Refcounts.Missing, Refcounts.Group,
      Refcounts.Slot, FirstFree, Reads;
    WithBlockOf(s, c, d);
  }

  /** The blocks requested after a new one that took the last slot: two more than were passed, and none twice. */
  lemma AfterCount(s: Refcounts, c: nat, d: nat, g: nat)
    requires s.Shaped() && !s.HasBlock(c) && s.Group(c) < |s.table| && FreeAreNoBlocks(s, c + 1)
    requires s.Slot(c) == s.perBlock - 1 && d == FirstFree(s, c + 1) && s.Group(d) < |s.table|
    requires g < s.Group(c) && s.table[g] != 0
    ensures |RbSpec.Elements(Requests(s, c, c + 1))| == FullBetween(s, c) + 2 && s.table[g] !in Requests(s, c, c + 1)
  {
    hide Refcounts.Of, Refcounts.IsBlock, Refcounts.HasBlock, Refcounts.Missing, Refcounts.Shaped, Refcounts.Group,
      Refcounts.Slot, Refcounts.ClusterSize, FirstFree, BlocksOf, Requests, LastRequest, FreeAreNoBlocks, FullBetween;
    NoBlock(s, c, c);
    AfterLast(s, c, d);
    BlocksCount(s, s.Group(c) + 1, s.Group(d));
    Passed(s, c, d, g);
    FullIs(s, c, d);
    TwoMore(RbSpec.Elements(Requests(s, c, c + 1)), BlocksOf(s, s.Group(c) + 1, s.Group(d)), d * s.ClusterSize(), LastRequest(s, d));
    assert s.table[g] !in RbSpec.Elements(Requests(s, c, c + 1));
  }

  lemma TwoMore(all: set<nat>, some: set<nat>, x: nat, y: nat)
    requires all == some + {x} + {y} && x !in some && y !in some && x != y
    ensures |all| == |some| + 2
  {
  }

  lemma FullIs(s: Refcounts, c: nat, d: nat)
    requires s.Shaped() && d == FirstFree(s, c + 1)
    ensures FullBetween(s, c) == s.Group(d) - s.Group(c) - 1
  {
  }

  /** The last two requests are for no block that was passed. */
  lemma Passed(s: Refcounts, c: nat, d: nat, g0: nat)
    requires s.Shaped() && FreeAreNoBlocks(s, c + 1)
    requires s.Slot(c) == s.perBlock - 1 && d == FirstFree(s, c + 1) && s.Group(d) < |s.table| && s.Group(c) + 1 <= s.Group(d)
    requires forall g :: s.Group(c) < g < s.Group(d) ==> s.table[g] != 0
    requires g0 < s.Group(c) && s.table[g0] != 0
    ensures var passed := BlocksOf(s, s.Group(c) + 1, s.Group(d));
      d * s.ClusterSize() !in passed && LastRequest(s, d) !in passed && LastRequest(s, d) != d * s.ClusterSize() &&
      s.table[g0] !in passed && s.table[g0] != d * s.ClusterSize() && s.table[g0] != LastRequest(s, d)
  {
    hide Refcounts.Of, Refcounts.IsBlock, Refcounts.Missing, FirstFree, Refcounts.Slot, FreeAreNoBlocks, Refcounts.Shaped,
      Refcounts.Group, Refcounts.ClusterSize, BlocksOf;
    var a, b := s.Group(c) + 1, s.Group(d);
    LastTwo(s, c, d);
    OtherName(s, a, b, g0);
    NotNamed(s, a, b, d * s.ClusterSize());
    if s.HasBlock(d) {
      OtherName(s, a, b, b);
      OtherName(s, b, b + 1, g0);
    } else {
      NotNamed(s, a, b, (d + 1) * s.ClusterSize());
    }
  }

  /** No entry of the table names the new blocks. */
  lemma LastTwo(s: Refcounts, c: nat, d: nat)
    requires s.Shaped() && FreeAreNoBlocks(s, c + 1) && s.Slot(c) == s.perBlock - 1 && d == FirstFree(s, c + 1)
    ensures forall i :: 0 <= i < |s.table| && s.table[i] != 0 ==> s.table[i] != d * s.ClusterSize()
    ensures !s.HasBlock(d) ==> forall i :: 0 <= i < |s.table| && s.table[i] != 0 ==> s.table[i] != (d + 1) * s.ClusterSize()
    ensures d * s.ClusterSize() != 0 && d * s.ClusterSize() != (d + 1) * s.ClusterSize()
  {
    hide Refcounts.Of, Refcounts.IsBlock, Refcounts.HasBlock, Refcounts.Missing, Refcounts.Shaped, Refcounts.Group,
      Refcounts.Slot, Refcounts.AtCluster, FirstFree, FreeAreNoBlocks;
    GroupFacts(s, d);
    FreeNoBlock(s, c + 1, d);
    NewOffset(s, d);
    assert (d + 1) * s.ClusterSize() == d * s.ClusterSize() + s.ClusterSize();
    if !s.HasBlock(d) {
      FirstInGroup(s, c, d);
      NextInGroup(s, d);
      AreNoBlocks(s, c + 1, d + 1);
      NewOffset(s, d + 1);
    }
  }

  lemma AreNoBlocks(s: Refcounts, from: nat, b: nat)
    requires s.Shaped() && FreeAreNoBlocks(s, from) && from <= b && s.Of(b) == 0
    ensures !s.IsBlock(b)
  {
  }

  lemma OtherName(s: Refcounts, a: nat, b: nat, g: nat)
    requires s.Shaped() && a <= b <= |s.table| && g < |s.table| && s.table[g] != 0 && !(a <= g < b)
    ensures s.table[g] !in BlocksOf(s, a, b) && forall i :: a <= i < b ==> s.table[i] != s.table[g]
  {
  }

  lemma NotNamed(s: Refcounts, a: nat, b: nat, o: nat)
    requires a <= b <= |s.table| && o != 0 && forall i :: 0 <= i < |s.table| && s.table[i] != 0 ==> s.table[i] != o
    ensures o !in BlocksOf(s, a, b)
  {
  }

  // ---------------------------------------------------------------------
  // When the block that is held leaves the cache
  // ---------------------------------------------------------------------

  /** In the state after the first new block: the condition is about what counting it passes. */
  lemma HeldLostNext(s: Refcounts, c: nat, from: nat, b: nat)
    requires s.Shaped() && s.FirstRun(from, b, 1) && c < from && !s.HasBlock(c) && s.Group(c) < |s.table| && b != 0 && !s.IsBlock(b)
    ensures var s' := s.WithBlock(c, b);
      s'.Shaped() && (HeldLost(s, c, from) <==>
        !s'.HasBlock(b) && s'.Slot(b) == s'.perBlock - 1 && MAX_CACHE_NODES - 2 <= FullBetween(s', b))
  {
    hide Refcounts.Of, Refcounts.IsBlock, Refcounts.HasBlock, Refcounts.Missing, Refcounts.Shaped, Refcounts.Group,
      Refcounts.Slot, Refcounts.FirstRun, Refcounts.WithBlock, FirstFree;
    WithBlockOf(s, c, b);
    FirstIs(s, from, b);
    SearchAt(s, from, b);
    NoBlock(s, from, from);
    var s' := s.WithBlock(c, b);
    SameFirstFree(s, s', b + 1);
    SameGrouping(s, s', b);
    SameGrouping(s, s', FirstFree(s, b + 1));
    if s.Of(from) == 0 {
      FirstAt(s, from);
    }
  }

  /** A search that ends at the last slot of a group without a block has looked at no other cluster. */
  lemma SearchAt(s: Refcounts, from: nat, b: nat)
    requires s.Shaped() && s.FirstRun(from, b, 1)
    ensures 2 <= s.perBlock && (s.Slot(b) == s.perBlock - 1 && !s.HasBlock(b) ==> b == from)
  {
    FirstCounted(s, from, b);
    hide Refcounts.Of, Refcounts.HasBlock, Refcounts.Group, Refcounts.Slot, Refcounts.FirstRun;
    if from < b {
      NextSlot(s, b - 1);
      NoBlock(s, b, b - 1);
    }
  }

  /** With the block of group `g` last in the cache, it is still there after a cluster of a later group was counted, or too much was passed. */
  lemma HeldAfter(s: Refcounts, c: nat, g: nat, cached: seq<nat>)
    requires s.Shaped() && FreeAreNoBlocks(s, c + 1) && !TooFar(s, c, c + 1)
    requires s.Group(c) < |s.table| && g <= s.Group(c) && s.table[g] != 0
    requires Lru.WithinCapacity(cached, MAX_CACHE_NODES) && Lru.Held(cached, s.table[g], {}, MAX_CACHE_NODES)
    ensures s.table[g] in Lru.RunFrom(cached, Requests(s, c, c + 1), MAX_CACHE_NODES) <==>
      !(!s.HasBlock(c) && s.Slot(c) == s.perBlock - 1 && MAX_CACHE_NODES - 2 <= FullBetween(s, c))
    ensures !s.HasBlock(c) ==> s.table[g] !in Requests(s, c, c + 1)
  {
    hide Refcounts.Of, Refcounts.IsBlock, Refcounts.HasBlock, Refcounts.Missing, Refcounts.Shaped, Refcounts.Group,
      Refcounts.Slot, FirstFree, FreeAreNoBlocks, TooFar, Requests, FullBetween, Lru.RunFrom, Lru.WithinCapacity, Lru.Held;
    var x, requests := s.table[g], Requests(s, c, c + 1);
    NoBlock(s, c, c);
    GroupFacts(s, c);
    if s.HasBlock(c) {
      HeldOne(s, c, x, cached);
    } else {
      if s.Slot(c) == s.perBlock - 1 {
        InTable(s, c);
        AfterCount(s, c, FirstFree(s, c + 1), g);
      } else {
        AfterOneOther(s, c, g);
      }
      Lru.RunHeld(cached, x, {}, requests, MAX_CACHE_NODES);
      assert {} + RbSpec.Elements(requests) == RbSpec.Elements(requests);
      HeldIsIn(Lru.RunFrom(cached, requests, MAX_CACHE_NODES), x, RbSpec.Elements(requests));
    }
  }

  lemma HeldIsIn(cached: seq<nat>, x: nat, r: set<nat>)
    requires Lru.Held(cached, x, r, MAX_CACHE_NODES)
    ensures x in cached <==> |r| < MAX_CACHE_NODES
  {
  }

  /** One lookup does not make room for itself at the cost of the last one. */
  lemma HeldOne(s: Refcounts, c: nat, x: nat, cached: seq<nat>)
    requires s.Shaped() && s.HasBlock(c)
    requires Lru.WithinCapacity(cached, MAX_CACHE_NODES) && Lru.Held(cached, x, {}, MAX_CACHE_NODES)
    ensures x in Lru.RunFrom(cached, Requests(s, c, c + 1), MAX_CACHE_NODES)
  {
    var o := s.table[s.Group(c)];
    assert Requests(s, c, c + 1) == [o];
    hide Refcounts.Shaped, Refcounts.HasBlock, Requests, Lru.RunFrom, Lru.Touch, Lru.WithinCapacity, Lru.Held;
    RunOne(cached, o);
    Lru.TouchWithin(cached, o, MAX_CACHE_NODES);
    if o == x {
      HeldIsIn(Lru.Touch(cached, o, MAX_CACHE_NODES), x, {});
    } else {
      Lru.TouchHeld(cached, x, {}, o, MAX_CACHE_NODES);
      HeldIsIn(Lru.Touch(cached, o, MAX_CACHE_NODES), x, {} + {o});
    }
  }

  lemma AfterOneOther(s: Refcounts, c: nat, g: nat)
    requires s.Shaped() && !s.HasBlock(c) && s.Group(c) < |s.table| && FreeAreNoBlocks(s, c + 1)
    requires s.Slot(c) != s.perBlock - 1 && g < |s.table| && s.table[g] != 0
    ensures RbSpec.Elements(Requests(s, c, c + 1)) == {(c + 1) * s.ClusterSize()} && s.table[g] !in Requests(s, c, c + 1)
    ensures |RbSpec.Elements(Requests(s, c, c + 1))| == 1
  {
    hide Refcounts.Of, Refcounts.IsBlock, Refcounts.HasBlock, Refcounts.Missing, Refcounts.Shaped, Refcounts.Group,
      Refcounts.Slot, Refcounts.ClusterSize, FirstFree, FreeAreNoBlocks, Requests;
    NextInGroup(s, c);
    FreeNoBlock(s, c + 1, c + 1);
    NoBlock(s, c, c);
    NewOffset(s, c + 1);
    AfterOne(s, c);
    assert s.table[g] !in RbSpec.Elements(Requests(s, c, c + 1));
  }

  /** The first free cluster is within the table where the growth does not fail. */
  lemma InTable(s: Refcounts, c: nat)
    requires s.Shaped() && !s.HasBlock(c) && s.Slot(c) == s.perBlock - 1 && !TooFar(s, c, c + 1)
    ensures s.Group(FirstFree(s, c + 1)) < |s.table|
  {
    var d := FirstFree(s, c + 1);
    assert d in NewBlocks(s, c, c + 1);
    GroupCovered(s, d);
  }

  /** The block made for `c` is still cached when its own cluster has been counted, except where `HeldLost` says; there it is not read again either. */
  lemma HeldIff(s: Refcounts, c: nat, from: nat, b: nat, pending: set<nat>, cached: seq<nat>)
    requires s.Shaped() && s.FirstRun(from, b, 1) && c < from && !s.HasBlock(c) && s.Group(c) < |s.table|
    requires s.Accounted(pending) && (forall p :: p in pending ==> p < from) && !TooFar(s, c, from) && CachedIn(cached, s.table)
    ensures b != 0 && !s.IsBlock(b) && s.WithBlock(c, b).Shaped()
    ensures var x := b * s.ClusterSize();
      x in Lru.RunFrom(Lru.RunFrom(cached, [x], MAX_CACHE_NODES), Requests(s.WithBlock(c, b), b, b + 1), MAX_CACHE_NODES) <==>
      !HeldLost(s, c, from)
    ensures HeldLost(s, c, from) ==> b * s.ClusterSize() !in Requests(s.WithBlock(c, b), b, b + 1)
  {
    hide Refcounts.Of, Refcounts.IsBlock, Refcounts.HasBlock, Refcounts.Missing, Refcounts.Shaped, Refcounts.Group,
      Refcounts.Slot, Refcounts.FirstRun, Refcounts.WithBlock, Refcounts.Accounted, Refcounts.Covered, FirstFree, TooFar,
      FreeAreNoBlocks, HeldLost, Requests, Lru.RunFrom, Lru.Touch, Lru.WithinCapacity, Lru.Held, FullBetween;
    NoBlock(s, c, c);
    NewBlock(s, from, c, b, pending);
    HeldLostNext(s, c, from, b);
    ChainTooFar(s, c, from, b);
    GroupCovered(s, b);
    var mid, x := s.WithBlock(c, b), b * s.ClusterSize();
    LaterFree(mid, pending + {b}, b + 1);
    RunOne(cached, x);
    Lru.TouchWithin(cached, x, MAX_CACHE_NODES);
    WithBlockNames(s, c, b);
    GroupLater(s, mid, c, b);
    HeldAfter(mid, b, s.Group(c), Lru.RunFrom(cached, [x], MAX_CACHE_NODES));
  }

  lemma GroupLater(s: Refcounts, s': Refcounts, c: nat, b: nat)
    requires s.perBlock == s'.perBlock > 0 && c <= b
    ensures s.Group(c) <= s'.Group(b)
  {
    DivMonotone(c, b, s.perBlock);
  }

  lemma WithBlockNames(s: Refcounts, c: nat, b: nat)
    requires s.Shaped() && s.Group(c) < |s.table| && b != 0
    ensures s.WithBlock(c, b).perBlock == s.perBlock && |s.WithBlock(c, b).table| == |s.table|
    ensures s.WithBlock(c, b).table[s.Group(c)] == b * s.ClusterSize() != 0
  {
    ShiftBack(b, s.ClusterSize());
  }

  lemma LaterFree(s: Refcounts, pending: set<nat>, from: nat)
    requires s.Shaped() && s.Accounted(pending) && forall p :: p in pending ==> p < from
    ensures FreeAreNoBlocks(s, from)
  {
  }

  // ---------------------------------------------------------------------
  // Over the updates of one request
  // ---------------------------------------------------------------------

  /** Until a block is made nothing moves but counts; after that the search never again stands where the cache could lose one. */
  ghost predicate LostSoFar(s: Refcounts, start: nat, end: nat, i: nat, now: Refcounts, free: nat, grown: set<nat>)
    requires s.Shaped()
  {
    if grown == {} then
      now.table == s.table && free == end && forall k :: start <= k < start + i ==> s.HasBlock(k)
    else
      0 < free && now.HasBlock(free - 1) && !RequestLost(s, start, end)
  }

  lemma LostStarts(s: Refcounts, start: nat, end: nat)
    requires s.Shaped()
    ensures LostSoFar(s, start, end, 0, s, end, {}) && NamesKept(s.table, s.table)
  {
  }

  lemma SearchSafe(s: Refcounts, c: nat, from: nat)
    requires s.Shaped() && 0 < from && s.HasBlock(from - 1)
    ensures !HeldLost(s, c, from)
  {
    NextSlot(s, from - 1);
  }

  lemma LostTurn(s: Refcounts, start: nat, end: nat, i: nat, mid: Refcounts, free: nat, grown: set<nat>)
    requires s.Shaped() && start + i < end && LostSoFar(s, start, end, i, mid, free, grown)
    requires Recounted(s, mid, Run(start, i), 1, grown)
    ensures grown != {} ==> !HeldLost(mid, start + i, free)
    ensures grown == {} ==> (HeldLost(mid, start + i, free) <==> HeldLost(s, start + i, end))
    ensures HeldLost(mid, start + i, free) ==> RequestLost(s, start, end) && start + 1 < end
  {
    hide Refcounts.Of, Refcounts.Shaped, Refcounts.IsBlock, Refcounts.HasBlock, Refcounts.Missing, Refcounts.Group,
      Refcounts.Slot, FirstFree;
    if grown != {} {
      SearchSafe(mid, start + i, free);
    } else {
      SameHeldLost(s, mid, start + i, end);
      if start + 1 == end {
        NextNotLost(s, start);
      }
    }
  }

  lemma SameHeldLost(s: Refcounts, s': Refcounts, c: nat, from: nat)
    requires s.Shaped() && s'.Shaped() && s'.perBlock == s.perBlock && s'.table == s.table
    requires forall k: nat :: from <= k ==> s'.Of(k) == s.Of(k)
    ensures HeldLost(s', c, from) <==> HeldLost(s, c, from)
  {
    SameFirstFree(s, s', from + 1);
  }

  lemma LostNext(s: Refcounts, start: nat, end: nat, i: nat, mid: Refcounts, midFree: nat, grown: set<nat>,
                 s': Refcounts, free: nat, more: set<nat>)
    requires s.Shaped() && start + i < end && LostSoFar(s, start, end, i, mid, midFree, grown)
    requires Recounted(s, mid, Run(start, i), 1, grown) && Recounted(mid, s', {start + i}, 1, more)
    requires !HeldLost(mid, start + i, midFree)
    requires if mid.HasBlock(start + i) then free == midFree && more == {} && s'.table == mid.table
      else more != {} && midFree < free && forall k :: midFree <= k < free ==> 0 < s'.Of(k)
    ensures LostSoFar(s, start, end, i + 1, s', free, grown + more)
  {
    hide Refcounts.Of, Refcounts.Shaped, Refcounts.IsBlock, Refcounts.Missing, Refcounts.Group, Refcounts.Slot,
      Refcounts.HasBlock, FirstFree, HeldLost, RequestLost, Run, Recounted;
    LostTurn(s, start, end, i, mid, midFree, grown);
    RecountedCovered(s, mid, Run(start, i), grown);
    RecountedCovered(mid, s', {start + i}, more);
    if mid.HasBlock(start + i) {
      SameBlocks(mid, s');
      if grown == {} {
        SameBlocks(s, mid);
      }
    } else {
      Counted(s', free - 1);
      if grown == {} {
        SameBlocks(s, mid);
        FirstNotLost(s, start, end, start + i);
      }
    }
  }

  /** Only the first cluster without a block decides. */
  lemma FirstNotLost(s: Refcounts, start: nat, end: nat, c: nat)
    requires s.Shaped() && start <= c < end && !s.HasBlock(c) && (forall k :: start <= k < c ==> s.HasBlock(k)) && !HeldLost(s, c, end)
    ensures !RequestLost(s, start, end)
  {
    hide Refcounts.HasBlock, Refcounts.Shaped, FirstFree, Refcounts.Group, Refcounts.Slot;
    forall d | start <= d < end && HeldLost(s, d, end) ensures !(forall k :: start <= k < d ==> s.HasBlock(k)) {
    }
  }

  lemma LostDone(s: Refcounts, start: nat, end: nat, now: Refcounts, free: nat, grown: set<nat>)
    requires s.Shaped() && start <= end && LostSoFar(s, start, end, end - start, now, free, grown)
    ensures !RequestLost(s, start, end)
  {
  }
}
