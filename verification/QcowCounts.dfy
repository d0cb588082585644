/**
  The reference counts of a QCOW image: blocks of counts named by a table, the clusters
  in use, and which clusters an update of one count makes into new blocks.
 */
module QcowCounts {
  import opened Basics

  /** `(u16)-1`, which qcow_get_refcount also returns for an error. */
  const SATURATED := 0xFFFF

  /**
    The reference counts an image file holds: `table` names the block of each group
    of `perBlock` clusters by its offset, 0 for none; `blocks` is what is at an offset.
   */
  datatype Refcounts = Refcounts(perBlock: nat, table: seq<nat>, blocks: map<nat, seq<nat>>) {

    /** A block of 16-bit counts fills one cluster. */
    function ClusterSize(): nat {
      2 * perBlock
    }

    /** Clusters the table can count. */
    function Covered(): nat {
      |table| * perBlock
    }

    /** Which block counts cluster `c`, and where in it. */
    function Group(c: nat): nat
      requires 0 < perBlock
    {
      c / perBlock
    }

    function Slot(c: nat): (i: nat)
      requires 0 < perBlock
      ensures i < perBlock
    {
      c % perBlock
    }

    predicate AtCluster(offset: nat) {
      0 < perBlock && offset % ClusterSize() == 0
    }

    predicate BlockAt(offset: nat) {
      AtCluster(offset) && offset in blocks && |blocks[offset]| == perBlock &&
      forall i :: 0 <= i < perBlock ==> blocks[offset][i] < U16_RANGE
    }

    predicate Shaped() {
      2 <= perBlock && (forall i :: 0 <= i < |table| && table[i] != 0 ==> BlockAt(table[i])) &&
      forall i, j :: 0 <= i < j < |table| && table[i] != 0 ==> table[i] != table[j]
    }

    predicate HasBlock(c: nat) {
      0 < perBlock && Group(c) < |table| && table[Group(c)] != 0
    }

    /** The count of cluster `c`; without a block it is 0. */
    function Of(c: nat): (n: nat)
      requires Shaped()
      ensures n < U16_RANGE
    {
      if HasBlock(c) then blocks[table[Group(c)]][Slot(c)] else 0
    }

    /** The block a look at the count of `c` requests of the cache. */
    function Request(c: nat): seq<nat> {
      if HasBlock(c) then [table[Group(c)]] else []
    }

    /** Cluster `c` holds one of the blocks. */
    ghost predicate IsBlock(c: nat) {
      exists i :: 0 <= i < |table| && table[i] != 0 && table[i] == c * ClusterSize()
    }

    /** Every block is itself counted, except for those of `pending`. */
    ghost predicate Accounted(pending: set<nat>)
      requires Shaped()
    {
      forall c: nat {:trigger IsBlock(c)} :: IsBlock(c) ==> 0 < Of(c) || c in pending
    }

    predicate FreeRun(start: nat, n: nat)
      requires Shaped()
    {
      forall c :: start <= c < start + n ==> Of(c) == 0
    }

    /** `start` is the first run of `n` uncounted clusters from `from` on. */
    predicate FirstRun(from: nat, start: nat, n: nat)
      requires Shaped()
    {
      from <= start && FreeRun(start, n) && forall s :: from <= s < start ==> !FreeRun(s, n)
    }

    /** Table entries without a block. */
    function Missing(): nat {
      ZeroesIn(table)
    }

    function WithCount(c: nat, count: nat): Refcounts
      requires Shaped() && HasBlock(c)
    {
      var offset := table[Group(c)];
      var block: seq<nat> := blocks[offset][Slot(c) := count];
      this.(blocks := blocks[offset := block])
    }

    /** An empty block for the group of `c`, in cluster `b`. */
    function WithBlock(c: nat, b: nat): Refcounts
      requires Shaped() && Group(c) < |table|
    {
      this.(table := table[Group(c) := b * ClusterSize()],
            blocks := blocks[b * ClusterSize() := seq<nat>(perBlock, _ => 0)])
    }
  }

  function ZeroesIn(s: seq<nat>): nat {
    if s == [] then 0 else (if s[0] == 0 then 1 else 0) + ZeroesIn(s[1..])
  }

  lemma {:induction false} ZeroesUpdate(s: seq<nat>, i: nat, v: nat)
    requires i < |s| && s[i] == 0 && v != 0
    ensures ZeroesIn(s[i := v]) == ZeroesIn(s) - 1
  {
    if i == 0 {
      assert s[0 := v][1..] == s[1..];
    } else {
      assert s[i := v][1..] == s[1..][i - 1 := v];
      ZeroesUpdate(s[1..], i - 1, v);
    }
  }

  /** The count of one cluster is one slot of one block. */
  lemma WithCountOf(s: Refcounts, c: nat, count: nat)
    requires s.Shaped() && s.HasBlock(c) && count < U16_RANGE
    ensures s.WithCount(c, count).Shaped() && s.WithCount(c, count).table == s.table
    ensures s.WithCount(c, count).perBlock == s.perBlock
    ensures forall k: nat :: s.WithCount(c, count).Of(k) == if k == c then count else s.Of(k)
  {
    hide Refcounts.Group, Refcounts.Slot, Refcounts.AtCluster;
    var s' := s.WithCount(c, count);
    WithCountShaped(s, c, count);
    forall k: nat ensures s'.Of(k) == if k == c then count else s.Of(k) {
      SlotUnique(s, c, k);
      SameGrouping(s, s', k);
    }
  }

  lemma WithCountShaped(s: Refcounts, c: nat, count: nat)
    requires s.Shaped() && s.HasBlock(c) && count < U16_RANGE
    ensures s.WithCount(c, count).Shaped()
    ensures s.WithCount(c, count).Group(c) == s.Group(c) && s.WithCount(c, count).Slot(c) == s.Slot(c)
  {
  }

  lemma SameGrouping(s: Refcounts, s': Refcounts, c: nat)
    requires s.perBlock == s'.perBlock > 0
    ensures s.Group(c) == s'.Group(c) && s.Slot(c) == s'.Slot(c)
  {
  }

  lemma SameAlignment(s: Refcounts, s': Refcounts, offset: nat)
    requires s.perBlock == s'.perBlock
    ensures s.AtCluster(offset) == s'.AtCluster(offset)
  {
  }

  lemma SlotUnique(s: Refcounts, c: nat, k: nat)
    requires 0 < s.perBlock
    ensures s.Group(c) == s.Group(k) && s.Slot(c) == s.Slot(k) ==> c == k
  {
  }

  lemma ShiftBack(c: nat, n: nat)
    requires 0 < n
    ensures c * n / n == c && c * n % n == 0 && (c != 0 ==> c * n != 0)
  {
    DivUnique(c * n, c, 0, n);
  }

  lemma BlockUnique(a: nat, b: nat, n: nat)
    requires 0 < n && a * n == b * n
    ensures a == b
  {
  }

  /** A new block changes no count. */
  lemma WithBlockOf(s: Refcounts, c: nat, b: nat)
    requires s.Shaped() && s.Group(c) < |s.table| && !s.HasBlock(c) && b != 0 && !s.IsBlock(b)
    ensures var s' := s.WithBlock(c, b);
      s'.Shaped() && s'.perBlock == s.perBlock && |s'.table| == |s.table| && s'.Missing() == s.Missing() - 1 &&
      (forall k: nat :: s'.Of(k) == s.Of(k)) &&
      (forall k: nat :: s'.HasBlock(k) <==> s.HasBlock(k) || s.Group(k) == s.Group(c)) &&
      (forall k: nat :: s'.IsBlock(k) <==> s.IsBlock(k) || k == b)
  {
    hide Refcounts.Group, Refcounts.Slot, Refcounts.AtCluster, Refcounts.IsBlock;
    var s' := s.WithBlock(c, b);
    ShiftBack(b, s.ClusterSize());
    ZeroesUpdate(s.table, s.Group(c), b * s.ClusterSize());
    WithBlockShaped(s, c, b);
    forall k: nat
      ensures s'.Of(k) == s.Of(k) && (s'.HasBlock(k) <==> s.HasBlock(k) || s.Group(k) == s.Group(c))
      ensures s'.IsBlock(k) <==> s.IsBlock(k) || k == b
    {
      SameGrouping(s, s', k);
      WithBlockIsBlock(s, c, b, k);
    }
  }

  lemma WithBlockShaped(s: Refcounts, c: nat, b: nat)
    requires s.Shaped() && s.Group(c) < |s.table| && !s.HasBlock(c) && b != 0 && !s.IsBlock(b)
    ensures s.WithBlock(c, b).Shaped() && b * s.ClusterSize() != 0 && s.WithBlock(c, b).Group(c) == s.Group(c)
    ensures forall i :: 0 <= i < |s.table| && s.table[i] != 0 ==> s.table[i] != b * s.ClusterSize()
  {
    hide Refcounts.Group, Refcounts.Slot, Refcounts.AtCluster;
    var s', offset := s.WithBlock(c, b), b * s.ClusterSize();
    NewOffset(s, b);
    SameGrouping(s, s', c);
    SameAlignment(s, s', offset);
    forall o: nat | s.BlockAt(o) && o != offset ensures s'.BlockAt(o) {
      SameAlignment(s, s', o);
    }
  }

  lemma NewOffset(s: Refcounts, b: nat)
    requires 0 < s.perBlock && b != 0 && !s.IsBlock(b)
    ensures b * s.ClusterSize() != 0 && s.AtCluster(b * s.ClusterSize())
    ensures forall i :: 0 <= i < |s.table| && s.table[i] != 0 ==> s.table[i] != b * s.ClusterSize()
  {
    ShiftBack(b, s.ClusterSize());
  }

  lemma WithBlockIsBlock(s: Refcounts, c: nat, b: nat, k: nat)
    requires s.Shaped() && s.Group(c) < |s.table| && !s.HasBlock(c) && b != 0
    requires s.WithBlock(c, b).Shaped() && b * s.ClusterSize() != 0
    ensures s.WithBlock(c, b).IsBlock(k) <==> s.IsBlock(k) || k == b
  {
    hide Refcounts.Group;
    var s' := s.WithBlock(c, b);
    var offset := k * s.ClusterSize();
    assert s'.ClusterSize() == s.ClusterSize();
    if s.IsBlock(k) {
      var i :| 0 <= i < |s.table| && s.table[i] != 0 && s.table[i] == offset;
      assert s'.table[i] == offset;
    }
    if k == b {
      assert s'.table[s.Group(c)] == offset;
    }
    if s'.IsBlock(k) {
      var i :| 0 <= i < |s'.table| && s'.table[i] != 0 && s'.table[i] == offset;
      if i == s.Group(c) {
        BlockUnique(k, b, s.ClusterSize());
      } else {
        assert s.table[i] == offset;
      }
    }
  }

  /**
    From `s` to `s'` the clusters of `which` got the count `v`, those of `grown`
    became blocks counted once, and no other count changed.
   */
  ghost predicate Recounted(s: Refcounts, s': Refcounts, which: set<nat>, v: nat, grown: set<nat>)
    requires s.Shaped()
  {
    s'.Shaped() && s'.perBlock == s.perBlock && |s'.table| == |s.table| && s'.Missing() + |grown| == s.Missing() &&
    (forall k: nat :: s'.Of(k) == if k in which then v else if k in grown then 1 else s.Of(k)) &&
    (forall k: nat :: k in grown ==> k !in which && s.Of(k) == 0) &&
    (forall k: nat :: s'.IsBlock(k) <==> s.IsBlock(k) || k in grown) &&
    (forall k: nat :: s.HasBlock(k) ==> s'.HasBlock(k))
  }

  /** The first cluster from `from` on that is in no use. */
  ghost function FirstFree(s: Refcounts, from: nat): (b: nat)
    requires s.Shaped()
    ensures from <= b && s.Of(b) == 0 && forall k :: from <= k < b ==> 0 < s.Of(k)
    decreases if from < s.Covered() then s.Covered() - from else 0
  {
    if s.Of(from) == 0 then from else (PastTable(s, from); FirstFree(s, from + 1))
  }

  /** The clusters one update of the count of `c` makes into blocks, the search standing at `from`, in the order it takes them. */
  ghost function NewBlocks(s: Refcounts, c: nat, from: nat): seq<nat>
    requires s.Shaped()
  {
    if s.HasBlock(c) then []
    else
      var b := FirstFree(s, from);
      if s.Group(b) == s.Group(c) || s.HasBlock(b) then [b]
      else if s.Slot(b) != s.perBlock - 1 then [b, b + 1]
      else
        var d := FirstFree(s, b + 1);
        if s.HasBlock(d) then [b, d] else [b, d, d + 1]
  }

  /** One of them is past the clusters the table can count. */
  ghost predicate TooFar(s: Refcounts, c: nat, from: nat)
    requires s.Shaped()
  {
    exists k :: k in NewBlocks(s, c, from) && s.Covered() <= k
  }

  ghost function Members(s: seq<nat>): set<nat> {
    set x | x in s
  }

  /** No run of `n` uncounted clusters lies in [a, b). */
  ghost predicate NoRunIn(s: Refcounts, a: nat, b: nat, n: nat)
    requires s.Shaped()
  {
    forall k :: a <= k && k + n <= b ==> !s.FreeRun(k, n)
  }

  /** A count of the clusters of [a, b) is saturated. */
  ghost predicate SaturatedIn(s: Refcounts, a: nat, b: nat)
    requires s.Shaped()
  {
    exists k: nat :: a <= k < b && s.Of(k) == SATURATED
  }

  /** How far the searches of one update get that is not stopped: just past the last block it makes. */
  ghost function Searched(s: Refcounts, c: nat, from: nat): nat
    requires s.Shaped()
  {
    var all := NewBlocks(s, c, from);
    if all == [] then from else all[|all| - 1] + 1
  }

  /**
    An update fails: the cluster has no block and is past the table, or a search for a new
    block comes to a saturated count, or one of the new blocks is past the table.
   */
  ghost predicate Fails(s: Refcounts, c: nat, from: nat)
    requires s.Shaped()
  {
    !s.HasBlock(c) && (s.Group(c) >= |s.table| || TooFar(s, c, from) || SaturatedIn(s, from, Searched(s, c, from)))
  }

  /** Every cluster below `from` is in use, so far as the table goes. */
  ghost predicate LowUsed(s: Refcounts, from: nat)
    requires s.Shaped()
  {
    forall k: nat :: k < from && k < s.Covered() ==> 0 < s.Of(k)
  }

  ghost function Run(start: nat, n: nat): (r: set<nat>)
    ensures forall k :: k in r <==> start <= k < start + n
  {
    if n == 0 then {} else Run(start, n - 1) + {start + n - 1}
  }

  /** A cluster in use is one the table covers. */
  lemma PastTable(s: Refcounts, c: nat)
    requires s.Shaped() && 0 < s.Of(c)
    ensures c < s.Covered()
  {
    assert c == c / s.perBlock * s.perBlock + c % s.perBlock;
    MulMonotone(c / s.perBlock + 1, |s.table|, s.perBlock);
    assert (c / s.perBlock + 1) * s.perBlock == c / s.perBlock * s.perBlock + s.perBlock;
  }

  lemma GroupFacts(s: Refcounts, c: nat)
    requires s.Shaped()
    ensures 0 < s.perBlock && s.Group(c) == c / s.perBlock
    ensures s.HasBlock(c) <==> c / s.perBlock < |s.table| && s.table[c / s.perBlock] != 0
    ensures !s.HasBlock(c) ==> s.Of(c) == 0
  {
  }

  lemma CoveredSame(s: Refcounts, s': Refcounts)
    requires s.perBlock == s'.perBlock && |s.table| == |s'.table|
    ensures s'.Covered() == s.Covered()
  {
  }

  lemma RecountedCovered(s: Refcounts, s': Refcounts, which: set<nat>, grown: set<nat>)
    requires s.Shaped() && Recounted(s, s', which, 1, grown)
    ensures s'.Shaped() && s'.perBlock == s.perBlock && s'.Covered() == s.Covered()
  {
  }

  /** The cluster found for a block is in no use, not even one that is still to be counted. */
  lemma NewBlock(s: Refcounts, from: nat, c: nat, b: nat, pending: set<nat>)
    requires s.Shaped() && s.FirstRun(from, b, 1) && s.Accounted(pending) && c < from && forall p :: p in pending ==> p < from
    requires !s.HasBlock(c) && s.Group(c) < |s.table|
    ensures from <= b && b != 0 && b * s.ClusterSize() / s.ClusterSize() == b && !s.IsBlock(b) && s.Of(b) == 0
    ensures var s' := s.WithBlock(c, b);
      s'.Shaped() && s'.Missing() == s.Missing() - 1 && s'.Accounted(pending + {b}) && s'.Covered() == s.Covered() &&
      (s'.Group(b) < |s'.table| <==> b < s.Covered()) &&
      forall k: nat :: s'.Of(k) == s.Of(k)
  {
    hide Refcounts.Group, Refcounts.Slot;
    assert s.Of(b) == 0;
    assert !s.IsBlock(b);
    ShiftBack(b, s.ClusterSize());
    WithBlockOf(s, c, b);
    var s' := s.WithBlock(c, b);
    SameGrouping(s, s', b);
    GroupCovered(s, b);
    hide Refcounts.Of, Refcounts.Shaped, Refcounts.IsBlock, Refcounts.Missing;
    forall k: nat | s'.IsBlock(k) ensures 0 < s'.Of(k) || k in pending + {b} {
      assert s.IsBlock(k) || k == b;
    }
  }

  lemma GroupCovered(s: Refcounts, c: nat)
    requires 0 < s.perBlock
    ensures s.Group(c) < |s.table| <==> c < s.Covered()
  {
    var n := s.perBlock;
    assert c == c / n * n + c % n && (c / n + 1) * n == c / n * n + n;
    if c / n < |s.table| {
      MulMonotone(c / n + 1, |s.table|, n);
    } else {
      MulMonotone(|s.table|, c / n, n);
    }
  }

  lemma FirstCounted(s: Refcounts, from: nat, b: nat)
    requires s.Shaped() && s.FirstRun(from, b, 1)
    ensures from <= b && s.Of(b) == 0 && forall k :: from <= k < b ==> 0 < s.Of(k)
  {
    hide Refcounts.Of, Refcounts.Shaped;
    forall k | from <= k < b ensures 0 < s.Of(k) {
      assert !s.FreeRun(k, 1);
    }
  }

  /** The search sees only the counts from there on. */
  lemma {:induction false} SameFirstFree(s: Refcounts, s': Refcounts, from: nat)
    requires s.Shaped() && s'.Shaped() && forall k: nat :: from <= k ==> s'.Of(k) == s.Of(k)
    ensures FirstFree(s', from) == FirstFree(s, from)
  {
    var a, b := FirstFree(s, from), FirstFree(s', from);
    hide FirstFree, Refcounts.Of, Refcounts.Shaped;
    assert s'.Of(a) == s.Of(a) && s'.Of(b) == s.Of(b);
  }

  /** One new block, and what is then left to add: the search moves on, and one block takes in what follows it. */
  lemma GrowthStep(s: Refcounts, c: nat, from: nat, b: nat)
    requires s.Shaped() && s.FirstRun(from, b, 1) && c < from && !s.HasBlock(c) && s.Group(c) < |s.table|
    requires b != 0 && !s.IsBlock(b)
    ensures s.WithBlock(c, b).Shaped() && NewBlocks(s, c, from) == [b] + NewBlocks(s.WithBlock(c, b), b, b + 1)
  {
    hide Refcounts.Of, Refcounts.Shaped, Refcounts.IsBlock, Refcounts.HasBlock, Refcounts.Missing, Refcounts.Group,
      Refcounts.Slot, Refcounts.FirstRun, Refcounts.WithBlock, FirstFree;
    var mid := s.WithBlock(c, b);
    GroupFacts(s, c);
    WithBlockOf(s, c, b);
    FirstCounted(s, from, b);
    CoveredSame(s, mid);
    SameFirstFree(s, mid, b + 1);
    var d := FirstFree(s, b + 1);
    NoBlock(s, c, from);
    NoBlock(s, b, b + 1);
    GroupOrder(s, c, b, d);
    NextSlot(s, b);
    NextSlot(s, d);
    SameGrouping(s, mid, b);
    SameGrouping(s, mid, b + 1);
    SameGrouping(s, mid, d);
    SameGrouping(s, mid, d + 1);
    if b + 1 < d {
      NextSlot(s, d - 1);
      NoBlock(s, d, d - 1);
    }
  }

  lemma ChainTooFar(s: Refcounts, c: nat, from: nat, b: nat)
    requires s.Shaped() && s.FirstRun(from, b, 1) && c < from && !s.HasBlock(c) && s.Group(c) < |s.table|
    requires b != 0 && !s.IsBlock(b)
    ensures s.WithBlock(c, b).Shaped()
    ensures TooFar(s, c, from) <==> s.Covered() <= b || TooFar(s.WithBlock(c, b), b, b + 1)
  {
    hide Refcounts.Of, Refcounts.Shaped, Refcounts.IsBlock, Refcounts.HasBlock, Refcounts.Missing, Refcounts.Group,
      Refcounts.Slot, Refcounts.FirstRun, Refcounts.WithBlock, Refcounts.Covered, NewBlocks;
    GrowthStep(s, c, from, b);
    WithBlockOf(s, c, b);
    CoveredSame(s, s.WithBlock(c, b));
    var all, rest := NewBlocks(s, c, from), NewBlocks(s.WithBlock(c, b), b, b + 1);
    assert all == [b] + rest;
    assert forall k :: k in all <==> k == b || k in rest;
    assert b in all;
  }

  lemma SaturatedTwice(s: Refcounts, a: nat, b: nat, c: nat)
    requires s.Shaped() && a <= b <= c
    ensures SaturatedIn(s, a, c) <==> SaturatedIn(s, a, b) || SaturatedIn(s, b, c)
  {
    hide Refcounts.Of, Refcounts.Shaped;
  }

  /** A search that stops at a saturated count before it finds a free cluster makes the update fail. */
  lemma StopFails(s: Refcounts, c: nat, from: nat, end: nat)
    requires s.Shaped() && !s.HasBlock(c) && s.Group(c) < |s.table| && SaturatedIn(s, from, end)
    requires NoRunIn(s, from, end, 1)
    ensures Fails(s, c, from)
  {
    var b := FirstFree(s, from);
    assert s.FreeRun(b, 1);
    assert b < Searched(s, c, from);
    hide Refcounts.Of, Refcounts.Shaped, FirstFree, Searched, NewBlocks, Refcounts.HasBlock, Refcounts.Group;
    var k: nat :| from <= k < end && s.Of(k) == SATURATED;
    assert s.Of(b) == 0;
    assert k < b;
  }

  /** One that finds one leaves it to the counting of the new block. */
  lemma FailsStep(s: Refcounts, c: nat, from: nat, b: nat)
    requires s.Shaped() && s.FirstRun(from, b, 1) && c < from && !s.HasBlock(c) && s.Group(c) < |s.table|
    requires b != 0 && !s.IsBlock(b) && !SaturatedIn(s, from, b + 1)
    ensures s.WithBlock(c, b).Shaped() && (Fails(s, c, from) <==> Fails(s.WithBlock(c, b), b, b + 1))
  {
    hide Refcounts.Of, Refcounts.Shaped, Refcounts.IsBlock, Refcounts.HasBlock, Refcounts.Missing, Refcounts.Group,
      Refcounts.Slot, Refcounts.FirstRun, Refcounts.WithBlock, FirstFree, NewBlocks, TooFar, SaturatedIn;
    var mid := s.WithBlock(c, b);
    GrowthStep(s, c, from, b);
    ChainTooFar(s, c, from, b);
    WithBlockOf(s, c, b);
    CoveredSame(s, mid);
    GroupFacts(mid, b);
    GroupCovered(mid, b);
    FirstCounted(s, from, b);
    SearchedStep(s, c, from, b);
    var end := Searched(s, c, from);
    SaturatedTwice(s, from, b + 1, end);
    SaturatedSame(s, mid, b + 1, end);
    NothingIn(s, b + 1, b + 1);
  }

  lemma SearchedStep(s: Refcounts, c: nat, from: nat, b: nat)
    requires s.Shaped() && s.FirstRun(from, b, 1) && c < from && !s.HasBlock(c) && s.Group(c) < |s.table| && b != 0 && !s.IsBlock(b)
    ensures s.WithBlock(c, b).Shaped()
    ensures b + 1 <= Searched(s, c, from) == Searched(s.WithBlock(c, b), b, b + 1)
    ensures s.WithBlock(c, b).HasBlock(b) ==> Searched(s, c, from) == b + 1 && !TooFar(s.WithBlock(c, b), b, b + 1)
  {
    GrowthStep(s, c, from, b);
    SearchedAfter(s.WithBlock(c, b), b, b + 1);
  }

  lemma SearchedAfter(s: Refcounts, c: nat, from: nat)
    requires s.Shaped()
    ensures from <= Searched(s, c, from)
    ensures s.HasBlock(c) ==> Searched(s, c, from) == from && !TooFar(s, c, from)
  {
  }

  lemma SaturatedSame(s: Refcounts, s': Refcounts, a: nat, b: nat)
    requires s.Shaped() && s'.Shaped() && forall k: nat :: s'.Of(k) == s.Of(k)
    ensures SaturatedIn(s', a, b) <==> SaturatedIn(s, a, b)
  {
    hide Refcounts.Of, Refcounts.Shaped;
  }

  lemma NothingIn(s: Refcounts, a: nat, b: nat)
    requires s.Shaped() && b <= a
    ensures !SaturatedIn(s, a, b)
  {
  }

  lemma GroupOrder(s: Refcounts, c: nat, b: nat, d: nat)
    requires 2 <= s.perBlock && c <= b < d
    ensures s.Group(c) <= s.Group(b) <= s.Group(d) && (s.Slot(b) == s.perBlock - 1 ==> s.Group(b) < s.Group(d))
  {
    DivMonotone(c, b, s.perBlock);
    DivMonotone(b, d, s.perBlock);
    DivMonotone(b + 1, d, s.perBlock);
    if s.Slot(b) == s.perBlock - 1 {
      LastSlot(s, b);
    }
  }

  lemma LastSlot(s: Refcounts, b: nat)
    requires 0 < s.perBlock && s.Slot(b) == s.perBlock - 1
    ensures s.Group(b + 1) == s.Group(b) + 1
  {
    var n := s.perBlock;
    assert b == b / n * n + b % n && (b / n + 1) * n == b / n * n + n;
    DivUnique(b + 1, b / n + 1, 0, n);
  }

  lemma NoBlock(s: Refcounts, c: nat, k: nat)
    requires s.Shaped()
    ensures 2 <= s.perBlock && (s.Group(k) == s.Group(c) && !s.HasBlock(c) ==> s.Of(k) == 0)
  {
  }

  /** The search stands right after a one-cluster run while that is counted. */
  lemma BoundNext(s: Refcounts, c: nat)
    requires s.Shaped()
    ensures 0 < s.perBlock && |NewBlocks(s, c, c + 1)| <= 2
  {
    hide NewBlocks, Refcounts.Group, Refcounts.Slot, Refcounts.HasBlock, FirstFree, Refcounts.Of;
    NextSlot(s, c);
    ThreeBlocksIff(s, c, c + 1);
  }

  lemma NextSlot(s: Refcounts, c: nat)
    requires 2 <= s.perBlock
    ensures if s.Slot(c) == s.perBlock - 1 then s.Slot(c + 1) == 0
      else s.Group(c + 1) == s.Group(c) && s.Slot(c + 1) == s.Slot(c) + 1
  {
    var n := s.perBlock;
    assert c == c / n * n + c % n && (c / n + 1) * n == c / n * n + n;
    if c % n == n - 1 {
      DivUnique(c + 1, c / n + 1, 0, n);
    } else {
      DivUnique(c + 1, c / n, c % n + 1, n);
    }
  }

  lemma SameBlocks(s: Refcounts, s': Refcounts)
    requires s.perBlock == s'.perBlock && s.table == s'.table
    ensures forall k: nat :: s'.HasBlock(k) == s.HasBlock(k)
  {
  }

  /** Exactly when an update adds three blocks. */
  lemma ThreeBlocksIff(s: Refcounts, c: nat, from: nat)
    requires s.Shaped() && c < from
    ensures |NewBlocks(s, c, from)| <= 3
    ensures |NewBlocks(s, c, from)| == 3 <==>
      !s.HasBlock(c) && s.Group(from) != s.Group(c) && s.Slot(from) == s.perBlock - 1 && !s.HasBlock(from) &&
      !s.HasBlock(FirstFree(s, from + 1))
  {
    hide Refcounts.Of, Refcounts.Shaped, Refcounts.HasBlock, Refcounts.Group, Refcounts.Slot, FirstFree;
    var b := FirstFree(s, from);
    NoBlock(s, c, from);
    NoBlock(s, from, from);
    if from < b {
      NextSlot(s, b - 1);
      NoBlock(s, b, b - 1);
    }
  }

  lemma FirstIs(s: Refcounts, from: nat, b: nat)
    requires s.Shaped() && s.FirstRun(from, b, 1)
    ensures FirstFree(s, from) == b && s.Of(b) == 0
  {
    FirstCounted(s, from, b);
    assert s.FreeRun(b, 1);
    var a := FirstFree(s, from);
    hide FirstFree, Refcounts.Of, Refcounts.Shaped;
    assert s.Of(a) == 0;
  }

  lemma Counted(s: Refcounts, c: nat)
    requires s.Shaped() && 0 < s.Of(c)
    ensures s.HasBlock(c)
  {
  }

  /** Where a group between those of `a` and `d` starts. */
  lemma GroupStart(s: Refcounts, a: nat, g: nat, d: nat)
    requires 0 < s.perBlock && s.Slot(a) == 0 && s.Group(a) <= g < s.Group(d)
    ensures a <= g * s.perBlock < d && s.Group(g * s.perBlock) == g
  {
    var n := s.perBlock;
    assert a == a / n * n + a % n && d == d / n * n + d % n;
    MulMonotone(a / n, g, n);
    MulMonotone(g + 1, d / n, n);
    assert (g + 1) * n == g * n + n;
    ShiftBack(g, n);
  }

  lemma FirstAt(s: Refcounts, from: nat)
    requires s.Shaped() && s.Of(from) == 0
    ensures FirstFree(s, from) == from
  {
  }
}
