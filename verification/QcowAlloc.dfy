/**
  The cluster allocator of disk/qcow.c: three functions that allocate, count and grow
  in terms of each other. Counts are written through, so what a cached block holds is
  in the image file; the cache decides which blocks are in memory, and which it frees.
 */
module QcowAlloc {
  import opened Basics
  import opened QcowCounts
  import opened BlockCache
  import Lru

  class Allocator {
    const perBlock: nat
    var freeClustIdx: nat
    var rfTable: seq<nat>
    /** the offsets of the blocks in memory, least recently used first */
    var cached: seq<nat>
    /** the refcount blocks in the image file, by offset */
    var disk: map<nat, seq<nat>>

    /** An open image, with nothing cached; the search starts at its first cluster. */
    constructor (perBlock: nat, rfTable: seq<nat>, disk: map<nat, seq<nat>>)
      ensures Counts() == Refcounts(perBlock, rfTable, disk) && freeClustIdx == 0 && cached == [] && Cached()
    {
      this.perBlock, this.rfTable, this.disk := perBlock, rfTable, disk;
      cached := [];
      freeClustIdx := 0;
    }

    ghost function Counts(): Refcounts
      reads this
    {
      Refcounts(perBlock, rfTable, disk)
    }

    ghost predicate Cached()
      reads this
    {
      CachedIn(cached, rfTable)
    }

    /** The u32 `clust_idx` of the search loses nothing while it looks at `k` more clusters. */
    ghost predicate Room(k: nat)
      reads this
    {
      Max(freeClustIdx, Counts().Covered()) + k < U32_RANGE
    }

    /** qcow_get_refcount: past the table, and without a block, a count is 0; a block that is looked at becomes the most recent. */
    method GetRefcount(c: nat) returns (r: nat)
      requires Counts().Shaped() && Cached()
      modifies this`cached
      ensures r == Counts().Of(c) && Cached()
      ensures 0 < perBlock &&
        if c / perBlock < |rfTable| && rfTable[c / perBlock] != 0 then
          rfTable[c / perBlock] in disk && c % perBlock < |disk[rfTable[c / perBlock]]| && r == disk[rfTable[c / perBlock]][c % perBlock]
        else r == 0
      ensures cached == Lru.RunFrom(old(cached), Counts().Request(c), MAX_CACHE_NODES)
    {
      hide Lru.WithinCapacity, Lru.RunFrom, Lru.Touch;
      RequestOne(Counts(), cached, c);
      if c / perBlock >= |rfTable| || rfTable[c / perBlock] == 0 {
        return 0;
      }
      cached := Lru.Touch(cached, rfTable[c / perBlock], MAX_CACHE_NODES);
      return disk[rfTable[c / perBlock]][c % perBlock];
    }

    /**
      The search of qcow_alloc_clusters: one pass over the clusters, started again
      after each one that is in use.
     */
    method FindRun(clustNum: nat) returns (found: bool, clustIdx: nat)
      requires Counts().Shaped() && Cached() && 0 < clustNum && Room(clustNum)
      modifies this`freeClustIdx, this`cached
      ensures found ==> clustNum <= clustIdx + 1 && freeClustIdx == clustIdx + 1
      ensures found ==> Counts().FirstRun(old(freeClustIdx), clustIdx + 1 - clustNum, clustNum)
      ensures freeClustIdx <= Max(old(freeClustIdx), Counts().Covered()) + clustNum
      ensures found ==> !SaturatedIn(Counts(), old(freeClustIdx), freeClustIdx)
      ensures !found ==> old(freeClustIdx) < freeClustIdx && Counts().Of(freeClustIdx - 1) == SATURATED
      ensures !found ==> NoRunIn(Counts(), old(freeClustIdx), freeClustIdx, clustNum)
      ensures old(freeClustIdx) <= freeClustIdx
      ensures cached == Lru.RunFrom(old(cached), Reads(Counts(), old(freeClustIdx), freeClustIdx), MAX_CACHE_NODES) && Cached()
    {
      hide Refcounts.Shaped, Refcounts.Of, Refcounts.Covered, Refcounts.Request, CachedIn, Lru.RunFrom, Reads, NoRunIn,
        SaturatedIn, Refcounts.BlockAt, Refcounts.Group, Refcounts.Slot;
      clustIdx := 0;
      var i := 0;
      ghost var from, end := freeClustIdx, Max(freeClustIdx, Counts().Covered());
      NoReads(Counts(), cached, from);
      NothingIn(Counts(), from, from);
      while i < clustNum
        invariant i <= clustNum && from <= freeClustIdx - i <= end
        invariant 0 < i ==> freeClustIdx == clustIdx + 1
        invariant Counts().FreeRun(freeClustIdx - i, i)
        invariant forall s :: from <= s < freeClustIdx - i ==> !Counts().FreeRun(s, clustNum)
        invariant !SaturatedIn(Counts(), from, freeClustIdx)
        invariant cached == Lru.RunFrom(old(cached), Reads(Counts(), from, freeClustIdx), MAX_CACHE_NODES) && Cached()
        decreases end + clustNum - freeClustIdx
      {
        ghost var start := freeClustIdx - i;
        ReadNext(Counts(), old(cached), from, freeClustIdx);
        clustIdx := U32(freeClustIdx);
        freeClustIdx := freeClustIdx + 1;
        var clustRefcount := GetRefcount(clustIdx);
        if clustRefcount == SATURATED {
          StoppedShort(Counts(), from, start, freeClustIdx, clustNum);
          return false, clustIdx;
        }
        NextNotSaturated(Counts(), from, clustIdx);
        if clustRefcount > 0 {
          PastTable(Counts(), clustIdx);
          forall s | start <= s <= clustIdx ensures !Counts().FreeRun(s, clustNum) {
            assert s <= clustIdx < s + clustNum;
          }
          i := 0;
        } else {
          i := i + 1;
        }
      }
      return true, clustIdx;
    }

    /**
      qcow_alloc_clusters. A request that succeeds gets the first run, from where the
      search stands, of clusters that were all uncounted; with `updateRef` they are
      counted, and the blocks this took are clusters outside the run. With `freed` the
      source has come to write a count through a block it has freed, and nothing is
      promised.
     */
    method AllocClusters(size: nat, updateRef: bool, ghost pending: set<nat>)
      returns (r: int, freed: bool, ghost start: nat, ghost grown: set<nat>)
      requires 0 < size && Counts().Shaped() && Cached() && Counts().Accounted(pending) && forall p :: p in pending ==> p < freeClustIdx
      requires Room(ClusterNum(size, Counts().ClusterSize()) + if updateRef then 1 else 0)
      modifies this
      ensures var n := ClusterNum(size, Counts().ClusterSize());
        r != -1 ==>
          r == start * Counts().ClusterSize() && old(Counts()).FirstRun(old(freeClustIdx), start, n) &&
          Recounted(old(Counts()), Counts(), if updateRef then Run(start, n) else {}, 1, grown) &&
          Counts().Accounted(pending) && start + n <= freeClustIdx &&
          (forall k :: start + n <= k < freeClustIdx ==> 0 < Counts().Of(k)) && forall k :: k in grown ==> start + n <= k
      ensures r != -1 && updateRef ==>
        start + ClusterNum(size, Counts().ClusterSize()) <= Counts().Covered() && freeClustIdx <= Counts().Covered()
      ensures r != -1 && !updateRef ==>
        Counts() == old(Counts()) && freeClustIdx == start + ClusterNum(size, Counts().ClusterSize()) &&
        freeClustIdx <= Max(old(freeClustIdx), Counts().Covered()) + ClusterNum(size, Counts().ClusterSize())
      ensures r != -1 && ClusterNum(size, Counts().ClusterSize()) == 1 && LowUsed(old(Counts()), old(freeClustIdx)) ==>
        LowUsed(old(Counts()), start) && (updateRef ==> LowUsed(Counts(), freeClustIdx))
      ensures r != -1 && ClusterNum(size, Counts().ClusterSize()) == 1 ==> |grown| <= 2
      ensures r != -1 ==> Cached() && NamesKept(old(rfTable), rfTable)
      ensures !updateRef ==> cached == Lru.RunFrom(old(cached), Reads(Counts(), old(freeClustIdx), freeClustIdx), MAX_CACHE_NODES)
      ensures freed ==> r == -1 && updateRef && old(Counts()).FirstRun(old(freeClustIdx), start, ClusterNum(size, Counts().ClusterSize()))
      ensures r != -1 || freed ==> (updateRef && RequestLost(old(Counts()), start, start + ClusterNum(size, Counts().ClusterSize())) <==> freed)
      ensures freed ==> 1 < ClusterNum(size, Counts().ClusterSize())
      ensures r == -1 && !freed ==> SaturatedIn(old(Counts()), old(freeClustIdx), freeClustIdx) || (updateRef && Counts().Covered() < freeClustIdx)
      ensures r != -1 || freed ==> !SaturatedIn(old(Counts()), old(freeClustIdx), freeClustIdx)
      ensures r == -1 && !updateRef ==> NoRunIn(old(Counts()), old(freeClustIdx), freeClustIdx, ClusterNum(size, Counts().ClusterSize()))
      ensures r == -1 && !updateRef ==> Counts() == old(Counts())
      decreases Counts().Missing(), if updateRef then 5 else 0
    {
      hide Refcounts.Shaped, Refcounts.Of, Refcounts.HasBlock, Refcounts.IsBlock, Refcounts.Covered,
        Refcounts.Accounted, Refcounts.Missing, Refcounts.FirstRun, Recounted, SaturatedIn, ClusterNum, LowUsed, Run,
        Refcounts.Group, Refcounts.Slot, NewBlocks, Members, TooFar, FirstFree, Refcounts.FreeRun, RequestLost, CachedIn,
        Lru.RunFrom, Reads, NoRunIn, Refcounts.BlockAt, Refcounts.AtCluster, Refcounts.Request, Lru.WithinCapacity;
      ghost var s := Counts();
      start, grown, freed := 0, {}, false;
      var clustNum := ClusterNum(size, 2 * perBlock);
      ClusterNumPositive(s, size);
      var found, clustIdx := FindRun(clustNum);
      if !found {
        StoppedAt(s, old(freeClustIdx), freeClustIdx);
        return -1, false, start, grown;
      }
      clustIdx := U32(clustIdx + 1);
      start := clustIdx - clustNum;
      NothingRecounted(s, start);
      if updateRef {
        var ok;
        ghost var end := freeClustIdx;
        ok, freed, grown := CountRun(clustIdx - clustNum, clustNum, s, old(freeClustIdx), pending);
        SearchedOn(s, old(freeClustIdx), end, freeClustIdx);
        if !ok {
          return -1, freed, start, grown;
        }
      }
      OneFits(s, old(freeClustIdx), start, clustNum, Counts(), freeClustIdx, grown, updateRef);
      return (clustIdx - clustNum) * (2 * perBlock), false, start, grown;
    }

    /** The second loop of qcow_alloc_clusters: count each cluster of the run that was found. */
    method CountRun(start: nat, clustNum: nat, ghost s: Refcounts, ghost from: nat, ghost pending: set<nat>)
      returns (ok: bool, freed: bool, ghost grown: set<nat>)
      requires 0 < clustNum && Counts() == s && s.Shaped() && Cached() && s.Accounted(pending) && s.FirstRun(from, start, clustNum)
      requires (forall p :: p in pending ==> p < from) && freeClustIdx == start + clustNum && Room(1)
      modifies this
      ensures ok ==> Recounted(s, Counts(), Run(start, clustNum), 1, grown) && Counts().Accounted(pending)
      ensures ok ==> start + clustNum <= Counts().Covered() && start + clustNum <= freeClustIdx <= Counts().Covered()
      ensures ok ==> forall k :: start + clustNum <= k < freeClustIdx ==> 0 < Counts().Of(k)
      ensures ok ==> forall k :: k in grown ==> start + clustNum <= k
      ensures ok && clustNum == 1 ==> |grown| == |NewBlocks(s, start, start + 1)| <= 2
      ensures ok ==> Cached() && NamesKept(s.table, rfTable)
      ensures |rfTable| == |s.table|
      ensures freed ==> !ok && 1 < clustNum
      ensures ok || freed ==> (freed <==> RequestLost(s, start, start + clustNum))
      ensures !ok && !freed ==> SaturatedIn(s, start + clustNum, freeClustIdx) || Counts().Covered() < freeClustIdx
      ensures ok || freed ==> !SaturatedIn(s, start + clustNum, freeClustIdx)
      decreases Counts().Missing(), 4
    {
      hide Refcounts.Shaped, Refcounts.Of, Refcounts.Group, Refcounts.HasBlock, Refcounts.IsBlock, Refcounts.Covered,
        Refcounts.Accounted, Refcounts.Missing, Refcounts.FirstRun, Recounted, SaturatedIn, Fails, NewBlocks, Members, TooFar, Run, RunSoFar,
        RequestLost, HeldLost, LostSoFar, CachedIn, NamesKept, Requests, Lru.RunFrom;
      grown := {};
      RunStarts(s, start, clustNum, pending);
      LostStarts(s, start, start + clustNum);
      BoundNext(s, start);
      NothingIn(s, start + clustNum, start + clustNum);
      var i := 0;
      while i < clustNum
        invariant i <= clustNum && RunSoFar(s, start, clustNum, i, Counts(), freeClustIdx, grown, pending)
        invariant i == 0 ==> grown == {} && Counts() == s && freeClustIdx == start + clustNum
        invariant i == 1 == clustNum ==> |grown| == |NewBlocks(s, start, start + 1)|
        invariant !SaturatedIn(s, start + clustNum, freeClustIdx)
        invariant |rfTable| == |s.table| && Cached() && NamesKept(s.table, rfTable)
        invariant LostSoFar(s, start, start + clustNum, i, Counts(), freeClustIdx, grown)
      {
        ghost var mid, midFree := Counts(), freeClustIdx;
        RunTurn(s, from, start, clustNum, i, mid, midFree, grown, pending);
        LostTurn(s, start, start + clustNum, i, mid, midFree, grown);
        var counted, gone, more := UpdateClusterRefcount(start + i, 1, pending);
        if !counted {
          CoveredSame(mid, Counts());
          SaturatedOn(s, mid, Run(start, i), grown, start + clustNum, midFree, freeClustIdx);
          return false, gone, grown;
        }
        SaturatedOn(s, mid, Run(start, i), grown, start + clustNum, midFree, freeClustIdx);
        CountOne(mid, Counts(), start + i, more);
        LostNext(s, start, start + clustNum, i, mid, midFree, grown, Counts(), freeClustIdx, more);
        NamesTwice(s.table, mid.table, rfTable);
        RunNext(s, start, clustNum, i, mid, midFree, grown, pending, Counts(), freeClustIdx, more);
        assert grown == {} ==> grown + more == more;
        grown := grown + more;
        i := i + 1;
      }
      RunDone(s, start, clustNum, Counts(), freeClustIdx, grown, pending);
      LostDone(s, start, start + clustNum, Counts(), freeClustIdx, grown);
      return true, false, grown;
    }

    /**
      update_cluster_refcount: the 16-bit sum, in a block that is made if there is none.
      With `freed` that block has left the cache, and the memory, before it is written.
     */
    method UpdateClusterRefcount(c: nat, append: nat, ghost pending: set<nat>) returns (ok: bool, freed: bool, ghost grown: set<nat>)
      requires 0 < append < U16_RANGE && Counts().Shaped() && Cached() && Counts().Accounted(pending)
      requires Counts().HasBlock(c) || Counts().Group(c) >= |rfTable| ||
        (c < freeClustIdx && Room(1) && forall p :: p in pending ==> p < freeClustIdx)
      modifies this
      ensures ok ==> Recounted(old(Counts()), Counts(), {c}, (old(Counts()).Of(c) + append) % U16_RANGE, grown)
      ensures ok ==> Counts().Accounted(if Counts().Of(c) == 0 then pending + {c} else pending - {c})
      ensures ok ==> grown == Members(NewBlocks(old(Counts()), c, old(freeClustIdx))) && |grown| == |NewBlocks(old(Counts()), c, old(freeClustIdx))|
      ensures ok || freed ==> !TooFar(old(Counts()), c, old(freeClustIdx))
      ensures ok || freed ==> (freed <==> HeldLost(old(Counts()), c, old(freeClustIdx)))
      ensures freed ==> !ok
      ensures ok ==> cached == Lru.RunFrom(old(cached), Requests(old(Counts()), c, old(freeClustIdx)), MAX_CACHE_NODES)
      ensures ok ==> Cached() && NamesKept(old(rfTable), rfTable)
      ensures ok || freed <==> !Fails(old(Counts()), c, old(freeClustIdx))
      ensures ok || freed ==> !SaturatedIn(old(Counts()), old(freeClustIdx), freeClustIdx)
      ensures old(Counts().HasBlock(c)) ==> ok && grown == {} && rfTable == old(rfTable)
      ensures old(Counts().HasBlock(c)) ==>
        freeClustIdx == if Counts().Of(c) == 0 && c < old(freeClustIdx) then c else old(freeClustIdx)
      ensures ok && old(!Counts().HasBlock(c)) ==> grown != {} && old(freeClustIdx) < freeClustIdx <= Max(old(freeClustIdx), Counts().Covered())
      ensures ok && old(!Counts().HasBlock(c)) ==> forall k :: old(freeClustIdx) <= k < freeClustIdx ==> 0 < Counts().Of(k)
      ensures ok ==> forall k :: k in grown ==> old(freeClustIdx) <= k
      ensures ok ==> Counts().Shaped() && Counts().Missing() <= old(Counts()).Missing() && Counts().Covered() == old(Counts()).Covered()
      ensures old(Counts().Group(c)) >= |rfTable| ==> !ok && !freed && Counts() == old(Counts()) && freeClustIdx == old(freeClustIdx) && cached == old(cached)
      ensures |rfTable| == old(|rfTable|)
      ensures !ok && !freed ==> SaturatedIn(old(Counts()), old(freeClustIdx), freeClustIdx) || old(Counts().Group(c)) >= |rfTable| || Counts().Covered() < freeClustIdx
      decreases Counts().Missing(), 3
    {
      hide Refcounts.Shaped, Refcounts.Of, Refcounts.Group, Refcounts.Slot, Refcounts.IsBlock, Refcounts.Covered,
        Refcounts.Accounted, Refcounts.Missing, Recounted, SaturatedIn, Fails, NewBlocks, Members, TooFar, Refcounts.WithCount, HeldLost, CachedIn, NamesKept, Requests, Lru.RunFrom, Lru.Touch;
      ghost var s := Counts();
      grown, freed := {}, false;
      GroupFacts(s, c);
      RequestBlock(s, cached, c, freeClustIdx);
      NothingRecounted(s, c);
      BoundFacts(s, c, freeClustIdx);
      if c / perBlock >= |rfTable| || rfTable[c / perBlock] == 0 {
        ok, grown := GrowRefcountBlock(c, pending);
        if !ok {
          return false, false, grown;
        }
        if rfTable[c / perBlock] !in cached {
          return false, true, grown;
        }
      } else {
        cached := Lru.Touch(cached, rfTable[c / perBlock], MAX_CACHE_NODES);
      }
      ghost var mid := Counts();
      GroupFacts(mid, c);
      SlotFacts(mid, c, append);
      var refcount := (disk[rfTable[c / perBlock]][c % perBlock] + append) % U16_RANGE;
      var block: seq<nat> := disk[rfTable[c / perBlock]][c % perBlock := refcount];
      disk := disk[rfTable[c / perBlock] := block];
      CountStored(s, mid, Counts(), c, refcount, grown, pending);
      if refcount == 0 && c < freeClustIdx {
        freeClustIdx := c;
      }
      if s.HasBlock(c) {
        NothingIn(s, old(freeClustIdx), freeClustIdx);
      }
      return true, false, grown;
    }

    /**
      qcow_grow_refcount_block: an empty block for the group of `c`, in a cluster
      taken by the same allocator, entered in the table before it is itself counted.
     */
    method GrowRefcountBlock(c: nat, ghost pending: set<nat>) returns (ok: bool, ghost grown: set<nat>)
      requires Counts().Shaped() && Cached() && Counts().Accounted(pending) && !Counts().HasBlock(c)
      requires Counts().Group(c) >= |rfTable| || (c < freeClustIdx && Room(1) && forall p :: p in pending ==> p < freeClustIdx)
      modifies this
      ensures ok ==> Recounted(old(Counts()), Counts(), {}, 1, grown) && Counts().HasBlock(c) && Counts().Accounted(pending)
      ensures ok ==> grown == Members(NewBlocks(old(Counts()), c, old(freeClustIdx))) && |grown| == |NewBlocks(old(Counts()), c, old(freeClustIdx))|
      ensures ok ==> !TooFar(old(Counts()), c, old(freeClustIdx))
      ensures ok <==> !Fails(old(Counts()), c, old(freeClustIdx))
      ensures ok ==> !SaturatedIn(old(Counts()), old(freeClustIdx), freeClustIdx)
      ensures ok ==> (rfTable[old(Counts().Group(c))] in cached <==> !HeldLost(old(Counts()), c, old(freeClustIdx)))
      ensures ok ==> cached == Lru.RunFrom(old(cached), Requests(old(Counts()), c, old(freeClustIdx)), MAX_CACHE_NODES)
      ensures ok ==> Cached() && NamesKept(old(rfTable), rfTable)
      ensures ok ==> grown != {} && old(freeClustIdx) < freeClustIdx <= Max(old(freeClustIdx), Counts().Covered())
      ensures ok ==> forall k :: old(freeClustIdx) <= k < freeClustIdx ==> 0 < Counts().Of(k)
      ensures ok ==> forall k :: k in grown ==> old(freeClustIdx) <= k
      ensures ok ==> Counts().Shaped() && Counts().Missing() <= old(Counts()).Missing() && Counts().Covered() == old(Counts()).Covered()
      ensures old(Counts().Group(c)) >= |rfTable| ==> !ok && Counts() == old(Counts()) && freeClustIdx == old(freeClustIdx) && cached == old(cached)
      ensures |rfTable| == old(|rfTable|)
      ensures !ok ==> SaturatedIn(old(Counts()), old(freeClustIdx), freeClustIdx) || old(Counts().Group(c)) >= |rfTable| || Counts().Covered() < freeClustIdx
      decreases Counts().Missing(), 2
    {
      hide Refcounts.Shaped, Refcounts.Of, Refcounts.HasBlock, Refcounts.Group, Refcounts.Slot, Refcounts.IsBlock,
        Refcounts.Covered, Refcounts.Accounted, Refcounts.Missing, Recounted, SaturatedIn, Fails, NewBlocks, Members, TooFar,
        Refcounts.FirstRun, ClusterNum, Run, LowUsed, FirstFree, Refcounts.WithBlock, HeldLost,
        CachedIn, NamesKept, Requests, Reads, Lru.RunFrom, NoRunIn;
      ghost var s, from, before := Counts(), freeClustIdx, cached;
      grown := {};
      GroupFacts(s, c);
      BoundFacts(s, c, from);
      if c / perBlock >= |rfTable| {
        return false, grown;
      }
      OneCluster(s);
      var newBlockOffset, freed, nb, none := AllocClusters(2 * perBlock, false, pending);
      if newBlockOffset == -1 {
        StopFails(s, c, from, freeClustIdx);
        return false, grown;
      }
      ghost var mid := cached;
      ok, grown := InstallBlock(c, newBlockOffset, nb, from, pending);
      if ok {
        RequestsGrown(s, c, from, nb, before);
        HeldIff(s, c, from, nb, pending, mid);
      }
      return ok, grown;
    }

    /** The rest of qcow_grow_refcount_block: write the block, enter it, and count its own cluster. */
    method InstallBlock(c: nat, newBlockOffset: nat, ghost nb: nat, ghost from: nat, ghost pending: set<nat>)
      returns (ok: bool, ghost grown: set<nat>)
      requires Counts().Shaped() && Cached() && Counts().Accounted(pending) && !Counts().HasBlock(c) && Counts().Group(c) < |rfTable|
      requires c < from && (forall p :: p in pending ==> p < from) && Max(from, Counts().Covered()) + 1 < U32_RANGE
      requires Counts().FirstRun(from, nb, 1) && !SaturatedIn(Counts(), from, nb + 1) && freeClustIdx == nb + 1 && newBlockOffset == nb * Counts().ClusterSize()
      modifies this
      ensures ok ==> Recounted(old(Counts()), Counts(), {}, 1, grown) && Counts().HasBlock(c) && Counts().Accounted(pending)
      ensures ok ==> grown == Members(NewBlocks(old(Counts()), c, from)) && |grown| == |NewBlocks(old(Counts()), c, from)|
      ensures ok ==> !TooFar(old(Counts()), c, from)
      ensures ok <==> !Fails(old(Counts()), c, from)
      ensures ok ==> !SaturatedIn(old(Counts()), from, freeClustIdx)
      ensures ok ==> rfTable[c / perBlock] == newBlockOffset
      ensures ok ==> old(Counts()).WithBlock(c, nb).Shaped() && cached == Lru.RunFrom(Lru.RunFrom(old(cached), [newBlockOffset], MAX_CACHE_NODES),
        Requests(old(Counts()).WithBlock(c, nb), nb, nb + 1), MAX_CACHE_NODES)
      ensures ok ==> Cached() && NamesKept(old(rfTable), rfTable)
      ensures ok ==> nb != 0 && !old(Counts()).IsBlock(nb)
      ensures ok ==> grown != {} && from < freeClustIdx <= Max(from, Counts().Covered())
      ensures ok ==> forall k :: from <= k < freeClustIdx ==> 0 < Counts().Of(k)
      ensures ok ==> forall k :: k in grown ==> from <= k
      ensures ok ==> Counts().Shaped() && Counts().Missing() <= old(Counts()).Missing() && Counts().Covered() == old(Counts()).Covered()
      ensures |rfTable| == old(|rfTable|)
      ensures !ok ==> SaturatedIn(old(Counts()), from, freeClustIdx) || Counts().Covered() < freeClustIdx
      decreases Counts().Missing(), 1
    {
      hide Refcounts.Shaped, Refcounts.Of, Refcounts.HasBlock, Refcounts.Group, Refcounts.Slot, Refcounts.IsBlock,
        Refcounts.Covered, Refcounts.Accounted, Refcounts.Missing, Recounted, SaturatedIn, Fails, NewBlocks, Members, TooFar,
        Refcounts.FirstRun, FirstFree, Refcounts.WithBlock, HeldLost, CachedIn,
        NamesKept, Requests, Lru.RunFrom, Lru.Touch, Refcounts.BlockAt, Refcounts.AtCluster, Refcounts.FreeRun, Lru.WithinCapacity;
      ghost var s, before := Counts(), cached;
      grown := {};
      GroupFacts(s, c);
      NewBlock(s, from, c, nb, pending);
      disk := disk[newBlockOffset := seq<nat>(perBlock, _ => 0)];
      cached := Lru.Touch(cached, newBlockOffset, MAX_CACHE_NODES);
      rfTable := rfTable[c / perBlock := newBlockOffset];
      ghost var mid := Counts();
      Entered(s, c, nb, before);
      WithBlockIs(s, c, nb);
      NextNotLost(mid, nb);
      FailsStep(s, c, from, nb);
      ghost var more;
      var freed;
      ok, freed, more := UpdateClusterRefcount(newBlockOffset / (2 * perBlock), 1, pending + {nb});
      SearchedOn(s, from, nb + 1, freeClustIdx);
      SaturatedSame(s, mid, nb + 1, freeClustIdx);
      if !ok {
        CoveredSame(mid, Counts());
        rfTable := rfTable[c / perBlock := 0];
        CoveredSame(mid, Counts());
        return false, grown;
      }
      grown := {nb} + more;
      CountOne(mid, Counts(), nb, more);
      BlockCounted(s, from, c, nb, Counts(), more, pending);
      NameKept(mid.table, rfTable, c / perBlock);
      NamesTwice(s.table, mid.table, rfTable);
      return true, grown;
    }

    /**
      qcow_free_clusters: each cluster of the range that has a block loses one, a count
      of 0 becoming the largest, and nothing else changes; past the table there is
      nothing to do. The search goes back to the lowest cluster that became free.
     */
    method FreeClusters(clustStart: nat, size: nat, ghost a: nat, ghost b: nat)
      requires 0 < size && Counts().Shaped() && Cached() && Counts().Accounted({})
      requires a == clustStart / Counts().ClusterSize() && b == (clustStart + size - 1) / Counts().ClusterSize() + 1
      requires forall k :: a <= k < b ==> Counts().HasBlock(k) || Counts().Group(k) >= |rfTable|
      modifies this
      ensures Released(old(Counts()), Counts(), a, b) && Counts().Accounted(Run(a, b - a))
      ensures cached == Lru.RunFrom(old(cached), Reads(old(Counts()), a, b), MAX_CACHE_NODES) && Cached()
      ensures BackTo(Counts(), a, b, old(freeClustIdx), freeClustIdx)
      ensures LowUsed(old(Counts()), old(freeClustIdx)) ==> LowUsed(Counts(), freeClustIdx)
    {
      hide Refcounts.Of, Refcounts.Shaped, Refcounts.IsBlock, Refcounts.HasBlock, Refcounts.Missing,
        Refcounts.Covered, Refcounts.Group, Refcounts.Accounted, Recounted, Released, BackTo, LowUsed, NewBlocks, Members, TooFar,
        SaturatedIn, Fails, Run, Refcounts.Request, CachedIn, Lru.RunFrom, Reads, HeldLost, NamesKept, Requests;
      ghost var s, from, k := Counts(), freeClustIdx, a;
      GroupFacts(s, a);
      var clusterSize := 2 * perBlock;
      RoundDown(clustStart, clusterSize);
      RoundDown(clustStart + size - 1, clusterSize);
      NoReads(s, cached, a);
      NothingReleased(s, a, from);
      NothingRecounted(s, a);
      var end := clustStart + size - 1 - (clustStart + size - 1) % clusterSize;
      var offset := clustStart - clustStart % clusterSize;
      Ordered(clustStart, clustStart + size - 1, clusterSize);
      while offset <= end
        invariant offset == k * clusterSize && a <= k <= b
        invariant Counts().perBlock == s.perBlock && Counts().Shaped() && Counts().Accounted(Run(a, k - a))
        invariant Released(s, Counts(), a, k) && BackTo(Counts(), a, k, from, freeClustIdx)
        invariant rfTable == s.table && cached == Lru.RunFrom(old(cached), Reads(s, a, k), MAX_CACHE_NODES) && Cached()
        decreases b - k
      {
        ghost var mid, midFrom := Counts(), freeClustIdx;
        ScaledOrder(k, b - 1, clusterSize);
        StillBlocked(s, a, k, mid);
        ShiftBack(k, clusterSize);
        ReadNext(s, old(cached), a, k);
        RequestBlock(s, cached, k, freeClustIdx);
        RequestBlock(mid, cached, k, freeClustIdx);
        var ok, freed, none := UpdateClusterRefcount(offset / clusterSize, SATURATED, Run(a, k - a));
        SameRequest(s, mid, k);
        OneReleased(s, a, k, mid, Counts(), from, midFrom, freeClustIdx);
        ReleaseAccounted(Counts(), a, k);
        offset := offset + clusterSize;
        k := k + 1;
      }
      ScaledOrder(k, b - 1, clusterSize);
      if LowUsed(s, from) {
        ReleasedLow(s, Counts(), a, b, from, freeClustIdx);
      }
    }

    /** Between requests for one cluster: blocks counted, nothing free behind the search, the search inside the table. */
    ghost predicate Steady()
      reads this
    {
      Counts().Shaped() && Cached() && Counts().Accounted({}) && LowUsed(Counts(), freeClustIdx) &&
      freeClustIdx <= Counts().Covered() && Counts().Covered() + 2 < U32_RANGE
    }

    /**
      A request for one cluster, as the write path makes it: the lowest cluster that is
      in no use, and at most two more for blocks. Requests and releases can follow
      each other in any order.
     */
    method AllocCluster() returns (r: int, ghost c: nat, ghost grown: set<nat>)
      requires Steady()
      modifies this
      ensures r != -1 ==> Steady() && r == c * Counts().ClusterSize() && Recounted(old(Counts()), Counts(), {c}, 1, grown)
      ensures r != -1 ==> old(Counts()).Of(c) == 0 && (forall k :: 0 <= k < c ==> 0 < old(Counts()).Of(k)) && |grown| <= 2
      ensures r == -1 <==> SaturatedIn(old(Counts()), old(freeClustIdx), freeClustIdx) || Counts().Covered() < freeClustIdx
    {
      hide Refcounts.Shaped, Refcounts.Of, Refcounts.HasBlock, Refcounts.IsBlock, Refcounts.Covered, Refcounts.Accounted,
        Refcounts.Missing, Refcounts.FirstRun, Refcounts.Group, Refcounts.Slot, Recounted, SaturatedIn, LowUsed, Run;
      ghost var s, from := Counts(), freeClustIdx;
      OneCluster(s);
      var freed;
      r, freed, c, grown := AllocClusters(2 * perBlock, true, {});
      if r != -1 {
        RecountedCovered(s, Counts(), Run(c, 1), grown);
        FirstCounted(s, from, c);
        LowestFree(s, c);
        assert Run(c, 1) == {c};
      }
    }

    /** The release of one cluster. Requests and releases can follow unless it took the last count of a block. */
    method FreeCluster(c: nat)
      requires Steady() && (Counts().HasBlock(c) || Counts().Group(c) >= |rfTable|)
      modifies this
      ensures Released(old(Counts()), Counts(), c, c + 1) && rfTable == old(rfTable)
      ensures freeClustIdx == if Counts().HasBlock(c) && Counts().Of(c) == 0 && c < old(freeClustIdx) then c else old(freeClustIdx)
      ensures Steady() || (Counts().IsBlock(c) && Counts().Of(c) == 0)
    {
      hide Refcounts.Shaped, Refcounts.Of, Refcounts.HasBlock, Refcounts.IsBlock, Refcounts.Covered, Refcounts.Accounted,
        Refcounts.Missing, Refcounts.Group, Refcounts.Slot, LowUsed, Run;
      ghost var s := Counts();
      OneCluster(s);
      ShiftBack(c, 2 * perBlock);
      DivUnique(c * (2 * perBlock) + 2 * perBlock - 1, c, 2 * perBlock - 1, 2 * perBlock);
      FreeClusters(c * (2 * perBlock), 2 * perBlock, c, c + 1);
      CoveredSame(s, Counts());
      if !(Counts().IsBlock(c) && Counts().Of(c) == 0) {
        LastAccounted(Counts(), c);
      }
    }
  }

  /** The clusters `size` bytes take. */
  function ClusterNum(size: nat, clusterSize: nat): nat {
    if clusterSize == 0 then 0 else (size + (clusterSize - 1)) / clusterSize
  }

  /** The least number of clusters that hold `size` bytes. */
  lemma LeastClusters(size: nat, clusterSize: nat)
    requires 0 < clusterSize && 0 < size
    ensures var n := ClusterNum(size, clusterSize); 0 < n && (n - 1) * clusterSize < size <= n * clusterSize
  {
    var n := ClusterNum(size, clusterSize);
    var x := size + (clusterSize - 1);
    assert x == n * clusterSize + x % clusterSize;
    FloorLess(x, 1, clusterSize);
    assert (n - 1) * clusterSize == n * clusterSize - clusterSize;
  }

  lemma ClusterNumPositive(s: Refcounts, size: nat)
    requires s.Shaped() && 0 < size
    ensures 0 < ClusterNum(size, s.ClusterSize())
  {
  }

  lemma OneCluster(s: Refcounts)
    requires s.Shaped()
    ensures ClusterNum(s.ClusterSize(), s.ClusterSize()) == 1
  {
  }

  lemma NothingRecounted(s: Refcounts, start: nat)
    requires s.Shaped()
    ensures Recounted(s, s, {}, 1, {}) && Run(start, 0) == {}
  {
  }

  lemma SlotFacts(s: Refcounts, c: nat, append: nat)
    requires s.Shaped() && s.HasBlock(c)
    ensures s.table[c / s.perBlock] in s.blocks && c % s.perBlock < |s.blocks[s.table[c / s.perBlock]]|
    ensures var offset, v := s.table[c / s.perBlock], (s.Of(c) + append) % U16_RANGE;
      s.blocks[offset][c % s.perBlock] == s.Of(c) && (
      var block: seq<nat> := s.blocks[offset][c % s.perBlock := v];
      s.WithCount(c, v) == Refcounts(s.perBlock, s.table, s.blocks[offset := block]))
  {
  }

  /** A search that has gone on from where another ended has passed what both did. */
  lemma SearchedOn(s: Refcounts, a: nat, b: nat, c: nat)
    requires s.Shaped() && a <= b && !SaturatedIn(s, a, b)
    ensures SaturatedIn(s, a, c) <==> SaturatedIn(s, b, c)
  {
    hide Refcounts.Of, Refcounts.Shaped;
  }

  /** No run is complete where the search stops. */
  lemma StoppedShort(s: Refcounts, from: nat, start: nat, free: nat, n: nat)
    requires s.Shaped() && from <= start < free <= start + n && 0 < s.Of(free - 1)
    requires forall k :: from <= k < start ==> !s.FreeRun(k, n)
    ensures NoRunIn(s, from, free, n)
  {
    hide Refcounts.Of, Refcounts.Shaped;
    forall k | start <= k && k + n <= free ensures !s.FreeRun(k, n) {
      assert k <= free - 1 < k + n;
    }
  }

  lemma NextNotSaturated(s: Refcounts, a: nat, b: nat)
    requires s.Shaped() && !SaturatedIn(s, a, b) && s.Of(b) != SATURATED
    ensures !SaturatedIn(s, a, b + 1)
  {
    hide Refcounts.Of, Refcounts.Shaped;
  }

  lemma StoppedAt(s: Refcounts, a: nat, b: nat)
    requires s.Shaped() && a < b && s.Of(b - 1) == SATURATED
    ensures SaturatedIn(s, a, b)
  {
  }

  /** The saturated counts are those there were before the run was counted. */
  lemma SaturatedOn(s: Refcounts, mid: Refcounts, which: set<nat>, grown: set<nat>, a: nat, b: nat, c: nat)
    requires s.Shaped() && Recounted(s, mid, which, 1, grown) && a <= b && !SaturatedIn(s, a, b)
    requires forall k :: k in which ==> k < a
    ensures mid.Shaped() && (SaturatedIn(mid, b, c) <==> SaturatedIn(s, a, c))
  {
    hide Refcounts.Of, Refcounts.Shaped, Refcounts.IsBlock, Refcounts.HasBlock, Refcounts.Missing;
    forall k: nat | b <= k ensures mid.Of(k) == SATURATED <==> s.Of(k) == SATURATED {
    }
  }

  lemma CountOne(s: Refcounts, s': Refcounts, c: nat, grown: set<nat>)
    requires s.Shaped() && Recounted(s, s', {c}, 1, grown)
    ensures s'.Of(c) == 1
  {
  }

  lemma WithBlockIs(s: Refcounts, c: nat, b: nat)
    requires s.Shaped() && s.Group(c) < |s.table|
    ensures var offset := b * (2 * s.perBlock); var empty := seq<nat>(s.perBlock, _ => 0);
      s.WithBlock(c, b) == Refcounts(s.perBlock, s.table[c / s.perBlock := offset], s.blocks[offset := empty])
  {
  }

  lemma AccountedMore(s: Refcounts, a: set<nat>, b: set<nat>)
    requires s.Shaped() && s.Accounted(a) && a <= b
    ensures s.Accounted(b)
  {
  }

  lemma BoundFacts(s: Refcounts, c: nat, from: nat)
    requires s.Shaped()
    ensures s.HasBlock(c) ==> NewBlocks(s, c, from) == [] && Members([]) == {} && !TooFar(s, c, from) && !Fails(s, c, from)
    ensures s.Group(c) >= |s.table| ==> !s.HasBlock(c) && Fails(s, c, from)
  {
  }

  /** The clusters of a run still wait for their counts. */
  lemma RunUncounted(s: Refcounts, from: nat, start: nat, n: nat, mid: Refcounts, grown: set<nat>, i: nat)
    requires s.Shaped() && s.FirstRun(from, start, n) && Recounted(s, mid, Run(start, i), 1, grown) && i < n
    requires forall k :: k in grown ==> start + n <= k
    ensures mid.Of(start + i) == 0 && from <= start
  {
  }

  lemma OneMore(s: Refcounts, start: nat, i: nat, mid: Refcounts, grown: set<nat>, s': Refcounts, more: set<nat>)
    requires s.Shaped() && Recounted(s, mid, Run(start, i), 1, grown)
    requires mid.Of(start + i) == 0 && Recounted(mid, s', {start + i}, 1, more)
    ensures Recounted(s, s', Run(start, i + 1), 1, grown + more)
    ensures s'.Shaped() && s'.Of(start + i) == 1 && s'.Covered() == mid.Covered() && s'.Missing() <= mid.Missing()
    ensures forall k: nat :: 0 < mid.Of(k) ==> 0 < s'.Of(k)
  {
    hide Refcounts.Of, Refcounts.Shaped, Refcounts.IsBlock, Refcounts.HasBlock, Refcounts.Missing;
    assert Run(start, i + 1) == Run(start, i) + {start + i};
    assert grown !! more;
  }

  /** Where the counting of a run stands after `i` clusters. */
  ghost predicate RunSoFar(s: Refcounts, start: nat, n: nat, i: nat, now: Refcounts, free: nat, grown: set<nat>, pending: set<nat>)
    requires s.Shaped()
  {
    i <= n && Recounted(s, now, Run(start, i), 1, grown) && now.Accounted(pending) &&
    start + n <= free <= Max(start + n, s.Covered()) && (0 < i ==> start + i <= s.Covered()) &&
    (forall k :: start + n <= k < free ==> 0 < now.Of(k)) && forall k :: k in grown ==> start + n <= k
  }

  lemma RunStarts(s: Refcounts, start: nat, n: nat, pending: set<nat>)
    requires s.Shaped() && s.Accounted(pending)
    ensures RunSoFar(s, start, n, 0, s, start + n, {}, pending)
  {
    hide Refcounts.Of, Refcounts.IsBlock, Refcounts.HasBlock;
    NothingRecounted(s, start);
  }

  /** The next cluster of the run is ready to be counted. */
  lemma RunTurn(s: Refcounts, from: nat, start: nat, n: nat, i: nat, mid: Refcounts, free: nat, grown: set<nat>, pending: set<nat>)
    requires s.Shaped() && s.FirstRun(from, start, n) && RunSoFar(s, start, n, i, mid, free, grown, pending) && i < n
    ensures mid.Shaped() && mid.Accounted(pending) && mid.Of(start + i) == 0 && from <= start && start + n <= free
    ensures free <= Max(start + n, mid.Covered()) && mid.Covered() == s.Covered() && mid.Missing() <= s.Missing()
    ensures mid.perBlock == s.perBlock && |mid.table| == |s.table| && Recounted(s, mid, Run(start, i), 1, grown)
    ensures mid.HasBlock(start + i) ==> mid.Group(start + i) < |mid.table|
    ensures mid.Group(start + i) < |mid.table| <==> start + i < mid.Covered()
  {
    hide Refcounts.Of, Refcounts.Shaped, Refcounts.IsBlock, Refcounts.Missing, Refcounts.FirstRun, Refcounts.Group,
      Refcounts.Accounted, Run;
    RunUncounted(s, from, start, n, mid, grown, i);
    CoveredSame(s, mid);
    GroupFacts(mid, start + i);
    GroupCovered(mid, start + i);
  }

  lemma RunNext(s: Refcounts, start: nat, n: nat, i: nat, mid: Refcounts, midFree: nat, grown: set<nat>, pending: set<nat>,
                s': Refcounts, free: nat, more: set<nat>)
    requires s.Shaped() && RunSoFar(s, start, n, i, mid, midFree, grown, pending) && i < n && mid.Of(start + i) == 0
    requires Recounted(mid, s', {start + i}, 1, more) && s'.Accounted(pending - {start + i})
    requires if mid.HasBlock(start + i) then free == midFree && more == {}
      else midFree <= free <= Max(midFree, s'.Covered()) && forall k :: midFree <= k < free ==> 0 < s'.Of(k)
    requires forall k :: k in more ==> midFree <= k
    ensures RunSoFar(s, start, n, i + 1, s', free, grown + more, pending)
  {
    hide Refcounts.Of, Refcounts.Shaped, Refcounts.IsBlock, Refcounts.Missing, Refcounts.Accounted, Refcounts.HasBlock, Recounted, Run;
    OneMore(s, start, i, mid, grown, s', more);
    AccountedMore(s', pending - {start + i}, pending);
    PastTable(s', start + i);
    RecountedCovered(s, mid, Run(start, i), grown);
  }

  lemma RunDone(s: Refcounts, start: nat, n: nat, now: Refcounts, free: nat, grown: set<nat>, pending: set<nat>)
    requires s.Shaped() && RunSoFar(s, start, n, n, now, free, grown, pending)
    ensures Recounted(s, now, Run(start, n), 1, grown) && now.Shaped() && now.Accounted(pending) && now.Covered() == s.Covered()
    ensures start + n <= free <= Max(start + n, s.Covered()) && (0 < n ==> start + n <= s.Covered())
    ensures (forall k :: start + n <= k < free ==> 0 < now.Of(k)) && forall k :: k in grown ==> start + n <= k
  {
    hide Refcounts.Of, Refcounts.Shaped, Refcounts.IsBlock, Refcounts.Missing, Refcounts.Accounted, Refcounts.HasBlock, Run, Recounted;
    RecountedCovered(s, now, Run(start, n), grown);
  }

  lemma CountStored(s: Refcounts, mid: Refcounts, s': Refcounts, c: nat, v: nat, grown: set<nat>, pending: set<nat>)
    requires s.Shaped() && Recounted(s, mid, {}, 1, grown) && mid.HasBlock(c) && mid.Accounted(pending)
    requires v < U16_RANGE && c !in grown && s' == mid.WithCount(c, v)
    ensures Recounted(s, s', {c}, v, grown) && mid.Of(c) == s.Of(c)
    ensures s'.Shaped() && s'.Missing() <= s.Missing() && s'.Covered() == s.Covered()
    ensures s'.Of(c) == v && s'.Accounted(if v == 0 then pending + {c} else pending - {c})
    ensures forall k: nat :: k != c ==> s'.Of(k) == mid.Of(k)
  {
    WithCountOf(mid, c, v);
    hide Refcounts.Of, Refcounts.Shaped;
    forall k: nat
      ensures s'.IsBlock(k) == mid.IsBlock(k) && s'.HasBlock(k) == mid.HasBlock(k)
    {
    }
  }

  lemma BlockCounted(s: Refcounts, from: nat, c: nat, b: nat, s': Refcounts, more: set<nat>, pending: set<nat>)
    requires s.Shaped() && s.FirstRun(from, b, 1) && c < from && !s.HasBlock(c) && s.Group(c) < |s.table|
    requires b != 0 && !s.IsBlock(b) && s.WithBlock(c, b).Shaped() && forall p :: p in pending ==> p < from
    requires Recounted(s.WithBlock(c, b), s', {b}, 1, more) && s'.Accounted(pending + {b} - {b})
    requires var next := NewBlocks(s.WithBlock(c, b), b, b + 1); more == Members(next) && |more| == |next| && !TooFar(s.WithBlock(c, b), b, b + 1)
    ensures Recounted(s, s', {}, 1, {b} + more) && s'.HasBlock(c) && s'.Accounted(pending) && s'.Of(b) == 1
    ensures var all := NewBlocks(s, c, from); {b} + more == Members(all) && |{b} + more| == |all| && !TooFar(s, c, from)
    ensures forall k: nat :: from <= k <= b ==> 0 < s'.Of(k)
    ensures b < s.Covered() == s'.Covered()
  {
    hide Refcounts.Of, Refcounts.Shaped, Refcounts.IsBlock, Refcounts.HasBlock, Refcounts.Missing, Refcounts.Group,
      Refcounts.Slot, Refcounts.FirstRun, Refcounts.WithBlock, NewBlocks, Members, TooFar;
    var mid := s.WithBlock(c, b);
    WithBlockOf(s, c, b);
    GrowthStep(s, c, from, b);
    assert |{b} + more| == 1 + |more|;
    MembersCons(b, NewBlocks(mid, b, b + 1));
    ChainTooFar(s, c, from, b);
    FirstCounted(s, from, b);
    PastTable(s', b);
    CoveredSame(s, s');
    forall k: nat ensures s'.IsBlock(k) <==> s.IsBlock(k) || k in {b} + more {
      assert mid.IsBlock(k) <==> s.IsBlock(k) || k == b;
    }
  }

  lemma MembersCons(b: nat, s: seq<nat>)
    ensures Members([b] + s) == {b} + Members(s)
  {
  }

  /** First fit: a one-cluster run starts at the lowest free cluster, and leaves none behind the search. */
  lemma FirstFit(s: Refcounts, from: nat, start: nat, s': Refcounts, from': nat, grown: set<nat>, counted: bool)
    requires s.Shaped() && s.FirstRun(from, start, 1) && Recounted(s, s', if counted then Run(start, 1) else {}, 1, grown)
    requires forall k :: start + 1 <= k < from' ==> 0 < s'.Of(k)
    ensures LowUsed(s, from) ==> LowUsed(s, start) && (counted ==> LowUsed(s', from'))
  {
    hide Refcounts.Of, Refcounts.Shaped, Refcounts.FirstRun;
    FirstCounted(s, from, start);
    CoveredSame(s, s');
    assert start in Run(start, 1);
  }

  /** One taken off a 16-bit count. */
  function LessOne(n: nat): nat {
    (n + SATURATED) % U16_RANGE
  }

  /** `s'` is `s` with one taken off the counts of [a, b) that have a block. */
  ghost predicate Released(s: Refcounts, s': Refcounts, a: nat, b: nat)
    requires s.Shaped()
  {
    s'.Shaped() && s'.perBlock == s.perBlock && s'.table == s.table &&
    forall k: nat :: s'.Of(k) == if a <= k < b && s.HasBlock(k) then LessOne(s.Of(k)) else s.Of(k)
  }

  /** Where the search goes back to when the clusters of [a, b) have been released. */
  ghost predicate BackTo(s': Refcounts, a: nat, b: nat, from: nat, from': nat)
    requires s'.Shaped()
  {
    from' <= from && (from' == from || (a <= from' < b && s'.HasBlock(from') && s'.Of(from') == 0)) &&
    forall k: nat :: a <= k < b && s'.HasBlock(k) && s'.Of(k) == 0 ==> from' <= k
  }

  /** One turn: a cluster with a block loses one, one past the table is left alone. */
  lemma OneReleased(s: Refcounts, a: nat, k: nat, mid: Refcounts, s': Refcounts, from: nat, mid': nat, from': nat)
    requires s.Shaped() && Released(s, mid, a, k) && a <= k && BackTo(mid, a, k, from, mid')
    requires if mid.HasBlock(k) then
        Recounted(mid, s', {k}, LessOne(mid.Of(k)), {}) && s'.table == mid.table && from' == if s'.Of(k) == 0 && k < mid' then k else mid'
      else s' == mid && from' == mid'
    ensures Released(s, s', a, k + 1) && BackTo(s', a, k + 1, from, from')
  {
    hide Refcounts.Of, Refcounts.Shaped, Refcounts.IsBlock, Refcounts.Missing, Refcounts.HasBlock, LessOne;
    SameBlocks(s, mid);
    SameBlocks(mid, s');
  }

  lemma StillBlocked(s: Refcounts, a: nat, k: nat, mid: Refcounts)
    requires s.Shaped() && Released(s, mid, a, k) && (s.HasBlock(k) || s.Group(k) >= |s.table|)
    ensures mid.HasBlock(k) || mid.Group(k) >= |mid.table|
    ensures !(mid.HasBlock(k) && mid.Group(k) >= |mid.table|)
  {
  }

  lemma ReleaseAccounted(s: Refcounts, a: nat, k: nat)
    requires s.Shaped() && a <= k
    requires var p := Run(a, k - a); s.Accounted(p) || s.Accounted(if s.Of(k) == 0 then p + {k} else p - {k})
    ensures s.Accounted(Run(a, k + 1 - a))
  {
    hide Refcounts.Of, Refcounts.Shaped, Refcounts.IsBlock;
    assert Run(a, k - a) <= Run(a, k + 1 - a) && k in Run(a, k + 1 - a);
  }

  lemma LastAccounted(s: Refcounts, c: nat)
    requires s.Shaped() && s.Accounted(Run(c, 1)) && !(s.IsBlock(c) && s.Of(c) == 0)
    ensures s.Accounted({})
  {
    hide Refcounts.Of, Refcounts.Shaped, Refcounts.IsBlock;
  }

  lemma NothingReleased(s: Refcounts, a: nat, from: nat)
    requires s.Shaped()
    ensures Released(s, s, a, a) && BackTo(s, a, a, from, from)
  {
  }

  lemma Ordered(a: nat, b: nat, n: nat)
    requires 0 < n && a <= b
    ensures a / n <= b / n
  {
    DivMonotone(a, b, n);
  }

  lemma ScaledOrder(a: nat, b: nat, n: nat)
    requires 0 < n
    ensures a * n <= b * n <==> a <= b
  {
  }

  /** Rounding down to a cluster. */
  lemma RoundDown(x: nat, n: nat)
    requires 0 < n
    ensures x - x % n == x / n * n
  {
  }

  /** The releases keep what first fit relies on. */
  lemma ReleasedLow(s: Refcounts, s': Refcounts, a: nat, b: nat, from: nat, from': nat)
    requires s.Shaped() && Released(s, s', a, b) && BackTo(s', a, b, from, from') && LowUsed(s, from)
    ensures LowUsed(s', from')
  {
  }

  /** Freeing a run undoes its allocation, but for the blocks that were made to count it. */
  lemma AllocThenFree(s: Refcounts, mid: Refcounts, s': Refcounts, start: nat, n: nat, grown: set<nat>)
    requires s.Shaped() && s.FreeRun(start, n) && Recounted(s, mid, Run(start, n), 1, grown)
    requires Released(mid, s', start, start + n)
    ensures forall k: nat :: s'.Of(k) == if k in grown then 1 else s.Of(k)
  {
  }

  /**
    It does happen, with blocks of any size: the first cluster of a request for 2p - 1, on
    an image that counts nothing yet, takes three blocks, each to count the one before.
   */
  method ThreeBlocks(p: nat) returns (ok: bool, ghost grown: set<nat>)
    requires 2 <= p && 5 * p < U32_RANGE
    ensures ok && grown == {2 * p - 1, 2 * p, 2 * p + 1} && |grown| == 3
  {
    hide Refcounts.Shaped, Refcounts.Of, Refcounts.HasBlock, Refcounts.Group, Refcounts.IsBlock, Refcounts.Covered,
      Refcounts.Accounted, Refcounts.FirstRun, Recounted, NewBlocks, TooFar, SaturatedIn, Fails, Members, HeldLost, Requests, Reads, Lru.RunFrom;
    var a := new Allocator(p, [0, 0, 0], map[]);
    ghost var s := a.Counts();
    NothingCounted(s);
    ThreeInstance(s);
    var found, clustIdx := a.FindRun(2 * p - 1);
    var freed;
    ok, freed, grown := a.UpdateClusterRefcount(clustIdx + 1 - (2 * p - 1), 1, {});
  }

  lemma NothingCounted(s: Refcounts)
    requires 2 <= s.perBlock && s.table == [0, 0, 0]
    ensures s.Shaped() && s.Covered() == 3 * s.perBlock && s.Accounted({}) && forall a: nat, b: nat :: !SaturatedIn(s, a, b)
    ensures forall c: nat :: !s.HasBlock(c) && s.Of(c) == 0
    ensures var n := 2 * s.perBlock - 1; forall start :: s.FirstRun(0, start, n) ==> start == 0
  {
    assert s.FreeRun(0, 2 * s.perBlock - 1);
  }

  lemma ThreeInstance(s: Refcounts)
    requires s.Shaped() && |s.table| == 3 && forall c: nat :: !s.HasBlock(c) && s.Of(c) == 0
    ensures var from := 2 * s.perBlock - 1;
      NewBlocks(s, 0, from) == [from, from + 1, from + 2] && Members([from, from + 1, from + 2]) == {from, from + 1, from + 2} &&
      !TooFar(s, 0, from) && !Fails(s, 0, from) && !HeldLost(s, 0, from) && s.Group(0) == 0
  {
    var p := s.perBlock;
    DivUnique(2 * p - 1, 1, p - 1, p);
    DivUnique(2 * p, 2, 0, p);
    DivUnique(0, 0, 0, p);
    NoBlock(s, 0, 0);
    hide Refcounts.Of, Refcounts.Shaped;
    assert FirstFree(s, 2 * p - 1) == 2 * p - 1 && FirstFree(s, 2 * p) == 2 * p;
    hide FirstFree;
  }

  /** Where the block of group `g` lies: at its first cluster. */
  function GroupOffset(p: nat, g: nat): nat {
    g * p * (2 * p)
  }

  /** Groups 0 and 1 have no block, 2 to 31 are full, and of group 32 only the block is in use. */
  function FullTable(p: nat): seq<nat> {
    seq<nat>(33, g requires 0 <= g => if g < 2 then 0 else GroupOffset(p, g))
  }

  function FullBlock(p: nat, g: nat): seq<nat> {
    seq<nat>(p, i => if g < 32 || i == 0 then 1 else 0)
  }

  function FullBlocks(p: nat, g: nat): map<nat, seq<nat>> {
    if g <= 2 then map[] else FullBlocks(p, g - 1)[GroupOffset(p, g - 1) := FullBlock(p, g - 1)]
  }

  /**
    The block made for the first cluster of a request for 2p - 1 leaves the cache before it
    is written: counting it reads the blocks of groups 2 to 32 and makes one more.
   */
  method BlockFreed(p: nat) returns (freed: bool)
    requires 2 <= p && 35 * p < U32_RANGE
    ensures freed
  {
    hide Refcounts.Shaped, Refcounts.Of, Refcounts.HasBlock, Refcounts.Group, Refcounts.IsBlock, Refcounts.Covered,
      Refcounts.Accounted, Refcounts.FirstRun, Recounted, NewBlocks, TooFar, SaturatedIn, Fails, Members, HeldLost, Requests, Reads, Lru.RunFrom,
      FullTable, FullBlocks;
    var a := new Allocator(p, FullTable(p), FullBlocks(p, 33));
    ghost var s := a.Counts();
    FullShaped(s);
    FullAccounted(s);
    FullInstance(s);
    var found, clustIdx := a.FindRun(2 * p - 1);
    ghost var grown;
    var ok;
    ok, freed, grown := a.UpdateClusterRefcount(clustIdx + 1 - (2 * p - 1), 1, {});
  }

  lemma OffsetUnique(p: nat, g: nat, h: nat)
    requires 0 < p && GroupOffset(p, g) == GroupOffset(p, h)
    ensures g == h
  {
    BlockUnique(g * p, h * p, 2 * p);
    BlockUnique(g, h, p);
  }

  lemma {:induction false} FullBlocksAt(p: nat, g: nat, h: nat)
    requires 0 < p && 2 <= h < g
    ensures GroupOffset(p, h) in FullBlocks(p, g) && FullBlocks(p, g)[GroupOffset(p, h)] == FullBlock(p, h)
  {
    hide GroupOffset, FullBlock;
    if h < g - 1 {
      FullBlocksAt(p, g - 1, h);
      if GroupOffset(p, h) == GroupOffset(p, g - 1) {
        OffsetUnique(p, h, g - 1);
      }
    }
  }

  /** What the image counts. */
  function FullCount(g: nat, slot: nat): nat {
    if 2 <= g < 32 || (g == 32 && slot == 0) then 1 else 0
  }

  lemma FullShaped(s: Refcounts)
    requires 2 <= s.perBlock && s == Refcounts(s.perBlock, FullTable(s.perBlock), FullBlocks(s.perBlock, 33))
    ensures s.Shaped() && s.Covered() == 33 * s.perBlock && |s.table| == 33
    ensures forall c: nat :: s.Of(c) == FullCount(s.Group(c), s.Slot(c)) && (s.HasBlock(c) <==> 2 <= s.Group(c) < 33)
  {
    var p := s.perBlock;
    forall g | 2 <= g < 33
      ensures s.table[g] == GroupOffset(p, g) != 0 && s.BlockAt(s.table[g]) && s.blocks[s.table[g]] == FullBlock(p, g)
    {
      FullBlocksAt(p, 33, g);
      ShiftBack(g, p);
      ShiftBack(g * p, 2 * p);
    }
    hide GroupOffset, FullBlocks;
    forall g, h | 0 <= g < h < 33 && s.table[g] != 0 ensures s.table[g] != s.table[h] {
      if GroupOffset(p, g) == GroupOffset(p, h) {
        OffsetUnique(p, g, h);
      }
    }
  }

  lemma FullAccounted(s: Refcounts)
    requires s.Shaped() && s.table == FullTable(s.perBlock)
    requires forall c: nat :: s.Of(c) == FullCount(s.Group(c), s.Slot(c))
    ensures s.Accounted({}) && forall a: nat, b: nat :: !SaturatedIn(s, a, b)
  {
    var p := s.perBlock;
    hide Refcounts.Of, Refcounts.Shaped, Refcounts.Group, Refcounts.Slot;
    forall c: nat | s.IsBlock(c) ensures 0 < s.Of(c) {
      var g :| 0 <= g < |s.table| && s.table[g] != 0 && s.table[g] == c * s.ClusterSize();
      BlockUnique(g * p, c, 2 * p);
      BlockStart(s, g);
    }
  }

  lemma BlockStart(s: Refcounts, g: nat)
    requires 0 < s.perBlock
    ensures s.Group(g * s.perBlock) == g && s.Slot(g * s.perBlock) == 0
  {
    ShiftBack(g, s.perBlock);
  }

  lemma FullInstance(s: Refcounts)
    requires s.Shaped() && |s.table| == 33
    requires forall c: nat :: s.Of(c) == FullCount(s.Group(c), s.Slot(c)) && (s.HasBlock(c) <==> 2 <= s.Group(c) < 33)
    ensures var from := 2 * s.perBlock - 1;
      HeldLost(s, 0, from) && !TooFar(s, 0, from) && !Fails(s, 0, from) && s.Group(0) == 0 && forall start :: s.FirstRun(0, start, from) ==> start == 0
  {
    var p, f := s.perBlock, FirstFree(s, 2 * s.perBlock);
    NoBlock(s, 0, 0);
    FullPlaces(s);
    FirstAt(s, 2 * p - 1);
    FreeStart(s);
    hide Refcounts.Of, Refcounts.Shaped, FirstFree, Refcounts.Slot;
    assert s.Of(32 * p + 1) == 0;
    DivMonotone(2 * p, f, p);
    DivMonotone(f, 32 * p + 1, p);
    hide Refcounts.Group;
    assert s.Group(f) == 32;
    assert NewBlocks(s, 0, 2 * p - 1) == [2 * p - 1, f];
  }

  lemma FullPlaces(s: Refcounts)
    requires 2 <= s.perBlock
    ensures var p := s.perBlock;
      s.Group(0) == 0 && s.Group(2 * p - 1) == 1 && s.Slot(2 * p - 1) == p - 1 && s.Group(2 * p) == 2 &&
      s.Group(32 * p + 1) == 32 && s.Slot(32 * p + 1) == 1
  {
    var p := s.perBlock;
    DivUnique(2 * p - 1, 1, p - 1, p);
    DivUnique(2 * p, 2, 0, p);
    DivUnique(32 * p + 1, 32, 1, p);
    DivUnique(0, 0, 0, p);
  }

  lemma FreeStart(s: Refcounts)
    requires s.Shaped() && forall c: nat :: s.Of(c) == FullCount(s.Group(c), s.Slot(c))
    ensures s.FreeRun(0, 2 * s.perBlock - 1)
  {
    forall c: nat | c < 2 * s.perBlock - 1 ensures s.Of(c) == 0 {
      FloorLess(c, 2, s.perBlock);
    }
  }

  lemma OneFits(s: Refcounts, from: nat, start: nat, n: nat, s': Refcounts, from': nat, grown: set<nat>, counted: bool)
    requires s.Shaped() && s.FirstRun(from, start, n) && Recounted(s, s', if counted then Run(start, n) else {}, 1, grown)
    requires forall k :: start + n <= k < from' ==> 0 < s'.Of(k)
    ensures s'.Shaped() && (n == 1 && LowUsed(s, from) ==> LowUsed(s, start) && (counted ==> LowUsed(s', from')))
  {
    hide Refcounts.Of, Refcounts.Shaped, Refcounts.FirstRun, LowUsed;
    if n == 1 {
      FirstFit(s, from, start, s', from', grown, counted);
    }
  }

  lemma LowestFree(s: Refcounts, c: nat)
    requires s.Shaped() && LowUsed(s, c) && c <= s.Covered()
    ensures forall k :: 0 <= k < c ==> 0 < s.Of(k)
  {
  }
}
