# Proofs about the disk and virtqueue code

This project models the parts of the disk emulator whose correctness is hardest to
see by reading, and proves what they are for:

- the intrusive **red-black tree** with parent pointers (`util/rbtree.c`): every
  insert, erase, replacement and walk, on the pointers themselves;
- the **QCOW image engine** (`disk/qcow.c`): a table cache that keeps a tree, a
  recency list and a counter together, reads that refine a flat map from guest bytes
  to image bytes, writes in place that are read back, and the cluster allocator whose
  alloc, count and grow functions call each other and share a cache of 32 blocks;
- the **split virtqueue** of the block device (`virtio/core.c`, `include/kvm/virtio.h`,
  `virtio/blk.c`): a conforming driver, the I/O thread and any number of completions
  as interleaved steps, with unbounded counters behind the 16-bit indices, and the
  walk of descriptor chains;
- what these rest on: circular lists, full transfers over files that transfer short,
  the in-flight counter of asynchronous I/O, and page runs of guest mappings.

`dafny verify dfyconfig.toml` checks everything.

## How it is laid out

| file | what it holds |
|---|---|
| `Basics.dfy` | word sizes, division and product facts, the pigeonhole principle |
| `RbSpec.dfy` | red-black trees as values: order, the five properties, height, a tree with a hole |
| `RbFixup.dfy` | one turn of each rebalancing loop on those values, and what it keeps |
| `RbTree.dfy` | nodes with links, what links represent which tree, rotations in place |
| `RbInsert.dfy`, `RbErase.dfy`, `RbWalk.dfy` | the operations on linked nodes |
| `List.dfy`, `CacheTree.dfy`, `Lru.dfy`, `TableCache.dfy` | lists, keyed trees, recency order, the cache made of them |
| `ReadWrite.dfy` | system calls that transfer short, and the loops over them |
| `QcowImage.dfy`, `QcowDisk.dfy` | what an image means to the guest; reading and writing it through the cache |
| `QcowCounts.dfy`, `BlockCache.dfy`, `QcowAlloc.dfy` | reference counts and the blocks that hold them, which blocks stay in memory, and the allocator |
| `VirtRing.dfy`, `VirtChain.dfy`, `VirtProtocol.dfy` | queue operations on 16-bit indices, descriptor chains, the interleaved protocol |
| `Aio.dfy`, `GuestPages.dfy` | the in-flight counter; page runs |

The tree code is proved in two layers. A tree and the path from a node to the root are
values (`Tree` and `Context`); `Focus` says the linked nodes represent both. Each turn
of a loop is a function on these values, whose correctness is a lemma, and a method
that does the pointer writes of the source and is proved to take the nodes from one
value to the next.

The queue and the counter are state machines: `Can` and `After` give each step, `Reaches`
a run of them, and `Safety` says that the invariant holds in every state a run reaches.
For the queue that is the invariant of rings and indices, in all runs; the notifications of
either side need a condition on the run (`VirtProtocol.Runs`), because a 16-bit test cannot
tell 2^16 steps from none.
The steps act on the same functions of the ring (`VirtRing.Vring`) that the methods of
`VirtRing.VirtQueue` are proved against.

## Where the code does less than one may expect

These are results of the model, not assumptions in it.

- A cluster read past the L1 table gives -1, which `nr`, a `u32`, turns into 2^32 - 1, so
  `nr <= 0` misses it. A read whose first piece is there returns its full length with the
  buffer untouched; one whose later piece is there counts `nr_read` down by one for each
  further turn, and is refused only if these turns pass the end of the disk. Exactly the
  requests whose last piece the L1 table reaches are served in full
  (`QcowDisk.Qcow.ReadSectorSingle`, `QcowDisk.ServedInFull`).
- Version 1 images drop the remainder when they compute the L1 size, so the table covers
  the disk only if the size is a multiple (`QcowDisk.Qcow1Coverage`), and the rest of the
  disk reads as just said (`QcowDisk.Qcow.ReadQcow1Tail`).
- A sector request that lies in reach of the table is refused exactly when its last piece
  starts past the end of the disk; one that only ends there is served
  (`QcowDisk.CoveredServes`).
- Inserting a key that is in the tree does nothing and reports success. The cache of L2
  tables never gets there, because it inserts only after a miss (`CacheTree.Insert`,
  `TableCache.Cache.Add`); that of refcount blocks inserts a new block without a lookup, and
  never gets there because it holds only blocks the table names, and the cluster taken for a
  new one holds none of these (`BlockCache.Entered`, `QcowCounts.NewBlock`).
- A mapped cluster that the end of the file cuts is read as far as it goes, and the full
  length is returned with the rest of the buffer as it was; where nothing of it is left, the
  read of the cluster gives -1 (`QcowDisk.Qcow.ReadAnyCluster`).
- A refcount update adds at most two blocks when one cluster is allocated at a time, which
  is all the callers do. A request for more can make it add three; `QcowCounts.ThreeBlocksIff`
  says when, and `QcowAlloc.ThreeBlocks` does it.
- A new refcount block is held by a pointer while its own cluster is counted, which can
  request blocks until the cache of 32 frees the one that is held; the count is then written
  to freed memory. That never happens to a request for one cluster. It happens to the first
  cluster without a block of a longer run exactly when the search stands, after the run, at
  the last slot of another group without a block, and at least 30 groups lie between that
  one and the next free cluster (`BlockCache.HeldIff`, `QcowAlloc.Allocator.AllocClusters`);
  `QcowAlloc.BlockFreed` does it.
- The interrupt test looks only at the last (new - old) mod 2^16 completions, so it misses
  an event once 2^16 have passed since the last signal (`VirtRing.NeedEventMissed`).
- A negative return of `io_getevents` raises the in-flight counter for good, and
  `raw_image__wait` then never returns (`Aio.FailureStays`).
- An indirect table of no length that starts inside a page leaves that page mapped
  (`GuestPages.GuestMemory.WalkThenComplete`).
- `P2ROUNDUP` gives 0 within a page of 2^64 (`GuestPages.RoundsUp`).

## Model

| member | source | states |
|---|---|---|
| `RbSpec.BalancedIffAllPathsEqual` | util/rbtree.c:26-39 | the recursive balance predicate holds exactly when all paths from the root to a leaf pass the same number of black nodes, the fifth property as the file words it |
| `RbSpec.HeightBound` | util/rbtree.c:36-39 | a red-black tree of n nodes has height h with 2^ceil(h/2) <= n+1 |
| `RbFixup.InsertStepCorrect` | util/rbtree.c:92-190 | one turn of the insert loop, any of the three cases or their mirrors, keeps the in-order sequence and the nodes, and leaves either a red-black tree or the one red node two levels further up |
| `RbFixup.EraseStepCorrect` | util/rbtree.c:207-358 | one turn of the erase loop keeps order and nodes, and leaves either a red-black tree or a subtree one black node short at a hole strictly further up |
| `RbFixup.RotatedSiblingCorrect` | util/rbtree.c:217-231 | rotating a red sibling up leaves the hole one black node short, now beside a black sibling under a red parent |
| `RbFixup.LiftedSound` | include/linux/rbtree_augmented.h:144-167 | where a node with at most one child is removed, the place is red-black again unless a black leaf went, and then it is exactly one short |
| `RbFixup.SuccessorSound` | include/linux/rbtree_augmented.h:185-227 | moving the leftmost node of the right subtree into the place and colour of the removed one leaves at most its old place one black node short |
| `RbTree.FocusIffPlugged` | include/linux/rbtree.h:35-44 | links that represent a subtree and the path to it are those of the whole tree, and the other way round |
| `RbTree.ValidOnNodes` | util/rbtree.c:26-39 | what a valid tree is for the nodes themselves: a black root without parent, no red node with a red child, and every child names its parent |
| `RbTree.ChangeChild` | include/linux/rbtree_augmented.h:120-131 | exactly one link, of the parent or of the root, now names the new child |
| `RbTree.RotateSetParents` | util/rbtree.c:61-69 | the new node takes the parent and colour of the old one and the place in the parent or root |
| `RbTree.RotateLeft` | util/rbtree.c:226-231 | the link writes of a left rotation take the nodes from the tree before to the rotated tree, with every parent link right |
| `RbTree.RotateRight` | util/rbtree.c:151-156 | the same for a right rotation, as in the third insert case |
| `RbInsert.LinkNode` | include/linux/rbtree.h:79-86 | a fresh node hung into an empty slot is a red leaf there |
| `RbInsert.InsertColor` | util/rbtree.c:71-194 | after a node is linked at any empty slot of a red-black tree, the tree is valid again, its sequence is the old one with the node at that slot, and no node was lost |
| `RbErase.FixEraseLeft` | util/rbtree.c:216-302 | one turn with the hole on the left does to the nodes what the step function does to the tree |
| `RbErase.FixEraseRight` | util/rbtree.c:303-358 | the same with the hole on the right |
| `RbErase.EraseColor` | util/rbtree.c:200-360 | from any hole that is one black node short the loop ends, in a valid tree with the same sequence and nodes |
| `RbErase.RemoveNode` | include/linux/rbtree_augmented.h:136-231 | in each of the three structural cases the sequence loses exactly the node; the result is null exactly where the tree is red-black already, and otherwise names the parent of the hole one black node short |
| `RbErase.Erase` | util/rbtree.c:389-395 | for every node of every valid tree: the sequence without that node, all other nodes kept, links and all red-black properties restored |
| `RbWalk.First` | util/rbtree.c:413-423 | the first node in order, null for the empty tree |
| `RbWalk.Last` | util/rbtree.c:425-435 | the last node in order, null for the empty tree |
| `RbWalk.Next` | util/rbtree.c:437-466 | the in-order successor, null at the end and for a cleared node |
| `RbWalk.Prev` | util/rbtree.c:468-494 | the in-order predecessor, null at the start and for a cleared node |
| `RbWalk.NextPrevInverse` | util/rbtree.c:437-494 | y follows x exactly when x precedes y |
| `RbWalk.NextUnique` | util/rbtree.c:437-466 | no node has two successors |
| `RbWalk.PrevUnique` | util/rbtree.c:468-494 | no node has two predecessors |
| `RbWalk.StepAndBack` | util/rbtree.c:437-494 | so the step back from the successor is the node itself, and the other way round |
| `RbWalk.FirstPostorder` | util/rbtree.c:542-548 | the first node in postorder |
| `RbWalk.NextPostorder` | util/rbtree.c:524-540 | the next node in postorder, null at the end |
| `RbWalk.PostorderWalk` | include/linux/rbtree.h:94-106 | the walk ends after exactly the postorder sequence |
| `RbWalk.PostorderPermutesInorder` | include/linux/rbtree.h:94-106 | that sequence visits every node of the tree once |
| `RbWalk.PostorderChildrenFirst` | util/rbtree.c:524-540 | everything below a node is visited before it |
| `RbWalk.ReplaceNode` | util/rbtree.c:496-510 | the new node stands where the old one stood in the sequence, and the tree is valid |
| `LinuxList.AddBetween` | include/linux/list.h:37-45 | between two neighbours of a ring the new entry joins the sequence at that point |
| `LinuxList.AddTail` | include/linux/list.h:74-77 | the ring holds the old sequence and then the new entry |
| `LinuxList.AddFront` | include/linux/list.h:60-63 | the ring holds the new entry and then the old sequence |
| `LinuxList.Del` | include/linux/list.h:104-109 | the ring holds the sequence without the entry |
| `LinuxList.DelInit` | include/linux/list.h:142-146 | the same, and the entry is an empty ring of its own |
| `LinuxList.MoveTail` | include/linux/list.h:164-169 | the entry goes to the end and the others keep their order |
| `LinuxList.IsEmpty` | include/linux/list.h:186-189 | true exactly for the empty sequence |
| `CacheTree.Lookup` | disk/qcow.c:71-91 | finds the table for an offset exactly when there is one, in k comparisons with 2^ceil(k/2) <= n+1 |
| `CacheTree.Insert` | disk/qcow.c:39-69 | the keys stay sorted with the new node among them; a key that is there leaves the tree alone |
| `Lru.RunIsMostRecent` | disk/qcow.c:129-177 | after any history of requests the list is the capacity-many most recently requested distinct offsets in order of last request |
| `Lru.RunHeld` | disk/qcow.c:584-662 | an entry is in the list after requests for others exactly while these are fewer distinct ones than it can hold |
| `Lru.ByLastRequestStep` | disk/qcow.c:164-177 | one more request moves its offset to the end of that order |
| `TableCache.Cache.Search` | disk/qcow.c:164-177 | a hit becomes the most recent and changes nothing else; null exactly for an offset that is not cached |
| `TableCache.Cache.Add` | disk/qcow.c:129-162 | a full cache loses its least recent table first; tree, list and counter agree afterwards |
| `TableCache.Cache.Evict` | disk/qcow.c:135-143 | exactly the head of the list leaves list, tree and counter |
| `TableCache.MovedOffsets` | disk/qcow.c:164-177 | a hit is one request of the recency order |
| `TableCache.AddedOffsets` | disk/qcow.c:129-162 | a miss is one request of the recency order |
| `ReadWrite.PreadInFull` | util/read-write.c:129-152 | for every schedule of short reads the buffer holds exactly the counted bytes of the file and is otherwise untouched; on a healthy file it stops short only at the end |
| `ReadWrite.PwriteInFull` | util/read-write.c:154-176 | a full return has put the whole buffer in place, past the end of the file with zeros in between, and changed no other byte; a failed one has done so with a proper prefix, and only on a file that is not healthy |
| `ReadWrite.ShiftIovec` | util/read-write.c:213-225 | skips exactly the iovecs the transfer covered whole, and accounts for them |
| `ReadWrite.PreadvInFull` | util/read-write.c:297-317 | a return is the length of the iovecs completed, which are filled with the flat range, or -1 exactly where that is nothing and there was something to read; on a healthy file it stops short only at the end; without a return all the calls allowed were made |
| `ReadWrite.PwritevInFull` | util/read-write.c:319-339 | a full return leaves the range equal to the concatenated buffers and all else unchanged, inside the file or past its end, although iovecs are sent again from their start; -1 only from a file that is not healthy |
| `QcowImage.ClusterBytes` | disk/qcow.c:200-219 | inside a cluster the flat guest range is a slice of the file at the mapped offset, or zeros where unmapped |
| `QcowImage.EntryBytes` | disk/qcow.c:420-420 | an L2 entry from its eight bytes, the most significant first |
| `QcowImage.EntryFields` | include/kvm/qcow.h:16-23 | the flags and the offset of an entry in its bytes, for either version |
| `QcowImage.DataBytes` | disk/qcow.c:403-447 | where a guest cluster is and whether it is written in place, from the L1 table and the bytes of the file alone |
| `QcowImage.GuestByte` | disk/qcow.c:376-465 | the byte a guest sees, in the same terms: the L1 entry, the eight bytes of the L2 entry, the flags masked off, zero where either names nothing |
| `QcowImage.DivTwice` | disk/qcow.c:200-205 | dividing by the span of an L1 entry is dividing by cluster size and table size in turn |
| `QcowDisk.Qcow.ReadL2Table` | disk/qcow.c:221-251 | the table the file holds, each entry from its eight bytes in big-endian order, whatever is cached, as one request of the recency order |
| `QcowDisk.Qcow.ReadL2Tables` | disk/qcow.c:221-251 | after any sequence of requests from an empty cache it holds the 32 most recent distinct offsets in order of last request |
| `QcowDisk.Qcow.ReadAnyCluster` | disk/qcow.c:371-465 | wherever the mapped clusters lie: the buffer gets as many bytes of this cluster as the file has and keeps the rest, the length returned is full all the same; -1 exactly beyond the L1 table and where the file has nothing |
| `QcowDisk.Qcow.ReadCluster` | disk/qcow.c:371-465 | where clusters end inside the file, the part of the request in this cluster gets the guest bytes; -1 exactly beyond the L1 table; the cache stays coherent |
| `QcowDisk.Qcow.ReadSectorSingle` | disk/qcow.c:467-501 | with the u32 counters of the source, on any image: the buffer gets exactly the guest bytes within reach of the L1 table and keeps the rest; the request is refused exactly when its last piece starts past the end of the disk or, after a miss, when the turns that count `nr_read` down lead there |
| `QcowDisk.Qcow.ReadSector` | disk/qcow.c:503-521 | the same over iovecs: refused exactly when one of them is, and otherwise the flat range as far as the L1 table reaches |
| `QcowDisk.ServedInFull` | disk/qcow.c:467-501 | a request that is not refused gets all its guest bytes exactly when the L1 table reaches its last piece |
| `QcowDisk.CoveredServes` | disk/qcow.c:467-501 | where the L1 table covers the disk, a request is refused exactly when the cluster of its last byte, or the request if that is later, starts at or past the end, and all else is served in full |
| `QcowDisk.PastEndIs` | disk/qcow.c:1078-1090 | the same arithmetic for the refusal of a write |
| `QcowDisk.Qcow1Tail` | disk/qcow.c:472-493 | a version 1 read that starts in the part of the disk the truncated L1 size leaves out is never refused and never served |
| `QcowDisk.Qcow.ReadQcow1Tail` | disk/qcow.c:467-501 | there the call returns the full length and leaves the buffer as it was |
| `QcowDisk.Qcow1TailInstance` | disk/qcow.c:1408-1414 | as it does on a 3 MiB disk from 2 MiB on |
| `QcowDisk.Qcow1Coverage` | disk/qcow.c:1408-1414 | the truncated L1 size covers the disk exactly when the disk is a multiple of what one entry covers |
| `QcowImage.TablesKept` | disk/qcow.c:986-1003 | with data apart from tables, a write to a data cluster changes no L2 table |
| `QcowImage.EntriesKept` | disk/qcow.c:986-1003 | nor the translation of any guest cluster |
| `QcowImage.WrittenOverlaid` | disk/qcow.c:1056-1063 | the write shows at exactly the guest bytes it was aimed at |
| `QcowImage.WrittenRestKept` | disk/qcow.c:1056-1063 | no byte of the file outside guest data changes |
| `QcowImage.RefcountsKept` | disk/qcow.c:1056-1063 | so whatever lies apart from guest data, refcount blocks among it, reads the same after any number of such writes |
| `QcowDisk.Qcow.WriteCluster` | disk/qcow.c:973-1071 | where both entries are COPIED the buffer part goes to the mapped data and nowhere else; -1 exactly past the L1 table; the cache still agrees with the file |
| `QcowDisk.Qcow.WriteSectorSingle` | disk/qcow.c:1073-1100 | the guest range shows the buffer; every other guest byte, every translation and every file byte outside guest data is as it was; refused exactly when the last piece starts past the end of the disk or of the L1 table, after a proper prefix |
| `QcowDisk.Qcow.WriteSector` | disk/qcow.c:1102-1120 | the same over iovecs |
| `QcowDisk.WrittenReadable` | disk/qcow.c:1102-1120 | iovecs whose write is not refused can be read, and are served in full |
| `QcowDisk.Qcow.WriteAndReadBack` | disk/qcow.c:503-521 | a write that is not refused and then a read of the same iovecs: the read is not refused, and any buffer then holds what was written |
| `QcowDisk.WriteThenRead` | disk/qcow.c:1073-1120 | for all images: what a read fills in after a write of the same range is what was written |
| `QcowDisk.ReadBesideWrite` | disk/qcow.c:1073-1120 | a read of any other range is what it was |
| `QcowAlloc.Allocator.GetRefcount` | disk/qcow.c:716-777 | the count the file holds, 0 without a block or past the table; a block that is looked at becomes the most recent, and the cache holds only blocks the table names |
| `QcowAlloc.Allocator.FindRun` | disk/qcow.c:846-855 | the search ends at the first run of uncounted clusters from where it stands, having passed no saturated count, or else at the first saturated count with no run before it; it has requested the block of each cluster it passed, in order |
| `QcowAlloc.Allocator.AllocClusters` | disk/qcow.c:838-866 | the run was wholly uncounted, is counted once, and its blocks lie outside it; nothing else changes; one-cluster requests get the lowest free cluster, keep all below the search in use and add at most two blocks; it fails only where a search comes to a saturated count or goes past the table, and always at a saturated count; a count is written to a freed block exactly where the run that was found is as `RequestLost` says, and never for one cluster |
| `QcowAlloc.LeastClusters` | disk/qcow.c:844-844 | the request is for the least number of clusters that hold the bytes |
| `QcowAlloc.Allocator.UpdateClusterRefcount` | disk/qcow.c:779-820 | the 16-bit sum on this cluster alone; the blocks added for it are exactly those of `NewBlocks`, each counted, and those requested of the cache those of `Requests`, in order; it fails exactly where `Fails` says: the cluster or a block to add lies past the table, or a search comes to a saturated count; where it does not fail, its block was freed before the write exactly if `HeldLost` holds; the search goes back to a cluster that became free |
| `QcowAlloc.Allocator.GrowRefcountBlock` | disk/qcow.c:664-714 | the group gets a block in a cluster that was in no use, with exactly the further blocks this takes; the recursion ends, and the block handed back is still in the cache exactly unless `HeldLost` holds |
| `QcowAlloc.Allocator.InstallBlock` | disk/qcow.c:685-705 | entering the block in cache and table before its own cluster is counted keeps every other count and every name in the table, and accounts for the block in the end |
| `BlockCache.HeldIff` | disk/qcow.c:584-608 | with the new block most recent in a cache of 32, it is in there after its own cluster was counted exactly unless `HeldLost` holds, and then no request has brought it back |
| `BlockCache.HeldLostNext` | disk/qcow.c:664-714 | that condition on the state before the growth is the same as one on what counting the new block's cluster passes |
| `BlockCache.AfterCount` | disk/qcow.c:716-752 | from the last slot of a group without a block, counting requests two blocks more than it passes groups, all different and none of them the one held |
| `BlockCache.NextNotLost` | disk/qcow.c:857-861 | right after a one-cluster search, and while a block is itself counted, the block made is never freed before its write |
| `QcowAlloc.BlockFreed` | disk/qcow.c:801-808 | for blocks of p counts, any p the 32-bit index has room for, there is an image on which the first update of a request for 2p - 1 clusters writes to a freed block |
| `BlockCache.Entered` | disk/qcow.c:685-702 | a new block is not in the cache before it is put there, so it is never a second one under its offset |
| `QcowAlloc.Allocator.FreeClusters` | disk/qcow.c:822-831 | each cluster the bytes touch loses one in 16 bits, those past the table are left alone, the search goes back to the lowest that became free, first fit is kept, and their blocks are requested in order |
| `QcowAlloc.Allocator.AllocCluster` | disk/qcow.c:838-866 | between any requests and releases of one cluster: the cluster is the lowest in no use, it and at most two for blocks are counted, no other count changes |
| `QcowAlloc.Allocator.FreeCluster` | disk/qcow.c:822-831 | exactly one count goes down by one; the next request may follow unless that was the last count of a block |
| `QcowCounts.GrowthStep` | disk/qcow.c:664-714 | one new block and what is then left to add are together what there was to add |
| `QcowCounts.FailsStep` | disk/qcow.c:664-714 | whether an update fails is decided by its first search and the counting of the block that found |
| `QcowCounts.BoundNext` | disk/qcow.c:857-861 | right after a one-cluster search an update adds at most two blocks |
| `QcowCounts.ThreeBlocksIff` | disk/qcow.c:664-714 | an update never adds more than three blocks, and three exactly when the cluster has no block, the search stands at the last slot of another group without one, and the first free cluster after it has none |
| `QcowAlloc.ThreeBlocks` | disk/qcow.c:838-861 | for blocks of p counts, any p the 32-bit index has room for: the first cluster of a request for 2p - 1 on an image without counts adds the blocks 2p - 1, 2p and 2p + 1 |
| `QcowAlloc.FirstFit` | disk/qcow.c:838-866 | a run of one starts at the lowest free cluster and leaves none behind |
| `QcowCounts.NewBlock` | disk/qcow.c:681-703 | the cluster taken for a block holds no other block and no count changes |
| `QcowAlloc.AllocThenFree` | disk/qcow.c:822-866 | freeing a run restores every count but those of the blocks made for it |
| `VirtRing.NeedEventExact` | virtio/core.c:297-304 | the 16-bit test says whether the event is among the last (new - old) mod 2^16 positions, for all inputs |
| `VirtRing.NeedEventPassed` | virtio/core.c:297-304 | with fewer than 2^16 steps it says whether the event was passed |
| `VirtRing.NeedEventMissed` | virtio/core.c:297-304 | at 2^16 steps it misses the event just passed |
| `VirtRing.SlotOfU16` | include/kvm/virtio.h:152 | the wrapped index has the slot of the unbounded one |
| `VirtRing.VirtQueue.Pop` | include/kvm/virtio.h:141-154 | the head at the next slot, and the index one further mod 2^16 |
| `VirtRing.VirtQueue.Available` | include/kvm/virtio.h:161-179 | the event index is written and the other index compared after it |
| `VirtRing.VirtQueue.SetUsedElem` | virtio/core.c:23-60 | the next used slot gets head and length, every other slot keeps what it had, and then the index is one on mod 2^16 |
| `VirtRing.VirtQueue.ShouldSignal` | virtio/core.c:276-307 | with the event index true exactly where one of the last (new - old) mod 2^16 positions before used.idx is used_event, and only then the index signalled for moves; without it true exactly where the driver did not suppress interrupts |
| `VirtRing.VirtQueue.PopAll` | virtio/blk.c:134-148 | while the driver adds nothing the loop pops the waiting entries in order and leaves the event index where it stopped |
| `VirtChain.GetHeadIov` | virtio/core.c:88-144 | for a chain that fits, direct in the queue's table or indirect from 0 in the table its head names: it follows the NEXT flags to the first descriptor without one or with a successor out of range, one iovec for each with address, length and direction, in the number with the WRITE flag and out the rest |
| `VirtChain.ChainOnDescriptors` | virtio/core.c:73-86 | what a chain is on the descriptors: every one but the last has the NEXT flag and names the one after it |
| `VirtChain.EndsIffAcyclic` | virtio/core.c:73-86 | the walk ends exactly on chains that come to no descriptor twice |
| `VirtChain.ChainFits` | virtio/core.c:73-86 | a chain has no more descriptors than its table |
| `VirtChain.ChainUnique` | virtio/core.c:73-86 | a start has one chain |
| `VirtProtocol.StepInv` | virtio/blk.c:134-148 | every step of the driver, the I/O thread or a completion keeps the invariant of the rings |
| `VirtProtocol.Safety` | virtio/blk.c:134-148 | so it holds after every interleaving, with no limit on its length; the available side holds after those of a driver that tests for notification at least once in 2^16 entries, the used side after those with fewer than 2^16 completions since the indices compared |
| `VirtProtocol.Conservation` | virtio/blk.c:62-85 | live requests have different heads, and a head is free exactly when it serves none of them; no waiting slot of either ring, with its length, and no record of a request in flight has been overwritten; used.idx is the number of completions mod 2^16, each of another request |
| `VirtProtocol.Reported` | virtio/core.c:37-50 | over any run the length kept for a completion is the one written with the entry of that request |
| `VirtProtocol.LifeCycle` | virtio/blk.c:134-148 | a request only moves on: popped, then dropped or in flight, completed once, taken back once |
| `VirtProtocol.DoneGrows` | virtio/blk.c:62-85 | from any point of any run on, each request only moves on, one that was dropped never completes, and the completions so far stay the first ones in order |
| `VirtProtocol.WaitingBound` | include/kvm/virtio.h:141-154 | no more requests wait than there are slots |
| `VirtProtocol.UnreapedBound` | virtio/core.c:37-50 | nor completions, and one less while a request is in flight |
| `VirtProtocol.NoLostWakeup` | virtio/blk.c:201-206 | however many completions pass, the thread is not blocked on an empty eventfd with an entry to pop unless the driver is still to notify |
| `VirtProtocol.NoLostInterrupt` | virtio/blk.c:79-84 | a driver asleep at the count it armed, with a completion since, has an interrupt pending or a completion that will raise it |
| `VirtProtocol.NoNeedlessInterrupt` | virtio/core.c:276-307 | over any run, a completion that passes the test, and the one behind a pending interrupt, had the event index among the positions between its two indices, or, without event index, a driver that had not suppressed interrupts |
| `VirtProtocol.SignalAtOnce` | virtio/core.c:276-307 | taken without interleaving, the steps of a completion are the queue operation, and the interrupt is raised exactly if that says so |
| `VirtProtocol.UsedAtOnce` | virtio/core.c:37-60 | and those that write and show an entry are the other one |
| `VirtProtocol.SignalComes` | virtio/core.c:276-307 | that completion stays one at each of its own steps until it raises the interrupt |
| `VirtProtocol.InterruptWithin` | virtio/core.c:276-307 | while only completions step and none starts, a run has no more steps than they have left, at most five each, and at its end the sleeping driver has an interrupt pending |
| `VirtProtocol.CompletionCan` | virtio/core.c:276-307 | and until that end one of them can step |
| `Aio.StepInv` | disk/aio.c:12-31 | each step keeps the counter equal to the requests about to be submitted, in the kernel, refused or harvested, plus what failed calls added |
| `Aio.Safety` | disk/aio.c:12-31 | so it is after every interleaving |
| `Aio.WaitReturns` | disk/aio.c:70-80 | the counter is 0 exactly when no harvest failed and every request was withdrawn or has had its callback run |
| `Aio.FailureStays` | disk/aio.c:82-99 | however a run goes on after a failed harvest, the counter stays above the requests there are by at least what the harvest returned |
| `Aio.LifeCycle` | disk/aio.c:82-99 | a step moves each request one edge on or leaves it, and a callback runs only on one that is harvested |
| `Aio.TakenIffAccepted` | disk/aio.c:12-31 | over any run a request is with the kernel or back from it exactly if io_submit took it, and withdrawn exactly if it was refused and given up; EAGAIN leaves it where it is |
| `Aio.FailuresCounted` | disk/aio.c:82-99 | over any run the counter is the requests under way and what failed harvests returned, added up |
| `Aio.OnceCalled` | disk/aio.c:82-99 | over any run a request only moves on: its callback runs once, between harvest and subtraction, and never if it was refused or withdrawn |
| `GuestPages.RoundsUp` | demu.h:42 | the macro rounds up to a page exactly when the sum does not come within a page of 2^64 |
| `GuestPages.LeastRun` | demu.c:213-215 | the run starts and ends in the pages where the range does |
| `GuestPages.SameRun` | demu.c:270-285 | the base and count are found again from the returned pointer |
| `GuestPages.GuestMemory.MapGuestRange` | demu.c:205-268 | as many consecutive frames or 32-bit grant references as the range touches pages, from the one that holds the address, and the offset kept in the pointer |
| `GuestPages.GuestMemory.UnmapGuestRange` | demu.c:270-285 | the run at the page of the pointer is released |
| `GuestPages.GuestMemory.WalkThenComplete` | virtio/core.c:103-141 | the walk of a direct or indirect chain and the completion of its request leave the mappings as they were, but for the page of an indirect table of no length that starts inside a page |
| `GuestPages.TableLeftIs` | virtio/core.c:138-141 | that is one page, and none if it starts at one |

## Left out

- The packed word that holds parent and colour is two fields, and the augmentation callbacks, which do nothing here, are not called.
- The cached table of a node is reached through an `entry` reference where the source computes its address from the node's.
- `rb_replace_node`, `rb_first` and the like take the root where the source can, and a ghost root where it cannot.
- The branches of `get_cluster_table` and `qcow_write_cluster` that allocate: the tests at disk/qcow.c:918 and disk/qcow.c:1007 send a successful allocation to the error exit, so nothing is written there. `WriteCluster` asks for both COPIED flags.
- Transfers that fail inside the image engine, and allocation failure: `healthy` says that no transfer fails. The -1 of a cluster read is modelled where it comes from the L1 table or the end of the file.
- Offsets, sector numbers and buffer pointers do not wrap at 2^64.
- Compressed clusters; an image with one is not `WellFormed`.
- Iovecs are consecutive pieces, of any lengths, of one flat buffer; the addresses between them do not matter to the properties.
- Shifts and masks by powers of two are written as division and remainder; byte order is fixed as big-endian on disk and the host's in the rings.
- ReadWrite.PreadvInFull: stops after a given number of system calls, because a partly filled iovec is read again from its start and nothing bounds the retries.
- ReadWrite.PwritevInFull: stops in the same way.
- ReadWrite.ShiftIovec: asks for an iovec of positive length after the last, which the source reads; for the block device that is the status byte.
- The restarts on EAGAIN and EINTR are part of one system call of the model.
- The cache of refcount blocks has the code of the table cache: `QcowAlloc.Allocator` has the list of its offsets, and the tree and counter beside it, and the nodes themselves, are not repeated. Blocks are written through, so what a cached one holds is what the file holds.
- What the source does after it has written to a freed block: with `freed` nothing more is promised.
- QcowDisk.Qcow.ReadSectorSingle: about images whose clusters end inside the file, as `WellFormed` says; for others `ReadAnyCluster` describes each cluster.
- QcowAlloc.Allocator.AllocClusters: asks that the 32-bit index of the search does not wrap; after a success the search stands inside the table again, so a table of less than 2^32 - 2 clusters is enough for any number of requests. After a failed update the blocks added on the way are not described, since the source frees one that is still cached.
- QcowAlloc.Allocator.FreeClusters: asks that each cluster has a block or is past the table; for one that never had a count the source would make a block in order to write 65535 into it. `FreeCluster` asks the same.
- The mutexes of the image engine: its operations run one at a time.
- Barriers: the steps of the protocol are sequentially consistent.
- `use_event_idx` is the same for driver and device; the negotiation (virtio/core.c:203, virtio/blk.c:163) is not modelled.
- VirtProtocol.NoLostInterrupt: about runs in which fewer than 2^16 completions pass since the indices a completion compares with, as `NeedEventMissed` shows is needed. `InterruptWithin` starts from such a state.
- VirtProtocol.NoLostWakeup: about runs in which the driver, if it uses the event index, tests for notification at least once in 2^16 entries, for the same reason.
- VirtProtocol.LifeCycle: a request of unknown type, or whose read or write fails (virtio/blk.c:127-130, disk/core.c:268-271), is dropped and never completes, as in the source.
- The shutdown of the I/O thread, the status byte, and reset of the queue.
- VirtChain.GetHeadIov: asks that an indirect table has a descriptor and that the chain fits the iovec array; the source checks neither.
- Mapping calls that fail, and the mapping of all memory in advance.
- MMIO registers, configuration space, device start and stop, Xen calls, logging, opening and probing of files.
