/**
  The read and in-place write paths of disk/qcow.c over the cached tables.
 */
module QcowDisk {
  import opened Basics
  import opened RbSpec
  import opened RbTree
  import opened CacheTree
  import opened ReadWrite
  import opened QcowImage
  import opened TableCache
  import LinuxList
  import Lru

  class Qcow {
    const version: nat
    const clusterSize: nat
    const l2Size: nat
    /** header->size, in bytes */
    const size: nat
    const file: File
    const cache: Cache
    var l1: seq<nat>

    /** An open image with an empty cache, as qcow1_probe and qcow2_probe leave it. */
    constructor (version: nat, clusterSize: nat, l2Size: nat, size: nat, l1: seq<nat>, file: File)
      requires 0 < l2Size
      ensures Valid() && Offsets(cache.tables) == [] && fresh(cache.Footprint()) && this.file == file
      ensures Img() == Image(version, clusterSize, l2Size, size, l1, file.data)
    {
      this.version, this.clusterSize, this.l2Size, this.size := version, clusterSize, l2Size, size;
      this.l1, this.file := l1, file;
      cache := new Cache();
    }

    ghost function Img(): Image
      reads this, file
    {
      Image(version, clusterSize, l2Size, size, l1, file.data)
    }

    /**
      The cache is consistent, and every table in it is one that the L1 table names
      and is what the file holds at its offset.
     */
    ghost predicate Valid()
      reads this, file, cache, cache.root, Nodes(cache.root.tree), LinuxList.Members(cache.lru, cache.links), set t | t in cache.tables
    {
      0 < l2Size && cache.Valid() && Coherent(cache.tables, file.data)
    }

    ghost predicate Coherent(tables: seq<CachedTable>, data: seq<byte>)
      reads this, set t | t in tables
    {
      forall i :: 0 <= i < |tables| ==>
        tables[i].offset + 8 * l2Size <= |data| && tables[i].table == TableAt(data, tables[i].offset, l2Size) &&
        Image(version, clusterSize, l2Size, size, l1, data).IsTable(tables[i].offset)
    }

    /**
      qcow_read_l2_table: the table at `offset`, from the cache or from the file;
      either way one request of the recency order.
     */
    method ReadL2Table(offset: nat) returns (t: CachedTable)
      requires Valid() && file.healthy && offset + 8 * l2Size <= |file.data| && Img().IsTable(offset)
      modifies cache.Footprint()
      ensures Valid() && (forall o :: o in cache.Footprint() ==> o in old(cache.Footprint()) || fresh(o))
      ensures t.table == TableAt(file.data, offset, l2Size)
      ensures |t.table| == l2Size && forall i :: 0 <= i < l2Size ==>
        var b: seq<int> := file.data[offset + 8 * i..offset + 8 * i + 8];
        t.table[i] ==
          b[0] * 0x100_0000_0000_0000 + b[1] * 0x1_0000_0000_0000 + b[2] * 0x100_0000_0000 + b[3] * 0x1_0000_0000 +
          b[4] * 0x100_0000 + b[5] * 0x1_0000 + b[6] * 0x100 + b[7]
      ensures Offsets(cache.tables) == Lru.Touch(old(Offsets(cache.tables)), offset, MAX_CACHE_NODES)
    {
      hide Coherent, Img, MovedToTail, TableAt, Nodes, Inorder, Linked, LinkedContext, Separated, SeparatedContext,
        LinuxList.Ring, LinuxList.Threaded, LinuxList.Members, Aligned, Sorted, Lru.Touch, Offsets;
      ghost var before := cache.tables;
      cache.OffsetsDistinct();
      var found := cache.Search(offset);
      if found != null {
        MovedOffsets(before, found, cache.tables);
        MovedCoherent(before, found, cache.tables, file.data);
        TableBytes(file.data, offset, l2Size);
        return found;
      }
      t := CacheMiss(offset);
      TableBytes(file.data, offset, l2Size);
    }

    /** After any sequence of requests from an empty cache, the cache holds the most recent ones in order. */
    method ReadL2Tables(history: seq<nat>)
      requires Valid() && file.healthy && cache.tables == []
      requires forall k :: 0 <= k < |history| ==> history[k] + 8 * l2Size <= |file.data| && Img().IsTable(history[k])
      modifies cache.Footprint()
      ensures Valid() && Offsets(cache.tables) == Lru.LastOf(Lru.ByLastRequest(history), MAX_CACHE_NODES)
    {
      hide Nodes, Inorder, Linked, LinkedContext, Separated, SeparatedContext, LinuxList.Ring, LinuxList.Threaded,
        LinuxList.Members, Aligned, Sorted, Coherent, Lru.Touch, Lru.LastOf, Lru.ByLastRequest, TableAt, Cache.Footprint;
      ghost var img, start := Img(), cache.Footprint();
      cache.Outside(this);
      cache.Outside(file);
      var k := 0;
      while k < |history|
        invariant k <= |history| && Valid() && (forall o :: o in cache.Footprint() ==> o in start || fresh(o)) && Img() == img
        invariant Offsets(cache.tables) == Lru.Run(history[..k], MAX_CACHE_NODES)
      {
        cache.Outside(this);
        cache.Outside(file);
        var t := ReadL2Table(history[k]);
        assert history[..k + 1][..k] == history[..k];
        k := k + 1;
      }
      assert history[..k] == history;
      Lru.RunIsMostRecent(history, MAX_CACHE_NODES);
    }

    /** The rest of qcow_read_l2_table, for an offset that is not cached. */
    method CacheMiss(offset: nat) returns (t: CachedTable)
      requires Valid() && file.healthy && offset + 8 * l2Size <= |file.data| && Img().IsTable(offset)
      requires offset !in Offsets(cache.tables)
      modifies cache.Footprint()
      ensures Valid() && (forall o :: o in cache.Footprint() ==> o in old(cache.Footprint()) || fresh(o))
      ensures t.table == TableAt(file.data, offset, l2Size)
      ensures Offsets(cache.tables) == Lru.Touch(old(Offsets(cache.tables)), offset, MAX_CACHE_NODES)
    {
      hide Coherent, Img, TableAt, Nodes, Inorder, Linked, LinkedContext, Separated, SeparatedContext, LinuxList.Ring,
        LinuxList.Threaded, LinuxList.Members, Aligned, Sorted, Lru.Touch, Offsets, Cache.Valid;
      ghost var before := cache.tables;
      cache.OffsetsDistinct();
      assert allocated(Nodes(cache.root.tree)) && allocated(LinuxList.Members(cache.lru, cache.links));
      t := NewTable(offset);
      AddedOffsets(before, t);
      AddedCoherent(before, t, file.data);
      cache.Add(t);
    }

    /** new_cache_table, filled from the file. */
    method NewTable(offset: nat) returns (t: CachedTable)
      requires file.healthy && 0 < l2Size && offset + 8 * l2Size <= |file.data|
      ensures fresh(t) && t.offset == offset && t.table == TableAt(file.data, offset, l2Size)
      ensures t.node != null && fresh(t.node) && t.node.entry == t && t.list != null && fresh(t.list) && t.list.entry == t
    {
      t := new CachedTable(offset, l2Size);
      t.table := ReadTable(offset);
    }

    /** The cache miss: read the table and decode its entries. */
    method ReadTable(offset: nat) returns (table: seq<nat>)
      requires file.healthy && 0 < l2Size && offset + 8 * l2Size <= |file.data|
      ensures table == TableAt(file.data, offset, l2Size)
    {
      hide Patched, Part, TableAt, Decode;
      var raw := new byte[8 * l2Size];
      ghost var was := raw[..];
      var n := PreadInFull(file, raw, 0, 8 * l2Size, offset);
      WholePart(was, file.data, offset, raw[..]);
      table := Decode(raw[..], l2Size);
      DecodedTable(file.data, offset, l2Size);
    }

    lemma WholePart(was: seq<byte>, data: seq<byte>, offset: nat, b: seq<byte>)
      requires offset + |was| <= |data| && Patched(was, 0, Part(data, offset, |was|), b)
      ensures b == data[offset..offset + |was|]
    {
    }

    lemma AddedCoherent(s: seq<CachedTable>, t: CachedTable, data: seq<byte>)
      requires Coherent(s, data) && t.offset + 8 * l2Size <= |data| && t.table == TableAt(data, t.offset, l2Size)
      requires Img().IsTable(t.offset)
      ensures Coherent((if |s| == MAX_CACHE_NODES then s[1..] else s) + [t], data)
    {
    }

    lemma MovedCoherent(s: seq<CachedTable>, t: CachedTable, s': seq<CachedTable>, data: seq<byte>)
      requires Coherent(s, data) && MovedToTail(s, t, s')
      ensures Coherent(s', data)
      ensures t.offset + 8 * l2Size <= |data| && t.table == TableAt(data, t.offset, l2Size)
    {
    }

    /** memset(dst, 0, length) */
    method Zero(dst: array<byte>, pos: nat, length: nat)
      requires pos + length <= dst.Length
      modifies dst
      ensures Patched(old(dst[..]), pos, Zeros(length), dst[..])
    {
      ghost var was := dst[..];
      forall i | pos <= i < pos + length {
        dst[i] := 0;
      }
      assert dst[..] == was[..pos] + Zeros(length) + was[pos + length..];
    }

    /**
      qcow1_read_cluster and qcow2_read_cluster on an uncompressed image: the part
      of the request that lies in the cluster of `offset`, whatever is cached. Where the
      file ends inside that part, the rest of the buffer is left alone and the length is
      full all the same.
     */
    method ReadAnyCluster(offset: nat, dst: array<byte>, pos: nat, dstLen: nat) returns (r: int)
      requires Valid() && Img().TablesFormed() && file.healthy && (Img().Reaches(offset) ==> pos + dstLen <= dst.Length)
      modifies cache.Footprint(), dst
      ensures Valid() && (forall o :: o in cache.Footprint() ==> o in old(cache.Footprint()) || fresh(o)) && Img() == old(Img())
      ensures r == -1 <==> !Img().Reaches(offset) || (0 < dstLen && Img().CutOff(offset / clusterSize, offset % clusterSize))
      ensures r == -1 ==> dst[..] == old(dst[..])
      ensures r != -1 ==> r == ChunkLen(offset, dstLen, clusterSize) && offset / clusterSize < Img().Covered()
      ensures r != -1 ==> Patched(old(dst[..]), pos, Img().HeldData(offset / clusterSize, offset % clusterSize, r), dst[..])
    {
      hide Cache.Footprint, Nodes, Inorder, Linked, LinkedContext, Separated, SeparatedContext, LinuxList.Ring,
        LinuxList.Threaded, LinuxList.Members, Aligned, Sorted, Lru.Touch, Offsets, Patched, Part, PartInside, Zeros,
        Image.Covered, Image.TablesFormed, Image.HeldData, Image.CutOff;
      ghost var img := Img();
      cache.Outside(this);
      cache.Outside(file);
      cache.Outside(dst);
      assert allocated(Nodes(cache.root.tree)) && allocated(LinuxList.Members(cache.lru, cache.links));
      PositiveSpan(img);
      var l1Idx := offset / (l2Size * clusterSize);
      DivTwice(offset, l2Size, clusterSize);
      if l1Idx >= |l1| {
        return -1;
      }
      var clustOffset := offset % clusterSize;
      var length := Min(clusterSize - clustOffset, dstLen);
      L1Covers(img, offset);
      ClusterSource(img, offset, length);
      var l2tOffset := TableOffset(version, l1[l1Idx]);
      if l2tOffset == 0 {
        Zero(dst, pos, length);
        return length;
      }
      assert img.IsTable(l2tOffset);
      var t := ReadL2Table(l2tOffset);
      cache.Outside(dst);
      assert allocated(Nodes(cache.root.tree)) && allocated(LinuxList.Members(cache.lru, cache.links));
      var l2Idx := offset / clusterSize % l2Size;
      var start := ClusterOffset(version, t.table[l2Idx]);
      if start == 0 {
        Zero(dst, pos, length);
        return length;
      }
      var fetched := Fetch(dst, pos, length, start + clustOffset);
      return if fetched then length else -1;
    }

    /** pread_in_full, whose negative return is the only one that is looked at. */
    method Fetch(dst: array<byte>, pos: nat, length: nat, start: nat) returns (ok: bool)
      requires file.healthy && pos + length <= dst.Length
      modifies dst
      ensures ok <==> length == 0 || start < |file.data|
      ensures Patched(old(dst[..]), pos, PartInside(file.data, start, if ok then length else 0), dst[..])
      ensures !ok ==> dst[..] == old(dst[..])
    {
      hide Patched, Part;
      ghost var was := dst[..];
      var n := PreadInFull(file, dst, pos, length, start);
      assert n <= 0 ==> Part(file.data, start, if n < 0 then 0 else n) == [] by { NoPart(file.data, start); }
      if n <= 0 {
        PatchedNothing(was, pos, dst[..]);
      }
      return n >= 0;
    }

    /** The same on an image whose clusters end inside the file. */
    method ReadCluster(offset: nat, dst: array<byte>, pos: nat, dstLen: nat) returns (r: int)
      requires Valid() && Img().WellFormed() && file.healthy && (Img().Reaches(offset) ==> pos + dstLen <= dst.Length)
      modifies cache.Footprint(), dst
      ensures Valid() && (forall o :: o in cache.Footprint() ==> o in old(cache.Footprint()) || fresh(o)) && Img() == old(Img())
      ensures r == -1 <==> !Img().Reaches(offset)
      ensures r == -1 ==> dst[..] == old(dst[..])
      ensures r != -1 ==> r == ChunkLen(offset, dstLen, clusterSize)
      ensures r != -1 ==> offset + r <= Img().Limit()
      ensures r != -1 ==> Patched(old(dst[..]), pos, Img().Bytes(offset, r), dst[..])
    {
      hide Cache.Footprint, Nodes, Inorder, Linked, LinkedContext, Separated, SeparatedContext, LinuxList.Ring,
        LinuxList.Threaded, LinuxList.Members, Aligned, Sorted, Lru.Touch, Offsets, Patched, Part, Zeros, Valid,
        Image.Covered, Image.TablesFormed, Image.HeldData, Image.CutOff, Image.WellFormed, Image.ClusterData,
        Image.Bytes, Image.Limit, Image.Reaches, Image.DataOf;
      ghost var img := Img();
      BasicFacts(img, offset);
      NotCutOff(img, offset, dstLen, offset / clusterSize, offset % clusterSize, ChunkLen(offset, dstLen, clusterSize));
      r := ReadAnyCluster(offset, dst, pos, dstLen);
      if r != -1 {
        ClusterBytes(img, offset, r);
      }
    }

    /**
      qcow_write_cluster where both entries carry the COPIED flag: the part of the
      buffer that falls in the cluster of `offset` goes straight to its data. Past the L1
      table there is none, and the write fails.
     */
    method WriteCluster(offset: nat, src: seq<byte>) returns (r: int)
      requires Valid() && Img().WellFormed() && Img().Isolated() && file.healthy
      requires Img().Reaches(offset) ==> Img().Writable(offset / clusterSize)
      modifies cache.Footprint(), file
      ensures Valid() && (forall o :: o in cache.Footprint() ==> o in old(cache.Footprint()) || fresh(o))
      ensures r == -1 <==> !old(Img()).Reaches(offset)
      ensures r == -1 ==> Img() == old(Img())
      ensures r != -1 ==> r == ChunkLen(offset, |src|, clusterSize) && offset / clusterSize < old(Img()).Covered()
      ensures r != -1 ==> ClusterWritten(old(Img()), offset / clusterSize, offset % clusterSize, src[..r], Img())
    {
      hide Image.Writable, Image.DataOf, TableAt, Image.IsTable, ClusterWritten, Valid, Coherent, Nodes, Inorder,
        Linked, LinkedContext, Separated, SeparatedContext, LinuxList.Ring, LinuxList.Threaded, LinuxList.Members,
        Aligned, Sorted, Lru.Touch, Offsets, Patched, Image.Bytes, Image.WellFormed, Image.Isolated, LastChunk,
        Image.Covered, Cache.Footprint;
      ghost var img := Img();
      cache.Outside(this);
      cache.Outside(file);
      PositiveSpan(img);
      DivTwice(offset, l2Size, clusterSize);
      if offset / (l2Size * clusterSize) >= |l1| {
        return -1;
      }
      L1Covers(img, offset);
      var clustOff := offset % clusterSize;
      r := Min(clusterSize - clustOff, |src|);
      var l2tOffset := l1[offset / (l2Size * clusterSize)] % BIT63;
      WriteTarget(img, offset / clusterSize, clustOff, r);
      var t := ReadL2Table(l2tOffset);
      cache.Outside(file);
      var start := t.table[offset / clusterSize % l2Size] % BIT62;
      WriteData(start + clustOff, src[..r], img, offset / clusterSize, clustOff);
    }

    /** pwrite_in_full into the data of guest cluster `n`; no cached table is touched. */
    method WriteData(pos: nat, what: seq<byte>, ghost img: Image, ghost n: nat, ghost at: nat)
      requires Valid() && Img() == img && img.WellFormed() && img.Isolated() && file.healthy
      requires n < img.Covered() && img.DataOf(n) != 0 && pos == img.DataOf(n) + at && at + |what| <= clusterSize
      modifies file
      ensures Valid() && ClusterWritten(img, n, at, what, Img())
    {
      hide Nodes, Inorder, Linked, LinkedContext, Separated, SeparatedContext, LinuxList.Ring, LinuxList.Threaded,
        LinuxList.Members, Aligned, Sorted, Patched, Image.Isolated, Image.Covered, Cache.Footprint, Coherent,
        Image.DataOf, Image.WellFormed;
      DataInside(img, n);
      assert allocated(Nodes(cache.root.tree)) && allocated(LinuxList.Members(cache.lru, cache.links));
      var r := PwriteInFull(file, what, pos);
      WrittenInside(img.data, pos, what, file.data);
      WrittenCoherent(img, n, at, what);
    }

    lemma WrittenCoherent(img: Image, n: nat, at: nat, what: seq<byte>)
      requires img.WellFormed() && img.Isolated() && n < img.Covered() && img.DataOf(n) != 0
      requires ClusterWritten(img, n, at, what, Img())
      requires Coherent(cache.tables, img.data)
      ensures Coherent(cache.tables, file.data)
    {
      forall i | 0 <= i < |cache.tables|
        ensures cache.tables[i].offset + 8 * l2Size <= |file.data|
        ensures cache.tables[i].table == TableAt(file.data, cache.tables[i].offset, l2Size)
      {
        assert img.IsTable(cache.tables[i].offset);
        TablesKept(img, n, at, what, Img(), cache.tables[i].offset);
      }
    }

    /** One turn of the loop below: the next piece of the request, into its cluster. */
    method WritePiece(offset: nat, src: seq<byte>, nrWritten: nat, ghost g: nat, ghost img: Image) returns (nr: int)
      requires Valid() && file.healthy
      requires offset == g + nrWritten && nrWritten < |src| && offset < size
      requires offset % SECTOR_SIZE == 0 && (|src| - nrWritten) % SECTOR_SIZE == 0
      requires WriteSoFar(img, g, src[..nrWritten], Img()) && 0 < clusterSize && 0 < l2Size && AllWritable(img, g, |src|)
      requires img.clusterSize == clusterSize && img.l2Size == l2Size && AtBoundary(g, nrWritten, clusterSize)
      modifies cache.Footprint(), file
      ensures Valid() && (forall o :: o in cache.Footprint() ==> o in old(cache.Footprint()) || fresh(o))
      ensures nr == -1 <==> img.Limit() <= offset
      ensures nr == -1 ==> Img() == old(Img())
      ensures nr != -1 ==> 0 < nr <= |src| - nrWritten && nr % SECTOR_SIZE == 0
      ensures nr != -1 ==> WriteSoFar(img, g, src[..nrWritten + nr], Img())
      ensures nr != -1 && nrWritten + nr < |src| ==> AtBoundary(g, nrWritten + nr, clusterSize)
      ensures nr != -1 && nrWritten + nr == |src| ==> LastChunk(g, |src|, clusterSize) == offset
    {
      hide Valid, Coherent, Nodes, Inorder, Patched, Image.Bytes, Image.WellFormed, Image.Isolated, LastChunk,
        Image.Covered, Image.Limit, Cache.Footprint, Image.DataOf, Image.EntryOf, Image.L2OffsetOf, Image.Byte,
        Image.Reaches, Image.Writable, ClusterWritten, Overlaid, WriteSoFar, SameTranslation, AllWritable, AtBoundary,
        ChunkLen, PastEnd, Linked, LinkedContext, Separated, SeparatedContext, LinuxList.Ring, LinuxList.Threaded,
        LinuxList.Members, Aligned, Sorted, Offsets;
      ghost var mid := Img();
      WriteFacts(img, g, src[..nrWritten], mid);
      BasicFacts(mid, g);
      ReachesLimit(mid, offset);
      SameLimit(img, mid);
      ChunkStep(g, nrWritten, |src|, clusterSize);
      if mid.Reaches(offset) {
        NextWritable(img, g, |src|, mid, offset);
      }
      nr := WriteCluster(offset, src[nrWritten..]);
      if nr == -1 {
        return;
      }
      TakeMore(src, nrWritten, nr);
      WriteStep(img, g, src[..nrWritten], mid, src[nrWritten..][..nr], Img());
    }

    /**
      qcow_write_sector_single over clusters written in place: the guest range shows
      the buffer and every other guest byte its old value, through the same tables. The
      request is refused exactly when its last piece starts past the end of the disk or
      of the L1 table.
     */
    method WriteSectorSingle(sector: nat, src: seq<byte>) returns (r: int)
      requires Valid() && Img().WellFormed() && Img().Isolated() && file.healthy
      requires |src| % SECTOR_SIZE == 0 && |src| < U32_RANGE && AllWritable(Img(), sector * SECTOR_SIZE, |src|)
      modifies cache.Footprint(), file
      ensures Valid() && (forall o :: o in cache.Footprint() ==> o in old(cache.Footprint()) || fresh(o))
      ensures r == -1 || r == |src|
      ensures r == -1 <==> PastEnd(sector * SECTOR_SIZE, |src|, clusterSize, Min(size, old(Img()).Limit()))
      ensures r != -1 ==> WriteSoFar(old(Img()), sector * SECTOR_SIZE, src, Img())
      ensures r == -1 ==> exists k :: 0 <= k < |src| && WriteSoFar(old(Img()), sector * SECTOR_SIZE, src[..k], Img())
    {
      hide Valid, Coherent, Nodes, Inorder, Patched, Image.Bytes, Image.WellFormed, Image.Isolated, LastChunk,
        Image.Covered, Image.Limit, Cache.Footprint, Image.DataOf, Image.EntryOf, Image.L2OffsetOf, Image.Byte,
        Image.Reaches, Image.Writable, ClusterWritten, Overlaid, WriteSoFar, SameTranslation, AllWritable, AtBoundary,
        ChunkLen, PastEnd, Linked, LinkedContext, Separated, SeparatedContext, LinuxList.Ring, LinuxList.Threaded,
        LinuxList.Members, Aligned, Sorted, Offsets;
      ghost var img, g, start := Img(), sector * SECTOR_SIZE, cache.Footprint();
      var offset, nrWritten := sector * SECTOR_SIZE, 0;
      cache.Outside(this);
      cache.Outside(file);
      BasicFacts(img, g);
      WriteNothing(img, g);
      EndTest(g, |src|, clusterSize, Min(size, img.Limit()));
      while nrWritten < |src|
        invariant Valid() && (forall o :: o in cache.Footprint() ==> o in start || fresh(o))
        invariant offset == g + nrWritten && nrWritten <= |src| && (|src| - nrWritten) % SECTOR_SIZE == 0
        invariant WriteSoFar(img, g, src[..nrWritten], Img())
        invariant nrWritten < |src| ==> AtBoundary(g, nrWritten, clusterSize)
        invariant 0 < nrWritten == |src| ==> LastChunk(g, |src|, clusterSize) < Min(size, img.Limit())
        decreases |src| - nrWritten
      {
        if offset >= size {
          StopsAtLast(g, |src|, nrWritten, clusterSize);
          return -1;
        }
        cache.Outside(file);
        var nr := WritePiece(offset, src, nrWritten, g, img);
        if nr < 0 {
          StopsAtLast(g, |src|, nrWritten, clusterSize);
          return -1;
        }
        nrWritten := nrWritten + nr;
        offset := offset + nr;
      }
      assert src[..nrWritten] == src;
      return nrWritten;
    }

    /**
      qcow_write_sector over clusters written in place; the iovecs are consecutive
      pieces of `src`. A refused request has written a proper prefix.
     */
    method WriteSector(sector0: nat, src: seq<byte>, lens: seq<nat>, n: nat) returns (r: int)
      requires Valid() && Img().WellFormed() && Img().Isolated() && file.healthy
      requires n <= |lens| && |src| == Sum(lens, n) && AllWritable(Img(), sector0 * SECTOR_SIZE, |src|)
      requires forall i :: 0 <= i < n ==> lens[i] % SECTOR_SIZE == 0 && lens[i] < U32_RANGE
      modifies cache.Footprint(), file
      ensures Valid() && (forall o :: o in cache.Footprint() ==> o in old(cache.Footprint()) || fresh(o))
      ensures r == -1 || r == |src|
      ensures r == -1 <==> exists i :: 0 <= i < n && PastEnd(sector0 * SECTOR_SIZE + Sum(lens, i), lens[i], clusterSize, Min(size, old(Img()).Limit()))
      ensures r != -1 ==> WriteSoFar(old(Img()), sector0 * SECTOR_SIZE, src, Img())
      ensures r == -1 ==> exists k :: 0 <= k < |src| && WriteSoFar(old(Img()), sector0 * SECTOR_SIZE, src[..k], Img())
    {
      hide Valid, Coherent, Nodes, Inorder, Patched, Image.Bytes, Image.WellFormed, Image.Isolated, LastChunk,
        Image.Covered, Image.Limit, Cache.Footprint, Image.DataOf, Image.EntryOf, Image.L2OffsetOf, Image.Byte,
        Image.Reaches, Image.Writable, ClusterWritten, Overlaid, WriteSoFar, SameTranslation, AllWritable, AtBoundary,
        ChunkLen, PastEnd, Linked, LinkedContext, Separated, SeparatedContext, LinuxList.Ring, LinuxList.Threaded,
        LinuxList.Members, Aligned, Sorted, Offsets, Sum;
      var sector, total, i := sector0, 0, 0;
      ghost var img, g, start := Img(), sector0 * SECTOR_SIZE, cache.Footprint();
      cache.Outside(this);
      cache.Outside(file);
      BasicFacts(img, g);
      WriteNothing(img, g);
      SumZero(lens);
      while i < n
        invariant Valid() && (forall o :: o in cache.Footprint() ==> o in start || fresh(o))
        invariant i <= n && total == Sum(lens, i) <= |src| && sector * SECTOR_SIZE == g + total
        invariant WriteSoFar(img, g, src[..total], Img())
        invariant forall k :: 0 <= k < i ==> !PastEnd(g + Sum(lens, k), lens[k], clusterSize, Min(size, img.Limit()))
      {
        cache.Outside(file);
        SumNext(lens, i);
        SumMonotone(lens, i + 1, n);
        ghost var mid, what := Img(), src[total..][..lens[i]];
        WriteFacts(img, g, src[..total], mid);
        SameLimit(img, mid);
        StillWritable(img, mid, g, |src|, g + total, lens[i]);
        TakeMore(src, total, lens[i]);
        var nr := WriteSectorSingle(sector, src[total..][..lens[i]]);
        if nr != lens[i] {
          ghost var k :| 0 <= k < |what| && WriteSoFar(mid, g + total, what[..k], Img());
          WriteMore(img, g, src[..total], mid, what[..k], Img());
          TakeMore(src, total, k);
          assert what[..k] == src[total..][..k];
          return -1;
        }
        WriteMore(img, g, src[..total], mid, what, Img());
        sector := sector + lens[i] / SECTOR_SIZE;
        total := total + nr;
        i := i + 1;
      }
      assert src[..total] == src;
      return total;
    }

    /**
      One turn of the loop below. Where the L1 table reaches, the next piece of the
      request; elsewhere the buffer is left alone and the u32 becomes 2^32 - 1.
     */
    method ReadPiece(offset: nat, dst: array<byte>, buf: nat, nrRead: nat, dstLen: nat, ghost g: nat, ghost was: seq<byte>, ghost pos: nat)
      returns (nr: nat)
      requires Valid() && Img().WellFormed() && file.healthy && nrRead < dstLen < U32_RANGE
      requires Img().Reaches(offset) ==>
        offset == g + nrRead && buf == pos + nrRead && pos + dstLen <= dst.Length && offset % SECTOR_SIZE == 0 &&
        (dstLen - nrRead) % SECTOR_SIZE == 0 && 0 < clusterSize && AtBoundary(g, nrRead, clusterSize) &&
        ReadSoFar(Img(), was, pos, g, nrRead, dst[..])
      modifies cache.Footprint(), dst
      ensures Valid() && (forall o :: o in cache.Footprint() ==> o in old(cache.Footprint()) || fresh(o)) && Img() == old(Img())
      ensures !Img().Reaches(offset) ==> nr == U32(-1) && dst[..] == old(dst[..])
      ensures Img().Reaches(offset) ==> 0 < nr <= dstLen - nrRead && nr % SECTOR_SIZE == 0
      ensures Img().Reaches(offset) ==> ReadSoFar(Img(), was, pos, g, nrRead + nr, dst[..])
      ensures Img().Reaches(offset) && nrRead + nr < dstLen ==> AtBoundary(g, nrRead + nr, clusterSize)
      ensures Img().Reaches(offset) && nrRead + nr == dstLen ==> LastChunk(g, dstLen, clusterSize) == offset
    {
      hide Nodes, Inorder, Linked, LinkedContext, Separated, SeparatedContext, LinuxList.Ring, LinuxList.Threaded,
        LinuxList.Members, Aligned, Sorted, Lru.Touch, Offsets, Patched, Image.Bytes, Image.WellFormed, LastChunk,
        Valid, Image.Limit, Image.Covered, ChunkLen, AtBoundary, Cache.Footprint, Image.Reaches, ReadSoFar,
        Coherent, Image.Isolated, Image.DataOf, Image.EntryOf, Image.L2OffsetOf, Image.Byte;
      ghost var img := Img();
      BasicFacts(img, g);
      ghost var mid := dst[..];
      var got := ReadCluster(offset, dst, buf, dstLen - nrRead);
      nr := U32(got);
      if img.Reaches(offset) {
        ChunkStep(g, nrRead, dstLen, clusterSize);
        ExtendRead(img, was, pos, g, nrRead, mid, nr, dst[..]);
      }
    }

    /**
      qcow_read_sector_single, with its u32 counters. The buffer gets the guest bytes
      below the limit of the L1 table and keeps the rest, and the request is refused
      exactly when `Refused` says so.
     */
    method ReadSectorSingle(sector0: nat, dst: array<byte>, pos: nat, dstLen: nat) returns (r: int)
      requires Valid() && Img().WellFormed() && file.healthy && pos + dstLen <= dst.Length
      requires dstLen % SECTOR_SIZE == 0 && dstLen < U32_RANGE
      modifies cache.Footprint(), dst
      ensures Valid() && (forall o :: o in cache.Footprint() ==> o in old(cache.Footprint()) || fresh(o)) && Img() == old(Img())
      ensures r == -1 || r == dstLen
      ensures r == -1 <==> Refused(Img().Limit(), sector0 * SECTOR_SIZE, dstLen, clusterSize, size)
      ensures r != -1 ==> ReadSoFar(Img(), old(dst[..]), pos, sector0 * SECTOR_SIZE, Served(Img().Limit(), sector0 * SECTOR_SIZE, dstLen), dst[..])
      ensures r == -1 ==> exists k :: 0 <= k < dstLen && ReadSoFar(Img(), old(dst[..]), pos, sector0 * SECTOR_SIZE, k, dst[..])
    {
      hide Nodes, Inorder, Linked, LinkedContext, Separated, SeparatedContext, LinuxList.Ring, LinuxList.Threaded,
        LinuxList.Members, Aligned, Sorted, Lru.Touch, Offsets, Patched, Image.Bytes, Image.WellFormed, LastChunk,
        Valid, Image.Limit, Image.Covered, ChunkLen, AtBoundary, Cache.Footprint, Image.Reaches, ReadSoFar,
        Coherent, Image.Isolated, Image.DataOf, Image.EntryOf, Image.L2OffsetOf, Image.Byte, Refused, Served, Turn;
      var sector: nat, nrRead: nat, buf: nat := sector0, 0, pos;
      ghost var img, g, was, start := Img(), sector0 * SECTOR_SIZE, dst[..], cache.Footprint();
      ghost var filled, failed := 0, 0;
      cache.Outside(this);
      cache.Outside(file);
      cache.Outside(dst);
      FirstTurn(img, was, pos, g, dstLen);
      while nrRead < dstLen
        invariant Valid() && (forall o :: o in cache.Footprint() ==> o in start || fresh(o)) && Img() == img
        invariant Turn(img, was, pos, g, dstLen, filled, failed, sector * SECTOR_SIZE, nrRead, buf, dst[..])
        decreases if failed == 0 then 1 else 0, if failed == 0 then dstLen - filled else filled + 1 - failed
      {
        var offset := sector * SECTOR_SIZE;
        if offset >= size {
          RefusedAt(img, was, pos, g, dstLen, filled, failed, offset, nrRead, buf, dst[..]);
          return -1;
        }
        cache.Outside(dst);
        TurnFacts(img, was, pos, g, dstLen, filled, failed, offset, nrRead, buf, dst[..]);
        ghost var mid := dst[..];
        var nr := ReadPiece(offset, dst, buf, nrRead, dstLen, g, was, pos);
        if nr <= 0 {
          return -1;
        }
        NextTurn(img, was, pos, g, dstLen, filled, failed, offset, nrRead, buf, mid, nr, dst[..]);
        if img.Reaches(offset) {
          filled := filled + nr;
        } else {
          failed := failed + 1;
        }
        nrRead := U32(nrRead + nr);
        buf := buf + nr;
        sector := sector + nr / SECTOR_SIZE;
      }
      NotRefused(img, was, pos, g, dstLen, filled, failed, sector * SECTOR_SIZE, nrRead, buf, dst[..]);
      return dstLen;
    }

    /** The end of a version 1 disk that the L1 table does not cover: a read of it reports its full length and fills nothing. */
    method ReadQcow1Tail(sector: nat, dst: array<byte>) returns (r: int)
      requires Valid() && Img().WellFormed() && file.healthy && version == QCOW1_VERSION
      requires |l1| == Qcow1L1Size(size, l2Size, clusterSize) && Img().Limit() <= sector * SECTOR_SIZE < size
      requires dst.Length % SECTOR_SIZE == 0 && dst.Length < U32_RANGE
      modifies cache.Footprint(), dst
      ensures r == dst.Length && dst[..] == old(dst[..])
    {
      hide Image.WellFormed, Qcow1L1Size, Refused, Served, Valid, Cache.Footprint;
      LimitIs(Img());
      Qcow1Tail(size, l2Size, clusterSize, sector * SECTOR_SIZE, dst.Length);
      r := ReadSectorSingle(sector, dst, 0, dst.Length);
    }

    /**
      qcow_read_sector: the iovecs, consecutive pieces of `dst` of lengths
      lens[..n], get exactly the guest bytes from the sector on.
     */
    method ReadSector(sector0: nat, dst: array<byte>, lens: seq<nat>, n: nat) returns (r: int)
      requires Valid() && Img().WellFormed() && file.healthy
      requires n <= |lens| && dst.Length == Sum(lens, n)
      requires forall i :: 0 <= i < n ==> lens[i] % SECTOR_SIZE == 0 && lens[i] < U32_RANGE
      modifies cache.Footprint(), dst
      ensures Valid() && (forall o :: o in cache.Footprint() ==> o in old(cache.Footprint()) || fresh(o)) && Img() == old(Img())
      ensures r == -1 || r == dst.Length
      ensures r == -1 <==> exists i :: 0 <= i < n && Refused(Img().Limit(), sector0 * SECTOR_SIZE + Sum(lens, i), lens[i], clusterSize, size)
      ensures r != -1 ==> ReadSoFar(Img(), old(dst[..]), 0, sector0 * SECTOR_SIZE, Served(Img().Limit(), sector0 * SECTOR_SIZE, dst.Length), dst[..])
    {
      hide Nodes, Inorder, Linked, LinkedContext, Separated, SeparatedContext, LinuxList.Ring, LinuxList.Threaded,
        LinuxList.Members, Aligned, Sorted, Lru.Touch, Offsets, Patched, Image.Bytes, Image.WellFormed, LastChunk,
        Valid, Image.Limit, Image.Covered, Cache.Footprint, ReadSoFar, Refused, Served, Sum;
      var sector, total, i := sector0, 0, 0;
      ghost var img, g, was, start := Img(), sector0 * SECTOR_SIZE, dst[..], cache.Footprint();
      cache.Outside(this);
      cache.Outside(file);
      cache.Outside(dst);
      BasicFacts(img, g);
      ReadNothing(img, was, 0, g);
      SumZero(lens);
      ServedNone(img.Limit(), g);
      while i < n
        invariant Valid() && (forall o :: o in cache.Footprint() ==> o in start || fresh(o)) && Img() == img
        invariant i <= n && total == Sum(lens, i) && sector * SECTOR_SIZE == g + total
        invariant ReadSoFar(img, was, 0, g, Served(img.Limit(), g, total), dst[..])
        invariant forall k :: 0 <= k < i ==> !Refused(img.Limit(), g + Sum(lens, k), lens[k], clusterSize, size)
      {
        cache.Outside(dst);
        SumNext(lens, i);
        SumMonotone(lens, i + 1, n);
        ghost var mid := dst[..];
        var nr := ReadSectorSingle(sector, dst, total, lens[i]);
        if nr != lens[i] {
          return -1;
        }
        ServedMore(img, was, g, total, mid, nr, dst[..]);
        sector := sector + lens[i] / SECTOR_SIZE;
        total := total + nr;
        i := i + 1;
      }
      return total;
    }

    /**
      Read over write: a write that is not refused, and then a read of the same iovecs
      into a buffer of any contents, give back what was written.
     */
    method WriteAndReadBack(sector0: nat, src: seq<byte>, dst: array<byte>, lens: seq<nat>, n: nat) returns (r: int)
      requires Valid() && Img().WellFormed() && Img().Isolated() && file.healthy
      requires n <= |lens| && dst.Length == |src| == Sum(lens, n) && AllWritable(Img(), sector0 * SECTOR_SIZE, |src|)
      requires forall i :: 0 <= i < n ==> lens[i] % SECTOR_SIZE == 0 && lens[i] < U32_RANGE
      modifies cache.Footprint(), file, dst
      ensures Valid() && (forall o :: o in cache.Footprint() ==> o in old(cache.Footprint()) || fresh(o))
      ensures r == -1 <==> exists i :: 0 <= i < n && PastEnd(sector0 * SECTOR_SIZE + Sum(lens, i), lens[i], clusterSize, Min(size, old(Img()).Limit()))
      ensures r != -1 ==> r == |src| && dst[..] == src && WriteSoFar(old(Img()), sector0 * SECTOR_SIZE, src, Img())
    {
      hide Valid, Coherent, Nodes, Inorder, Patched, Image.Bytes, Image.WellFormed, Image.Isolated, LastChunk,
        Image.Covered, Image.Limit, Cache.Footprint, Image.DataOf, Image.EntryOf, Image.L2OffsetOf, Image.Byte,
        Image.Reaches, Image.Writable, ClusterWritten, Overlaid, WriteSoFar, ReadSoFar, SameTranslation, AllWritable,
        ChunkLen, PastEnd, Refused, Served, Linked, LinkedContext, Separated, SeparatedContext, LinuxList.Ring,
        LinuxList.Threaded, LinuxList.Members, Aligned, Sorted, Offsets, Sum;
      ghost var img, was := Img(), dst[..];
      cache.Outside(dst);
      r := WriteSector(sector0, src, lens, n);
      if r == -1 {
        return;
      }
      WrittenReadable(img, sector0 * SECTOR_SIZE, lens, n);
      WrittenShape(img, sector0 * SECTOR_SIZE, src, Img());
      r := ReadSector(sector0, dst, lens, n);
      WriteThenRead(img, sector0 * SECTOR_SIZE, src, Img(), was, dst[..]);
    }
  }

  lemma WrittenShape(img: Image, g: nat, what: seq<byte>, img': Image)
    requires WriteSoFar(img, g, what, img')
    ensures img'.WellFormed() && img'.Limit() == img.Limit()
  {
  }

  /** The table entries of a block of bytes. */
  function Decode(bytes: seq<byte>, size: nat): seq<nat>
    requires |bytes| == 8 * size
  {
    seq(size, i requires 0 <= i < size => BigEndian(bytes[8 * i..8 * i + 8]))
  }

  lemma TableBytes(data: seq<byte>, offset: nat, size: nat)
    requires offset + 8 * size <= |data|
    ensures forall i :: 0 <= i < size ==>
      var b: seq<int> := data[offset + 8 * i..offset + 8 * i + 8];
      TableAt(data, offset, size)[i] ==
        b[0] * 0x100_0000_0000_0000 + b[1] * 0x1_0000_0000_0000 + b[2] * 0x100_0000_0000 + b[3] * 0x1_0000_0000 +
        b[4] * 0x100_0000 + b[5] * 0x1_0000 + b[6] * 0x100 + b[7]
  {
    hide Entry;
    forall i | 0 <= i < size
      ensures var b: seq<int> := data[offset + 8 * i..offset + 8 * i + 8];
        TableAt(data, offset, size)[i] ==
          b[0] * 0x100_0000_0000_0000 + b[1] * 0x1_0000_0000_0000 + b[2] * 0x100_0000_0000 + b[3] * 0x1_0000_0000 +
          b[4] * 0x100_0000 + b[5] * 0x1_0000 + b[6] * 0x100 + b[7]
    {
      EntryBytes(data, offset, i, data[offset + 8 * i..offset + 8 * i + 8]);
    }
  }

  lemma DecodedTable(data: seq<byte>, offset: nat, size: nat)
    requires offset + 8 * size <= |data|
    ensures Decode(data[offset..offset + 8 * size], size) == TableAt(data, offset, size)
  {
    var bytes, table := data[offset..offset + 8 * size], TableAt(data, offset, size);
    var decoded := Decode(bytes, size);
    forall i | 0 <= i < size ensures decoded[i] == table[i] {
      SliceOfSlice(data, offset, 8 * size, 8 * i, 8 * i + 8);
      assert decoded[i] == BigEndian(bytes[8 * i..8 * i + 8]);
    }
  }

  /** A request is refused: its last piece starts at or past the end of the guest disk. */
  predicate PastEnd(g: nat, len: nat, clusterSize: nat, size: nat) {
    0 < len && 0 < clusterSize && size <= LastChunk(g, len, clusterSize)
  }

  /** In plain arithmetic: the last byte's cluster, or the range if it starts later, starts at or past the end. */
  lemma PastEndIs(g: nat, len: nat, clusterSize: nat, size: nat)
    requires 0 < clusterSize
    ensures PastEnd(g, len, clusterSize, size) <==> 0 < len && size <= Max(g, (g + len - 1) / clusterSize * clusterSize)
  {
    if 0 < len {
      LastChunkStarts(g, len, clusterSize);
    }
  }

  lemma EndTest(g: nat, len: nat, clusterSize: nat, size: nat)
    requires 0 < clusterSize
    ensures PastEnd(g, len, clusterSize, size) <==> 0 < len && size <= LastChunk(g, len, clusterSize)
  {
  }

  /** The first `n` bytes of a request are in the buffer. */
  ghost predicate ReadSoFar(img: Image, was: seq<byte>, pos: nat, g: nat, n: nat, b: seq<byte>)
    requires img.WellFormed()
  {
    if n == 0 then b == was else g + n <= img.Limit() && Patched(was, pos, img.Bytes(g, n), b)
  }

  lemma TakeMore<T>(s: seq<T>, n: nat, m: nat)
    requires n + m <= |s|
    ensures s[..n + m] == s[..n] + s[n..][..m]
  {
  }

  lemma StillWritable(img: Image, mid: Image, g: nat, len: nat, h: nat, part: nat)
    requires 0 < img.clusterSize && 0 < img.l2Size && AllWritable(img, g, len) && SameTranslation(img, mid)
    requires g <= h && h + part <= g + len
    ensures AllWritable(mid, h, part)
  {
    hide Image.Writable;
    SameLimit(img, mid);
    forall x: nat | h <= x < h + part && x < mid.size && x / mid.clusterSize < mid.Covered()
      ensures mid.Writable(x / mid.clusterSize)
    {
      SameWritable(img, mid, x / img.clusterSize);
    }
  }

  /** Writes of consecutive ranges are one write. */
  lemma WriteMore(img: Image, g: nat, a: seq<byte>, mid: Image, b: seq<byte>, img': Image)
    requires WriteSoFar(img, g, a, mid) && WriteSoFar(mid, g + |a|, b, img')
    ensures WriteSoFar(img, g, a + b, img')
  {
  }

  /** A write that is not refused makes a read of the same iovecs that is not refused either, and is served in full. */
  lemma {:induction false} WrittenReadable(img: Image, g: nat, lens: seq<nat>, n: nat)
    requires img.WellFormed() && n <= |lens|
    requires forall i :: 0 <= i < n ==> !PastEnd(g + Sum(lens, i), lens[i], img.clusterSize, Min(img.size, img.Limit()))
    ensures forall i :: 0 <= i < n ==> !Refused(img.Limit(), g + Sum(lens, i), lens[i], img.clusterSize, img.size)
    ensures Served(img.Limit(), g, Sum(lens, n)) == Sum(lens, n)
  {
    hide Image.DataOf, Image.EntryOf, Image.WellFormed, Image.Limit, Refused, PastEnd, Sum;
    SumZero(lens);
    if n != 0 {
      SumNext(lens, n - 1);
      WrittenReadable(img, g, lens, n - 1);
      PieceReadable(img, g + Sum(lens, n - 1), lens[n - 1]);
    }
  }

  lemma PieceReadable(img: Image, g: nat, len: nat)
    requires img.WellFormed() && !PastEnd(g, len, img.clusterSize, Min(img.size, img.Limit()))
    ensures !Refused(img.Limit(), g, len, img.clusterSize, img.size) && (0 < len ==> g + len <= img.Limit())
  {
    hide Image.DataOf, Image.EntryOf, Image.TablesInside, LastChunk, Image.Limit, Image.Reaches;
    if 0 < len {
      BasicFacts(img, g);
      ServedInFull(img, g, len);
      ReachesLimit(img, LastChunk(g, len, img.clusterSize));
    }
  }

  /** Read over write: qcow_read_sector after qcow_write_sector fills the buffers with what was written. */
  lemma WriteThenRead(img: Image, g: nat, what: seq<byte>, img': Image, was: seq<byte>, b: seq<byte>)
    requires WriteSoFar(img, g, what, img') && Served(img.Limit(), g, |what|) == |what| && |was| == |what|
    requires ReadSoFar(img', was, 0, g, Served(img'.Limit(), g, |what|), b)
    ensures b == what
  {
    hide Image.Bytes;
    if what != [] {
      ReadOverWrite(img, g, what, img', g, 0);
    }
  }

  /** And a read of any other range is not changed by the write. */
  lemma ReadBesideWrite(img: Image, g: nat, what: seq<byte>, img': Image, h: nat, len: nat, was: seq<byte>, b: seq<byte>)
    requires WriteSoFar(img, g, what, img') && g + |what| <= img.Limit() && (h + len <= g || g + |what| <= h)
    ensures ReadSoFar(img', was, 0, h, len, b) <==> ReadSoFar(img, was, 0, h, len, b)
  {
    hide Image.Bytes;
    if 0 < len && h + len <= img.Limit() {
      ReadOverWrite(img, g, what, img', h, len);
    }
  }

  /** What a u32 of 2^32 - 1 read bytes moves the sector loop on by, in bytes. */
  const STRIDE := 4294966784

  /** Some piece of a request starts inside the disk but past the L1 table, and no earlier one past the end of the disk. */
  predicate Missed(limit: nat, g: nat, len: nat, clusterSize: nat, size: nat) {
    0 < len && 0 < clusterSize && limit <= LastChunk(g, len, clusterSize) && Max(g, limit) < size
  }

  /**
    A read is refused: its last piece starts at or past the end of the disk. If one is
    missed, the loop counts the bytes before it down by one for each further turn, and
    the request is refused only if these turns lead past the end of the disk.
   */
  predicate Refused(limit: nat, g: nat, len: nat, clusterSize: nat, size: nat) {
    0 < len && 0 < clusterSize &&
    if Missed(limit, g, len, clusterSize, size) then size <= Max(g, limit) + (Max(g, limit) - g) * STRIDE
    else size <= LastChunk(g, len, clusterSize)
  }

  /** How many bytes of a request that is not refused the buffer gets: those the L1 table reaches. */
  function Served(limit: nat, g: nat, len: nat): (n: nat)
    ensures n <= len
  {
    if g + len <= limit then len else if g <= limit then limit - g else 0
  }

  /** So a request that is not refused is served in full exactly when its last piece is within reach of the L1 table. */
  lemma ServedInFull(img: Image, g: nat, len: nat)
    requires img.WellFormed() && 0 < len
    ensures Served(img.Limit(), g, len) == len <==> img.Reaches(LastChunk(g, len, img.clusterSize))
  {
    hide Image.DataOf, Image.EntryOf, Image.TablesInside, LastChunk, Image.Limit, Image.Reaches;
    var last := LastChunk(g, len, img.clusterSize);
    LastChunkWithin(g, len, img.clusterSize);
    ReachesLimit(img, last);
    ReachesLimit(img, g + len - 1);
  }

  /** Where the L1 table covers the disk nothing is missed, and what is not refused is served in full. */
  lemma CoveredServes(img: Image, g: nat, len: nat)
    requires img.WellFormed() && img.size <= img.Limit()
    ensures Refused(img.Limit(), g, len, img.clusterSize, img.size) <==> PastEnd(g, len, img.clusterSize, img.size)
    ensures 0 < img.clusterSize &&
      (Refused(img.Limit(), g, len, img.clusterSize, img.size) <==>
       0 < len && img.size <= Max(g, (g + len - 1) / img.clusterSize * img.clusterSize))
    ensures !Refused(img.Limit(), g, len, img.clusterSize, img.size) ==> Served(img.Limit(), g, len) == len
  {
    BasicFacts(img, g);
    PastEndIs(g, len, img.clusterSize, img.size);
    hide Image.DataOf, Image.EntryOf, Image.TablesInside, LastChunk, Image.Limit, Image.Reaches;
    if 0 < len {
      ServedInFull(img, g, len);
      ReachesLimit(img, LastChunk(g, len, img.clusterSize));
    }
  }

  lemma ServedNone(limit: nat, g: nat)
    ensures Served(limit, g, 0) == 0
  {
  }

  lemma ServedMore(img: Image, was: seq<byte>, g: nat, n: nat, mid: seq<byte>, m: nat, b: seq<byte>)
    requires img.WellFormed() && ReadSoFar(img, was, 0, g, Served(img.Limit(), g, n), mid)
    requires ReadSoFar(img, mid, n, g + n, Served(img.Limit(), g + n, m), b)
    ensures ReadSoFar(img, was, 0, g, Served(img.Limit(), g, n + m), b)
  {
    hide Image.Limit, Image.Bytes, Image.DataOf, Image.EntryOf, Image.TablesInside;
    if g + n <= img.Limit() {
      ExtendSoFar(img, was, 0, g, n, mid, Served(img.Limit(), g + n, m), b);
    }
  }

  /**
    Where the sector loop stands: `filled` bytes are in the buffer, and `failed` times
    a turn found nothing, each of which took one off the u32 `nrRead`, or took it from
    0 to its largest value, and moved offset and buffer pointer on by nearly 2^32.
   */
  ghost predicate Turn(img: Image, was: seq<byte>, pos: nat, g: nat, len: nat, filled: nat, failed: nat, offset: nat, nrRead: nat, buf: nat, b: seq<byte>) {
    img.WellFormed() && len < U32_RANGE && len % SECTOR_SIZE == g % SECTOR_SIZE == 0 && filled <= len &&
    ReadSoFar(img, was, pos, g, filled, b) && offset == g + filled + failed * STRIDE && filled % SECTOR_SIZE == 0 &&
    if failed == 0 then
      nrRead == filled && buf == pos + filled && (filled < len ==> AtBoundary(g, filled, img.clusterSize)) &&
      (0 < filled == len ==> LastChunk(g, len, img.clusterSize) < img.size)
    else
      nrRead == (if failed <= filled then filled - failed else U32_RANGE - 1) && failed <= filled + 1 && filled < len &&
      Missed(img.Limit(), g, len, img.clusterSize, img.size) && g + filled == Max(g, img.Limit()) &&
      g + filled + (failed - 1) * STRIDE < img.size
  }

  lemma FirstTurn(img: Image, was: seq<byte>, pos: nat, g: nat, len: nat)
    requires img.WellFormed() && len < U32_RANGE && len % SECTOR_SIZE == g % SECTOR_SIZE == 0
    ensures Turn(img, was, pos, g, len, 0, 0, g, 0, pos, was)
  {
    BasicFacts(img, g);
  }

  lemma TurnFacts(img: Image, was: seq<byte>, pos: nat, g: nat, len: nat, filled: nat, failed: nat, offset: nat, nrRead: nat, buf: nat, b: seq<byte>)
    requires Turn(img, was, pos, g, len, filled, failed, offset, nrRead, buf, b) && nrRead < len
    ensures 0 < img.clusterSize && filled < len && failed <= filled
    ensures img.Reaches(offset) ==>
      failed == 0 && offset == g + nrRead && buf == pos + nrRead && offset % SECTOR_SIZE == 0 && (len - nrRead) % SECTOR_SIZE == 0 &&
      AtBoundary(g, nrRead, img.clusterSize) && ReadSoFar(img, was, pos, g, nrRead, b)
  {
    hide Image.Limit, Image.Bytes, Image.DataOf, Image.EntryOf, Image.TablesInside, Image.Reaches, LastChunk, AtBoundary, ReadSoFar,
      Missed, Image.WellFormed;
    ReachesLimit(img, offset);
    BasicFacts(img, g);
    SectorSum(g, filled);
    SectorSum(len - filled, filled);
  }

  lemma SectorSum(a: nat, b: nat)
    requires b % SECTOR_SIZE == 0
    ensures (a + b) % SECTOR_SIZE == 0 <==> a % SECTOR_SIZE == 0
  {
  }

  lemma NextTurn(img: Image, was: seq<byte>, pos: nat, g: nat, len: nat, filled: nat, failed: nat, offset: nat, nrRead: nat, buf: nat,
                 mid: seq<byte>, nr: nat, b: seq<byte>)
    requires Turn(img, was, pos, g, len, filled, failed, offset, nrRead, buf, mid) && nrRead < len && offset < img.size && 0 < img.clusterSize
    requires if img.Reaches(offset) then
        0 < nr <= len - nrRead && nr % SECTOR_SIZE == 0 && ReadSoFar(img, was, pos, g, nrRead + nr, b) &&
        (nrRead + nr < len ==> AtBoundary(g, nrRead + nr, img.clusterSize)) &&
        (nrRead + nr == len ==> LastChunk(g, len, img.clusterSize) == offset)
      else nr == U32(-1) && b == mid
    ensures var hit := img.Reaches(offset);
      Turn(img, was, pos, g, len, if hit then filled + nr else filled, if hit then failed else failed + 1,
           offset + nr / SECTOR_SIZE * SECTOR_SIZE, U32(nrRead + nr), buf + nr, b)
  {
    hide Turn, Image.Reaches, ReadSoFar, AtBoundary, LastChunk, U32, Image.WellFormed;
    if img.Reaches(offset) {
      NextHit(img, was, pos, g, len, filled, failed, offset, nrRead, buf, mid, nr, b);
    } else {
      NextMiss(img, was, pos, g, len, filled, failed, offset, nrRead, buf, b, nr);
    }
  }

  lemma NextHit(img: Image, was: seq<byte>, pos: nat, g: nat, len: nat, filled: nat, failed: nat, offset: nat, nrRead: nat, buf: nat,
                mid: seq<byte>, nr: nat, b: seq<byte>)
    requires Turn(img, was, pos, g, len, filled, failed, offset, nrRead, buf, mid) && nrRead < len && offset < img.size && 0 < img.clusterSize
    requires img.Reaches(offset) && 0 < nr <= len - nrRead && nr % SECTOR_SIZE == 0 && ReadSoFar(img, was, pos, g, nrRead + nr, b)
    requires nrRead + nr < len ==> AtBoundary(g, nrRead + nr, img.clusterSize)
    requires nrRead + nr == len ==> LastChunk(g, len, img.clusterSize) == offset
    ensures Turn(img, was, pos, g, len, filled + nr, failed, offset + nr / SECTOR_SIZE * SECTOR_SIZE, U32(nrRead + nr), buf + nr, b)
  {
    hide Image.WellFormed, Image.Limit, Image.Reaches, LastChunk, AtBoundary, ReadSoFar, Missed;
    TurnFacts(img, was, pos, g, len, filled, failed, offset, nrRead, buf, mid);
    SectorSum(filled, nr);
  }

  lemma NextMiss(img: Image, was: seq<byte>, pos: nat, g: nat, len: nat, filled: nat, failed: nat, offset: nat, nrRead: nat, buf: nat,
                 b: seq<byte>, nr: nat)
    requires Turn(img, was, pos, g, len, filled, failed, offset, nrRead, buf, b) && nrRead < len && offset < img.size && 0 < img.clusterSize
    requires !img.Reaches(offset) && nr == U32(-1)
    ensures Turn(img, was, pos, g, len, filled, failed + 1, offset + nr / SECTOR_SIZE * SECTOR_SIZE, U32(nrRead + nr), buf + nr, b)
  {
    hide Image.WellFormed, Image.Limit, Image.Reaches, LastChunk, AtBoundary, ReadSoFar, Missed;
    TurnFacts(img, was, pos, g, len, filled, failed, offset, nrRead, buf, b);
    ReachesLimit(img, offset);
    ErrorUnseen(-1);
    assert nr / SECTOR_SIZE * SECTOR_SIZE == STRIDE;
    if failed == 0 {
      FirstMiss(img, was, pos, g, len, filled, b);
    }
  }

  /** The first piece past the L1 table starts where it ends, or is the first of all. */
  lemma FirstMiss(img: Image, was: seq<byte>, pos: nat, g: nat, len: nat, n: nat, b: seq<byte>)
    requires img.WellFormed() && ReadSoFar(img, was, pos, g, n, b) && n < len && 0 < img.clusterSize
    requires AtBoundary(g, n, img.clusterSize) && img.Limit() <= g + n < img.size
    ensures g + n == Max(g, img.Limit()) && Missed(img.Limit(), g, len, img.clusterSize, img.size)
  {
    hide Image.Limit, Image.Bytes, Image.DataOf, Image.EntryOf, Image.TablesInside;
    StopsAtLast(g, len, n, img.clusterSize);
  }

  /** The loop gives up where the next piece, or the next turn after a miss, is past the end of the disk. */
  lemma RefusedAt(img: Image, was: seq<byte>, pos: nat, g: nat, len: nat, filled: nat, failed: nat, offset: nat, nrRead: nat, buf: nat, b: seq<byte>)
    requires Turn(img, was, pos, g, len, filled, failed, offset, nrRead, buf, b) && nrRead < len && img.size <= offset
    ensures Refused(img.Limit(), g, len, img.clusterSize, img.size) && filled < len && ReadSoFar(img, was, pos, g, filled, b)
  {
    hide Image.Limit, Image.Bytes, Image.DataOf, Image.EntryOf, Image.TablesInside, LastChunk;
    BasicFacts(img, g);
    if failed == 0 {
      StopsAtLast(g, len, filled, img.clusterSize);
    }
  }

  lemma NotRefused(img: Image, was: seq<byte>, pos: nat, g: nat, len: nat, filled: nat, failed: nat, offset: nat, nrRead: nat, buf: nat, b: seq<byte>)
    requires Turn(img, was, pos, g, len, filled, failed, offset, nrRead, buf, b) && len <= nrRead
    ensures !Refused(img.Limit(), g, len, img.clusterSize, img.size)
    ensures ReadSoFar(img, was, pos, g, Served(img.Limit(), g, len), b)
  {
    hide Image.Limit, Image.Bytes, Image.DataOf, Image.EntryOf, Image.TablesInside, LastChunk, Image.Reaches;
    if 0 < len {
      BasicFacts(img, g);
      ServedInFull(img, g, len);
      ReachesLimit(img, LastChunk(g, len, img.clusterSize));
    }
  }

  lemma ReadNothing(img: Image, was: seq<byte>, pos: nat, g: nat)
    requires img.WellFormed()
    ensures forall b :: ReadSoFar(img, was, pos, g, 0, b) <==> b == was
  {
  }

  lemma ExtendSoFar(img: Image, was: seq<byte>, pos: nat, g: nat, n: nat, mid: seq<byte>, m: nat, b: seq<byte>)
    requires img.WellFormed() && ReadSoFar(img, was, pos, g, n, mid) && ReadSoFar(img, mid, pos + n, g + n, m, b)
    ensures ReadSoFar(img, was, pos, g, n + m, b)
  {
  }

  lemma StopsAtLast(g: nat, len: nat, n: nat, size: nat)
    requires 0 < size && n < len && AtBoundary(g, n, size)
    ensures g + n <= LastChunk(g, len, size)
  {
    ChunkBeforeLast(g, len, g + n, size);
  }

  /**
    The test `nr <= 0` on that u32 sees no error: of the values a cluster read can
    return it catches 0 alone, never -1.
   */
  lemma ErrorUnseen(r: int)
    requires -1 <= r < U32_RANGE
    ensures U32(r) <= 0 <==> r == 0
  {
  }

  /** Version 1 computes its L1 size by a division that drops the remainder. */
  function Qcow1L1Size(size: nat, l2Size: nat, clusterSize: nat): nat
    requires 0 < l2Size * clusterSize
  {
    size / (l2Size * clusterSize)
  }

  /** So its L1 table covers the guest disk exactly when the disk is a multiple of what one entry covers. */
  lemma Qcow1Coverage(size: nat, l2Size: nat, clusterSize: nat)
    requires 0 < l2Size * clusterSize
    ensures size <= Qcow1L1Size(size, l2Size, clusterSize) * (l2Size * clusterSize) <==> size % (l2Size * clusterSize) == 0
  {
  }

  /** A read of what is not covered is not refused, gives its whole length, and gets nothing. */
  lemma Qcow1Tail(size: nat, l2Size: nat, clusterSize: nat, g: nat, len: nat)
    requires 0 < l2Size * clusterSize && Qcow1L1Size(size, l2Size, clusterSize) * (l2Size * clusterSize) <= g < size
    ensures var limit := Qcow1L1Size(size, l2Size, clusterSize) * (l2Size * clusterSize);
      !Refused(limit, g, len, clusterSize, size) && Served(limit, g, len) == 0
  {
    hide Qcow1L1Size;
    if 0 < len {
      PositiveFactor(l2Size, clusterSize);
      LastChunkWithin(g, len, clusterSize);
    }
  }

  lemma LimitIs(img: Image)
    requires img.WellFormed()
    ensures 0 < img.l2Size * img.clusterSize && img.Limit() == |img.l1| * (img.l2Size * img.clusterSize)
  {
    hide Image.DataOf, Image.EntryOf, Image.TablesInside;
  }

  lemma PositiveFactor(a: nat, b: nat)
    requires 0 < a * b
    ensures 0 < b
  {
  }

  /** As on a disk of 3 MiB with clusters of 4 KiB and tables of 512 entries, from 2 MiB on. */
  lemma Qcow1TailInstance(g: nat, len: nat)
    requires 0x20_0000 <= g < 0x30_0000
    ensures Qcow1L1Size(0x30_0000, 512, 4096) == 1
    ensures !Refused(0x20_0000, g, len, 4096, 0x30_0000) && Served(0x20_0000, g, len) == 0
  {
    Qcow1Tail(0x30_0000, 512, 4096, g, len);
  }

  lemma ExtendRead(img: Image, was: seq<byte>, pos: nat, g: nat, n: nat, mid: seq<byte>, m: nat, b: seq<byte>)
    requires img.WellFormed() && 0 < m && g + n + m <= img.Limit()
    requires ReadSoFar(img, was, pos, g, n, mid)
    requires Patched(mid, pos + n, img.Bytes(g + n, m), b)
    ensures ReadSoFar(img, was, pos, g, n + m, b)
  {
  }

  /** Where ReadAnyCluster finds the bytes, in the terms of its own variables. */
  lemma ClusterSource(img: Image, g: nat, len: nat)
    requires img.TablesFormed() && g / img.clusterSize < img.Covered() && g % img.clusterSize + len <= img.clusterSize
    ensures 0 < img.clusterSize && 0 < img.l2Size && g / img.clusterSize / img.l2Size < |img.l1|
    ensures var n := g / img.clusterSize; var at := g % img.clusterSize;
      var table := TableOffset(img.version, img.l1[n / img.l2Size]);
      if table == 0 then img.HeldData(n, at, len) == Zeros(len) && !img.CutOff(n, at)
      else table + 8 * img.l2Size <= |img.data| &&
           var start := ClusterOffset(img.version, TableAt(img.data, table, img.l2Size)[n % img.l2Size]);
           if start == 0 then img.HeldData(n, at, len) == Zeros(len) && !img.CutOff(n, at)
           else (img.CutOff(n, at) <==> |img.data| <= start + at) && img.HeldData(n, at, len) == PartInside(img.data, start + at, len)
  {
    hide Entry, PartInside, Zeros, TableOffset, IsCompressed;
    var n := g / img.clusterSize;
    CoveredIndex(img, n);
    assert img.DataOf(n) == img.DataOf(n);
  }

  /** Where every cluster ends inside the file, all of it is there. */
  lemma NotCutOff(img: Image, g: nat, len: nat, n: nat, at: nat, k: nat)
    requires img.WellFormed() && n == g / img.clusterSize && at == g % img.clusterSize && k == ChunkLen(g, len, img.clusterSize)
    ensures img.TablesFormed() && 0 < img.clusterSize
    ensures img.Reaches(g) ==> n < img.Covered() && !img.CutOff(n, at) && at + k <= img.clusterSize
    ensures img.Reaches(g) ==> img.HeldData(n, at, k) == img.ClusterData(n, at, k)
  {
    FormedTables(img);
    hide Image.DataOf, Image.EntryOf, Image.TablesInside, Part, Zeros, Image.TablesFormed;
    if img.Reaches(g) {
      DivTwice(g, img.l2Size, img.clusterSize);
      L1Covers(img, g);
      DataOrNone(img, n);
    }
  }

  lemma DataOrNone(img: Image, n: nat)
    requires img.WellFormed() && n < img.Covered()
    ensures img.DataOf(n) != 0 ==> img.DataOf(n) + img.clusterSize <= |img.data|
  {
  }

  lemma FormedTables(img: Image)
    requires img.WellFormed()
    ensures img.TablesFormed()
  {
    forall n: nat | n < img.Covered() ensures !IsCompressed(img.version, img.EntryOf(n)) {
      assert img.DataOf(n) == ClusterOffset(img.version, img.EntryOf(n));
    }
  }

  lemma NoPart(data: seq<byte>, start: nat)
    ensures Part(data, start, 0) == [] && PartInside(data, start, 0) == []
  {
  }

  lemma PatchedNothing(was: seq<byte>, pos: nat, b: seq<byte>)
    requires Patched(was, pos, [], b)
    ensures b == was
  {
  }

  /** Where WriteCluster puts the bytes, in the terms of its own variables. */
  lemma WriteTarget(img: Image, n: nat, at: nat, len: nat)
    requires img.WellFormed() && n < img.Covered() && img.Writable(n) && at + len <= img.clusterSize
    ensures n / img.l2Size < |img.l1| &&
      var table := img.l1[n / img.l2Size] % BIT63;
      img.IsTable(table) && table + 8 * img.l2Size <= |img.data| && img.DataOf(n) != 0 &&
      img.DataOf(n) == TableAt(img.data, table, img.l2Size)[n % img.l2Size] % BIT62 &&
      img.DataOf(n) + at + len <= |img.data|
  {
    hide Image.Writable, Image.DataOf, Image.EntryOf, TableAt;
    CoveredIndex(img, n);
    TableInside(img, n);
    DataInside(img, n);
  }

  lemma TableInside(img: Image, n: nat)
    requires img.TablesInside() && 0 < img.l2Size && n / img.l2Size < |img.l1| && img.Writable(n)
    ensures var table := img.l1[n / img.l2Size] % BIT63;
      img.IsTable(table) && table + 8 * img.l2Size <= |img.data| && img.DataOf(n) != 0 &&
      img.DataOf(n) == TableAt(img.data, table, img.l2Size)[n % img.l2Size] % BIT62
  {
  }

  lemma NextWritable(img: Image, g: nat, len: nat, mid: Image, offset: nat)
    requires 0 < img.clusterSize && 0 < img.l2Size && AllWritable(img, g, len) && SameTranslation(img, mid)
    requires g <= offset < g + len && offset < img.size && offset / img.clusterSize < img.Covered()
    ensures mid.Writable(offset / mid.clusterSize) && mid.DataOf(offset / mid.clusterSize) != 0
  {
    SameWritable(img, mid, offset / img.clusterSize);
    assert img.Writable(offset / img.clusterSize);
  }

  lemma SameLimit(img: Image, img': Image)
    requires SameTranslation(img, img')
    ensures img'.Limit() == img.Limit() && img'.Covered() == img.Covered() && img'.size == img.size && img'.clusterSize == img.clusterSize
  {
    hide Image.DataOf, Image.EntryOf, Image.L2OffsetOf;
  }

  lemma CoveredIndex(img: Image, n: nat)
    requires n < img.Covered()
    ensures 0 < img.l2Size && n / img.l2Size < |img.l1|
  {
  }

  lemma PositiveSpan(img: Image)
    requires img.WellFormed() || img.TablesFormed()
    ensures 0 < img.clusterSize && 0 < img.l2Size && 0 < img.l2Size * img.clusterSize
  {
  }

  lemma L1Covers(img: Image, g: nat)
    requires 0 < img.clusterSize && 0 < img.l2Size && g / img.clusterSize / img.l2Size < |img.l1|
    ensures g / img.clusterSize < img.Covered()
  {
    BelowProduct(g / img.clusterSize, img.l2Size, |img.l1|);
  }

  lemma BelowProduct(n: nat, a: nat, b: nat)
    requires 0 < a && n / a < b
    ensures n < b * a
  {
    MulMonotone(n / a + 1, b, a);
    assert n == n / a * a + n % a;
    assert (n / a + 1) * a == n / a * a + a;
  }
}
