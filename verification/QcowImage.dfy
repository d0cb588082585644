/**
  What a QCOW image means: the flat map from guest bytes to image bytes, read off
  the L1 table and the image file, with no cache and no loop.
 */
module QcowImage {
  import opened Basics
  import opened ReadWrite

  const SECTOR_SIZE := 512
  const QCOW1_VERSION := 1

  /** A big-endian integer. */
  function BigEndian(s: seq<byte>): nat {
    if s == [] then 0 else BigEndian(s[..|s| - 1]) * 256 + s[|s| - 1]
  }

  /** Entry `i` of the table of 8-byte entries at `offset`. */
  function Entry(data: seq<byte>, offset: nat, i: nat): nat
    requires offset + 8 * i + 8 <= |data|
  {
    BigEndian(data[offset + 8 * i..offset + 8 * i + 8])
  }

  function TableAt(data: seq<byte>, offset: nat, size: nat): (t: seq<nat>)
    requires offset + 8 * size <= |data|
    ensures |t| == size
  {
    seq(size, i requires 0 <= i < size => Entry(data, offset, i))
  }

  /** The flag bits of the two formats. */
  const BIT63 := 0x8000_0000_0000_0000
  const BIT62 := 0x4000_0000_0000_0000

  /** `& ~QCOW2_OFLAG_COPIED` on an L1 entry of version 2; version 1 uses it whole. */
  function TableOffset(version: nat, entry: nat): nat {
    if version == QCOW1_VERSION then entry else entry % BIT63
  }

  predicate IsCompressed(version: nat, entry: nat) {
    if version == QCOW1_VERSION then entry / BIT63 % 2 == 1 else entry / BIT62 % 2 == 1
  }

  /** `& QCOW2_OFFSET_MASK` on an uncompressed L2 entry of version 2. */
  function ClusterOffset(version: nat, entry: nat): nat {
    if version == QCOW1_VERSION then entry else entry % BIT62
  }

  /** Both flags of an entry written in place. */
  predicate IsCopied(entry: nat) {
    entry / BIT63 % 2 == 1
  }

  /** An entry byte by byte, the most significant first. */
  lemma EntryBytes(data: seq<byte>, offset: nat, i: nat, b: seq<int>)
    requires offset + 8 * i + 8 <= |data| && b == data[offset + 8 * i..offset + 8 * i + 8]
    ensures Entry(data, offset, i) ==
      b[0] * 0x100_0000_0000_0000 + b[1] * 0x1_0000_0000_0000 + b[2] * 0x100_0000_0000 + b[3] * 0x1_0000_0000 +
      b[4] * 0x100_0000 + b[5] * 0x1_0000 + b[6] * 0x100 + b[7]
  {
    LastByte(b, 8);
    LastByte(b, 7);
    LastByte(b, 6);
    LastByte(b, 5);
    LastByte(b, 4);
    LastByte(b, 3);
    LastByte(b, 2);
    LastByte(b, 1);
  }

  lemma LastByte(s: seq<byte>, n: nat)
    requires 0 < n <= |s|
    ensures BigEndian(s[..n]) == BigEndian(s[..n - 1]) * 256 + s[n - 1] && s[..|s|] == s && BigEndian(s[..0]) == 0
  {
    assert s[..n][..n - 1] == s[..n - 1];
  }

  /** What the flags and the offset of an L2 entry are in its bytes: for version 2 the two top bits of the first are flags. */
  lemma EntryFields(version: nat, b: seq<int>, entry: nat)
    requires |b| == 8 && forall i :: 0 <= i < 8 ==> 0 <= b[i] < 256
    requires entry ==
      b[0] * 0x100_0000_0000_0000 + b[1] * 0x1_0000_0000_0000 + b[2] * 0x100_0000_0000 + b[3] * 0x1_0000_0000 +
      b[4] * 0x100_0000 + b[5] * 0x1_0000 + b[6] * 0x100 + b[7]
    ensures ClusterOffset(version, entry) ==
      (if version == 1 then b[0] else b[0] % 64) * 0x100_0000_0000_0000 + b[1] * 0x1_0000_0000_0000 + b[2] * 0x100_0000_0000 + b[3] * 0x1_0000_0000 +
      b[4] * 0x100_0000 + b[5] * 0x1_0000 + b[6] * 0x100 + b[7]
    ensures IsCompressed(version, entry) <==> if version == 1 then 128 <= b[0] else 64 <= b[0] % 128
    ensures IsCopied(entry) <==> 128 <= b[0]
  {
    var rest := b[1] * 0x1_0000_0000_0000 + b[2] * 0x100_0000_0000 + b[3] * 0x1_0000_0000 + b[4] * 0x100_0000 +
      b[5] * 0x1_0000 + b[6] * 0x100 + b[7];
    assert rest < 0x100_0000_0000_0000;
    DivUnique(entry, b[0] / 64, b[0] % 64 * 0x100_0000_0000_0000 + rest, BIT62);
    DivUnique(entry, b[0] / 128, b[0] % 128 * 0x100_0000_0000_0000 + rest, BIT63);
  }

  /** The parts of an open image that the translation depends on. */
  datatype Image = Image(version: nat, clusterSize: nat, l2Size: nat, size: nat, l1: seq<nat>, data: seq<byte>) {

    /** The offset of the L2 table for guest cluster `n`, 0 if there is none. */
    ghost function L2OffsetOf(n: nat): nat {
      if l2Size == 0 || |l1| <= n / l2Size then 0 else TableOffset(version, l1[n / l2Size])
    }

    /** The L2 entry of guest cluster `n`, 0 without a table inside the file. */
    ghost function EntryOf(n: nat): nat {
      var table := L2OffsetOf(n);
      if table == 0 || |data| < table + 8 * l2Size then 0 else Entry(data, table, n % l2Size)
    }

    /** Where the data of guest cluster `n` is in the file, 0 if it is unmapped. */
    ghost function DataOf(n: nat): nat {
      ClusterOffset(version, EntryOf(n))
    }

    ghost predicate TablesInside() {
      forall i :: 0 <= i < |l1| && TableOffset(version, l1[i]) != 0 ==> TableOffset(version, l1[i]) + 8 * l2Size <= |data|
    }

    /** get_l1_index(g) is an index of the L1 table. */
    predicate Reaches(g: nat) {
      0 < l2Size * clusterSize && g / (l2Size * clusterSize) < |l1|
    }

    /** Guest bytes the L1 table covers. */
    function Limit(): nat {
      Covered() * clusterSize
    }

    /** Guest clusters the L1 table covers. */
    function Covered(): nat {
      |l1| * l2Size
    }

    /**
      Uncompressed, every table and every mapped cluster inside the file. The L1 table
      need not cover the guest size.
     */
    ghost predicate WellFormed() {
      0 < clusterSize && clusterSize % SECTOR_SIZE == 0 && 0 < l2Size && TablesInside() &&
      forall n {:trigger DataOf(n)} :: 0 <= n < Covered() ==>
        !IsCompressed(version, EntryOf(n)) && (DataOf(n) != 0 ==> DataOf(n) + clusterSize <= |data|)
    }

    /** The same, but mapped clusters may lie past the end of the file, or across it. */
    ghost predicate TablesFormed() {
      0 < clusterSize && 0 < l2Size && TablesInside() &&
      forall n {:trigger DataOf(n)} :: 0 <= n < Covered() ==> !IsCompressed(version, EntryOf(n))
    }

    /** What there is of bytes `at`.. of guest cluster `n`. */
    ghost function HeldData(n: nat, at: nat, len: nat): (s: seq<byte>)
      ensures |s| <= len
    {
      if DataOf(n) == 0 then Zeros(len) else PartInside(data, DataOf(n) + at, len)
    }

    /** There is nothing of it, although it is mapped. */
    ghost predicate CutOff(n: nat, at: nat) {
      DataOf(n) != 0 && |data| <= DataOf(n) + at
    }

    /** `offset` is where some L1 entry says an L2 table is. */
    predicate IsTable(offset: nat) {
      offset != 0 && exists i :: 0 <= i < |l1| && TableOffset(version, l1[i]) == offset
    }

    /** Guest cluster `n` is written in place: both its entries carry the COPIED flag. */
    ghost predicate Writable(n: nat)
      requires 0 < l2Size
    {
      version != QCOW1_VERSION && n / l2Size < |l1| && IsCopied(l1[n / l2Size]) && L2OffsetOf(n) != 0 && IsCopied(EntryOf(n)) && DataOf(n) != 0
    }

    ghost predicate Apart(a: nat, m: nat, b: nat, n: nat) {
      a + m <= b || b + n <= a
    }

    /** No data cluster overlaps another one or an L2 table. */
    ghost predicate Isolated() {
      (forall n, m {:trigger DataOf(n), DataOf(m)} ::
         0 <= n < Covered() && 0 <= m < Covered() && n != m && DataOf(n) != 0 && DataOf(m) != 0 ==>
         Apart(DataOf(n), clusterSize, DataOf(m), clusterSize)) &&
      (forall n, t {:trigger DataOf(n), IsTable(t)} ::
         0 <= n < Covered() && DataOf(n) != 0 && IsTable(t) ==> Apart(DataOf(n), clusterSize, t, 8 * l2Size))
    }

    /** The byte a guest sees at `g`. */
    ghost function Byte(g: nat): byte
      requires WellFormed() && g / clusterSize < Covered()
    {
      var n := g / clusterSize;
      var start := DataOf(n);
      if start == 0 then 0 else data[start + (g % clusterSize)]
    }

    /** Bytes `at`.. of guest cluster `n`, as the file holds them. */
    ghost function ClusterData(n: nat, at: nat, len: nat): (s: seq<byte>)
      requires WellFormed() && n < Covered() && at + len <= clusterSize
      ensures |s| == len
    {
      if DataOf(n) == 0 then Zeros(len) else Part(data, DataOf(n) + at, len)
    }

    /** The guest range of `n` bytes from `g`. */
    ghost function Bytes(g: nat, n: nat): (s: seq<byte>)
      requires WellFormed() && g + n <= Limit()
      ensures |s| == n
    {
      seq<byte>(n, i requires 0 <= i < n => (InsideCovered(g + i); Byte(g + i)))
    }

    lemma InsideCovered(g: nat)
      requires 0 < clusterSize && g < Covered() * clusterSize
      ensures g / clusterSize < Covered()
    {
    }
  }

  /** As many of `n` bytes from `start` on as the file has. */
  ghost function PartInside(data: seq<byte>, start: nat, n: nat): (s: seq<byte>)
    ensures |s| <= n
  {
    if |data| <= start then [] else Part(data, start, Min(n, |data| - start))
  }

  /** Inside one cluster the guest range is a piece of the file, or zeros. */
  lemma ClusterBytes(img: Image, g: nat, len: nat)
    requires img.WellFormed() && g / img.clusterSize < img.Covered() && g % img.clusterSize + len <= img.clusterSize
    ensures g + len <= img.Limit()
    ensures img.Bytes(g, len) == img.ClusterData(g / img.clusterSize, g % img.clusterSize, len)
  {
    hide Image.Bytes, Image.ClusterData, Image.DataOf, Image.EntryOf, Image.Byte, Part, Zeros;
    var n, at := g / img.clusterSize, g % img.clusterSize;
    ClusterInside(n, img.Covered(), at, len, img.clusterSize);
    assert g == n * img.clusterSize + at;
    assert |img.Bytes(g, len)| == |img.ClusterData(n, at, len)| == len;
    forall i | 0 <= i < len ensures img.Bytes(g, len)[i] == img.ClusterData(n, at, len)[i] {
      SameCluster(g, i, img.clusterSize);
      ByteInCluster(img, n, at, len, i);
      ByteAt(img, g, len, i, n, at + i);
    }
  }

  lemma ByteAt(img: Image, g: nat, len: nat, i: nat, n: nat, at: nat)
    requires img.WellFormed() && g + len <= img.Limit() && i < len
    requires n == (g + i) / img.clusterSize && at == (g + i) % img.clusterSize && n < img.Covered()
    ensures img.DataOf(n) != 0 ==> img.DataOf(n) + at < |img.data|
    ensures img.Bytes(g, len)[i] == if img.DataOf(n) == 0 then 0 else img.data[img.DataOf(n) + at]
  {
    hide Image.DataOf, Image.EntryOf, Image.TablesInside;
    img.InsideCovered(g + i);
    assert img.Bytes(g, len)[i] == img.Byte(g + i);
  }

  /**
    The translation in plain terms, from the L1 table and the bytes of the file to the
    byte a guest sees: which L1 entry, which eight bytes of the L2 table it names, the
    flags masked off, and zero where either names nothing.
   */
  lemma GuestByte(img: Image, g: nat, len: nat, i: nat, version: nat, n: nat, at: nat, table: nat, o: nat)
    requires img.WellFormed() && g + len <= img.Limit() && i < len && version == img.version
    requires n == (g + i) / img.clusterSize && at == (g + i) % img.clusterSize && n / img.l2Size < |img.l1|
    requires table == (if version == 1 then img.l1[n / img.l2Size] else img.l1[n / img.l2Size] % 0x8000_0000_0000_0000)
    requires o == table + 8 * (n % img.l2Size)
    ensures table == 0 ==> img.Bytes(g, len)[i] == 0
    ensures table != 0 ==> o + 8 <= |img.data|
    ensures table != 0 ==>
      var b: seq<int> := img.data[o..o + 8];
      var start :=
        (if version == 1 then b[0] else b[0] % 64) * 0x100_0000_0000_0000 + b[1] * 0x1_0000_0000_0000 + b[2] * 0x100_0000_0000 + b[3] * 0x1_0000_0000 +
        b[4] * 0x100_0000 + b[5] * 0x1_0000 + b[6] * 0x100 + b[7];
      if start == 0 then img.Bytes(g, len)[i] == 0 else start + at < |img.data| && img.Bytes(g, len)[i] == img.data[start + at]
  {
    img.InsideCovered(g + i);
    DataBytes(img, version, n, table, o);
    ByteAt(img, g, len, i, n, at);
  }

  /** Where a guest cluster is, in the same terms, and whether it is written in place. */
  lemma DataBytes(img: Image, version: nat, n: nat, table: nat, o: nat)
    requires 0 < img.l2Size && n / img.l2Size < |img.l1| && img.TablesInside() && version == img.version
    requires table == (if version == 1 then img.l1[n / img.l2Size] else img.l1[n / img.l2Size] % 0x8000_0000_0000_0000)
    requires o == table + 8 * (n % img.l2Size)
    ensures table == 0 ==> img.DataOf(n) == 0 && !img.Writable(n)
    ensures table != 0 ==> o + 8 <= |img.data|
    ensures table != 0 ==>
      var b: seq<int> := img.data[o..o + 8];
      img.DataOf(n) ==
        (if version == 1 then b[0] else b[0] % 64) * 0x100_0000_0000_0000 + b[1] * 0x1_0000_0000_0000 + b[2] * 0x100_0000_0000 + b[3] * 0x1_0000_0000 +
        b[4] * 0x100_0000 + b[5] * 0x1_0000 + b[6] * 0x100 + b[7]
    ensures table != 0 ==>
      (img.Writable(n) <==> version != 1 && img.l1[n / img.l2Size] / 0x8000_0000_0000_0000 % 2 == 1 && 128 <= img.data[o] && img.DataOf(n) != 0)
  {
    if table != 0 {
      hide BigEndian, Entry;
      TableIs(img, n, table, o);
      var b: seq<int> := img.data[o..o + 8];
      EntryBytes(img.data, table, n % img.l2Size, b);
      EntryFields(version, b, img.EntryOf(n));
    }
  }

  lemma TableIs(img: Image, n: nat, table: nat, o: nat)
    requires 0 < img.l2Size && n / img.l2Size < |img.l1| && img.TablesInside()
    requires table == TableOffset(img.version, img.l1[n / img.l2Size]) != 0 && o == table + 8 * (n % img.l2Size)
    ensures o + 8 <= table + 8 * img.l2Size <= |img.data| && img.L2OffsetOf(n) == table
    ensures img.EntryOf(n) == Entry(img.data, table, n % img.l2Size)
  {
    hide Entry, TableOffset;
  }

  lemma ByteInCluster(img: Image, n: nat, at: nat, len: nat, i: nat)
    requires img.WellFormed() && n < img.Covered() && at + len <= img.clusterSize && i < len
    ensures img.ClusterData(n, at, len)[i] == if img.DataOf(n) == 0 then 0 else img.data[img.DataOf(n) + (at + i)]
  {
  }

  lemma ClusterInside(n: nat, covered: nat, at: nat, len: nat, size: nat)
    requires n < covered && at + len <= size
    ensures n * size + at + len <= covered * size
  {
    MulMonotone(n + 1, covered, size);
    assert (n + 1) * size == n * size + size;
  }

  function Zeros(n: nat): seq<byte> {
    seq<byte>(n, _ => 0)
  }

  /** Moving inside a cluster changes only the offset in it. */
  lemma SameCluster(g: nat, i: nat, size: nat)
    requires 0 < size && g % size + i < size
    ensures (g + i) / size == g / size && (g + i) % size == g % size + i
  {
    var q, r := g / size, g % size;
    assert g + i == q * size + (r + i);
    DivUnique(g + i, q, r + i, size);
  }

  /** get_l1_index: the shift by both widths is the two shifts in turn. */
  lemma DivTwice(g: nat, a: nat, b: nat)
    requires 0 < a && 0 < b && 0 < a * b
    ensures g / (a * b) == g / b / a
  {
    var n, r := g / b, g % b;
    var q, s := n / a, n % a;
    assert g == (q * a + s) * b + r == q * (a * b) + (s * b + r) by {
      assert (q * a + s) * b == q * a * b + s * b;
      assert q * a * b == q * (a * b);
    }
    MulMonotone(s + 1, a, b);
    assert (s + 1) * b == s * b + b;
    DivUnique(g, q, s * b + r, a * b);
  }

  /** The start of the last piece when [g, g + len) is cut at cluster boundaries. */
  function LastChunk(g: nat, len: nat, size: nat): nat
    requires 0 < len && 0 < size
  {
    var last := (g + len - 1) / size;
    if g / size == last then g else last * size
  }

  /** The piece that ends the range is the last one. */
  lemma ChunkEndsRange(g: nat, len: nat, s: nat, size: nat)
    requires 0 < len && 0 < size && g <= s < g + len && (s == g || s % size == 0)
    requires g + len <= s + (size - s % size)
    ensures LastChunk(g, len, size) == s
  {
    var e := g + len - 1;
    SameCluster(s, e - s, size);
    if s != g {
      assert s == s / size * size && g == g / size * size + g % size;
      DivMonotone(g, s, size);
    }
  }

  /** The last piece is in the range, in the cluster of its last byte. */
  lemma LastChunkWithin(g: nat, len: nat, size: nat)
    requires 0 < len && 0 < size
    ensures g <= LastChunk(g, len, size) < g + len
    ensures LastChunk(g, len, size) / size == (g + len - 1) / size
  {
    var e := g + len - 1;
    ChunkBeforeLast(g, len, g, size);
    if g / size != e / size {
      DivUnique(e / size * size, e / size, 0, size);
      assert e == e / size * size + e % size;
    }
  }

  /** It starts where the cluster of the last byte does, or where the range does if that is later. */
  lemma LastChunkStarts(g: nat, len: nat, size: nat)
    requires 0 < len && 0 < size
    ensures LastChunk(g, len, size) == Max(g, (g + len - 1) / size * size)
  {
    var e := g + len - 1;
    assert g == g / size * size + g % size;
    DivMonotone(g, e, size);
    if g / size != e / size {
      FloorBelow(g, e / size, size);
    }
  }

  /** No piece starts after the last one. */
  lemma ChunkBeforeLast(g: nat, len: nat, s: nat, size: nat)
    requires 0 < len && 0 < size && g <= s < g + len && (s == g || s % size == 0)
    ensures s <= LastChunk(g, len, size)
  {
    var last := (g + len - 1) / size;
    if s == g {
      DivMonotone(g, g + len - 1, size);
      if g / size != last {
        FloorBelow(g, last, size);
      }
    } else {
      DivMonotone(s, g + len - 1, size);
      StartBelow(g, s, last, size);
    }
  }

  lemma FloorBelow(g: nat, q: nat, size: nat)
    requires 0 < size && g / size < q
    ensures g <= q * size
  {
    MulMonotone(g / size + 1, q, size);
    assert g == g / size * size + g % size && (g / size + 1) * size == g / size * size + size;
  }

  /** A later piece starts in a later cluster. */
  lemma StartBelow(g: nat, s: nat, q: nat, size: nat)
    requires 0 < size && g < s && s % size == 0 && s / size <= q
    ensures s <= q * size && g / size < q
  {
  }

  /** Sector alignment survives the cut at a cluster boundary. */
  lemma AlignedOffset(g: nat, size: nat)
    requires 0 < size && size % SECTOR_SIZE == 0 && g % SECTOR_SIZE == 0
    ensures (size - g % size) % SECTOR_SIZE == 0
  {
    var a, b := size / SECTOR_SIZE, g / SECTOR_SIZE;
    var q := g / size;
    assert g % size == g - q * size;
    assert q * size == q * a * SECTOR_SIZE by {
      assert size == a * SECTOR_SIZE;
      assert q * (a * SECTOR_SIZE) == q * a * SECTOR_SIZE;
    }
    assert size - g % size == (a - b + q * a) * SECTOR_SIZE;
  }

  /** What the L1 table reaches is what it covers. */
  lemma ReachesLimit(img: Image, g: nat)
    requires img.WellFormed()
    ensures img.Reaches(g) <==> g < img.Limit()
    ensures img.Reaches(g) <==> g / img.clusterSize < img.Covered()
  {
    hide Image.DataOf, Image.EntryOf, Image.TablesInside;
    DivTwice(g, img.l2Size, img.clusterSize);
    FloorLess(g, img.Covered(), img.clusterSize);
    FloorLess(g / img.clusterSize, |img.l1|, img.l2Size);
  }

  /** How much of a request the cluster of its first byte serves. */
  function ChunkLen(g: nat, len: nat, size: nat): (n: nat)
    requires 0 < size
    ensures n <= len
  {
    Min(size - g % size, len)
  }

  /** `n` bytes into a request: at its start, or at a cluster boundary. */
  predicate AtBoundary(g: nat, n: nat, size: nat)
    requires 0 < size
  {
    n == 0 || (g + n) % size == 0
  }

  lemma BoundaryReached(offset: nat, size: nat)
    requires 0 < size
    ensures (offset + (size - offset % size)) % size == 0
  {
    var q := offset / size;
    assert offset + (size - offset % size) == (q + 1) * size + 0 by {
      assert offset == q * size + offset % size;
      assert (q + 1) * size == q * size + size;
    }
    DivUnique(offset + (size - offset % size), q + 1, 0, size);
  }

  /** One turn of the sector loop, as far as the arithmetic goes. */
  lemma ChunkStep(g: nat, n: nat, len: nat, size: nat)
    requires 0 < size && size % SECTOR_SIZE == 0 && n < len && AtBoundary(g, n, size)
    requires (g + n) % SECTOR_SIZE == 0 && (len - n) % SECTOR_SIZE == 0
    ensures var r := ChunkLen(g + n, len - n, size);
      0 < r && r % SECTOR_SIZE == 0 && (n + r < len ==> AtBoundary(g, n + r, size)) &&
      (n + r == len ==> LastChunk(g, len, size) == g + n)
  {
    AlignedOffset(g + n, size);
    BoundaryReached(g + n, size);
    if n + ChunkLen(g + n, len - n, size) == len {
      ChunkEndsRange(g, len, g + n, size);
    }
  }

  // ---------------------------------------------------------------------
  // Writing in place
  // ---------------------------------------------------------------------

  /** What writing `what` into the data of guest cluster `n`, from `at` on, does to the file. */
  ghost predicate ClusterWritten(img: Image, n: nat, at: nat, what: seq<byte>, img': Image)
    requires img.WellFormed() && n < img.Covered()
  {
    at + |what| <= img.clusterSize && img' == img.(data := img'.data) &&
    Patched(img.data, img.DataOf(n) + at, what, img'.data)
  }

  /** Bytes outside the written range stay. */
  lemma PatchedOutside(was: seq<byte>, pos: nat, what: seq<byte>, b: seq<byte>, i: nat, len: nat)
    requires Patched(was, pos, what, b) && i + len <= |was| && (i + len <= pos || pos + |what| <= i)
    ensures |b| == |was| && b[i..i + len] == was[i..i + len]
  {
  }

  /** A write to data changes no L2 table. */
  lemma TablesKept(img: Image, n: nat, at: nat, what: seq<byte>, img': Image, t: nat)
    requires img.WellFormed() && img.Isolated() && n < img.Covered() && img.DataOf(n) != 0 && img.IsTable(t)
    requires ClusterWritten(img, n, at, what, img')
    ensures t + 8 * img.l2Size <= |img.data| == |img'.data|
    ensures TableAt(img'.data, t, img.l2Size) == TableAt(img.data, t, img.l2Size)
  {
    hide Entry;
    var i :| 0 <= i < |img.l1| && TableOffset(img.version, img.l1[i]) == t;
    PatchedOutside(img.data, img.DataOf(n) + at, what, img'.data, t, 8 * img.l2Size);
    forall j | 0 <= j < img.l2Size ensures Entry(img'.data, t, j) == Entry(img.data, t, j) {
      EntrySame(img.data, img'.data, t, img.l2Size, j);
    }
  }

  lemma EntrySame(data: seq<byte>, data': seq<byte>, t: nat, size: nat, j: nat)
    requires t + 8 * size <= |data| == |data'| && data'[t..t + 8 * size] == data[t..t + 8 * size] && j < size
    ensures Entry(data', t, j) == Entry(data, t, j)
  {
    SliceOfSlice(data, t, 8 * size, 8 * j, 8 * j + 8);
    SliceOfSlice(data', t, 8 * size, 8 * j, 8 * j + 8);
  }

  /** So it changes no translation. */
  lemma EntriesKept(img: Image, n: nat, at: nat, what: seq<byte>, img': Image, m: nat)
    requires img.WellFormed() && img.Isolated() && n < img.Covered() && img.DataOf(n) != 0
    requires ClusterWritten(img, n, at, what, img')
    ensures |img.data| == |img'.data| && img'.TablesInside()
    ensures img'.EntryOf(m) == img.EntryOf(m) && img'.DataOf(m) == img.DataOf(m) && img'.L2OffsetOf(m) == img.L2OffsetOf(m)
  {
    hide Image.WellFormed, Image.Isolated, Patched, TableAt, Entry;
    SameL1(img, img', m);
    var t := img.L2OffsetOf(m);
    SameLength(img, n, at, what, img');
    if t != 0 {
      L2IsTable(img, m);
      TablesKept(img, n, at, what, img', t);
      TableEntry(img, t, m % img.l2Size);
      TableEntry(img', t, m % img.l2Size);
    }
  }

  lemma SameL1(img: Image, img': Image, m: nat)
    requires img' == img.(data := img'.data)
    ensures img'.L2OffsetOf(m) == img.L2OffsetOf(m)
  {
  }

  lemma SameLength(img: Image, n: nat, at: nat, what: seq<byte>, img': Image)
    requires img.WellFormed() && n < img.Covered() && ClusterWritten(img, n, at, what, img')
    ensures |img.data| == |img'.data| && img'.TablesInside()
  {
  }

  lemma L2IsTable(img: Image, m: nat)
    requires img.L2OffsetOf(m) != 0
    ensures 0 < img.l2Size && img.IsTable(img.L2OffsetOf(m))
  {
  }

  lemma TableEntry(img: Image, t: nat, j: nat)
    requires t + 8 * img.l2Size <= |img.data| && j < img.l2Size
    ensures TableAt(img.data, t, img.l2Size)[j] == Entry(img.data, t, j)
  {
  }

  lemma WrittenWellFormed(img: Image, n: nat, at: nat, what: seq<byte>, img': Image)
    requires img.WellFormed() && img.Isolated() && n < img.Covered() && img.DataOf(n) != 0
    requires ClusterWritten(img, n, at, what, img')
    ensures img'.WellFormed() && img'.Isolated() && SameTranslation(img, img')
  {
    forall m: nat
      ensures |img.data| == |img'.data| && img'.TablesInside()
      ensures img'.EntryOf(m) == img.EntryOf(m) && img'.DataOf(m) == img.DataOf(m) && img'.L2OffsetOf(m) == img.L2OffsetOf(m)
    {
      EntriesKept(img, n, at, what, img', m);
    }
    forall t | img'.IsTable(t) ensures img.IsTable(t) {
    }
  }

  /** `img'` shows the guest `what` from `g` on, and everything else as `img` does. */
  ghost predicate Overlaid(img: Image, g: nat, what: seq<byte>, img': Image)
    requires img.WellFormed() && img'.WellFormed() && img' == img.(data := img'.data)
  {
    forall x {:trigger img'.Byte(x)} :: 0 <= x && x / img.clusterSize < img.Covered() ==>
      img'.Byte(x) == if g <= x < g + |what| then what[x - g] else img.Byte(x)
  }

  lemma SameShape(img: Image, n: nat, at: nat, what: seq<byte>, img': Image)
    requires img.WellFormed() && n < img.Covered() && ClusterWritten(img, n, at, what, img')
    ensures img'.Covered() == img.Covered() && img'.Limit() == img.Limit() && img'.clusterSize == img.clusterSize
    ensures img' == img.(data := img'.data) && |img'.data| == |img.data|
  {
  }

  /** A write inside one cluster shows through the map exactly where it was aimed. */
  lemma WrittenOverlaid(img: Image, g: nat, what: seq<byte>, img': Image)
    requires img.WellFormed() && img.Isolated() && img'.WellFormed() && g / img.clusterSize < img.Covered()
    requires img.DataOf(g / img.clusterSize) != 0
    requires ClusterWritten(img, g / img.clusterSize, g % img.clusterSize, what, img')
    ensures Overlaid(img, g, what, img')
  {
    hide Image.DataOf, Image.EntryOf, Image.Byte, Image.Isolated, Image.WellFormed, ClusterWritten;
    BasicFacts(img, g);
    SameShape(img, g / img.clusterSize, g % img.clusterSize, what, img');
    var n, at := g / img.clusterSize, g % img.clusterSize;
    forall x | 0 <= x && x / img.clusterSize < img.Covered()
      ensures img'.Byte(x) == if g <= x < g + |what| then what[x - g] else img.Byte(x)
    {
      ByteWritten(img, g, n, at, what, img', x, x / img.clusterSize, x % img.clusterSize);
    }
  }

  /** Guest byte `x` is byte `at` of guest cluster `n`. */
  ghost predicate Located(x: nat, n: nat, at: nat, size: nat) {
    0 < size && n == x / size && at == x % size
  }

  lemma ByteWritten(img: Image, g: nat, n: nat, at: nat, what: seq<byte>, img': Image, x: nat, m: nat, xt: nat)
    requires img.WellFormed() && img.Isolated() && img'.WellFormed() && n < img.Covered() && m < img.Covered()
    requires Located(g, n, at, img.clusterSize) && Located(x, m, xt, img.clusterSize)
    requires img.DataOf(n) != 0 && ClusterWritten(img, n, at, what, img')
    ensures x / img.clusterSize < img.Covered() == img'.Covered()
    ensures img'.Byte(x) == if g <= x < g + |what| then what[x - g] else img.Byte(x)
  {
    hide Image.DataOf, Image.EntryOf, Image.Byte, Image.WellFormed, Image.Isolated, Patched, Located;
    EntriesKept(img, n, at, what, img', m);
    ByteValue(img, x, m, xt);
    ByteValue(img', x, m, xt);
    if n != m && img.DataOf(m) != 0 {
      DataApart(img, n, m);
    }
    LocatedInside(x, m, xt, img.clusterSize);
    LocatedOrder(g, n, at, |what|, x, m, xt, img.clusterSize);
    if img.DataOf(m) != 0 {
      PlaceWritten(g, what, x, img.DataOf(n) + at, img.DataOf(m) + xt, img.data, img'.data);
    }
  }

  lemma LocatedInside(x: nat, m: nat, xt: nat, size: nat)
    requires Located(x, m, xt, size)
    ensures m == x / size && xt < size
  {
  }

  /** Order in the guest follows the order of clusters and of bytes in them. */
  lemma LocatedOrder(g: nat, n: nat, at: nat, len: nat, x: nat, m: nat, xt: nat, size: nat)
    requires Located(g, n, at, size) && Located(x, m, xt, size) && at + len <= size
    ensures n == m ==> xt - at == x - g
    ensures n != m ==> x < g || g + len <= x
  {
    assert g == n * size + at && x == m * size + xt;
    if n != m {
      OtherCluster(size, n, at, len, m, xt);
    }
  }

  lemma PlaceWritten(g: nat, what: seq<byte>, x: nat, p: nat, q: nat, data: seq<byte>, data': seq<byte>)
    requires Patched(data, p, what, data') && q < |data|
    requires if g <= x < g + |what| then q == p + (x - g) else q < p || p + |what| <= q
    ensures |data'| == |data| && data'[q] == if g <= x < g + |what| then what[x - g] else data[q]
  {
  }

  lemma ByteValue(img: Image, x: nat, m: nat, xt: nat)
    requires img.WellFormed() && m < img.Covered()
    requires Located(x, m, xt, img.clusterSize)
    ensures x / img.clusterSize == m
    ensures img.DataOf(m) != 0 ==> img.DataOf(m) + img.clusterSize <= |img.data|
    ensures img.DataOf(m) != 0 ==> img.DataOf(m) + xt < |img.data| && img.Byte(x) == img.data[img.DataOf(m) + xt]
    ensures img.DataOf(m) == 0 ==> img.Byte(x) == 0
  {
  }

  lemma DataInside(img: Image, n: nat)
    requires img.WellFormed() && n < img.Covered() && img.DataOf(n) != 0
    ensures img.DataOf(n) + img.clusterSize <= |img.data|
  {
    hide Image.DataOf, Image.EntryOf;
  }

  lemma DataApart(img: Image, n: nat, m: nat)
    requires img.Isolated() && n < img.Covered() && m < img.Covered() && n != m && img.DataOf(n) != 0 && img.DataOf(m) != 0
    ensures img.Apart(img.DataOf(n), img.clusterSize, img.DataOf(m), img.clusterSize)
  {
    hide Image.DataOf;
  }

  lemma OtherCluster(size: nat, n: nat, at: nat, len: nat, m: nat, xt: nat)
    requires at + len <= size && xt < size && n != m
    ensures var g, x := n * size + at, m * size + xt; x < g || g + len <= x
  {
    if n < m {
      MulMonotone(n + 1, m, size);
      assert (n + 1) * size == n * size + size;
    } else {
      MulMonotone(m + 1, n, size);
      assert (m + 1) * size == m * size + size;
    }
  }

  lemma BasicFacts(img: Image, g: nat)
    requires img.WellFormed()
    ensures 0 < img.clusterSize && img.clusterSize % SECTOR_SIZE == 0 && AtBoundary(g, 0, img.clusterSize)
    ensures 0 < img.l2Size
  {
  }

  /** Reading back what was written, and anything beside it. */
  lemma ReadOverWrite(img: Image, g: nat, what: seq<byte>, img': Image, h: nat, len: nat)
    requires img.WellFormed() && img'.WellFormed() && img' == img.(data := img'.data)
    requires Overlaid(img, g, what, img') && g + |what| <= img.Limit() && h + len <= img.Limit()
    ensures img'.Bytes(g, |what|) == what
    ensures h + len <= g || g + |what| <= h ==> img'.Bytes(h, len) == img.Bytes(h, len)
  {
    forall i | 0 <= i < |what| ensures img'.Bytes(g, |what|)[i] == what[i] {
      img.InsideCovered(g + i);
      assert img'.Byte(g + i) == what[i];
    }
    if h + len <= g || g + |what| <= h {
      forall i | 0 <= i < len ensures img'.Bytes(h, len)[i] == img.Bytes(h, len)[i] {
        img.InsideCovered(h + i);
        assert img'.Byte(h + i) == img.Byte(h + i);
      }
    }
  }

  /** Two consecutive overlays are one. */
  lemma OverlaidTwice(img: Image, g: nat, a: seq<byte>, mid: Image, b: seq<byte>, img': Image)
    requires img.WellFormed() && mid.WellFormed() && img'.WellFormed()
    requires mid == img.(data := mid.data) && img' == img.(data := img'.data)
    requires Overlaid(img, g, a, mid) && Overlaid(mid, g + |a|, b, img')
    ensures Overlaid(img, g, a + b, img')
  {
  }

  /** Every guest cluster that holds a byte of the range, inside the disk and its tables, is written in place. */
  ghost predicate AllWritable(img: Image, g: nat, len: nat)
    requires 0 < img.clusterSize && 0 < img.l2Size
  {
    forall x {:trigger img.Writable(x / img.clusterSize)} ::
      g <= x < g + len && x < img.size && x / img.clusterSize < img.Covered() ==> img.Writable(x / img.clusterSize)
  }

  lemma SliceOfSlice<T>(s: seq<T>, start: nat, len: nat, a: nat, b: nat)
    requires start + len <= |s| && a <= b <= len
    ensures s[start..start + len][a..b] == s[start + a..start + b]
  {
    var l, r := s[start..start + len][a..b], s[start + a..start + b];
    assert |l| == |r| && forall i :: 0 <= i < |l| ==> l[i] == r[i];
  }

  /** What every write in place keeps of an image: its shape and its translation. */
  ghost predicate SameTranslation(img: Image, img': Image) {
    img' == img.(data := img'.data) && |img'.data| == |img.data| &&
    (forall m {:trigger img'.DataOf(m)} :: img'.DataOf(m) == img.DataOf(m)) &&
    (forall m {:trigger img'.EntryOf(m)} :: img'.EntryOf(m) == img.EntryOf(m)) &&
    (forall m {:trigger img'.L2OffsetOf(m)} :: img'.L2OffsetOf(m) == img.L2OffsetOf(m))
  }

  lemma SameTranslationTwice(img: Image, mid: Image, img': Image)
    requires SameTranslation(img, mid) && SameTranslation(mid, img')
    ensures SameTranslation(img, img')
  {
  }

  lemma SameWritable(img: Image, img': Image, n: nat)
    requires SameTranslation(img, img') && 0 < img.l2Size
    ensures img'.Writable(n) == img.Writable(n)
  {
  }

  /** Byte `p` of the file is in the data of some guest cluster. */
  ghost predicate InData(img: Image, p: nat) {
    exists n {:trigger img.DataOf(n)} :: 0 <= n < img.Covered() && img.DataOf(n) != 0 && img.DataOf(n) <= p < img.DataOf(n) + img.clusterSize
  }

  /** Every other byte of the file, in tables, refcount blocks or the header, is as it was. */
  ghost predicate RestKept(img: Image, img': Image) {
    |img'.data| == |img.data| && forall p: nat :: p < |img.data| && !InData(img, p) ==> img'.data[p] == img.data[p]
  }

  lemma WrittenRestKept(img: Image, n: nat, at: nat, what: seq<byte>, img': Image)
    requires img.WellFormed() && n < img.Covered() && img.DataOf(n) != 0 && ClusterWritten(img, n, at, what, img')
    ensures RestKept(img, img')
  {
    hide Image.DataOf, Image.EntryOf, Image.WellFormed, Patched, InData;
    var start := img.DataOf(n);
    SameLength(img, n, at, what, img');
    forall p: nat | p < |img.data| && !InData(img, p) ensures img'.data[p] == img.data[p] {
      OutOfData(img, n, p);
      PatchedAt(img.data, start + at, what, img'.data, p);
    }
  }

  lemma OutOfData(img: Image, n: nat, p: nat)
    requires n < img.Covered() && img.DataOf(n) != 0 && !InData(img, p)
    ensures p < img.DataOf(n) || img.DataOf(n) + img.clusterSize <= p
  {
    hide Image.DataOf;
  }

  lemma RestKeptTwice(img: Image, mid: Image, img': Image)
    requires RestKept(img, mid) && RestKept(mid, img') && SameTranslation(img, mid)
    ensures RestKept(img, img')
  {
    hide Image.DataOf, Image.EntryOf, Image.L2OffsetOf;
    forall p: nat | InData(mid, p) ensures InData(img, p) {
      var n :| 0 <= n < mid.Covered() && mid.DataOf(n) != 0 && mid.DataOf(n) <= p < mid.DataOf(n) + mid.clusterSize;
      assert img.DataOf(n) == mid.DataOf(n);
    }
  }

  /** So what lies apart from all data, as refcount blocks do, still reads the same. */
  lemma RefcountsKept(img: Image, img': Image, offset: nat, len: nat)
    requires RestKept(img, img') && offset + len <= |img.data|
    requires forall p: nat :: offset <= p < offset + len ==> !InData(img, p)
    ensures img'.data[offset..offset + len] == img.data[offset..offset + len]
  {
    hide InData;
    var a, b := img'.data[offset..offset + len], img.data[offset..offset + len];
    forall i | 0 <= i < len ensures a[i] == b[i] {
      assert !InData(img, offset + i);
    }
  }

  /**
    `img'` is `img` after the bytes `done` have been written in place from guest byte
    `g` on: they show there, every other guest byte, every translation and every file
    byte outside guest data is as it was.
   */
  ghost predicate WriteSoFar(img: Image, g: nat, done: seq<byte>, img': Image) {
    img.WellFormed() && img'.WellFormed() && img'.Isolated() && SameTranslation(img, img') && Overlaid(img, g, done, img') &&
    RestKept(img, img')
  }

  /** One cluster write, in the terms of the sector loop. */
  lemma WriteStep(img: Image, g: nat, done: seq<byte>, mid: Image, what: seq<byte>, img': Image)
    requires WriteSoFar(img, g, done, mid)
    requires var o := g + |done|;
      0 < mid.clusterSize && o / mid.clusterSize < mid.Covered() && mid.DataOf(o / mid.clusterSize) != 0 && mid.WellFormed() &&
      ClusterWritten(mid, o / mid.clusterSize, o % mid.clusterSize, what, img')
    ensures WriteSoFar(img, g, done + what, img')
  {
    hide Image.DataOf, Image.EntryOf, Image.L2OffsetOf, Image.Byte, Image.WellFormed, Image.Isolated, ClusterWritten,
      Overlaid, RestKept;
    BasicFacts(mid, g);
    var o := g + |done|;
    var n, at := o / mid.clusterSize, o % mid.clusterSize;
    WrittenWellFormed(mid, n, at, what, img');
    SameShape(mid, n, at, what, img');
    WrittenOverlaid(mid, o, what, img');
    OverlaidTwice(img, g, done, mid, what, img');
    SameTranslationTwice(img, mid, img');
    WrittenRestKept(mid, n, at, what, img');
    RestKeptTwice(img, mid, img');
  }

  lemma WriteNothing(img: Image, g: nat)
    requires img.WellFormed() && img.Isolated()
    ensures WriteSoFar(img, g, [], img)
  {
  }

  lemma WriteFacts(img: Image, g: nat, done: seq<byte>, img': Image)
    requires WriteSoFar(img, g, done, img')
    ensures img.WellFormed() && img'.WellFormed() && img'.Isolated() && SameTranslation(img, img') && img' == img.(data := img'.data)
    ensures Overlaid(img, g, done, img') && RestKept(img, img')
  {
  }
}
