/**
  The page runs of demu.c: which pages of the guest a range maps, and that releasing
  the pointer it returned releases exactly those.
 */
module GuestPages {
  import opened Basics

  const PAGE := 4096
  /** XEN_GRANT_ADDR_OFF */
  const GRANT_BIT := 0x8000_0000_0000_0000

  /** Unary minus on a u64, and the mask that clears the offset in the page. */
  function Neg(x: nat): nat {
    (U64_RANGE - x) % U64_RANGE
  }

  function PageBase(x: nat): (b: nat)
    ensures b <= x
  {
    x - x % PAGE
  }

  /** P2ROUNDUP to a page */
  function P2RoundUp(x: nat): nat {
    Neg(PageBase(Neg(x)))
  }

  /** The macro rounds up exactly on what is not within a page of 2^64; on the rest it is 0. */
  lemma RoundsUp(x: nat)
    requires 0 < x < U64_RANGE
    ensures P2RoundUp(x) == (x + PAGE - 1) / PAGE * PAGE <==> x + PAGE <= U64_RANGE
    ensures U64_RANGE < x + PAGE ==> P2RoundUp(x) == 0
  {
  }

  /** Pages a range takes from its offset in the first one, as the unsigned int `n`. */
  function PageCount(ptr: nat, size: nat): nat {
    P2RoundUp((size + ptr % PAGE) % U64_RANGE) / PAGE % U32_RANGE
  }

  /** A range whose end, rounded up, is no larger than 2^32 pages away. */
  predicate Fits(addr: nat, size: nat) {
    addr % PAGE + size + PAGE <= U32_RANGE * PAGE && addr + size <= U64_RANGE
  }

  lemma PageCountIs(addr: nat, size: nat)
    requires 0 < size && Fits(addr, size)
    ensures PageCount(addr, size) == (size + addr % PAGE - 1) / PAGE + 1
  {
    hide P2RoundUp;
    var x := size + addr % PAGE;
    RoundsUp(x);
    assert PageCount(addr, size) == P2RoundUp(x) / PAGE % U32_RANGE;
    var last := (x - 1) / PAGE;
    DivUnique(x + PAGE - 1, last + 1, (x - 1) % PAGE, PAGE);
    DivUnique((last + 1) * PAGE, last + 1, 0, PAGE);
    assert last + 1 < U32_RANGE;
  }

  /** The run is the least one that covers the range: it starts and ends in the pages the range does. */
  lemma LeastRun(addr: nat, size: nat)
    requires 0 < size && Fits(addr, size)
    ensures 0 < PageCount(addr, size) && addr / PAGE + PageCount(addr, size) - 1 == (addr + size - 1) / PAGE
  {
    hide PageCount;
    PageCountIs(addr, size);
    var x, p := size + addr % PAGE, addr / PAGE;
    var last := (x - 1) / PAGE;
    assert addr + size - 1 == (p + last) * PAGE + (x - 1) % PAGE;
    DivUnique(addr + size - 1, p + last, (x - 1) % PAGE, PAGE);
  }

  /** The pointer keeps the offset in the page, so the count comes out the same from it. */
  lemma SameRun(addr: nat, size: nat, base: nat)
    requires base % PAGE == 0
    ensures PageBase(base + addr % PAGE) == base && PageCount(base + addr % PAGE, size) == PageCount(addr, size)
  {
  }

  /** A range of guest memory a descriptor names. */
  datatype Range = Range(addr: nat, size: nat)

  /** Where the ranges end up: the runs mapped for the first `n` of them. */
  ghost function Runs(ranges: seq<Range>, bases: seq<nat>, n: nat): multiset<(nat, nat)>
    requires n <= |ranges| && n <= |bases|
  {
    if n == 0 then multiset{}
    else Runs(ranges, bases, n - 1) + multiset{(bases[n - 1], PageCount(ranges[n - 1].addr, ranges[n - 1].size))}
  }

  lemma RunsNone(ranges: seq<Range>, bases: seq<nat>)
    ensures Runs(ranges, bases, 0) == multiset{}
  {
  }

  lemma RunsNext(ranges: seq<Range>, bases: seq<nat>, i: nat)
    requires i < |ranges| && i < |bases|
    ensures Runs(ranges, bases, i + 1) == Runs(ranges, bases, i) + multiset{(bases[i], PageCount(ranges[i].addr, ranges[i].size))}
  {
  }

  /** `m` without those runs, one at a time. */
  ghost function Left(m: multiset<(nat, nat)>, ranges: seq<Range>, bases: seq<nat>, n: nat): multiset<(nat, nat)>
    requires n <= |ranges| && n <= |bases|
  {
    if n == 0 then m
    else Left(m, ranges, bases, n - 1) - multiset{(bases[n - 1], PageCount(ranges[n - 1].addr, ranges[n - 1].size))}
  }

  lemma LeftNone(m: multiset<(nat, nat)>, ranges: seq<Range>, bases: seq<nat>)
    ensures Left(m, ranges, bases, 0) == m
  {
  }

  lemma LeftNext(m: multiset<(nat, nat)>, ranges: seq<Range>, bases: seq<nat>, i: nat)
    requires i < |ranges| && i < |bases|
    ensures Left(m, ranges, bases, i + 1) == Left(m, ranges, bases, i) - multiset{(bases[i], PageCount(ranges[i].addr, ranges[i].size))}
  {
  }

  lemma {:induction false} LeftIs(m: multiset<(nat, nat)>, ranges: seq<Range>, bases: seq<nat>, n: nat)
    requires n <= |ranges| && n <= |bases|
    ensures Left(m, ranges, bases, n) == m - Runs(ranges, bases, n)
  {
    hide PageCount;
    if n != 0 {
      LeftIs(m, ranges, bases, n - 1);
      MinusBoth(m, Runs(ranges, bases, n - 1), (bases[n - 1], PageCount(ranges[n - 1].addr, ranges[n - 1].size)));
    }
  }

  lemma MinusBoth<T>(a: multiset<T>, b: multiset<T>, x: T)
    ensures a - b - multiset{x} == a - (b + multiset{x})
  {
  }

  /** What the walk leaves mapped of an indirect table. */
  ghost function TableLeft(indirect: bool, table: Range, base: nat): multiset<(nat, nat)> {
    if indirect && table.size == 0 then multiset{(base, PageCount(table.addr, 0))} else multiset{}
  }

  /** That is an empty run unless the table starts inside a page, and then it is that page. */
  lemma TableLeftIs(table: Range)
    requires table.size == 0
    ensures PageCount(table.addr, 0) == if table.addr % PAGE == 0 then 0 else 1
  {
  }

  lemma LeftOver(indirect: bool, table: Range, base: nat)
    ensures !indirect || table.size != 0 ==> TableLeft(indirect, table, base) == multiset{}
    ensures indirect && table.size == 0 ==> TableLeft(indirect, table, base) == multiset{(base, if table.addr % 4096 == 0 then 0 else 1)}
  {
    if table.size == 0 {
      TableLeftIs(table);
    }
  }

  lemma TakeBack<T>(a: multiset<T>, b: multiset<T>, c: multiset<T>)
    ensures a + b + c - b == a + c
  {
  }

  lemma WalkEnds(was: multiset<(nat, nat)>, indirect: bool, table: Range, base: nat, runs: multiset<(nat, nat)>)
    ensures var run, all := multiset{(base, PageCount(table.addr, table.size))}, was + runs + TableLeft(indirect, table, base);
      if !indirect then was + runs == all else if table.size != 0 then was + run + runs - run == all else was + run + runs == all
  {
    hide PageCount;
  }

  class GuestMemory {
    /** Negative until the first range tells which kind of mapping the guest uses. */
    var useGnttab: int
    /** Mapped runs: host base and number of pages. */
    var mapped: multiset<(nat, nat)>

    constructor ()
      ensures useGnttab < 0 && mapped == multiset{}
    {
      useGnttab := -1;
      mapped := multiset{};
    }

    /** The kind of a range agrees with what the first range said. */
    predicate Agrees(addr: nat)
      reads this
    {
      useGnttab < 0 || (0 < useGnttab <==> addr / GRANT_BIT % 2 == 1)
    }

    /**
      demu_map_guest_range; `base` is where the pages of the run get mapped. The frames
      (or 32-bit grant references) are consecutive from the one that holds `addr`.
     */
    method MapGuestRange(addr: nat, size: nat, base: nat) returns (ptr: nat, frames: array<nat>)
      requires addr < U64_RANGE && base % PAGE == 0 && Agrees(addr)
      modifies this
      ensures ptr == base + addr % PAGE && frames.Length == PageCount(addr, size)
      ensures 0 < size && Fits(addr, size) ==> frames.Length == (addr + size - 1) / 4096 - addr / 4096 + 1
      ensures addr < GRANT_BIT ==> forall i :: 0 <= i < frames.Length ==> frames[i] == addr / PAGE + i
      ensures GRANT_BIT <= addr ==> forall i :: 0 <= i < frames.Length ==> frames[i] == ((addr - GRANT_BIT) / PAGE + i) % U32_RANGE
      ensures mapped == old(mapped) + multiset{(base, PageCount(addr, size))} && Agrees(addr)
      ensures old(useGnttab) < 0 || useGnttab == old(useGnttab)
    {
      if 0 < size && Fits(addr, size) {
        LeastRun(addr, size);
      }
      var length := (size + addr % PAGE) % U64_RANGE;
      length := P2RoundUp(length);
      var n := length / PAGE % U32_RANGE;
      if useGnttab < 0 {
        useGnttab := addr / GRANT_BIT % 2;
      }
      frames := new nat[n];
      var i := 0;
      if useGnttab > 0 {
        while i < n
          invariant i <= n
          modifies frames
          invariant forall k :: 0 <= k < i ==> frames[k] == ((addr - GRANT_BIT) / PAGE + k) % U32_RANGE
        {
          frames[i] := (addr % GRANT_BIT / PAGE + i) % U32_RANGE;
          i := i + 1;
        }
      } else {
        while i < n
          invariant i <= n
          modifies frames
          invariant forall k :: 0 <= k < i ==> frames[k] == addr / PAGE + k
        {
          frames[i] := addr / PAGE + i;
          i := i + 1;
        }
      }
      mapped := mapped + multiset{(base, n)};
      ptr := base + addr % PAGE;
    }

    /** demu_unmap_guest_range */
    method UnmapGuestRange(ptr: nat, size: nat)
      modifies this`mapped
      ensures mapped == old(mapped) - multiset{(PageBase(ptr), PageCount(ptr, size))}
      ensures 0 < size && Fits(ptr, size) ==>
        mapped == old(mapped) - multiset{(ptr / 4096 * 4096, (ptr + size - 1) / 4096 - ptr / 4096 + 1)}
    {
      if 0 < size && Fits(ptr, size) {
        LeastRun(ptr, size);
      }
      var length := (size + ptr % PAGE) % U64_RANGE;
      length := P2RoundUp(length);
      var n := length / PAGE % U32_RANGE;
      mapped := mapped - multiset{(ptr - ptr % PAGE, n)};
    }

    /** What the walk of a chain maps: one run for each descriptor. */
    method MapChain(ranges: seq<Range>, bases: seq<nat>) returns (ptrs: seq<nat>)
      requires |bases| == |ranges| && forall k :: 0 <= k < |ranges| ==> ranges[k].addr < U64_RANGE && bases[k] % PAGE == 0
      requires forall k :: 0 <= k < |ranges| ==> (ranges[k].addr < GRANT_BIT <==> ranges[0].addr < GRANT_BIT) && Agrees(ranges[k].addr)
      modifies this
      ensures |ptrs| == |ranges| && forall k :: 0 <= k < |ranges| ==> ptrs[k] == bases[k] + ranges[k].addr % PAGE
      ensures mapped == old(mapped) + Runs(ranges, bases, |ranges|)
    {
      hide PageCount, PageBase, Runs;
      RunsNone(ranges, bases);
      ptrs := [];
      var i := 0;
      while i < |ranges|
        invariant i == |ptrs| <= |ranges| && forall k :: 0 <= k < i ==> ptrs[k] == bases[k] + ranges[k].addr % PAGE
        invariant mapped == old(mapped) + Runs(ranges, bases, i)
        invariant forall k :: 0 <= k < |ranges| ==> Agrees(ranges[k].addr)
      {
        RunsNext(ranges, bases, i);
        var ptr, frames := MapGuestRange(ranges[i].addr, ranges[i].size, bases[i]);
        ptrs := ptrs + [ptr];
        i := i + 1;
      }
    }

    /** What the completion of the request unmaps, from the iovecs alone. */
    method UnmapChain(ptrs: seq<nat>, ranges: seq<Range>, ghost bases: seq<nat>)
      requires |ptrs| == |ranges| == |bases|
      requires forall k :: 0 <= k < |ranges| ==> bases[k] % PAGE == 0 && ptrs[k] == bases[k] + ranges[k].addr % PAGE
      modifies this`mapped
      ensures mapped == Left(old(mapped), ranges, bases, |ranges|)
    {
      hide PageCount, PageBase, Runs, Left;
      LeftNone(mapped, ranges, bases);
      var i := 0;
      while i < |ptrs|
        invariant i <= |ptrs| && mapped == Left(old(mapped), ranges, bases, i)
      {
        SameRun(ranges[i].addr, ranges[i].size, bases[i]);
        LeftNext(old(mapped), ranges, bases, i);
        UnmapGuestRange(ptrs[i], ranges[i].size);
        i := i + 1;
      }
    }

    /**
      The mappings of virt_queue__get_head_iov: an indirect table is mapped while the
      chain is walked, and unmapped after it if it has a length.
     */
    method WalkChain(indirect: bool, table: Range, tableBase: nat, ranges: seq<Range>, bases: seq<nat>) returns (ptrs: seq<nat>)
      requires |bases| == |ranges| && forall k :: 0 <= k < |ranges| ==> ranges[k].addr < U64_RANGE && bases[k] % PAGE == 0
      requires table.addr < U64_RANGE && tableBase % PAGE == 0 && (indirect ==> Agrees(table.addr))
      requires forall k :: 0 <= k < |ranges| ==> (ranges[k].addr < GRANT_BIT <==> ranges[0].addr < GRANT_BIT) && Agrees(ranges[k].addr)
      requires indirect && ranges != [] ==> (table.addr < GRANT_BIT <==> ranges[0].addr < GRANT_BIT)
      modifies this
      ensures |ptrs| == |ranges| && forall k :: 0 <= k < |ranges| ==> ptrs[k] == bases[k] + ranges[k].addr % PAGE
      ensures mapped == old(mapped) + Runs(ranges, bases, |ranges|) + TableLeft(indirect, table, tableBase)
    {
      hide PageCount, PageBase, Runs, TableLeft;
      ghost var was := mapped;
      var desc := 0;
      if indirect {
        var frames;
        desc, frames := MapGuestRange(table.addr, table.size, tableBase);
      }
      ptrs := MapChain(ranges, bases);
      UnmapTable(indirect, table, desc, was, tableBase, Runs(ranges, bases, |ranges|));
    }

    /** The end of the walk: the table is unmapped if it was mapped and has a length. */
    method UnmapTable(indirect: bool, table: Range, desc: nat, ghost was: multiset<(nat, nat)>, ghost base: nat, ghost runs: multiset<(nat, nat)>)
      requires indirect ==> base % PAGE == 0 && desc == base + table.addr % PAGE
      requires mapped == (if indirect then was + multiset{(base, PageCount(table.addr, table.size))} else was) + runs
      modifies this`mapped
      ensures mapped == was + runs + TableLeft(indirect, table, base)
    {
      hide PageCount, PageBase, TableLeft;
      WalkEnds(was, indirect, table, base, runs);
      if indirect && table.size != 0 {
        SameRun(table.addr, table.size, base);
        UnmapGuestRange(desc, table.size);
      }
    }

    /**
      A request's walk and its completion leave the mappings as they were, but for the
      page of an indirect table of no length that starts inside one.
     */
    method WalkThenComplete(indirect: bool, table: Range, tableBase: nat, ranges: seq<Range>, bases: seq<nat>)
      requires |bases| == |ranges| && forall k :: 0 <= k < |ranges| ==> ranges[k].addr < U64_RANGE && bases[k] % PAGE == 0
      requires table.addr < U64_RANGE && tableBase % PAGE == 0 && (indirect ==> Agrees(table.addr))
      requires forall k :: 0 <= k < |ranges| ==> (ranges[k].addr < GRANT_BIT <==> ranges[0].addr < GRANT_BIT) && Agrees(ranges[k].addr)
      requires indirect && ranges != [] ==> (table.addr < GRANT_BIT <==> ranges[0].addr < GRANT_BIT)
      modifies this
      ensures mapped == old(mapped) + TableLeft(indirect, table, tableBase)
      ensures !indirect || table.size != 0 ==> mapped == old(mapped)
      ensures indirect && table.size == 0 ==> mapped == old(mapped) + multiset{(tableBase, if table.addr % 4096 == 0 then 0 else 1)}
    {
      LeftOver(indirect, table, tableBase);
      hide PageCount, PageBase, Runs, Left, TableLeft;
      ghost var was := mapped;
      var ptrs := WalkChain(indirect, table, tableBase, ranges, bases);
      LeftIs(mapped, ranges, bases, |ranges|);
      TakeBack(was, Runs(ranges, bases, |ranges|), TableLeft(indirect, table, tableBase));
      UnmapChain(ptrs, ranges, bases);
    }
  }
}
