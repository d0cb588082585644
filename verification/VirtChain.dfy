/**
  The walk of a descriptor chain in virtio/core.c, through the queue's own table or
  through an indirect one.
 */
module VirtChain {
  import opened Basics

  /** A descriptor with its three flags. */
  datatype Desc = Desc(addr: nat, len: nat, hasNext: bool, isWrite: bool, isIndirect: bool, next: nat)

  datatype Iov = Iov(base: nat, len: nat, writable: bool)

  /** sizeof(struct vring_desc) */
  const DESC_SIZE := 16

  /** A chain to walk: the table, how many of its descriptors may be used, and the first. */
  datatype Walk = Walk(table: seq<Desc>, max: nat, start: nat) {
    predicate Valid() {
      start < max <= |table| && max < U16_RANGE
    }

    /** next_desc: the index after `i`, `max` at the end. */
    function Next(i: nat): (n: nat)
      requires i < |table|
      ensures n <= max
    {
      if !table[i].hasNext then max else if table[i].next < max then table[i].next else max
    }

    /** The index after `k` steps, `max` once the chain has ended. */
    function Nth(k: nat): (n: nat)
      requires Valid()
      ensures n <= max
    {
      if k == 0 then start else if Nth(k - 1) == max then max else Next(Nth(k - 1))
    }

    /** No descriptor comes twice. */
    ghost predicate Acyclic()
      requires Valid()
    {
      forall j, k :: 0 <= j < k && Nth(j) == Nth(k) ==> Nth(j) == max
    }

    /** The chain is the descriptors at c[0], c[1], .. and ends there. */
    predicate IsChain(c: seq<nat>)
      requires Valid()
    {
      c != [] && c[0] == start && (forall k :: 0 <= k < |c| ==> c[k] < max) &&
      (forall k :: 0 <= k < |c| - 1 ==> Next(c[k]) == c[k + 1]) && Next(c[|c| - 1]) == max
    }
  }

  /** Where virt_queue__get_head_iov starts: an indirect head leads to its own table. */
  function WalkFrom(desc: seq<Desc>, num: nat, indirect: map<nat, seq<Desc>>, head: nat): Walk
    requires head < |desc|
  {
    if !desc[head].isIndirect then Walk(desc, num, head)
    else if desc[head].addr in indirect then Walk(indirect[desc[head].addr], U16(desc[head].len / DESC_SIZE), 0)
    else Walk([], U16(desc[head].len / DESC_SIZE), 0)
  }

  /** How many of the first `n` descriptors of a chain the device writes. */
  function Writable(w: Walk, c: seq<nat>, n: nat): (m: nat)
    requires n <= |c| && forall k :: 0 <= k < |c| ==> c[k] < |w.table|
    ensures m <= n
  {
    if n == 0 then 0 else Writable(w, c, n - 1) + if w.table[c[n - 1]].isWrite then 1 else 0
  }

  /**
    A chain on the descriptors themselves: every one but the last has the NEXT flag and
    names the one after it, and the last has no flag or names none that may be used.
   */
  lemma ChainOnDescriptors(w: Walk, c: seq<nat>)
    requires w.Valid()
    ensures w.IsChain(c) <==>
      c != [] && c[0] == w.start && (forall k :: 0 <= k < |c| ==> c[k] < w.max) &&
      (forall k :: 0 <= k < |c| - 1 ==> w.table[c[k]].hasNext && w.table[c[k]].next == c[k + 1]) &&
      (w.table[c[|c| - 1]].hasNext ==> w.max <= w.table[c[|c| - 1]].next)
  {
    if w.IsChain(c) {
      forall k | 0 <= k < |c| - 1 ensures w.table[c[k]].hasNext && w.table[c[k]].next == c[k + 1] {
        assert w.Next(c[k]) == c[k + 1] < w.max;
      }
    }
  }

  /** `Writable` counts those with the WRITE flag. */
  lemma {:induction false} WritableCounts(w: Walk, c: seq<nat>, n: nat)
    requires n <= |c| && forall k :: 0 <= k < |c| ==> c[k] < |w.table|
    ensures Writable(w, c, n) == |set k | 0 <= k < n && w.table[c[k]].isWrite|
  {
    if n != 0 {
      WritableCounts(w, c, n - 1);
      var a, b := set k | 0 <= k < n - 1 && w.table[c[k]].isWrite, set k | 0 <= k < n && w.table[c[k]].isWrite;
      assert b == if w.table[c[n - 1]].isWrite then a + {n - 1} else a;
    }
  }

  /** The loop of virt_queue__get_head_iov: one iovec per descriptor, in chain order, with both kinds counted. */
  method WalkChain(table: seq<Desc>, max: nat, start: nat, iov: array<Iov>, ghost c: seq<nat>) returns (out: nat, in_: nat)
    requires Walk(table, max, start).Valid() && Walk(table, max, start).IsChain(c) && |c| <= iov.Length
    modifies iov
    ensures forall k :: 0 <= k < |c| ==>
      c[k] < |table| && iov[k].base == table[c[k]].addr && iov[k].len == table[c[k]].len && iov[k].writable == table[c[k]].isWrite
    ensures out + in_ == |c| && in_ == Writable(Walk(table, max, start), c, |c|)
    ensures forall k :: |c| <= k < iov.Length ==> iov[k] == old(iov[k])
  {
    var idx := start;
    out, in_ := 0, 0;
    ghost var w := Walk(table, max, start);
    while true
      invariant out + in_ < |c| && idx == c[out + in_] && in_ == Writable(w, c, out + in_)
      invariant forall k :: 0 <= k < out + in_ ==> iov[k] == Iov(table[c[k]].addr, table[c[k]].len, table[c[k]].isWrite)
      invariant forall k :: out + in_ <= k < iov.Length ==> iov[k] == old(iov[k])
      decreases |c| - (out + in_)
    {
      iov[out + in_] := Iov(table[idx].addr, table[idx].len, table[idx].isWrite);
      if table[idx].isWrite {
        in_ := in_ + 1;
      } else {
        out := out + 1;
      }
      assert w.Next(c[out + in_ - 1]) == if out + in_ < |c| then c[out + in_] else max;
      idx := if !table[idx].hasNext then max else if table[idx].next < max then table[idx].next else max;
      if idx == max {
        break;
      }
    }
  }

  /**
    virt_queue__get_head_iov. A direct chain starts at `head` in the queue's own table
    of `num`, an indirect one at 0 in the table its head names.
   */
  method GetHeadIov(desc: seq<Desc>, num: nat, indirect: map<nat, seq<Desc>>, head: nat, iov: array<Iov>, ghost c: seq<nat>)
    returns (r: nat, out: nat, in_: nat)
    requires head < |desc| && WalkFrom(desc, num, indirect, head).Valid()
    requires WalkFrom(desc, num, indirect, head).IsChain(c) && |c| <= iov.Length
    modifies iov
    ensures desc[head].isIndirect ==> desc[head].addr in indirect
    ensures var inner := desc[head].isIndirect;
      var table, max := if inner then indirect[desc[head].addr] else desc, if inner then desc[head].len / 16 % 0x1_0000 else num;
      max <= |table| && c != [] && c[0] == (if inner then 0 else head) && (forall k :: 0 <= k < |c| ==> c[k] < max) &&
      (forall k :: 0 <= k < |c| - 1 ==> table[c[k]].hasNext && table[c[k]].next == c[k + 1]) &&
      (table[c[|c| - 1]].hasNext ==> max <= table[c[|c| - 1]].next) &&
      (forall k :: 0 <= k < |c| ==>
         iov[k].base == table[c[k]].addr && iov[k].len == table[c[k]].len && iov[k].writable == table[c[k]].isWrite) &&
      in_ == |set k | 0 <= k < |c| && table[c[k]].isWrite|
    ensures r == head && out + in_ == |c| && forall k :: |c| <= k < iov.Length ==> iov[k] == old(iov[k])
  {
    hide Walk.IsChain, Writable;
    var idx, max, table := head, num, desc;
    if desc[head].isIndirect {
      max := U16(desc[head].len / DESC_SIZE);
      table := indirect[desc[head].addr];
      idx := 0;
    }
    ghost var w := WalkFrom(desc, num, indirect, head);
    out, in_ := WalkChain(table, max, idx, iov, c);
    ChainOnDescriptors(w, c);
    WritableCounts(w, c, |c|);
    return head, out, in_;
  }

  lemma {:induction false} NthAfter(w: Walk, j: nat, k: nat, m: nat)
    requires w.Valid() && w.Nth(j) == w.Nth(k)
    ensures w.Nth(j + m) == w.Nth(k + m)
  {
    if m != 0 {
      NthAfter(w, j, k, m - 1);
    }
  }

  lemma {:induction false} EndedStays(w: Walk, j: nat, k: nat)
    requires w.Valid() && j <= k && w.Nth(j) == w.max
    ensures w.Nth(k) == w.max
  {
    if j < k {
      EndedStays(w, j, k - 1);
    }
  }

  lemma {:induction false} ChainIsNth(w: Walk, c: seq<nat>, k: nat)
    requires w.Valid() && w.IsChain(c)
    ensures w.Nth(k) == if k < |c| then c[k] else w.max
  {
    if k != 0 {
      ChainIsNth(w, c, k - 1);
    }
  }

  /** A walk that comes back to a descriptor never ends. */
  lemma {:induction false} CycleForever(w: Walk, j: nat, k: nat, m: nat)
    requires w.Valid() && j < k && w.Nth(j) == w.Nth(k) != w.max
    ensures w.Nth(m) != w.max
    decreases m
  {
    if m <= k {
      if w.Nth(m) == w.max {
        EndedStays(w, m, k);
      }
    } else {
      CycleForever(w, j, k, m - (k - j));
      NthAfter(w, j, k, m - k);
    }
  }

  /** The loop ends exactly on the acyclic chains. */
  lemma EndsIffAcyclic(w: Walk)
    requires w.Valid()
    ensures (exists c :: w.IsChain(c)) <==> w.Acyclic()
  {
    if c :| w.IsChain(c) {
      forall j, k | 0 <= j < k && w.Nth(j) == w.Nth(k) ensures w.Nth(j) == w.max {
        ChainIsNth(w, c, |c|);
        if w.Nth(j) != w.max {
          CycleForever(w, j, k, |c|);
        }
      }
    }
    if w.Acyclic() {
      var c := Follow(w, w.max);
    }
  }

  /** The first descriptors of an acyclic walk, to its end. */
  lemma Follow(w: Walk, n: nat) returns (c: seq<nat>)
    requires w.Valid() && w.Acyclic()
    ensures w.IsChain(c)
  {
    var e := FirstEnd(w);
    c := seq(e, k requires 0 <= k < e => w.Nth(k));
    assert w.Next(c[e - 1]) == w.Nth(e);
    forall k | 0 <= k < e - 1 ensures w.Next(c[k]) == c[k + 1] {
    }
  }

  lemma FirstEnd(w: Walk) returns (e: nat)
    requires w.Valid() && w.Acyclic()
    ensures 0 < e && w.Nth(e) == w.max && forall k :: 0 <= k < e ==> w.Nth(k) != w.max
  {
    e := 1;
    while w.Nth(e) != w.max
      invariant 1 <= e <= w.max && forall k :: 0 <= k < e ==> w.Nth(k) != w.max
      decreases w.max - e
    {
      var s: seq<nat> := seq(e + 1, k requires 0 <= k <= e => w.Nth(k));
      Pigeonhole(s, w.max);
      e := e + 1;
    }
  }

  /** No chain has more descriptors than the table, so a direct one always fits as many iovecs. */
  lemma ChainFits(w: Walk, c: seq<nat>)
    requires w.Valid() && w.IsChain(c)
    ensures |c| <= w.max && forall i, j :: 0 <= i < j < |c| ==> c[i] != c[j]
  {
    EndsIffAcyclic(w);
    forall i, j | 0 <= i < j < |c| ensures c[i] != c[j] {
      ChainIsNth(w, c, i);
      ChainIsNth(w, c, j);
    }
    Pigeonhole(c, w.max);
  }

  /** And there is only one. */
  lemma ChainUnique(w: Walk, c: seq<nat>, d: seq<nat>)
    requires w.Valid() && w.IsChain(c) && w.IsChain(d)
    ensures c == d
  {
    ChainIsNth(w, c, |c|);
    ChainIsNth(w, c, |d|);
    ChainIsNth(w, d, |c|);
    ChainIsNth(w, d, |d|);
    forall k | 0 <= k < |c| && k < |d| ensures c[k] == d[k] {
      ChainIsNth(w, c, k);
      ChainIsNth(w, d, k);
    }
  }
}
