/**
  Full transfers of util/read-write.c over short ones: pread_in_full,
  pwrite_in_full and their scatter/gather forms, for every way the kernel may cut
  a transfer short.
 */
module ReadWrite {
  import opened Basics

  type byte = x: int | 0 <= x < 256

  /** An open file: its bytes, and whether transfers inside it can fail. */
  class File {
    var data: seq<byte>
    const healthy: bool

    constructor (data: seq<byte>, healthy: bool)
      ensures this.data == data && this.healthy == healthy
    {
      this.data := data;
      this.healthy := healthy;
    }
  }

  /** `b` holds `what` at `pos`, and is otherwise as `was`. */
  ghost predicate Patched<T>(was: seq<T>, pos: nat, what: seq<T>, b: seq<T>) {
    pos + |what| <= |was| && b == was[..pos] + what + was[pos + |what|..]
  }

  lemma PatchedTwice<T>(was: seq<T>, pos: nat, a: seq<T>, mid: seq<T>, c: seq<T>, b: seq<T>)
    requires Patched(was, pos, a, mid) && Patched(mid, pos + |a|, c, b)
    ensures Patched(was, pos, a + c, b)
  {
  }

  /**
    What writing `what` at `pos` makes of a file: a write past the end extends it, with
    zeros in between, and an empty one leaves it alone.
   */
  ghost predicate Written(was: seq<byte>, pos: nat, what: seq<byte>, b: seq<byte>) {
    if what == [] then b == was
    else
      |b| == Max(|was|, pos + |what|) &&
      forall i :: 0 <= i < |b| ==>
        b[i] == if pos <= i < pos + |what| then what[i - pos] else if i < |was| then was[i] else 0
  }

  /** Inside the file the length stays. */
  lemma WrittenInside(was: seq<byte>, pos: nat, what: seq<byte>, b: seq<byte>)
    requires pos + |what| <= |was|
    ensures Written(was, pos, what, b) <==> Patched(was, pos, what, b)
  {
    var p := was[..pos] + what + was[pos + |what|..];
    if Written(was, pos, what, b) {
      assert |b| == |p| && forall i :: 0 <= i < |b| ==> b[i] == p[i];
    }
  }

  lemma WrittenTwice(was: seq<byte>, pos: nat, a: seq<byte>, mid: seq<byte>, c: seq<byte>, b: seq<byte>)
    requires Written(was, pos, a, mid) && Written(mid, pos + |a|, c, b)
    ensures Written(was, pos, a + c, b)
  {
    if a == [] {
      assert a + c == c;
    } else if c == [] {
      assert a + c == a;
    }
  }

  /** `n` elements from `start`; nothing at all when `n` is 0, wherever `start` is. */
  ghost function Part<T>(s: seq<T>, start: nat, n: nat): (p: seq<T>)
    requires n == 0 || start + n <= |s|
    ensures |p| == n
  {
    if n == 0 then [] else s[start..start + n]
  }

  lemma PartAppend<T>(s: seq<T>, start: nat, n: nat, m: nat)
    requires start + n + m <= |s|
    ensures Part(s, start, n) + Part(s, start + n, m) == Part(s, start, n + m)
  {
  }

  // ---------------------------------------------------------------------
  // Single buffers
  // ---------------------------------------------------------------------

  /**
    xpread: an error, end of file, or some prefix of the request, at the kernel's
    choice.
   */
  method Xpread(f: File, buf: array<byte>, pos: nat, count: nat, offset: nat) returns (nr: int)
    requires pos + count <= buf.Length
    modifies buf
    ensures -1 <= nr <= count && (nr == -1 ==> !f.healthy)
    ensures nr > 0 ==> offset + nr <= |f.data|
    ensures nr == 0 ==> count == 0 || |f.data| <= offset
    ensures Patched(old(buf[..]), pos, Part(f.data, offset, if nr < 0 then 0 else nr), buf[..])
  {
    var fault: bool := *;
    if !f.healthy && fault {
      return -1;
    }
    if count == 0 || |f.data| <= offset {
      return 0;
    }
    nr :| 1 <= nr <= count && offset + nr <= |f.data|;
    ghost var was := buf[..];
    forall i | pos <= i < pos + nr {
      buf[i] := f.data[offset + (i - pos)];
    }
    assert buf[..] == was[..pos] + f.data[offset..offset + nr] + was[pos + nr..];
  }

  /**
    pread_in_full. The buffer receives exactly the bytes counted by the result;
    -1 means none. On a healthy file it stops short only at end of file.
   */
  method PreadInFull(f: File, buf: array<byte>, pos: nat, count0: nat, offset0: nat) returns (total: int)
    requires pos + count0 <= buf.Length
    modifies buf
    ensures -1 <= total <= count0 && (total == 0 ==> count0 == 0)
    ensures total > 0 ==> offset0 + total <= |f.data|
    ensures Patched(old(buf[..]), pos, Part(f.data, offset0, if total < 0 then 0 else total), buf[..])
    ensures f.healthy && 0 <= total < count0 ==> total == |f.data| - offset0
    ensures f.healthy && total == -1 ==> |f.data| <= offset0 && 0 < count0
  {
    hide Patched, Part;
    var count, offset, p := count0, offset0, pos;
    total := 0;
    ghost var was := buf[..];
    PatchedNone(was, f.data, pos, offset);
    while count > 0
      invariant 0 <= total <= count0 && count == count0 - total && offset == offset0 + total && p == pos + total
      invariant total > 0 ==> offset <= |f.data|
      invariant Patched(was, pos, Part(f.data, offset0, total), buf[..])
      decreases count
    {
      ghost var mid := buf[..];
      var nr := Xpread(f, buf, p, count, offset);
      if nr <= 0 {
        PatchedSame(mid, f.data, p, offset, buf[..]);
        if total > 0 {
          return total;
        }
        return -1;
      }
      PatchedTwice(was, pos, Part(f.data, offset0, total), mid, Part(f.data, offset, nr), buf[..]);
      PartAppend(f.data, offset0, total, nr);
      count := count - nr;
      total := total + nr;
      p := p + nr;
      offset := offset + nr;
    }
  }

  lemma PatchedNone<T>(was: seq<T>, data: seq<T>, pos: nat, offset: nat)
    requires pos <= |was|
    ensures Patched(was, pos, Part(data, offset, 0), was)
  {
  }

  lemma PatchedSame<T>(was: seq<T>, data: seq<T>, pos: nat, offset: nat, b: seq<T>)
    requires Patched(was, pos, Part(data, offset, 0), b)
    ensures b == was
  {
  }

  /** xpwrite: an error, no space, or some prefix written. */
  method Xpwrite(f: File, buf: seq<byte>, offset: nat) returns (nr: int)
    modifies f
    ensures nr == -1 || 0 <= nr <= |buf|
    ensures nr <= 0 ==> f.data == old(f.data)
    ensures nr <= 0 && buf != [] ==> !f.healthy
    ensures nr > 0 ==> Written(old(f.data), offset, buf[..nr], f.data)
  {
    var fault: bool := *;
    if !f.healthy && fault {
      nr :| -1 <= nr <= 0;
      return;
    }
    if buf == [] {
      return 0;
    }
    nr :| 1 <= nr <= |buf|;
    var zeros := seq<byte>(Max(0, offset + nr - |f.data|), _ => 0);
    var data := f.data + zeros;
    f.data := data[..offset] + buf[..nr] + data[offset + nr..];
  }

  /** pwrite_in_full: all of the buffer is written, or -1 after a prefix of it. */
  method PwriteInFull(f: File, buf: seq<byte>, offset0: nat) returns (total: int)
    modifies f
    ensures total == -1 || total == |buf|
    ensures total == -1 ==> !f.healthy && exists k :: 0 <= k < |buf| && Written(old(f.data), offset0, buf[..k], f.data)
    ensures total == |buf| ==> Written(old(f.data), offset0, buf, f.data)
  {
    hide Written;
    total := 0;
    ghost var was := f.data;
    WrittenNone(was, offset0, buf);
    while total < |buf|
      invariant 0 <= total <= |buf|
      invariant Written(was, offset0, buf[..total], f.data)
      decreases |buf| - total
    {
      ghost var mid := f.data;
      var nr := Xpwrite(f, buf[total..], offset0 + total);
      if nr <= 0 {
        return -1;
      }
      WrittenTwice(was, offset0, buf[..total], mid, buf[total..][..nr], f.data);
      assert buf[..total + nr] == buf[..total] + buf[total..][..nr];
      total := total + nr;
    }
    assert buf[..total] == buf;
  }

  lemma WrittenNone(was: seq<byte>, pos: nat, buf: seq<byte>)
    ensures Written(was, pos, buf[..0], was)
  {
  }

  // ---------------------------------------------------------------------
  // Scatter/gather: the iovecs are consecutive pieces, of the given lengths, of
  // one flat buffer
  // ---------------------------------------------------------------------

  /** get_iov_size of the first `n` iovecs. */
  function Sum(lens: seq<nat>, n: nat): (total: nat)
    requires n <= |lens|
  {
    if n == 0 then 0 else Sum(lens, n - 1) + lens[n - 1]
  }

  lemma {:induction false} SumMonotone(lens: seq<nat>, i: nat, j: nat)
    requires i <= j <= |lens|
    ensures Sum(lens, i) <= Sum(lens, j)
    decreases j
  {
    if i < j {
      SumMonotone(lens, i, j - 1);
    }
  }

  lemma SumNext(lens: seq<nat>, i: nat)
    requires i < |lens|
    ensures Sum(lens, i + 1) == Sum(lens, i) + lens[i]
  {
  }

  lemma SumZero(lens: seq<nat>)
    ensures Sum(lens, 0) == 0
  {
  }

  method GetIovSize(lens: seq<nat>, n: nat) returns (size: nat)
    requires n <= |lens|
    ensures size == Sum(lens, n)
  {
    size := 0;
    var i := 0;
    while i < n
      invariant 0 <= i <= n && size == Sum(lens, i)
    {
      size := size + lens[i];
      i := i + 1;
    }
  }

  /**
    shift_iovec after `nr0` more bytes: skip the iovecs they cover whole. The
    source stops only at an iovec longer than what is left, so one of positive
    length must follow the last.
   */
  method ShiftIovec(lens: seq<nat>, n: nat, k0: nat, nr0: nat, total0: nat, count0: nat) returns (k: nat, total: nat, count: nat)
    requires k0 <= n < |lens| && 0 < lens[n]
    requires Sum(lens, k0) + nr0 <= Sum(lens, n) && total0 == Sum(lens, k0) && count0 == Sum(lens, n) - total0
    ensures k0 <= k <= n
    ensures Sum(lens, k) <= Sum(lens, k0) + nr0 < Sum(lens, k) + lens[k]
    ensures total == Sum(lens, k) && count == Sum(lens, n) - total
  {
    var nr := nr0;
    k, total, count := k0, total0, count0;
    while nr >= lens[k]
      invariant k0 <= k <= n && Sum(lens, k) + nr == Sum(lens, k0) + nr0
      invariant total == Sum(lens, k) && count == Sum(lens, n) - total
      decreases n - k
    {
      nr, total, count := nr - lens[k], total + lens[k], count - lens[k];
      k := k + 1;
      if k <= n {
        assert Sum(lens, k) == Sum(lens, k - 1) + lens[k - 1];
        SumMonotone(lens, k, n);
      }
    }
  }

  /** One transfer of preadv_in_full, into the buffer from `total` on. */
  method ReadMore(f: File, buf: array<byte>, offset0: nat, total: nat, count: nat, ghost was: seq<byte>, ghost filled: nat)
    returns (nr: int, ghost m: nat)
    requires total <= filled <= buf.Length && count == buf.Length - total && (filled > 0 ==> offset0 + filled <= |f.data|)
    requires Patched(was, 0, Part(f.data, offset0, filled), buf[..])
    modifies buf
    ensures -1 <= nr <= count && filled <= m <= buf.Length && (m > 0 ==> offset0 + m <= |f.data|)
    ensures total + nr <= m
    ensures f.healthy && nr <= 0 && 0 < count ==> |f.data| <= offset0 + total
    ensures Patched(was, 0, Part(f.data, offset0, m), buf[..])
  {
    hide Patched, Part;
    ghost var mid := buf[..];
    nr := Xpread(f, buf, total, count, offset0 + total);
    PatchedLength(was, 0, Part(f.data, offset0, filled), mid);
    Rewritten(was, f.data, offset0, filled, mid, total, if nr < 0 then 0 else nr, buf[..]);
    m := if filled < total + nr then total + nr else filled;
  }

  lemma PatchedLength(was: seq<byte>, pos: nat, what: seq<byte>, b: seq<byte>)
    requires Patched(was, pos, what, b)
    ensures |b| == |was|
  {
  }

  /**
    preadv_in_full, for at most `rounds` system calls; `returned` says the source
    function has returned by then. A partly filled iovec is read again from its
    start, so the loop has no bound of its own. It returns what the iovecs completed
    come to, or -1 where that is nothing and there was something to read; on a healthy
    file it stops short only at the end of the file.
   */
  method PreadvInFull(f: File, buf: array<byte>, lens: seq<nat>, n: nat, offset0: nat, rounds: nat)
    returns (returned: bool, total: int, ghost k: nat, ghost filled: nat, ghost calls: nat)
    requires n < |lens| && 0 < lens[n] && buf.Length == Sum(lens, n)
    modifies buf
    ensures k <= n && Sum(lens, k) <= filled <= buf.Length && (filled > 0 ==> offset0 + filled <= |f.data|)
    ensures Patched(old(buf[..]), 0, Part(f.data, offset0, filled), buf[..])
    ensures returned ==> total == if Sum(lens, k) == 0 && 0 < buf.Length then -1 else Sum(lens, k)
    ensures returned && f.healthy && Sum(lens, k) < buf.Length ==> |f.data| <= offset0 + Sum(lens, k)
    ensures returned && total == buf.Length ==> filled == buf.Length
    ensures calls <= rounds && (!returned ==> calls == rounds && Sum(lens, k) < buf.Length && total == Sum(lens, k))
  {
    hide Patched, Part, Sum;
    SumZero(lens);
    ghost var was := buf[..];
    total, k, filled, calls := 0, 0, 0, 0;
    var at := 0;
    var round := 0;
    var count := GetIovSize(lens, n);
    PatchedNone(was, f.data, 0, offset0);
    while count > 0
      invariant k == at <= n && total == Sum(lens, at) <= filled <= buf.Length && count == Sum(lens, n) - total
      invariant calls == round <= rounds
      invariant filled > 0 ==> offset0 + filled <= |f.data|
      invariant Patched(was, 0, Part(f.data, offset0, filled), buf[..])
      decreases rounds - round
    {
      if round >= rounds {
        return false, total, k, filled, calls;
      }
      round, calls := round + 1, calls + 1;
      var nr, m := ReadMore(f, buf, offset0, total, count, was, filled);
      filled := m;
      if nr <= 0 {
        if total > 0 {
          return true, total, k, filled, calls;
        }
        return true, -1, k, filled, calls;
      }
      at, total, count := ShiftIovec(lens, n, at, nr, total, count);
      k := at;
    }
    return true, total, k, filled, calls;
  }

  /** Reading again over bytes of the same file only extends what is there. */
  lemma Rewritten(was: seq<byte>, data: seq<byte>, offset: nat, filled: nat, mid: seq<byte>, total: nat, nr: nat, b: seq<byte>)
    requires total <= filled <= |was| && (filled > 0 ==> offset + filled <= |data|)
    requires nr > 0 ==> offset + total + nr <= |data|
    requires Patched(was, 0, Part(data, offset, filled), mid)
    requires Patched(mid, total, Part(data, offset + total, nr), b)
    ensures var m := if filled < total + nr then total + nr else filled;
      m <= |was| && (m > 0 ==> offset + m <= |data|) && Patched(was, 0, Part(data, offset, m), b)
  {
    var m := if filled < total + nr then total + nr else filled;
    var done := Part(data, offset, m);
    forall i | 0 <= i < |was| ensures b[i] == if i < m then done[i] else was[i] {
      PatchedAt(was, 0, Part(data, offset, filled), mid, i);
      PatchedAt(mid, total, Part(data, offset + total, nr), b, i);
    }
    assert b == was[..0] + done + was[m..];
  }

  lemma PatchedAt(was: seq<byte>, pos: nat, what: seq<byte>, b: seq<byte>, i: nat)
    requires Patched(was, pos, what, b) && i < |was|
    ensures |b| == |was| && b[i] == if pos <= i < pos + |what| then what[i - pos] else was[i]
  {
  }

  /** pwritev_in_full, for at most `rounds` system calls; on a healthy file it never gives up. */
  method PwritevInFull(f: File, buf: seq<byte>, lens: seq<nat>, n: nat, offset0: nat, rounds: nat)
    returns (returned: bool, total: int, ghost written: nat, ghost calls: nat)
    requires n < |lens| && 0 < lens[n] && |buf| == Sum(lens, n)
    modifies f
    ensures written <= |buf| && Written(old(f.data), offset0, buf[..written], f.data)
    ensures returned ==> total == -1 || (total == |buf| && Written(old(f.data), offset0, buf, f.data))
    ensures returned && total == -1 ==> !f.healthy && 0 < |buf|
    ensures calls <= rounds && (!returned ==> calls == rounds && 0 <= total < |buf|)
  {
    hide Written;
    ghost var was := f.data;
    total, written, calls := 0, 0, 0;
    var at, round := 0, 0;
    var count := GetIovSize(lens, n);
    WrittenNone(was, offset0, buf);
    while count > 0
      invariant at <= n && total == Sum(lens, at) <= written <= |buf| && count == Sum(lens, n) - total
      invariant calls == round <= rounds
      invariant Written(was, offset0, buf[..written], f.data)
      decreases rounds - round
    {
      if round >= rounds {
        return false, total, written, calls;
      }
      round, calls := round + 1, calls + 1;
      ghost var mid := f.data;
      var nr := Xpwrite(f, buf[total..], offset0 + total);
      if nr <= 0 {
        return true, -1, written, calls;
      }
      Overwritten(was, buf, offset0, written, mid, total, nr, f.data);
      written := if written < total + nr then total + nr else written;
      at, total, count := ShiftIovec(lens, n, at, nr, total, count);
    }
    assert buf[..written] == buf;
    return true, total, written, calls;
  }

  lemma Overwritten(was: seq<byte>, buf: seq<byte>, offset: nat, written: nat, mid: seq<byte>, total: nat, nr: nat, data: seq<byte>)
    requires total <= written <= |buf| && total + nr <= |buf|
    requires Written(was, offset, buf[..written], mid)
    requires Written(mid, offset + total, buf[total..][..nr], data)
    ensures Written(was, offset, buf[..if written < total + nr then total + nr else written], data)
  {
    assert buf[total..][..nr] == buf[total..total + nr];
  }
}
