/** Machine word sizes, and the few facts about division, products and counting that the other modules need. */
module Basics {
  /** How many blocks or tables a cache of the image engine holds. */
  const MAX_CACHE_NODES := 32

  const U16_RANGE := 0x1_0000
  const U32_RANGE := 0x1_0000_0000
  const U64_RANGE := 0x1_0000_0000_0000_0000

  /** Truncation to a u16. */
  function U16(x: int): (r: nat)
    ensures r < U16_RANGE
  {
    x % U16_RANGE
  }

  /** Truncation to a u32. */
  function U32(x: int): (r: nat)
    ensures r < U32_RANGE
  {
    x % U32_RANGE
  }

  lemma MulMonotone(a: nat, b: nat, c: nat)
    requires a <= b
    ensures a * c <= b * c
  {
  }

  lemma DivUnique(x: nat, q: nat, r: nat, size: nat)
    requires 0 < size && x == q * size + r && r < size
    ensures x / size == q && x % size == r
  {
    var q', r' := x / size, x % size;
    assert q' * size + r' == q * size + r;
    assert (q' + 1) * size == q' * size + size && (q + 1) * size == q * size + size;
    if q' < q {
      MulMonotone(q' + 1, q, size);
    } else if q < q' {
      MulMonotone(q + 1, q', size);
    }
  }

  lemma FloorLess(x: nat, q: nat, size: nat)
    requires 0 < size
    ensures x / size < q <==> x < q * size
  {
    assert x == x / size * size + x % size && (x / size + 1) * size == x / size * size + size;
    if x / size < q {
      MulMonotone(x / size + 1, q, size);
    } else {
      MulMonotone(q, x / size, size);
    }
  }

  lemma DivMonotone(a: nat, b: nat, size: nat)
    requires 0 < size && a <= b
    ensures a / size <= b / size
  {
    assert a == a / size * size + a % size && b == b / size * size + b % size;
    assert (b / size + 1) * size == b / size * size + size;
    if b / size < a / size {
      MulMonotone(b / size + 1, a / size, size);
    }
  }

  /** Fewer than `n` apart, different numbers have different remainders. */
  lemma RemaindersApart(a: nat, b: nat, n: nat)
    requires 0 < n && a < b < a + n
    ensures a % n != b % n
  {
    var q, r, d := a / n, a % n, b - a;
    assert (q + 1) * n == q * n + n;
    if r + d < n {
      DivUnique(b, q, r + d, n);
    } else {
      DivUnique(b, q + 1, r + d - n, n);
    }
  }

  lemma RemainderShift(x: nat, q: nat, n: nat)
    requires 0 < n
    ensures (x + q * n) % n == x % n
  {
    assert (x / n + q) * n == x / n * n + q * n;
    DivUnique(x + q * n, x / n + q, x % n, n);
  }

  function Min(a: int, b: int): int {
    if a < b then a else b
  }

  function Max(a: int, b: int): int {
    if a < b then b else a
  }

  predicate Distinct<T(==)>(s: seq<T>) {
    forall i, j :: 0 <= i < j < |s| ==> s[i] != s[j]
  }

  /** Distinct numbers below `n` are at most `n`. */
  lemma {:induction false} Pigeonhole(s: seq<nat>, n: nat)
    requires Distinct(s) && forall i :: 0 <= i < |s| ==> s[i] < n
    ensures |s| <= n
  {
    if s != [] {
      assert s[0] < n;
      if k :| 0 <= k < |s| && s[k] == n - 1 {
        var rest := s[..k] + s[k + 1..];
        assert forall i :: 0 <= i < |rest| ==> rest[i] == s[if i < k then i else i + 1];
        Pigeonhole(rest, n - 1);
      } else {
        Pigeonhole(s, n - 1);
      }
    }
  }
}
