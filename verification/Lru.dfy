/**
  Least-recently-used order: the list discipline of the caches in disk/qcow.c
  against a definition that looks only at the history of requests.
 */
module Lru {
  import opened Basics
  import opened RbSpec

  /** One request: a hit moves to the tail; a miss evicts the head of a full list first. */
  function Touch(s: seq<nat>, x: nat, capacity: nat): seq<nat>
    requires 0 < capacity
  {
    if x in s then Without(s, x) + [x]
    else (if |s| == capacity then s[1..] else s) + [x]
  }

  /** The list after some requests. */
  ghost function RunFrom(s: seq<nat>, requests: seq<nat>, capacity: nat): seq<nat>
    requires 0 < capacity
  {
    if requests == [] then s
    else Touch(RunFrom(s, requests[..|requests| - 1], capacity), requests[|requests| - 1], capacity)
  }

  /** The list after a whole history, from empty. */
  ghost function Run(history: seq<nat>, capacity: nat): seq<nat>
    requires 0 < capacity
  {
    RunFrom([], history, capacity)
  }

  /** The distinct requests of a history, each at the place of its last occurrence. */
  ghost function ByLastRequest(history: seq<nat>): seq<nat> {
    if history == [] then []
    else if history[0] in history[1..] then ByLastRequest(history[1..])
    else [history[0]] + ByLastRequest(history[1..])
  }

  ghost function LastOf(s: seq<nat>, n: nat): seq<nat> {
    if |s| <= n then s else s[|s| - n..]
  }

  lemma {:induction false} ByLastRequestMembers(h: seq<nat>)
    ensures forall x :: x in ByLastRequest(h) <==> x in h
  {
    if h != [] {
      ByLastRequestMembers(h[1..]);
    }
  }

  lemma {:induction false} ByLastRequestDistinct(h: seq<nat>)
    ensures Distinct(ByLastRequest(h))
  {
    if h != [] {
      ByLastRequestDistinct(h[1..]);
      ByLastRequestMembers(h[1..]);
    }
  }

  lemma {:induction false} WithoutAbsent(s: seq<nat>, x: nat)
    requires x !in s
    ensures Without(s, x) == s
  {
    if s != [] {
      WithoutAbsent(s[1..], x);
    }
  }

  lemma {:induction false} WithoutLeft(a: seq<nat>, b: seq<nat>, x: nat)
    ensures Without(a + b, x) == if x in a then Without(a, x) + b else a + Without(b, x)
  {
    if a == [] {
      assert a + b == b;
    } else {
      assert (a + b)[1..] == a[1..] + b;
      WithoutLeft(a[1..], b, x);
      if a[0] != x {
        assert [a[0]] + (a[1..] + Without(b, x)) == a + Without(b, x);
        assert [a[0]] + (Without(a[1..], x) + b) == ([a[0]] + Without(a[1..], x)) + b;
      }
    }
  }

  lemma {:induction false} WithoutLength(s: seq<nat>, x: nat)
    requires x in s
    ensures |Without(s, x)| == |s| - 1
  {
    if s[0] != x {
      WithoutLength(s[1..], x);
    }
  }

  /** One more request moves its offset to the end. */
  lemma {:induction false} ByLastRequestStep(h: seq<nat>, x: nat)
    ensures ByLastRequest(h + [x]) == Without(ByLastRequest(h), x) + [x]
  {
    if h == [] {
      assert (h + [x])[1..] == [];
    } else {
      var rest := h[1..];
      assert (h + [x])[1..] == rest + [x];
      ByLastRequestStep(rest, x);
      ByLastRequestMembers(rest);
      if h[0] !in rest && h[0] != x {
        assert [h[0]] + (Without(ByLastRequest(rest), x) + [x]) == ([h[0]] + Without(ByLastRequest(rest), x)) + [x];
      } else if h[0] !in rest {
        WithoutAbsent(ByLastRequest(rest), x);
      }
    }
  }

  lemma LastOfAppend(p: seq<nat>, s: seq<nat>, n: nat)
    requires |s| == n || (p == [] && |s| <= n)
    ensures LastOf(p + s, n) == s
  {
  }

  /** A full list loses its first element to one appended at the end. */
  lemma LastOfMiss(p: seq<nat>, q: seq<nat>, x: nat, n: nat)
    requires 0 < n && (|q| == n || (p == [] && |q| < n))
    ensures LastOf(p + (q + [x]), n) == (if |q| == n then q[1..] else q) + [x]
  {
  }

  lemma SplitDistinct(p: seq<nat>, q: seq<nat>, x: nat)
    requires Distinct(p + q) && x in q
    ensures x !in p
  {
    var j :| 0 <= j < |q| && q[j] == x;
    assert (p + q)[|p| + j] == x;
    assert forall i :: 0 <= i < |p| ==> (p + q)[i] == p[i];
  }

  lemma AppendAssoc(a: seq<nat>, b: seq<nat>, c: seq<nat>)
    ensures (a + b) + c == a + (b + c)
  {
  }

  /** Truncating to the capacity commutes with one request. */
  lemma TouchSuffix(l: seq<nat>, x: nat, capacity: nat)
    requires 0 < capacity && Distinct(l)
    ensures Touch(LastOf(l, capacity), x, capacity) == LastOf(Without(l, x) + [x], capacity)
  {
    var q := LastOf(l, capacity);
    var p := l[..|l| - |q|];
    assert l == p + q;
    TouchParts(p, q, x, capacity);
  }

  lemma TouchParts(p: seq<nat>, q: seq<nat>, x: nat, n: nat)
    requires 0 < n && Distinct(p + q) && (|q| == n || (p == [] && |q| < n))
    ensures Touch(q, x, n) == LastOf(Without(p + q, x) + [x], n)
  {
    hide LastOf, Distinct, Without;
    WithoutLeft(p, q, x);
    if x in q {
      SplitDistinct(p, q, x);
      WithoutLength(q, x);
      AppendAssoc(p, Without(q, x), [x]);
      LastOfAppend(p, Without(q, x) + [x], n);
    } else if x in p {
      AppendAssoc(Without(p, x), q, [x]);
      LastOfMiss(Without(p, x), q, x, n);
    } else {
      WithoutAbsent(q, x);
      AppendAssoc(p, q, [x]);
      LastOfMiss(p, q, x, n);
    }
  }

  /**
    The exact replacement order: after any history the list holds the `capacity`
    most recently requested distinct offsets, in order of their last request.
   */
  lemma {:induction false} RunIsMostRecent(history: seq<nat>, capacity: nat)
    requires 0 < capacity
    ensures Run(history, capacity) == LastOf(ByLastRequest(history), capacity)
    decreases |history|
  {
    if history != [] {
      var h, x := history[..|history| - 1], history[|history| - 1];
      assert history == h + [x];
      RunIsMostRecent(h, capacity);
      ByLastRequestStep(h, x);
      ByLastRequestDistinct(h);
      TouchSuffix(ByLastRequest(h), x, capacity);
    }
  }

  // ---------------------------------------------------------------------
  // How long an entry stays
  // ---------------------------------------------------------------------

  ghost predicate WithinCapacity(s: seq<nat>, capacity: nat) {
    Distinct(s) && |s| <= capacity
  }

  /**
    Since `x` was last requested, exactly the others in `r` were: it is in the list with
    just those behind it, or there were as many as the list can hold and it has left.
   */
  ghost predicate Held(s: seq<nat>, x: nat, r: set<nat>, capacity: nat) {
    x !in r &&
    if |r| < capacity then exists k :: 0 <= k < |s| && s[k] == x && Elements(s[k + 1..]) == r
    else x !in s
  }

  lemma {:induction false} WithoutMembers(s: seq<nat>, x: nat)
    requires Distinct(s)
    ensures Distinct(Without(s, x)) && Elements(Without(s, x)) == Elements(s) - {x}
  {
    if s != [] {
      WithoutMembers(s[1..], x);
      assert Elements(s) == {s[0]} + Elements(s[1..]);
      if s[0] != x {
        assert Elements([s[0]] + Without(s[1..], x)) == {s[0]} + Elements(Without(s[1..], x));
        forall j | 0 <= j < |Without(s[1..], x)| ensures Without(s[1..], x)[j] != s[0] {
          assert Without(s[1..], x)[j] in Elements(Without(s[1..], x));
        }
      }
    }
  }

  lemma {:induction false} ElementsCount(s: seq<nat>)
    requires Distinct(s)
    ensures |Elements(s)| == |s|
  {
    if s != [] {
      ElementsCount(s[1..]);
      assert Elements(s) == {s[0]} + Elements(s[1..]);
    }
  }

  /** A request keeps the list distinct and within its capacity, and puts its entry last. */
  lemma TouchWithin(s: seq<nat>, y: nat, capacity: nat)
    requires WithinCapacity(s, capacity) && 0 < capacity
    ensures WithinCapacity(Touch(s, y, capacity), capacity) && Held(Touch(s, y, capacity), y, {}, capacity)
    ensures forall o :: o in Touch(s, y, capacity) ==> o == y || o in s
  {
    hide Without;
    var t := Touch(s, y, capacity);
    if y in s {
      WithoutMembers(s, y);
      WithoutLength(s, y);
      forall o | o in Without(s, y) ensures o in s && o != y {
        assert o in Elements(Without(s, y));
      }
    }
    assert t[|t| - 1] == y && t[|t|..] == [];
  }

  lemma TouchHeld(s: seq<nat>, x: nat, r: set<nat>, y: nat, capacity: nat)
    requires WithinCapacity(s, capacity) && 0 < capacity && Held(s, x, r, capacity) && y != x
    ensures Held(Touch(s, y, capacity), x, r + {y}, capacity)
  {
    hide Without;
    var t := Touch(s, y, capacity);
    TouchWithin(s, y, capacity);
    if |r| < capacity {
      var k :| 0 <= k < |s| && s[k] == x && Elements(s[k + 1..]) == r;
      TouchBehind(s, k, y, capacity);
    } else {
      SubsetCount(r, r + {y});
    }
  }

  lemma SubsetCount(a: set<nat>, b: set<nat>)
    requires a <= b
    ensures |a| <= |b|
  {
    assert b == a + (b - a);
  }

  lemma TouchBehind(s: seq<nat>, k: nat, y: nat, capacity: nat)
    requires WithinCapacity(s, capacity) && 0 < capacity && k < |s| && y != s[k]
    ensures Held(Touch(s, y, capacity), s[k], Elements(s[k + 1..]) + {y}, capacity)
  {
    hide Without, Held;
    var a, x, q := s[..k], s[k], s[k + 1..];
    assert s == a + [x] + q;
    if y in q {
      TouchNear(a, x, q, y, capacity);
    } else if y in a {
      TouchFar(a, x, q, y, capacity);
    } else {
      TouchNew(a, x, q, y, capacity);
    }
  }

  lemma TouchNear(a: seq<nat>, x: nat, q: seq<nat>, y: nat, capacity: nat)
    requires WithinCapacity(a + [x] + q, capacity) && 0 < capacity && y != x && y in q
    ensures Held(Touch(a + [x] + q, y, capacity), x, Elements(q) + {y}, capacity)
  {
    hide Without, Held;
    Parts(a, x, q);
    SplitDistinct(a + [x], q, y);
    WithoutLeft(a + [x], q, y);
    WithoutMembers(q, y);
    ElementsCount(q);
    assert y in Elements(q);
    assert Elements(q) + {y} == Elements(q);
    assert Elements(Without(q, y) + [y]) == Elements(Without(q, y)) + {y};
    assert a + [x] + Without(q, y) + [y] == a + [x] + (Without(q, y) + [y]);
    assert x !in Elements(Without(q, y));
    BehindCount(a, x, q, capacity);
    Behind(a, x, Without(q, y) + [y], Elements(q), capacity);
  }

  lemma TouchFar(a: seq<nat>, x: nat, q: seq<nat>, y: nat, capacity: nat)
    requires WithinCapacity(a + [x] + q, capacity) && 0 < capacity && y != x && y in a && y !in q
    ensures Held(Touch(a + [x] + q, y, capacity), x, Elements(q) + {y}, capacity)
  {
    hide Without, Held;
    Parts(a, x, q);
    WithoutLeft(a + [x], q, y);
    WithoutLeft(a, [x], y);
    OneMore(q, y);
    assert Without(a, y) + [x] + q + [y] == Without(a, y) + [x] + (q + [y]);
    Behind(Without(a, y), x, q + [y], Elements(q) + {y}, capacity);
  }

  lemma TouchNew(a: seq<nat>, x: nat, q: seq<nat>, y: nat, capacity: nat)
    requires WithinCapacity(a + [x] + q, capacity) && 0 < capacity && y != x && y !in a && y !in q
    ensures Held(Touch(a + [x] + q, y, capacity), x, Elements(q) + {y}, capacity)
  {
    hide Held, Without;
    Parts(a, x, q);
    OneMore(q, y);
    var s := a + [x] + q;
    if |s| < capacity {
      assert s + [y] == a + [x] + (q + [y]);
      Behind(a, x, q + [y], Elements(q) + {y}, capacity);
    } else if a != [] {
      assert s[1..] + [y] == a[1..] + [x] + (q + [y]);
      Behind(a[1..], x, q + [y], Elements(q) + {y}, capacity);
    } else {
      assert s[1..] == q;
      Gone(x, q + [y], Elements(q) + {y}, capacity);
    }
  }

  lemma Parts(a: seq<nat>, x: nat, q: seq<nat>)
    requires Distinct(a + [x] + q)
    ensures Distinct(q) && x !in q && x !in a
  {
    var s := a + [x] + q;
    assert s[|a|] == x && s[|a| + 1..] == q && s[..|a|] == a;
    assert forall i :: 0 <= i < |q| ==> q[i] == s[|a| + 1 + i];
    assert forall i :: 0 <= i < |a| ==> a[i] == s[i];
  }

  lemma BehindCount(a: seq<nat>, x: nat, q: seq<nat>, capacity: nat)
    requires WithinCapacity(a + [x] + q, capacity)
    ensures |Elements(q)| < capacity
  {
    Parts(a, x, q);
    ElementsCount(q);
  }

  lemma OneMore(q: seq<nat>, y: nat)
    requires Distinct(q) && y !in q
    ensures Elements(q + [y]) == Elements(q) + {y} && |Elements(q) + {y}| == |q| + 1
  {
    ElementsCount(q);
  }

  lemma Behind(a: seq<nat>, x: nat, q: seq<nat>, r: set<nat>, capacity: nat)
    requires Elements(q) == r && |r| < capacity && x !in q
    ensures Held(a + [x] + q, x, r, capacity)
  {
    var t := a + [x] + q;
    assert t[|a|] == x && t[|a| + 1..] == q;
  }

  lemma Gone(x: nat, t: seq<nat>, r: set<nat>, capacity: nat)
    requires Elements(t) == r && capacity <= |r| && x !in t
    ensures Held(t, x, r, capacity)
  {
  }

  /** An entry is in the list after some requests for others exactly if these were fewer than it can hold. */
  lemma {:induction false} RunHeld(s: seq<nat>, x: nat, r: set<nat>, requests: seq<nat>, capacity: nat)
    requires WithinCapacity(s, capacity) && 0 < capacity && Held(s, x, r, capacity) && x !in requests
    ensures WithinCapacity(RunFrom(s, requests, capacity), capacity)
    ensures Held(RunFrom(s, requests, capacity), x, r + Elements(requests), capacity)
    decreases |requests|
  {
    if requests == [] {
      assert r + Elements(requests) == r;
    } else {
      var n := |requests| - 1;
      var rest, y := requests[..n], requests[n];
      RunHeld(s, x, r, rest, capacity);
      TouchWithin(RunFrom(s, rest, capacity), y, capacity);
      TouchHeld(RunFrom(s, rest, capacity), x, r + Elements(rest), y, capacity);
      assert r + Elements(rest) + {y} == r + Elements(requests);
    }
  }

  lemma {:induction false} RunWithin(s: seq<nat>, requests: seq<nat>, capacity: nat)
    requires WithinCapacity(s, capacity) && 0 < capacity
    ensures WithinCapacity(RunFrom(s, requests, capacity), capacity)
    ensures forall o :: o in RunFrom(s, requests, capacity) ==> o in s || o in requests
    decreases |requests|
  {
    if requests != [] {
      var n := |requests| - 1;
      RunWithin(s, requests[..n], capacity);
      TouchWithin(RunFrom(s, requests[..n], capacity), requests[n], capacity);
    }
  }

  lemma {:induction false} RunTwice(s: seq<nat>, a: seq<nat>, b: seq<nat>, capacity: nat)
    requires 0 < capacity
    ensures RunFrom(s, a + b, capacity) == RunFrom(RunFrom(s, a, capacity), b, capacity)
    decreases |b|
  {
    if b == [] {
      assert a + b == a;
    } else {
      var n := |b| - 1;
      assert (a + b)[..|a + b| - 1] == a + b[..n];
      RunTwice(s, a, b[..n], capacity);
    }
  }
}
