/** The Fibonacci resonance map (`axiom2/fibonacci_resonance_map.py`): a cache of
    Fibonacci numbers with hit and miss counters, the nearest-Fibonacci search and the
    Fibonacci numbers of a range. The vortex, wave and spiral tables are floating point
    and are not modelled. */
module FibonacciResonanceMap {
  import opened Arith
  import opened Seqs
  import opened Wrappers
  import opened FibonacciCore
  import Counters

  datatype ResonanceMap = ResonanceMap(
    maxIndex: int,
    fibCache: map<nat, nat>,
    cacheHits: nat,
    cacheMisses: nat)

  /** Every cached value is the Fibonacci number of its index. */
  ghost predicate Valid(m: ResonanceMap) {
    forall k :: k in m.fibCache ==> m.fibCache[k] == F(k)
  }

  /** `FibonacciResonanceMap(max_index)`. */
  function New(maxIndex: int): (m: ResonanceMap)
    ensures Valid(m) && m.fibCache == map[] && m.cacheHits == 0 && m.cacheMisses == 0
    ensures m.maxIndex == maxIndex
  {
    ResonanceMap(maxIndex, map[], 0, 0)
  }

  // ---------------------------------------------------------------------------
  // Growth of the Fibonacci numbers

  lemma {:induction false} FibStep(k: nat)
    ensures F(k) <= F(k + 1)
  {
    if k >= 1 {
      assert F(k + 1) == F(k) + F(k - 1);
    }
  }

  lemma {:induction false} FibMonotone(i: nat, j: nat)
    requires i <= j
    ensures F(i) <= F(j)
    decreases j - i
  {
    if i < j {
      FibStep(i);
      FibMonotone(i + 1, j);
    }
  }

  /** F(k) >= k - 1, so the searches below terminate. */
  lemma {:induction false} FibUnbounded(k: nat)
    ensures k <= F(k) + 1
  {
    if k >= 3 {
      FibUnbounded(k - 1);
      FibMonotone(1, k - 2);
      assert F(k) == F(k - 1) + F(k - 2);
    }
  }

  // ---------------------------------------------------------------------------
  // The cache

  /** `get_fibonacci`: a cached index counts a hit; otherwise a miss, and `fib(k)` is
      computed and cached. A negative index raises ValueError after the miss is counted. */
  function GetFibonacci(m: ResonanceMap, k: int): (r: (ResonanceMap, Result<nat>))
    requires Valid(m)
    ensures Valid(r.0)
    ensures k < 0 ==> r.1 == Failure(ValueError)
    ensures k >= 0 ==> r.1 == Success(F(k))
    ensures k in m.fibCache ==> r.0 == m.(cacheHits := m.cacheHits + 1)
    ensures k !in m.fibCache ==> r.0.cacheHits == m.cacheHits && r.0.cacheMisses == m.cacheMisses + 1
    ensures r.0.fibCache.Keys == m.fibCache.Keys + (if k >= 0 then {k} else {})
    ensures r.0.maxIndex == m.maxIndex
  {
    if k >= 0 && k in m.fibCache then
      (m.(cacheHits := m.cacheHits + 1), Success(m.fibCache[k]))
    else
      var counted := m.(cacheMisses := m.cacheMisses + 1);
      match Fib(k)
      case Failure(e) => (counted, Failure(e))
      case Success(v) => (counted.(fibCache := counted.fibCache[k := v]), Success(v))
  }

  /** The first lookup of an index is a miss and the repeat a hit, with the same value. */
  lemma MissThenHit(m: ResonanceMap, k: nat)
    requires Valid(m) && k !in m.fibCache
    ensures var (m1, v1) := GetFibonacci(m, k);
      var (m2, v2) := GetFibonacci(m1, k);
      && m1.cacheMisses == m.cacheMisses + 1 && m1.cacheHits == m.cacheHits
      && m2.cacheHits == m.cacheHits + 1 && m2.cacheMisses == m.cacheMisses + 1
      && v1 == v2 == Success(F(k))
  {
  }

  /** `get_fibonacci` at an index the loops below know to be non-negative. */
  function FibAt(m: ResonanceMap, k: nat): (r: (ResonanceMap, nat))
    requires Valid(m)
    ensures Valid(r.0) && r.1 == F(k)
    ensures r.0.fibCache.Keys == m.fibCache.Keys + {k} && r.0.maxIndex == m.maxIndex
  {
    var (m', v) := GetFibonacci(m, k);
    (m', v.value)
  }

  // ---------------------------------------------------------------------------
  // Nearest Fibonacci number

  /** The least index j >= k with F(j) >= n. */
  function LeastAtLeast(n: int, k: nat): (j: nat)
    requires k > 0 ==> F(k - 1) < n
    ensures k <= j && F(j) >= n
    ensures j > 0 ==> F(j - 1) < n
    decreases n + 1 - k
  {
    if F(k) >= n then k
    else
      FibUnbounded(k);
      LeastAtLeast(n, k + 1)
  }

  /** The final comparison of `find_nearest_fibonacci` once F(k) >= n is found. */
  function Closer(n: int, k: nat): (r: (nat, nat, int))
    requires F(k) >= n && (k > 0 ==> F(k - 1) < n)
  {
    if k > 0 && n - F(k - 1) < F(k) - n then (k - 1, F(k - 1), n - F(k - 1)) else (k, F(k), F(k) - n)
  }

  /** The loop of `find_nearest_fibonacci` from index k, through the cache. */
  function NearestFrom(m: ResonanceMap, n: int, k: nat): (r: (ResonanceMap, (nat, nat, int)))
    requires Valid(m)
    requires k > 0 ==> F(k - 1) < n
    ensures Valid(r.0) && r.0.maxIndex == m.maxIndex
    decreases n + 1 - k
  {
    var here := FibAt(m, k);
    if here.1 >= n then Settle(here.0, n, k, here.1)
    else
      FibUnbounded(k);
      NearestFrom(here.0, n, k + 1)
  }

  /** The loop's exit once fib(k) = fk >= n: fib(k - 1) is looked up again and the
      closer of the two wins, the larger on a tie. */
  function Settle(m: ResonanceMap, n: int, k: nat, fk: nat): (r: (ResonanceMap, (nat, nat, int)))
    requires Valid(m)
    ensures Valid(r.0) && r.0.maxIndex == m.maxIndex
  {
    if k > 0 then
      var before := FibAt(m, k - 1);
      var prev := before.1;
      (before.0, if n - prev < fk - n then (k - 1, prev, n - prev) else (k, fk, fk - n))
    else (m, (k, fk, fk - n))
  }

  /** The loop answers with the closer of F(j - 1) and F(j) for the least j >= k with
      F(j) >= n. */
  lemma {:induction false} NearestFromMeans(m: ResonanceMap, n: int, k: nat)
    requires Valid(m)
    requires k > 0 ==> F(k - 1) < n
    ensures NearestFrom(m, n, k).1 == Closer(n, LeastAtLeast(n, k))
    decreases n + 1 - k
  {
    var here := FibAt(m, k);
    if F(k) >= n {
      Settles(here.0, n, k, here.1);
      assert LeastAtLeast(n, k) == k;
    } else {
      var m1 := FibAt(m, k).0;
      FibUnbounded(k);
      assert NearestFrom(m, n, k) == NearestFrom(m1, n, k + 1);
      NearestFromMeans(m1, n, k + 1);
    }
  }

  /** The loop's last step: once F(k) >= n it answers the closer of F(k - 1) and F(k). */
  lemma Settles(m: ResonanceMap, n: int, k: nat, fk: nat)
    requires Valid(m) && fk == F(k) && F(k) >= n && (k > 0 ==> F(k - 1) < n)
    ensures Settle(m, n, k, fk).1 == Closer(n, k)
  {
    if k > 0 {
      assert FibAt(m, k - 1).1 == F(k - 1);
    }
  }




  /** `find_nearest_fibonacci(n)`: (index, value, distance). */
  function FindNearestFibonacci(m: ResonanceMap, n: int): (r: (ResonanceMap, (nat, nat, int)))
    requires Valid(m)
    ensures Valid(r.0) && r.0.maxIndex == m.maxIndex
    ensures r.1.1 == F(r.1.0) && r.1.2 == Abs(n - r.1.1)
  {
    NearestFromMeans(m, n, 0);
    NearestFrom(m, n, 0)
  }

  /** The answer is at minimal distance from n among all Fibonacci numbers, and on a tie
      it is the larger one. */
  lemma NearestIsNearest(m: ResonanceMap, n: int, j: nat)
    requires Valid(m)
    ensures var (k, v, d) := FindNearestFibonacci(m, n).1;
      d <= Abs(n - F(j)) && (Abs(n - F(j)) == d ==> F(j) <= v)
  {
    NearestFromMeans(m, n, 0);
    var K := LeastAtLeast(n, 0);
    if j >= K {
      FibMonotone(K, j);
    } else {
      FibMonotone(j, K - 1);
    }
  }

  /** F(0) .. F(12), evaluated step by step. */
  lemma SmallFibs()
    ensures F(0) == 0 && F(1) == 1 && F(2) == 1 && F(3) == 2 && F(4) == 3 && F(5) == 5 && F(6) == 8
    ensures F(7) == 13 && F(8) == 21 && F(9) == 34 && F(10) == 55 && F(11) == 89 && F(12) == 144
  {
    assert F(2) == 1;
    assert F(3) == 2;
    assert F(4) == 3;
    assert F(5) == 5;
    assert F(6) == 8;
    assert F(7) == 13;
    assert F(8) == 21;
    assert F(9) == 34;
    assert F(10) == 55;
    assert F(11) == 89;
  }

  /** For 34 < n <= 55 the search stops at index 10. */
  lemma StopsAtTen(n: int)
    requires 34 < n <= 55
    ensures LeastAtLeast(n, 0) == 10
  {
    SmallFibs();
    var K := LeastAtLeast(n, 0);
    if K < 10 {
      FibMonotone(K, 9);
    } else if K > 10 {
      FibMonotone(10, K - 1);
    }
  }

  /** The examples of the test suite: 55 is itself, 50 is nearest 55, 40 is nearest 34. */
  lemma NearestExamples(m: ResonanceMap)
    requires Valid(m)
    ensures FindNearestFibonacci(m, 55).1 == (10, 55, 0)
    ensures FindNearestFibonacci(m, 50).1 == (10, 55, 5)
    ensures FindNearestFibonacci(m, 40).1 == (9, 34, 6)
  {
    SmallFibs();
    NearestFromMeans(m, 55, 0);
    NearestFromMeans(m, 50, 0);
    NearestFromMeans(m, 40, 0);
    StopsAtTen(55);
    StopsAtTen(50);
    StopsAtTen(40);
  }

  // ---------------------------------------------------------------------------
  // Fibonacci numbers of a range

  /** The indices j >= k, ascending, with start <= F(j) <= end: the loop of
      `get_fibonacci_range` stops at the first F(j) > end. */
  function RangeIndicesFrom(start: int, end: int, k: nat): seq<nat>
    decreases end + 2 - k
  {
    if F(k) > end then []
    else
      FibUnbounded(k);
      var rest := RangeIndicesFrom(start, end, k + 1);
      if F(k) >= start then [k] + rest else rest
  }

  /** The indices are ascending and are exactly those j >= k with start <= F(j) <= end. */
  lemma {:induction false} RangeIndicesMeans(start: int, end: int, k: nat)
    ensures var ks := RangeIndicesFrom(start, end, k);
      && (forall i :: 0 <= i < |ks| ==> k <= ks[i])
      && (forall a, b :: 0 <= a < b < |ks| ==> ks[a] < ks[b])
      && (forall j: nat :: j in ks <==> k <= j && start <= F(j) <= end)
    decreases end + 2 - k
  {
    var ks := RangeIndicesFrom(start, end, k);
    if F(k) > end {
      assert ks == [];
      forall j: nat | k <= j ensures F(j) > end { FibMonotone(k, j); }
    } else {
      FibUnbounded(k);
      var rest := RangeIndicesFrom(start, end, k + 1);
      RangeIndicesMeans(start, end, k + 1);
      if F(k) >= start {
        assert ks == [k] + rest;
        RangeConsFacts(start, end, k, rest, ks);
      } else {
        assert ks == rest;
        forall j: nat ensures j in ks <==> k <= j && start <= F(j) <= end {
          if j == k { assert j !in rest; }
        }
      }
    }
  }

  /** The step of RangeIndicesMeans when k itself is in range. */
  lemma RangeConsFacts(start: int, end: int, k: nat, rest: seq<nat>, ks: seq<nat>)
    requires ks == [k] + rest && start <= F(k) <= end
    requires forall i :: 0 <= i < |rest| ==> k + 1 <= rest[i]
    requires forall a, b :: 0 <= a < b < |rest| ==> rest[a] < rest[b]
    requires forall j: nat :: j in rest <==> k + 1 <= j && start <= F(j) <= end
    ensures forall i :: 0 <= i < |ks| ==> k <= ks[i]
    ensures forall a, b :: 0 <= a < b < |ks| ==> ks[a] < ks[b]
    ensures forall j: nat :: j in ks <==> k <= j && start <= F(j) <= end
  {
    forall i | 0 < i < |ks| ensures ks[i] == rest[i - 1] { }
    forall a, b | 0 <= a < b < |ks| ensures ks[a] < ks[b] {
      if a > 0 { assert ks[a] == rest[a - 1]; }
    }
    forall j: nat ensures j in ks <==> k <= j && start <= F(j) <= end {
      assert j in ks <==> j == k || j in rest;
    }
  }

  /** The Fibonacci numbers of a list of indices. */
  function FibsAt(ks: seq<nat>): (vs: seq<nat>)
    ensures |vs| == |ks| && forall i :: 0 <= i < |ks| ==> vs[i] == F(ks[i])
  {
    if |ks| == 0 then [] else [F(ks[0])] + FibsAt(ks[1..])
  }

  /** The loop of `get_fibonacci_range` from index k, through the cache. */
  function RangeFrom(m: ResonanceMap, start: int, end: int, k: nat): (r: (ResonanceMap, seq<nat>))
    requires Valid(m)
    ensures Valid(r.0) && r.0.maxIndex == m.maxIndex
    ensures r.1 == FibsAt(RangeIndicesFrom(start, end, k))
    decreases end + 2 - k
  {
    var (m1, fk) := FibAt(m, k);
    if fk > end then (m1, [])
    else
      FibUnbounded(k);
      var (m2, rest) := RangeFrom(m1, start, end, k + 1);
      if fk >= start then
        assert ([k] + RangeIndicesFrom(start, end, k + 1))[1..] == RangeIndicesFrom(start, end, k + 1);
        (m2, [fk] + rest)
      else (m2, rest)
  }

  /** `get_fibonacci_range(start, end)`: F(j) for exactly the indices j, ascending, with
      start <= F(j) <= end. */
  function GetFibonacciRange(m: ResonanceMap, start: int, end: int): (r: (ResonanceMap, seq<nat>))
    requires Valid(m)
    ensures Valid(r.0) && r.0.maxIndex == m.maxIndex
    ensures var ks := RangeIndicesFrom(start, end, 0);
      |r.1| == |ks| && forall i :: 0 <= i < |ks| ==> r.1[i] == F(ks[i])
    ensures forall i :: 0 <= i < |r.1| ==> start <= r.1[i] <= end
  {
    RangeIndicesMeans(start, end, 0);
    RangeFrom(m, start, end, 0)
  }

  /** The values of a range come in non-decreasing order, and every Fibonacci number of
      [start, end] is among them. */
  lemma RangeComplete(m: ResonanceMap, start: int, end: int, j: nat)
    requires Valid(m)
    ensures NonDecreasing(GetFibonacciRange(m, start, end).1)
    ensures start <= F(j) <= end ==> F(j) in GetFibonacciRange(m, start, end).1
  {
    RangeIndicesMeans(start, end, 0);
    var ks := RangeIndicesFrom(start, end, 0);
    var vs := GetFibonacciRange(m, start, end).1;
    forall a, b | 0 <= a < b < |vs| ensures vs[a] <= vs[b] {
      FibMonotone(ks[a], ks[b]);
    }
    if start <= F(j) <= end {
      var i :| 0 <= i < |ks| && ks[i] == j;
      assert vs[i] == F(j);
    }
  }

  lemma RangeIndicesTenToHundred()
    ensures RangeIndicesFrom(10, 100, 0) == [7, 8, 9, 10, 11]
  {
    SmallFibs();
    assert RangeIndicesFrom(10, 100, 12) == [];
    assert RangeIndicesFrom(10, 100, 11) == [11];
    assert RangeIndicesFrom(10, 100, 10) == [10, 11];
    assert RangeIndicesFrom(10, 100, 9) == [9, 10, 11];
    assert RangeIndicesFrom(10, 100, 8) == [8, 9, 10, 11];
    assert RangeIndicesFrom(10, 100, 7) == [7, 8, 9, 10, 11];
    assert RangeIndicesFrom(10, 100, 6) == [7, 8, 9, 10, 11];
    assert RangeIndicesFrom(10, 100, 5) == [7, 8, 9, 10, 11];
    assert RangeIndicesFrom(10, 100, 4) == [7, 8, 9, 10, 11];
    assert RangeIndicesFrom(10, 100, 3) == [7, 8, 9, 10, 11];
    assert RangeIndicesFrom(10, 100, 2) == [7, 8, 9, 10, 11];
    assert RangeIndicesFrom(10, 100, 1) == [7, 8, 9, 10, 11];
  }

  lemma RangeIndicesZeroToFive()
    ensures RangeIndicesFrom(0, 5, 0) == [0, 1, 2, 3, 4, 5]
  {
    SmallFibs();
    assert RangeIndicesFrom(0, 5, 6) == [];
    assert RangeIndicesFrom(0, 5, 5) == [5];
    assert RangeIndicesFrom(0, 5, 4) == [4, 5];
    assert RangeIndicesFrom(0, 5, 3) == [3, 4, 5];
    assert RangeIndicesFrom(0, 5, 2) == [2, 3, 4, 5];
    assert RangeIndicesFrom(0, 5, 1) == [1, 2, 3, 4, 5];
  }

  lemma RangeTenToHundred(m: ResonanceMap)
    requires Valid(m)
    ensures GetFibonacciRange(m, 10, 100).1 == [13, 21, 34, 55, 89]
  {
    RangeIndicesTenToHundred();
    var r := GetFibonacciRange(m, 10, 100).1;
    assert |r| == 5 && r[0] == F(7) && r[1] == F(8) && r[2] == F(9) && r[3] == F(10) && r[4] == F(11);
    SmallFibs();
    FiveElements(r, 13, 21, 34, 55, 89);
  }

  lemma RangeZeroToFive(m: ResonanceMap)
    requires Valid(m)
    ensures GetFibonacciRange(m, 0, 5).1 == [0, 1, 1, 2, 3, 5]
  {
    RangeIndicesZeroToFive();
    var r := GetFibonacciRange(m, 0, 5).1;
    assert |r| == 6 && r[0] == F(0) && r[1] == F(1) && r[2] == F(2) && r[3] == F(3) && r[4] == F(4) && r[5] == F(5);
    SmallFibs();
    SixElements(r, 0, 1, 1, 2, 3, 5);
  }

  lemma SixElements(r: seq<nat>, a: nat, b: nat, c: nat, d: nat, e: nat, f: nat)
    requires |r| == 6 && r[0] == a && r[1] == b && r[2] == c && r[3] == d && r[4] == e && r[5] == f
    ensures r == [a, b, c, d, e, f]
  {
  }

  lemma FiveElements(r: seq<nat>, a: nat, b: nat, c: nat, d: nat, e: nat)
    requires |r| == 5 && r[0] == a && r[1] == b && r[2] == c && r[3] == d && r[4] == e
    ensures r == [a, b, c, d, e]
  {
  }

  // ---------------------------------------------------------------------------
  // Statistics and the factory

  datatype Statistics = Statistics(cacheHits: nat, cacheMisses: nat, hitRate: real, fibonacciCached: nat)

  /** `get_cache_statistics` (the Fibonacci part). */
  function GetCacheStatistics(m: ResonanceMap): (s: Statistics)
    ensures s.cacheHits == m.cacheHits && s.cacheMisses == m.cacheMisses
    ensures s.hitRate == Counters.HitRate(m.cacheHits, m.cacheMisses)
    ensures m.cacheHits + m.cacheMisses == 0 ==> s.hitRate == 0.0
    ensures s.fibonacciCached == |m.fibCache|
  {
    Statistics(m.cacheHits, m.cacheMisses, Counters.HitRate(m.cacheHits, m.cacheMisses), |m.fibCache|)
  }

  /** `get_fibonacci(k)` for k = from .. to - 1. */
  function FibLookups(m: ResonanceMap, from: nat, to: int): (m': ResonanceMap)
    requires Valid(m)
    ensures Valid(m') && m'.maxIndex == m.maxIndex
    ensures forall k :: k in m'.fibCache <==> (k in m.fibCache || from <= k < to)
    decreases if from < to then to - from else 0
  {
    if from < to then FibLookups(FibAt(m, from).0, from + 1, to) else m
  }

  /** The `while k < 200 and fib(k) < n` search of `create_optimized`. */
  function IndexSearch(n: int, k: nat): (j: nat)
    requires k <= 200 && (k > 0 ==> F(k - 1) < n)
    ensures k <= j <= 200 && (j > 0 ==> F(j - 1) < n)
    ensures j < 200 ==> F(j) >= n
    decreases 200 - k
  {
    if k < 200 && F(k) < n then IndexSearch(n, k + 1) else k
  }

  /** The max_index `create_optimized(n)` chooses: ten past the least index whose
      Fibonacci number reaches n, capped at 200. */
  function MaxIndexFor(n: int): (maxIndex: int)
    ensures 10 <= maxIndex <= 200
  {
    Min(IndexSearch(n, 0) + 10, 200)
  }

  /** max_index - 10 is the least index whose Fibonacci number reaches n, unless the cap
      of 200 cuts the search short. */
  lemma MaxIndexBounds(n: int)
    ensures MaxIndexFor(n) > 10 ==> F(MaxIndexFor(n) - 11) < n
    ensures MaxIndexFor(n) < 200 ==> F(MaxIndexFor(n) - 10) >= n
  {
    var j := IndexSearch(n, 0);
    var maxIndex := MaxIndexFor(n);
    if maxIndex > 10 {
      FibMonotone(maxIndex - 11, j - 1);
    }
  }

  /** `precompute_common_values` looks up fib(0) .. fib(13). */
  const SmallIndices: int := 14

  /** The Fibonacci lookups of `create_optimized(n)` on a fresh map. */
  function PrecomputeFor(n: int, m: ResonanceMap): (m': ResonanceMap)
    requires Valid(m)
    ensures Valid(m') && m'.maxIndex == m.maxIndex
  {
    if n < 10000 then FibLookups(FibLookups(m, 0, Min(100, m.maxIndex)), 0, SmallIndices)
    else if n < 1000000 then FibLookups(m, 0, Min(50, m.maxIndex))
    else m
  }

  /** On a fresh map, looking up the indices below a leaves exactly those. */
  lemma FreshLookups(m: ResonanceMap, a: int, m1: ResonanceMap)
    requires Valid(m) && m.fibCache == map[] && m1 == FibLookups(m, 0, a)
    ensures forall k: nat :: k in m1.fibCache <==> k < a
  {
    forall k: nat ensures k in m1.fibCache <==> k < a {
      assert k in m1.fibCache <==> k in m.fibCache || k < a;
    }
  }

  /** On a fresh map, the indices below a and then those below b leave exactly the
      indices below the larger of the two. */
  lemma FreshLookupsTwice(m: ResonanceMap, a: int, b: int)
    requires Valid(m) && m.fibCache == map[]
    ensures forall k: nat :: k in FibLookups(FibLookups(m, 0, a), 0, b).fibCache <==> k < Max(a, b)
  {
    var m1 := FibLookups(m, 0, a);
    FreshLookups(m, a, m1);
    var m2 := FibLookups(m1, 0, b);
    assert forall k: nat :: k in m2.fibCache <==> k in m1.fibCache || k < b;
  }

  /** On a fresh map the lookups leave exactly the indices below CachedBelow. */
  lemma PrecomputeKeys(n: int, m: ResonanceMap)
    requires Valid(m) && m.fibCache == map[]
    ensures forall k: nat :: k in PrecomputeFor(n, m).fibCache <==> k < CachedBelow(n, m.maxIndex)
  {
    if n < 10000 {
      FreshLookupsTwice(m, Min(100, m.maxIndex), SmallIndices);
    } else if n < 1000000 {
      FreshLookups(m, Min(50, m.maxIndex), PrecomputeFor(n, m));
    }
  }


  /** `create_optimized(n)`, the Fibonacci part: indices below min(100, max_index) and
      below 14 are looked up for n < 10000, those below min(50, max_index) for
      n < 1000000, none above. The wave-value lookups it also makes are not modelled,
      so the hit and miss counters count the Fibonacci lookups only. */
  function CreateOptimized(n: int): (m: ResonanceMap)
    ensures Valid(m) && m.maxIndex == MaxIndexFor(n)
    ensures forall k: nat :: k in m.fibCache <==> k < CachedBelow(n, m.maxIndex)
  {
    var maxIndex := MaxIndexFor(n);
    var m0 := New(maxIndex);
    assert m0.maxIndex == maxIndex && m0.fibCache == map[];
    PrecomputeKeys(n, m0);
    PrecomputeFor(n, m0)
  }

  /** How many leading indices `create_optimized` looks up: min(100, max_index) (at
      least 14) below 10000, min(50, max_index) below 1000000, none above. */
  function CachedBelow(n: int, maxIndex: int): int {
    if n < 10000 then Max(Min(100, maxIndex), SmallIndices)
    else if n < 1000000 then Min(50, maxIndex)
    else 0
  }
}
