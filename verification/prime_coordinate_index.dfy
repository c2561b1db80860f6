/** The prime coordinate index (`axiom1/prime_coordinate_index.py`): residue vectors
    [n mod p for p in primes], cached for n up to a limit, their zero sets and Manhattan
    distance, and a bounded store of geodesic paths with hit and miss counters.
    Every operation takes the index and returns the updated index with its result. */
module PrimeCoordinateIndex {
  import opened Arith
  import opened Seqs
  import opened Wrappers
  import PrimeCore
  import Counters

  type PathKey = (int, int, int)

  datatype Index = Index(
    limit: int,
    primes: seq<int>,
    coordinates: map<int, seq<int>>,
    geodesicPaths: map<PathKey, seq<int>>,
    cacheHits: nat,
    cacheMisses: nat)

  /** The residue vector of n: entry i is n mod primes[i] (Python's `%`, which agrees with
      the Euclidean remainder for a positive divisor). */
  function Coords(primes: seq<int>, n: int): (c: seq<int>)
    requires forall i :: 0 <= i < |primes| ==> primes[i] >= 2
    ensures |c| == |primes|
    ensures forall i :: 0 <= i < |c| ==> c[i] == n % primes[i] && 0 <= c[i] < primes[i]
  {
    seq(|primes|, i requires 0 <= i < |primes| => n % primes[i])
  }

  /** The index keeps its table of primes, every cached vector is the residue vector of
      its key, only keys up to the limit are cached, and at most limit // 10 paths. */
  ghost predicate Valid(idx: Index) {
    && (forall i :: 0 <= i < |idx.primes| ==> idx.primes[i] >= 2)
    && (forall n :: n in idx.coordinates ==> n <= idx.limit && idx.coordinates[n] == Coords(idx.primes, n))
    && |idx.geodesicPaths| <= PathCapacity(idx.limit)
  }

  /** `limit // 10`, floored at 0 as a bound on a size. */
  function PathCapacity(limit: int): nat {
    if limit / 10 < 0 then 0 else limit / 10
  }

  /** `PrimeCoordinateIndex(limit, prime_limit)`. */
  function New(limit: int, primeLimit: int): (idx: Index)
    ensures Valid(idx)
    ensures idx.primes == PrimeCore.PrimesUpTo(primeLimit)
    ensures idx.coordinates == map[] && idx.geodesicPaths == map[]
    ensures idx.cacheHits == 0 && idx.cacheMisses == 0
  {
    var primes := PrimeCore.PrimesUpTo(primeLimit);
    assert forall i :: 0 <= i < |primes| ==> primes[i] in primes;
    Index(limit, primes, map[], map[], 0, 0)
  }

  // ---------------------------------------------------------------------------
  // Coordinates

  /** `get_coordinates`: a cached vector counts a hit; otherwise a miss, and the fresh
      vector is cached when n <= limit. Either way the answer is the residue vector. */
  function GetCoordinates(idx: Index, n: int): (r: (Index, seq<int>))
    requires Valid(idx)
    ensures Valid(r.0)
    ensures r.1 == Coords(idx.primes, n)
    ensures n in idx.coordinates ==> r.0 == idx.(cacheHits := idx.cacheHits + 1)
    ensures n !in idx.coordinates ==> r.0.cacheHits == idx.cacheHits && r.0.cacheMisses == idx.cacheMisses + 1
    ensures forall k :: k in r.0.coordinates <==> k in idx.coordinates || (k == n && n <= idx.limit)
    ensures n !in idx.coordinates ==> r.0.coordinates == if n <= idx.limit then idx.coordinates[n := r.1] else idx.coordinates
    ensures r.0.primes == idx.primes && r.0.limit == idx.limit && r.0.geodesicPaths == idx.geodesicPaths
  {
    if n in idx.coordinates then
      (idx.(cacheHits := idx.cacheHits + 1), idx.coordinates[n])
    else
      var coords := Coords(idx.primes, n);
      var cached := if n <= idx.limit then idx.coordinates[n := coords] else idx.coordinates;
      CachedStaysValid(idx, n);
      (idx.(coordinates := cached, cacheMisses := idx.cacheMisses + 1), coords)
  }

  /** Caching the residue vector of n keeps the index valid when n is within the limit. */
  lemma CachedStaysValid(idx: Index, n: int)
    requires Valid(idx)
    ensures n <= idx.limit ==> Valid(idx.(coordinates := idx.coordinates[n := Coords(idx.primes, n)]))
  {
  }

  /** Asking twice for the same n: the second lookup is a hit when n <= limit, and both
      give the same vector. */
  lemma RepeatLookupHits(idx: Index, n: int)
    requires Valid(idx) && n <= idx.limit
    ensures var (idx1, c1) := GetCoordinates(idx, n);
      var (idx2, c2) := GetCoordinates(idx1, n);
      c1 == c2 && idx2.cacheHits == idx1.cacheHits + 1 && idx2.cacheMisses == idx1.cacheMisses
  {
  }

  /** `get_zero_coordinates`: the (index, prime) pairs whose coordinate is 0, in table order. */
  function GetZeroCoordinates(idx: Index, n: int): (r: (Index, seq<(int, int)>))
    requires Valid(idx)
    ensures Valid(r.0)
    ensures forall i, p :: (i, p) in r.1 <==> 0 <= i < |idx.primes| && p == idx.primes[i] && n % p == 0
    ensures forall a, b :: 0 <= a < b < |r.1| ==> r.1[a].0 < r.1[b].0
  {
    var (idx', coords) := GetCoordinates(idx, n);
    (idx', ZerosFrom(coords, idx.primes, 0))
  }

  /** The loop `for i, coord in enumerate(coords)` from position `from`. */
  function ZerosFrom(coords: seq<int>, primes: seq<int>, from: nat): (z: seq<(int, int)>)
    requires |coords| == |primes| && from <= |coords|
    ensures forall i, p :: (i, p) in z <==> from <= i < |coords| && coords[i] == 0 && p == primes[i]
    ensures forall a :: 0 <= a < |z| ==> from <= z[a].0
    ensures forall a, b :: 0 <= a < b < |z| ==> z[a].0 < z[b].0
    decreases |coords| - from
  {
    if from == |coords| then []
    else
      var rest := ZerosFrom(coords, primes, from + 1);
      if coords[from] == 0 then [(from, primes[from])] + rest else rest
  }

  // ---------------------------------------------------------------------------
  // Distance

  /** The Manhattan distance `sum(abs(cx - cy) for cx, cy in zip(...))`. */
  function Manhattan(xs: seq<int>, ys: seq<int>): (d: nat)
    requires |xs| == |ys|
    ensures d == 0 <==> xs == ys
  {
    if |xs| == 0 then 0
    else
      var rest := Manhattan(xs[1..], ys[1..]);
      assert xs == [xs[0]] + xs[1..] && ys == [ys[0]] + ys[1..];
      Abs(xs[0] - ys[0]) + rest
  }

  lemma {:induction false} ManhattanSymmetric(xs: seq<int>, ys: seq<int>)
    requires |xs| == |ys|
    ensures Manhattan(xs, ys) == Manhattan(ys, xs)
  {
    if |xs| > 0 {
      ManhattanSymmetric(xs[1..], ys[1..]);
    }
  }

  /** `compute_coordinate_distance`: the Manhattan distance of the two residue vectors. */
  function ComputeCoordinateDistance(idx: Index, x: int, y: int): (r: (Index, nat))
    requires Valid(idx)
    ensures Valid(r.0)
    ensures r.1 == Manhattan(Coords(idx.primes, x), Coords(idx.primes, y))
  {
    var (idx1, cx) := GetCoordinates(idx, x);
    var (idx2, cy) := GetCoordinates(idx1, y);
    (idx2, Manhattan(cx, cy))
  }

  /** The distance is 0 exactly when x and y agree modulo every prime of the table (so
      in particular for x == y), and it does not depend on the order of x and y. */
  lemma DistanceProperties(idx: Index, x: int, y: int)
    requires Valid(idx)
    ensures ComputeCoordinateDistance(idx, x, y).1 == 0 <==>
      forall i :: 0 <= i < |idx.primes| ==> x % idx.primes[i] == y % idx.primes[i]
    ensures ComputeCoordinateDistance(idx, x, y).1 == ComputeCoordinateDistance(idx, y, x).1
    ensures ComputeCoordinateDistance(idx, x, x).1 == 0
  {
    var cx, cy := Coords(idx.primes, x), Coords(idx.primes, y);
    ManhattanSymmetric(cx, cy);
    if forall i :: 0 <= i < |idx.primes| ==> x % idx.primes[i] == y % idx.primes[i] {
      assert cx == cy;
    }
  }

  // ---------------------------------------------------------------------------
  // Geodesic paths

  function Reverse(s: seq<int>): (r: seq<int>)
    ensures |r| == |s| && forall i :: 0 <= i < |s| ==> r[i] == s[|s| - 1 - i]
  {
    if |s| == 0 then [] else Reverse(s[1..]) + [s[0]]
  }

  /** `get_geodesic_path`: the stored path, else the reverse of the stored (end, start)
      path, each counting a hit; else None, and no counter moves. */
  function GetGeodesicPath(idx: Index, start: int, end: int, n: int): (r: (Index, Option<seq<int>>))
    ensures (start, end, n) in idx.geodesicPaths ==>
      r == (idx.(cacheHits := idx.cacheHits + 1), Some(idx.geodesicPaths[(start, end, n)]))
    ensures (start, end, n) !in idx.geodesicPaths && (end, start, n) in idx.geodesicPaths ==>
      r == (idx.(cacheHits := idx.cacheHits + 1), Some(Reverse(idx.geodesicPaths[(end, start, n)])))
    ensures (start, end, n) !in idx.geodesicPaths && (end, start, n) !in idx.geodesicPaths ==>
      r == (idx, None)
  {
    if (start, end, n) in idx.geodesicPaths then
      (idx.(cacheHits := idx.cacheHits + 1), Some(idx.geodesicPaths[(start, end, n)]))
    else if (end, start, n) in idx.geodesicPaths then
      (idx.(cacheHits := idx.cacheHits + 1), Some(Reverse(idx.geodesicPaths[(end, start, n)])))
    else
      (idx, None)
  }

  /** `store_geodesic_path`: stores (or overwrites) only while fewer than limit // 10
      paths are held. */
  function StoreGeodesicPath(idx: Index, start: int, end: int, n: int, path: seq<int>): (idx': Index)
    requires Valid(idx)
    ensures Valid(idx')
    ensures |idx.geodesicPaths| < idx.limit / 10 ==> idx'.geodesicPaths == idx.geodesicPaths[(start, end, n) := path]
    ensures |idx.geodesicPaths| >= idx.limit / 10 ==> idx' == idx
    ensures idx'.coordinates == idx.coordinates && idx'.cacheHits == idx.cacheHits && idx'.cacheMisses == idx.cacheMisses
  {
    if |idx.geodesicPaths| < idx.limit / 10 then
      idx.(geodesicPaths := idx.geodesicPaths[(start, end, n) := path])
    else
      idx
  }

  /** A stored path is found again forwards, and backwards as its reverse when the
      opposite key is not stored itself. */
  lemma StoreThenGet(idx: Index, start: int, end: int, n: int, path: seq<int>)
    requires Valid(idx) && |idx.geodesicPaths| < idx.limit / 10
    ensures GetGeodesicPath(StoreGeodesicPath(idx, start, end, n, path), start, end, n).1 == Some(path)
    ensures (end, start, n) !in idx.geodesicPaths && (end, start) != (start, end) ==>
      GetGeodesicPath(StoreGeodesicPath(idx, start, end, n, path), end, start, n).1 == Some(Reverse(path))
  {
  }

  // ---------------------------------------------------------------------------
  // Precomputation and the factory

  /** `get_coordinates` applied to each of ns in turn: exactly those up to the limit
      become cached. */
  function LookupAll(idx: Index, ns: seq<int>): (idx': Index)
    requires Valid(idx)
    ensures Valid(idx')
    ensures idx'.coordinates.Keys == idx.coordinates.Keys + (set k | k in ns && k <= idx.limit)
    ensures idx'.primes == idx.primes && idx'.limit == idx.limit && idx'.geodesicPaths == idx.geodesicPaths
    ensures idx'.cacheHits + idx'.cacheMisses == idx.cacheHits + idx.cacheMisses + |ns|
    ensures idx'.cacheHits >= idx.cacheHits && idx'.cacheMisses >= idx.cacheMisses
    decreases |ns|
  {
    if |ns| == 0 then idx
    else
      var (idx1, _) := GetCoordinates(idx, ns[0]);
      var r := LookupAll(idx1, ns[1..]);
      assert forall k :: k in ns <==> k == ns[0] || k in ns[1..];
      r
  }

  /** When every number looked up is within the limit, each miss caches one new number:
      the misses count exactly how much the cache grew. */
  lemma {:induction false} LookupAllMissesCached(idx: Index, ns: seq<int>)
    requires Valid(idx) && forall k :: k in ns ==> k <= idx.limit
    ensures var idx' := LookupAll(idx, ns);
      |idx'.coordinates| == |idx.coordinates| + (idx'.cacheMisses - idx.cacheMisses)
    decreases |ns|
  {
    if |ns| > 0 {
      var idx1 := GetCoordinates(idx, ns[0]).0;
      assert ns[0] in ns;
      if ns[0] !in idx.coordinates {
        assert |idx1.coordinates| == |idx.coordinates| + 1;
      }
      assert forall k :: k in ns[1..] ==> k in ns;
      LookupAllMissesCached(idx1, ns[1..]);
    }
  }

  /** The doubling loop `while power <= bound: ...; power *= 2`, from `power`. */
  function PowersOfTwoFrom(power: int, bound: int): (ps: seq<int>)
    requires power >= 1
    ensures forall k :: k in ps ==> power <= k <= bound
    decreases bound - power
  {
    if power <= bound then [power] + PowersOfTwoFrom(2 * power, bound) else []
  }

  /** The integers lo .. hi - 1 in ascending order. */
  function Between(lo: int, hi: int): (s: seq<int>)
    ensures forall k :: k in s <==> lo <= k < hi
    decreases hi - lo
  {
    if lo < hi then [lo] + Between(lo + 1, hi) else []
  }

  /** The entries of ps that are at most bound, in their order. */
  function AtMost(ps: seq<int>, bound: int): (r: seq<int>)
    ensures |r| <= |ps|
    ensures forall k :: k in r <==> k in ps && k <= bound
  {
    if |ps| == 0 then []
    else
      assert forall k :: k in ps <==> k == ps[0] || k in ps[1..];
      (if ps[0] <= bound then [ps[0]] else []) + AtMost(ps[1..], bound)
  }

  /** The numbers `precompute_common_coordinates` looks up, in order: 2 .. min(999, limit),
      the powers of two up to min(65536, limit), then those of the first twenty primes of
      the table that are at most limit. */
  function CommonNumbers(limit: int, primes: seq<int>): (ns: seq<int>)
    ensures forall k :: k in ns ==> k <= limit
    ensures forall k :: k in ns <==>
      (2 <= k < 1000 && k <= limit)
      || k in PowersOfTwoFrom(2, Min(65536, limit))
      || (k in primes[..Min(|primes|, 20)] && k <= limit)
  {
    Between(2, Min(1000, limit + 1))
    + PowersOfTwoFrom(2, Min(65536, limit))
    + AtMost(primes[..Min(|primes|, 20)], limit)
  }

  /** `precompute_common_coordinates`: the common numbers become cached and nothing else;
      every one of them is looked up once, and the misses are exactly the numbers newly
      cached. */
  function PrecomputeCommon(idx: Index): (idx': Index)
    requires Valid(idx)
    ensures Valid(idx')
    ensures idx'.primes == idx.primes && idx'.limit == idx.limit && idx'.geodesicPaths == idx.geodesicPaths
    ensures forall k :: k in idx'.coordinates <==> k in idx.coordinates || k in CommonNumbers(idx.limit, idx.primes)
    ensures idx'.cacheHits + idx'.cacheMisses == idx.cacheHits + idx.cacheMisses + |CommonNumbers(idx.limit, idx.primes)|
    ensures idx'.cacheMisses - idx.cacheMisses == |idx'.coordinates| - |idx.coordinates|
  {
    LookupAllMissesCached(idx, CommonNumbers(idx.limit, idx.primes));
    LookupAll(idx, CommonNumbers(idx.limit, idx.primes))
  }

  /** The powers of two the precomputation reaches when the limit is 10000. */
  lemma PowersToTenThousand()
    ensures PowersOfTwoFrom(2, 10000) == [2, 4, 8, 16, 32, 64, 128, 256, 512, 1024, 2048, 4096, 8192]
  {
    assert PowersOfTwoFrom(1024, 10000) == [1024, 2048, 4096, 8192];
  }

  /** `create_optimized(n)`: limit min(100000, max(10000, n)) over the primes up to 50,
      precomputed only when n < 10000. */
  function CreateOptimized(n: int): (idx: Index)
    ensures Valid(idx)
    ensures 10000 <= idx.limit <= 100000
    ensures idx.limit == (if n < 10000 then 10000 else if n > 100000 then 100000 else n)
    ensures idx.primes == PrimeCore.PrimesUpTo(50)
    ensures idx.geodesicPaths == map[]
  {
    var idx := New(Min(100000, Max(10000, n)), 50);
    if n < 10000 then PrecomputeCommon(idx) else idx
  }

  /** The counters after `create_optimized(n)`: untouched for n >= 10000; otherwise one
      lookup per common number, and one miss per number cached. */
  lemma CreateOptimizedCounts(n: int)
    ensures var idx := CreateOptimized(n);
      n >= 10000 ==> idx.coordinates == map[] && idx.cacheHits == 0 && idx.cacheMisses == 0
    ensures var idx := CreateOptimized(n);
      n < 10000 ==> idx.cacheMisses == |idx.coordinates| && idx.cacheHits + idx.cacheMisses == |CommonNumbers(idx.limit, idx.primes)|
  {
    var idx0 := New(Min(100000, Max(10000, n)), 50);
    if n < 10000 {
      assert CreateOptimized(n) == PrecomputeCommon(idx0);
      PrecomputeFromEmpty(idx0);
    } else {
      assert CreateOptimized(n) == idx0;
    }
  }

  /** Precomputing on an index with an empty cache and zero counters. */
  lemma PrecomputeFromEmpty(idx: Index)
    requires Valid(idx) && idx.coordinates == map[] && idx.cacheHits == 0 && idx.cacheMisses == 0
    ensures var r := PrecomputeCommon(idx);
      r.cacheMisses == |r.coordinates| && r.cacheHits + r.cacheMisses == |CommonNumbers(r.limit, r.primes)|
  {
  }

  /** With the limit at 10000 the common numbers are 2 .. 999 and the powers of two from
      1024 to 8192 (the primes of the table are all below 1000). */
  lemma CommonAtTenThousand(limit: int, primes: seq<int>)
    requires limit == 10000 && forall k :: k in primes ==> 2 <= k <= 50
    ensures forall k :: k in CommonNumbers(limit, primes) && k <= limit <==> 2 <= k < 1000 || k in {1024, 2048, 4096, 8192}
  {
    PowersToTenThousand();
    var firstPrimes := primes[..if |primes| < 20 then |primes| else 20];
    assert forall k :: k in firstPrimes ==> k in primes;
  }

  /** The integers lo .. hi - 1 as a set: hi - lo of them when lo <= hi. */
  function RangeSet(lo: int, hi: int): (r: set<int>)
    ensures forall k :: k in r <==> lo <= k < hi
    ensures |r| == if lo <= hi then hi - lo else 0
    decreases hi - lo
  {
    if lo < hi then {lo} + RangeSet(lo + 1, hi) else {}
  }

  /** A set holding exactly lo .. hi - 1 (2 .. 999) and the four powers of two from 1024
      has 1002 members. */
  lemma CountSmallAndLarge(keys: set<int>, lo: int, hi: int)
    requires lo == 2 && hi == 1000
    requires forall k :: k in keys <==> lo <= k < hi || k in {1024, 2048, 4096, 8192}
    ensures |keys| == 1002
  {
    var small := RangeSet(lo, hi);
    AddPowersAbove(small, keys);
  }

  /** Adding 1024, 2048, 4096 and 8192 to a set of numbers below 1000 adds four members. */
  lemma AddPowersAbove(small: set<int>, keys: set<int>)
    requires forall k :: k in small ==> k < 1000
    requires forall k :: k in keys <==> k in small || k in {1024, 2048, 4096, 8192}
    ensures |keys| == |small| + 4
  {
    var s1 := small + {1024};
    var s2 := s1 + {2048};
    var s3 := s2 + {4096};
    var s4 := s3 + {8192};
    assert forall k :: k in keys <==> k in s4;
    assert keys == s4;
  }

  /** An index created for n < 10000 holds exactly 2 .. 999 and 1024, 2048, 4096, 8192,
      1002 numbers, each of them counted as one miss; one created for a larger n starts
      empty. */
  lemma CreateOptimizedCache(n: int)
    ensures n < 10000 ==> forall k :: k in CreateOptimized(n).coordinates <==>
      2 <= k < 1000 || k in {1024, 2048, 4096, 8192}
    ensures n < 10000 ==> |CreateOptimized(n).coordinates| == CreateOptimized(n).cacheMisses == 1002
    ensures n >= 10000 ==> CreateOptimized(n).coordinates == map[]
  {
    CreateOptimizedCounts(n);
    if n < 10000 {
      var idx := CreateOptimized(n);
      var idx0 := New(Min(100000, Max(10000, n)), 50);
      assert idx == PrecomputeCommon(idx0);
      assert forall k :: k in idx0.primes ==> 2 <= k <= 50;
      CommonAtTenThousand(idx0.limit, idx0.primes);
      forall k
        ensures k in idx.coordinates <==> 2 <= k < 1000 || k in {1024, 2048, 4096, 8192}
      {
        assert k in idx.coordinates <==> k in CommonNumbers(idx0.limit, idx0.primes) && k <= idx0.limit;
      }
      CountSmallAndLarge(idx.coordinates.Keys, 2, 1000);
    }
  }

  // ---------------------------------------------------------------------------
  // Statistics

  datatype Statistics = Statistics(
    cacheHits: nat,
    cacheMisses: nat,
    hitRate: real,
    coordinatesCached: nat,
    pathsCached: nat)

  /** `get_cache_statistics` (without the pull-field count). */
  function GetCacheStatistics(idx: Index): (s: Statistics)
    ensures s.cacheHits == idx.cacheHits && s.cacheMisses == idx.cacheMisses
    ensures s.hitRate == Counters.HitRate(idx.cacheHits, idx.cacheMisses)
    ensures idx.cacheHits + idx.cacheMisses == 0 ==> s.hitRate == 0.0
    ensures s.coordinatesCached == |idx.coordinates| && s.pathsCached == |idx.geodesicPaths|
  {
    Statistics(idx.cacheHits, idx.cacheMisses, Counters.HitRate(idx.cacheHits, idx.cacheMisses),
      |idx.coordinates|, |idx.geodesicPaths|)
  }
}
