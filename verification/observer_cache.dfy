/** The `ObserverCache` of `axiom4/observer_cache.py`: least-recently-used caches of
    observations, gradients and navigation paths bounded by `cache_size`, a plain
    dictionary of quantum states, pre-computation markers and hit/miss counters. The
    observer is a parameter: the key of its scales and its observation function, whose
    floating-point values are exact reals here. */
module ObserverCache {
  import opened Arith
  import opened Wrappers
  import opened OrderedStore
  import Counters

  /** `tuple(sorted(scales.items()))`, as the observer supplies it. */
  type ScalesKey = seq<(string, int)>
  type ObservationKey = (int, ScalesKey)
  /** (n, position, delta). */
  type GradientKey = (int, int, int)
  /** (n, iteration). */
  type StateKey = (int, int)
  /** (n, start, end). */
  type PathKey = (int, int, int)
  /** (position, weight) pairs of a wavefunction state. */
  type Candidates = seq<(int, real)>

  /** What the cache uses of a `MultiScaleObserver`. */
  datatype Observer = Observer(scales: ScalesKey, observe: int -> real)

  datatype Cache = Cache(
    cacheSize: int,
    observationCache: Store<ObservationKey, real>,
    gradientCache: Store<GradientKey, real>,
    stateCache: map<StateKey, Candidates>,
    pathCache: Store<PathKey, seq<int>>,
    precomputedFibonacci: set<int>,
    precomputedPrimes: set<int>,
    precomputedSqrt: set<int>,
    precomputedGradients: set<(int, multiset<int>)>,
    hits: nat,
    misses: nat,
    gradientHits: nat,
    gradientMisses: nat,
    pathHits: nat,
    pathMisses: nat)

  ghost predicate Valid(c: Cache) {
    OrderedStore.Valid(c.observationCache) && OrderedStore.Valid(c.gradientCache) &&
    OrderedStore.Valid(c.pathCache)
  }

  /** Each least-recently-used cache holds at most cache_size entries. */
  predicate Bounded(c: Cache) {
    |c.observationCache.order| <= c.cacheSize && |c.gradientCache.order| <= c.cacheSize &&
    |c.pathCache.order| <= c.cacheSize
  }

  /** Every cached observation made with the scales of o is o's observation there. */
  ghost predicate Faithful(c: Cache, o: Observer) {
    forall key :: key in c.observationCache.values && key.1 == o.scales ==>
      c.observationCache.values[key] == o.observe(key.0)
  }

  /** Only the observation cache and its counters differ between c and c'. */
  predicate OnlyObservations(c: Cache, c': Cache) {
    c' == c.(observationCache := c'.observationCache, hits := c'.hits, misses := c'.misses)
  }

  /** Only the observation and gradient caches and their counters differ. */
  predicate OnlyObservationsAndGradients(c: Cache, c': Cache) {
    c' == c.(observationCache := c'.observationCache, hits := c'.hits, misses := c'.misses,
             gradientCache := c'.gradientCache, gradientHits := c'.gradientHits,
             gradientMisses := c'.gradientMisses)
  }

  /** `ObserverCache(cache_size)`. */
  function New(cacheSize: int): (c: Cache)
    ensures Valid(c) && c.cacheSize == cacheSize
    ensures c.observationCache.values == map[] && c.gradientCache.values == map[]
    ensures c.stateCache == map[] && c.pathCache.values == map[]
    ensures c.hits == c.misses == c.gradientHits == c.gradientMisses == c.pathHits == c.pathMisses == 0
  {
    Cache(cacheSize, Empty(), Empty(), map[], Empty(), {}, {}, {}, {}, 0, 0, 0, 0, 0, 0)
  }

  // ---------------------------------------------------------------------------
  // Observations

  /** `get_observation(observer, position)`: a hit counts, moves the key to the most recent
      place and answers the stored value; a miss counts, observes, stores the value last
      and trims the cache to cache_size (a negative size raises KeyError). */
  function GetObservation(c: Cache, o: Observer, position: int): (r: Result<(Cache, real)>)
    requires Valid(c)
    ensures (position, o.scales) in c.observationCache.values ==>
      r.Success? && r.value.1 == c.observationCache.values[(position, o.scales)] &&
      r.value.0.hits == c.hits + 1 && r.value.0.misses == c.misses &&
      r.value.0.observationCache.values == c.observationCache.values &&
      r.value.0.observationCache.order == Without(c.observationCache.order, (position, o.scales)) + [(position, o.scales)]
    ensures (position, o.scales) !in c.observationCache.values ==>
      (r.Failure? <==> c.cacheSize < 0) && (r.Failure? ==> r.error == KeyError) &&
      (r.Success? ==> r.value.1 == o.observe(position) && r.value.0.hits == c.hits &&
                      r.value.0.misses == c.misses + 1)
    ensures (position, o.scales) !in c.observationCache.values && r.Success? ==>
      AppendedTrimmed(c.observationCache.order, (position, o.scales), r.value.0.observationCache.order, c.cacheSize)
    ensures r.Success? ==> Valid(r.value.0) && OnlyObservations(c, r.value.0)
    ensures r.Success? && |c.observationCache.order| <= c.cacheSize ==>
      |r.value.0.observationCache.order| <= c.cacheSize
  {
    var key := (position, o.scales);
    if key in c.observationCache.values then
      Success((c.(hits := c.hits + 1, observationCache := MoveToEnd(c.observationCache, key)),
               c.observationCache.values[key]))
    else
      var value := o.observe(position);
      var stored := PutTrimmed(c.observationCache, key, value, c.cacheSize);
      if stored.Failure? then Failure(stored.error)
      else
        PutTrimmedNew(c.observationCache, key, value, c.cacheSize);
        Success((c.(misses := c.misses + 1, observationCache := stored.value), value))
  }

  /** On a faithful cache an observation answers o's value and keeps the cache faithful. */
  lemma ObservationFaithful(c: Cache, o: Observer, position: int)
    requires Valid(c) && Faithful(c, o)
    ensures GetObservation(c, o, position).Success? ==>
      GetObservation(c, o, position).value.1 == o.observe(position) &&
      Faithful(GetObservation(c, o, position).value.0, o)
  {
    var r := GetObservation(c, o, position);
    if r.Success? && (position, o.scales) !in c.observationCache.values {
      var stored := r.value.0.observationCache.values;
      forall k | k in stored && k.1 == o.scales
        ensures stored[k] == o.observe(k.0)
      {
        if k != (position, o.scales) {
          assert stored[k] == c.observationCache.values[k];
        }
      }
    }
  }

  /** The cache after one successful `get_observation`. */
  function Observed(c: Cache, o: Observer, position: int): (r: Cache)
    requires Valid(c) && c.cacheSize >= 0
    ensures Valid(r) && r.cacheSize == c.cacheSize
  {
    GetObservation(c, o, position).value.0
  }

  /** A miss on a cache below its size appends the key. */
  lemma MissBelowSize(c: Cache, o: Observer, position: int)
    requires Valid(c) && |c.observationCache.order| < c.cacheSize
    requires (position, o.scales) !in c.observationCache.order
    ensures Observed(c, o, position).observationCache.order == c.observationCache.order + [(position, o.scales)]
  {
    TrimmedAppend(c.observationCache.order, (position, o.scales),
                  Observed(c, o, position).observationCache.order, c.cacheSize);
  }

  /** A miss on a full cache evicts the least recently used key and appends the new one. */
  lemma MissAtSize(c: Cache, o: Observer, position: int)
    requires Valid(c) && c.cacheSize >= 1 && |c.observationCache.order| == c.cacheSize
    requires (position, o.scales) !in c.observationCache.order
    ensures Observed(c, o, position).observationCache.order == c.observationCache.order[1..] + [(position, o.scales)]
  {
    TrimmedEvict(c.observationCache.order, (position, o.scales),
                 Observed(c, o, position).observationCache.order, c.cacheSize);
  }

  /** Below the size bound, the new key is appended and nothing leaves. */
  lemma TrimmedAppend<T>(before: seq<T>, k: T, after: seq<T>, size: int)
    requires |before| < size && AppendedTrimmed(before, k, after, size)
    ensures after == before + [k]
  {
  }

  /** At the size bound, the oldest key leaves. */
  lemma TrimmedEvict<T>(before: seq<T>, k: T, after: seq<T>, size: int)
    requires |before| == size >= 1 && AppendedTrimmed(before, k, after, size)
    ensures after == before[1..] + [k]
  {
  }

  /** The eviction sequence on a cache of size 3: after 2, 3, 4 the cache is full; 5 evicts
      2; the hit on 3 makes it the most recent, so 6 evicts 4 and a further 3 is a hit. */
  lemma LruEvictionExample(o: Observer, c0: Cache, c1: Cache, c2: Cache, c3: Cache, c4: Cache, c5: Cache, c6: Cache)
    requires c0 == New(3)
    requires c1 == Observed(c0, o, 2) && c2 == Observed(c1, o, 3) && c3 == Observed(c2, o, 4)
    requires c4 == Observed(c3, o, 5) && c5 == Observed(c4, o, 3) && c6 == Observed(c5, o, 6)
    ensures c3.observationCache.order == [(2, o.scales), (3, o.scales), (4, o.scales)]
    ensures c4.observationCache.order == [(3, o.scales), (4, o.scales), (5, o.scales)]
    ensures c6.observationCache.order == [(5, o.scales), (3, o.scales), (6, o.scales)]
    ensures GetObservation(c6, o, 3).Success? && GetObservation(c6, o, 3).value.0.hits == c6.hits + 1
  {
    FillThree(o, c0, c1, c2, c3);
    EvictThenHit(o, c3, c4, c5);
    EvictKeepsRecent(o, c5, c6);
  }

  lemma FillThree(o: Observer, c0: Cache, c1: Cache, c2: Cache, c3: Cache)
    requires c0 == New(3)
    requires c1 == Observed(c0, o, 2) && c2 == Observed(c1, o, 3) && c3 == Observed(c2, o, 4)
    ensures Valid(c3) && c3.cacheSize == 3
    ensures c3.observationCache.order == [(2, o.scales), (3, o.scales), (4, o.scales)]
  {
    var s := o.scales;
    MissAppends(c0, c1, o, 2);
    MissAppends(c1, c2, o, 3);
    MissAppends(c2, c3, o, 4);
    FillOrder(c0.observationCache.order, c1.observationCache.order, c2.observationCache.order,
              c3.observationCache.order, (2, s), (3, s), (4, s));
  }

  lemma EvictThenHit(o: Observer, c3: Cache, c4: Cache, c5: Cache)
    requires Valid(c3) && c3.cacheSize == 3
    requires c3.observationCache.order == [(2, o.scales), (3, o.scales), (4, o.scales)]
    requires c4 == Observed(c3, o, 5) && c5 == Observed(c4, o, 3)
    ensures c4.observationCache.order == [(3, o.scales), (4, o.scales), (5, o.scales)]
    ensures Valid(c5) && c5.cacheSize == 3
    ensures c5.observationCache.order == [(4, o.scales), (5, o.scales), (3, o.scales)]
  {
    var s := o.scales;
    MissEvicts(c3, c4, o, 5);
    RotateIn(c3.observationCache.order, c4.observationCache.order, (5, s));
    HitOnOldest(c4, c5, o, 3);
    RotateIn(c4.observationCache.order, c5.observationCache.order, (3, s));
  }

  lemma EvictKeepsRecent(o: Observer, c5: Cache, c6: Cache)
    requires Valid(c5) && c5.cacheSize == 3
    requires c5.observationCache.order == [(4, o.scales), (5, o.scales), (3, o.scales)]
    requires c6 == Observed(c5, o, 6)
    ensures c6.observationCache.order == [(5, o.scales), (3, o.scales), (6, o.scales)]
    ensures GetObservation(c6, o, 3).Success? && GetObservation(c6, o, 3).value.0.hits == c6.hits + 1
  {
    MissEvicts(c5, c6, o, 6);
    RotateIn(c5.observationCache.order, c6.observationCache.order, (6, o.scales));
    HitIsCounted(c6, o, 3);
  }

  lemma FillOrder<T>(o0: seq<T>, o1: seq<T>, o2: seq<T>, o3: seq<T>, x: T, y: T, z: T)
    requires o0 == [] && o1 == o0 + [x] && o2 == o1 + [y] && o3 == o2 + [z]
    ensures o1 == [x] && o2 == [x, y] && o3 == [x, y, z]
  {
  }

  lemma RotateIn<T>(before: seq<T>, after: seq<T>, w: T)
    requires |before| == 3 && after == before[1..] + [w]
    ensures after == [before[1], before[2], w]
  {
  }

  /** A miss below the size appends the key. */
  lemma MissAppends(c: Cache, c': Cache, o: Observer, position: int)
    requires Valid(c) && |c.observationCache.order| < c.cacheSize
    requires (position, o.scales) !in c.observationCache.order && c' == Observed(c, o, position)
    ensures Valid(c') && c'.cacheSize == c.cacheSize
    ensures c'.observationCache.order == c.observationCache.order + [(position, o.scales)]
  {
    MissBelowSize(c, o, position);
  }

  /** A miss at the size evicts the oldest key and appends the new one. */
  lemma MissEvicts(c: Cache, c': Cache, o: Observer, position: int)
    requires Valid(c) && c.cacheSize >= 1 && |c.observationCache.order| == c.cacheSize
    requires (position, o.scales) !in c.observationCache.order && c' == Observed(c, o, position)
    ensures Valid(c') && c'.cacheSize == c.cacheSize
    ensures c'.observationCache.order == c.observationCache.order[1..] + [(position, o.scales)]
  {
    MissAtSize(c, o, position);
  }

  /** A hit on the least recently used key of a cache holding three keys rotates it last. */
  lemma HitOnOldest(c: Cache, c': Cache, o: Observer, position: int)
    requires Valid(c) && c.cacheSize >= 0 && |c.observationCache.order| == 3
    requires c.observationCache.order[0] == (position, o.scales) && c' == Observed(c, o, position)
    ensures Valid(c') && c'.cacheSize == c.cacheSize
    ensures c'.observationCache.order == c.observationCache.order[1..] + [(position, o.scales)]
  {
    var order := c.observationCache.order;
    assert (position, o.scales) in c.observationCache.values;
    assert order[1..] == [order[1], order[2]];
    assert Without(order, (position, o.scales)) == order[1..];
  }

  /** A cached key is a hit. */
  lemma HitIsCounted(c: Cache, o: Observer, position: int)
    requires Valid(c) && (position, o.scales) in c.observationCache.order
    ensures GetObservation(c, o, position).Success? && GetObservation(c, o, position).value.0.hits == c.hits + 1
  {
  }

  /** After a successful observation a repeat of it is a hit with the same value. */
  lemma RepeatObservationHits(c: Cache, o: Observer, position: int)
    requires Valid(c) && c.cacheSize >= 1 && |c.observationCache.order| <= c.cacheSize
    ensures GetObservation(c, o, position).Success?
    ensures var (c1, v) := GetObservation(c, o, position).value;
      GetObservation(c1, o, position).Success? &&
      GetObservation(c1, o, position).value.1 == v &&
      GetObservation(c1, o, position).value.0.hits == c1.hits + 1
  {
    var key := (position, o.scales);
    if key !in c.observationCache.values {
      PutTrimmedKeeps(c.observationCache, key, o.observe(position), c.cacheSize);
    }
  }

  // ---------------------------------------------------------------------------
  // Gradients

  /** The gradient a miss computes, from the observations it requests: 0 outside
      [2, isqrt(n)], otherwise the central difference over positions clamped into
      [2, isqrt(n)], divided by 2 * delta (ZeroDivisionError when delta = 0). */
  function GradientAt(n: int, position: int, o: Observer, delta: int): (r: Result<real>)
    ensures n < 0 <==> r == Failure(ValueError)
    ensures n >= 0 && (position < 2 || position > Isqrt(n)) ==> r == Success(0.0)
    ensures n >= 0 && 2 <= position <= Isqrt(n) ==> (r.Failure? <==> delta == 0)
    ensures r.Failure? ==> r.error in {ValueError, ZeroDivisionError}
  {
    if n < 0 then Failure(ValueError)
    else
      var root := Isqrt(n);
      if position < 2 || position > root then Success(0.0)
      else if delta == 0 then Failure(ZeroDivisionError)
      else
        Success(CentralDifference(o.observe(Forward(position, delta, root)),
                                  o.observe(Backward(position, delta)), delta))
  }

  /** `(coh_plus - coh_minus) / (2 * delta)`. */
  function CentralDifference(plus: real, minus: real, delta: int): real
    requires delta != 0
  {
    (plus - minus) / (2 * delta) as real
  }

  /** `pos_plus`: position + delta, or position when that passes isqrt(n). */
  function Forward(position: int, delta: int, root: int): int {
    if position + delta <= root then position + delta else position
  }

  /** `pos_minus`: position - delta, or position when that falls below 2. */
  function Backward(position: int, delta: int): int {
    if position - delta >= 2 then position - delta else position
  }

  /** With delta >= 0 the clamped positions a gradient observes lie in [2, isqrt(n)]. */
  lemma GradientSamplesInRange(n: int, position: int, delta: int)
    requires n >= 0 && 2 <= position <= Isqrt(n) && delta >= 0
    ensures 2 <= Forward(position, delta, Isqrt(n)) <= Isqrt(n)
    ensures 2 <= Backward(position, delta) <= Isqrt(n)
  {
  }

  /** The two observations of a gradient miss, forward then backward. */
  function GradientObservations(c: Cache, o: Observer, forward: int, backward: int):
    (r: Result<(Cache, real, real)>)
    requires Valid(c)
    ensures r.Success? ==> Valid(r.value.0) && OnlyObservations(c, r.value.0)
    ensures c.cacheSize >= 0 ==> r.Success?
    ensures r.Failure? ==> r.error == KeyError
  {
    var plus := GetObservation(c, o, forward);
    if plus.Failure? then Failure(plus.error)
    else
      var minus := GetObservation(plus.value.0, o, backward);
      if minus.Failure? then Failure(minus.error)
      else Success((minus.value.0, plus.value.1, minus.value.1))
  }

  /** On a faithful cache the two observations are o's values at the two positions. */
  lemma GradientObservationsFaithful(c: Cache, o: Observer, forward: int, backward: int)
    requires Valid(c) && Faithful(c, o)
    ensures var r := GradientObservations(c, o, forward, backward);
      r.Success? ==> Faithful(r.value.0, o) && r.value.1 == o.observe(forward) && r.value.2 == o.observe(backward)
  {
    ObservationFaithful(c, o, forward);
    var plus := GetObservation(c, o, forward);
    if plus.Success? {
      ObservationFaithful(plus.value.0, o, backward);
    }
  }

  /** `get_gradient(n, position, observer, delta)`: a hit counts and moves the key to the
      most recent place; a miss counts, computes the gradient through `get_observation`
      and stores it as the most recent entry. */
  function GetGradient(c: Cache, n: int, position: int, o: Observer, delta: int): (r: Result<(Cache, real)>)
    requires Valid(c)
    ensures (n, position, delta) in c.gradientCache.values ==>
      r.Success? && r.value.1 == c.gradientCache.values[(n, position, delta)] &&
      r.value.0.gradientHits == c.gradientHits + 1 && r.value.0.gradientMisses == c.gradientMisses &&
      r.value.0.gradientCache.values == c.gradientCache.values &&
      r.value.0.gradientCache.order == Without(c.gradientCache.order, (n, position, delta)) + [(n, position, delta)]
    ensures (n, position, delta) !in c.gradientCache.values ==>
      (n < 0 ==> r == Failure(ValueError)) &&
      (n >= 0 && c.cacheSize < 0 ==> r.Failure?) &&
      (n >= 0 && c.cacheSize >= 0 ==> (r.Failure? <==> delta == 0 && 2 <= position <= Isqrt(n))) &&
      (r.Success? ==> r.value.0.gradientHits == c.gradientHits &&
                      r.value.0.gradientMisses == c.gradientMisses + 1)
    ensures (n, position, delta) !in c.gradientCache.values && n >= 0 && (position < 2 || position > Isqrt(n)) ==>
      r.Success? ==> r.value.1 == 0.0
    ensures r.Success? ==> Valid(r.value.0) && OnlyObservationsAndGradients(c, r.value.0)
  {
    var key := (n, position, delta);
    if key in c.gradientCache.values then
      Success((c.(gradientHits := c.gradientHits + 1, gradientCache := MoveToEnd(c.gradientCache, key)),
               c.gradientCache.values[key]))
    else
      var c1 := c.(gradientMisses := c.gradientMisses + 1);
      if n < 0 then Failure(ValueError)
      else
        StoreGradient(c1, key, GradientMiss(c1, n, position, o, delta, Isqrt(n)))
  }

  /** `self.gradient_cache[key] = gradient` and the trim, after a computed miss. */
  function StoreGradient(c: Cache, key: GradientKey, computed: Result<(Cache, real)>): (r: Result<(Cache, real)>)
    requires Valid(c)
    requires computed.Success? ==> Valid(computed.value.0) && OnlyObservations(c, computed.value.0)
    ensures r.Success? ==> computed.Success? && r.value.1 == computed.value.1
    ensures r.Success? ==> r.value.0.observationCache == computed.value.0.observationCache
    ensures r.Success? ==> Valid(r.value.0) && OnlyObservationsAndGradients(c, r.value.0)
    ensures computed.Success? ==> (r.Success? <==> c.cacheSize >= 0)
  {
    var done :- computed;
    var cache :- PutTrimmed(c.gradientCache, key, done.1, c.cacheSize);
    Success((done.0.(gradientCache := cache), done.1))
  }

  /** The body of a gradient miss after `isqrt`: the bounds guard, then the observations
      and the division. */
  function GradientMiss(c: Cache, n: int, position: int, o: Observer, delta: int, root: int):
    (r: Result<(Cache, real)>)
    requires Valid(c) && n >= 0 && root == Isqrt(n)
    ensures r.Success? ==> Valid(r.value.0) && OnlyObservations(c, r.value.0)
    ensures position < 2 || position > root ==> r == Success((c, 0.0))
    ensures c.cacheSize >= 0 ==> (r.Failure? <==> delta == 0 && 2 <= position <= root)
    ensures r.Failure? ==> r.error in {KeyError, ZeroDivisionError}
  {
    if position < 2 || position > root then Success((c, 0.0))
    else
      var observed :- GradientObservations(c, o, Forward(position, delta, root), Backward(position, delta));
      if delta == 0 then Failure(ZeroDivisionError)
      else Success((observed.0, CentralDifference(observed.1, observed.2, delta)))
  }

  /** On a faithful cache a gradient miss stores and answers the gradient of the
      observer's values, and the cache stays faithful. */
  lemma GradientMissFaithful(c: Cache, n: int, position: int, o: Observer, delta: int, root: int)
    requires Valid(c) && n >= 0 && root == Isqrt(n) && Faithful(c, o)
    ensures var r := GradientMiss(c, n, position, o, delta, root);
      r.Success? ==> Faithful(r.value.0, o) && r.value.1 == GradientAt(n, position, o, delta).value
  {
    if 2 <= position <= root {
      GradientObservationsFaithful(c, o, Forward(position, delta, root), Backward(position, delta));
    }
  }

  /** A gradient miss on a faithful cache answers `GradientAt`; a later request for the
      same key, while it stays cached, answers the same value. */
  lemma GradientFaithful(c: Cache, n: int, position: int, o: Observer, delta: int)
    requires Valid(c) && Faithful(c, o) && (n, position, delta) !in c.gradientCache.values
    ensures var r := GetGradient(c, n, position, o, delta);
      r.Success? ==> Faithful(r.value.0, o) && r.value.1 == GradientAt(n, position, o, delta).value
  {
    if n >= 0 {
      var c1 := c.(gradientMisses := c.gradientMisses + 1);
      var m := GradientMiss(c1, n, position, o, delta, Isqrt(n));
      var r := GetGradient(c, n, position, o, delta);
      GradientMissIsStored(c, n, position, o, delta);
      GradientMissFaithful(c1, n, position, o, delta, Isqrt(n));
      if r.Success? {
        FaithfulDependsOnObservations(m.value.0, r.value.0, o);
      }
    }
  }

  /** A gradient miss is `GradientMiss` followed by the store. */
  lemma GradientMissIsStored(c: Cache, n: int, position: int, o: Observer, delta: int)
    requires Valid(c) && (n, position, delta) !in c.gradientCache.values && n >= 0
    ensures var c1 := c.(gradientMisses := c.gradientMisses + 1);
      GetGradient(c, n, position, o, delta) ==
        StoreGradient(c1, (n, position, delta), GradientMiss(c1, n, position, o, delta, Isqrt(n)))
  {
  }

  /** Faithfulness is a property of the observation cache alone. */
  lemma FaithfulDependsOnObservations(c: Cache, c': Cache, o: Observer)
    requires Faithful(c, o) && c'.observationCache == c.observationCache
    ensures Faithful(c', o)
  {
  }

  // ---------------------------------------------------------------------------
  // Quantum states and navigation paths

  /** `cache_quantum_state(n, iteration, candidates)`: a plain store, never evicted. */
  function CacheQuantumState(c: Cache, n: int, iteration: int, candidates: Candidates): (r: Cache)
    ensures r == c.(stateCache := r.stateCache)
    ensures r.stateCache.Keys == c.stateCache.Keys + {(n, iteration)}
    ensures forall key :: key in r.stateCache ==>
      r.stateCache[key] == if key == (n, iteration) then candidates else c.stateCache[key]
  {
    c.(stateCache := c.stateCache[(n, iteration) := candidates])
  }

  /** `get_quantum_state(n, iteration)`: the stored state, or None. */
  function GetQuantumState(c: Cache, n: int, iteration: int): (r: Option<Candidates>)
    ensures r.Some? <==> (n, iteration) in c.stateCache
    ensures r.Some? ==> r.value == c.stateCache[(n, iteration)]
  {
    if (n, iteration) in c.stateCache then Some(c.stateCache[(n, iteration)]) else None
  }

  /** A stored state is read back unchanged; other keys are unaffected. */
  lemma StateRoundTrip(c: Cache, n: int, iteration: int, candidates: Candidates, n': int, iteration': int)
    ensures GetQuantumState(CacheQuantumState(c, n, iteration, candidates), n, iteration) == Some(candidates)
    ensures (n', iteration') != (n, iteration) ==>
      GetQuantumState(CacheQuantumState(c, n, iteration, candidates), n', iteration') == GetQuantumState(c, n', iteration')
  {
  }

  /** `store_navigation_path(n, start, end, path)`: store, then trim to cache_size. */
  function StoreNavigationPath(c: Cache, n: int, start: int, end: int, path: seq<int>): (r: Result<Cache>)
    requires Valid(c)
    ensures c.cacheSize < 0 <==> r.Failure?
    ensures r.Failure? ==> r.error == KeyError
    ensures r.Success? ==> Valid(r.value) && r.value == c.(pathCache := r.value.pathCache)
    ensures r.Success? ==> |r.value.pathCache.order| <= c.cacheSize
  {
    var cache :- PutTrimmed(c.pathCache, (n, start, end), path, c.cacheSize);
    Success(c.(pathCache := cache))
  }

  /** `get_navigation_path(n, start, end)`: a hit counts, moves the key to the most recent
      place and answers the path; a miss counts and answers None. */
  function GetNavigationPath(c: Cache, n: int, start: int, end: int): (r: (Cache, Option<seq<int>>))
    requires Valid(c)
    ensures (n, start, end) in c.pathCache.values ==>
      r.1 == Some(c.pathCache.values[(n, start, end)]) && r.0.pathHits == c.pathHits + 1 &&
      r.0 == c.(pathHits := r.0.pathHits, pathCache := r.0.pathCache) &&
      r.0.pathCache.values == c.pathCache.values &&
      r.0.pathCache.order == Without(c.pathCache.order, (n, start, end)) + [(n, start, end)]
    ensures (n, start, end) !in c.pathCache.values ==>
      r.1 == None && r.0 == c.(pathMisses := c.pathMisses + 1)
    ensures Valid(r.0)
  {
    var key := (n, start, end);
    if key in c.pathCache.values then
      (c.(pathHits := c.pathHits + 1, pathCache := MoveToEnd(c.pathCache, key)), Some(c.pathCache.values[key]))
    else (c.(pathMisses := c.pathMisses + 1), None)
  }

  /** With cache_size >= 1, a stored path is read back as a hit, whether its key was new
      or already present in a cache within its bound. */
  lemma PathRoundTrip(c: Cache, n: int, start: int, end: int, path: seq<int>)
    requires Valid(c) && c.cacheSize >= 1 && |c.pathCache.order| <= c.cacheSize
    ensures StoreNavigationPath(c, n, start, end, path).Success?
    ensures var c1 := StoreNavigationPath(c, n, start, end, path).value;
      GetNavigationPath(c1, n, start, end).1 == Some(path) &&
      GetNavigationPath(c1, n, start, end).0.pathHits == c.pathHits + 1
  {
    var key := (n, start, end);
    if key in c.pathCache.values {
      PutTrimmedExisting(c.pathCache, key, path, c.cacheSize);
    } else {
      PutTrimmedKeeps(c.pathCache, key, path, c.cacheSize);
    }
  }

  // ---------------------------------------------------------------------------
  // Pre-computed gradients, clearing, statistics and sizing

  /** `precompute_gradients(n, observer, positions)`: once per (n, sorted positions), the
      gradient with delta 1 at each position, in the given order. */
  function PrecomputeGradients(c: Cache, n: int, o: Observer, positions: seq<int>): (r: Result<Cache>)
    requires Valid(c)
    ensures (n, multiset(positions)) in c.precomputedGradients ==> r == Success(c)
    ensures r.Success? ==> Valid(r.value) && (n, multiset(positions)) in r.value.precomputedGradients
    ensures r.Success? && (n, multiset(positions)) !in c.precomputedGradients ==>
      r.value.precomputedGradients == c.precomputedGradients + {(n, multiset(positions))} &&
      r.value.gradientHits + r.value.gradientMisses == c.gradientHits + c.gradientMisses + |positions|
  {
    var key := (n, multiset(positions));
    if key in c.precomputedGradients then Success(c)
    else
      var c1 :- GradientsAt(c, n, o, positions);
      Success(c1.(precomputedGradients := c.precomputedGradients + {key}))
  }

  /** The loop of `precompute_gradients`. */
  function GradientsAt(c: Cache, n: int, o: Observer, positions: seq<int>): (r: Result<Cache>)
    requires Valid(c)
    ensures r.Success? ==> Valid(r.value) && OnlyObservationsAndGradients(c, r.value)
    ensures r.Success? ==> r.value.gradientHits + r.value.gradientMisses == c.gradientHits + c.gradientMisses + |positions|
    decreases |positions|
  {
    if positions == [] then Success(c)
    else
      var step :- GetGradient(c, n, positions[0], o, 1);
      GradientsAt(step.0, n, o, positions[1..])
  }

  /** `clear()` as written: every cache, marker set and counter is emptied except
      `precomputed_gradients`. */
  function Clear(c: Cache): (r: Cache)
    ensures Valid(r) && r.cacheSize == c.cacheSize
    ensures r.observationCache.values == map[] && r.gradientCache.values == map[]
    ensures r.stateCache == map[] && r.pathCache.values == map[]
    ensures r.precomputedFibonacci == r.precomputedPrimes == r.precomputedSqrt == {}
    ensures r.hits == r.misses == r.gradientHits == r.gradientMisses == r.pathHits == r.pathMisses == 0
    ensures r.precomputedGradients == c.precomputedGradients
  {
    New(c.cacheSize).(precomputedGradients := c.precomputedGradients)
  }

  /** After `clear()`, a gradient pre-computation that ran before returns at once and
      leaves the emptied gradient cache empty. */
  lemma ClearKeepsStaleMarker(c: Cache, n: int, o: Observer, positions: seq<int>)
    requires Valid(c) && PrecomputeGradients(c, n, o, positions).Success? && positions != []
    ensures var cleared := Clear(PrecomputeGradients(c, n, o, positions).value);
      PrecomputeGradients(cleared, n, o, positions) == Success(cleared) &&
      cleared.gradientCache.values == map[]
  {
  }

  /** `clear()` as its documentation states it, emptying `precomputed_gradients` too. */
  function ClearAll(c: Cache): (r: Cache)
    ensures r == New(c.cacheSize)
    ensures r.precomputedGradients == {}
  {
    Clear(c).(precomputedGradients := {})
  }

  /** After the full clear, a gradient pre-computation runs again: it makes one gradient
      request per position. */
  lemma ClearAllRecomputes(c: Cache, n: int, o: Observer, positions: seq<int>)
    requires Valid(c)
    ensures var cleared := ClearAll(c);
      PrecomputeGradients(cleared, n, o, positions).Success? ==>
      var after := PrecomputeGradients(cleared, n, o, positions).value;
      after.gradientHits + after.gradientMisses == |positions|
  {
  }

  /** The summary `get_cache_statistics` returns. */
  datatype Statistics = Statistics(
    observationCacheSize: nat, gradientCacheSize: nat, stateCacheSize: nat, pathCacheSize: nat,
    observationHits: nat, observationMisses: nat, gradientHits: nat, gradientMisses: nat,
    pathHits: nat, pathMisses: nat, totalHitRate: real, precomputedNumbers: nat)

  /** `get_cache_statistics()`: the four dictionary sizes, the six counters, the hit rate
      over all three kinds of lookup together, and the number of distinct pre-computed
      markers. */
  function GetCacheStatistics(c: Cache): (s: Statistics)
    ensures s.observationCacheSize == |c.observationCache.values| && s.gradientCacheSize == |c.gradientCache.values|
    ensures s.stateCacheSize == |c.stateCache| && s.pathCacheSize == |c.pathCache.values|
    ensures s.observationHits == c.hits && s.observationMisses == c.misses
    ensures s.gradientHits == c.gradientHits && s.gradientMisses == c.gradientMisses
    ensures s.pathHits == c.pathHits && s.pathMisses == c.pathMisses
    ensures s.totalHitRate == Counters.HitRate(c.hits + c.gradientHits + c.pathHits, c.misses + c.gradientMisses + c.pathMisses)
    ensures 0.0 <= s.totalHitRate <= 1.0
    ensures c.hits + c.gradientHits + c.pathHits + c.misses + c.gradientMisses + c.pathMisses == 0 ==>
      s.totalHitRate == 0.0
    ensures s.precomputedNumbers == |c.precomputedFibonacci + c.precomputedPrimes + c.precomputedSqrt|
    ensures s.precomputedNumbers <= |c.precomputedFibonacci| + |c.precomputedPrimes| + |c.precomputedSqrt|
    ensures s.precomputedNumbers >= |c.precomputedFibonacci| && s.precomputedNumbers >= |c.precomputedPrimes|
    ensures s.precomputedNumbers >= |c.precomputedSqrt|
  {
    var union := c.precomputedFibonacci + c.precomputedPrimes + c.precomputedSqrt;
    UnionSize(c.precomputedFibonacci, c.precomputedPrimes, c.precomputedSqrt);
    Statistics(
      |c.observationCache.values|, |c.gradientCache.values|, |c.stateCache|, |c.pathCache.values|,
      c.hits, c.misses, c.gradientHits, c.gradientMisses, c.pathHits, c.pathMisses,
      Counters.HitRate(c.hits + c.gradientHits + c.pathHits, c.misses + c.gradientMisses + c.pathMisses),
      |union|)
  }

  /** The union of three sets is no larger than their sizes together and no smaller than
      any one of them. */
  lemma UnionSize(a: set<int>, b: set<int>, d: set<int>)
    ensures |a + b + d| <= |a| + |b| + |d|
    ensures |a + b + d| >= |a| && |a + b + d| >= |b| && |a + b + d| >= |d|
  {
    assert |a + b| <= |a| + |b| by {
      assert |a + b| == |a| + |b| - |a * b|;
    }
    assert |a + b + d| == |a + b| + |d| - |(a + b) * d|;
    SubsetSize(a, a + b + d);
    SubsetSize(b, a + b + d);
    SubsetSize(d, a + b + d);
  }

  lemma SubsetSize(x: set<int>, u: set<int>)
    requires x <= u
    ensures |x| <= |u|
  {
    assert u * x == x;
    assert |u| == |u - x| + |x - u| + |u * x|;
  }

  /** In a bounded cache each reported least-recently-used size is at most cache_size. */
  lemma StatisticsWithinSize(c: Cache)
    requires Valid(c) && Bounded(c)
    ensures var s := GetCacheStatistics(c);
      s.observationCacheSize <= c.cacheSize && s.gradientCacheSize <= c.cacheSize && s.pathCacheSize <= c.cacheSize
  {
    OrderedStore.SizeIsOrderLength(c.observationCache);
    OrderedStore.SizeIsOrderLength(c.gradientCache);
    OrderedStore.SizeIsOrderLength(c.pathCache);
  }

  /** The cache size `create_optimized(n)` picks: a tier of n caps a multiple of isqrt(n),
      and the result is at least 1000. */
  function OptimizedSize(n: nat): (size: int)
    ensures 1000 <= size <= 20000
    ensures n < 1000 ==> size == 1000
    ensures 1000 <= n < 100000 ==> size == Max(1000, 5 * Isqrt(n)) <= 1580
    ensures 100000 <= n < 10000000 ==> size == Max(1000, 2 * Isqrt(n)) <= 6324
    ensures n >= 10000000 ==> size == Min(20000, Isqrt(n)) && size >= 3162
  {
    var root := Isqrt(n);
    TierBounds(n);
    var tiered := if n < 1000 then Min(2000, root * 10)
                  else if n < 100000 then Min(5000, root * 5)
                  else if n < 10000000 then Min(10000, root * 2)
                  else Min(20000, root);
    Max(tiered, 1000)
  }

  /** isqrt(n) below each tier boundary: 31, 316 and 3162; at least 3162 from 10^7 on. */
  lemma TierBounds(n: nat)
    ensures n < 1000 ==> Isqrt(n) <= 31
    ensures n < 100000 ==> Isqrt(n) <= 316
    ensures n < 10000000 ==> Isqrt(n) <= 3162
    ensures n >= 10000000 ==> Isqrt(n) >= 3162
  {
    IsqrtCompare(n, 32);
    IsqrtCompare(n, 317);
    IsqrtCompare(n, 3163);
    IsqrtCompare(n, 3162);
  }

  /** The sizes of the documented examples: 100 and 10^4 give 1000. */
  lemma OptimizedSizeSmallExamples()
    ensures OptimizedSize(100) == 1000 && OptimizedSize(10000) == 1000
  {
  }

  /** 9999999 gives 2 * 3162 = 6324. */
  lemma OptimizedSizeMediumExample()
    ensures OptimizedSize(9999999) == 6324
  {
    IsqrtUnique(9999999, 3162);
  }

  /** 10^7 gives 3162. */
  lemma OptimizedSizeLargeExample()
    ensures OptimizedSize(10000000) == 3162
  {
    IsqrtUnique(10000000, 3162);
  }

  /** 10^8 gives 10000. */
  lemma OptimizedSizeHugeExample()
    ensures OptimizedSize(100000000) == 10000
  {
    IsqrtUnique(100000000, 10000);
  }

  /** `create_optimized(n)`: an empty cache of the tiered size; `math.isqrt` of a negative
      n raises ValueError. */
  function CreateOptimized(n: int): (r: Result<Cache>)
    ensures n < 0 <==> r.Failure?
    ensures r.Failure? ==> r.error == ValueError
    ensures r.Success? ==> r.value == New(OptimizedSize(n)) && 1000 <= r.value.cacheSize <= 20000
  {
    if n < 0 then Failure(ValueError) else Success(New(OptimizedSize(n)))
  }
}
