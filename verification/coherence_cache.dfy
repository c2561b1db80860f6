/** The `CoherenceCache` of `axiom3/coherence.py`: two dictionaries bounded by `max_size`
    with first-in first-out eviction, one of spectral vectors by number and one of
    coherence values by the canonical key (min(a, b), max(a, b), n). The spectral vector
    and the coherence formula are floating point; they enter as the parameters `spectral`
    and `measure`, and their values are opaque payloads here. */
module CoherenceCache {
  import opened Arith
  import opened Wrappers
  import opened OrderedStore

  type Key = (int, int, int)

  datatype Cache<V, W> = Cache(maxSize: int, spectralCache: Store<int, V>, coherenceCache: Store<Key, W>)

  ghost predicate Valid<V, W>(c: Cache<V, W>) {
    OrderedStore.Valid(c.spectralCache) && OrderedStore.Valid(c.coherenceCache)
  }

  /** Every stored spectral vector is the one `spectral` computes, and every stored
      coherence value is `measure` on the spectral vectors of its key. */
  ghost predicate Faithful<V, W>(c: Cache<V, W>, spectral: int -> V, measure: (V, V, V) -> W) {
    (forall k :: k in c.spectralCache.values ==> c.spectralCache.values[k] == spectral(k)) &&
    (forall key :: key in c.coherenceCache.values ==>
       c.coherenceCache.values[key] == measure(spectral(key.0), spectral(key.1), spectral(key.2)))
  }

  /** The coherence formula adds S(a) and S(b) elementwise, so it is symmetric in them. */
  ghost predicate Symmetric<V(!new), W>(measure: (V, V, V) -> W) {
    forall x, y, z :: measure(x, y, z) == measure(y, x, z)
  }

  /** The size bound the eviction keeps. */
  predicate Bounded<V, W>(c: Cache<V, W>) {
    |c.spectralCache.order| <= c.maxSize && |c.coherenceCache.order| <= c.maxSize
  }

  /** `CoherenceCache(max_size)`. */
  function New<V, W>(maxSize: int): (c: Cache<V, W>)
    ensures Valid(c) && c.maxSize == maxSize
    ensures c.spectralCache.order == [] && c.coherenceCache.order == []
    ensures c.spectralCache.values == map[] && c.coherenceCache.values == map[]
  {
    Cache(maxSize, Empty(), Empty())
  }

  /** The canonical key: the pair in ascending order, then n. */
  function CoherenceKey(a: int, b: int, n: int): (key: Key)
    ensures key.0 <= key.1 && {key.0, key.1} == {a, b} && key.2 == n
  {
    (Min(a, b), Max(a, b), n)
  }

  /** The key does not depend on the order of a and b, and it tells apart any two
      (pair, n) combinations that differ as unordered pairs. */
  lemma KeySymmetric(a: int, b: int, n: int, a': int, b': int, n': int)
    ensures CoherenceKey(a, b, n) == CoherenceKey(b, a, n)
    ensures CoherenceKey(a, b, n) == CoherenceKey(a', b', n') <==> {a, b} == {a', b'} && n == n'
  {
    if {a, b} == {a', b'} {
      assert a in {a', b'} && b in {a', b'} && a' in {a, b} && b' in {a, b};
    }
  }

  /** The eviction before an insert: when the dictionary holds max_size entries or more,
      its first key goes; `next(iter({}))` raises StopIteration when it is already empty. */
  function MakeRoom<K(==,!new), X>(s: Store<K, X>, maxSize: int): (r: Result<Store<K, X>>)
    requires OrderedStore.Valid(s)
    ensures r.Failure? <==> |s.order| == 0 && maxSize <= 0
    ensures r.Failure? ==> r.error == StopIteration
    ensures r.Success? ==> OrderedStore.Valid(r.value) && r.value.values.Keys <= s.values.Keys
    ensures r.Success? ==> forall k :: k in r.value.values ==> r.value.values[k] == s.values[k]
    ensures r.Success? && |s.order| >= maxSize ==> r.value.order == s.order[1..]
    ensures r.Success? && |s.order| < maxSize ==> r.value == s
  {
    if |s.order| >= maxSize then
      if |s.order| == 0 then Failure(StopIteration) else Success(DropFirst(s))
    else Success(s)
  }

  /** `get_spectral(n)`: a cached vector is returned as is; otherwise room is made and
      `spectral(n)` is stored last. */
  function GetSpectral<V, W>(c: Cache<V, W>, n: int, spectral: int -> V): (r: Result<(Cache<V, W>, V)>)
    requires Valid(c)
    ensures n in c.spectralCache.values ==> r == Success((c, c.spectralCache.values[n]))
    ensures n !in c.spectralCache.values ==>
      (r.Failure? <==> |c.spectralCache.order| == 0 && c.maxSize <= 0)
    ensures r.Failure? ==> r.error == StopIteration
    ensures r.Success? ==> Valid(r.value.0) && r.value.0.maxSize == c.maxSize
    ensures r.Success? ==> r.value.0.coherenceCache == c.coherenceCache
    ensures r.Success? ==> n in r.value.0.spectralCache.values
    ensures r.Success? && n !in c.spectralCache.values ==>
      r.value.1 == spectral(n) && r.value.0.spectralCache.order[|r.value.0.spectralCache.order| - 1] == n
  {
    if n in c.spectralCache.values then Success((c, c.spectralCache.values[n]))
    else
      var room :- MakeRoom(c.spectralCache, c.maxSize);
      var v := spectral(n);
      Success((c.(spectralCache := Put(room, n, v)), v))
  }

  /** `get_coherence(a, b, n)`: a hit answers from the cache and changes nothing; a miss
      makes room, fetches the three spectral vectors through `get_spectral` and stores
      `measure(S(a), S(b), S(n))` under the canonical key. */
  function GetCoherence<V, W>(c: Cache<V, W>, a: int, b: int, n: int, spectral: int -> V,
                             measure: (V, V, V) -> W): (r: Result<(Cache<V, W>, W)>)
    requires Valid(c)
    ensures CoherenceKey(a, b, n) in c.coherenceCache.values ==>
      r == Success((c, c.coherenceCache.values[CoherenceKey(a, b, n)]))
    ensures c.maxSize >= 1 ==> r.Success?
    ensures r.Failure? ==> r.error == StopIteration && c.maxSize <= 0
    ensures r.Success? ==> Valid(r.value.0) && r.value.0.maxSize == c.maxSize
    ensures r.Success? ==> CoherenceKey(a, b, n) in r.value.0.coherenceCache.values
    ensures r.Success? ==> r.value.0.coherenceCache.values[CoherenceKey(a, b, n)] == r.value.1
    ensures r.Success? && CoherenceKey(a, b, n) !in c.coherenceCache.values ==>
      var order := c.coherenceCache.order;
      r.value.0.coherenceCache.order ==
        (if |order| >= c.maxSize && |order| > 0 then order[1..] else order) + [CoherenceKey(a, b, n)]
  {
    var key := CoherenceKey(a, b, n);
    if key in c.coherenceCache.values then Success((c, c.coherenceCache.values[key]))
    else
      var room :- MakeRoom(c.coherenceCache, c.maxSize);
      var vectors :- SpectralTriple(c.(coherenceCache := room), a, b, n, spectral);
      var value := measure(vectors.1, vectors.2, vectors.3);
      Success((vectors.0.(coherenceCache := Put(room, key, value)), value))
  }

  /** The three `get_spectral` calls of a miss, in the order a, b, n. */
  function SpectralTriple<V, W>(c: Cache<V, W>, a: int, b: int, n: int, spectral: int -> V):
    (r: Result<(Cache<V, W>, V, V, V)>)
    requires Valid(c)
    ensures c.maxSize >= 1 ==> r.Success?
    ensures r.Failure? ==> r.error == StopIteration
    ensures r.Success? ==> Valid(r.value.0) && r.value.0.maxSize == c.maxSize
    ensures r.Success? ==> r.value.0.coherenceCache == c.coherenceCache
  {
    var sa :- GetSpectral(c, a, spectral);
    // a is now cached, so the dictionary is not empty and the next two calls succeed
    var sb := GetSpectral(sa.0, b, spectral).value;
    var sn := GetSpectral(sb.0, n, spectral).value;
    Success((sn.0, sa.1, sb.1, sn.1))
  }

  /** `clear()`: both dictionaries empty, the bound unchanged. */
  function Clear<V, W>(c: Cache<V, W>): (r: Cache<V, W>)
    ensures Valid(r) && r.maxSize == c.maxSize
    ensures r.spectralCache.order == [] && r.coherenceCache.order == []
    ensures r.spectralCache.values == map[] && r.coherenceCache.values == map[]
  {
    Cache(c.maxSize, Empty(), Empty())
  }

  // ---------------------------------------------------------------------------
  // Properties

  /** On a faithful cache `get_spectral` answers `spectral(n)` and keeps the cache faithful. */
  lemma SpectralFaithful<V, W>(c: Cache<V, W>, n: int, spectral: int -> V, measure: (V, V, V) -> W)
    requires Valid(c) && Faithful(c, spectral, measure)
    ensures GetSpectral(c, n, spectral).Success? ==>
      GetSpectral(c, n, spectral).value.1 == spectral(n) &&
      Faithful(GetSpectral(c, n, spectral).value.0, spectral, measure)
  {
  }

  /** On a faithful cache, and with the symmetric formula, `get_coherence` answers the
      coherence of S(a), S(b) and S(n) whether it hits or misses, and keeps the cache
      faithful. */
  lemma CoherenceFaithful<V(!new), W>(c: Cache<V, W>, a: int, b: int, n: int, spectral: int -> V,
                                measure: (V, V, V) -> W)
    requires Valid(c) && Faithful(c, spectral, measure) && Symmetric(measure)
    ensures GetCoherence(c, a, b, n, spectral, measure).Success? ==>
      GetCoherence(c, a, b, n, spectral, measure).value.1 == measure(spectral(a), spectral(b), spectral(n)) &&
      Faithful(GetCoherence(c, a, b, n, spectral, measure).value.0, spectral, measure)
  {
    var key := CoherenceKey(a, b, n);
    var va := spectral(a);
    var vb := spectral(b);
    assert measure(spectral(key.0), spectral(key.1), spectral(n)) == measure(va, vb, spectral(n)) by {
      assert measure(vb, va, spectral(n)) == measure(va, vb, spectral(n));
    }
    if key !in c.coherenceCache.values && MakeRoom(c.coherenceCache, c.maxSize).Success? {
      var room := MakeRoom(c.coherenceCache, c.maxSize).value;
      var c1 := c.(coherenceCache := room);
      assert Faithful(c1, spectral, measure);
      TripleFaithful(c1, a, b, n, spectral, measure);
    }
  }

  /** On a faithful cache the three `get_spectral` calls answer S(a), S(b) and S(n). */
  lemma TripleFaithful<V, W>(c: Cache<V, W>, a: int, b: int, n: int, spectral: int -> V,
                             measure: (V, V, V) -> W)
    requires Valid(c) && Faithful(c, spectral, measure)
    ensures SpectralTriple(c, a, b, n, spectral).Success? ==>
      var (c', sa, sb, sn) := SpectralTriple(c, a, b, n, spectral).value;
      sa == spectral(a) && sb == spectral(b) && sn == spectral(n) && Faithful(c', spectral, measure)
  {
    SpectralFaithful(c, a, spectral, measure);
    if GetSpectral(c, a, spectral).Success? {
      var c1 := GetSpectral(c, a, spectral).value.0;
      SpectralFaithful(c1, b, spectral, measure);
      var c2 := GetSpectral(c1, b, spectral).value.0;
      SpectralFaithful(c2, n, spectral, measure);
    }
  }

  /** A repeated `get_coherence`, in either order of a and b, is a hit: it answers the value
      the first call stored and changes nothing. */
  lemma RepeatIsHit<V, W>(c: Cache<V, W>, a: int, b: int, n: int, spectral: int -> V,
                          measure: (V, V, V) -> W)
    requires Valid(c) && GetCoherence(c, a, b, n, spectral, measure).Success?
    ensures var (c1, v) := GetCoherence(c, a, b, n, spectral, measure).value;
      GetCoherence(c1, a, b, n, spectral, measure) == Success((c1, v)) &&
      GetCoherence(c1, b, a, n, spectral, measure) == Success((c1, v))
  {
  }

  /** With max_size >= 1 both dictionaries stay within max_size. */
  lemma CoherenceBounded<V, W>(c: Cache<V, W>, a: int, b: int, n: int, spectral: int -> V,
                               measure: (V, V, V) -> W)
    requires Valid(c) && Bounded(c) && c.maxSize >= 1
    ensures Bounded(GetCoherence(c, a, b, n, spectral, measure).value.0)
  {
    var key := CoherenceKey(a, b, n);
    if key !in c.coherenceCache.values {
      var room := MakeRoom(c.coherenceCache, c.maxSize).value;
      var c1 := c.(coherenceCache := room);
      SpectralBounded(c1, a, spectral);
      var c2 := GetSpectral(c1, a, spectral).value.0;
      SpectralBounded(c2, b, spectral);
      var c3 := GetSpectral(c2, b, spectral).value.0;
      SpectralBounded(c3, n, spectral);
    }
  }

  /** `get_spectral` keeps the spectral dictionary within max_size >= 1. */
  lemma SpectralBounded<V, W>(c: Cache<V, W>, n: int, spectral: int -> V)
    requires Valid(c) && |c.spectralCache.order| <= c.maxSize && c.maxSize >= 1
    ensures GetSpectral(c, n, spectral).Success?
    ensures |GetSpectral(c, n, spectral).value.0.spectralCache.order| <= c.maxSize
  {
  }

  /** When a miss finds the dictionary full, the key inserted first is the one evicted. */
  lemma FirstInFirstOut<V, W>(c: Cache<V, W>, a: int, b: int, n: int, spectral: int -> V,
                              measure: (V, V, V) -> W)
    requires Valid(c) && c.maxSize >= 1 && |c.coherenceCache.order| >= c.maxSize
    requires CoherenceKey(a, b, n) !in c.coherenceCache.values
    ensures GetCoherence(c, a, b, n, spectral, measure).value.0.coherenceCache.order ==
      c.coherenceCache.order[1..] + [CoherenceKey(a, b, n)]
    ensures c.coherenceCache.order[0] !in GetCoherence(c, a, b, n, spectral, measure).value.0.coherenceCache.values
  {
  }
}
