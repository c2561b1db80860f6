/** The `SpectralSignatureCache` of `axiom3/spectral_signature_cache.py`: least-recently-used
    dictionaries of spectral vectors by number, of coherence values by the symmetric key
    (min(a, b), max(a, b), n), of interference patterns by number, and of per-number fold
    maps from position to energy, with one pair of hit and miss counters shared by all of
    them. The spectral vector, the coherence and energy formulas and the interference
    analysis are floating point; they enter as the parameters `spectral`, `coherence`,
    `energy` and `interference`, and their values are opaque payloads here. */
module SpectralSignatureCache {
  import opened Arith
  import opened Seqs
  import opened Wrappers
  import opened OrderedStore
  import opened FibonacciCore
  import Counters
  import CoherenceCache
  import FibonacciResonanceMap

  type Key = CoherenceCache.Key

  /** A fold map: position -> energy, in insertion order. */
  type FoldMap = Store<int, real>

  datatype Cache<V, P> = Cache(
    cacheSize: int,
    spectralCache: Store<int, V>,
    coherenceCache: Store<Key, real>,
    interferenceBank: Store<int, P>,
    foldMap: Store<int, FoldMap>,
    cacheHits: nat,
    cacheMisses: nat)

  ghost predicate Valid<V, P>(c: Cache<V, P>) {
    OrderedStore.Valid(c.spectralCache) && OrderedStore.Valid(c.coherenceCache) &&
    OrderedStore.Valid(c.interferenceBank) && OrderedStore.Valid(c.foldMap) &&
    forall n :: n in c.foldMap.values ==> OrderedStore.Valid(c.foldMap.values[n])
  }

  /** Each least-recently-used dictionary holds at most cache_size entries. */
  predicate Bounded<V, P>(c: Cache<V, P>) {
    |c.spectralCache.order| <= c.cacheSize && |c.coherenceCache.order| <= c.cacheSize &&
    |c.interferenceBank.order| <= c.cacheSize && |c.foldMap.order| <= c.cacheSize
  }

  /** Every cached spectral vector is the one `spectral` computes. */
  ghost predicate SpectralFaithful<V, P>(c: Cache<V, P>, spectral: int -> V) {
    forall k :: k in c.spectralCache.values ==> c.spectralCache.values[k] == spectral(k)
  }

  /** Only the spectral dictionary and the counters differ between c and c'. */
  ghost predicate OnlySpectral<V, P>(c: Cache<V, P>, c': Cache<V, P>) {
    c' == c.(spectralCache := c'.spectralCache, cacheHits := c'.cacheHits, cacheMisses := c'.cacheMisses)
  }

  /** The empty dictionaries of `__init__`, before the priority numbers are cached. */
  function Empty<V, P>(cacheSize: int): (c: Cache<V, P>)
    ensures Valid(c) && c.cacheSize == cacheSize && c.cacheHits == c.cacheMisses == 0
    ensures c.spectralCache.order == [] && c.coherenceCache.order == [] &&
            c.interferenceBank.order == [] && c.foldMap.order == []
  {
    Cache(cacheSize, OrderedStore.Empty(), OrderedStore.Empty(), OrderedStore.Empty(), OrderedStore.Empty(), 0, 0)
  }

  // ---------------------------------------------------------------------------
  // Spectral vectors

  /** `get_spectral_vector(n)`: a hit counts, moves n to the most recent place and answers
      the stored vector; a miss counts, stores `spectral(n)` last and trims the oldest
      entries beyond cache_size (a negative size raises KeyError). */
  function GetSpectralVector<V, P>(c: Cache<V, P>, n: int, spectral: int -> V): (r: Result<(Cache<V, P>, V)>)
    requires Valid(c)
    ensures n in c.spectralCache.values ==>
      r.Success? && r.value.1 == c.spectralCache.values[n] &&
      r.value.0.cacheHits == c.cacheHits + 1 && r.value.0.cacheMisses == c.cacheMisses &&
      r.value.0.spectralCache.values == c.spectralCache.values &&
      r.value.0.spectralCache.order == Without(c.spectralCache.order, n) + [n]
    ensures n !in c.spectralCache.values ==>
      (r.Failure? <==> c.cacheSize < 0) && (r.Failure? ==> r.error == KeyError) &&
      (r.Success? ==> r.value.1 == spectral(n) && r.value.0.cacheHits == c.cacheHits &&
                      r.value.0.cacheMisses == c.cacheMisses + 1 &&
                      AppendedTrimmed(c.spectralCache.order, n, r.value.0.spectralCache.order, c.cacheSize))
    ensures r.Success? ==> Valid(r.value.0) && OnlySpectral(c, r.value.0)
    ensures r.Success? ==> forall k :: k in r.value.0.spectralCache.values ==>
      r.value.0.spectralCache.values[k] == c.spectralCache.values[n := r.value.1][k]
  {
    if n in c.spectralCache.values then
      Success((c.(cacheHits := c.cacheHits + 1, spectralCache := MoveToEnd(c.spectralCache, n)),
               c.spectralCache.values[n]))
    else
      var v := spectral(n);
      var stored := PutTrimmed(c.spectralCache, n, v, c.cacheSize);
      if stored.Failure? then Failure(stored.error)
      else
        PutTrimmedNew(c.spectralCache, n, v, c.cacheSize);
        Success((c.(cacheMisses := c.cacheMisses + 1, spectralCache := stored.value), v))
  }

  /** `_ensure_spectral_cached(n)`: stores `spectral(n)` when n is absent, without touching
      the counters or the place of a present n. */
  function EnsureSpectralCached<V, P>(c: Cache<V, P>, n: int, spectral: int -> V): (r: Result<Cache<V, P>>)
    requires Valid(c)
    ensures n in c.spectralCache.values ==> r == Success(c)
    ensures n !in c.spectralCache.values ==> (r.Failure? <==> c.cacheSize < 0)
    ensures r.Failure? ==> r.error == KeyError
    ensures r.Success? ==> Valid(r.value)
    ensures r.Success? ==> r.value == c.(spectralCache := EnsureStored(c.spectralCache, n, spectral, c.cacheSize).value)
  {
    var s :- EnsureStored(c.spectralCache, n, spectral, c.cacheSize);
    Success(c.(spectralCache := s))
  }

  /** The dictionary step of `_ensure_spectral_cached`: an absent n gets `spectral(n)`, last,
      and the oldest keys beyond size leave. */
  function EnsureStored<V>(s: Store<int, V>, n: int, spectral: int -> V, size: int): (r: Result<Store<int, V>>)
    requires OrderedStore.Valid(s)
    ensures n in s.values ==> r == Success(s)
    ensures n !in s.values ==>
      (r.Failure? <==> size < 0) && (r.Success? ==> AppendedTrimmed(s.order, n, r.value.order, size))
    ensures r.Failure? ==> r.error == KeyError
    ensures r.Success? ==> OrderedStore.Valid(r.value)
    ensures r.Success? && |s.order| <= size ==> |r.value.order| <= size
    ensures r.Success? && n !in s.values ==> forall k :: k in r.value.values ==>
      k in s.values[n := spectral(n)] && r.value.values[k] == s.values[n := spectral(n)][k]
  {
    if n in s.values then Success(s)
    else
      var stored := PutTrimmed(s, n, spectral(n), size);
      if stored.Failure? then Failure(stored.error)
      else
        PutTrimmedNew(s, n, spectral(n), size);
        stored
  }

  /** `precompute_for_n(n)`: one `get_spectral_vector(n)`, its answer dropped. */
  function PrecomputeFor<V, P>(c: Cache<V, P>, n: int, spectral: int -> V): (r: Result<Cache<V, P>>)
    requires Valid(c)
    ensures r.Failure? <==> n !in c.spectralCache.values && c.cacheSize < 0
    ensures r.Success? ==> Valid(r.value) && OnlySpectral(c, r.value)
    ensures r.Success? ==> r.value.cacheHits + r.value.cacheMisses == c.cacheHits + c.cacheMisses + 1
  {
    var (c', _) :- GetSpectralVector(c, n, spectral);
    Success(c')
  }

  // ---------------------------------------------------------------------------
  // The priority numbers of the constructor

  /** The numbers `_precompute_priority_numbers` caches, in its order: fib(1..11), the
      primes up to 31, then 2^0..2^9. Repeats (fib(1) = fib(2) = 1, 2, 3, 5, 13, 8 = 2^3, ...)
      are skipped by the membership test. */
  function PriorityNumbers(): (ks: seq<int>)
    ensures |ks| == 32
  {
    FibsFrom(1, 11) + [2, 3, 5, 7, 11, 13, 17, 19, 23, 29, 31] + PowersOfTwo(0, 10)
  }

  /** fib(k), fib(k + 1), ..., count of them. */
  function FibsFrom(k: nat, count: nat): (r: seq<int>)
    ensures |r| == count && forall i :: 0 <= i < count ==> r[i] == F(k + i)
    decreases count
  {
    if count == 0 then [] else [F(k) as int] + FibsFrom(k + 1, count - 1)
  }

  /** 2^e, 2^(e + 1), ..., count of them. */
  function PowersOfTwo(e: nat, count: nat): (r: seq<int>)
    ensures |r| == count && forall i :: 0 <= i < count ==> r[i] == Pow(2, e + i)
    decreases count
  {
    if count == 0 then [] else [Pow(2, e)] + PowersOfTwo(e + 1, count - 1)
  }

  /** The keys of ks not in seen, each once, in the order of their first occurrence: the
      order in which a dictionary receives them. */
  function FirstSeen(seen: seq<int>, ks: seq<int>): (r: seq<int>)
    ensures |r| <= |ks|
    ensures forall k :: k in r <==> k in ks && k !in seen
    decreases |ks|
  {
    if ks == [] then []
    else if ks[0] in seen then FirstSeen(seen, ks[1..])
    else [ks[0]] + FirstSeen(seen + [ks[0]], ks[1..])
  }

  /** `_ensure_spectral_cached` over ks in turn, on the dictionary alone. */
  function EnsureKeys<V>(s: Store<int, V>, ks: seq<int>, spectral: int -> V, size: int): (r: Result<Store<int, V>>)
    requires OrderedStore.Valid(s)
    ensures size >= 0 ==> r.Success?
    ensures r.Failure? ==> r.error == KeyError
    ensures r.Success? ==> OrderedStore.Valid(r.value)
    ensures r.Success? && |s.order| <= size ==> |r.value.order| <= size
    decreases |ks|
  {
    if ks == [] then Success(s)
    else
      var s1 :- EnsureStored(s, ks[0], spectral, size);
      EnsureKeys(s1, ks[1..], spectral, size)
  }

  /** `SpectralSignatureCache(cache_size)`: empty dictionaries, then the priority numbers. */
  function New<V, P>(cacheSize: int, spectral: int -> V): (r: Result<Cache<V, P>>)
    ensures r.Failure? <==> cacheSize < 0
    ensures r.Failure? ==> r.error == KeyError
    ensures r.Success? ==> Valid(r.value) && r.value.cacheSize == cacheSize && Bounded(r.value)
    ensures r.Success? ==> r.value.cacheHits == r.value.cacheMisses == 0
    ensures r.Success? ==> r.value.coherenceCache.order == [] && r.value.interferenceBank.order == [] &&
                           r.value.foldMap.order == []
    ensures r.Success? ==> r.value.spectralCache == EnsureKeys(OrderedStore.Empty(), PriorityNumbers(), spectral, cacheSize).value
  {
    var c: Cache<V, P> := Empty(cacheSize);
    var s := EnsureKeys(c.spectralCache, PriorityNumbers(), spectral, cacheSize);
    if s.Failure? then
      Failure(s.error)
    else
      Success(c.(spectralCache := s.value))
  }

  /** With room for every key, ensuring ks appends its unseen keys in first-seen order. */
  lemma {:induction false} EnsureKeysAppends<V>(s: Store<int, V>, ks: seq<int>, spectral: int -> V, size: int)
    requires OrderedStore.Valid(s) && |s.order| + |ks| <= size
    ensures EnsureKeys(s, ks, spectral, size).Success?
    ensures EnsureKeys(s, ks, spectral, size).value.order == s.order + FirstSeen(s.order, ks)
    decreases |ks|
  {
    if ks != [] {
      if ks[0] in s.values {
        EnsureKeysPresent(s, ks, spectral, size);
        EnsureKeysAppends(s, ks[1..], spectral, size);
      } else {
        var s1 := EnsureKeysAbsent(s, ks, spectral, size);
        EnsureKeysAppends(s1, ks[1..], spectral, size);
      }
    }
  }

  /** A present first key changes nothing and is not seen anew. */
  lemma EnsureKeysPresent<V>(s: Store<int, V>, ks: seq<int>, spectral: int -> V, size: int)
    requires OrderedStore.Valid(s) && ks != [] && ks[0] in s.values
    ensures EnsureKeys(s, ks, spectral, size) == EnsureKeys(s, ks[1..], spectral, size)
    ensures FirstSeen(s.order, ks) == FirstSeen(s.order, ks[1..])
  {
    assert ks[0] in s.order;
  }

  /** An absent first key, with room for it, goes last and is seen first. */
  lemma EnsureKeysAbsent<V>(s: Store<int, V>, ks: seq<int>, spectral: int -> V, size: int) returns (s1: Store<int, V>)
    requires OrderedStore.Valid(s) && ks != [] && ks[0] !in s.values && |s.order| < size
    ensures OrderedStore.Valid(s1) && s1.order == s.order + [ks[0]]
    ensures EnsureKeys(s, ks, spectral, size) == EnsureKeys(s1, ks[1..], spectral, size)
    ensures s.order + FirstSeen(s.order, ks) == s1.order + FirstSeen(s1.order, ks[1..])
  {
    assert ks[0] !in s.order;
    s1 := EnsureStored(s, ks[0], spectral, size).value;
    FirstSeenAbsent(s.order, ks);
  }

  lemma FirstSeenAbsent(seen: seq<int>, ks: seq<int>)
    requires ks != [] && ks[0] !in seen
    ensures seen + FirstSeen(seen, ks) == (seen + [ks[0]]) + FirstSeen(seen + [ks[0]], ks[1..])
  {
    var rest := FirstSeen(seen + [ks[0]], ks[1..]);
    assert FirstSeen(seen, ks) == [ks[0]] + rest;
    AppendAssoc(seen, [ks[0]], rest);
  }

  lemma AppendAssoc<T>(a: seq<T>, b: seq<T>, c: seq<T>)
    ensures a + (b + c) == (a + b) + c
  {
  }

  /** Ensuring keys keeps a dictionary faithful to `spectral`. */
  lemma {:induction false} EnsureKeysFaithful<V>(s: Store<int, V>, ks: seq<int>, spectral: int -> V, size: int)
    requires OrderedStore.Valid(s) && StoreFaithful(s, spectral) && size >= 0
    ensures StoreFaithful(EnsureKeys(s, ks, spectral, size).value, spectral)
    decreases |ks|
  {
    if ks != [] {
      EnsureStoredFaithful(s, ks[0], spectral, size);
      EnsureKeysFaithful(EnsureStored(s, ks[0], spectral, size).value, ks[1..], spectral, size);
    }
  }

  /** Ensuring a key keeps a dictionary faithful to `spectral`. */
  lemma EnsureStoredFaithful<V>(s: Store<int, V>, n: int, spectral: int -> V, size: int)
    requires OrderedStore.Valid(s) && StoreFaithful(s, spectral) && size >= 0
    ensures StoreFaithful(EnsureStored(s, n, spectral, size).value, spectral)
  {
    var r := EnsureStored(s, n, spectral, size).value;
    forall k | k in r.values
      ensures r.values[k] == spectral(k)
    {
      if n !in s.values && k != n {
        assert r.values[k] == s.values[k];
      }
    }
  }

  /** Every value of s is the one `spectral` computes for its key. */
  ghost predicate StoreFaithful<V>(s: Store<int, V>, spectral: int -> V) {
    forall k :: k in s.values ==> s.values[k] == spectral(k)
  }

  /** With cache_size >= 32 the constructor caches exactly the priority numbers, each once,
      in first-seen order, and each with the vector `spectral` computes. */
  lemma PriorityCached<V, P>(cacheSize: int, spectral: int -> V)
    requires cacheSize >= 32
    ensures New<V, P>(cacheSize, spectral).Success?
    ensures New<V, P>(cacheSize, spectral).value.spectralCache.order == FirstSeen([], PriorityNumbers())
    ensures forall k :: k in New<V, P>(cacheSize, spectral).value.spectralCache.values <==> k in PriorityNumbers()
    ensures SpectralFaithful(New<V, P>(cacheSize, spectral).value, spectral)
  {
    EnsureKeysFromEmpty(PriorityNumbers(), spectral, cacheSize);
  }

  /** Every vector the constructor caches is the one `spectral` computes. */
  lemma NewFaithful<V, P>(cacheSize: int, spectral: int -> V)
    requires cacheSize >= 0
    ensures New<V, P>(cacheSize, spectral).Success? && SpectralFaithful(New<V, P>(cacheSize, spectral).value, spectral)
  {
    var ks := PriorityNumbers();
    EnsureKeysFaithful(OrderedStore.Empty(), ks, spectral, cacheSize);
  }

  /** From an empty dictionary with room for ks, ensuring ks caches exactly the keys of ks. */
  lemma EnsureKeysFromEmpty<V>(ks: seq<int>, spectral: int -> V, size: int)
    requires |ks| <= size
    ensures EnsureKeys(OrderedStore.Empty(), ks, spectral, size).Success?
    ensures EnsureKeys(OrderedStore.Empty(), ks, spectral, size).value.order == FirstSeen([], ks)
    ensures forall k :: k in EnsureKeys(OrderedStore.Empty(), ks, spectral, size).value.values <==> k in ks
    ensures StoreFaithful(EnsureKeys(OrderedStore.Empty(), ks, spectral, size).value, spectral)
  {
    var e: Store<int, V> := OrderedStore.Empty();
    EnsureKeysAppends(e, ks, spectral, size);
    EnsureKeysFaithful(e, ks, spectral, size);
    var r := EnsureKeys(e, ks, spectral, size).value;
    forall k
      ensures k in r.values <==> k in ks
    {
      assert k in r.values <==> k in r.order;
    }
  }

  /** The numbers the constructor's test looks up are cached: fib(6) = 8, fib(7) = 13,
      fib(8) = 21, the primes 2, 3, 5, 7 and the powers 4 and 16; 6 is not. */
  lemma PriorityMembers<V, P>(cacheSize: int, spectral: int -> V)
    requires cacheSize >= 32
    ensures var c := New<V, P>(cacheSize, spectral).value;
      8 in c.spectralCache.values && 13 in c.spectralCache.values && 21 in c.spectralCache.values &&
      2 in c.spectralCache.values && 3 in c.spectralCache.values && 5 in c.spectralCache.values &&
      7 in c.spectralCache.values && 4 in c.spectralCache.values && 16 in c.spectralCache.values &&
      6 !in c.spectralCache.values
  {
    PriorityCached<V, P>(cacheSize, spectral);
    ListedPriorityNumbers();
  }

  lemma ListedPriorityNumbers()
    ensures var ks := PriorityNumbers();
      8 in ks && 13 in ks && 21 in ks && 2 in ks && 3 in ks && 5 in ks && 7 in ks && 4 in ks && 16 in ks &&
      6 !in ks
  {
    var ks := PriorityNumbers();
    FibTable();
    assert ks[5] == F(6) == 8 && ks[6] == F(7) == 13 && ks[7] == F(8) == 21;
    assert ks[11] == 2 && ks[12] == 3 && ks[13] == 5 && ks[14] == 7;
    assert ks[24] == Pow(2, 2) == 4 && ks[26] == Pow(2, 4) == 16;
    SixNotPriority();
  }

  lemma SixNotPriority()
    ensures 6 !in PriorityNumbers()
  {
    var fibs, primes, powers := FibsFrom(1, 11), [2, 3, 5, 7, 11, 13, 17, 19, 23, 29, 31], PowersOfTwo(0, 10);
    FibsNotSix();
    PowersNotSix();
    assert 6 !in primes;
    assert PriorityNumbers() == fibs + primes + powers;
  }

  lemma FibsNotSix()
    ensures 6 !in FibsFrom(1, 11)
  {
    var fibs := FibsFrom(1, 11);
    FibTable();
    forall i | 0 <= i < 11
      ensures fibs[i] != 6
    {
      if i < 5 {
        FibonacciResonanceMap.FibMonotone(1 + i, 5);
      } else {
        FibonacciResonanceMap.FibMonotone(6, 1 + i);
      }
    }
  }

  lemma PowersNotSix()
    ensures 6 !in PowersOfTwo(0, 10)
  {
    var powers := PowersOfTwo(0, 10);
    forall i | 0 <= i < 10
      ensures powers[i] != 6
    {
      if i >= 3 {
        PowAdd(2, 3, i - 3);
        PowPositive(2, i - 3);
      } else {
        assert powers[i] == Pow(2, i);
      }
    }
  }

  lemma FibTable()
    ensures F(5) == 5 && F(6) == 8 && F(7) == 13 && F(8) == 21
  {
  }

  // ---------------------------------------------------------------------------
  // Coherence

  /** Every cached coherence is `coherence` of the spectral vectors of its key. */
  ghost predicate CoherenceFaithful<V, P>(c: Cache<V, P>, spectral: int -> V, coherence: (V, V, V) -> real) {
    forall key :: key in c.coherenceCache.values ==>
      c.coherenceCache.values[key] == coherence(spectral(key.0), spectral(key.1), spectral(key.2))
  }

  /** The three `get_spectral_vector` calls of a coherence miss, in the order a, b, n. */
  function SpectralTriple<V, P>(c: Cache<V, P>, a: int, b: int, n: int, spectral: int -> V):
    (r: Result<(Cache<V, P>, V, V, V)>)
    requires Valid(c)
    ensures c.cacheSize >= 0 ==> r.Success?
    ensures r.Failure? ==> r.error == KeyError
    ensures r.Success? ==> Valid(r.value.0) && OnlySpectral(c, r.value.0)
    ensures r.Success? ==> r.value.0.cacheHits + r.value.0.cacheMisses == c.cacheHits + c.cacheMisses + 3
    ensures r.Success? ==> r.value.0.cacheHits >= c.cacheHits && r.value.0.cacheMisses >= c.cacheMisses
  {
    var p :- SpectralPair(c, a, b, spectral);
    var sn :- GetSpectralVector(p.0, n, spectral);
    Success((sn.0, p.1, p.2, sn.1))
  }

  /** The first two lookups of `get_coherence`: S(a), then S(b). */
  function SpectralPair<V, P>(c: Cache<V, P>, a: int, b: int, spectral: int -> V): (r: Result<(Cache<V, P>, V, V)>)
    requires Valid(c)
    ensures c.cacheSize >= 0 ==> r.Success?
    ensures r.Failure? ==> r.error == KeyError
    ensures r.Success? ==> Valid(r.value.0) && OnlySpectral(c, r.value.0) && r.value.0.cacheSize == c.cacheSize
    ensures r.Success? ==> r.value.0.cacheHits + r.value.0.cacheMisses == c.cacheHits + c.cacheMisses + 2
    ensures r.Success? ==> r.value.0.cacheHits >= c.cacheHits && r.value.0.cacheMisses >= c.cacheMisses
  {
    var sa :- GetSpectralVector(c, a, spectral);
    var sb :- GetSpectralVector(sa.0, b, spectral);
    Success((sb.0, sa.1, sb.1))
  }

  /** `get_coherence(a, b, n)`: the key is (min(a, b), max(a, b), n). A hit counts and moves
      the key to the most recent place; a miss counts, fetches S(a), S(b) and S(n) through
      the spectral cache, stores `coherence(S(a), S(b), S(n))` last and trims the oldest
      entries beyond cache_size. */
  function GetCoherence<V, P>(c: Cache<V, P>, a: int, b: int, n: int, spectral: int -> V,
                              coherence: (V, V, V) -> real): (r: Result<(Cache<V, P>, real)>)
    requires Valid(c)
    ensures var key := CoherenceCache.CoherenceKey(a, b, n);
      key in c.coherenceCache.values ==>
        r.Success? && r.value.1 == c.coherenceCache.values[key] &&
        r.value.0.cacheHits == c.cacheHits + 1 && r.value.0.cacheMisses == c.cacheMisses &&
        r.value.0.coherenceCache.values == c.coherenceCache.values &&
        r.value.0.coherenceCache.order == Without(c.coherenceCache.order, key) + [key] &&
        r.value.0.spectralCache == c.spectralCache
    ensures var key := CoherenceCache.CoherenceKey(a, b, n);
      key !in c.coherenceCache.values ==>
        (r.Failure? <==> c.cacheSize < 0) && (r.Failure? ==> r.error == KeyError) &&
        (r.Success? ==> AppendedTrimmed(c.coherenceCache.order, key, r.value.0.coherenceCache.order, c.cacheSize) &&
                        r.value.0.cacheMisses >= c.cacheMisses + 1 &&
                        r.value.0.cacheHits + r.value.0.cacheMisses == c.cacheHits + c.cacheMisses + 4)
    ensures r.Success? ==> Valid(r.value.0)
    ensures r.Success? ==>
      r.value.0.cacheSize == c.cacheSize && r.value.0.interferenceBank == c.interferenceBank &&
      r.value.0.foldMap == c.foldMap
    ensures r.Success? && c.cacheSize >= 1 ==>
      var key := CoherenceCache.CoherenceKey(a, b, n);
      key in r.value.0.coherenceCache.values && r.value.0.coherenceCache.values[key] == r.value.1
  {
    var key := CoherenceCache.CoherenceKey(a, b, n);
    if key in c.coherenceCache.values then
      Success((c.(cacheHits := c.cacheHits + 1, coherenceCache := MoveToEnd(c.coherenceCache, key)),
               c.coherenceCache.values[key]))
    else FetchAndStore(c, key, a, b, n, spectral, coherence)
  }

  /** `self.cache_misses += 1`. */
  function CountMiss<V, P>(c: Cache<V, P>): (r: Cache<V, P>)
    ensures r == c.(cacheMisses := c.cacheMisses + 1)
  {
    c.(cacheMisses := c.cacheMisses + 1)
  }

  /** A coherence miss: counted, then S(a), S(b), S(n), then the store. */
  function FetchAndStore<V, P>(c: Cache<V, P>, key: Key, a: int, b: int, n: int, spectral: int -> V,
                               coherence: (V, V, V) -> real): (r: Result<(Cache<V, P>, real)>)
    requires Valid(c) && key !in c.coherenceCache.values
    ensures r.Failure? <==> c.cacheSize < 0
    ensures r.Failure? ==> r.error == KeyError
    ensures r.Success? ==> Valid(r.value.0) && AppendedTrimmed(c.coherenceCache.order, key, r.value.0.coherenceCache.order, c.cacheSize)
    ensures r.Success? ==>
      r.value.0.cacheHits + r.value.0.cacheMisses == c.cacheHits + c.cacheMisses + 4 &&
      r.value.0.cacheHits >= c.cacheHits && r.value.0.cacheMisses >= c.cacheMisses + 1
    ensures r.Success? ==>
      r.value.0.cacheSize == c.cacheSize && r.value.0.interferenceBank == c.interferenceBank &&
      r.value.0.foldMap == c.foldMap
    ensures r.Success? && c.cacheSize >= 1 ==>
      key in r.value.0.coherenceCache.values && r.value.0.coherenceCache.values[key] == r.value.1
  {
    var t := SpectralTriple(CountMiss(c), a, b, n, spectral);
    if t.Failure? then Failure(t.error)
    else StoreCoherence(t.value.0, key, coherence(t.value.1, t.value.2, t.value.3))
  }

  /** The store step of a coherence miss: the new key goes last, the oldest beyond
      cache_size leave. */
  function StoreCoherence<V, P>(c: Cache<V, P>, key: Key, value: real): (r: Result<(Cache<V, P>, real)>)
    requires Valid(c) && key !in c.coherenceCache.values
    ensures r.Failure? <==> c.cacheSize < 0
    ensures r.Failure? ==> r.error == KeyError
    ensures r.Success? ==> Valid(r.value.0) && r.value.1 == value
    ensures r.Success? ==> r.value.0 == c.(coherenceCache := r.value.0.coherenceCache)
    ensures r.Success? ==> AppendedTrimmed(c.coherenceCache.order, key, r.value.0.coherenceCache.order, c.cacheSize)
    ensures r.Success? ==> forall k :: k in r.value.0.coherenceCache.values ==>
      k in c.coherenceCache.values[key := value] &&
      r.value.0.coherenceCache.values[k] == c.coherenceCache.values[key := value][k]
    ensures r.Success? && c.cacheSize >= 1 ==>
      key in r.value.0.coherenceCache.values && r.value.0.coherenceCache.values[key] == value
  {
    var stored := PutTrimmed(c.coherenceCache, key, value, c.cacheSize);
    if stored.Failure? then Failure(stored.error)
    else
      PutTrimmedNew(c.coherenceCache, key, value, c.cacheSize);
      if c.cacheSize >= 1 then
        PutTrimmedKeeps(c.coherenceCache, key, value, c.cacheSize);
        Success((c.(coherenceCache := stored.value), value))
      else
        Success((c.(coherenceCache := stored.value), value))
  }

  /** On a faithful spectral cache `get_spectral_vector` answers `spectral(n)` and keeps the
      cache faithful. */
  lemma SpectralVectorFaithful<V, P>(c: Cache<V, P>, n: int, spectral: int -> V)
    requires Valid(c) && SpectralFaithful(c, spectral)
    ensures var r := GetSpectralVector(c, n, spectral);
      r.Success? ==> r.value.1 == spectral(n) && SpectralFaithful(r.value.0, spectral)
  {
    var r := GetSpectralVector(c, n, spectral);
    if r.Success? {
      var c' := r.value.0;
      forall k | k in c'.spectralCache.values
        ensures c'.spectralCache.values[k] == spectral(k)
      {
        assert c'.spectralCache.values[k] == c.spectralCache.values[n := r.value.1][k];
      }
    }
  }

  /** On a faithful spectral cache the three calls answer S(a), S(b) and S(n). */
  lemma TripleFaithful<V, P>(c: Cache<V, P>, a: int, b: int, n: int, spectral: int -> V)
    requires Valid(c) && SpectralFaithful(c, spectral)
    ensures var r := SpectralTriple(c, a, b, n, spectral);
      r.Success? ==> r.value.1 == spectral(a) && r.value.2 == spectral(b) && r.value.3 == spectral(n) &&
                     SpectralFaithful(r.value.0, spectral)
  {
    SpectralVectorFaithful(c, a, spectral);
    if GetSpectralVector(c, a, spectral).Success? {
      var c1 := GetSpectralVector(c, a, spectral).value.0;
      SpectralVectorFaithful(c1, b, spectral);
      if GetSpectralVector(c1, b, spectral).Success? {
        var c2 := GetSpectralVector(c1, b, spectral).value.0;
        SpectralVectorFaithful(c2, n, spectral);
      }
    }
  }

  /** With the symmetric formula, on a faithful cache `get_coherence` answers the coherence
      of S(a), S(b) and S(n), hit or miss, and keeps both dictionaries faithful. */
  lemma GetCoherenceFaithful<V(!new), P>(c: Cache<V, P>, a: int, b: int, n: int, spectral: int -> V,
                                         coherence: (V, V, V) -> real)
    requires Valid(c) && SpectralFaithful(c, spectral) && CoherenceFaithful(c, spectral, coherence)
    requires CoherenceCache.Symmetric(coherence)
    ensures var r := GetCoherence(c, a, b, n, spectral, coherence);
      r.Success? ==> r.value.1 == coherence(spectral(a), spectral(b), spectral(n)) &&
                     SpectralFaithful(r.value.0, spectral) && CoherenceFaithful(r.value.0, spectral, coherence)
  {
    var key := CoherenceCache.CoherenceKey(a, b, n);
    var want := coherence(spectral(a), spectral(b), spectral(n));
    assert coherence(spectral(key.0), spectral(key.1), spectral(key.2)) == want by {
      assert coherence(spectral(b), spectral(a), spectral(n)) == want;
    }
    var r := GetCoherence(c, a, b, n, spectral, coherence);
    if key in c.coherenceCache.values {
      assert r.value.1 == c.coherenceCache.values[key];
      assert r.value.0.spectralCache == c.spectralCache;
      assert r.value.0.coherenceCache.values == c.coherenceCache.values;
    } else {
      assert r == FetchAndStore(c, key, a, b, n, spectral, coherence);
      FetchAndStoreFaithful(c, key, a, b, n, spectral, coherence);
    }
  }

  lemma FetchAndStoreFaithful<V, P>(c: Cache<V, P>, key: Key, a: int, b: int, n: int, spectral: int -> V,
                                    coherence: (V, V, V) -> real)
    requires Valid(c) && key !in c.coherenceCache.values
    requires SpectralFaithful(c, spectral) && CoherenceFaithful(c, spectral, coherence)
    requires coherence(spectral(key.0), spectral(key.1), spectral(key.2)) == coherence(spectral(a), spectral(b), spectral(n))
    ensures var r := FetchAndStore(c, key, a, b, n, spectral, coherence);
      r.Success? ==> r.value.1 == coherence(spectral(a), spectral(b), spectral(n)) &&
                     SpectralFaithful(r.value.0, spectral) && CoherenceFaithful(r.value.0, spectral, coherence)
  {
    var c0 := CountMiss(c);
    TripleFaithful(c0, a, b, n, spectral);
    var t := SpectralTriple(c0, a, b, n, spectral);
    if t.Success? {
      StoreCoherenceFaithful(t.value.0, key, coherence(spectral(a), spectral(b), spectral(n)), spectral, coherence);
    }
  }

  lemma StoreCoherenceFaithful<V, P>(c: Cache<V, P>, key: Key, value: real, spectral: int -> V,
                                     coherence: (V, V, V) -> real)
    requires Valid(c) && key !in c.coherenceCache.values && CoherenceFaithful(c, spectral, coherence)
    requires value == coherence(spectral(key.0), spectral(key.1), spectral(key.2))
    ensures var r := StoreCoherence(c, key, value);
      r.Success? ==> CoherenceFaithful(r.value.0, spectral, coherence)
  {
    var r := StoreCoherence(c, key, value);
    if r.Success? {
      var s := r.value.0.coherenceCache;
      forall k | k in s.values
        ensures s.values[k] == coherence(spectral(k.0), spectral(k.1), spectral(k.2))
      {
        if k != key {
          assert s.values[k] == c.coherenceCache.values[k];
        }
      }
    }
  }

  /** After `get_coherence(a, b, n)` succeeds with cache_size >= 1, `get_coherence(b, a, n)`
      is a hit answering the same value. */
  lemma SwappedCoherenceHits<V, P>(c: Cache<V, P>, a: int, b: int, n: int, spectral: int -> V,
                                   coherence: (V, V, V) -> real)
    requires Valid(c) && c.cacheSize >= 1 && GetCoherence(c, a, b, n, spectral, coherence).Success?
    ensures var (c1, v) := GetCoherence(c, a, b, n, spectral, coherence).value;
      var r := GetCoherence(c1, b, a, n, spectral, coherence);
      r.Success? && r.value.1 == v && r.value.0.cacheHits == c1.cacheHits + 1 &&
      r.value.0.cacheMisses == c1.cacheMisses
  {
    CoherenceCache.KeySymmetric(a, b, n, a, b, n);
  }

  // ---------------------------------------------------------------------------
  // Interference patterns

  /** `get_interference_pattern(n)`: a hit counts and moves n to the most recent place; a
      miss counts, stores `interference(n)` (the pattern with its extrema) last and trims
      the oldest entries beyond cache_size. */
  function GetInterferencePattern<V, P>(c: Cache<V, P>, n: int, interference: int -> P): (r: Result<(Cache<V, P>, P)>)
    requires Valid(c)
    ensures n in c.interferenceBank.values ==>
      r.Success? && r.value.1 == c.interferenceBank.values[n] &&
      r.value.0.cacheHits == c.cacheHits + 1 && r.value.0.cacheMisses == c.cacheMisses &&
      r.value.0.interferenceBank.values == c.interferenceBank.values &&
      r.value.0.interferenceBank.order == Without(c.interferenceBank.order, n) + [n]
    ensures n !in c.interferenceBank.values ==>
      (r.Failure? <==> c.cacheSize < 0) && (r.Failure? ==> r.error == KeyError) &&
      (r.Success? ==> r.value.1 == interference(n) && r.value.0.cacheHits == c.cacheHits &&
                      r.value.0.cacheMisses == c.cacheMisses + 1 &&
                      AppendedTrimmed(c.interferenceBank.order, n, r.value.0.interferenceBank.order, c.cacheSize))
    ensures r.Success? ==> Valid(r.value.0)
    ensures r.Success? ==> r.value.0 == c.(interferenceBank := r.value.0.interferenceBank,
                                           cacheHits := r.value.0.cacheHits, cacheMisses := r.value.0.cacheMisses)
    ensures r.Success? ==> forall k :: k in r.value.0.interferenceBank.values ==>
      r.value.0.interferenceBank.values[k] == c.interferenceBank.values[n := r.value.1][k]
  {
    if n in c.interferenceBank.values then
      Success((c.(cacheHits := c.cacheHits + 1, interferenceBank := MoveToEnd(c.interferenceBank, n)),
               c.interferenceBank.values[n]))
    else
      var v := interference(n);
      var stored := PutTrimmed(c.interferenceBank, n, v, c.cacheSize);
      if stored.Failure? then Failure(stored.error)
      else
        PutTrimmedNew(c.interferenceBank, n, v, c.cacheSize);
        Success((c.(cacheMisses := c.cacheMisses + 1, interferenceBank := stored.value), v))
  }

  /** Every cached pattern is the one `interference` computes. */
  ghost predicate InterferenceFaithful<V, P>(c: Cache<V, P>, interference: int -> P) {
    forall k :: k in c.interferenceBank.values ==> c.interferenceBank.values[k] == interference(k)
  }

  /** On a faithful bank `get_interference_pattern` answers `interference(n)`, hit or miss,
      and keeps the bank faithful. */
  lemma InterferencePatternFaithful<V, P>(c: Cache<V, P>, n: int, interference: int -> P)
    requires Valid(c) && InterferenceFaithful(c, interference)
    ensures var r := GetInterferencePattern(c, n, interference);
      r.Success? ==> r.value.1 == interference(n) && InterferenceFaithful(r.value.0, interference)
  {
    var r := GetInterferencePattern(c, n, interference);
    if r.Success? {
      var c' := r.value.0;
      forall k | k in c'.interferenceBank.values
        ensures c'.interferenceBank.values[k] == interference(k)
      {
        assert c'.interferenceBank.values[k] == c.interferenceBank.values[n := r.value.1][k];
      }
    }
  }

  /** A second `get_spectral_vector(n)` right after the first is a hit answering the same
      vector (with cache_size >= 1 the first call leaves n cached). */
  lemma SpectralRepeatHits<V, P>(c: Cache<V, P>, n: int, spectral: int -> V)
    requires Valid(c) && c.cacheSize >= 1
    ensures var (c1, v) := GetSpectralVector(c, n, spectral).value;
      var r := GetSpectralVector(c1, n, spectral);
      r.Success? && r.value.1 == v && r.value.0.cacheHits == c1.cacheHits + 1 &&
      r.value.0.cacheMisses == c1.cacheMisses
  {
    var c1 := GetSpectralVector(c, n, spectral).value.0;
    if n !in c.spectralCache.values {
      PutTrimmedKeeps(c.spectralCache, n, spectral(n), c.cacheSize);
    }
    assert n in c1.spectralCache.values;
  }

  // ---------------------------------------------------------------------------
  // Least-recently-used eviction

  /** `get_spectral_vector(k)` for each k of ks in turn. */
  function AccessAll<V, P>(c: Cache<V, P>, ks: seq<int>, spectral: int -> V): (r: Result<Cache<V, P>>)
    requires Valid(c)
    ensures c.cacheSize >= 0 ==> r.Success?
    ensures r.Success? ==> Valid(r.value) && OnlySpectral(c, r.value)
    decreases |ks|
  {
    if ks == [] then Success(c)
    else
      var r1 := AccessAll(c, ks[..|ks| - 1], spectral);
      if r1.Failure? then r1
      else
        var got := GetSpectralVector(r1.value, ks[|ks| - 1], spectral);
        if got.Failure? then Failure(got.error) else Success(got.value.0)
  }

  /** The newest min(|s|, size) entries of s. */
  function Last<T>(s: seq<T>, size: nat): (r: seq<T>)
    ensures |r| == Min(|s|, size) && r == s[|s| - |r|..]
  {
    s[|s| - Min(|s|, size)..]
  }

  /** t is a suffix of o. */
  predicate EndsWith<T(==)>(o: seq<T>, t: seq<T>) {
    |t| <= |o| && o[|o| - |t|..] == t
  }

  /** After reading distinct keys through a bounded cache, the cache still holds at most
      cache_size vectors and its newest entries are the last cache_size keys read, in the
      order they were read: whatever was cached before, hit or miss. */
  lemma {:induction false} AccessedAreMostRecent<V, P>(c: Cache<V, P>, ks: seq<int>, spectral: int -> V)
    requires Valid(c) && c.cacheSize >= 1 && |c.spectralCache.order| <= c.cacheSize && Distinct(ks)
    ensures var o := AccessAll(c, ks, spectral).value.spectralCache.order;
      |o| <= c.cacheSize && EndsWith(o, Last(ks, c.cacheSize))
    decreases |ks|
  {
    if ks != [] {
      var size := c.cacheSize;
      var pre, k := ks[..|ks| - 1], ks[|ks| - 1];
      LastReadIsNew(ks, size);
      AccessedAreMostRecent(c, pre, spectral);
      var c1 := AccessAll(c, pre, spectral).value;
      var t := Last(pre, size);
      LastStep(ks, size);
      OneAccess(c1, t, k, spectral);
      assert AccessAll(c, ks, spectral).value == GetSpectralVector(c1, k, spectral).value.0;
    }
  }

  /** One read of a key outside the remembered suffix t appends it to t (and trims t to
      cache_size). */
  lemma OneAccess<V, P>(c: Cache<V, P>, t: seq<int>, k: int, spectral: int -> V)
    requires Valid(c) && c.cacheSize >= 1 && |c.spectralCache.order| <= c.cacheSize
    requires EndsWith(c.spectralCache.order, t) && k !in t
    ensures var o := GetSpectralVector(c, k, spectral).value.0.spectralCache.order;
      |o| <= c.cacheSize && EndsWith(o, Last(t + [k], c.cacheSize))
  {
    var o1 := c.spectralCache.order;
    var o := GetSpectralVector(c, k, spectral).value.0.spectralCache.order;
    if k in c.spectralCache.values {
      WithoutKeepsSuffix(o1, t, k);
      assert k in o1;
      EndsWithAppend(Without(o1, k), t, k);
    } else {
      EndsWithAppendTrimmed(o1, t, k, o, c.cacheSize);
    }
  }

  /** The last of distinct keys is not among the ones before it. */
  lemma LastReadIsNew(ks: seq<int>, size: nat)
    requires Distinct(ks) && ks != []
    ensures Distinct(ks[..|ks| - 1]) && ks[|ks| - 1] !in Last(ks[..|ks| - 1], size)
  {
    var pre, k := ks[..|ks| - 1], ks[|ks| - 1];
    forall i, j | 0 <= i < j < |pre| ensures pre[i] != pre[j] {
      assert pre[i] == ks[i] && pre[j] == ks[j];
    }
    var t := Last(pre, size);
    forall i | 0 <= i < |t| ensures t[i] != k {
      assert t[i] == ks[|pre| - |t| + i];
    }
  }

  /** The newest keys after one more read are the newest before it with the read appended. */
  lemma LastStep<T>(ks: seq<T>, size: nat)
    requires size >= 1 && ks != []
    ensures Last(ks, size) == Last(Last(ks[..|ks| - 1], size) + [ks[|ks| - 1]], size)
  {
    var pre := ks[..|ks| - 1];
    var a, b := Last(ks, size), Last(Last(pre, size) + [ks[|ks| - 1]], size);
    assert |a| == |b|;
    forall i | 0 <= i < |a| ensures a[i] == b[i] {
      if i < |a| - 1 {
        assert a[i] == pre[|pre| + 1 - |a| + i];
      }
    }
  }

  /** Removing a key outside a suffix keeps the suffix. */
  lemma {:induction false} WithoutKeepsSuffix<T(!new)>(o: seq<T>, t: seq<T>, k: T)
    requires Distinct(o) && EndsWith(o, t) && k !in t
    ensures EndsWith(Without(o, k), t)
  {
    if |t| == |o| {
      assert o == t;
    } else {
      DistinctTail(o);
      EndsWithTail(o, t);
      WithoutKeepsSuffix(o[1..], t, k);
      if o[0] != k {
        EndsWithCons(o[0], Without(o[1..], k), t);
      }
    }
  }

  lemma DistinctTail<T>(o: seq<T>)
    requires Distinct(o) && |o| > 0
    ensures Distinct(o[1..]) && o[0] !in o[1..]
  {
    var rest := o[1..];
    forall i, j | 0 <= i < j < |rest| ensures rest[i] != rest[j] {
      assert rest[i] == o[i + 1] && rest[j] == o[j + 1];
    }
    forall j | 0 <= j < |rest| ensures rest[j] != o[0] {
      assert rest[j] == o[j + 1];
    }
  }

  lemma EndsWithTail<T>(o: seq<T>, t: seq<T>)
    requires EndsWith(o, t) && |t| < |o|
    ensures EndsWith(o[1..], t)
  {
    assert o[1..][|o| - 1 - |t|..] == o[|o| - |t|..];
  }

  lemma EndsWithCons<T>(x: T, w: seq<T>, t: seq<T>)
    requires EndsWith(w, t)
    ensures EndsWith([x] + w, t)
  {
    assert ([x] + w)[|w| + 1 - |t|..] == w[|w| - |t|..];
  }

  /** A hit: the read key is appended after a suffix the order already had. */
  lemma EndsWithAppend<T>(o: seq<T>, t: seq<T>, k: T)
    requires EndsWith(o, t)
    ensures EndsWith(o + [k], t + [k])
  {
    assert (o + [k])[|o| + 1 - |t| - 1..] == o[|o| - |t|..] + [k];
  }

  /** A miss: appending and trimming keeps the newest part of the suffix. */
  lemma EndsWithAppendTrimmed<T>(o: seq<T>, t: seq<T>, k: T, after: seq<T>, size: int)
    requires EndsWith(o, t) && AppendedTrimmed(o, k, after, size) && size >= 1
    ensures EndsWith(after, Last(t + [k], size))
  {
    EndsWithAppend(o, t, k);
    var w := o + [k];
    var l := Last(t + [k], size);
    assert after == w[|w| - |after|..];
    assert |after| == Min(|w|, size) && |l| == Min(|t| + 1, size) && |t| + 1 <= |w|;
    forall i | 0 <= i < |l| ensures after[|after| - |l| + i] == l[i] {
      assert l[i] == (t + [k])[|t| + 1 - |l| + i];
      assert (t + [k])[|t| + 1 - |l| + i] == w[|w| - |l| + i];
    }
  }

  /** The eviction test: with cache_size 10, reading 100, ..., 114 leaves at most 10 vectors,
      evicts 100 and keeps 114. */
  lemma EvictionExample<V, P>(c: Cache<V, P>, spectral: int -> V)
    requires Valid(c) && c.cacheSize == 10 && Bounded(c)
    ensures var c' := AccessAll(c, seq(15, i => i + 100), spectral).value;
      |c'.spectralCache.order| <= 10 && 100 !in c'.spectralCache.values && 114 in c'.spectralCache.values
  {
    var ks := seq(15, i => i + 100);
    assert Distinct(ks);
    AccessedAreMostRecent(c, ks, spectral);
    var c' := AccessAll(c, ks, spectral).value;
    var o := c'.spectralCache.order;
    assert o == ks[5..];
    assert o[9] == 114;
    assert 100 !in o;
  }

  // ---------------------------------------------------------------------------
  // Fold maps: the lowest-energy positions

  /** The most positions a fold map holds before it is trimmed, and how many it keeps. */
  const FoldLimit := 1000
  const FoldKeep := 500

  /** s lists positions in ascending energy. */
  ghost predicate SortedBy(s: seq<int>, m: map<int, real>) {
    (forall i :: 0 <= i < |s| ==> s[i] in m) &&
    forall i, j :: 0 <= i < j < |s| ==> m[s[i]] <= m[s[j]]
  }

  /** Inserts x into the energy-sorted s after every position of no greater energy, so
      that equal energies keep their first-come order. */
  function InsertByEnergy(x: int, s: seq<int>, m: map<int, real>): (r: seq<int>)
    requires x in m && forall i :: 0 <= i < |s| ==> s[i] in m
    requires SortedBy(s, m)
    ensures |r| == |s| + 1 && forall k :: k in r <==> k in s || k == x
    ensures forall i :: 0 <= i < |r| ==> r[i] in m
    ensures SortedBy(r, m)
  {
    if s == [] then [x]
    else if m[x] < m[s[0]] then
      assert forall j :: 0 <= j < |s| ==> m[x] < m[s[j]] by {
        forall j | 0 <= j < |s| ensures m[x] < m[s[j]] {
          if j > 0 {
            assert m[s[0]] <= m[s[j]];
          }
        }
      }
      [x] + s
    else
      var rest := InsertByEnergy(x, s[1..], m);
      assert forall j :: 0 <= j < |rest| ==> m[s[0]] <= m[rest[j]] by {
        forall j | 0 <= j < |rest| ensures m[s[0]] <= m[rest[j]] {
          assert rest[j] in rest;
          if rest[j] != x {
            var i :| 0 <= i < |s[1..]| && s[1..][i] == rest[j];
            assert s[i + 1] == rest[j];
          }
        }
      }
      [s[0]] + rest
  }

  /** Inserting a new position keeps the positions distinct. */
  lemma {:induction false} InsertDistinct(x: int, s: seq<int>, m: map<int, real>)
    requires x in m && (forall i :: 0 <= i < |s| ==> s[i] in m) && SortedBy(s, m)
    requires Distinct(s) && x !in s
    ensures Distinct(InsertByEnergy(x, s, m))
  {
    if s == [] {
    } else if m[x] < m[s[0]] {
      InsertFrontDistinct(x, s);
    } else {
      DistinctTail(s);
      assert SortedBy(s[1..], m) by {
        forall i, j | 0 <= i < j < |s[1..]| ensures m[s[1..][i]] <= m[s[1..][j]] {
          assert s[1..][i] == s[i + 1] && s[1..][j] == s[j + 1];
        }
      }
      InsertDistinct(x, s[1..], m);
      InsertFrontDistinct(s[0], InsertByEnergy(x, s[1..], m));
    }
  }

  lemma InsertFrontDistinct(x: int, s: seq<int>)
    requires Distinct(s) && x !in s
    ensures Distinct([x] + s)
  {
    var r := [x] + s;
    forall i, j | 0 <= i < j < |r| ensures r[i] != r[j] {
      if i == 0 {
        assert r[j] == s[j - 1];
      } else {
        assert r[i] == s[i - 1] && r[j] == s[j - 1];
      }
    }
  }

  /** `sorted(positions, key=energy)`: a stable insertion sort. */
  function SortByEnergy(keys: seq<int>, m: map<int, real>): (r: seq<int>)
    requires forall i :: 0 <= i < |keys| ==> keys[i] in m
    ensures |r| == |keys| && forall k :: k in r <==> k in keys
    ensures forall i :: 0 <= i < |r| ==> r[i] in m
    ensures SortedBy(r, m)
  {
    if keys == [] then []
    else
      var pre := keys[..|keys| - 1];
      var x := keys[|keys| - 1];
      assert forall i :: 0 <= i < |pre| ==> pre[i] == keys[i];
      var sorted := SortByEnergy(pre, m);
      assert forall k :: k in keys <==> k in pre || k == x by {
        assert keys == pre + [x];
      }
      InsertByEnergy(x, sorted, m)
  }

  /** Sorting distinct positions keeps them distinct. */
  lemma {:induction false} SortDistinct(keys: seq<int>, m: map<int, real>)
    requires (forall i :: 0 <= i < |keys| ==> keys[i] in m) && Distinct(keys)
    ensures Distinct(SortByEnergy(keys, m))
  {
    if keys != [] {
      var pre := keys[..|keys| - 1];
      LastReadIsNew(keys, |keys|);
      assert Last(pre, |keys|) == pre;
      assert forall i :: 0 <= i < |pre| ==> pre[i] == keys[i];
      SortDistinct(pre, m);
      InsertDistinct(keys[|keys| - 1], SortByEnergy(pre, m), m);
    }
  }

  /** Where k first occurs in s. */
  function Rank(s: seq<int>, k: int): (i: nat)
    requires k in s
    ensures i < |s| && s[i] == k && forall j :: 0 <= j < i ==> s[j] != k
  {
    if s[0] == k then 0 else Rank(s[1..], k) + 1
  }

  /** Positions of equal energy appear in s in the order they had in keys, as Python's
      stable `sorted` leaves them. */
  ghost predicate StableBy(s: seq<int>, keys: seq<int>, m: map<int, real>) {
    forall i, j :: (0 <= i < j < |s| && s[i] in m && s[j] in m && s[i] in keys && s[j] in keys &&
                    m[s[i]] == m[s[j]]) ==> Rank(keys, s[i]) < Rank(keys, s[j])
  }

  /** Inserting a position that came later than every listed one keeps the list stable. */
  lemma {:induction false} InsertStable(x: int, s: seq<int>, m: map<int, real>, keys: seq<int>)
    requires x in m && x in keys && forall i :: 0 <= i < |s| ==> s[i] in m && s[i] in keys
    requires SortedBy(s, m) && StableBy(s, keys, m)
    requires forall i :: 0 <= i < |s| ==> Rank(keys, s[i]) < Rank(keys, x)
    ensures StableBy(InsertByEnergy(x, s, m), keys, m)
  {
    if s == [] {
    } else if m[x] < m[s[0]] {
      forall j | 0 <= j < |s| ensures m[x] < m[s[j]] {
        assert j == 0 || m[s[0]] <= m[s[j]];
      }
      ConsStable(x, s, m, keys);
    } else {
      var t := s[1..];
      TailSortedStable(s, m, keys);
      InsertStable(x, t, m, keys);
      var rest := InsertByEnergy(x, t, m);
      HeadBeforeRest(s, x, rest, m, keys);
      ConsStable(s[0], rest, m, keys);
    }
  }

  /** A position ahead of every equal-energy one that came after it keeps the list stable. */
  lemma ConsStable(a: int, t: seq<int>, m: map<int, real>, keys: seq<int>)
    requires StableBy(t, keys, m)
    requires forall j :: (0 <= j < |t| && a in m && t[j] in m && a in keys && t[j] in keys && m[a] == m[t[j]]) ==>
      Rank(keys, a) < Rank(keys, t[j])
    ensures StableBy([a] + t, keys, m)
  {
    var r := [a] + t;
    forall i, j | 0 <= i < j < |r| && r[i] in m && r[j] in m && r[i] in keys && r[j] in keys && m[r[i]] == m[r[j]]
      ensures Rank(keys, r[i]) < Rank(keys, r[j])
    {
      assert r[j] == t[j - 1];
      if i > 0 {
        assert r[i] == t[i - 1];
      }
    }
  }

  lemma TailSortedStable(s: seq<int>, m: map<int, real>, keys: seq<int>)
    requires s != [] && SortedBy(s, m) && StableBy(s, keys, m)
    ensures SortedBy(s[1..], m) && StableBy(s[1..], keys, m)
  {
    var t := s[1..];
    forall i, j | 0 <= i < j < |t| ensures t[i] == s[i + 1] && t[j] == s[j + 1] {
    }
  }

  /** The head of a stable list comes before every equal-energy position in the insertion
      into its tail. */
  lemma HeadBeforeRest(s: seq<int>, x: int, rest: seq<int>, m: map<int, real>, keys: seq<int>)
    requires s != [] && x in keys && StableBy(s, keys, m)
    requires s[0] in keys && Rank(keys, s[0]) < Rank(keys, x)
    requires forall k :: k in rest <==> k in s[1..] || k == x
    ensures forall j :: (0 <= j < |rest| && s[0] in m && rest[j] in m && s[0] in keys && rest[j] in keys &&
                         m[s[0]] == m[rest[j]]) ==> Rank(keys, s[0]) < Rank(keys, rest[j])
  {
    forall j | 0 <= j < |rest| && s[0] in m && rest[j] in m && rest[j] in keys && m[s[0]] == m[rest[j]] &&
      rest[j] != x
      ensures Rank(keys, s[0]) < Rank(keys, rest[j])
    {
      assert rest[j] in rest;
      var p :| 0 <= p < |s[1..]| && s[1..][p] == rest[j];
      assert s[p + 1] == rest[j];
    }
  }

  /** Sorting distinct positions by energy is stable: ties keep their order in keys. */
  lemma {:induction false} SortStable(keys: seq<int>, m: map<int, real>)
    requires (forall i :: 0 <= i < |keys| ==> keys[i] in m) && Distinct(keys)
    ensures StableBy(SortByEnergy(keys, m), keys, m)
  {
    if keys != [] {
      var pre, x := keys[..|keys| - 1], keys[|keys| - 1];
      assert keys == pre + [x];
      LastReadIsNew(keys, |keys|);
      assert Last(pre, |keys|) == pre;
      assert forall i :: 0 <= i < |pre| ==> pre[i] == keys[i];
      SortStable(pre, m);
      var s := SortByEnergy(pre, m);
      forall k | k in pre ensures Rank(keys, k) == Rank(pre, k) < |pre| {
        RankPrefix(pre, x, k);
      }
      assert Rank(keys, x) == |pre|;
      assert forall i :: 0 <= i < |s| ==> s[i] in pre && s[i] in keys by {
        forall i | 0 <= i < |s| ensures s[i] in pre && s[i] in keys {
          assert s[i] in s;
        }
      }
      assert StableBy(s, keys, m) by {
        forall i, j | 0 <= i < j < |s| && m[s[i]] == m[s[j]]
          ensures Rank(keys, s[i]) < Rank(keys, s[j])
        {
          assert Rank(pre, s[i]) < Rank(pre, s[j]);
        }
      }
      InsertStable(x, s, m, keys);
    }
  }

  /** A position of pre has the same first occurrence once something is appended. */
  lemma RankPrefix(pre: seq<int>, x: int, k: int)
    requires k in pre
    ensures Rank(pre + [x], k) == Rank(pre, k)
  {
    var p := Rank(pre, k);
    assert (pre + [x])[p] == k;
    var i := Rank(pre + [x], k);
    assert i <= p;
    assert pre[i] == k;
  }

  /** `dict(sorted(fold.items(), key=energy)[:500])`: the 500 lowest-energy positions, in
      ascending energy, with their energies. */
  function TrimLowest(f: FoldMap): (r: FoldMap)
    requires OrderedStore.Valid(f) && |f.order| >= FoldKeep
    ensures OrderedStore.Valid(r) && |r.order| == FoldKeep
    ensures forall k :: k in r.values ==> k in f.values && r.values[k] == f.values[k]
    ensures SortedBy(r.order, f.values)
    ensures forall k, d :: k in r.values && d in f.values && d !in r.values ==> f.values[k] <= f.values[d]
    ensures StableBy(r.order, f.order, f.values)
    ensures forall k, d :: k in r.values && d in f.values && d !in r.values && f.values[k] == f.values[d] ==>
      Rank(f.order, k) < Rank(f.order, d)
  {
    assert forall i :: 0 <= i < |f.order| ==> f.order[i] in f.values by {
      forall i | 0 <= i < |f.order| ensures f.order[i] in f.values {
        assert f.order[i] in f.order;
      }
    }
    var sorted := SortByEnergy(f.order, f.values);
    SortDistinct(f.order, f.values);
    SortedPrefix(sorted, f.values, FoldKeep);
    var kept := sorted[..FoldKeep];
    var r := Store(kept, map k | k in kept :: f.values[k]);
    KeptAreLowest(f, sorted, r);
    SortStable(f.order, f.values);
    KeptAreFirst(f, sorted, r);
    r
  }

  /** The kept prefix of a stable order is stable, and a tie at the cut goes to the
      position inserted first. */
  lemma KeptAreFirst(f: FoldMap, sorted: seq<int>, r: FoldMap)
    requires OrderedStore.Valid(f) && |f.order| >= FoldKeep
    requires |sorted| == |f.order| && (forall k :: k in sorted <==> k in f.order) && Distinct(sorted)
    requires StableBy(sorted, f.order, f.values)
    requires r.order == sorted[..FoldKeep] && r.values == map k | k in sorted[..FoldKeep] :: f.values[k]
    ensures StableBy(r.order, f.order, f.values)
    ensures forall k, d :: k in r.values && d in f.values && d !in r.values && f.values[k] == f.values[d] ==>
      Rank(f.order, k) < Rank(f.order, d)
  {
    forall i, j | 0 <= i < j < |r.order| && r.order[i] in f.order && r.order[j] in f.order &&
      f.values[r.order[i]] == f.values[r.order[j]]
      ensures Rank(f.order, r.order[i]) < Rank(f.order, r.order[j])
    {
      assert r.order[i] == sorted[i] && r.order[j] == sorted[j];
    }
    forall k, d | k in r.values && d in f.values && d !in r.values && f.values[k] == f.values[d]
      ensures Rank(f.order, k) < Rank(f.order, d)
    {
      var i :| 0 <= i < FoldKeep && sorted[..FoldKeep][i] == k;
      assert d in sorted;
      var j :| 0 <= j < |sorted| && sorted[j] == d;
      assert j >= FoldKeep;
      assert sorted[i] == k;
    }
  }

  /** A prefix of a distinct energy-sorted list is distinct, sorted, and no higher than the
      rest. */
  lemma SortedPrefix(sorted: seq<int>, m: map<int, real>, n: nat)
    requires SortedBy(sorted, m) && Distinct(sorted) && n <= |sorted|
    ensures Distinct(sorted[..n]) && SortedBy(sorted[..n], m)
    ensures forall i, j :: 0 <= i < n <= j < |sorted| ==> sorted[i] in m && sorted[j] in m && m[sorted[i]] <= m[sorted[j]]
  {
    var kept := sorted[..n];
    forall i, j | 0 <= i < j < |kept|
      ensures kept[i] != kept[j] && m[kept[i]] <= m[kept[j]]
    {
      assert kept[i] == sorted[i] && kept[j] == sorted[j];
    }
    assert SortedBy(kept, m);
    forall i, j | 0 <= i < n <= j < |sorted|
      ensures sorted[i] in m && sorted[j] in m && m[sorted[i]] <= m[sorted[j]]
    {
    }
  }

  lemma KeptAreLowest(f: FoldMap, sorted: seq<int>, r: FoldMap)
    requires OrderedStore.Valid(f) && |f.order| >= FoldKeep
    requires |sorted| == |f.order| && (forall k :: k in sorted <==> k in f.order) && Distinct(sorted)
    requires forall i, j :: 0 <= i < FoldKeep <= j < |sorted| ==>
      sorted[i] in f.values && sorted[j] in f.values && f.values[sorted[i]] <= f.values[sorted[j]]
    requires r.order == sorted[..FoldKeep] && r.values == map k | k in sorted[..FoldKeep] :: f.values[k]
    ensures forall k, d :: k in r.values && d in f.values && d !in r.values ==> f.values[k] <= f.values[d]
  {
    forall k, d | k in r.values && d in f.values && d !in r.values
      ensures f.values[k] <= f.values[d]
    {
      var i :| 0 <= i < FoldKeep && sorted[..FoldKeep][i] == k;
      assert d in sorted;
      var j :| 0 <= j < |sorted| && sorted[j] == d;
      assert j >= FoldKeep;
      assert sorted[i] == k;
    }
  }

  /** The trim after an insert: a fold map of more than 1000 positions keeps its 500
      lowest-energy ones. */
  function LimitFold(f: FoldMap): (r: FoldMap)
    requires OrderedStore.Valid(f)
    ensures OrderedStore.Valid(r)
    ensures |f.order| <= FoldLimit ==> r == f
    ensures |f.order| > FoldLimit ==> r == TrimLowest(f)
    ensures |r.order| <= FoldLimit
  {
    if |f.order| > FoldLimit then TrimLowest(f) else f
  }

  // ---------------------------------------------------------------------------
  // Fold energy

  /** The complement position of `get_fold_energy`: `n // x` when x divides n, else
      `int(n / x)`. */
  function Complement(n: int, x: int): int
    requires x != 0
  {
    if n % x == 0 then FloorDiv(n, x) else TruncDiv(n, x)
  }

  /** Both branches agree: the complement is n / x truncated toward zero, and exactly the
      cofactor when x divides n. */
  lemma ComplementIsTruncated(n: int, x: int)
    requires x != 0
    ensures Complement(n, x) == TruncDiv(n, x)
    ensures n % x == 0 ==> Complement(n, x) * x == n
  {
    if n % x == 0 {
      var k := n / x;
      assert n == x * k;
      ExactQuotients(n, x, k);
    }
  }

  /** Floor and truncating division agree on an exact multiple. */
  lemma ExactQuotients(n: int, x: int, k: int)
    requires x != 0 && n == x * k
    ensures FloorDiv(n, x) == k && TruncDiv(n, x) == k
  {
    if x > 0 {
      ExactDiv(n, x, k);
    } else {
      assert -n == (-x) * k;
      ExactDiv(-n, -x, k);
    }
    AbsMul(x, k);
    ExactDiv(Abs(n), Abs(x), Abs(k));
  }

  lemma AbsMul(x: int, k: int)
    requires x != 0
    ensures Abs(x * k) == Abs(x) * Abs(k)
    ensures x * k >= 0 <==> (k >= 0) == (x > 0) || k == 0
  {
    MulBounds(Abs(x), Abs(k));
    if x < 0 {
      assert x * k == -((-x) * k);
    }
    if k < 0 {
      assert x * k == -(x * (-k));
    }
  }

  lemma ExactDiv(a: int, b: int, k: int)
    requires b > 0 && a == b * k
    ensures a / b == k
  {
    var q, r := a / b, a % b;
    assert a == b * q + r && 0 <= r < b;
    assert b * (k - q) == r;
    MulBounds(b, k - q);
  }

  lemma MulBounds(b: int, m: int)
    requires b > 0
    ensures m >= 1 ==> b * m >= b
    ensures m <= -1 ==> b * m <= -b
  {
  }

  /** Every cached fold energy is `energy` of S(x), S(complement) and S(n). */
  ghost predicate FoldFaithful<V, P>(c: Cache<V, P>, spectral: int -> V, energy: (V, V, V) -> real) {
    forall n, x :: n in c.foldMap.values && x in c.foldMap.values[n].values ==>
      x != 0 && c.foldMap.values[n].values[x] == energy(spectral(x), spectral(Complement(n, x)), spectral(n))
  }

  /** Every fold map holds at most 1000 positions. */
  ghost predicate FoldBounded<V, P>(c: Cache<V, P>) {
    forall n :: n in c.foldMap.values ==> |c.foldMap.values[n].order| <= FoldLimit
  }

  /** S(x), S(n) and S(complement), fetched in the order of `get_fold_energy`; x = 0 raises
      ZeroDivisionError at `n % x`, after S(x) and S(n). */
  function FoldVectors<V, P>(c: Cache<V, P>, n: int, x: int, spectral: int -> V): (r: Result<(Cache<V, P>, V, V, V)>)
    requires Valid(c)
    ensures c.cacheSize >= 0 ==> (r.Success? <==> x != 0)
    ensures c.cacheSize >= 0 && x == 0 ==> r == Failure(ZeroDivisionError)
    ensures r.Failure? ==> r.error == KeyError || r.error == ZeroDivisionError
    ensures r.Success? ==> x != 0 && Valid(r.value.0) && OnlySpectral(c, r.value.0)
    ensures r.Success? ==>
      r.value.0.cacheHits + r.value.0.cacheMisses == c.cacheHits + c.cacheMisses + 3 &&
      r.value.0.cacheHits >= c.cacheHits && r.value.0.cacheMisses >= c.cacheMisses
  {
    var gx :- GetSpectralVector(c, x, spectral);
    var gn :- GetSpectralVector(gx.0, n, spectral);
    if x == 0 then Failure(ZeroDivisionError)
    else
      var gy :- GetSpectralVector(gn.0, Complement(n, x), spectral);
      Success((gy.0, gx.1, gy.1, gn.1))
  }

  /** The fold map of n before the store: the cached one, or `{}`. */
  function FoldOf<V, P>(c: Cache<V, P>, n: int): (f: FoldMap)
    requires Valid(c)
    ensures OrderedStore.Valid(f)
    ensures n !in c.foldMap.values ==> f.order == []
  {
    if n in c.foldMap.values then c.foldMap.values[n] else OrderedStore.Empty()
  }

  /** The fold map of n once `fold_map[n][x] = e` and its trim have run. */
  function Updated<V, P>(c: Cache<V, P>, n: int, x: int, e: real): (f: FoldMap)
    requires Valid(c)
    ensures OrderedStore.Valid(f) && |f.order| <= FoldLimit
  {
    LimitFold(Put(FoldOf(c, n), x, e))
  }

  /** `fold_map[n][x] = energy`, the trim of that fold map, then the trim of the dictionary
      of fold maps. */
  function StoreFold<V, P>(c: Cache<V, P>, n: int, x: int, e: real): (r: Result<(Cache<V, P>, real)>)
    requires Valid(c)
    ensures r.Failure? <==> c.cacheSize < 0
    ensures r.Failure? ==> r.error == KeyError
    ensures r.Success? ==> Valid(r.value.0) && r.value.1 == e
    ensures r.Success? ==> r.value.0 == c.(foldMap := PutTrimmed(c.foldMap, n, Updated(c, n, x, e), c.cacheSize).value)
  {
    var stored := PutTrimmed(c.foldMap, n, Updated(c, n, x, e), c.cacheSize);
    if stored.Failure? then Failure(stored.error) else Success((c.(foldMap := stored.value), e))
  }

  /** What the store of the dictionary of fold maps does: a new n is appended (and the
      oldest trimmed), an existing n keeps its place in a bounded dictionary, the other
      fold maps are untouched, and with room for one entry n maps to the new fold map. */
  lemma StoreFoldFacts<X(!new)>(s: Store<int, X>, n: int, v: X, size: int)
    requires OrderedStore.Valid(s)
    ensures size >= 0 && n !in s.values ==> AppendedTrimmed(s.order, n, PutTrimmed(s, n, v, size).value.order, size)
    ensures n in s.values && |s.order| <= size ==> PutTrimmed(s, n, v, size).value.order == s.order
    ensures size >= 0 ==> forall k :: k in PutTrimmed(s, n, v, size).value.values && k != n ==>
      k in s.values && PutTrimmed(s, n, v, size).value.values[k] == s.values[k]
    ensures size >= 0 && n in PutTrimmed(s, n, v, size).value.values ==> PutTrimmed(s, n, v, size).value.values[n] == v
    ensures size >= 1 && (n !in s.values || |s.order| <= size) ==> n in PutTrimmed(s, n, v, size).value.values
  {
    if size < 0 {
    } else if n !in s.values {
      PutTrimmedNew(s, n, v, size);
      if size >= 1 {
        PutTrimmedKeeps(s, n, v, size);
      }
    } else if |s.order| <= size {
      PutTrimmedExisting(s, n, v, size);
    }
  }

  /** `get_fold_energy(n, x)`: a cached energy is a hit and, unlike the other dictionaries,
      does not refresh the recency of n; a miss fetches S(x), S(n) and S(complement) and
      stores energy(S(x), S(complement), S(n)) in the fold map of n. */
  function GetFoldEnergy<V, P>(c: Cache<V, P>, n: int, x: int, spectral: int -> V,
                               energy: (V, V, V) -> real): (r: Result<(Cache<V, P>, real)>)
    requires Valid(c)
    ensures n in c.foldMap.values && x in c.foldMap.values[n].values ==>
      r.Success? && r.value.1 == c.foldMap.values[n].values[x] &&
      r.value.0 == c.(cacheHits := c.cacheHits + 1)
    ensures !(n in c.foldMap.values && x in c.foldMap.values[n].values) ==>
      (r.Failure? <==> c.cacheSize < 0 || x == 0) &&
      (c.cacheSize >= 0 && x == 0 ==> r == Failure(ZeroDivisionError)) &&
      (r.Failure? ==> r.error == KeyError || r.error == ZeroDivisionError) &&
      (r.Success? ==> r.value.0.cacheMisses >= c.cacheMisses + 1 &&
                      r.value.0.cacheHits + r.value.0.cacheMisses == c.cacheHits + c.cacheMisses + 4 &&
                      r.value.0.coherenceCache == c.coherenceCache &&
                      r.value.0.interferenceBank == c.interferenceBank &&
                      (n !in c.foldMap.values ==>
                         AppendedTrimmed(c.foldMap.order, n, r.value.0.foldMap.order, c.cacheSize)))
    ensures r.Success? ==> Valid(r.value.0) && r.value.0.cacheSize == c.cacheSize
  {
    if n in c.foldMap.values && x in c.foldMap.values[n].values then
      Success((c.(cacheHits := c.cacheHits + 1), c.foldMap.values[n].values[x]))
    else FoldMiss(c, n, x, spectral, energy)
  }

  /** A fold miss: counted, then the three spectral vectors, then the store. */
  function FoldMiss<V, P>(c: Cache<V, P>, n: int, x: int, spectral: int -> V,
                          energy: (V, V, V) -> real): (r: Result<(Cache<V, P>, real)>)
    requires Valid(c)
    ensures r.Failure? <==> c.cacheSize < 0 || x == 0
    ensures c.cacheSize >= 0 && x == 0 ==> r == Failure(ZeroDivisionError)
    ensures r.Failure? ==> r.error == KeyError || r.error == ZeroDivisionError
    ensures r.Success? ==> Valid(r.value.0) && r.value.0.cacheSize == c.cacheSize
    ensures r.Success? ==> r.value.0.cacheMisses >= c.cacheMisses + 1
    ensures r.Success? ==> r.value.0.cacheHits + r.value.0.cacheMisses == c.cacheHits + c.cacheMisses + 4
    ensures r.Success? ==> r.value.0.coherenceCache == c.coherenceCache &&
                           r.value.0.interferenceBank == c.interferenceBank
    ensures r.Success? && n !in c.foldMap.values ==>
      AppendedTrimmed(c.foldMap.order, n, r.value.0.foldMap.order, c.cacheSize)
  {
    var t := FoldVectors(CountMiss(c), n, x, spectral);
    if t.Failure? then Failure(t.error)
    else
      var e := energy(t.value.1, t.value.2, t.value.3);
      StoreFoldFacts(c.foldMap, n, Updated(t.value.0, n, x, e), c.cacheSize);
      StoreFold(t.value.0, n, x, e)
  }

  /** The three vectors of a fold miss are S(x), S(complement) and S(n). */
  lemma FoldVectorsFaithful<V, P>(c: Cache<V, P>, n: int, x: int, spectral: int -> V)
    requires Valid(c) && SpectralFaithful(c, spectral)
    ensures var r := FoldVectors(c, n, x, spectral);
      r.Success? ==> r.value.1 == spectral(x) && r.value.2 == spectral(Complement(n, x)) &&
                     r.value.3 == spectral(n) && SpectralFaithful(r.value.0, spectral)
  {
    SpectralVectorFaithful(c, x, spectral);
    if GetSpectralVector(c, x, spectral).Success? {
      var c1 := GetSpectralVector(c, x, spectral).value.0;
      SpectralVectorFaithful(c1, n, spectral);
      if GetSpectralVector(c1, n, spectral).Success? && x != 0 {
        var c2 := GetSpectralVector(c1, n, spectral).value.0;
        SpectralVectorFaithful(c2, Complement(n, x), spectral);
      }
    }
  }

  /** After a fold miss the fold map of n is the old one with x stored and trimmed, and
      every other fold map is as it was. */
  lemma FoldMissStores<V, P>(c: Cache<V, P>, n: int, x: int, spectral: int -> V, energy: (V, V, V) -> real)
    requires Valid(c)
    ensures var r := FoldMiss(c, n, x, spectral, energy);
      r.Success? ==>
        (forall k :: k in r.value.0.foldMap.values && k != n ==>
           k in c.foldMap.values && r.value.0.foldMap.values[k] == c.foldMap.values[k]) &&
        (n in r.value.0.foldMap.values ==> r.value.0.foldMap.values[n] == LimitFold(Put(FoldOf(c, n), x, r.value.1))) &&
        (c.cacheSize >= 1 && (n !in c.foldMap.values || |c.foldMap.order| <= c.cacheSize) ==>
           n in r.value.0.foldMap.values)
  {
    var t := FoldVectors(CountMiss(c), n, x, spectral);
    if t.Success? {
      var e := energy(t.value.1, t.value.2, t.value.3);
      assert t.value.0.foldMap == c.foldMap;
      StoreFoldFacts(c.foldMap, n, Updated(t.value.0, n, x, e), c.cacheSize);
    }
  }

  lemma LimitFoldKeepsValues(f: FoldMap)
    requires OrderedStore.Valid(f)
    ensures forall k :: k in LimitFold(f).values ==> k in f.values && LimitFold(f).values[k] == f.values[k]
  {
  }

  /** A fold energy is energy(S(x), S(y), S(n)) with y = n / x truncated toward zero, and
      the dictionaries stay faithful. */
  lemma GetFoldEnergyFaithful<V, P>(c: Cache<V, P>, n: int, x: int, spectral: int -> V, energy: (V, V, V) -> real)
    requires Valid(c) && SpectralFaithful(c, spectral) && FoldFaithful(c, spectral, energy)
    ensures var r := GetFoldEnergy(c, n, x, spectral, energy);
      r.Success? ==> x != 0 && r.value.1 == energy(spectral(x), spectral(TruncDiv(n, x)), spectral(n)) &&
                     SpectralFaithful(r.value.0, spectral) && FoldFaithful(r.value.0, spectral, energy)
  {
    var r := GetFoldEnergy(c, n, x, spectral, energy);
    if r.Success? {
      ComplementIsTruncated(n, x);
      if !(n in c.foldMap.values && x in c.foldMap.values[n].values) {
        FoldMissFaithful(c, n, x, spectral, energy);
      }
    }
  }

  lemma FoldMissFaithful<V, P>(c: Cache<V, P>, n: int, x: int, spectral: int -> V, energy: (V, V, V) -> real)
    requires Valid(c) && SpectralFaithful(c, spectral) && FoldFaithful(c, spectral, energy)
    ensures var r := FoldMiss(c, n, x, spectral, energy);
      r.Success? ==> x != 0 && r.value.1 == energy(spectral(x), spectral(Complement(n, x)), spectral(n)) &&
                     SpectralFaithful(r.value.0, spectral) && FoldFaithful(r.value.0, spectral, energy)
  {
    var r := FoldMiss(c, n, x, spectral, energy);
    FoldVectorsFaithful(CountMiss(c), n, x, spectral);
    if r.Success? {
      FoldMissStores(c, n, x, spectral, energy);
      var e := r.value.1;
      var fold := r.value.0.foldMap.values;
      if n in fold {
        LimitFoldKeepsValues(Put(FoldOf(c, n), x, e));
      }
      forall m, y | m in fold && y in fold[m].values
        ensures y != 0 && fold[m].values[y] == energy(spectral(y), spectral(Complement(m, y)), spectral(m))
      {
        if m != n {
          assert fold[m] == c.foldMap.values[m];
        } else if y != x {
          assert y in FoldOf(c, n).values;
        }
      }
    }
  }

  /** Every fold map keeps at most 1000 positions. */
  lemma GetFoldEnergyBounded<V, P>(c: Cache<V, P>, n: int, x: int, spectral: int -> V, energy: (V, V, V) -> real)
    requires Valid(c) && FoldBounded(c)
    ensures var r := GetFoldEnergy(c, n, x, spectral, energy);
      r.Success? ==> FoldBounded(r.value.0)
  {
    var r := GetFoldEnergy(c, n, x, spectral, energy);
    if !(n in c.foldMap.values && x in c.foldMap.values[n].values) {
      FoldMissStores(c, n, x, spectral, energy);
      assert r == FoldMiss(c, n, x, spectral, energy);
      if r.Success? {
        var f := r.value.0.foldMap;
        forall k | k in f.values ensures |f.values[k].order| <= FoldLimit {
          if k != n {
            assert f.values[k] == c.foldMap.values[k];
          }
        }
      }
    }
  }

  /** Below the 1000-entry limit, a computed fold energy is a hit the next time, with the
      same value; the hit changes nothing but the hit counter. */
  lemma FoldRepeatHits<V, P>(c: Cache<V, P>, n: int, x: int, spectral: int -> V, energy: (V, V, V) -> real)
    requires Valid(c) && c.cacheSize >= 1 && x != 0 && |FoldOf(c, n).order| < FoldLimit
    requires n !in c.foldMap.values || |c.foldMap.order| <= c.cacheSize
    ensures var r := GetFoldEnergy(c, n, x, spectral, energy);
      r.Success? && GetFoldEnergy(r.value.0, n, x, spectral, energy) ==
                    Success((r.value.0.(cacheHits := r.value.0.cacheHits + 1), r.value.1))
  {
    if !(n in c.foldMap.values && x in c.foldMap.values[n].values) {
      FoldMissHoldsPosition(c, n, x, spectral, energy);
    }
  }

  /** After a miss with room in n's fold map, n's fold map holds x with the computed energy. */
  lemma FoldMissHoldsPosition<V, P>(c: Cache<V, P>, n: int, x: int, spectral: int -> V, energy: (V, V, V) -> real)
    requires Valid(c) && c.cacheSize >= 1 && x != 0 && |FoldOf(c, n).order| < FoldLimit
    requires n !in c.foldMap.values || |c.foldMap.order| <= c.cacheSize
    ensures var r := FoldMiss(c, n, x, spectral, energy);
      r.Success? && n in r.value.0.foldMap.values && x in r.value.0.foldMap.values[n].values &&
      r.value.0.foldMap.values[n].values[x] == r.value.1
  {
    var r := FoldMiss(c, n, x, spectral, energy);
    FoldMissStores(c, n, x, spectral, energy);
    var f := Put(FoldOf(c, n), x, r.value.1);
    assert |f.order| <= FoldLimit;
    assert LimitFold(f) == f;
    assert r.value.0.foldMap.values[n] == f;
  }

  /** Storing a new position in a fold map that already holds 1000 cuts it to the 500
      positions of lowest energy, sorted by energy: none kept is above any dropped. */
  lemma FoldOverflowKeepsLowest<V, P>(c: Cache<V, P>, n: int, x: int, spectral: int -> V, energy: (V, V, V) -> real)
    requires Valid(c) && c.cacheSize >= 1 && x != 0 && |c.foldMap.order| <= c.cacheSize
    requires n in c.foldMap.values && |c.foldMap.values[n].order| == FoldLimit && x !in c.foldMap.values[n].values
    ensures var r := GetFoldEnergy(c, n, x, spectral, energy);
      var whole := c.foldMap.values[n].values[x := r.value.1];
      r.Success? && n in r.value.0.foldMap.values &&
      |r.value.0.foldMap.values[n].order| == FoldKeep &&
      SortedBy(r.value.0.foldMap.values[n].order, whole) &&
      forall k, d :: k in r.value.0.foldMap.values[n].values && d in whole && d !in r.value.0.foldMap.values[n].values ==>
        r.value.0.foldMap.values[n].values[k] == whole[k] <= whole[d]
  {
    FoldMissStores(c, n, x, spectral, energy);
  }

  // ---------------------------------------------------------------------------
  // Statistics and the factory

  datatype Statistics = Statistics(cacheHits: nat, cacheMisses: nat, hitRate: real,
                                   spectralCached: nat, coherenceCached: nat, interferenceCached: nat,
                                   foldMapsCached: nat, totalEntries: nat)

  /** `get_cache_statistics`: the counters, the hit rate and the size of each dictionary. */
  function GetCacheStatistics<V, P>(c: Cache<V, P>): (s: Statistics)
    requires Valid(c)
    ensures s.cacheHits == c.cacheHits && s.cacheMisses == c.cacheMisses
    ensures s.hitRate == Counters.HitRate(c.cacheHits, c.cacheMisses)
    ensures s.spectralCached == |c.spectralCache.values| && s.coherenceCached == |c.coherenceCache.values|
    ensures s.interferenceCached == |c.interferenceBank.values| && s.foldMapsCached == |c.foldMap.values|
    ensures s.totalEntries == s.spectralCached + s.coherenceCached + s.interferenceCached + s.foldMapsCached
  {
    StoreSize(c.spectralCache);
    StoreSize(c.coherenceCache);
    StoreSize(c.interferenceBank);
    StoreSize(c.foldMap);
    var total := |c.spectralCache.order| + |c.coherenceCache.order| + |c.interferenceBank.order| + |c.foldMap.order|;
    Statistics(c.cacheHits, c.cacheMisses, Counters.HitRate(c.cacheHits, c.cacheMisses),
               |c.spectralCache.order|, |c.coherenceCache.order|, |c.interferenceBank.order|,
               |c.foldMap.order|, total)
  }

  /** A valid store lists as many keys as it maps. */
  lemma {:induction false} StoreSize<K(!new), X>(s: Store<K, X>)
    requires OrderedStore.Valid(s)
    ensures |s.values| == |s.order|
    decreases |s.order|
  {
    if s.order != [] {
      var d := OrderedStore.DropFirst(s);
      StoreSize(d);
      assert s.values.Keys == d.values.Keys + {s.order[0]};
    }
  }

  /** Within the size bound the cache holds at most four times cache_size entries. */
  lemma StatisticsBounded<V, P>(c: Cache<V, P>)
    requires Valid(c) && Bounded(c)
    ensures GetCacheStatistics(c).totalEntries <= 4 * c.cacheSize
  {
  }

  /** The cache size `create_optimized(n)` picks: 5000 below 10^4, 10000 below 10^6,
      20000 from there on. */
  function CacheSizeFor(n: int): (size: int)
    ensures size >= 5000
  {
    if n < 10000 then 5000 else if n < 1000000 then 10000 else 20000
  }

  /** `create_optimized(n)`: a cache of the size for n, with the priority numbers and n
      itself cached, one access counted. `interference` is the analysis the cache's
      interference patterns will come from; creating the cache stores none, so it only
      fixes their type. */
  function CreateOptimized<V, P>(n: int, spectral: int -> V, interference: int -> P): (r: Result<Cache<V, P>>)
    ensures r.Success? && Valid(r.value) && Bounded(r.value)
    ensures n < 10000 ==> r.value.cacheSize == 5000
    ensures 10000 <= n < 1000000 ==> r.value.cacheSize == 10000
    ensures n >= 1000000 ==> r.value.cacheSize == 20000
    ensures r.value.cacheHits + r.value.cacheMisses == 1
    ensures n in r.value.spectralCache.values
    ensures r.value.coherenceCache.order == [] && r.value.interferenceBank.order == [] &&
            r.value.foldMap.order == []
  {
    NewAndCacheFaithful(CacheSizeFor(n), n, spectral, interference);
    Success(NewAndCache(CacheSizeFor(n), n, spectral, interference))
  }

  /** `cls(cache_size)` followed by `get_spectral_vector(n)`. */
  function NewAndCache<V, P>(size: int, n: int, spectral: int -> V, interference: int -> P): (c: Cache<V, P>)
    requires size >= 1
    ensures Valid(c) && Bounded(c) && c.cacheSize == size
    ensures c.cacheHits + c.cacheMisses == 1
    ensures c.coherenceCache.order == [] && c.interferenceBank.order == [] && c.foldMap.order == []
  {
    var empty: Cache<V, P> := New(size, spectral).value;
    GetSpectralVector(empty, n, spectral).value.0
  }

  /** The cache `create_optimized(n)` returns is faithful and holds S(n). */
  lemma CreateOptimizedCachesN<V, P>(n: int, spectral: int -> V, interference: int -> P)
    ensures var c := CreateOptimized(n, spectral, interference).value;
      n in c.spectralCache.values && c.spectralCache.values[n] == spectral(n) && SpectralFaithful(c, spectral)
  {
    NewAndCacheFaithful(CacheSizeFor(n), n, spectral, interference);
  }

  lemma NewAndCacheFaithful<V, P>(size: int, n: int, spectral: int -> V, interference: int -> P)
    requires size >= 1
    ensures var c := NewAndCache(size, n, spectral, interference);
      n in c.spectralCache.values && c.spectralCache.values[n] == spectral(n) && SpectralFaithful(c, spectral)
  {
    NewFaithful<V, P>(size, spectral);
    var empty: Cache<V, P> := New(size, spectral).value;
    CachedAfterAccess(empty, n, spectral);
  }

  /** With room for one entry, an access leaves n cached with its own vector. */
  lemma CachedAfterAccess<V, P>(c: Cache<V, P>, n: int, spectral: int -> V)
    requires Valid(c) && c.cacheSize >= 1 && SpectralFaithful(c, spectral)
    ensures var c' := GetSpectralVector(c, n, spectral).value.0;
      n in c'.spectralCache.values && c'.spectralCache.values[n] == spectral(n) && SpectralFaithful(c', spectral)
  {
    SpectralVectorFaithful(c, n, spectral);
    if n !in c.spectralCache.values {
      var o := GetSpectralVector(c, n, spectral).value.0.spectralCache.order;
      var whole := c.spectralCache.order + [n];
      assert o[|o| - 1] == whole[|whole| - 1] == n;
      assert n in o;
    }
  }
}
