/** The failure memory of `axiom5/failure_analysis.py`: failed positions per method, a
    bounded history of failure events, spectral nulls, dense dead-end regions and the
    failure probability of a position. The spectral vector of a position comes from
    outside the module and is a parameter; coherence values are exact reals. */
module FailureAnalysis {
  import opened Arith
  import opened Seqs
  import opened Wrappers
  import opened OrderedStore

  // ---------------------------------------------------------------------------
  // Characteristics of a position

  datatype Characteristics = Characteristics(even: bool, divisibleBy3: bool, divisibleBy5: bool,
                                             nearSqrt: bool, powerOfTwo: bool, highBitCount: bool)

  /** `_analyze_position(position, n)`; `math.isqrt` of a negative n raises ValueError.
      Python's `bin` and `bit_length` of a negative number describe its absolute value. */
  function AnalyzePosition(position: int, n: int): (r: Result<Characteristics>)
    ensures r.Failure? <==> n < 0
    ensures r.Failure? ==> r.error == ValueError
    ensures r.Success? ==> (r.value.even <==> position % 2 == 0) &&
                           (r.value.divisibleBy3 <==> position % 3 == 0) &&
                           (r.value.divisibleBy5 <==> position % 5 == 0)
    ensures r.Success? ==> (r.value.nearSqrt <==> exists s: nat :: s * s <= n < (s + 1) * (s + 1) && Abs(position - s) <= 5)
    ensures r.Success? ==> (r.value.powerOfTwo <==> IsPowerOfTwo(position))
    ensures r.Success? ==> (r.value.highBitCount <==> 2 * PopCount(Abs(position)) > BitLength(Abs(position)))
  {
    if n < 0 then Failure(ValueError)
    else
      var root := Isqrt(n);
      NearSqrtMeans(position, n);
      PowerOfTwoFlag(position);
      Success(Characteristics(
        position % 2 == 0, position % 3 == 0, position % 5 == 0,
        Abs(position - root) <= 5,
        position > 0 && BitAnd(position, position - 1) == 0,
        PopCount(Abs(position)) > BitLength(Abs(position)) / 2))
  }

  /** `abs(position - isqrt(n)) <= 5` compares the position with the r bracketing n as
      r*r <= n < (r+1)^2. */
  lemma NearSqrtMeans(position: int, n: nat)
    ensures Abs(position - Isqrt(n)) <= 5 <==>
            exists s: nat :: s * s <= n < (s + 1) * (s + 1) && Abs(position - s) <= 5
  {
    if exists s: nat :: s * s <= n < (s + 1) * (s + 1) && Abs(position - s) <= 5 {
      var s: nat :| s * s <= n < (s + 1) * (s + 1) && Abs(position - s) <= 5;
      IsqrtUnique(n, s);
    }
  }

  /** `position & (position - 1) == 0 and position > 0` recognises the powers of two. */
  lemma PowerOfTwoFlag(position: int)
    ensures position > 0 && BitAnd(position, position - 1) == 0 <==> IsPowerOfTwo(position)
  {
    if position > 0 {
      BitTrickPowerOfTwo(position);
    } else if IsPowerOfTwo(position) {
      var e: nat :| Pow(2, e) == position;
      PowPositive(2, e);
    }
  }

  /** 2^k has one set bit among k + 1 binary digits. */
  lemma {:induction false} PowerOfTwoBits(k: nat)
    ensures Pow(2, k) >= 1
    ensures PopCount(Pow(2, k)) == 1 && BitLength(Pow(2, k)) == k + 1
  {
    PowPositive(2, k);
    if k > 0 {
      PowerOfTwoBits(k - 1);
      assert Pow(2, k) == 2 * Pow(2, k - 1);
      HalfOfDouble(Pow(2, k - 1));
    }
  }

  /** 2^k - 1 has k set bits among k binary digits. */
  lemma {:induction false} AllOnesBits(k: nat)
    ensures Pow(2, k) >= 1
    ensures PopCount(Pow(2, k) - 1) == k && BitLength(Pow(2, k) - 1) == k
  {
    PowPositive(2, k);
    if k > 0 {
      AllOnesBits(k - 1);
      assert Pow(2, k) == 2 * Pow(2, k - 1);
      HalfOfDoubleLessOne(Pow(2, k - 1));
    }
  }

  lemma HalfOfDouble(p: nat)
    ensures (2 * p) / 2 == p && (2 * p) % 2 == 0
  {
  }

  lemma HalfOfDoubleLessOne(p: nat)
    requires p >= 1
    ensures (2 * p - 1) / 2 == p - 1 && (2 * p - 1) % 2 == 1
  {
  }

  /** A power of two from 2 on never has a high bit count; a run of ones always has. */
  lemma HighBitCountExtremes(k: nat)
    ensures Pow(2, k) >= 1
    ensures k >= 1 ==> !AnalyzePosition(Pow(2, k), 0).value.highBitCount
    ensures k >= 1 ==> AnalyzePosition(Pow(2, k) - 1, 0).value.highBitCount
  {
    PowerOfTwoBits(k);
    AllOnesBits(k);
  }

  // ---------------------------------------------------------------------------
  // The failure memory

  /** One entry of `failure_patterns`. */
  datatype FailureEvent<V> = FailureEvent(n: int, position: int, methodName: string, coherence: real,
                                          spectrum: V, characteristics: Characteristics)

  /** `FailureMemory`: memory_size, failed_positions (position -> method -> coherence),
      failure_patterns, dead_end_regions and spectral_nulls. */
  datatype Memory<V> = Memory(memorySize: int,
                              failedPositions: Store<int, map<string, real>>,
                              failurePatterns: seq<FailureEvent<V>>,
                              deadEndRegions: seq<(int, int)>,
                              spectralNulls: seq<int>)

  /** The history holds at most memory_size events (none for a size below 1), the nulls
      are distinct failed positions. */
  ghost predicate Valid<V>(m: Memory<V>) {
    OrderedStore.Valid(m.failedPositions) &&
    |m.failurePatterns| <= Max(m.memorySize, 0) &&
    Distinct(m.spectralNulls) &&
    forall i :: 0 <= i < |m.spectralNulls| ==> m.spectralNulls[i] in m.failedPositions.values
  }

  /** `FailureMemory(memory_size)`: everything empty. */
  function NewMemory<V>(memorySize: int): (m: Memory<V>)
    ensures Valid(m) && m.memorySize == memorySize
    ensures m.failedPositions.order == [] && m.failurePatterns == [] &&
            m.deadEndRegions == [] && m.spectralNulls == []
  {
    Memory(memorySize, OrderedStore.Empty(), [], [], [])
  }

  /** Python's `s[start:]`: a negative start counts from the end, both are clamped. */
  function SliceFrom<T>(s: seq<T>, start: int): (r: seq<T>)
    ensures start >= 0 ==> r == s[Min(start, |s|)..]
    ensures start < 0 ==> r == s[Max(|s| + start, 0)..]
  {
    if start >= 0 then s[Min(start, |s|)..] else s[Max(|s| + start, 0)..]
  }

  /** The trim of `record_failure` as written: `if len(p) > memory_size: p = p[-memory_size:]`. */
  function TrimHistoryAsWritten<T>(s: seq<T>, memorySize: int): (r: seq<T>)
    ensures memorySize >= 1 ==> r == s[|s| - Min(|s|, memorySize)..]
    ensures memorySize == 0 ==> r == s
    ensures memorySize < 0 ==> r == s[Min(-memorySize, |s|)..]
  {
    if |s| > memorySize then SliceFrom(s, -memorySize) else s
  }

  /** The trim as intended: the latest memory_size events, none for a size below 1. */
  function KeepLatest<T>(s: seq<T>, memorySize: int): (r: seq<T>)
    ensures |r| == Min(|s|, Max(memorySize, 0))
    ensures r == s[|s| - |r|..]
  {
    if |s| > memorySize then s[|s| - Max(memorySize, 0)..] else s
  }

  /** For memory_size >= 1 the trim as written keeps the latest memory_size events. */
  lemma TrimAgreesFromOne<T>(s: seq<T>, memorySize: int)
    requires memorySize >= 1
    ensures TrimHistoryAsWritten(s, memorySize) == KeepLatest(s, memorySize)
  {
  }

  /** For memory_size = 0 the slice `p[-0:]` is all of p: the history is never trimmed. */
  lemma TrimKeepsAllAtZero<T>(s: seq<T>)
    ensures TrimHistoryAsWritten(s, 0) == s
    ensures |s| > 0 ==> |TrimHistoryAsWritten(s, 0)| > |KeepLatest(s, 0)|
  {
  }

  /** `record_failure(n, position, method, coherence_value)`. The characteristics are
      computed before anything is stored, so a negative n raises ValueError and leaves the
      memory as it was. */
  function RecordFailure<V>(m: Memory<V>, n: int, position: int, methodName: string, coherence: real,
                            spectral: int -> V): (r: Result<Memory<V>>)
    requires Valid(m)
    ensures r.Failure? <==> n < 0
    ensures r.Failure? ==> r.error == ValueError
    ensures r.Success? ==> Valid(r.value)
    ensures r.Success? ==> r.value.memorySize == m.memorySize && r.value.deadEndRegions == m.deadEndRegions
    ensures r.Success? ==>
      var h, h' := m.failurePatterns, r.value.failurePatterns;
      |h'| == Min(|h| + 1, Max(m.memorySize, 0)) &&
      (|h'| > 0 ==> h'[..|h'| - 1] == h[|h| + 1 - |h'|..]) &&
      (m.memorySize >= 1 ==> h'[|h'| - 1] == FailureEvent(n, position, methodName, coherence, spectral(position),
                                                          AnalyzePosition(position, n).value))
    ensures r.Success? ==>
      var f, f' := m.failedPositions.values, r.value.failedPositions.values;
      position in f' && methodName in f'[position] && f'[position][methodName] == coherence &&
      (forall p :: p != position ==> (p in f' <==> p in f) && (p in f ==> f'[p] == f[p])) &&
      (forall k :: k in f'[position] <==> k == methodName || (position in f && k in f[position])) &&
      (forall k :: k != methodName && position in f && k in f[position] ==> f'[position][k] == f[position][k])
    ensures r.Success? ==>
      (forall q :: q in r.value.spectralNulls <==> q in m.spectralNulls || (q == position && coherence < 0.1)) &&
      (r.value.spectralNulls == m.spectralNulls || r.value.spectralNulls == m.spectralNulls + [position])
  {
    var chars := AnalyzePosition(position, n);
    if chars.Failure? then Failure(chars.error)
    else
      var event := FailureEvent(n, position, methodName, coherence, spectral(position), chars.value);
      var failed := m.failedPositions;
      var methods := if position in failed.values then failed.values[position] else map[];
      var nulls := AddNull(m.spectralNulls, position, coherence);
      Success(m.(failurePatterns := KeepLatest(m.failurePatterns + [event], m.memorySize),
                 failedPositions := Put(failed, position, methods[methodName := coherence]),
                 spectralNulls := nulls))
  }

  /** `if coherence_value < 0.1 and position not in spectral_nulls: append`. */
  function AddNull(nulls: seq<int>, position: int, coherence: real): (r: seq<int>)
    requires Distinct(nulls)
    ensures Distinct(r)
    ensures forall q :: q in r <==> q in nulls || (q == position && coherence < 0.1)
    ensures r == nulls || r == nulls + [position]
  {
    if coherence < 0.1 && position !in nulls then
      assert Distinct(nulls + [position]) by {
        forall i, j | 0 <= i < j < |nulls| + 1 ensures (nulls + [position])[i] != (nulls + [position])[j] {
          if j == |nulls| {
            assert nulls[i] in nulls;
          }
        }
      }
      nulls + [position]
    else nulls
  }

  /** Trimming after every record keeps the same events as trimming the whole log once. */
  lemma TrimIncrementally<T>(log: seq<T>, e: T, memorySize: int)
    ensures KeepLatest(KeepLatest(log, memorySize) + [e], memorySize) == KeepLatest(log + [e], memorySize)
  {
    var kept := KeepLatest(log, memorySize);
    var r := KeepLatest(kept + [e], memorySize);
    var n := |r|;
    assert n == Min(|log| + 1, Max(memorySize, 0));
    if n > 0 {
      assert kept == log[|log| - |kept|..];
      assert r == kept[|kept| + 1 - n..] + [e];
      assert kept[|kept| + 1 - n..] == log[|log| + 1 - n..];
      assert (log + [e])[|log| + 1 - n..] == log[|log| + 1 - n..] + [e];
    }
  }

  // ---------------------------------------------------------------------------
  // Dead ends

  /** The failed positions, ascending (`sorted(failed_positions.keys())`). */
  function SortedFailures<V>(m: Memory<V>): (keys: seq<int>)
    requires Valid(m)
    ensures StrictlyAscending(keys) && forall p :: p in keys <==> p in m.failedPositions.values
  {
    SortAscending(m.failedPositions.order)
  }

  /** Reference definition: at least t sorted failed positions, from keys[a] on, lie within
      10 of keys[a]. */
  ghost predicate Dense(keys: seq<int>, a: int, t: int) {
    0 <= a < |keys| && exists e :: a <= e < |keys| && e - a + 1 >= t && keys[e] - keys[a] <= 10
  }

  /** Reference definition: r runs from one failed position to another at most 10 above it,
      over at least t consecutive failed positions. */
  ghost predicate IsDeadEnd(keys: seq<int>, r: (int, int), t: int) {
    exists a, e :: 0 <= a <= e < |keys| && keys[a] == r.0 && keys[e] == r.1 && e - a + 1 >= t && r.1 - r.0 <= 10
  }

  /** Some region contains p. */
  ghost predicate Covered(regions: seq<(int, int)>, p: int) {
    exists k :: 0 <= k < |regions| && regions[k].0 <= p <= regions[k].1
  }

  /** What the scan from index i promises: every region a dead end starting at or after
      keys[i], the regions ascending and apart, every dense position from i on covered. */
  ghost predicate ScanFrom(keys: seq<int>, i: nat, t: int, r: seq<(int, int)>) {
    (forall k :: 0 <= k < |r| ==> IsDeadEnd(keys, r[k], t)) &&
    (|r| > 0 ==> i < |keys| && keys[i] <= r[0].0) &&
    (forall k :: 0 <= k < |r| - 1 ==> r[k].1 < r[k + 1].0) &&
    (forall a :: i <= a < |keys| && Dense(keys, a, t) ==> Covered(r, keys[a]))
  }

  /** The inner loop of `identify_dead_ends`: from j on, the first index whose position is
      more than 10 above keys[i], or the end. */
  function WindowEnd(keys: seq<int>, i: nat, j: nat): (r: nat)
    requires StrictlyAscending(keys) && i < j <= |keys|
    requires forall k :: i <= k < j ==> keys[k] - keys[i] <= 10
    ensures j <= r <= |keys|
    ensures forall k :: i <= k < r ==> keys[k] - keys[i] <= 10
    ensures r == |keys| || keys[r] - keys[i] > 10
    decreases |keys| - j
  {
    if j < |keys| && keys[j] - keys[i] <= 10 then WindowEnd(keys, i, j + 1) else j
  }

  /** The outer loop of `identify_dead_ends` from index i: a window of at least t positions
      becomes a region and the scan resumes after it; otherwise the scan moves one on. */
  function DeadEndsFrom(keys: seq<int>, i: nat, t: int): (r: seq<(int, int)>)
    requires StrictlyAscending(keys) && i <= |keys|
    ensures ScanFrom(keys, i, t, r)
    decreases |keys| - i
  {
    if i == |keys| then []
    else
      var j := WindowEnd(keys, i, i + 1);
      if j - i >= t then
        var rest := DeadEndsFrom(keys, j, t);
        RegionStep(keys, i, j, t, rest);
        [(keys[i], keys[j - 1])] + rest
      else
        var rest := DeadEndsFrom(keys, i + 1, t);
        SkipStep(keys, i, j, t, rest);
        rest
  }

  /** A window of at least t positions is a dead end ahead of the regions after it, and it
      covers every position it spans. */
  lemma RegionStep(keys: seq<int>, i: nat, j: nat, t: int, rest: seq<(int, int)>)
    requires StrictlyAscending(keys) && i < j <= |keys| && j - i >= t
    requires forall k :: i <= k < j ==> keys[k] - keys[i] <= 10
    requires ScanFrom(keys, j, t, rest)
    ensures ScanFrom(keys, i, t, [(keys[i], keys[j - 1])] + rest)
  {
    RegionsAreDeadEnds(keys, i, j, t, rest);
    RegionsApart(keys, i, j, rest);
    RegionsCover(keys, i, j, t, rest);
  }

  lemma RegionsAreDeadEnds(keys: seq<int>, i: nat, j: nat, t: int, rest: seq<(int, int)>)
    requires StrictlyAscending(keys) && i < j <= |keys| && j - i >= t
    requires forall k :: i <= k < j ==> keys[k] - keys[i] <= 10
    requires forall k :: 0 <= k < |rest| ==> IsDeadEnd(keys, rest[k], t)
    ensures var r := [(keys[i], keys[j - 1])] + rest;
      forall k :: 0 <= k < |r| ==> IsDeadEnd(keys, r[k], t)
  {
    var r := [(keys[i], keys[j - 1])] + rest;
    assert IsDeadEnd(keys, r[0], t) by {
      assert keys[j - 1] - keys[i] <= 10;
      assert 0 <= i <= j - 1 < |keys| && keys[i] == r[0].0 && keys[j - 1] == r[0].1;
    }
    forall k | 1 <= k < |r| ensures IsDeadEnd(keys, r[k], t) {
      assert r[k] == rest[k - 1];
    }
  }

  lemma RegionsApart(keys: seq<int>, i: nat, j: nat, rest: seq<(int, int)>)
    requires StrictlyAscending(keys) && i < j <= |keys|
    requires |rest| > 0 ==> j < |keys| && keys[j] <= rest[0].0
    requires forall k :: 0 <= k < |rest| - 1 ==> rest[k].1 < rest[k + 1].0
    ensures var r := [(keys[i], keys[j - 1])] + rest;
      forall k :: 0 <= k < |r| - 1 ==> r[k].1 < r[k + 1].0
  {
    var r := [(keys[i], keys[j - 1])] + rest;
    forall k | 0 <= k < |r| - 1 ensures r[k].1 < r[k + 1].0 {
      if k == 0 {
        assert keys[j - 1] < keys[j] <= rest[0].0;
      } else {
        assert r[k] == rest[k - 1] && r[k + 1] == rest[k];
      }
    }
  }

  lemma RegionsCover(keys: seq<int>, i: nat, j: nat, t: int, rest: seq<(int, int)>)
    requires StrictlyAscending(keys) && i < j <= |keys|
    requires forall a :: j <= a < |keys| && Dense(keys, a, t) ==> Covered(rest, keys[a])
    ensures forall a :: i <= a < |keys| && Dense(keys, a, t) ==> Covered([(keys[i], keys[j - 1])] + rest, keys[a])
  {
    var r := [(keys[i], keys[j - 1])] + rest;
    forall a | i <= a < |keys| && Dense(keys, a, t)
      ensures Covered(r, keys[a])
    {
      if a < j {
        assert i == a || keys[i] < keys[a];
        assert a == j - 1 || keys[a] < keys[j - 1];
        assert r[0].0 <= keys[a] <= r[0].1;
      } else {
        var k :| 0 <= k < |rest| && rest[k].0 <= keys[a] <= rest[k].1;
        assert r[k + 1] == rest[k];
      }
    }
  }

  /** A window shorter than t leaves keys[i] outside every dead end start, and the scan
      from i + 1 keeps its promises from i. */
  lemma SkipStep(keys: seq<int>, i: nat, j: nat, t: int, rest: seq<(int, int)>)
    requires StrictlyAscending(keys) && i < j <= |keys| && j - i < t
    requires j == |keys| || keys[j] - keys[i] > 10
    requires ScanFrom(keys, i + 1, t, rest)
    ensures ScanFrom(keys, i, t, rest)
  {
    forall e | i <= e < |keys| && e - i + 1 >= t
      ensures keys[e] - keys[i] > 10
    {
      assert j <= e < |keys|;
      assert e == j || keys[j] < keys[e];
    }
    if |rest| > 0 {
      assert keys[i] < keys[i + 1] <= rest[0].0;
    }
  }

  /** `identify_dead_ends(threshold)`. With no failure recorded it returns [] and leaves
      the memory as it is; otherwise it stores the regions it returns. Each region runs
      between two failed positions at most 10 apart over at least `threshold` failed
      positions; the regions ascend without overlapping; every failed position that starts
      such a run lies in a region. */
  function IdentifyDeadEnds<V>(m: Memory<V>, threshold: int): (r: (Memory<V>, seq<(int, int)>))
    requires Valid(m)
    ensures m.failedPositions.order == [] ==> r == (m, [])
    ensures m.failedPositions.order != [] ==> r.0 == m.(deadEndRegions := r.1)
    ensures Valid(r.0)
    ensures forall k :: 0 <= k < |r.1| ==>
      r.1[k].0 in m.failedPositions.values && r.1[k].1 in m.failedPositions.values &&
      r.1[k].0 <= r.1[k].1 <= r.1[k].0 + 10 && IsDeadEnd(SortedFailures(m), r.1[k], threshold)
    ensures forall k :: 0 <= k < |r.1| - 1 ==> r.1[k].1 < r.1[k + 1].0
    ensures forall a :: Dense(SortedFailures(m), a, threshold) ==> Covered(r.1, SortedFailures(m)[a])
  {
    if m.failedPositions.order == [] then (m, [])
    else
      var keys := SortedFailures(m);
      var regions := DeadEndsFrom(keys, 0, threshold);
      DeadEndsBetweenFailures(keys, regions, threshold);
      (m.(deadEndRegions := regions), regions)
  }

  lemma DeadEndsBetweenFailures(keys: seq<int>, regions: seq<(int, int)>, t: int)
    requires StrictlyAscending(keys)
    requires forall k :: 0 <= k < |regions| ==> IsDeadEnd(keys, regions[k], t)
    ensures forall k :: 0 <= k < |regions| ==>
      regions[k].0 in keys && regions[k].1 in keys && regions[k].0 <= regions[k].1 <= regions[k].0 + 10
  {
    forall k | 0 <= k < |regions|
      ensures regions[k].0 in keys && regions[k].1 in keys && regions[k].0 <= regions[k].1
    {
      var a, e :| 0 <= a <= e < |keys| && keys[a] == regions[k].0 && keys[e] == regions[k].1 &&
                  e - a + 1 >= t && regions[k].1 - regions[k].0 <= 10;
      assert a == e || keys[a] < keys[e];
    }
  }

  // ---------------------------------------------------------------------------
  // Failure probability

  /** The distance from p to the nearest of s, None for an empty s (`float('inf')`). */
  function MinDistance(s: seq<int>, p: int): (d: Option<nat>)
    ensures d.None? <==> s == []
    ensures d.Some? ==> (exists k :: 0 <= k < |s| && Abs(p - s[k]) == d.value) &&
                        forall k :: 0 <= k < |s| ==> d.value <= Abs(p - s[k])
  {
    if s == [] then None
    else
      var rest := MinDistance(s[1..], p);
      var here := Abs(p - s[0]);
      if rest.None? || here < rest.value then Some(here)
      else
        assert forall k :: 1 <= k < |s| ==> s[k] == s[1..][k - 1];
        rest
  }

  /** The dead-end loop of `get_failure_probability`: does some region contain p? */
  function InSomeRegion(regions: seq<(int, int)>, p: int): (b: bool)
    ensures b <==> Covered(regions, p)
  {
    if regions == [] then false
    else if regions[0].0 <= p <= regions[0].1 then true
    else
      assert forall k :: 1 <= k < |regions| ==> regions[k] == regions[1..][k - 1];
      InSomeRegion(regions[1..], p)
  }

  /** `get_failure_probability(position)`. */
  function GetFailureProbability<V>(m: Memory<V>, position: int): (prob: real)
    requires Valid(m)
    ensures 0.0 < prob <= 0.9
  {
    if position in m.failedPositions.values then 0.9
    else if InSomeRegion(m.deadEndRegions, position) then 0.8
    else
      NearProbability(MinDistance(m.failedPositions.order, position))
  }

  /** `0.6 / (1 + min_distance)` when the nearest failure is closer than 3, else 0.1. */
  function NearProbability(d: Option<nat>): (prob: real)
    ensures 0.0 < prob <= 0.6
    ensures d.Some? && d.value == 1 ==> prob == 0.3
    ensures d.Some? && d.value == 2 ==> prob == 0.2
    ensures d.None? || d.value >= 3 ==> prob == 0.1
  {
    if d.Some? && d.value < 3 then 0.6 / (1 + d.value) as real else 0.1
  }

  /** The probability in terms of the failed positions: 0.9 on one, else 0.8 inside a dead
      end, else 0.3 next to one, 0.2 two away from one, 0.1 farther. */
  lemma FailureProbabilityMeans<V>(m: Memory<V>, position: int)
    requires Valid(m)
    ensures var f, prob := m.failedPositions.values, GetFailureProbability(m, position);
      (position in f ==> prob == 0.9) &&
      (position !in f && Covered(m.deadEndRegions, position) ==> prob == 0.8) &&
      (position !in f && !Covered(m.deadEndRegions, position) ==>
         (prob == 0.3 <==> position - 1 in f || position + 1 in f) &&
         (prob == 0.2 <==> position - 1 !in f && position + 1 !in f && (position - 2 in f || position + 2 in f)) &&
         (prob == 0.1 <==> forall q :: q in f ==> Abs(position - q) >= 3))
  {
    var order := m.failedPositions.order;
    if position !in m.failedPositions.values && !Covered(m.deadEndRegions, position) {
      NearestDistance(order, position);
      assert forall q :: q in m.failedPositions.values <==> q in order;
    }
  }

  /** The nearest distance from a p outside s: 1 iff a neighbour is in s, 2 iff none is but
      one two away is, 3 or more (or none at all) iff nothing of s is within 2. */
  lemma NearestDistance(s: seq<int>, p: int)
    requires p !in s
    ensures var d := MinDistance(s, p);
      (d.Some? ==> d.value >= 1) &&
      (d.Some? && d.value == 1 <==> p - 1 in s || p + 1 in s) &&
      (d.Some? && d.value == 2 <==> p - 1 !in s && p + 1 !in s && (p - 2 in s || p + 2 in s)) &&
      (d.None? || d.value >= 3 <==> forall q :: q in s ==> Abs(p - q) >= 3)
  {
    NearestAtLeastOne(s, p);
    NearestFailure(s, p, 1);
    NearestFailure(s, p, 2);
    NearestFar(s, p);
  }

  lemma NearestAtLeastOne(s: seq<int>, p: int)
    requires p !in s
    ensures MinDistance(s, p).Some? ==> MinDistance(s, p).value >= 1
  {
    var d := MinDistance(s, p);
    if d.Some? {
      var k :| 0 <= k < |s| && Abs(p - s[k]) == d.value;
      assert s[k] in s;
    }
  }

  lemma NearestFar(s: seq<int>, p: int)
    ensures MinDistance(s, p).None? || MinDistance(s, p).value >= 3 <==> forall q :: q in s ==> Abs(p - q) >= 3
  {
    var d := MinDistance(s, p);
    if d.Some? {
      var k :| 0 <= k < |s| && Abs(p - s[k]) == d.value;
      assert s[k] in s;
    }
    forall q | q in s ensures d.Some? && d.value <= Abs(p - q) {
      var k :| 0 <= k < |s| && s[k] == q;
    }
  }

  /** Some of s lies at distance exactly e from p iff p - e or p + e is in s. */
  lemma NearestFailure(s: seq<int>, p: int, e: nat)
    ensures (exists k :: 0 <= k < |s| && Abs(p - s[k]) == e) <==> (p - e in s || p + e in s)
  {
    if p - e in s {
      var k :| 0 <= k < |s| && s[k] == p - e;
    } else if p + e in s {
      var k :| 0 <= k < |s| && s[k] == p + e;
    }
  }

  // ---------------------------------------------------------------------------
  // Worked cases

  /** 4 is even, not a multiple of 3 and a power of two; 15 is odd and a multiple of 3 and
      of 5. */
  lemma AnalyzeExamples()
    ensures var c := AnalyzePosition(4, 100).value; c.even && !c.divisibleBy3 && c.powerOfTwo
    ensures var c := AnalyzePosition(15, 100).value; !c.even && c.divisibleBy3 && c.divisibleBy5
  {
    assert Pow(2, 2) == 4;
  }

  /** Two records: both events are kept, 4 is a failed position and 6, recorded with
      coherence 0.05, is a spectral null. */
  lemma RecordExample<V>(spectral: int -> V)
    ensures var m1 := RecordFailure(NewMemory<V>(100), 77, 4, "axiom1", 0.2, spectral);
      m1.Success? &&
      var m2 := RecordFailure(m1.value, 77, 6, "axiom2", 0.05, spectral);
      m2.Success? && |m2.value.failurePatterns| == 2 &&
      4 in m2.value.failedPositions.values && 6 in m2.value.spectralNulls
  {
  }

  /** A memory whose failed positions are the ascending keys, each failed once by "axiom1"
      with coherence 0, with the given dead ends. */
  function FailedAt<V>(keys: seq<int>, regions: seq<(int, int)>): (m: Memory<V>)
    requires StrictlyAscending(keys)
    ensures Valid(m) && m.failedPositions.order == keys && m.deadEndRegions == regions
    ensures forall p :: p in m.failedPositions.values <==> p in keys
  {
    SortKeepsAscending(keys);
    Memory(100, Store(keys, map p | p in keys :: map["axiom1" := 0.0]), [], regions, [])
  }

  /** Failures at 5..10, 20 and 30 with threshold 5 give the single dead end (5, 10). */
  lemma DeadEndExample<V>()
    ensures IdentifyDeadEnds(FailedAt<V>([5, 6, 7, 8, 9, 10, 20, 30], []), 5).1 == [(5, 10)]
  {
    var keys := [5, 6, 7, 8, 9, 10, 20, 30];
    SortKeepsAscending(keys);
    ScanOfExample(keys);
  }

  lemma ScanOfExample(keys: seq<int>)
    requires keys == [5, 6, 7, 8, 9, 10, 20, 30]
    ensures StrictlyAscending(keys) && DeadEndsFrom(keys, 0, 5) == [(5, 10)]
  {
    ExampleAscending(keys);
    FirstWindowOfExample(keys);
    assert WindowEnd(keys, 7, 8) == 8;
    assert WindowEnd(keys, 6, 7) == WindowEnd(keys, 6, 8) == 8;
    assert DeadEndsFrom(keys, 8, 5) == [];
    assert DeadEndsFrom(keys, 7, 5) == DeadEndsFrom(keys, 8, 5);
    assert DeadEndsFrom(keys, 6, 5) == DeadEndsFrom(keys, 7, 5);
    assert DeadEndsFrom(keys, 0, 5) == [(5, 10)] + DeadEndsFrom(keys, 6, 5);
  }

  lemma ExampleAscending(keys: seq<int>)
    requires keys == [5, 6, 7, 8, 9, 10, 20, 30]
    ensures StrictlyAscending(keys)
  {
    forall i, j | 0 <= i < j < |keys| ensures keys[i] < keys[j] {
      assert forall k :: 0 <= k < 7 ==> keys[k] < keys[k + 1];
      if j > i + 1 {
        assert keys[i] < keys[i + 1] <= keys[j - 1] + 1;
      }
    }
  }

  lemma FirstWindowOfExample(keys: seq<int>)
    requires keys == [5, 6, 7, 8, 9, 10, 20, 30] && StrictlyAscending(keys)
    ensures WindowEnd(keys, 0, 1) == 6
  {
    assert WindowEnd(keys, 0, 6) == 6;
    assert WindowEnd(keys, 0, 5) == WindowEnd(keys, 0, 6);
    assert WindowEnd(keys, 0, 4) == WindowEnd(keys, 0, 5);
    assert WindowEnd(keys, 0, 3) == WindowEnd(keys, 0, 4);
    assert WindowEnd(keys, 0, 2) == WindowEnd(keys, 0, 3);
  }

  /** With failures at 5 and 10 and the region (8, 12): 5 and 10 are failures (0.9), 6 is
      next to one (0.3), 50 is far from all (0.1). */
  lemma ProbabilityExample<V>()
    ensures var m := FailedAt<V>([5, 10], [(8, 12)]);
      GetFailureProbability(m, 5) == 0.9 && GetFailureProbability(m, 10) == 0.9 &&
      GetFailureProbability(m, 6) == 0.3 && GetFailureProbability(m, 50) == 0.1
  {
    var m := FailedAt<V>([5, 10], [(8, 12)]);
    FailureProbabilityMeans(m, 6);
    FailureProbabilityMeans(m, 50);
  }

  /** An ascending list is its own sort. */
  lemma {:induction false} SortKeepsAscending(s: seq<int>)
    requires StrictlyAscending(s)
    ensures Distinct(s) && SortAscending(s) == s
  {
    if s != [] {
      var init := s[..|s| - 1];
      SortKeepsAscending(init);
      InsertLargest(s[|s| - 1], init);
      assert init + [s[|s| - 1]] == s;
    }
  }

  /** Inserting a number above all of an ascending list appends it. */
  lemma {:induction false} InsertLargest(x: int, s: seq<int>)
    requires StrictlyAscending(s) && forall i :: 0 <= i < |s| ==> s[i] < x
    ensures x !in s && InsertAscending(x, s) == s + [x]
  {
    if s != [] {
      InsertLargest(x, s[1..]);
      assert s == [s[0]] + s[1..];
    }
  }
}
