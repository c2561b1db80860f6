# Prime, Fibonacci and cache core of the `primes` factoring toolkit

This project is a Dafny model of the integer core under the toolkit's five "axioms".
It also models the bounded caches that those axioms share. It covers:

- primality (`is_prime` with its small-prime table and deterministic Miller-Rabin) and the
  sieve `primes_up_to`;
- the factoring command line: trial division by the sieved primes, and the printed line;
- fast-doubling `fib`, `lucas` and `is_fibonacci`;
- twin and Sophie Germain prime cascades, prime residue coordinates, and the Fibonacci
  lattice;
- the Fibonacci resonance map: a memoised `fib`, the nearest-Fibonacci search, and
  Fibonacci ranges;
- the FIFO coherence cache of axiom 3, the LRU spectral signature cache of axiom 3 and the
  LRU observer cache of axiom 4;
- the failure memory of axiom 5: position flags, the bounded history, dead-end clustering
  and failure probabilities.

Every operation is a pure function. An object with state becomes an immutable datatype,
and each method becomes a function from the old value to the new value and the result. A
Python exception becomes a `Failure` of the shared `Result` type. This covers:

- `ValueError` for a negative index or square root;
- `KeyError` from `popitem` on an empty `OrderedDict`;
- `StopIteration` from `next(iter({}))`;
- `ZeroDivisionError`.

Python's `dict` and `OrderedDict` are modelled by `OrderedStore.Store`: the keys in
insertion order beside a map.

The floating-point parts stay abstract:

- Spectral vectors, coherence and fold energies are function parameters.
- Their values are opaque payloads that the caches store and return unchanged.
- `int(n ** 0.5)` is the exact integer square root `Arith.Isqrt`.
- `int(n / x)` is division truncated toward zero, `Arith.TruncDiv`.

The files, one module each:

| file | models |
|---|---|
| wrappers.dfy | `Option`, `Result` and the Python error kinds |
| arith.dfy | powers, integer square root, Python's `//` and `int(a / b)`, bit counting |
| seqs.dfy | sortedness, distinctness, products, insertion sort |
| number_theory.dfy | Euclid's lemma, binomials, Fermat's little theorem and the square roots of 1 modulo a prime (used by the Miller-Rabin proof in prime_core.dfy) |
| counters.dfy | the hit-rate formula shared by the caches |
| ordered_store.dfy | insertion-ordered dictionaries and their LRU trimming |
| prime_core.dfy | `axiom1/prime_core.py` |
| factorizer.dfy | `factorizer/cli.py` |
| fibonacci_core.dfy | `axiom2/fibonacci_core.py` |
| prime_cascade.dfy | `axiom1/prime_cascade.py` |
| prime_coordinate_index.dfy | `axiom1/prime_coordinate_index.py` |
| fibonacci_resonance_map.dfy | `axiom2/fibonacci_resonance_map.py` (the Fibonacci cache) |
| fibonacci_vortices.dfy | `fibonacci_lattice_points` of `axiom2/fibonacci_vortices.py` |
| coherence_cache.dfy | `CoherenceCache` of `axiom3/coherence.py` |
| spectral_signature_cache.dfy | `axiom3/spectral_signature_cache.py` |
| observer_cache.dfy | `axiom4/observer_cache.py` |
| failure_analysis.dfy | the failure memory of `axiom5/failure_analysis.py` |

## Model

| member | source | states |
|---|---|---|
| PrimeCore.SmallPrimesAreThePrimesTo31 | axiom1/prime_core.py:9 | `SMALL_PRIMES` is strictly ascending and holds exactly the primes from 2 to 31 |
| PrimeCore.SmallPrimeVerdictMeans | axiom1/prime_core.py:19-22 | the small-prime loop falls through exactly when no table entry divides n; otherwise its answer is `n == p` for a dividing entry p |
| PrimeCore.IsPrime | axiom1/prime_core.py:16-17 | `is_prime(n)` is false for every n < 2 |
| PrimeCore.SmallPrimeDecides | axiom1/prime_core.py:19-22 | when a small prime p divides n >= 2, `is_prime(n)` is exactly `n == p` |
| PrimeCore.StripTwosCorrect | axiom1/prime_core.py:25-28 | the halving loop ends with an odd d and keeps d * 2^s equal to n - 1; an even start adds at least one halving |
| PrimeCore.YSquares | axiom1/prime_core.py:40-41 | each round of the inner loop squares the running value modulo n |
| PrimeCore.YDescends | axiom1/prime_core.py:36-45 | for a prime n, going down from a^(n-1) mod n = 1, either pow(a, d, n) is 1 or some squaring reaches n - 1 |
| PrimeCore.PrimePassesWitness | axiom1/prime_core.py:31-45 | a prime n passes the Miller-Rabin round for every base a with 1 <= a < n |
| PrimeCore.PrimeReachesMillerRabin | axiom1/prime_core.py:24-47 | a prime that survives the small-prime loop passes all seven bases, including those that reduce to 0 and are skipped |
| PrimeCore.PrimeAccepted | axiom1/prime_core.py:11-47 | `is_prime` accepts every prime |
| PrimeCore.IsPrimeExact | axiom1/prime_core.py:11-47 | below 2^64, and given the published completeness of the seven bases, `is_prime(n)` holds iff n is prime |
| PrimeCore.CrossOut | axiom1/prime_core.py:64 | the slice assignment clears exactly the multiples of p from p*p on and keeps every other flag |
| PrimeCore.InitialSieve | axiom1/prime_core.py:58-59 | the initial sieve has limit + 1 flags, all set but 0 and 1 |
| PrimeCore.SieveStep | axiom1/prime_core.py:62-64 | one round, crossing out only when `sieve[p]` is set, extends the sieve invariant from p to p + 1 |
| PrimeCore.SieveFrom | axiom1/prime_core.py:62-64 | the sieve loop keeps the length and establishes the invariant up to its last p |
| PrimeCore.NoSmallFactorMeansPrime | axiom1/prime_core.py:62 | below (top + 1)^2, having no factor among 2..top is primality, so stopping at `int(limit ** 0.5)` suffices |
| PrimeCore.SieveComplete | axiom1/prime_core.py:62-67 | after the last round, a flag is set exactly at the primes |
| PrimeCore.TrueIndices | axiom1/prime_core.py:67 | the final comprehension lists exactly the flagged indices, ascending |
| PrimeCore.PrimesUpTo | axiom1/prime_core.py:49-67 | `primes_up_to(limit)` is [] below 2, strictly ascending, and holds exactly the primes up to limit |
| Factorizer.StripFactor | factorizer/cli.py:15-17 | the `while remaining % p == 0` loop leaves a remainder that p no longer divides; p^count times the remainder is the input |
| Factorizer.TrialDivide | factorizer/cli.py:14-17 | after the prime loop, the found factors times the remainder is n; no prime tried divides the remainder; every factor is one of the primes |
| Factorizer.TrialDivideOrdered | factorizer/cli.py:14-17 | factors found by ascending primes come out in non-decreasing order |
| Factorizer.ResidueIsPrime | factorizer/cli.py:14-19 | a remainder above 1 with no prime factor up to the bound, and below (bound + 1)^2, is prime |
| Factorizer.ResidueLast | factorizer/cli.py:18-19 | a remainder above 1 is prime, appended last, and larger than every factor before it |
| Factorizer.FactorizeProduct | factorizer/cli.py:12-20 | for n >= 2 the factors multiply to n |
| Factorizer.FactorizePrimes | factorizer/cli.py:14-19 | every returned factor is prime |
| Factorizer.FactorizeOrdered | factorizer/cli.py:8-19 | the factors come out in ascending (non-decreasing) order |
| Factorizer.FactorizeCorrect | factorizer/cli.py:7-20 | `factorize_number(n)` is [] below 2; for n >= 2 its factors are prime, ascending, and multiply to n |
| Factorizer.Show | factorizer/cli.py:30 | `str(f)` is a non-empty run of decimal digits without a leading zero |
| Factorizer.ReadShow | factorizer/cli.py:30 | reading the decimal digits of `str(f)` back gives f |
| Factorizer.DigitRun | factorizer/cli.py:30 | the digit scanner stops at the first non-digit |
| Factorizer.ParseJoin | factorizer/cli.py:30 | a non-empty list joined with `" * "` parses back to the same list |
| Factorizer.OutputReadsBack | factorizer/cli.py:28-32 | the printed line is "1" for n < 2, and otherwise parses back to exactly the factor list |
| FibonacciCore.FibAddition | axiom2/fibonacci_core.py:19-21 | the addition law F(m+n+1) = F(m+1)F(n+1) + F(m)F(n), from which the doubling identities follow |
| FibonacciCore.Doubling | axiom2/fibonacci_core.py:20-21 | F(2k) = F(k)(2F(k+1) - F(k)) and F(2k+1) = F(k)^2 + F(k+1)^2 |
| FibonacciCore.DoubleStep | axiom2/fibonacci_core.py:43-53 | one step of `_double` turns (F(i//2), F(i//2+1)) into (F(i), F(i+1)) on both parity branches |
| FibonacciCore.Double | axiom2/fibonacci_core.py:35-53 | `_double(i)` returns (F(i), F(i+1)) |
| FibonacciCore.Fib | axiom2/fibonacci_core.py:15-55 | `fib(k)` raises ValueError exactly for k < 0 and is otherwise F(k) |
| FibonacciCore.FibRecurrence | axiom2/fibonacci_core.py:15-55 | fib(0) = 0, fib(1) = 1 and fib(k+2) = fib(k+1) + fib(k) |
| FibonacciCore.Lucas | axiom2/fibonacci_core.py:86-108 | `lucas(k)` raises ValueError exactly for k < 0 and is otherwise L(k): 2, 1, then fib(k-1) + fib(k+1) |
| FibonacciCore.LucasFromFib | axiom2/fibonacci_core.py:107-108 | L(k) = 2F(k+1) - F(k), the same value as fib(k-1) + fib(k+1) |
| FibonacciCore.LucasSquare | axiom2/fibonacci_core.py:114-115 | L(k)^2 = 5F(k)^2 + 4 for even k and - 4 for odd k |
| FibonacciCore.PerfectSquareMeans | axiom2/fibonacci_core.py:130-135 | `is_perfect_square(x)` holds iff x is the square of a natural number |
| FibonacciCore.FibonacciPasses | axiom2/fibonacci_core.py:126-137 | every Fibonacci number passes `is_fibonacci` |
| FibonacciCore.Descent | axiom2/fibonacci_core.py:126-137 | if m^2 = 5n^2 +- 4 then n = F(k) and m = L(k) for some k |
| FibonacciCore.IsFibonacciCorrect | axiom2/fibonacci_core.py:110-137 | `is_fibonacci(n)` holds iff n = F(k) for some k; it is false for negative n |
| PrimeCascade.Twins | axiom1/prime_cascade.py:41-45 | the twin step yields p + 2 when it passes and p - 2 when p > 2 and it passes, in that order, and nothing else |
| PrimeCascade.Chain | axiom1/prime_cascade.py:52-60 | the chain loop extends the list without touching its prefix; each new element is 2q + 1 of the one before, below n and passing; it stops at 10 elements or at the first 2q + 1 that fails |
| PrimeCascade.CascadePrefix | axiom1/prime_cascade.py:39-62 | the cascade starts with the twin primes and never holds more than 10 elements |
| PrimeCascade.CascadeChain | axiom1/prime_cascade.py:47-60 | every element after the twins is 2q + 1 of its predecessor (of p for the first), is below n and passes the test |
| PrimeCascade.CascadeMaximal | axiom1/prime_cascade.py:49-60 | a cascade shorter than 10 elements stops only because the next 2q + 1 is not below n or is not prime |
| PrimeCascade.CascadePasses | axiom1/prime_cascade.py:42-60 | every element of the cascade passed the primality test |
| PrimeCascade.TwinsInCascade | axiom1/prime_cascade.py:42-45 | p + 2 is in the cascade iff `is_prime(p + 2)`; p - 2 is in it iff p > 2 and `is_prime(p - 2)` |
| PrimeCascade.CascadeIsPrime | axiom1/prime_cascade.py:42-60 | below 2^64, and given the completeness of the Miller-Rabin bases, every cascade element is prime |
| PrimeCoordinateIndex.Coords | axiom1/prime_coordinate_index.py:54 | the coordinate vector has one entry per prime, `n % p`, each below its prime |
| PrimeCoordinateIndex.New | axiom1/prime_coordinate_index.py:16-35 | a new index holds `primes_up_to(prime_limit)`, empty caches and zero counters |
| PrimeCoordinateIndex.GetCoordinates | axiom1/prime_coordinate_index.py:37-60 | `get_coordinates` returns `n % p` for each prime; a cached n counts a hit and changes nothing else; an uncached n counts a miss and is stored only when n <= limit |
| PrimeCoordinateIndex.RepeatLookupHits | axiom1/prime_coordinate_index.py:47-58 | for n <= limit, a repeat lookup returns the same coordinates and counts one hit and no miss |
| PrimeCoordinateIndex.ZerosFrom | axiom1/prime_coordinate_index.py:211-213 | the loop collects exactly the (i, p) whose coordinate is 0, in index order |
| PrimeCoordinateIndex.GetZeroCoordinates | axiom1/prime_coordinate_index.py:198-215 | `get_zero_coordinates(n)` is exactly the (i, primes[i]) with primes[i] dividing n, in prime order |
| PrimeCoordinateIndex.Manhattan | axiom1/prime_coordinate_index.py:231 | the sum of absolute differences is 0 iff the two vectors are equal |
| PrimeCoordinateIndex.ManhattanSymmetric | axiom1/prime_coordinate_index.py:231 | the sum of absolute differences does not depend on the order of its arguments |
| PrimeCoordinateIndex.ComputeCoordinateDistance | axiom1/prime_coordinate_index.py:217-231 | the distance is the Manhattan distance between the two coordinate vectors |
| PrimeCoordinateIndex.DistanceProperties | axiom1/prime_coordinate_index.py:217-231 | the distance is 0 iff x and y agree modulo every prime; it is symmetric, and 0 from x to x |
| PrimeCoordinateIndex.Reverse | axiom1/prime_coordinate_index.py:131 | `list(reversed(path))` has the same length with the entries mirrored |
| PrimeCoordinateIndex.GetGeodesicPath | axiom1/prime_coordinate_index.py:110-133 | the stored path is returned with a hit; else the reversed (end, start) path with a hit; else None with no counter change |
| PrimeCoordinateIndex.StoreGeodesicPath | axiom1/prime_coordinate_index.py:135-149 | a path is stored only while fewer than limit // 10 paths are held; otherwise the index is unchanged |
| PrimeCoordinateIndex.StoreThenGet | axiom1/prime_coordinate_index.py:122-149 | a stored path is returned for (start, end) and, when no (end, start) path exists, reversed for (end, start) |
| PrimeCoordinateIndex.LookupAll | axiom1/prime_coordinate_index.py:184-196 | looking up a list caches exactly the listed numbers up to limit, and each lookup counts one hit or one miss |
| PrimeCoordinateIndex.PowersToTenThousand | axiom1/prime_coordinate_index.py:188-191 | the doubling loop from 2 up to 10000 visits 2, 4, ..., 8192 |
| PrimeCoordinateIndex.AtMost | axiom1/prime_coordinate_index.py:194-196 | the filter `if p <= self.limit`: exactly the entries at most the bound are kept |
| PrimeCoordinateIndex.CommonNumbers | axiom1/prime_coordinate_index.py:183-196 | every number looked up is at most limit, and a number is looked up exactly when it is in 2..min(999, limit), a power of two up to min(65536, limit), or one of the first 20 primes that is at most limit |
| PrimeCoordinateIndex.PrecomputeCommon | axiom1/prime_coordinate_index.py:178-196 | the precompute adds exactly the common numbers to the cache; each is looked up once, so hits plus misses grow by their count, and the misses grow by exactly the number of newly cached entries |
| PrimeCoordinateIndex.LookupAllMissesCached | axiom1/prime_coordinate_index.py:47-58 | when every number looked up is within the limit, each miss caches one new number |
| PrimeCoordinateIndex.CreateOptimized | axiom1/prime_coordinate_index.py:310-336 | the limit is n clamped to [10000, 100000], the primes are those up to 50, and no paths are stored |
| PrimeCoordinateIndex.CreateOptimizedCounts | axiom1/prime_coordinate_index.py:332-336 | for n >= 10000 the cache and counters start empty; otherwise one lookup per common number and one miss per number cached |
| PrimeCoordinateIndex.CommonAtTenThousand | axiom1/prime_coordinate_index.py:183-196 | with limit 10000 and primes up to 50, the common numbers are 2..999 and 1024, 2048, 4096, 8192 |
| PrimeCoordinateIndex.CreateOptimizedCache | axiom1/prime_coordinate_index.py:332-334 | for n < 10000 exactly 2..999 and 1024, 2048, 4096, 8192 are cached, 1002 numbers and 1002 misses; otherwise nothing is |
| PrimeCoordinateIndex.GetCacheStatistics | axiom1/prime_coordinate_index.py:233-250 | the counters, the hit rate (0 without accesses) and the two cache sizes |
| Counters.HitRate | axiom2/fibonacci_resonance_map.py:261-262 | the rate is 0 without accesses, else hits / (hits + misses); it lies in [0, 1] and is 1 iff there are hits and no misses |
| FibonacciResonanceMap.New | axiom2/fibonacci_resonance_map.py:19-36 | a new map has an empty Fibonacci cache and zero counters |
| FibonacciResonanceMap.GetFibonacci | axiom2/fibonacci_resonance_map.py:38-60 | `get_fibonacci(k)` is F(k) (ValueError below 0); a cached k counts a hit and changes nothing else; a new k counts a miss and is cached |
| FibonacciResonanceMap.MissThenHit | axiom2/fibonacci_resonance_map.py:48-60 | the first call for k is a miss and the repeat is a hit, both returning F(k) |
| FibonacciResonanceMap.LeastAtLeast | axiom2/fibonacci_resonance_map.py:218-221 | the search stops at the least index whose Fibonacci number reaches n |
| FibonacciResonanceMap.NearestFromMeans | axiom2/fibonacci_resonance_map.py:218-228 | the search loop answers with the closer of F(j-1) and F(j) for the least j with F(j) >= n |
| FibonacciResonanceMap.Settles | axiom2/fibonacci_resonance_map.py:221-227 | on stopping, the previous index wins only when it is strictly closer |
| FibonacciResonanceMap.FindNearestFibonacci | axiom2/fibonacci_resonance_map.py:208-228 | the answer (k, v, d) has v = F(k) and d = \|n - v\| |
| FibonacciResonanceMap.NearestIsNearest | axiom2/fibonacci_resonance_map.py:208-228 | no Fibonacci number is closer to n, and on a tie the answer is the upper one |
| FibonacciResonanceMap.NearestExamples | axiom2/test/test_fibonacci_resonance_map.py:86-103 | 55 gives (10, 55, 0), 50 gives (10, 55, 5) and 40 gives (9, 34, 6) |
| FibonacciResonanceMap.RangeIndicesMeans | axiom2/fibonacci_resonance_map.py:241-252 | the range loop keeps the indices from k on whose Fibonacci number is in [start, end], ascending |
| FibonacciResonanceMap.RangeFrom | axiom2/fibonacci_resonance_map.py:244-250 | the loop returns F at each kept index |
| FibonacciResonanceMap.GetFibonacciRange | axiom2/fibonacci_resonance_map.py:230-252 | `get_fibonacci_range` lists F(k) for ascending k, and every value lies in [start, end] |
| FibonacciResonanceMap.RangeComplete | axiom2/fibonacci_resonance_map.py:230-252 | the range is non-decreasing and contains every Fibonacci number in [start, end] |
| FibonacciResonanceMap.RangeTenToHundred | axiom2/test/test_fibonacci_resonance_map.py:107-114 | the range from 10 to 100 is [13, 21, 34, 55, 89] |
| FibonacciResonanceMap.RangeZeroToFive | axiom2/test/test_fibonacci_resonance_map.py:116-118 | the range from 0 to 5 is [0, 1, 1, 2, 3, 5] |
| FibonacciResonanceMap.GetCacheStatistics | axiom2/fibonacci_resonance_map.py:254-272 | the counters, the hit rate (0 when there were no accesses) and the cache size |
| FibonacciResonanceMap.FibLookups | axiom2/fibonacci_resonance_map.py:188-189 | looking up the indices from..to-1 adds exactly those to the cache |
| FibonacciResonanceMap.MaxIndexFor | axiom2/fibonacci_resonance_map.py:290-295 | the chosen max_index lies in [10, 200] |
| FibonacciResonanceMap.MaxIndexBounds | axiom2/fibonacci_resonance_map.py:290-295 | max_index - 10 is the least index whose Fibonacci number reaches n, unless the cap of 200 cuts the search short |
| FibonacciResonanceMap.PrecomputeKeys | axiom2/fibonacci_resonance_map.py:182-206 | on a fresh map, the precompute caches exactly the indices below `CachedBelow(n, max_index)` |
| FibonacciResonanceMap.CreateOptimized | axiom2/fibonacci_resonance_map.py:274-313 | `create_optimized(n)` caches the indices below min(100, max_index) and 14 for n < 10000, below min(50, max_index) for n < 10^6, none above (the counters count only these Fibonacci lookups; see Left out) |
| FibonacciVortices.LinesFrom | axiom2/fibonacci_vortices.py:144-151 | the grid lines are F(1), F(2), ... while they stay at most root |
| FibonacciVortices.LinesAreTheFibsToRoot | axiom2/fibonacci_vortices.py:144-151 | every Fibonacci number with index >= 1 and at most root is among the grid lines |
| FibonacciVortices.Enumerate | axiom2/fibonacci_vortices.py:173 | `sorted(set)` over a bounded range is strictly ascending and holds exactly the set's members in the range |
| FibonacciVortices.LatticePoints | axiom2/fibonacci_vortices.py:127-173 | the points are strictly ascending, hold no duplicates and lie in [2, isqrt(n)]; `math.isqrt` of a negative n raises ValueError |
| FibonacciVortices.LatticeMeans | axiom2/fibonacci_vortices.py:154-173 | x is a lattice point iff some pair of grid lines yields it as a sum, a difference or a product remainder in [2, root] |
| FibonacciVortices.PairPointsSymmetric | axiom2/fibonacci_vortices.py:154-171 | a pair yields the same points in either order, so `fib_lines[i:]` loses nothing |
| FibonacciVortices.SumInLattice | axiom2/fibonacci_vortices.py:156-159 | for Fibonacci f1, f2 <= root, f1 + f2 is a point whenever it lies in [2, root] |
| FibonacciVortices.DifferenceInLattice | axiom2/fibonacci_vortices.py:161-164 | for Fibonacci f1, f2 <= root, \|f1 - f2\| is a point whenever it lies in [2, root] |
| FibonacciVortices.ZeroProductGivesMin | axiom2/fibonacci_vortices.py:166-171 | a zero (f1 * f2) mod root is replaced by min(f1, f2), which is a point when it is at least 2 |
| FibonacciVortices.LatticeOf225 | axiom2/fibonacci_vortices.py:140-173 | for n = 225 (root 15) the points include 3, 5, 8 and 13 |
| CoherenceCache.New | axiom3/coherence.py:52-61 | a new cache keeps max_size and starts with both dictionaries empty |
| CoherenceCache.CoherenceKey | axiom3/coherence.py:96-97 | the key is (min(a, b), max(a, b), n) |
| CoherenceCache.KeySymmetric | axiom3/coherence.py:96-97 | swapping a and b gives the same key, and two keys agree iff the pairs {a, b} and the n agree |
| CoherenceCache.MakeRoom | axiom3/coherence.py:74-78 | at or above max_size the first-inserted key is deleted; `next(iter({}))` raises StopIteration when the dictionary is empty and max_size <= 0 |
| CoherenceCache.GetSpectral | axiom3/coherence.py:63-82 | a cached n returns its vector unchanged; a new n evicts the oldest entry when full, is appended last and returns spectral(n) |
| CoherenceCache.GetCoherence | axiom3/coherence.py:84-119 | a cached key returns its value with no change; a new key evicts the oldest key when full and is appended last with its computed value |
| CoherenceCache.SpectralTriple | axiom3/coherence.py:106-109 | the three spectral lookups succeed for max_size >= 1 and leave the coherence dictionary alone |
| CoherenceCache.Clear | axiom3/coherence.py:121-124 | `clear` empties both dictionaries and keeps max_size |
| CoherenceCache.SpectralFaithful | axiom3/coherence.py:63-82 | a lookup returns spectral(n) whenever every cached vector is the true one, and keeps that so |
| CoherenceCache.CoherenceFaithful | axiom3/coherence.py:84-119 | with a formula symmetric in a and b, a lookup returns the formula's value for (a, b, n) and keeps the cache faithful |
| CoherenceCache.TripleFaithful | axiom3/coherence.py:106-109 | the three vectors are the true ones |
| CoherenceCache.RepeatIsHit | axiom3/coherence.py:99-119 | a repeat lookup, in either argument order, returns the same value and changes nothing |
| CoherenceCache.CoherenceBounded | axiom3/coherence.py:73-117 | with max_size >= 1 neither dictionary grows beyond max_size |
| CoherenceCache.SpectralBounded | axiom3/coherence.py:73-80 | the spectral dictionary stays within max_size |
| CoherenceCache.FirstInFirstOut | axiom3/coherence.py:99-117 | a new key on a full cache drops exactly the first-inserted key and goes last |
| ObserverCache.New | axiom4/observer_cache.py:30-63 | a new cache has the given size, empty caches and zero counters |
| ObserverCache.GetObservation | axiom4/observer_cache.py:74-117 | a hit answers the stored value, counts a hit and makes the key the most recent; a miss answers the observer's value, counts a miss, appends the key and trims to cache_size; a negative size is a KeyError; only the observation cache and its counters change |
| ObserverCache.ObservationFaithful | axiom4/observer_cache.py:88-117 | on a cache holding only true observations, every answer is the observer's value at the position and the cache stays true |
| ObserverCache.MissBelowSize | axiom4/observer_cache.py:97-115 | a miss on a cache below its size appends the key and evicts nothing |
| ObserverCache.MissAtSize | axiom4/observer_cache.py:69-115 | a miss on a full cache evicts exactly the least recently used key |
| ObserverCache.RepeatObservationHits | axiom4/observer_cache.py:88-94 | with cache_size >= 1, repeating an observation is a hit with the same value |
| ObserverCache.LruEvictionExample | axiom4/test/test_observer_cache.py:120-148 | on a cache of size 3, after 2, 3 and 4 the order is 2, 3, 4; 5 evicts 2; the hit on 3 saves it, so 6 evicts 4, and a further 3 is a hit |
| ObserverCache.FillThree | axiom4/test/test_observer_cache.py:124-131 | three misses on an empty cache of size 3 fill it in the order of access |
| ObserverCache.EvictThenHit | axiom4/test/test_observer_cache.py:133-138 | a miss on the full cache evicts the oldest key; a hit on the new oldest key makes it the most recent |
| ObserverCache.EvictKeepsRecent | axiom4/test/test_observer_cache.py:140-146 | the next miss evicts the key that was not used again, and the recently used key is still a hit |
| ObserverCache.GradientAt | axiom4/observer_cache.py:140-162 | the reference gradient: 0 outside [2, isqrt(n)], otherwise the central difference over the clamped positions; ValueError for a negative n, ZeroDivisionError for delta = 0 |
| ObserverCache.GradientSamplesInRange | axiom4/observer_cache.py:148-158 | with delta >= 0 both clamped positions lie in [2, isqrt(n)] |
| ObserverCache.GetGradient | axiom4/observer_cache.py:119-167 | a hit answers the stored gradient and makes the key the most recent; a miss counts, fails exactly on delta = 0 inside the bounds, answers 0 outside them, and changes only the observation and gradient caches and their counters |
| ObserverCache.GradientFaithful | axiom4/observer_cache.py:119-167 | a gradient miss on a cache of true observations answers the reference gradient and keeps the cache true |
| ObserverCache.GradientMissFaithful | axiom4/observer_cache.py:144-161 | the computed part of a miss answers the reference gradient |
| ObserverCache.GradientObservationsFaithful | axiom4/observer_cache.py:149-158 | the two observations of a gradient are the observer's values at the forward and backward positions |
| ObserverCache.CacheQuantumState | axiom4/observer_cache.py:169-180 | the state is stored under (n, iteration); nothing else changes and the store is never trimmed |
| ObserverCache.GetQuantumState | axiom4/observer_cache.py:182-194 | the stored state if present, otherwise None |
| ObserverCache.StateRoundTrip | axiom4/observer_cache.py:169-194 | a stored state reads back unchanged, and other keys are unaffected |
| ObserverCache.StoreNavigationPath | axiom4/observer_cache.py:196-208 | the path is stored and the path cache stays within cache_size; a negative size is a KeyError |
| ObserverCache.GetNavigationPath | axiom4/observer_cache.py:210-230 | a hit counts and answers the path as the most recent key; a miss counts and answers None |
| ObserverCache.PathRoundTrip | axiom4/observer_cache.py:196-230 | with cache_size >= 1, a stored path reads back as a hit |
| ObserverCache.PrecomputeGradients | axiom4/observer_cache.py:323-339 | a pair of n and positions already done is skipped; otherwise one gradient request per position, and the pair is marked |
| ObserverCache.Clear | axiom4/observer_cache.py:432-446 | every cache, marker set and counter is emptied, except the gradient markers, which are kept |
| ObserverCache.ClearKeepsStaleMarker | axiom4/observer_cache.py:432-446 | after clear, a repeated gradient pre-computation is skipped and leaves the gradient cache empty |
| ObserverCache.ClearAll | axiom4/observer_cache.py:432-433 | a full clear gives the new cache of the same size |
| ObserverCache.ClearAllRecomputes | axiom4/observer_cache.py:323-339 | after a full clear a pre-computation makes one gradient request per position |
| OrderedStore.SizeIsOrderLength | axiom4/observer_cache.py:417-420 | `len(d)` of a dictionary equals the number of keys in its insertion order |
| ObserverCache.GetCacheStatistics | axiom4/observer_cache.py:406-430 | the four dictionary sizes and six counters are reported as held; the total hit rate is the hit rate of the summed hits over the summed misses, in [0, 1] and 0 with no requests; the pre-computed count is the size of the union of the three marker sets, between the largest of them and their sum |
| ObserverCache.StatisticsWithinSize | axiom4/observer_cache.py:417-420 | in a cache within its size each reported least-recently-used size is at most cache_size |
| ObserverCache.OptimizedSize | axiom4/observer_cache.py:459-473 | the size per tier of n, a capped multiple of isqrt(n), is at least 1000 and at most 20000 |
| ObserverCache.TierBounds | axiom4/observer_cache.py:459-470 | isqrt(n) is at most 31, 316 and 3162 below the tier bounds 10^3, 10^5 and 10^7, and at least 3162 from 10^7 on |
| ObserverCache.OptimizedSizeSmallExamples | axiom4/test/test_observer_cache.py:300-306 | n = 100 and n = 10^4 give 1000 |
| ObserverCache.OptimizedSizeMediumExample | axiom4/test/test_observer_cache.py:308-310 | n = 9999999 gives 6324 |
| ObserverCache.OptimizedSizeLargeExample | axiom4/test/test_observer_cache.py:312-314 | n = 10^7 gives 3162 |
| ObserverCache.OptimizedSizeHugeExample | axiom4/test/test_observer_cache.py:316-318 | n = 10^8 gives 10000 |
| ObserverCache.CreateOptimized | axiom4/observer_cache.py:448-483 | an empty cache of the tiered size; a negative n is the ValueError of math.isqrt |
| SpectralSignatureCache.Empty | axiom3/spectral_signature_cache.py:30-47 | the four dictionaries are empty and both counters are 0 |
| SpectralSignatureCache.GetSpectralVector | axiom3/spectral_signature_cache.py:81-106 | a hit answers the stored vector as the most recent key; a miss answers spectral(n), appends n and trims to cache_size; only the spectral dictionary and the counters change |
| SpectralSignatureCache.EnsureSpectralCached | axiom3/spectral_signature_cache.py:69-73 | a cached n changes nothing; otherwise n is stored last and the dictionary trimmed; the counters are untouched |
| SpectralSignatureCache.EnsureStored | axiom3/spectral_signature_cache.py:69-79 | on the dictionary alone: a present key changes nothing; a new key is appended with spectral(n) and the oldest trimmed |
| SpectralSignatureCache.FibsFrom | axiom3/spectral_signature_cache.py:57-58 | the i-th entry is fib(k + i) |
| SpectralSignatureCache.PowersOfTwo | axiom3/spectral_signature_cache.py:65-66 | the i-th entry is 2^(e + i) |
| SpectralSignatureCache.New | axiom3/spectral_signature_cache.py:30-67 | the constructor caches the priority numbers into empty dictionaries and leaves the counters at 0; a negative size is a KeyError |
| SpectralSignatureCache.EnsureKeysAppends | axiom3/spectral_signature_cache.py:52-67 | below the size bound, caching a list of numbers appends each number not yet seen, in first-seen order |
| SpectralSignatureCache.PriorityCached | axiom3/spectral_signature_cache.py:52-67 | with cache_size >= 32 exactly the priority numbers are cached, each once and with its true vector |
| SpectralSignatureCache.NewFaithful | axiom3/spectral_signature_cache.py:52-73 | every vector the constructor caches is the true one |
| SpectralSignatureCache.PriorityMembers | axiom3/test/test_spectral_signature_cache.py:117-138 | 8, 13, 21, 2, 3, 5, 7, 4 and 16 are cached by the constructor and 6 is not |
| SpectralSignatureCache.FibTable | axiom3/test/test_spectral_signature_cache.py:121-125 | fib(6) = 8, fib(7) = 13 and fib(8) = 21 |
| SpectralSignatureCache.SpectralVectorFaithful | axiom3/spectral_signature_cache.py:81-106 | on a true cache the answer is spectral(n) and the cache stays true |
| SpectralSignatureCache.SpectralRepeatHits | axiom3/spectral_signature_cache.py:91-95 | with cache_size >= 1 a repeated request is a hit with the same vector |
| SpectralSignatureCache.CachedAfterAccess | axiom3/spectral_signature_cache.py:98-106 | after a request n is cached with its true vector |
| SpectralSignatureCache.SpectralTriple | axiom3/spectral_signature_cache.py:129-132 | three vector requests count three accesses and change only the spectral dictionary |
| SpectralSignatureCache.TripleFaithful | axiom3/spectral_signature_cache.py:129-132 | the three vectors are spectral(a), spectral(b) and spectral(n) |
| SpectralSignatureCache.GetCoherence | axiom3/spectral_signature_cache.py:108-147 | the key is (min(a, b), max(a, b), n); a hit answers the stored value as the most recent key; a miss counts one miss and three vector requests, then stores the value last and trims |
| SpectralSignatureCache.GetCoherenceFaithful | axiom3/spectral_signature_cache.py:108-147 | for a symmetric formula the answer is the coherence of the true vectors, and both dictionaries stay true |
| SpectralSignatureCache.SwappedCoherenceHits | axiom3/test/test_spectral_signature_cache.py:34-49 | after C(a, b, n), the request C(b, a, n) is a hit with the same value |
| SpectralSignatureCache.FetchAndStore | axiom3/spectral_signature_cache.py:127-147 | a coherence miss appends its key with the computed value and leaves the other dictionaries alone |
| SpectralSignatureCache.StoreCoherence | axiom3/spectral_signature_cache.py:143-145 | the value is stored under the new key, the oldest keys are trimmed, and nothing else changes |
| SpectralSignatureCache.GetInterferencePattern | axiom3/spectral_signature_cache.py:149-176 | a hit answers the stored pattern as the most recent key; a miss answers interference(n), appends it and trims |
| SpectralSignatureCache.InterferencePatternFaithful | axiom3/spectral_signature_cache.py:149-176 | on a true bank the answer is interference(n) and the bank stays true |
| SpectralSignatureCache.AccessedAreMostRecent | axiom3/spectral_signature_cache.py:75-106 | after reading distinct numbers, the cache holds at most cache_size vectors and ends with the last cache_size numbers read, in reading order |
| SpectralSignatureCache.EvictionExample | axiom3/test/test_spectral_signature_cache.py:140-157 | reading 100..114 through a cache of size 10 leaves at most 10 vectors, with 100 evicted and 114 kept |
| SpectralSignatureCache.SortByEnergy | axiom3/spectral_signature_cache.py:224 | a permutation of the positions, ordered by non-decreasing energy |
| SpectralSignatureCache.SortStable | axiom3/spectral_signature_cache.py:224 | `sorted` is stable: positions of equal energy keep the order in which they were inserted |
| SpectralSignatureCache.TrimLowest | axiom3/spectral_signature_cache.py:222-225 | 500 positions remain with their energies, sorted by energy, and none removed has a lower energy than one kept; equal energies keep their insertion order, and at a tie across the cut the earlier-inserted position is the one kept |
| SpectralSignatureCache.LimitFold | axiom3/spectral_signature_cache.py:221-225 | a fold map of at most 1000 positions is unchanged; a larger one is cut to its 500 lowest energies |
| SpectralSignatureCache.ComplementIsTruncated | axiom3/spectral_signature_cache.py:204-210 | the complementary number is n // x for a divisor x, and int(n / x) otherwise: both are the quotient truncated toward zero |
| SpectralSignatureCache.FoldVectors | axiom3/spectral_signature_cache.py:197-210 | three vector requests; x = 0 raises ZeroDivisionError |
| SpectralSignatureCache.FoldVectorsFaithful | axiom3/spectral_signature_cache.py:197-210 | the three vectors are S(x), S(complement) and S(n) |
| SpectralSignatureCache.GetFoldEnergy | axiom3/spectral_signature_cache.py:178-229 | a hit answers the stored energy, counts a hit and changes nothing else; a miss fails exactly for x = 0 or a negative size, counts one miss and three vector requests, and appends a new n to the fold maps |
| SpectralSignatureCache.GetFoldEnergyFaithful | axiom3/spectral_signature_cache.py:178-229 | the answer is the energy of S(x), S(int(n / x)) and S(n), and the cache stays true |
| SpectralSignatureCache.FoldMissStores | axiom3/spectral_signature_cache.py:193-227 | a miss stores the energy in n's fold map, applies the 1000-position limit to that map only, and leaves the other fold maps unchanged |
| SpectralSignatureCache.GetFoldEnergyBounded | axiom3/spectral_signature_cache.py:221-225 | every fold map stays within 1000 positions |
| SpectralSignatureCache.FoldRepeatHits | axiom3/spectral_signature_cache.py:188-191 | below the 1000-position limit, repeating a fold request is a hit with the same energy |
| SpectralSignatureCache.FoldOverflowKeepsLowest | axiom3/spectral_signature_cache.py:219-225 | the 1001st position cuts n's fold map to its 500 lowest energies, the new one included |
| SpectralSignatureCache.PrecomputeFor | axiom3/spectral_signature_cache.py:259-270 | one vector request for n, and only the spectral dictionary changes |
| SpectralSignatureCache.GetCacheStatistics | axiom3/spectral_signature_cache.py:272-294 | the counters, the hit rate and the four dictionary sizes, with the total as their sum |
| SpectralSignatureCache.StatisticsBounded | axiom3/spectral_signature_cache.py:272-294 | within the bounds the total number of entries is at most 4 * cache_size |
| SpectralSignatureCache.CreateOptimized | axiom3/spectral_signature_cache.py:296-326 | the size is 5000 below 10^4, 10000 below 10^6 and 20000 above; one access, after which n is cached; the other dictionaries are empty |
| SpectralSignatureCache.CreateOptimizedCachesN | axiom3/test/test_spectral_signature_cache.py:244-249 | n is cached with its true vector |
| FailureAnalysis.AnalyzePosition | axiom5/failure_analysis.py:75-94 | each flag holds exactly when its property holds: parity, 3 and 5 dividing, within 5 of the integer square root of n, a power of two, more than half of the bits set; a negative n is a ValueError |
| FailureAnalysis.NearSqrtMeans | axiom5/failure_analysis.py:90 | being within 5 of isqrt(n) is being within 5 of the s with s^2 <= n < (s + 1)^2 |
| FailureAnalysis.PowerOfTwoFlag | axiom5/failure_analysis.py:91 | position & (position - 1) == 0 with position > 0 holds exactly for powers of two |
| FailureAnalysis.HighBitCountExtremes | axiom5/failure_analysis.py:92 | a power of two above 1 does not have the flag; 2^k - 1 with k >= 1 does |
| FailureAnalysis.AnalyzeExamples | axiom5/test/test_failure_analysis.py:45-61 | 4 is even, not divisible by 3, a power of two; 15 is odd and divisible by 3 and 5 |
| FailureAnalysis.NewMemory | axiom5/failure_analysis.py:22-35 | every part of the memory is empty |
| FailureAnalysis.SliceFrom | axiom5/failure_analysis.py:62 | Python's `s[start:]`, with a negative start counted from the end and clamped at 0 |
| FailureAnalysis.TrimHistoryAsWritten | axiom5/failure_analysis.py:61-62 | the trim as written: the latest memory_size events for a size of at least 1, the whole history for 0, and the history without its first -memory_size events for a negative size |
| FailureAnalysis.TrimKeepsAllAtZero | axiom5/failure_analysis.py:61-62 | as written, memory_size = 0 keeps the whole history, because `[-0:]` is the whole list |
| FailureAnalysis.TrimAgreesFromOne | axiom5/failure_analysis.py:61-62 | for memory_size >= 1 the written trim keeps exactly the latest memory_size events |
| FailureAnalysis.KeepLatest | axiom5/failure_analysis.py:60-62 | the last min(len, memory_size) events, none for a size below 1 |
| FailureAnalysis.TrimIncrementally | axiom5/failure_analysis.py:58-62 | trimming after every append keeps the same events as trimming the whole log once |
| FailureAnalysis.RecordFailure | axiom5/failure_analysis.py:37-73 | the event goes last in the history, which keeps the latest memory_size events (the corrected trim of the Findings row; none for a size below 1); the coherence is stored under the position and method, and other positions keep their entries; the position becomes a null exactly when coherence < 0.1, once; a negative n is a ValueError |
| FailureAnalysis.AddNull | axiom5/failure_analysis.py:70-73 | the nulls gain the position exactly when coherence < 0.1 and it is new, at the end |
| FailureAnalysis.RecordExample | axiom5/test/test_failure_analysis.py:31-43 | after two failures, the history holds two events, 4 is failed and 6 is a null |
| FailureAnalysis.SortedFailures | axiom5/failure_analysis.py:109 | the failed positions in strictly ascending order |
| FailureAnalysis.WindowEnd | axiom5/failure_analysis.py:116-120 | the first index whose position is more than 10 above the window's start, or the end |
| FailureAnalysis.DeadEndsFrom | axiom5/failure_analysis.py:112-130 | the scan returns dead ends only, ascending and disjoint, and covers every dense position |
| FailureAnalysis.IdentifyDeadEnds | axiom5/failure_analysis.py:96-133 | no failures gives no regions and stores nothing; otherwise each region spans at least threshold failed positions within 10 of its start, regions are ascending and disjoint, every position starting a dense window is covered, and the regions are stored |
| FailureAnalysis.DeadEndsBetweenFailures | axiom5/failure_analysis.py:122-124 | each region runs between failed positions at most 10 apart |
| FailureAnalysis.DeadEndExample | axiom5/test/test_failure_analysis.py:63-81 | failures at 5..10, 20 and 30 with threshold 5 give the one region (5, 10) |
| FailureAnalysis.MinDistance | axiom5/failure_analysis.py:155-159 | the least distance to a failed position, if there is one |
| FailureAnalysis.InSomeRegion | axiom5/failure_analysis.py:150-152 | true exactly when some region contains the position |
| FailureAnalysis.NearProbability | axiom5/failure_analysis.py:161-164 | 0.3 at distance 1, 0.2 at distance 2, otherwise 0.1 |
| FailureAnalysis.GetFailureProbability | axiom5/failure_analysis.py:135-164 | a probability in (0, 0.9] |
| FailureAnalysis.FailureProbabilityMeans | axiom5/failure_analysis.py:135-164 | 0.9 for a failed position; 0.8 inside a dead end; otherwise 0.3, 0.2 or 0.1 as the nearest failure is at distance 1, 2, or 3 and more or none |
| FailureAnalysis.NearestDistance | axiom5/failure_analysis.py:155-162 | the least distance of an unfailed position is 1, 2, or at least 3, exactly when the neighbours say so |
| FailureAnalysis.ProbabilityExample | axiom5/test/test_failure_analysis.py:83-107 | with failures at 5 and 10 and the region (8, 12), the probabilities of 5, 10, 6 and 50 are 0.9, 0.9, 0.3 and 0.1 |
| OrderedStore.Put | axiom4/observer_cache.py:113 | a new key goes last and an existing key keeps its place |
| OrderedStore.MoveToEnd | axiom4/observer_cache.py:93 | the key becomes the most recent one and the values stay |
| OrderedStore.DropFirst | axiom4/observer_cache.py:72 | the oldest key leaves and the others keep their values and order |
| OrderedStore.TrimOldest | axiom4/observer_cache.py:69-72 | the newest min(len, size) keys remain, in order, with their values; a negative size is a KeyError |
| OrderedStore.PutTrimmedNew | axiom4/observer_cache.py:113-115 | a new key is appended and the oldest keys beyond the size leave |
| OrderedStore.PutTrimmedKeeps | axiom4/observer_cache.py:113-115 | with size >= 1 the new key survives the trim with its value |
| Arith.Isqrt | axiom4/observer_cache.py:142 | r^2 <= n < (r + 1)^2 |
| Arith.IsqrtUnique | axiom4/observer_cache.py:142 | any r with r^2 <= n < (r + 1)^2 is isqrt(n) |
| Arith.TruncDiv | axiom3/spectral_signature_cache.py:208-210 | the quotient truncated toward zero, with the sign of a / b |
| Arith.FloorDiv | axiom3/spectral_signature_cache.py:205 | Python's floor division |
| Arith.BitTrickPowerOfTwo | axiom5/failure_analysis.py:91 | for p > 0, p & (p - 1) == 0 exactly for powers of two |
| Arith.PopCountBounded | axiom5/failure_analysis.py:92 | a number has at most as many set bits as its bit length, and at least one if it is positive |

## Left out

- `get_pull`, `find_coordinate_matches` and `suggest_exploration_points` of `axiom1/prime_coordinate_index.py` are not modelled: they rank positions by floating-point weights.
- `fib_wave` and `nearest_fibonacci_index` of `axiom2/fibonacci_core.py` are not modelled: they use the golden ratio in floating point and logarithms.
- `get_vortex_points`, `get_wave_value` and `get_spiral_path` of `axiom2/fibonacci_resonance_map.py`, and everything in `axiom2/fibonacci_vortices.py` except `fibonacci_lattice_points`, are not modelled: they are floating-point geometry.
- The `coherence` and `triple_coherence` formulas of `axiom3/coherence.py`, the spectral vector, the interference analysis and the fold energy formula are parameters. Their floating-point values are opaque payloads.
- `get_sharp_folds` of `axiom3/spectral_signature_cache.py` is not modelled: it is a loop of `get_fold_energy` over x in [2, min(isqrt(n) + 1, 100)), followed by a floating-point sort of the finite energies that keeps the 10 lowest positions.
- `precompute_fibonacci_positions`, `precompute_prime_positions`, `precompute_sqrt_neighborhood`, `precompute_critical_positions`, `batch_observe` and `warm_cache` of `axiom4/observer_cache.py` are not modelled: they are loops of `get_observation` over position lists chosen by other modules.
- The observer's link to the spectral cache in `create_optimized`, and the temporary replacement of `axiom3.coherence.coherence` inside `get_observation`, are not modelled: they patch other modules at run time.
- `_make_scales_key` is not modelled as a sort: the observer supplies its scales key.
- `analyze_failure_patterns`, `detect_spectral_nulls`, `adaptive_strategy`, `inverse_failure_search` and `failure_gradient` of `axiom5/failure_analysis.py` are not modelled: they are floating-point heuristics over the failure memory.
- FailureAnalysis.RecordFailure: trims the history with the corrected KeepLatest of the Findings row, so for memory_size <= 0 it keeps no events. The source's `failure_patterns[-memory_size:]` keeps the whole history at 0 and drops the first -memory_size events for a negative size; TrimHistoryAsWritten states that behaviour. For memory_size >= 1 the two trims agree (TrimAgreesFromOne).
- FibonacciResonanceMap.CreateOptimized: its counters count only the `get_fibonacci` lookups. In `axiom2/fibonacci_resonance_map.py` the `cache_hits` and `cache_misses` that `get_cache_statistics` reports are also moved by the `get_wave_value` calls of `create_optimized`: through `precompute_common_values` (lines 192-205) for n < 10000, and at lines 308-310 for n < 10^6. `get_wave_value` is floating-point and not modelled, so for n < 10^6 the model reports fewer lookups and a different hit rate than the source.
- PrimeCore.IsPrimeExact: the direction "accepted implies prime" takes the published completeness of the seven Miller-Rabin bases below 2^64 as a hypothesis, `WitnessSetComplete`. The other direction, that every prime is accepted, is proved outright.
- When the source raises an exception part-way through an operation, the model returns the failure and drops the partly changed state. Examples are a negative cache size and `delta = 0` in a gradient.
- Floating-point values such as coherences, gradients and hit rates are exact reals. `int(n ** 0.5)` and `math.isqrt` are the exact integer square root. `int(n / x)` is division truncated toward zero; for very large n the float division could round differently.
- Python's `dict.copy()` and `list.copy()` are not modelled: values are immutable here.
- The benchmark scripts, test runners, timing and memory measurement are not modelled.

## Findings

| source | as written | input that shows it | evidently intended | confidence | as-written member | corrected member |
|---|---|---|---|---|---|---|
| axiom4/observer_cache.py:432-446 | `clear` empties every cache and marker set except `precomputed_gradients` | `precompute_gradients(n, o, [3])`, `clear()`, `precompute_gradients(n, o, [3])`: the second call returns at once and the gradient cache stays empty | "Clear all caches": the gradient markers are emptied too, so the pre-computation runs again | medium, not executed | ObserverCache.Clear, ObserverCache.ClearKeepsStaleMarker | ObserverCache.ClearAll, ObserverCache.ClearAllRecomputes |
| axiom5/failure_analysis.py:61-62 | `failure_patterns[-self.memory_size:]` | `memory_size = 0`: `[-0:]` is the whole list, so the history grows without bound | keep the latest memory_size events, none for a size of 0 | high, not executed | FailureAnalysis.TrimHistoryAsWritten, FailureAnalysis.TrimKeepsAllAtZero | FailureAnalysis.KeepLatest, FailureAnalysis.TrimAgreesFromOne, FailureAnalysis.TrimIncrementally |
