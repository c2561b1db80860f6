/** Primality testing and prime generation (`axiom1/prime_core.py`): the small-prime table,
    the deterministic Miller-Rabin test and the sieve of Eratosthenes. */
module PrimeCore {
  import opened Arith
  import opened NumberTheory
  import opened Seqs
  import opened Wrappers

  /** `SMALL_PRIMES`: tried by trial division before Miller-Rabin. */
  const SmallPrimes: seq<int> := [2, 3, 5, 7, 11, 13, 17, 19, 23, 29, 31]

  /** The fixed Miller-Rabin bases. */
  const Witnesses: seq<int> := [2, 325, 9375, 28178, 450775, 9780504, 1795265022]

  /** 2^64: the published completeness of `Witnesses` covers the numbers below it. */
  const TwoTo64: int := 0x1_0000_0000_0000_0000

  // ---------------------------------------------------------------------------
  // The small-prime table

  /** No divisor in [2, k), checked one candidate at a time. */
  predicate NoDivisorBelow(n: int, k: int)
    decreases k
  {
    k <= 2 || (n % (k - 1) != 0 && NoDivisorBelow(n, k - 1))
  }

  lemma {:induction false} NoDivisorBelowMeans(n: int, k: int)
    ensures NoDivisorBelow(n, k) <==> forall d :: 2 <= d < k ==> n % d != 0
    decreases k
  {
    if k > 2 {
      NoDivisorBelowMeans(n, k - 1);
    }
  }

  /** A number with no divisor in [2, p) is prime. */
  lemma PrimeByTrial(p: int)
    requires p >= 2 && NoDivisorBelow(p, p)
    ensures Prime(p)
  {
    NoDivisorBelowMeans(p, p);
  }

  lemma LowTablePrimes()
    ensures Prime(2) && Prime(3) && Prime(5) && Prime(7) && Prime(11) && Prime(13) && Prime(17)
  {
    assert NoDivisorBelow(2, 2) && NoDivisorBelow(3, 3) && NoDivisorBelow(5, 5) && NoDivisorBelow(7, 7);
    PrimeByTrial(2); PrimeByTrial(3); PrimeByTrial(5); PrimeByTrial(7);
    assert NoDivisorBelow(11, 11) && NoDivisorBelow(13, 13) && NoDivisorBelow(17, 17);
    PrimeByTrial(11); PrimeByTrial(13); PrimeByTrial(17);
  }

  lemma HighTablePrimes()
    ensures Prime(19) && Prime(23) && Prime(29) && Prime(31)
  {
    assert NoDivisorBelow(19, 10) && NoDivisorBelow(19, 19);
    PrimeByTrial(19);
    assert NoDivisorBelow(23, 12) && NoDivisorBelow(23, 23);
    PrimeByTrial(23);
    TopTablePrimes();
  }

  lemma TopTablePrimes()
    ensures Prime(29) && Prime(31)
  {
    assert NoDivisorBelow(29, 10) && NoDivisorBelow(29, 20) && NoDivisorBelow(29, 29);
    PrimeByTrial(29);
    assert NoDivisorBelow(31, 10) && NoDivisorBelow(31, 20) && NoDivisorBelow(31, 31);
    PrimeByTrial(31);
  }

  lemma SmallPrimesArePrime()
    ensures forall i :: 0 <= i < |SmallPrimes| ==> Prime(SmallPrimes[i])
  {
    LowTablePrimes();
    HighTablePrimes();
  }

  /** Every x in [2, 31] is in the table or has 2, 3 or 5 as a factor. */
  lemma SmallFactorOrTable(x: int)
    requires 2 <= x <= 31
    ensures x in SmallPrimes || x % 2 == 0 || x % 3 == 0 || x % 5 == 0
  {
    if x % 2 != 0 && x % 3 != 0 && x % 5 != 0 {
      TableEntries();
      if x <= 16 {
        LowFactorOrTable(x);
      } else {
        HighFactorOrTable(x);
      }
    }
  }

  lemma LowFactorOrTable(x: int)
    requires 2 <= x <= 16 && x % 2 != 0 && x % 3 != 0 && x % 5 != 0
    ensures x == 7 || x == 11 || x == 13
  {
  }

  lemma HighFactorOrTable(x: int)
    requires 17 <= x <= 31 && x % 2 != 0 && x % 3 != 0 && x % 5 != 0
    ensures x == 17 || x == 19 || x == 23 || x == 29 || x == 31
  {
  }

  /** The table's entries, one by one. */
  lemma TableEntries()
    ensures 7 in SmallPrimes && 11 in SmallPrimes && 13 in SmallPrimes && 17 in SmallPrimes
    ensures 19 in SmallPrimes && 23 in SmallPrimes && 29 in SmallPrimes && 31 in SmallPrimes
  {
    assert SmallPrimes[3] == 7 && SmallPrimes[4] == 11 && SmallPrimes[5] == 13 && SmallPrimes[6] == 17;
    assert SmallPrimes[7] == 19 && SmallPrimes[8] == 23 && SmallPrimes[9] == 29 && SmallPrimes[10] == 31;
  }


  lemma NotPrimeByDivisor(x: int, d: int)
    requires 2 <= d < x && x % d == 0
    ensures !Prime(x)
  {
  }

  lemma SmallCompositeNotInTable(x: int)
    requires 2 <= x <= 31 && x !in SmallPrimes
    ensures !Prime(x)
  {
    SmallFactorOrTable(x);
    var d := if x % 2 == 0 then 2 else if x % 3 == 0 then 3 else 5;
    assert x != d;
    NotPrimeByDivisor(x, d);
  }

  /** The table is strictly ascending and holds exactly the primes up to 31. */
  lemma SmallPrimesAreThePrimesTo31()
    ensures StrictlyAscending(SmallPrimes)
    ensures forall x :: x in SmallPrimes <==> 2 <= x <= 31 && Prime(x)
  {
    SmallPrimesArePrime();
    forall x | 2 <= x <= 31 && x !in SmallPrimes
      ensures !Prime(x)
    {
      SmallCompositeNotInTable(x);
    }
  }

  // ---------------------------------------------------------------------------
  // Miller-Rabin

  /** The loop `while d & 1 == 0: d //= 2; s += 1`, started from (d, s). */
  function StripTwos(d: nat, s: nat): (nat, nat)
    requires d > 0
    decreases d
  {
    if d % 2 == 1 then (d, s) else StripTwos(d / 2, s + 1)
  }

  /** The loop ends with an odd d' and d * 2^s = d' * 2^s'; an even start adds a factor. */
  lemma {:induction false} StripTwosCorrect(d: nat, s: nat)
    requires d > 0
    ensures var r := StripTwos(d, s);
      r.0 > 0 && r.0 % 2 == 1 && r.1 >= s && d * Pow(2, s) == r.0 * Pow(2, r.1)
      && (d % 2 == 0 ==> r.1 > s)
    decreases d
  {
    if d % 2 == 0 {
      var h := d / 2;
      StripTwosCorrect(h, s + 1);
      assert StripTwos(d, s) == StripTwos(h, s + 1);
      HalveTimesPow(d, h, s, Pow(2, s), Pow(2, s + 1));
    }
  }

  lemma HalveTimesPow(d: int, h: int, s: nat, ps: int, ps1: int)
    requires d == 2 * h && ps == Pow(2, s) && ps1 == Pow(2, s + 1)
    ensures d * ps == h * ps1
  {
    assert ps1 == 2 * ps;
  }

  /** The inner `for _ in range(s - 1)` loop: squares x modulo n at most `rounds` times
      and succeeds as soon as n - 1 appears. */
  predicate SquaringReaches(x: int, rounds: nat, n: int)
    requires n > 0
    decreases rounds
  {
    rounds > 0 && var y := (x * x) % n; (y == n - 1 || SquaringReaches(y, rounds - 1, n))
  }

  /** One base: `pow(a, d, n)` is 1 or n - 1, or squaring reaches n - 1. */
  predicate WitnessPasses(a: int, d: nat, s: nat, n: int)
    requires n > 1
  {
    var x := Pow(a, d) % n;
    x == 1 || x == n - 1 || SquaringReaches(x, if s == 0 then 0 else s - 1, n)
  }

  /** The base loop: a base that reduces to 0 modulo n is skipped. */
  predicate AllWitnessesPass(ws: seq<int>, d: nat, s: nat, n: int)
    requires n > 1
  {
    |ws| == 0 || ((ws[0] % n == 0 || WitnessPasses(ws[0] % n, d, s, n)) && AllWitnessesPass(ws[1..], d, s, n))
  }

  /** The Miller-Rabin half of `is_prime`, reached when no small prime divides n. */
  predicate MillerRabin(n: int)
    requires n >= 2
  {
    var (d, s) := StripTwos(n - 1, 0);
    AllWitnessesPass(Witnesses, d, s, n)
  }

  /** The trial loop over a table: the first entry dividing n decides `n == p`. */
  function SmallPrimeVerdict(n: int, ps: seq<int>): Option<bool>
    requires forall i :: 0 <= i < |ps| ==> ps[i] > 0
  {
    if |ps| == 0 then None
    else if n % ps[0] == 0 then Some(n == ps[0])
    else SmallPrimeVerdict(n, ps[1..])
  }

  /** The loop falls through exactly when no entry divides n, and otherwise answers
      `n == p` for an entry p dividing n. */
  lemma {:induction false} SmallPrimeVerdictMeans(n: int, ps: seq<int>)
    requires forall i :: 0 <= i < |ps| ==> ps[i] > 0
    ensures var r := SmallPrimeVerdict(n, ps);
      (r.None? <==> forall i :: 0 <= i < |ps| ==> n % ps[i] != 0)
      && (r.Some? ==> exists i :: 0 <= i < |ps| && n % ps[i] == 0 && r.value == (n == ps[i]))
  {
    if |ps| > 0 && n % ps[0] != 0 {
      SmallPrimeVerdictMeans(n, ps[1..]);
      assert forall i :: 1 <= i < |ps| ==> ps[i] == ps[1..][i - 1];
      if SmallPrimeVerdict(n, ps).Some? {
        var i :| 0 <= i < |ps[1..]| && n % ps[1..][i] == 0 && SmallPrimeVerdict(n, ps).value == (n == ps[1..][i]);
        assert ps[i + 1] == ps[1..][i];
      }
    }
  }

  /** `is_prime`. */
  function IsPrime(n: int): (r: bool)
    ensures n < 2 ==> !r
  {
    if n < 2 then false
    else match SmallPrimeVerdict(n, SmallPrimes)
      case Some(v) => v
      case None => MillerRabin(n)
  }

  /** A prime that divides a prime is that prime. */
  lemma PrimeDividesPrime(p: int, q: int)
    requires Prime(p) && Prime(q) && q % p == 0
    ensures p == q
  {
  }

  /** When some small prime p divides n, the answer is exactly n == p (whichever table
      entry the loop stops at, since the entries are primes). */
  lemma SmallPrimeDecides(n: int, p: int)
    requires n >= 2 && p in SmallPrimes && n % p == 0
    ensures IsPrime(n) == (n == p)
  {
    SmallPrimesAreThePrimesTo31();
    var v := SmallPrimeVerdict(n, SmallPrimes);
    SmallPrimeVerdictMeans(n, SmallPrimes);
    var i :| 0 <= i < |SmallPrimes| && n % SmallPrimes[i] == 0 && v.value == (n == SmallPrimes[i]);
    var q := SmallPrimes[i];
    if n == q {
      PrimeDividesPrime(p, q);
    } else if n == p {
      PrimeDividesPrime(q, p);
    }
  }

  // ----- soundness: every prime passes -----

  /** y_r = a^(d * 2^r) mod n, the value the test holds after r squarings. */
  function Y(a: int, d: nat, n: int, r: nat): (y: int)
    requires n > 1
    ensures 0 <= y < n
  {
    PowPositive(2, r);
    Pow(a, d * Pow(2, r)) % n
  }

  lemma YSquares(a: int, d: nat, n: int, r: nat)
    requires n > 1
    ensures Y(a, d, n, r + 1) == (Y(a, d, n, r) * Y(a, d, n, r)) % n
  {
    PowPositive(2, r);
    var e := d * Pow(2, r);
    assert d * Pow(2, r + 1) == e + e by {
      assert Pow(2, r + 1) == 2 * Pow(2, r);
    }
    PowAdd(a, e, e);
    SquareMod(n, Pow(a, e));
  }

  /** Going down from y_s = 1: either y_r is 1 or some later y_j (j < s) is n - 1. */
  lemma {:induction false} YDescends(a: int, d: nat, n: int, r: nat, s: nat)
    requires Prime(n) && r <= s && Y(a, d, n, s) == 1
    ensures Y(a, d, n, r) == 1 || exists j :: r <= j < s && Y(a, d, n, j) == n - 1
    decreases s - r
  {
    if r < s {
      YDescends(a, d, n, r + 1, s);
      YSquares(a, d, n, r);
      var y := Y(a, d, n, r);
      if Y(a, d, n, r + 1) == 1 {
        SquareRootsOfOne(n, y);
      }
    }
  }

  lemma {:induction false} ReachFromY(a: int, d: nat, n: int, r: nat, t: nat, j: nat)
    requires n > 1 && r < j <= r + t && Y(a, d, n, j) == n - 1
    ensures SquaringReaches(Y(a, d, n, r), t, n)
    decreases t
  {
    YSquares(a, d, n, r);
    if j > r + 1 {
      ReachFromY(a, d, n, r + 1, t - 1, j);
    }
  }

  /** By Fermat, y_s = a^(n - 1) mod n = 1 for a prime n. */
  lemma YTop(a: int, d: nat, s: nat, n: int)
    requires Prime(n) && 1 <= a < n && d * Pow(2, s) == n - 1
    ensures Y(a, d, n, s) == 1
  {
    Fermat(n, a);
  }

  /** y_0 is pow(a, d, n). */
  lemma YBottom(a: int, d: nat, n: int)
    requires n > 1
    ensures Y(a, d, n, 0) == Pow(a, d) % n
  {
    assert d * Pow(2, 0) == d;
  }

  /** A prime n passes every base a in [1, n). */
  lemma PrimePassesWitness(a: int, d: nat, s: nat, n: int)
    requires Prime(n) && 1 <= a < n && s >= 1 && d * Pow(2, s) == n - 1
    ensures WitnessPasses(a, d, s, n)
  {
    YTop(a, d, s, n);
    YDescends(a, d, n, 0, s);
    YBottom(a, d, n);
    var x := Y(a, d, n, 0);
    if x != 1 {
      var j :| 0 <= j < s && Y(a, d, n, j) == n - 1;
      if j > 0 {
        ReachFromY(a, d, n, 0, s - 1, j);
        assert SquaringReaches(x, s - 1, n);
      }
    }
  }

  lemma {:induction false} PrimePassesAll(ws: seq<int>, d: nat, s: nat, n: int)
    requires Prime(n) && s >= 1 && d * Pow(2, s) == n - 1
    ensures AllWitnessesPass(ws, d, s, n)
  {
    if |ws| > 0 {
      if ws[0] % n != 0 {
        PrimePassesWitness(ws[0] % n, d, s, n);
      }
      PrimePassesAll(ws[1..], d, s, n);
    }
  }

  /** A prime that survives the small-prime loop is odd and has s >= 1. */
  lemma PrimeReachesMillerRabin(n: int)
    requires Prime(n) && SmallPrimeVerdict(n, SmallPrimes).None?
    ensures MillerRabin(n)
  {
    SmallPrimeVerdictMeans(n, SmallPrimes);
    assert SmallPrimes[0] == 2;
    assert n % 2 != 0;
    StripTwosCorrect(n - 1, 0);
    var (d, s) := StripTwos(n - 1, 0);
    assert Pow(2, 0) == 1;
    PrimePassesAll(Witnesses, d, s, n);
  }

  /** Every prime is accepted. */
  lemma PrimeAccepted(n: int)
    requires Prime(n)
    ensures IsPrime(n)
  {
    SmallPrimesAreThePrimesTo31();
    var v := SmallPrimeVerdict(n, SmallPrimes);
    SmallPrimeVerdictMeans(n, SmallPrimes);
    if v.Some? {
      var i :| 0 <= i < |SmallPrimes| && n % SmallPrimes[i] == 0 && v.value == (n == SmallPrimes[i]);
      PrimeDividesPrime(SmallPrimes[i], n);
    } else {
      PrimeReachesMillerRabin(n);
    }
  }

  /** The published result about the seven bases: no composite below 2^64 that survives
      the small-prime loop passes all of them. */
  ghost predicate WitnessSetComplete() {
    forall m :: 2 <= m < TwoTo64 && !Prime(m) && SmallPrimeVerdict(m, SmallPrimes).None?
      ==> !MillerRabin(m)
  }

  /** On 64-bit inputs, and given the completeness of the bases, `is_prime` is primality. */
  lemma IsPrimeExact(n: int)
    requires n < TwoTo64 && WitnessSetComplete()
    ensures IsPrime(n) <==> Prime(n)
  {
    if Prime(n) {
      PrimeAccepted(n);
    } else if n >= 2 {
      SmallPrimesAreThePrimesTo31();
      SmallPrimeVerdictMeans(n, SmallPrimes);
      match SmallPrimeVerdict(n, SmallPrimes)
      case Some(v) =>
        var i :| 0 <= i < |SmallPrimes| && n % SmallPrimes[i] == 0 && v == (n == SmallPrimes[i]);
        assert Prime(SmallPrimes[i]);
      case None =>
    }
  }

  // ---------------------------------------------------------------------------
  // The sieve of Eratosthenes

  /** No q with 2 <= q < p and q*q <= i divides i: what the sieve knows about i after
      crossing out the multiples of every prime below p. */
  predicate NoSmallFactor(i: int, p: int) {
    forall q :: 2 <= q < p && q * q <= i ==> i % q != 0
  }

  predicate SieveInvariant(sieve: seq<bool>, p: int) {
    forall i :: 0 <= i < |sieve| ==> (sieve[i] <==> i >= 2 && NoSmallFactor(i, p))
  }

  /** `sieve[p*p : limit+1 : p] = zeros`. */
  function CrossOut(sieve: seq<bool>, p: nat): (r: seq<bool>)
    ensures |r| == |sieve|
    ensures forall i :: 0 <= i < |r| ==> (r[i] <==> sieve[i] && !(i >= p * p && p > 0 && i % p == 0))
  {
    seq(|sieve|, i requires 0 <= i < |sieve| => if i >= p * p && p > 0 && i % p == 0 then false else sieve[i])
  }

  /** The loop `for p in range(p, top + 1): if sieve[p]: ...`. */
  function SieveFrom(sieve: seq<bool>, p: nat, top: nat): (r: seq<bool>)
    requires top < |sieve| && p >= 2 && SieveInvariant(sieve, p)
    ensures |r| == |sieve|
    ensures SieveInvariant(r, if p > top then p else top + 1)
    decreases top + 1 - p
  {
    if p > top then sieve
    else
      var next := if sieve[p] then CrossOut(sieve, p) else sieve;
      SieveStep(sieve, p);
      SieveFrom(next, p + 1, top)
  }

  /** i % p == 0 and p % q == 0 give i % q == 0. */
  lemma DividesTransitive(i: int, p: int, q: int)
    requires p > 0 && q > 0 && i % p == 0 && p % q == 0
    ensures i % q == 0
  {
    MultipleMod(q, p / q * (i / p));
    assert i == q * (p / q * (i / p));
  }

  /** Crossing out the multiples of p from p*p on adds p to the excluded factors. */
  lemma NoSmallFactorNext(i: int, p: int)
    ensures NoSmallFactor(i, p + 1) <==> NoSmallFactor(i, p) && !(p >= 2 && p * p <= i && i % p == 0)
  {
  }

  /** A composite p adds nothing: its multiples from p*p on already have a smaller factor. */
  lemma CompositeAddsNothing(i: int, p: int, q: int)
    requires 2 <= q < p && q * q <= p && p % q == 0 && NoSmallFactor(i, p)
    ensures NoSmallFactor(i, p + 1)
  {
    NoSmallFactorNext(i, p);
    if p * p <= i && i % p == 0 {
      DividesTransitive(i, p, q);
    }
  }

  lemma SieveStep(sieve: seq<bool>, p: nat)
    requires 2 <= p < |sieve| && SieveInvariant(sieve, p)
    ensures SieveInvariant(if sieve[p] then CrossOut(sieve, p) else sieve, p + 1)
  {
    if sieve[p] {
      var next := CrossOut(sieve, p);
      forall i | 0 <= i < |sieve|
        ensures next[i] <==> i >= 2 && NoSmallFactor(i, p + 1)
      {
        NoSmallFactorNext(i, p);
      }
    } else {
      assert !NoSmallFactor(p, p);
      var q :| 2 <= q < p && q * q <= p && p % q == 0;
      forall i | 0 <= i < |sieve|
        ensures sieve[i] <==> i >= 2 && NoSmallFactor(i, p + 1)
      {
        NoSmallFactorNext(i, p);
        if i >= 2 && NoSmallFactor(i, p) {
          CompositeAddsNothing(i, p, q);
        }
      }
    }
  }

  lemma MulMonotonic(a: int, b: int, c: int)
    requires a >= 0 && b <= c
    ensures a * b <= a * c
  {
  }

  /** Every composite i has a factor q >= 2 with q*q <= i. */
  lemma CompositeHasSmallFactor(i: int) returns (q: int)
    requires i >= 2 && !Prime(i)
    ensures 2 <= q && q * q <= i && i % q == 0
  {
    var d :| 2 <= d < i && i % d == 0;
    var e := FactorPair(i, d);
    if d <= e {
      q := d;
      MulMonotonic(d, d, e);
    } else {
      q := e;
      MulMonotonic(e, e, d);
    }
  }

  /** A proper divisor d of i pairs with the cofactor e = i / d >= 2, and e * d = i. */
  lemma FactorPair(i: int, d: int) returns (e: int)
    requires 2 <= d < i && i % d == 0
    ensures e >= 2 && i == d * e && i == e * d && i % e == 0
  {
    e := i / d;
    assert i == d * e;
    if e <= 1 {
      MulMonotonic(d, e, 1);
      assert false;
    }
    MultipleMod(e, d);
  }

  /** Below (top + 1)^2, having no factor q with q*q <= i among 2..top is primality. */
  lemma NoSmallFactorMeansPrime(i: int, top: nat)
    requires 2 <= i < (top + 1) * (top + 1)
    ensures NoSmallFactor(i, top + 1) <==> Prime(i)
  {
    if Prime(i) {
      forall q | 2 <= q < top + 1 && q * q <= i
        ensures i % q != 0
      {
        MulMonotonic(q, 2, q);
      }
    } else {
      var q := CompositeHasSmallFactor(i);
      if q > top {
        MulMonotonic(q, top + 1, q);
        MulMonotonic(top + 1, top + 1, q);
      }
    }
  }

  /** After the last round, the sieve flags exactly the primes. */
  lemma SieveComplete(sieve: seq<bool>, limit: nat)
    requires |sieve| == limit + 1 && SieveInvariant(sieve, Isqrt(limit) + 1)
    ensures forall i :: 0 <= i <= limit ==> (sieve[i] <==> Prime(i))
  {
    forall i | 2 <= i <= limit
      ensures sieve[i] <==> Prime(i)
    {
      NoSmallFactorMeansPrime(i, Isqrt(limit));
    }
  }

  /** The flagged indices from `from` onwards, in order: the final list comprehension. */
  function TrueIndices(sieve: seq<bool>, from: nat): (r: seq<int>)
    requires from <= |sieve|
    ensures StrictlyAscending(r)
    ensures forall x :: x in r <==> from <= x < |sieve| && sieve[x]
    decreases |sieve| - from
  {
    if from == |sieve| then []
    else
      var rest := TrueIndices(sieve, from + 1);
      assert forall j :: 0 <= j < |rest| ==> rest[j] in rest;
      if sieve[from] then [from] + rest else rest
  }

  /** `bytearray(b"\x01") * (limit + 1)` with entries 0 and 1 cleared. */
  function InitialSieve(limit: nat): (r: seq<bool>)
    ensures |r| == limit + 1 && SieveInvariant(r, 2)
  {
    seq(limit + 1, i => i >= 2)
  }

  lemma IsqrtBelow(n: nat)
    ensures Isqrt(n) <= n
  {
  }

  /** `primes_up_to`: the primes up to `limit`, ascending. */
  function PrimesUpTo(limit: int): (r: seq<int>)
    ensures limit < 2 ==> r == []
    ensures StrictlyAscending(r)
    ensures forall x :: x in r <==> 2 <= x <= limit && Prime(x)
  {
    if limit < 2 then []
    else
      IsqrtBelow(limit);
      var sieve := SieveFrom(InitialSieve(limit), 2, Isqrt(limit));
      SieveComplete(sieve, limit);
      TrueIndices(sieve, 0)
  }
}
