/** The factoring command line (`factorizer/cli.py`): trial division by the sieved primes up
    to the square root, and the rendering of the factor list as the printed line. */
module Factorizer {
  import opened Arith
  import opened NumberTheory
  import opened Seqs
  import opened Wrappers
  import PrimeCore

  // ---------------------------------------------------------------------------
  // Trial division

  /** `while remaining % p == 0: factors.append(p); remaining //= p`:
      how many times p divides `rem`, and what is left. */
  function StripFactor(rem: int, p: int): (r: (nat, int))
    requires rem > 0 && p >= 2
    ensures r.1 > 0 && r.1 % p != 0
    ensures Product(Repeat(p, r.0)) * r.1 == rem
    decreases rem
  {
    if rem % p == 0 then
      var q := rem / p;
      DivideExactly(rem, p, q);
      var sub := StripFactor(q, p);
      ProductRepeat(p, sub.0);
      StripRing(Product(Repeat(p, sub.0)), p, sub.1, q, rem, Product(Repeat(p, sub.0 + 1)));
      (sub.0 + 1, sub.1)
    else
      assert Repeat(p, 0) == [];
      (0, rem)
  }

  /** An exact quotient of a positive number by p >= 2 is positive and smaller. */
  lemma DivideExactly(rem: int, p: int, q: int)
    requires rem > 0 && p >= 2 && rem % p == 0 && q == rem / p
    ensures rem == p * q && 0 < q < rem
  {
  }

  lemma StripRing(pr: int, p: int, s: int, q: int, rem: int, pr1: int)
    requires pr * s == q && rem == p * q && pr1 == pr * p
    ensures pr1 * s == rem
  {
  }

  /** One round of the `for p in primes` loop: what the later rounds keep of the product
      and of the residue stays true after prefixing this round's factors. */
  lemma TrialStep(p: int, count: nat, rest: int, fs: seq<int>, last: int, rem: int)
    requires p >= 2 && last > 0
    requires Product(Repeat(p, count)) * rest == rem && rest % p != 0
    requires Product(fs) * last == rest
    ensures Product(Repeat(p, count) + fs) * last == rem
    ensures last % p != 0
  {
    ProductAppend(Repeat(p, count), fs);
    if last % p == 0 {
      ProductMod(p, last, Product(fs));
    }
  }

  /** The `for p in primes` loop: the factors found, in order, and the residue. */
  function TrialDivide(primes: seq<int>, rem: int): (r: (seq<int>, int))
    requires rem > 0 && forall i :: 0 <= i < |primes| ==> primes[i] >= 2
    ensures r.1 > 0 && Product(r.0) * r.1 == rem
    ensures forall i :: 0 <= i < |primes| ==> r.1 % primes[i] != 0
    ensures forall x :: x in r.0 ==> x in primes
    decreases |primes|
  {
    if |primes| == 0 then ([], rem)
    else
      var p := primes[0];
      var (count, rest) := StripFactor(rem, p);
      var (fs, last) := TrialDivide(primes[1..], rest);
      TrialStep(p, count, rest, fs, last, rem);
      assert forall i :: 1 <= i < |primes| ==> primes[i] == primes[1..][i - 1];
      (Repeat(p, count) + fs, last)
  }

  /** The factors `TrialDivide` finds come in the order of the table. */
  lemma {:induction false} TrialDivideOrdered(primes: seq<int>, rem: int)
    requires rem > 0 && forall i :: 0 <= i < |primes| ==> primes[i] >= 2
    requires StrictlyAscending(primes)
    ensures NonDecreasing(TrialDivide(primes, rem).0)
    decreases |primes|
  {
    if |primes| > 0 {
      var p := primes[0];
      var (count, rest) := StripFactor(rem, p);
      TrialDivideOrdered(primes[1..], rest);
      var fs := TrialDivide(primes[1..], rest).0;
      assert forall x :: x in fs ==> x in primes[1..];
      assert forall x :: x in primes[1..] ==> x > p;
      var all := Repeat(p, count) + fs;
      forall i, j | 0 <= i < j < |all|
        ensures all[i] <= all[j]
      {
        if j >= count && i >= count {
          assert all[i] == fs[i - count] && all[j] == fs[j - count];
        } else if j >= count {
          assert all[j] == fs[j - count] && fs[j - count] in fs;
        }
      }
    }
  }

  /** The least factor >= 2 of m is a prime dividing m. */
  lemma {:induction false} LeastFactorFrom(m: int, k: int) returns (p: int)
    requires m >= 2 && 2 <= k <= m && forall d :: 2 <= d < k ==> m % d != 0
    ensures 2 <= p <= m && m % p == 0 && Prime(p)
    ensures forall d :: 2 <= d < p ==> m % d != 0
    decreases m - k
  {
    if m % k == 0 {
      p := k;
      forall d | 2 <= d < p
        ensures p % d != 0
      {
        if p % d == 0 {
          DividesTransitive(m, p, d);
        }
      }
    } else {
      p := LeastFactorFrom(m, k + 1);
    }
  }

  lemma DividesTransitive(i: int, p: int, q: int)
    requires p > 0 && q > 0 && i % p == 0 && p % q == 0
    ensures i % q == 0
  {
    PrimeCore.DividesTransitive(i, p, q);
  }

  lemma SquareMonotonic(p: int, q: int)
    requires 0 <= p <= q
    ensures p * p <= q * q
  {
    PrimeCore.MulMonotonic(p, p, q);
    PrimeCore.MulMonotonic(q, p, q);
  }

  /** A residue with no prime factor up to `bound`, and below (bound + 1)^2, is prime. */
  lemma ResidueIsPrime(rest: int, bound: int, primes: seq<int>)
    requires rest >= 2 && bound >= 1 && rest < (bound + 1) * (bound + 1)
    requires forall x :: x in primes <==> 2 <= x <= bound && Prime(x)
    requires forall i :: 0 <= i < |primes| ==> primes[i] >= 2 && rest % primes[i] != 0
    ensures Prime(rest)
  {
    if !Prime(rest) {
      var q := PrimeCore.CompositeHasSmallFactor(rest);
      var p := LeastFactorFrom(rest, 2);
      assert p <= q;
      SquareMonotonic(p, q);
      if p > bound {
        SquareMonotonic(bound + 1, p);
      }
    }
  }

  /** `factorize_number`. */
  function Factorize(n: int): (fs: seq<nat>)
  {
    if n < 2 then []
    else
      var (found, rest) := TrialDivide(Sieved(n), n);
      assert forall i :: 0 <= i < |found| ==> found[i] in found;
      if rest > 1 then found + [rest] else found
  }

  /** The residue left by the trial loop, when above 1, is a prime larger than every
      sieved prime. */
  lemma ResidueFacts(n: int, primes: seq<int>, found: seq<int>, rest: int)
    requires n >= 2 && primes == PrimeCore.PrimesUpTo(Isqrt(n) + 1)
    requires (found, rest) == TrialDivide(primes, n) && rest > 1
    ensures Prime(rest) && forall x :: x in primes ==> x < rest
  {
    var bound := Isqrt(n) + 1;
    assert forall i :: 0 <= i < |primes| ==> primes[i] in primes;
    assert forall i :: 0 <= i < |found| ==> found[i] in found;
    ProductPositive(found);
    ResidueBelowSquare(n, Product(found), rest, Isqrt(n));
    ResidueIsPrime(rest, bound, primes);
  }

  /** A cofactor of n is at most n, so below (isqrt(n) + 2)^2. */
  lemma ResidueBelowSquare(n: int, pf: int, rest: int, root: nat)
    requires pf >= 1 && rest >= 1 && pf * rest == n && root == Isqrt(n)
    ensures rest < (root + 2) * (root + 2)
  {
    PrimeCore.MulMonotonic(rest, 1, pf);
    SquareMonotonic(root + 1, root + 2);
  }

  /** Appending a value above every earlier element keeps the order. */
  lemma AppendLarger(found: seq<int>, x: int)
    requires NonDecreasing(found) && forall i :: 0 <= i < |found| ==> found[i] < x
    ensures NonDecreasing(found + [x])
  {
  }

  /** The primes `factorize_number` divides by: those up to isqrt(n) + 1. */
  function Sieved(n: int): (primes: seq<int>)
    requires n >= 2
    ensures forall i :: 0 <= i < |primes| ==> primes[i] >= 2
  {
    var primes := PrimeCore.PrimesUpTo(Isqrt(n) + 1);
    assert forall i :: 0 <= i < |primes| ==> primes[i] in primes;
    primes
  }

  lemma FactorizeShape(n: int)
    requires n >= 2
    ensures var r := TrialDivide(Sieved(n), n);
      Factorize(n) == if r.1 > 1 then r.0 + [r.1] else r.0
  {
  }

  lemma FactorizeProduct(n: int)
    requires n >= 2
    ensures Product(Factorize(n)) == n
  {
    var r := TrialDivide(Sieved(n), n);
    FactorizeShape(n);
    if r.1 > 1 {
      ProductAppend(r.0, [r.1]);
      assert Product([r.1]) == r.1 * Product([]);
    }
  }

  lemma FactorizePrimes(n: int)
    requires n >= 2
    ensures forall i :: 0 <= i < |Factorize(n)| ==> Prime(Factorize(n)[i])
  {
    var primes := Sieved(n);
    var r := TrialDivide(primes, n);
    FactorizeShape(n);
    assert forall i :: 0 <= i < |r.0| ==> r.0[i] in r.0;
    if r.1 > 1 {
      ResidueFacts(n, primes, r.0, r.1);
    }
  }

  lemma FactorizeOrdered(n: int)
    requires n >= 2
    ensures NonDecreasing(Factorize(n))
  {
    var primes := Sieved(n);
    var r := TrialDivide(primes, n);
    FactorizeShape(n);
    TrialDivideOrdered(primes, n);
    if r.1 > 1 {
      ResidueFacts(n, primes, r.0, r.1);
      assert forall i :: 0 <= i < |r.0| ==> r.0[i] in r.0;
      AppendLarger(r.0, r.1);
    }
  }

  /** `factorize_number(n)` is empty for n < 2; for n >= 2 the factors are primes in
      ascending order whose product is n. */
  lemma FactorizeCorrect(n: int)
    ensures n < 2 ==> Factorize(n) == []
    ensures n >= 2 ==> Product(Factorize(n)) == n
    ensures forall i :: 0 <= i < |Factorize(n)| ==> Prime(Factorize(n)[i])
    ensures NonDecreasing(Factorize(n))
  {
    if n >= 2 {
      FactorizeProduct(n);
      FactorizePrimes(n);
      FactorizeOrdered(n);
    }
  }

  /** A residue above 1 after the trial loop is appended last; it is prime and exceeds
      every factor found by trial division. */
  lemma ResidueLast(n: int)
    requires n >= 2
    ensures var r := TrialDivide(Sieved(n), n);
      r.1 > 1 ==> (Factorize(n) == r.0 + [r.1] && Prime(r.1)
        && forall i :: 0 <= i < |r.0| ==> r.0[i] < r.1)
  {
    var primes := Sieved(n);
    var r := TrialDivide(primes, n);
    FactorizeShape(n);
    if r.1 > 1 {
      ResidueFacts(n, primes, r.0, r.1);
      assert forall i :: 0 <= i < |r.0| ==> r.0[i] in r.0;
    }
  }

  // ---------------------------------------------------------------------------
  // The printed line

  function DigitChar(d: int): char
    requires 0 <= d < 10
  {
    "0123456789"[d]
  }

  predicate IsDigit(c: char) {
    '0' <= c <= '9'
  }

  function DigitValue(c: char): int
    requires IsDigit(c)
  {
    c as int - '0' as int
  }

  /** `str(n)` for n >= 0: decimal digits, no leading zero. */
  function Show(n: nat): (s: string)
    ensures |s| >= 1 && forall i :: 0 <= i < |s| ==> IsDigit(s[i])
    ensures s[0] == '0' ==> n == 0
    decreases n
  {
    if n < 10 then [DigitChar(n)] else Show(n / 10) + [DigitChar(n % 10)]
  }

  /** The value of a string of decimal digits. */
  function ReadDigits(s: string): nat
    requires forall i :: 0 <= i < |s| ==> IsDigit(s[i])
  {
    if |s| == 0 then 0 else 10 * ReadDigits(s[..|s| - 1]) + DigitValue(s[|s| - 1])
  }

  lemma {:induction false} ReadShow(n: nat)
    ensures ReadDigits(Show(n)) == n
    decreases n
  {
    var s := Show(n);
    if n >= 10 {
      ReadShow(n / 10);
      assert s[..|s| - 1] == Show(n / 10);
    }
  }

  /** `" * ".join(str(f) for f in factors)`, or "1" for no factors. */
  function Render(fs: seq<nat>): string {
    if |fs| == 0 then "1" else Join(fs)
  }

  function Join(fs: seq<nat>): string
    requires |fs| >= 1
  {
    if |fs| == 1 then Show(fs[0]) else Show(fs[0]) + " * " + Join(fs[1..])
  }

  /** The length of the leading run of digits. */
  function DigitRun(s: string): (k: nat)
    ensures k <= |s| && forall i :: 0 <= i < k ==> IsDigit(s[i])
    ensures k < |s| ==> !IsDigit(s[k])
  {
    if |s| == 0 || !IsDigit(s[0]) then 0 else 1 + DigitRun(s[1..])
  }

  /** Reads a rendered product back: numbers separated by " * ". */
  function ParseProduct(s: string): Option<seq<nat>>
    decreases |s|
  {
    var k := DigitRun(s);
    if k == 0 then None
    else if k == |s| then Some([ReadDigits(s)])
    else if k + 3 <= |s| && s[k..k + 3] == " * " then
      match ParseProduct(s[k + 3..])
      case Some(rest) => Some([ReadDigits(s[..k])] + rest)
      case None => None
    else None
  }

  lemma DigitRunOfShow(n: nat, tail: string)
    requires |tail| == 0 || !IsDigit(tail[0])
    ensures DigitRun(Show(n) + tail) == |Show(n)|
  {
    var s := Show(n);
    DigitRunPrefix(s, tail);
  }

  lemma {:induction false} DigitRunPrefix(s: string, tail: string)
    requires forall i :: 0 <= i < |s| ==> IsDigit(s[i])
    requires |tail| == 0 || !IsDigit(tail[0])
    ensures DigitRun(s + tail) == |s|
    decreases |s|
  {
    if |s| > 0 {
      assert (s + tail)[1..] == s[1..] + tail;
      DigitRunPrefix(s[1..], tail);
    } else {
      assert s + tail == tail;
    }
  }

  /** Reading the joined line gives the factor list back. */
  lemma {:induction false} ParseJoin(fs: seq<nat>)
    requires |fs| >= 1
    ensures ParseProduct(Join(fs)) == Some(fs)
    decreases |fs|
  {
    var s := Show(fs[0]);
    ReadShow(fs[0]);
    if |fs| == 1 {
      assert s + "" == s;
      DigitRunPrefix(s, "");
      assert [fs[0]] == fs;
    } else {
      var line := s + " * " + Join(fs[1..]);
      assert line == s + (" * " + Join(fs[1..]));
      DigitRunOfShow(fs[0], " * " + Join(fs[1..]));
      assert line[..|s|] == s;
      assert line[|s|..|s| + 3] == " * ";
      assert line[|s| + 3..] == Join(fs[1..]);
      ParseJoin(fs[1..]);
      assert [fs[0]] + fs[1..] == fs;
    }
  }

  /** What `main` prints for n. */
  function Output(n: int): string {
    Render(Factorize(n))
  }

  /** The printed line is "1" below 2 and otherwise reads back as the factor list. */
  lemma OutputReadsBack(n: int)
    ensures n < 2 ==> Output(n) == "1"
    ensures n >= 2 ==> ParseProduct(Output(n)) == Some(Factorize(n))
  {
    FactorizeCorrect(n);
    if n >= 2 {
      var fs := Factorize(n);
      assert |fs| >= 1;
      ParseJoin(fs);
    }
  }
}
