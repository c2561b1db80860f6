/** Integer helpers shared by the number-theory modules: divisibility, primality by
    definition, powers, the integer square root (`math.isqrt`) and the bit operations the
    failure analysis uses. */
module Arith {

  /** Primality by definition: at least 2 and no divisor strictly between 1 and n. */
  predicate Prime(n: int) {
    n >= 2 && forall d :: 2 <= d < n ==> n % d != 0
  }

  function Abs(x: int): nat {
    if x < 0 then -x else x
  }

  function Min(a: int, b: int): int {
    if a < b then a else b
  }

  function Max(a: int, b: int): int {
    if a < b then b else a
  }

  function Pow(b: int, e: nat): int {
    if e == 0 then 1 else b * Pow(b, e - 1)
  }

  function Square(r: int): int {
    r * r
  }

  lemma PowAdd(b: int, e1: nat, e2: nat)
    ensures Pow(b, e1 + e2) == Pow(b, e1) * Pow(b, e2)
  {
    if e1 > 0 {
      PowAdd(b, e1 - 1, e2);
      calc {
        Pow(b, e1 + e2);
        b * Pow(b, e1 - 1 + e2);
        b * (Pow(b, e1 - 1) * Pow(b, e2));
        (b * Pow(b, e1 - 1)) * Pow(b, e2);
      }
    }
  }

  lemma PowPositive(b: int, e: nat)
    requires b > 0
    ensures Pow(b, e) > 0
  {
    if e > 0 {
      PowPositive(b, e - 1);
    }
  }

  /** x < y on naturals gives x*x < y*y. */
  lemma SquareStrictlyMonotonic(x: nat, y: nat)
    requires x < y
    ensures x * x < y * y
  {
    calc {
      x * x;
    <= x * y;
    <  y * y;
    }
  }

  /** `math.isqrt`: the largest r with r*r <= n, computed by halving the argument. */
  function Isqrt(n: nat): (r: nat)
    ensures r * r <= n < (r + 1) * (r + 1)
  {
    if n < 4 then
      if n == 0 then 0 else 1
    else
      var s := Isqrt(n / 4);
      IsqrtStep(n, s);
      if (2 * s + 1) * (2 * s + 1) <= n then 2 * s + 1 else 2 * s
  }

  /** From the root s of n / 4, the root of n is 2s or 2s + 1. */
  lemma IsqrtStep(n: nat, s: nat)
    requires s * s <= n / 4 < (s + 1) * (s + 1)
    ensures (2 * s) * (2 * s) <= n < (2 * s + 2) * (2 * s + 2)
  {
    var q := n / 4;
    assert n == 4 * q + n % 4;
    assert (2 * s) * (2 * s) == 4 * (s * s);
    assert (2 * s + 2) * (2 * s + 2) == 4 * ((s + 1) * (s + 1));
    assert q + 1 <= (s + 1) * (s + 1);
  }

  /** Comparing n with a square b*b compares isqrt(n) with b. */
  lemma IsqrtCompare(n: nat, b: nat)
    ensures n < b * b ==> Isqrt(n) < b
    ensures b * b <= n ==> b <= Isqrt(n)
  {
    var r := Isqrt(n);
    if n < b * b && r >= b {
      if r > b {
        SquareStrictlyMonotonic(b, r);
      }
    }
    if b * b <= n && r < b {
      if r + 1 < b {
        SquareStrictlyMonotonic(r + 1, b);
      }
    }
  }

  /** The bracketing r*r <= n < (r+1)^2 fixes r, so it characterises `Isqrt`. */
  lemma IsqrtUnique(n: nat, r: nat)
    requires r * r <= n < (r + 1) * (r + 1)
    ensures Isqrt(n) == r
  {
    var q := Isqrt(n);
    if q < r {
      SquareStrictlyMonotonic(q, r);
      if q + 1 < r {
        SquareStrictlyMonotonic(q + 1, r);
      }
      assert false;
    } else if r < q {
      SquareStrictlyMonotonic(r, q);
      if r + 1 < q {
        SquareStrictlyMonotonic(r + 1, q);
      }
      assert false;
    }
  }

  /** Truncating division, as `int(a / b)` computes it for exact quotients. */
  function TruncDiv(a: int, b: int): (q: int)
    requires b != 0
    ensures Abs(q) * Abs(b) <= Abs(a) < (Abs(q) + 1) * Abs(b)
    ensures q == 0 || (q > 0 <==> (a > 0) == (b > 0))
  {
    var m := Abs(a) / Abs(b);
    if (a >= 0) == (b > 0) then m else -m
  }

  /** Python's floor division `a // b`. */
  function FloorDiv(a: int, b: int): (q: int)
    requires b != 0
    ensures b > 0 ==> q * b <= a < q * b + b
    ensures b < 0 ==> q * b + b < a <= q * b
  {
    if b > 0 then a / b else (-a) / (-b)
  }

  // ---------------------------------------------------------------------------
  // Bits of non-negative integers (Python's `&`, `bin(x).count('1')`, `bit_length`)

  function BitAnd(a: nat, b: nat): nat {
    if a == 0 || b == 0 then 0
    else 2 * BitAnd(a / 2, b / 2) + (a % 2) * (b % 2)
  }

  function PopCount(a: nat): nat {
    if a == 0 then 0 else PopCount(a / 2) + a % 2
  }

  function BitLength(a: nat): nat {
    if a == 0 then 0 else BitLength(a / 2) + 1
  }

  /** Reference definition: some power of two. */
  ghost predicate IsPowerOfTwo(n: int) {
    exists e: nat :: Pow(2, e) == n
  }

  lemma BitAndSelf(a: nat)
    ensures BitAnd(a, a) == a
  {
  }

  lemma PowerOfTwoDouble(q: int)
    requires q >= 1
    ensures IsPowerOfTwo(2 * q) <==> IsPowerOfTwo(q)
  {
    if IsPowerOfTwo(q) {
      var e: nat :| Pow(2, e) == q;
      assert Pow(2, e + 1) == 2 * q;
    }
    if IsPowerOfTwo(2 * q) {
      var e: nat :| Pow(2, e) == 2 * q;
      assert e != 0;
      assert Pow(2, e - 1) == q;
    }
  }

  lemma PowOfTwoParity(e: nat)
    ensures Pow(2, e) % 2 == (if e == 0 then 1 else 0)
  {
    if e > 0 {
      assert Pow(2, e) == 2 * Pow(2, e - 1);
    }
  }

  lemma OddPowerOfTwo(p: int)
    requires p >= 1 && p % 2 == 1
    ensures IsPowerOfTwo(p) <==> p == 1
  {
    assert Pow(2, 0) == 1;
    if IsPowerOfTwo(p) {
      var e: nat :| Pow(2, e) == p;
      PowOfTwoParity(e);
    }
  }

  /** The bit trick `p & (p - 1) == 0` of a positive p recognises exactly the powers of two. */
  lemma {:induction false} BitTrickPowerOfTwo(p: nat)
    requires p > 0
    ensures BitAnd(p, p - 1) == 0 <==> IsPowerOfTwo(p)
    decreases p
  {
    if p % 2 == 1 {
      var q := p / 2;
      BitAndSelf(q);
      assert BitAnd(p, p - 1) == 2 * BitAnd(q, q);
      OddPowerOfTwo(p);
    } else {
      var q := p / 2;
      assert p == 2 * q && q >= 1;
      assert (p - 1) / 2 == q - 1 && (p - 1) % 2 == 1;
      assert BitAnd(p, p - 1) == 2 * BitAnd(q, q - 1);
      if q == 1 {
        assert Pow(2, 1) == 2;
        assert BitAnd(q, q - 1) == 0;
      } else {
        BitTrickPowerOfTwo(q);
      }
      PowerOfTwoDouble(q);
      assert Pow(2, 0) == 1;
    }
  }

  /** A number has at most as many set bits as it has bits. */
  lemma {:induction false} PopCountBounded(a: nat)
    ensures PopCount(a) <= BitLength(a)
    ensures a > 0 ==> PopCount(a) >= 1
  {
    if a > 0 {
      PopCountBounded(a / 2);
    }
  }
}
