/** Elementary number theory needed to show that the Miller-Rabin test never rejects a
    prime: division with remainder, Bezout's identity, Euclid's lemma, binomial
    coefficients and Fermat's little theorem. */
module NumberTheory {
  import opened Arith

  // ---------------------------------------------------------------------------
  // Division with remainder

  /** Euclidean division is unique: a = g*m + r with 0 <= r < g fixes m and r. */
  lemma DivModUnique(a: int, g: int, m: int, r: int)
    requires g > 0 && a == g * m + r && 0 <= r < g
    ensures a / g == m && a % g == r
  {
    var q := a / g;
    assert a == g * q + a % g;
    MultipleInsideUnit(g, m - q, a % g - r);
  }

  /** The only multiple of g strictly between -g and g is 0. */
  lemma MultipleInsideUnit(g: int, t: int, v: int)
    requires g > 0 && g * t == v && -g < v < g
    ensures t == 0 && v == 0
  {
  }

  lemma MultipleMod(g: int, m: int)
    requires g > 0
    ensures (g * m) % g == 0
  {
    DivModUnique(g * m, g, m, 0);
  }

  /** Any integer combination of multiples of g is a multiple of g. */
  lemma CombinationMod(g: int, x: int, y: int, u: int, v: int)
    requires g > 0 && x % g == 0 && y % g == 0
    ensures (u * x + v * y) % g == 0
  {
    var mx, my := x / g, y / g;
    assert x == g * mx;
    assert y == g * my;
    assert u * x + v * y == g * (u * mx + v * my);
    MultipleMod(g, u * mx + v * my);
  }

  lemma ProductMod(g: int, x: int, u: int)
    requires g > 0 && x % g == 0
    ensures (u * x) % g == 0
  {
    CombinationMod(g, x, 0, u, 0);
  }

  /** Reducing a factor modulo g does not change a product modulo g. */
  lemma MulModLeft(g: int, x: int, y: int)
    requires g > 0
    ensures (x * y) % g == ((x % g) * y) % g
  {
    var q := x / g;
    assert x == g * q + x % g;
    assert x * y == g * (q * y) + (x % g) * y;
    var r := ((x % g) * y) % g;
    var t := ((x % g) * y) / g;
    assert (x % g) * y == g * t + r;
    assert x * y == g * (q * y + t) + r;
    DivModUnique(x * y, g, q * y + t, r);
  }

  lemma SquareMod(g: int, x: int)
    requires g > 0
    ensures (x * x) % g == ((x % g) * (x % g)) % g
  {
    var r := x % g;
    MulModLeft(g, x, x);
    MulModLeft(g, x, r);
    assert r * x == x * r;
  }

  // ---------------------------------------------------------------------------
  // Greatest common divisor, Bezout and Euclid

  function Gcd(a: nat, b: nat): nat
    decreases b
  {
    if b == 0 then a else Gcd(b, a % b)
  }

  lemma {:induction false} GcdDivides(a: nat, b: nat)
    requires a > 0 || b > 0
    ensures Gcd(a, b) > 0 && a % Gcd(a, b) == 0 && b % Gcd(a, b) == 0
    decreases b
  {
    if b == 0 {
      MultipleMod(a, 1);
    } else {
      var g := Gcd(b, a % b);
      GcdDivides(b, a % b);
      assert a == b * (a / b) + a % b;
      CombinationMod(g, b, a % b, a / b, 1);
    }
  }

  /** Extended Euclid: the gcd is an integer combination of the arguments. */
  lemma {:induction false} Bezout(a: nat, b: nat) returns (x: int, y: int)
    ensures a * x + b * y == Gcd(a, b)
    decreases b
  {
    if b == 0 {
      x, y := 1, 0;
    } else {
      var x', y' := Bezout(b, a % b);
      var q := a / b;
      BezoutStep(a, b, q, a % b, x', y', Gcd(a, b));
      x, y := y', x' - q * y';
    }
  }

  /** The ring identity behind one step of `Bezout`. */
  lemma BezoutStep(a: int, b: int, q: int, r: int, x: int, y: int, g: int)
    requires a == b * q + r && b * x + r * y == g
    ensures a * y + b * (x - q * y) == g
  {
  }

  /** A positive divisor of a prime is 1 or the prime itself. */
  lemma PrimeDivisors(p: nat, d: nat)
    requires Prime(p) && d > 0 && p % d == 0
    ensures d == 1 || d == p
  {
    if d > p {
      DivModUnique(p, d, 0, p);
    }
  }

  /** Euclid's lemma: a prime dividing a product divides one of the factors. */
  lemma EuclidLemma(p: nat, a: int, b: int)
    requires Prime(p) && (a * b) % p == 0
    ensures a % p == 0 || b % p == 0
  {
    if a % p != 0 {
      var r := a % p;
      GcdDivides(r, p);
      var g := Gcd(r, p);
      PrimeDivisors(p, g);
      if g == p {
        DivModUnique(r, p, 0, r);
        assert false;
      }
      var x, y := Bezout(r, p);
      var q := a / p;
      EuclidRing(a, b, p, q, r, x, y);
      MultipleMod(p, q * b);
      CombinationMod(p, a * b, p * (q * b), 1, -1);
      MultipleMod(p, b * y);
      CombinationMod(p, r * b, p * (b * y), x, 1);
    }
  }

  /** The ring identities behind `EuclidLemma`. */
  lemma EuclidRing(a: int, b: int, p: int, q: int, r: int, x: int, y: int)
    requires a == p * q + r && r * x + p * y == 1
    ensures r * b == 1 * (a * b) + -1 * (p * (q * b))
    ensures b == x * (r * b) + 1 * (p * (b * y))
  {
  }

  // ---------------------------------------------------------------------------
  // Binomial coefficients and the binomial theorem

  function Binom(n: nat, k: nat): nat {
    if k == 0 then 1
    else if n == 0 then 0
    else Binom(n - 1, k - 1) + Binom(n - 1, k)
  }

  lemma {:induction false} BinomBeyond(n: nat, k: nat)
    requires k > n
    ensures Binom(n, k) == 0
  {
    if n > 0 {
      BinomBeyond(n - 1, k - 1);
      BinomBeyond(n - 1, k);
    }
  }

  lemma {:induction false} BinomDiagonal(n: nat)
    ensures Binom(n, n) == 1
  {
    if n > 0 {
      BinomDiagonal(n - 1);
      BinomBeyond(n - 1, n);
    }
  }

  /** The absorption identity k * C(n, k) = n * C(n - 1, k - 1). */
  lemma {:induction false} BinomAbsorption(n: nat, k: nat)
    requires n >= 1 && k >= 1
    ensures k * Binom(n, k) == n * Binom(n - 1, k - 1)
  {
    if n == 1 {
      if k >= 2 {
        BinomBeyond(1, k);
        BinomBeyond(0, k - 1);
      }
    } else {
      BinomAbsorption(n - 1, k);
      assert k * Binom(n - 1, k) == (n - 1) * Binom(n - 2, k - 1);
      if k == 1 {
        assert k * Binom(n, k) == Binom(n - 1, 0) + Binom(n - 1, 1);
      } else {
        BinomAbsorption(n - 1, k - 1);
        AbsorptionStep(n, k, Binom(n - 1, k - 1), Binom(n - 1, k), Binom(n - 2, k - 2), Binom(n - 2, k - 1));
      }
    }
  }

  /** The ring identity behind one induction step of `BinomAbsorption`. */
  lemma AbsorptionStep(n: int, k: int, a: int, b: int, c: int, d: int)
    requires k * b == (n - 1) * d && (k - 1) * a == (n - 1) * c && a == c + d
    ensures k * (a + b) == n * a
  {
    calc {
      k * (a + b);
      (k - 1) * a + a + k * b;
      (n - 1) * c + a + (n - 1) * d;
      (n - 1) * (c + d) + a;
      n * a;
    }
  }

  /** A prime p divides C(p, k) for 0 < k < p. */
  lemma PrimeDividesBinom(p: nat, k: nat)
    requires Prime(p) && 0 < k < p
    ensures Binom(p, k) % p == 0
  {
    BinomAbsorption(p, k);
    MultipleMod(p, Binom(p - 1, k - 1));
    EuclidLemma(p, k, Binom(p, k));
    DivModUnique(k, p, 0, k);
  }

  /** Partial binomial sum: sum of C(n, k) * x^k for k = 0 .. m. */
  function BinomSum(n: nat, x: int, m: nat): int {
    Binom(n, m) * Pow(x, m) + (if m == 0 then 0 else BinomSum(n, x, m - 1))
  }

  /** Pascal's rule summed term by term. */
  lemma {:induction false} BinomSumPascal(n: nat, x: int, m: nat)
    requires m >= 1
    ensures BinomSum(n + 1, x, m) == BinomSum(n, x, m) + x * BinomSum(n, x, m - 1)
  {
    if m == 1 {
      assert Binom(n + 1, 1) == Binom(n, 0) + Binom(n, 1);
      assert Pow(x, 1) == x;
    } else {
      BinomSumPascal(n, x, m - 1);
      var pw := Pow(x, m - 1);
      assert Pow(x, m) == x * pw;
      PascalStep(x, pw, Binom(n + 1, m), Binom(n, m - 1), Binom(n, m),
        BinomSum(n + 1, x, m - 1), BinomSum(n, x, m - 1), BinomSum(n, x, m - 2));
    }
  }

  /** The ring identity behind one induction step of `BinomSumPascal`. */
  lemma PascalStep(x: int, pw: int, c1: int, c0: int, c: int, t1: int, s1: int, s2: int)
    requires c1 == c0 + c && t1 == s1 + x * s2 && s1 == c0 * pw + s2
    ensures c1 * (x * pw) + t1 == (c * (x * pw) + s1) + x * s1
  {
  }

  /** The binomial theorem for (x + 1)^n. */
  lemma {:induction false} BinomialTheorem(n: nat, x: int)
    ensures Pow(x + 1, n) == BinomSum(n, x, n)
  {
    if n > 0 {
      var m: nat := n - 1;
      BinomialTheorem(m, x);
      BinomSumPascal(m, x, n);
      BinomBeyond(m, n);
      var s := BinomSum(m, x, m);
      assert BinomSum(m, x, n) == s;
      assert Pow(x + 1, n) == (x + 1) * Pow(x + 1, m);
      DistributeOne(x, s);
    }
  }

  lemma DistributeOne(x: int, s: int)
    ensures (x + 1) * s == s + x * s
  {
  }

  /** Below the top term, a prime row of the binomial sum is 1 modulo p. */
  lemma {:induction false} PrimeRowSum(p: nat, x: int, m: nat)
    requires Prime(p) && m < p
    ensures (BinomSum(p, x, m) - 1) % p == 0
  {
    if m == 0 {
      MultipleMod(p, 0);
    } else {
      PrimeRowSum(p, x, m - 1);
      PrimeDividesBinom(p, m);
      CombinationMod(p, Binom(p, m), BinomSum(p, x, m - 1) - 1, Pow(x, m), 1);
    }
  }

  /** (x + 1)^p = x^p + 1 modulo a prime p. */
  lemma FreshmansDream(p: nat, x: int)
    requires Prime(p)
    ensures (Pow(x + 1, p) - Pow(x, p) - 1) % p == 0
  {
    BinomialTheorem(p, x);
    BinomSumTop(p, x);
    PrimeRowSum(p, x, p - 1);
    DreamAlgebra(p, Pow(x + 1, p), Pow(x, p), BinomSum(p, x, p - 1));
  }

  /** The top term of a full row is x^n. */
  lemma BinomSumTop(n: nat, x: int)
    requires n >= 1
    ensures BinomSum(n, x, n) == Pow(x, n) + BinomSum(n, x, n - 1)
  {
    BinomDiagonal(n);
  }

  lemma DreamAlgebra(p: int, whole: int, top: int, rest: int)
    requires p > 0 && whole == top + rest && (rest - 1) % p == 0
    ensures (whole - top - 1) % p == 0
  {
    assert whole - top - 1 == rest - 1;
  }

  /** Fermat's little theorem, first form: p divides a^p - a. */
  lemma {:induction false} FermatPower(p: nat, a: nat)
    requires Prime(p)
    ensures (Pow(a, p) - a) % p == 0
  {
    if a == 0 {
      FermatBase(p);
    } else {
      FermatPower(p, a - 1);
      FermatInduct(p, a);
    }
  }

  lemma FermatBase(p: nat)
    requires p > 0
    ensures (Pow(0, p) - 0) % p == 0
  {
    PowZero(p);
    MultipleMod(p, 0);
  }

  /** One step of the induction on the base: from a - 1 to a. */
  lemma FermatInduct(p: nat, a: nat)
    requires Prime(p) && a >= 1 && (Pow(a - 1, p) - (a - 1)) % p == 0
    ensures (Pow(a, p) - a) % p == 0
  {
    var b := a - 1;
    FreshmansDream(p, b);
    var hi, lo := Pow(b + 1, p), Pow(b, p);
    CombinationMod(p, hi - lo - 1, lo - b, 1, 1);
    assert 1 * (hi - lo - 1) + 1 * (lo - b) == hi - (b + 1);
  }

  lemma PowZero(e: nat)
    requires e > 0
    ensures Pow(0, e) == 0
  {
  }

  /** Fermat's little theorem: a^(p-1) = 1 modulo p when p does not divide a. */
  lemma Fermat(p: nat, a: nat)
    requires Prime(p) && a % p != 0
    ensures Pow(a, p - 1) % p == 1
  {
    FermatPower(p, a);
    assert Pow(a, p) - a == a * (Pow(a, p - 1) - 1);
    EuclidLemma(p, a, Pow(a, p - 1) - 1);
    var m := (Pow(a, p - 1) - 1) / p;
    assert Pow(a, p - 1) - 1 == p * m;
    DivModUnique(Pow(a, p - 1), p, m, 1);
  }

  /** Modulo a prime, the only square roots of 1 are 1 and p - 1. */
  lemma SquareRootsOfOne(p: nat, x: int)
    requires Prime(p) && 0 <= x < p && (x * x) % p == 1
    ensures x == 1 || x == p - 1
  {
    var m := (x * x) / p;
    assert x * x == p * m + 1;
    assert (x - 1) * (x + 1) == p * m;
    MultipleMod(p, m);
    EuclidLemma(p, x - 1, x + 1);
    if (x - 1) % p == 0 {
      if x != 1 {
        DivModUnique(x - 1, p, 0, x - 1);
      }
    } else {
      if x + 1 != p {
        DivModUnique(x + 1, p, 0, x + 1);
      }
    }
  }
}
