/** Fibonacci and Lucas arithmetic (`axiom2/fibonacci_core.py`): the fast-doubling `fib`,
    `lucas` and the perfect-square test `is_fibonacci`. */
module FibonacciCore {
  import opened Arith
  import opened NumberTheory
  import opened Wrappers

  // ---------------------------------------------------------------------------
  // Reference definitions

  /** The Fibonacci numbers by their recurrence: F(0) = 0, F(1) = 1. */
  function F(k: nat): nat {
    if k < 2 then k else F(k - 1) + F(k - 2)
  }

  /** The Lucas numbers by their recurrence: L(0) = 2, L(1) = 1. */
  function L(k: nat): nat {
    if k == 0 then 2 else if k == 1 then 1 else L(k - 1) + L(k - 2)
  }

  /** n is a Fibonacci number. */
  ghost predicate IsFibonacciNumber(n: int) {
    exists k: nat :: F(k) == n
  }

  // ---------------------------------------------------------------------------
  // Ring facts over plain integers, kept apart so that the solver meets the
  // nonlinear steps one at a time

  lemma AdditionAlgebra(a: int, b: int, u: int, v: int, w: int, z: int, s1: int, s0: int, t: int)
    requires u == v + w && v == w + z
    requires s1 == a * v + b * w && s0 == a * w + b * z && t == s1 + s0
    ensures t == a * u + b * v
  {
  }

  lemma DoublingAlgebra(x: int, y: int, w: int, t: int)
    requires w == y - x && t == x * y + w * x
    ensures t == x * (2 * y - x)
  {
  }

  lemma AlternationAlgebra(a: int, b: int, c: int)
    requires c == a + b
    ensures c * c - c * a - a * a == -(a * a - a * b - b * b)
  {
  }

  lemma LucasSquareAlgebra(a: int, b: int)
    ensures (2 * a - b) * (2 * a - b) - 5 * b * b == 4 * (a * a - a * b - b * b)
  {
  }

  lemma DescentAlgebra(m: int, n: int, m': int, n': int)
    requires 2 * n' == m - n && 2 * m' == 5 * n - m
    ensures m' * m' - 5 * n' * n' == -(m * m - 5 * n * n)
  {
    assert 4 * (m' * m') == (5 * n - m) * (5 * n - m);
    assert 4 * (n' * n') == (m - n) * (m - n);
  }

  /** x^2 - x is even. */
  lemma SquareParity(x: int)
    ensures (x * x - x) % 2 == 0
  {
    var q := x / 2;
    var t := if x % 2 == 0 then q * x - q else q * x;
    assert x * x - x == 2 * t by {
      if x % 2 == 0 {
        assert x == 2 * q;
      } else {
        assert x == 2 * q + 1;
      }
    }
    MultipleMod(2, t);
  }

  // ---------------------------------------------------------------------------
  // Identities

  /** The addition formula F(m + n + 1) = F(m + 1) F(n + 1) + F(m) F(n). */
  lemma {:induction false} FibAddition(m: nat, n: nat)
    ensures F(m + n + 1) == F(m + 1) * F(n + 1) + F(m) * F(n)
    decreases n
  {
    if n == 0 {
      assert F(n + 1) == 1 && F(n) == 0;
      assert F(m + n + 1) == F(m + 1);
    } else if n == 1 {
      assert F(n + 1) == 1 && F(n) == 1;
      assert F(m + n + 1) == F(m + 1) + F(m);
    } else {
      var a: nat, b: nat := n - 1, n - 2;
      FibAddition(m, a);
      FibAddition(m, b);
      assert F(a + 1) == F(n) && F(b + 1) == F(a);
      assert F(m + a + 1) == F(m + n) && F(m + b + 1) == F(m + a);
      assert F(m + n + 1) == F(m + n) + F(m + a);
      assert F(n + 1) == F(n) + F(a) && F(n) == F(a) + F(b);
      AdditionAlgebra(F(m + 1), F(m), F(n + 1), F(n), F(a), F(b), F(m + n), F(m + a), F(m + n + 1));
    }
  }

  /** The doubling identities the helper `_double` relies on. */
  lemma Doubling(k: nat)
    ensures F(2 * k) == F(k) * (2 * F(k + 1) - F(k))
    ensures F(2 * k + 1) == F(k) * F(k) + F(k + 1) * F(k + 1)
  {
    FibAddition(k, k);
    assert k + k + 1 == 2 * k + 1;
    var x, y := F(k), F(k + 1);
    if k == 0 {
      assert F(2 * k) == 0 && x == 0;
    } else {
      var j: nat := k - 1;
      FibAddition(j, k);
      assert j + 1 == k && j + k + 1 == 2 * k;
      var w := F(j);
      assert y == x + w;
      DoublingAlgebra(x, y, w, F(2 * k));
    }
  }

  /** L(k) = 2 F(k + 1) - F(k). */
  lemma {:induction false} LucasFromFib(k: nat)
    ensures L(k) == 2 * F(k + 1) - F(k)
  {
    if k >= 2 {
      LucasFromFib(k - 1);
      LucasFromFib(k - 2);
    }
  }

  /** F(k + 1)^2 - F(k + 1) F(k) - F(k)^2 alternates between 1 and -1. */
  lemma {:induction false} FibAlternation(k: nat)
    ensures F(k + 1) * F(k + 1) - F(k + 1) * F(k) - F(k) * F(k) == (if k % 2 == 0 then 1 else -1)
  {
    if k == 0 {
      assert F(1) == 1 && F(0) == 0;
    } else {
      var j: nat := k - 1;
      FibAlternation(j);
      assert j + 1 == k;
      assert F(k + 1) == F(k) + F(j);
      assert (if j % 2 == 0 then 1 else -1) == -(if k % 2 == 0 then 1 else -1);
      AlternationAlgebra(F(k), F(j), F(k + 1));
    }
  }

  /** L(k)^2 - 5 F(k)^2 = 4 (-1)^k. */
  lemma LucasSquare(k: nat)
    ensures L(k) * L(k) == 5 * F(k) * F(k) + (if k % 2 == 0 then 4 else -4)
  {
    LucasFromFib(k);
    FibAlternation(k);
    LucasSquareAlgebra(F(k + 1), F(k));
  }

  // ---------------------------------------------------------------------------
  // fib and lucas

  /** The two cases of `_double` from the pair (a, b) at i // 2. */
  lemma DoubleStep(i: nat, a: int, b: int, c: int, d: int)
    requires i > 0 && a == F(i / 2) && b == F(i / 2 + 1)
    requires c == a * (2 * b - a) && d == a * a + b * b
    ensures i % 2 == 1 ==> F(i) == d && F(i + 1) == c + d
    ensures i % 2 == 0 ==> F(i) == c && F(i + 1) == d
  {
    var h := i / 2;
    Doubling(h);
    if i % 2 == 1 {
      assert i == 2 * h + 1;
      assert F(i) == d && F(i - 1) == c;
      assert F(i + 1) == F(i) + F(i - 1);
    } else {
      assert i == 2 * h;
      assert F(i) == c && F(i + 1) == d;
    }
  }

  /** `_double(i)`: the pair (F(i), F(i + 1)), halving i at each step. */
  function Double(i: nat): (r: (int, int))
    ensures r == (F(i), F(i + 1))
    decreases i
  {
    if i == 0 then (0, 1)
    else
      var ab := Double(i / 2);
      var a, b := ab.0, ab.1;
      var c := a * (2 * b - a);
      var d := a * a + b * b;
      DoubleStep(i, a, b, c, d);
      if i % 2 == 1 then (d, c + d) else (c, d)
  }

  /** `fib(k)`: a ValueError for negative k, otherwise the k-th Fibonacci number. */
  function Fib(k: int): (r: Result<nat>)
    ensures k < 0 <==> r == Failure(ValueError)
    ensures k >= 0 ==> r == Success(F(k))
  {
    if k < 0 then Failure(ValueError) else Success(Double(k).0)
  }

  /** `lucas(k)`: a ValueError for negative k; 2 and 1 for k = 0 and 1, and
      fib(k - 1) + fib(k + 1) above. */
  function Lucas(k: int): (r: Result<nat>)
    ensures k < 0 <==> r == Failure(ValueError)
    ensures k >= 0 ==> r == Success(L(k))
  {
    if k < 0 then Failure(ValueError)
    else if k == 0 then Success(2)
    else if k == 1 then Success(1)
    else
      LucasFromFib(k);
      Success(Fib(k - 1).value + Fib(k + 1).value)
  }

  /** The recurrence holds of `fib` itself, from its fast-doubling definition. */
  lemma FibRecurrence(k: nat)
    ensures Fib(0) == Success(0) && Fib(1) == Success(1)
    ensures Fib(k + 2).value == Fib(k + 1).value + Fib(k).value
  {
  }

  // ---------------------------------------------------------------------------
  // is_fibonacci

  /** The nested `is_perfect_square`. */
  predicate IsPerfectSquare(x: int) {
    x >= 0 && Isqrt(x) * Isqrt(x) == x
  }

  /** `is_perfect_square(x)` holds exactly when x is the square of a natural number. */
  lemma PerfectSquareMeans(x: int)
    ensures IsPerfectSquare(x) <==> exists r: nat :: r * r == x
  {
    if r: nat :| r * r == x {
      assert r * r <= x < (r + 1) * (r + 1);
      IsqrtUnique(x, r);
    }
  }

  /** `is_fibonacci`. */
  predicate IsFibonacci(n: int) {
    n >= 0 && (IsPerfectSquare(5 * n * n + 4) || IsPerfectSquare(5 * n * n - 4))
  }

  /** Every Fibonacci number passes the test. */
  lemma FibonacciPasses(k: nat)
    ensures IsFibonacci(F(k))
  {
    LucasSquare(k);
    var n, m := F(k), L(k);
    SquareIsPerfect(m);
  }

  lemma SquareIsPerfect(m: nat)
    ensures IsPerfectSquare(m * m)
  {
    IsqrtUnique(m * m, m);
  }

  /** One step of the descent: F(k + 1) and L(k + 1) from F(k) and L(k). */
  lemma LucasStep(k: nat)
    ensures 2 * F(k + 1) == F(k) + L(k)
    ensures 2 * L(k + 1) == 5 * F(k) + L(k)
  {
    LucasFromFib(k);
    LucasFromFib(k + 1);
  }

  /** A solution of m^2 - 5 n^2 = +-4 in naturals is (L(k), F(k)) for some k: descend to
      ((5n - m) / 2, (m - n) / 2), which solves the equation with the other sign. */
  lemma {:induction false} Descent(m: nat, n: nat) returns (k: nat)
    requires m * m == 5 * n * n + 4 || m * m == 5 * n * n - 4
    ensures F(k) == n && L(k) == m
    decreases n
  {
    if n == 0 {
      if m != 2 {
        SquareBetween(m, 2);
      }
      k := 0;
    } else if n == 1 {
      if m != 1 && m != 3 {
        SquareBetween(m, 1);
        SquareBetween(m, 3);
      }
      k := if m == 1 then 1 else 2;
    } else {
      DescentBounds(m, n);
      var n' := (m - n) / 2;
      assert 2 * n' == m - n;
      var m' := 2 * n - n';
      DescentAlgebra(m, n, m', n');
      var k' := Descent(m', n');
      LucasStep(k');
      k := k' + 1;
    }
  }

  /** A natural whose square is x*x is x; one whose square lies strictly between
      neighbouring squares does not exist. */
  lemma SquareBetween(m: nat, x: nat)
    ensures m * m == x * x ==> m == x
  {
    if m < x {
      SquareStrictlyMonotonic(m, x);
    } else if x < m {
      SquareStrictlyMonotonic(x, m);
    }
  }

  /** For n >= 2 the descent stays in the naturals, shrinks n and keeps parities. */
  lemma DescentBounds(m: nat, n: nat)
    requires n >= 2 && (m * m == 5 * n * n + 4 || m * m == 5 * n * n - 4)
    ensures n <= m < 3 * n && m <= 5 * n && (m - n) % 2 == 0
  {
    if m < n {
      SquareStrictlyMonotonic(m, n);
    }
    if m >= 3 * n {
      MulLe(3 * n, m);
    }
    if (m - n) % 2 != 0 {
      ParityOfSquares(m, n);
    }
  }

  lemma MulLe(a: nat, b: nat)
    requires a <= b
    ensures a * a <= b * b
  {
    if a < b {
      SquareStrictlyMonotonic(a, b);
    }
  }

  /** m^2 - 5 n^2 even forces m and n to have the same parity. */
  lemma ParityOfSquares(m: nat, n: nat)
    requires (m * m - 5 * n * n) % 2 == 0
    ensures (m - n) % 2 == 0
  {
    SquareParity(m);
    SquareParity(n);
    var x, y, z := m * m - 5 * n * n, m * m - m, n * n - n;
    ParityRing(m, n, x, y, z);
    var a, b, c := x / 2, y / 2, z / 2;
    assert x == 2 * a && y == 2 * b && z == 2 * c;
    MultipleMod(2, a - b + 5 * c + 2 * n);
  }

  lemma ParityRing(m: int, n: int, x: int, y: int, z: int)
    requires x == m * m - 5 * n * n && y == m * m - m && z == n * n - n
    ensures m - n == x - y + 5 * z + 4 * n
  {
  }

  /** `is_fibonacci(n)` holds exactly when n is a Fibonacci number. */
  lemma IsFibonacciCorrect(n: int)
    ensures IsFibonacci(n) <==> IsFibonacciNumber(n)
  {
    if IsFibonacciNumber(n) {
      var k: nat :| F(k) == n;
      FibonacciPasses(k);
    }
    if IsFibonacci(n) {
      PerfectSquareMeans(5 * n * n + 4);
      PerfectSquareMeans(5 * n * n - 4);
      var m: nat :| m * m == 5 * n * n + 4 || m * m == 5 * n * n - 4;
      var k := Descent(m, n);
    }
  }
}
