/** The Fibonacci lattice of `axiom2/fibonacci_vortices.py`: the sums, differences and
    products modulo isqrt(n) of pairs of Fibonacci grid lines, as a sorted list. The
    vortex and golden-spiral generators scale by the golden ratio in floating point and
    are not modelled. */
module FibonacciVortices {
  import opened Arith
  import opened Seqs
  import opened Wrappers
  import opened FibonacciCore
  import FibonacciResonanceMap

  /** The grid lines fib(k), fib(k + 1), ... up to the last one not above root. */
  function LinesFrom(root: nat, k: nat): (lines: seq<nat>)
    requires k >= 1
    ensures forall i :: 0 <= i < |lines| ==> lines[i] == F(k + i) && 1 <= lines[i] <= root
    ensures F(k + |lines|) > root
    decreases root + 2 - k
  {
    if F(k) > root then []
    else
      FibonacciResonanceMap.FibUnbounded(k);
      FibPositive(k);
      [F(k)] + LinesFrom(root, k + 1)
  }

  lemma FibPositive(k: nat)
    requires k >= 1
    ensures F(k) >= 1
  {
    FibonacciResonanceMap.FibMonotone(1, k);
  }

  /** The product candidate: (f1 * f2) mod root, or the smaller line when that is 0. */
  function ProductPoint(f1: nat, f2: nat, root: nat): nat
    requires root > 0
  {
    var p := (f1 * f2) % root;
    if p == 0 then Min(f1, f2) else p
  }

  /** The candidates a pair of lines adds: its sum, difference and product point, each
      only when it lies in [2, root]. */
  function PairPoints(f1: nat, f2: nat, root: nat): (s: set<int>)
    requires root > 0
  {
    InRange(f1 + f2, root) + InRange(Abs(f1 - f2), root) + InRange(ProductPoint(f1, f2, root), root)
  }

  /** {x} when 2 <= x <= root, else nothing: the guard before each `add`. */
  function InRange(x: int, root: nat): (s: set<int>)
    ensures forall y :: y in s <==> y == x && 2 <= x <= root
  {
    if 2 <= x <= root then {x} else {}
  }

  /** Every candidate of every pair of lines i <= j. */
  function Grid(lines: seq<nat>, root: nat): (s: set<int>)
    requires forall i :: 0 <= i < |lines| ==> 1 <= lines[i] <= root
  {
    set i, j, x | 0 <= i <= j < |lines| && x in PairPoints(lines[i], lines[j], root) :: x
  }

  /** `sorted(s)` for a set of integers within [lo, hi]: the members in ascending order. */
  function Enumerate(s: set<int>, lo: int, hi: int): (r: seq<int>)
    ensures StrictlyAscending(r)
    ensures forall x :: x in r <==> x in s && lo <= x <= hi
    decreases hi - lo
  {
    if lo > hi then []
    else
      var rest := Enumerate(s, lo + 1, hi);
      assert forall i :: 0 <= i < |rest| ==> lo < rest[i] by {
        forall i | 0 <= i < |rest| ensures lo < rest[i] {
          assert rest[i] in rest;
        }
      }
      if lo in s then [lo] + rest else rest
  }

  /** `fibonacci_lattice_points(n)`; `math.isqrt` of a negative n raises ValueError. */
  function LatticePoints(n: int): (r: Result<seq<int>>)
    ensures n < 0 <==> r == Failure(ValueError)
    ensures r.Success? ==> StrictlyAscending(r.value) && Distinct(r.value)
    ensures r.Success? ==> forall x :: x in r.value ==> 2 <= x <= Isqrt(n)
  {
    if n < 0 then Failure(ValueError)
    else
      var root := Isqrt(n);
      Success(Enumerate(Grid(LinesFrom(root, 1), root), 2, root))
  }

  // ---------------------------------------------------------------------------
  // What the lattice holds, in terms of Fibonacci indices

  /** x is a candidate of some pair fib(k1), fib(k2) with 1 <= k1 <= k2 and fib(k2) <= root. */
  ghost predicate IsLatticePoint(x: int, root: nat) {
    root > 0 &&
    exists k1: nat, k2: nat :: 1 <= k1 <= k2 && F(k2) <= root && x in PairPoints(F(k1), F(k2), root)
  }

  /** The grid lines are exactly fib(1..K) for the last K with fib(K) <= root. */
  lemma LinesAreTheFibsToRoot(root: nat, k: nat)
    requires k >= 1
    ensures forall j: nat :: k <= j && F(j) <= root ==> j - k < |LinesFrom(root, k)|
  {
    var lines := LinesFrom(root, k);
    forall j: nat | k <= j && F(j) <= root
      ensures j - k < |lines|
    {
      if j - k >= |lines| {
        FibonacciResonanceMap.FibMonotone(k + |lines|, j);
      }
    }
  }

  /** For n >= 0 the lattice holds exactly the lattice points of isqrt(n). */
  lemma LatticeMeans(n: int, x: int)
    requires n >= 0
    ensures x in LatticePoints(n).value <==> IsLatticePoint(x, Isqrt(n))
  {
    var root := Isqrt(n);
    var lines := LinesFrom(root, 1);
    assert LatticePoints(n).value == Enumerate(Grid(lines, root), 2, root);
    if x in Grid(lines, root) {
      GridSound(root, x);
    }
    if IsLatticePoint(x, root) {
      GridComplete(root, x);
    }
  }

  /** Every member of the grid is a candidate of a pair of Fibonacci lines. */
  lemma GridSound(root: nat, x: int)
    requires x in Grid(LinesFrom(root, 1), root)
    ensures 2 <= x <= root && IsLatticePoint(x, root)
  {
    var lines := LinesFrom(root, 1);
    var i, j :| 0 <= i <= j < |lines| && x in PairPoints(lines[i], lines[j], root);
    assert lines[i] == F(1 + i) && lines[j] == F(1 + j);
    assert 1 <= 1 + i <= 1 + j && F(1 + j) <= root;
  }

  /** Every candidate of a pair of Fibonacci lines is in the grid. */
  lemma GridComplete(root: nat, x: int)
    requires IsLatticePoint(x, root)
    ensures x in Grid(LinesFrom(root, 1), root)
  {
    var lines := LinesFrom(root, 1);
    var k1: nat, k2: nat :| 1 <= k1 <= k2 && F(k2) <= root && x in PairPoints(F(k1), F(k2), root);
    LinesAreTheFibsToRoot(root, 1);
    assert lines[k1 - 1] == F(k1) && lines[k2 - 1] == F(k2);
    var i, j := k1 - 1, k2 - 1;
    assert 0 <= i <= j < |lines| && x in PairPoints(lines[i], lines[j], root);
  }

  /** A pair's candidates do not depend on the order of the pair. */
  lemma PairPointsSymmetric(f1: nat, f2: nat, root: nat)
    requires root > 0
    ensures PairPoints(f1, f2, root) == PairPoints(f2, f1, root)
  {
    assert f1 * f2 == f2 * f1;
    assert Abs(f1 - f2) == Abs(f2 - f1);
  }

  /** Any two grid lines, in either order, contribute their candidates to the lattice. */
  lemma PairInLattice(n: int, k1: nat, k2: nat, x: int)
    requires n >= 0 && k1 >= 1 && k2 >= 1
    requires F(k1) <= Isqrt(n) && F(k2) <= Isqrt(n)
    requires Isqrt(n) > 0 && x in PairPoints(F(k1), F(k2), Isqrt(n))
    ensures x in LatticePoints(n).value
  {
    var root := Isqrt(n);
    if k2 < k1 {
      PairPointsSymmetric(F(k1), F(k2), root);
      assert IsLatticePoint(x, root) by {
        assert 1 <= k2 <= k1 && F(k1) <= root && x in PairPoints(F(k2), F(k1), root);
      }
    } else {
      assert IsLatticePoint(x, root);
    }
    LatticeMeans(n, x);
  }

  /** The sum of two grid lines is a lattice point whenever it lies in [2, isqrt(n)]. */
  lemma SumInLattice(n: int, k1: nat, k2: nat)
    requires n >= 0 && k1 >= 1 && k2 >= 1
    requires F(k1) <= Isqrt(n) && F(k2) <= Isqrt(n)
    requires 2 <= F(k1) + F(k2) <= Isqrt(n)
    ensures F(k1) + F(k2) in LatticePoints(n).value
  {
    var x := F(k1) + F(k2);
    SumCandidate(F(k1), F(k2), Isqrt(n));
    PairInLattice(n, k1, k2, x);
  }

  /** The difference of two grid lines is a lattice point whenever it lies in [2, isqrt(n)]. */
  lemma DifferenceInLattice(n: int, k1: nat, k2: nat)
    requires n >= 0 && k1 >= 1 && k2 >= 1
    requires F(k1) <= Isqrt(n) && F(k2) <= Isqrt(n)
    requires 2 <= Abs(F(k1) - F(k2)) <= Isqrt(n)
    ensures Abs(F(k1) - F(k2)) in LatticePoints(n).value
  {
    var x := Abs(F(k1) - F(k2));
    DifferenceCandidate(F(k1), F(k2), Isqrt(n));
    PairInLattice(n, k1, k2, x);
  }

  lemma SumCandidate(f1: nat, f2: nat, root: nat)
    requires 2 <= f1 + f2 <= root
    ensures f1 + f2 in PairPoints(f1, f2, root)
  {
  }

  lemma DifferenceCandidate(f1: nat, f2: nat, root: nat)
    requires 2 <= Abs(f1 - f2) <= root
    ensures Abs(f1 - f2) in PairPoints(f1, f2, root)
  {
  }

  lemma ProductCandidate(f1: nat, f2: nat, root: nat)
    requires root > 0 && (f1 * f2) % root == 0 && 2 <= Min(f1, f2) <= root
    ensures Min(f1, f2) in PairPoints(f1, f2, root)
  {
    assert ProductPoint(f1, f2, root) == Min(f1, f2);
  }

  /** When root divides the product of two grid lines, the smaller line stands in for it. */
  lemma ZeroProductGivesMin(n: int, k1: nat, k2: nat)
    requires n >= 0 && k1 >= 1 && k2 >= 1
    requires F(k1) <= Isqrt(n) && F(k2) <= Isqrt(n)
    requires Isqrt(n) > 0 && (F(k1) * F(k2)) % Isqrt(n) == 0 && 2 <= Min(F(k1), F(k2))
    ensures Min(F(k1), F(k2)) in LatticePoints(n).value
  {
    ProductCandidate(F(k1), F(k2), Isqrt(n));
    PairInLattice(n, k1, k2, Min(F(k1), F(k2)));
  }

  /** With n = 225 (root 15) the lattice holds 5 = 2 + 3, 8 = 3 + 5 = 13 - 5, 13 = 5 + 8
      and 3 = 8 - 5. */
  lemma LatticeOf225()
    ensures LatticePoints(225).value != []
    ensures 3 in LatticePoints(225).value && 5 in LatticePoints(225).value
    ensures 8 in LatticePoints(225).value && 13 in LatticePoints(225).value
  {
    IsqrtUnique(225, 15);
    FibValues();
    SumInLattice(225, 3, 4);
    SumInLattice(225, 4, 5);
    SumInLattice(225, 5, 6);
    DifferenceInLattice(225, 6, 5);
  }

  lemma FibValues()
    ensures F(3) == 2 && F(4) == 3 && F(5) == 5 && F(6) == 8
  {
  }
}
