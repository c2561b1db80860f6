/** Prime relationships followed from a starting prime (`axiom1/prime_cascade.py`): twin
    primes p + 2 and p - 2, then the Sophie Germain chain p -> 2p + 1 -> ... below n. */
module PrimeCascade {
  import opened PrimeCore
  import opened Arith

  /** The longest cascade the chain loop builds. */
  const MaxCascade: nat := 10

  /** The twin-prime part: p + 2 when it passes the primality test, then p - 2 when
      p > 2 and it passes. The test is a parameter so that the cascade's structure is
      proved without unfolding it; the cascade itself uses `is_prime`. */
  function Twins(passes: int -> bool, p: int): (t: seq<int>)
    ensures |t| <= 2
    ensures forall x :: x in t <==> (x == p + 2 && passes(p + 2)) || (x == p - 2 && p > 2 && passes(p - 2))
    ensures |t| == 2 ==> t == [p + 2, p - 2]
  {
    (if passes(p + 2) then [p + 2] else []) + (if p > 2 && passes(p - 2) then [p - 2] else [])
  }

  /** The `while q < n and len(out) < 10` loop, from the chain element q. */
  function Chain(passes: int -> bool, n: int, q: int, out: seq<int>): (r: seq<int>)
    requires q < n && |out| <= MaxCascade
    ensures |out| <= |r| <= MaxCascade && r[..|out|] == out
    ensures forall j :: |out| <= j < |r| ==>
      (r[j] < n && passes(r[j]) && r[j] == 2 * (if j == |out| then q else r[j - 1]) + 1)
    ensures |r| < MaxCascade ==>
      var last := if |r| == |out| then q else r[|r| - 1];
      !(2 * last + 1 < n && passes(2 * last + 1))
    decreases MaxCascade - |out|
  {
    if |out| < MaxCascade then
      var next := 2 * q + 1;
      if next < n && passes(next) then
        var r := Chain(passes, n, next, out + [next]);
        assert r[..|out| + 1] == out + [next];
        assert r[|out|] == next;
        r
      else out
    else out
  }

  /** The cascade of p below n under a given primality test. */
  function CascadeWith(passes: int -> bool, n: int, p: int): (out: seq<int>) {
    var twins := Twins(passes, p);
    var sophie := 2 * p + 1;
    if sophie < n && passes(sophie) then Chain(passes, n, sophie, twins + [sophie]) else twins
  }

  /** `PrimeCascade(n).cascade(p)`. */
  function Cascade(n: int, p: int): (out: seq<int>) {
    CascadeWith(IsPrime, n, p)
  }

  /** The cascade starts with the twin part and holds at most ten elements. */
  lemma CascadePrefix(passes: int -> bool, n: int, p: int)
    ensures |Twins(passes, p)| <= |CascadeWith(passes, n, p)| <= MaxCascade
    ensures CascadeWith(passes, n, p)[..|Twins(passes, p)|] == Twins(passes, p)
  {
    var twins := Twins(passes, p);
    var sophie := 2 * p + 1;
    if sophie < n && passes(sophie) {
      var r := Chain(passes, n, sophie, twins + [sophie]);
      assert r[..|twins| + 1] == twins + [sophie];
      assert r[..|twins|] == (twins + [sophie])[..|twins|];
    }
  }

  /** After the twin part, each element is 2q + 1 of the one before (of p for the first),
      lies below n and passes the test. */
  lemma CascadeChain(passes: int -> bool, n: int, p: int)
    ensures |Twins(passes, p)| <= |CascadeWith(passes, n, p)|
    ensures forall j :: |Twins(passes, p)| <= j < |CascadeWith(passes, n, p)| ==>
      (CascadeWith(passes, n, p)[j] < n && passes(CascadeWith(passes, n, p)[j])
       && CascadeWith(passes, n, p)[j] == 2 * (if j == |Twins(passes, p)| then p else CascadeWith(passes, n, p)[j - 1]) + 1)
  {
    CascadePrefix(passes, n, p);
    var twins := Twins(passes, p);
    var sophie := 2 * p + 1;
    if sophie < n && passes(sophie) {
      var r := Chain(passes, n, sophie, twins + [sophie]);
      assert r[..|twins| + 1] == twins + [sophie];
      assert r[|twins|] == sophie;
    }
  }

  /** The chain stops early only when the next 2q + 1 is not below n or fails the test. */
  lemma CascadeMaximal(passes: int -> bool, n: int, p: int)
    ensures |Twins(passes, p)| <= |CascadeWith(passes, n, p)|
    ensures |CascadeWith(passes, n, p)| < MaxCascade ==>
      var out := CascadeWith(passes, n, p);
      var last := if |out| == |Twins(passes, p)| then p else out[|out| - 1];
      !(2 * last + 1 < n && passes(2 * last + 1))
  {
    CascadePrefix(passes, n, p);
  }

  /** Every element of the cascade passes the test it was built with. */
  lemma CascadePasses(passes: int -> bool, n: int, p: int)
    ensures forall j :: 0 <= j < |CascadeWith(passes, n, p)| ==> passes(CascadeWith(passes, n, p)[j])
  {
    CascadePrefix(passes, n, p);
    CascadeChain(passes, n, p);
    var out := CascadeWith(passes, n, p);
    var twins := Twins(passes, p);
    forall j | 0 <= j < |twins|
      ensures passes(out[j])
    {
      assert out[j] == out[..|twins|][j] == twins[j];
      assert twins[j] in twins;
    }
  }

  /** p + 2 is in the cascade exactly when it passes `is_prime`; p - 2 exactly when p > 2
      and it passes. */
  lemma TwinsInCascade(n: int, p: int)
    ensures p + 2 in Cascade(n, p) <==> IsPrime(p + 2)
    ensures p - 2 in Cascade(n, p) <==> p > 2 && IsPrime(p - 2)
  {
    CascadePrefix(IsPrime, n, p);
    CascadePasses(IsPrime, n, p);
    var out := Cascade(n, p);
    var t := Twins(IsPrime, p);
    assert forall x :: x in t ==> x in out by {
      forall x | x in t
        ensures x in out
      {
        var j :| 0 <= j < |t| && t[j] == x;
        assert out[..|t|][j] == x;
      }
    }
    if p - 2 in out {
      var j :| 0 <= j < |out| && out[j] == p - 2;
      assert IsPrime(p - 2);
    }
  }

  /** On 64-bit values, and given the completeness of the Miller-Rabin bases, every
      element of the cascade is prime. */
  lemma CascadeIsPrime(n: int, p: int)
    requires WitnessSetComplete() && n <= TwoTo64 && p + 2 < TwoTo64
    ensures forall x :: x in Cascade(n, p) ==> Prime(x)
  {
    CascadePrefix(IsPrime, n, p);
    CascadeChain(IsPrime, n, p);
    CascadePasses(IsPrime, n, p);
    var out := Cascade(n, p);
    var twins := Twins(IsPrime, p);
    forall x | x in out
      ensures Prime(x)
    {
      var j :| 0 <= j < |out| && out[j] == x;
      if j < |twins| {
        assert out[j] == out[..|twins|][j] == twins[j];
        assert twins[j] in twins;
      }
      IsPrimeExact(x);
    }
  }
}
