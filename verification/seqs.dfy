/** Small sequence vocabulary shared by the modules: orderings, products, repeats. */
module Seqs {

  predicate StrictlyAscending(s: seq<int>) {
    forall i, j :: 0 <= i < j < |s| ==> s[i] < s[j]
  }

  predicate NonDecreasing(s: seq<int>) {
    forall i, j :: 0 <= i < j < |s| ==> s[i] <= s[j]
  }

  predicate Distinct<T(==)>(s: seq<T>) {
    forall i, j :: 0 <= i < j < |s| ==> s[i] != s[j]
  }

  function Product(s: seq<int>): int {
    if |s| == 0 then 1 else s[0] * Product(s[1..])
  }

  function Repeat<T>(x: T, count: nat): (r: seq<T>)
    ensures |r| == count && forall i :: 0 <= i < count ==> r[i] == x
  {
    if count == 0 then [] else [x] + Repeat(x, count - 1)
  }

  lemma {:induction false} ProductAppend(a: seq<int>, b: seq<int>)
    ensures Product(a + b) == Product(a) * Product(b)
  {
    if |a| == 0 {
      assert a + b == b;
    } else {
      assert (a + b)[1..] == a[1..] + b;
      ProductAppend(a[1..], b);
    }
  }

  lemma {:induction false} ProductRepeat(x: int, count: nat)
    ensures Product(Repeat(x, count)) * x == Product(Repeat(x, count + 1))
  {
    var r := Repeat(x, count + 1);
    assert r[1..] == Repeat(x, count);
  }

  lemma {:induction false} ProductPositive(s: seq<int>)
    requires forall i :: 0 <= i < |s| ==> s[i] >= 1
    ensures Product(s) >= 1
  {
    if |s| > 0 {
      ProductPositive(s[1..]);
      assert s[0] * Product(s[1..]) >= Product(s[1..]);
    }
  }

  /** x placed into an ascending list of other numbers, where it belongs. */
  function InsertAscending(x: int, s: seq<int>): (r: seq<int>)
    requires StrictlyAscending(s) && x !in s
    ensures StrictlyAscending(r) && |r| == |s| + 1
    ensures forall y :: y in r <==> y == x || y in s
  {
    if s == [] then [x]
    else if x < s[0] then
      assert forall i :: 0 <= i < |s| ==> x < s[i] by {
        forall i | 0 <= i < |s| ensures x < s[i] {
          assert i == 0 || s[0] < s[i];
        }
      }
      [x] + s
    else
      var rest := InsertAscending(x, s[1..]);
      assert forall i :: 0 <= i < |rest| ==> s[0] < rest[i] by {
        forall i | 0 <= i < |rest| ensures s[0] < rest[i] {
          assert rest[i] in rest;
          if rest[i] != x {
            var j :| 0 <= j < |s[1..]| && s[1..][j] == rest[i];
            assert s[j + 1] == rest[i];
          } else {
            assert x != s[0];
          }
        }
      }
      assert s == [s[0]] + s[1..];
      [s[0]] + rest
  }

  /** Python's `sorted` of distinct integers: the same numbers, ascending. */
  function SortAscending(s: seq<int>): (r: seq<int>)
    requires Distinct(s)
    ensures StrictlyAscending(r) && |r| == |s|
    ensures forall y :: y in r <==> y in s
  {
    if s == [] then []
    else
      var init := s[..|s| - 1];
      assert s == init + [s[|s| - 1]];
      assert s[|s| - 1] !in init by {
        forall i | 0 <= i < |init| ensures init[i] != s[|s| - 1] {
          assert init[i] == s[i];
        }
      }
      InsertAscending(s[|s| - 1], SortAscending(init))
  }
}
