/** Python's insertion-ordered `dict` and `OrderedDict`, the storage under every cache of
    the model: the keys in insertion order beside a map from key to value. */
module OrderedStore {
  import opened Arith
  import opened Seqs
  import opened Wrappers

  datatype Store<K, V> = Store(order: seq<K>, values: map<K, V>)

  /** The order lists each stored key exactly once. */
  ghost predicate Valid<K(!new), V>(s: Store<K, V>) {
    Distinct(s.order) && forall k :: k in s.values <==> k in s.order
  }

  /** `len(d)`: a valid store holds exactly as many entries as its order lists keys. */
  lemma {:induction false} SizeIsOrderLength<K(!new), V>(s: Store<K, V>)
    requires Valid(s)
    ensures |s.values| == |s.order|
    decreases |s.order|
  {
    if |s.order| > 0 {
      var last := s.order[|s.order| - 1];
      var prefix := s.order[..|s.order| - 1];
      var rest := Store(prefix, s.values - {last});
      DistinctPrefix(s.order);
      SizeIsOrderLength(rest);
      assert s.values.Keys == rest.values.Keys + {last};
    }
  }

  /** Dropping the last key of a distinct order leaves a distinct order without it. */
  lemma DistinctPrefix<K>(o: seq<K>)
    requires Distinct(o) && |o| > 0
    ensures Distinct(o[..|o| - 1])
    ensures forall k :: k in o[..|o| - 1] <==> k in o && k != o[|o| - 1]
  {
    var prefix := o[..|o| - 1];
    assert forall i :: 0 <= i < |prefix| ==> prefix[i] == o[i];
    assert o == prefix + [o[|o| - 1]];
  }

  /** An empty dictionary (`{}`, `OrderedDict()`, `d.clear()`). */
  function Empty<K(==,!new), V>(): (s: Store<K, V>)
    ensures Valid(s) && s.order == [] && s.values == map[]
  {
    Store([], map[])
  }

  /** `d[k] = v`: a new key goes last; an existing key keeps its place. */
  function Put<K(==,!new), V>(s: Store<K, V>, k: K, v: V): (r: Store<K, V>)
    requires Valid(s)
    ensures Valid(r) && r.values == s.values[k := v]
    ensures k in s.values ==> r.order == s.order
    ensures k !in s.values ==> r.order == s.order + [k]
  {
    if k in s.values then Store(s.order, s.values[k := v])
    else
      assert Distinct(s.order + [k]) by {
        forall i, j | 0 <= i < j < |s.order| + 1
          ensures (s.order + [k])[i] != (s.order + [k])[j]
        {
          if j == |s.order| {
            assert s.order[i] in s.order;
          }
        }
      }
      Store(s.order + [k], s.values[k := v])
  }

  /** The order without the key k. */
  function Without<K(==,!new)>(order: seq<K>, k: K): (r: seq<K>)
    requires Distinct(order)
    ensures Distinct(r) && forall x :: x in r <==> x in order && x != k
    ensures k in order ==> |r| == |order| - 1
    ensures k !in order ==> r == order
  {
    if order == [] then []
    else
      var rest := Without(order[1..], k);
      assert order[0] !in order[1..] by {
        assert forall j :: 0 <= j < |order[1..]| ==> order[1..][j] == order[j + 1] != order[0];
      }
      if order[0] == k then rest
      else
        assert Distinct([order[0]] + rest) by {
          forall i, j | 0 <= i < j < |rest| + 1
            ensures ([order[0]] + rest)[i] != ([order[0]] + rest)[j]
          {
            if i == 0 {
              assert rest[j - 1] in rest;
            }
          }
        }
        assert order == [order[0]] + order[1..];
        [order[0]] + rest
  }

  /** `OrderedDict.move_to_end(k)`: k becomes the most recent key; the values stay. */
  function MoveToEnd<K(==,!new), V>(s: Store<K, V>, k: K): (r: Store<K, V>)
    requires Valid(s) && k in s.values
    ensures Valid(r) && r.values == s.values && |r.order| == |s.order|
    ensures r.order == Without(s.order, k) + [k]
  {
    var rest := Without(s.order, k);
    assert Distinct(rest + [k]) by {
      forall i, j | 0 <= i < j < |rest| + 1
        ensures (rest + [k])[i] != (rest + [k])[j]
      {
        if j == |rest| {
          assert rest[i] in rest;
        }
      }
    }
    Store(rest + [k], s.values)
  }

  /** `popitem(last=False)`, or `del d[next(iter(d))]`: the oldest key leaves. */
  function DropFirst<K(==,!new), V>(s: Store<K, V>): (r: Store<K, V>)
    requires Valid(s) && |s.order| > 0
    ensures Valid(r) && r.order == s.order[1..]
    ensures r.values.Keys == s.values.Keys - {s.order[0]}
    ensures forall k :: k in r.values ==> r.values[k] == s.values[k]
  {
    var rest := s.order[1..];
    assert s.order == [s.order[0]] + rest;
    assert forall k :: k in rest <==> k in s.order && k != s.order[0] by {
      forall k | k in s.order && k != s.order[0]
        ensures k in rest
      {
        var j :| 0 <= j < |s.order| && s.order[j] == k;
        assert rest[j - 1] == k;
      }
      forall k | k in rest
        ensures k != s.order[0]
      {
        var j :| 0 <= j < |rest| && rest[j] == k;
        assert s.order[j + 1] == k;
      }
    }
    Store(rest, map k | k in s.values && k != s.order[0] :: s.values[k])
  }

  /** `d.pop(k)` / `del d[k]`: the key leaves, the order of the rest stays. */
  function Delete<K(==,!new), V>(s: Store<K, V>, k: K): (r: Store<K, V>)
    requires Valid(s)
    ensures Valid(r) && r.order == Without(s.order, k)
    ensures r.values.Keys == s.values.Keys - {k}
    ensures forall x :: x in r.values ==> r.values[x] == s.values[x]
  {
    Store(Without(s.order, k), map x | x in s.values && x != k :: s.values[x])
  }

  /** The trimming loop of the LRU caches (`while len(cache) > cache_size: cache.popitem(last=False)`).
      A negative size empties the dictionary and the next `popitem` raises KeyError. */
  function TrimOldest<K(==,!new), V>(s: Store<K, V>, size: int): (r: Result<Store<K, V>>)
    requires Valid(s)
    ensures size < 0 <==> r.Failure?
    ensures r.Failure? ==> r.error == KeyError
    ensures r.Success? ==> Valid(r.value) && |r.value.order| == Min(|s.order|, size)
    ensures r.Success? ==> r.value.order == s.order[|s.order| - |r.value.order|..]
    ensures r.Success? ==> forall k :: k in r.value.values ==> r.value.values[k] == s.values[k]
    decreases |s.order|
  {
    if |s.order| > size then
      if |s.order| == 0 then Failure(KeyError)
      else
        var d := DropFirst(s);
        var r := TrimOldest(d, size);
        assert r.Success? ==> s.order[1..][|d.order| - |r.value.order|..] == s.order[|s.order| - |r.value.order|..];
        r
    else Success(s)
  }

  /** `cache[k] = v` followed by the trimming loop: the insert of every LRU cache. */
  function PutTrimmed<K(==,!new), V>(s: Store<K, V>, k: K, v: V, size: int): (r: Result<Store<K, V>>)
    requires Valid(s)
    ensures size < 0 <==> r.Failure?
    ensures r.Failure? ==> r.error == KeyError
    ensures r.Success? ==> Valid(r.value) && |r.value.order| <= size
    ensures r.Success? ==> forall x :: x in r.value.values ==> x in s.values[k := v] && r.value.values[x] == s.values[k := v][x]
  {
    TrimOldest(Put(s, k, v), size)
  }

  /** after is before with k appended, cut to its newest size keys. */
  predicate AppendedTrimmed<K(==)>(before: seq<K>, k: K, after: seq<K>, size: int) {
    var whole := before + [k];
    |after| == Min(|whole|, size) && |after| <= |whole| && after == whole[|whole| - |after|..]
  }

  /** A new key is appended and the oldest keys beyond size are trimmed. */
  lemma PutTrimmedNew<K(!new), V>(s: Store<K, V>, k: K, v: V, size: int)
    requires Valid(s) && k !in s.values && size >= 0
    ensures AppendedTrimmed(s.order, k, PutTrimmed(s, k, v, size).value.order, size)
  {
    var whole := s.order + [k];
    var r := TrimOldest(Store(whole, s.values[k := v]), size).value;
    assert r.order == whole[|whole| - |r.order|..];
  }

  /** With size >= 1 the new key survives the trim as the most recent entry. */
  lemma PutTrimmedKeeps<K(!new), V>(s: Store<K, V>, k: K, v: V, size: int)
    requires Valid(s) && k !in s.values && size >= 1
    ensures var r := PutTrimmed(s, k, v, size).value;
      r.order[|r.order| - 1] == k && k in r.values && r.values[k] == v
  {
    PutTrimmedNew(s, k, v, size);
    var r := PutTrimmed(s, k, v, size).value;
    var whole := s.order + [k];
    assert r.order[|r.order| - 1] == whole[|whole| - 1] == k;
    assert k in r.order;
  }

  /** Storing under a present key of a store within size keeps its place and trims nothing. */
  lemma PutTrimmedExisting<K(!new), V>(s: Store<K, V>, k: K, v: V, size: int)
    requires Valid(s) && k in s.values && |s.order| <= size
    ensures PutTrimmed(s, k, v, size) == Success(Put(s, k, v))
  {
  }
}
