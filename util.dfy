/**
 * The grouping helpers of Util.java. Each Java helper walks its collection
 * once, in encounter order, and puts into or appends to a hash map; here the
 * collection is a sequence in that order and the map is a value.
 */
module Util {

  /** The keys the extractor produces for the given values. */
  function Image<K(==), V>(values: seq<V>, key: V -> K): set<K>
  {
    set i | 0 <= i < |values| :: key(values[i])
  }

  /** values[i] is the last value, in encounter order, whose key is k. */
  ghost predicate IsLastWithKey<K, V>(values: seq<V>, key: V -> K, k: K, i: int)
  {
    0 <= i < |values| && key(values[i]) == k &&
    forall j :: i < j < |values| ==> key(values[j]) != k
  }

  /** values[i] is the first value, in encounter order, whose key is k. */
  ghost predicate IsFirstWithKey<K, V>(values: seq<V>, key: V -> K, k: K, i: int)
  {
    0 <= i < |values| && key(values[i]) == k &&
    forall j :: 0 <= j < i ==> key(values[j]) != k
  }

  /** The map `mapBy` builds: one put per value, in encounter order. */
  function MapByFn<K(==), V>(values: seq<V>, key: V -> K): map<K, V>
  {
    if values == [] then map[]
    else
      var last := values[|values| - 1];
      MapByFn(values[..|values| - 1], key)[key(last) := last]
  }

  /** The values whose key is k, in encounter order. */
  function Filter<K(==), V>(values: seq<V>, key: V -> K, k: K): seq<V>
  {
    if values == [] then []
    else
      var last := values[|values| - 1];
      Filter(values[..|values| - 1], key, k) + (if key(last) == k then [last] else [])
  }

  /** The multi-map `addAllToBy` leaves: one append per value, creating a key's list on first use. */
  function AddAllFn<K(==), V>(multiMap: map<K, seq<V>>, values: seq<V>, key: V -> K): map<K, seq<V>>
  {
    if values == [] then multiMap
    else
      var last := values[|values| - 1];
      var m := AddAllFn(multiMap, values[..|values| - 1], key);
      m[key(last) := Get(m, key(last)) + [last]]
  }

  /** The multi-map `multiMapBy` builds: for each key, the values with that key. */
  function MultiMapByFn<K(==), V>(values: seq<V>, key: V -> K): map<K, seq<V>>
  {
    AddAllFn(map[], values, key)
  }

  /** The list a multi-map holds for k, or the empty list when k is absent. */
  function Get<K, V>(m: map<K, seq<V>>, k: K): seq<V>
  {
    if k in m then m[k] else []
  }

  /** The keys of the values in order of first appearance, each once. */
  function DistinctKeys<K(==), V>(values: seq<V>, key: V -> K): seq<K>
  {
    if values == [] then []
    else
      var prefix := DistinctKeys(values[..|values| - 1], key);
      var k := key(values[|values| - 1]);
      if k in prefix then prefix else prefix + [k]
  }

  /** The sum of the lengths of the lists held for the keys ks. */
  function SumLengths<K, V>(m: map<K, seq<V>>, ks: seq<K>): nat
  {
    if ks == [] then 0 else SumLengths(m, ks[..|ks| - 1]) + |Get(m, ks[|ks| - 1])|
  }

  lemma {:induction false} FilterMembers<K, V>(values: seq<V>, key: V -> K, k: K)
    ensures forall x :: x in Filter(values, key, k) ==> x in values && key(x) == k
    ensures forall i :: 0 <= i < |values| && key(values[i]) == k ==> values[i] in Filter(values, key, k)
    ensures |Filter(values, key, k)| <= |values|
  {
    if values != [] {
      var init := values[..|values| - 1];
      FilterMembers(init, key, k);
      forall i | 0 <= i < |values| && key(values[i]) == k
        ensures values[i] in Filter(values, key, k)
      {
        if i < |values| - 1 {
          assert values[i] == init[i];
        }
      }
    }
  }

  /** MapByFn: the key set is the image, and each key holds the last value with that key. */
  lemma {:induction false} MapByFnIsLastValue<K, V>(values: seq<V>, key: V -> K)
    ensures MapByFn(values, key).Keys == Image(values, key)
    ensures forall k :: k in MapByFn(values, key) ==>
      exists i :: IsLastWithKey(values, key, k, i) && MapByFn(values, key)[k] == values[i]
  {
    if values != [] {
      var init := values[..|values| - 1];
      var n := |values| - 1;
      MapByFnIsLastValue(init, key);
      assert Image(values, key) == Image(init, key) + {key(values[n])} by {
        forall k | k in Image(values, key) ensures k in Image(init, key) + {key(values[n])} {
          var i :| 0 <= i < |values| && key(values[i]) == k;
          if i < n { assert init[i] == values[i]; }
        }
        forall k | k in Image(init, key) ensures k in Image(values, key) {
          var i :| 0 <= i < |init| && key(init[i]) == k;
          assert values[i] == init[i];
        }
      }
      var m := MapByFn(values, key);
      forall k | k in m
        ensures exists i :: IsLastWithKey(values, key, k, i) && m[k] == values[i]
      {
        if k == key(values[n]) {
          assert IsLastWithKey(values, key, k, n);
        } else {
          var i :| IsLastWithKey(init, key, k, i) && MapByFn(init, key)[k] == init[i];
          assert values[i] == init[i];
          assert IsLastWithKey(values, key, k, i);
        }
      }
    }
  }

  /** Appending one value extends exactly the list of its own key. */
  lemma {:induction false} FilterAppend<K, V>(values: seq<V>, key: V -> K, v: V, k: K)
    ensures Filter(values + [v], key, k) == Filter(values, key, k) + (if key(v) == k then [v] else [])
  {
    assert (values + [v])[..|values|] == values;
  }

  /** Filter yields nothing exactly for keys outside the image. */
  lemma {:induction false} FilterEmptyIffAbsent<K, V>(values: seq<V>, key: V -> K, k: K)
    ensures Filter(values, key, k) == [] <==> k !in Image(values, key)
  {
    FilterMembers(values, key, k);
    if Filter(values, key, k) != [] {
      var x := Filter(values, key, k)[0];
      assert x in Filter(values, key, k);
      var i :| 0 <= i < |values| && values[i] == x;
      assert key(values[i]) == k;
    }
    if k in Image(values, key) {
      var i :| 0 <= i < |values| && key(values[i]) == k;
      assert values[i] in Filter(values, key, k);
    }
  }

  /** One more value: the image gains its key and only that key's list grows, by that value. */
  lemma {:induction false} PrefixStep<K, V>(values: seq<V>, key: V -> K, n: nat)
    requires n < |values|
    ensures Image(values[..n + 1], key) == Image(values[..n], key) + {key(values[n])}
    ensures forall k :: Filter(values[..n + 1], key, k) == Filter(values[..n], key, k) + (if key(values[n]) == k then [values[n]] else [])
    ensures key(values[n]) !in Image(values[..n], key) ==> Filter(values[..n], key, key(values[n])) == []
  {
    var w := values[..n + 1];
    assert w[..n] == values[..n];
    FilterEmptyIffAbsent(values[..n], key, key(values[n]));
    forall k | k in Image(w, key) ensures k in Image(values[..n], key) + {key(values[n])} {
      var i :| 0 <= i < |w| && key(w[i]) == k;
      if i < n { assert w[i] == values[..n][i]; }
    }
    forall k | k in Image(values[..n], key) ensures k in Image(w, key) {
      var i :| 0 <= i < n && key(values[..n][i]) == k;
      assert w[i] == values[..n][i];
    }
  }

  /** AddAllFn: the keys are the old keys and the image; each list is the old list followed by the new values with that key. */
  lemma {:induction false} AddAllFnSpec<K, V>(multiMap: map<K, seq<V>>, values: seq<V>, key: V -> K)
    ensures AddAllFn(multiMap, values, key).Keys == multiMap.Keys + Image(values, key)
    ensures forall k :: Get(AddAllFn(multiMap, values, key), k) == Get(multiMap, k) + Filter(values, key, k)
  {
    if values != [] {
      var n := |values| - 1;
      AddAllFnSpec(multiMap, values[..n], key);
      PrefixStep(values, key, n);
      assert values[..n + 1] == values;
    }
  }

  /** MultiMapByFn: keys are the image, lists are never empty and hold exactly the values with that key. */
  lemma {:induction false} MultiMapByFnGroups<K, V>(values: seq<V>, key: V -> K)
    ensures MultiMapByFn(values, key).Keys == Image(values, key)
    ensures forall k :: k in MultiMapByFn(values, key) ==>
      MultiMapByFn(values, key)[k] != [] &&
      (forall x :: x in MultiMapByFn(values, key)[k] ==> x in values && key(x) == k) &&
      (forall i :: 0 <= i < |values| && key(values[i]) == k ==> values[i] in MultiMapByFn(values, key)[k])
  {
    AddAllFnSpec(map[], values, key);
    forall k | k in Image(values, key)
      ensures MultiMapByFn(values, key)[k] == Filter(values, key, k)
      ensures Filter(values, key, k) != []
      ensures forall x :: x in Filter(values, key, k) ==> x in values && key(x) == k
      ensures forall i :: 0 <= i < |values| && key(values[i]) == k ==> values[i] in Filter(values, key, k)
    {
      assert Get(MultiMapByFn(values, key), k) == Get(map[], k) + Filter(values, key, k);
      FilterEmptyIffAbsent(values, key, k);
      FilterMembers(values, key, k);
    }
  }

  lemma {:induction false} SumLengthsAgree<K, V>(m1: map<K, seq<V>>, m2: map<K, seq<V>>, ks: seq<K>)
    requires forall i :: 0 <= i < |ks| ==> Get(m1, ks[i]) == Get(m2, ks[i])
    ensures SumLengths(m1, ks) == SumLengths(m2, ks)
  {
    if ks != [] {
      SumLengthsAgree(m1, m2, ks[..|ks| - 1]);
    }
  }

  lemma {:induction false} SumLengthsGrowOne<K, V>(m1: map<K, seq<V>>, m2: map<K, seq<V>>, ks: seq<K>, k: K)
    requires k in ks
    requires forall i, j :: 0 <= i < j < |ks| ==> ks[i] != ks[j]
    requires forall i :: 0 <= i < |ks| && ks[i] != k ==> Get(m1, ks[i]) == Get(m2, ks[i])
    requires |Get(m2, k)| == |Get(m1, k)| + 1
    ensures SumLengths(m2, ks) == SumLengths(m1, ks) + 1
  {
    var n := |ks| - 1;
    var init := ks[..n];
    if ks[n] == k {
      assert k !in init by {
        forall i | 0 <= i < n ensures init[i] != k { assert ks[i] != ks[n]; }
      }
      SumLengthsAgree(m1, m2, init);
    } else {
      assert k in init by {
        var i :| 0 <= i < |ks| && ks[i] == k;
        assert i < n && init[i] == k;
      }
      SumLengthsGrowOne(m1, m2, init, k);
    }
  }

  lemma {:induction false} DistinctKeysSpec<K, V>(values: seq<V>, key: V -> K)
    ensures forall i, j :: 0 <= i < j < |DistinctKeys(values, key)| ==>
      DistinctKeys(values, key)[i] != DistinctKeys(values, key)[j]
    ensures forall k :: k in DistinctKeys(values, key) <==> k in Image(values, key)
  {
    if values != [] {
      var init := values[..|values| - 1];
      DistinctKeysSpec(init, key);
      forall k ensures k in Image(values, key) <==> k in Image(init, key) || k == key(values[|values| - 1]) {
        if k in Image(values, key) {
          var i :| 0 <= i < |values| && key(values[i]) == k;
          if i < |values| - 1 { assert init[i] == values[i]; }
        }
        if k in Image(init, key) {
          var i :| 0 <= i < |init| && key(init[i]) == k;
          assert values[i] == init[i];
        }
      }
    }
  }

  /** The list lengths of `multiMapBy`, summed over its keys (each once), equal the number of values. */
  lemma {:induction false} MultiMapByFnSizes<K, V>(values: seq<V>, key: V -> K)
    ensures SumLengths(MultiMapByFn(values, key), DistinctKeys(values, key)) == |values|
  {
    if values != [] {
      var n := |values| - 1;
      var init := values[..n];
      var v := values[n];
      MultiMapByFnSizes(init, key);
      DistinctKeysSpec(init, key);
      var m1 := MultiMapByFn(init, key);
      var m2 := MultiMapByFn(values, key);
      var ks := DistinctKeys(init, key);
      assert Get(m2, key(v)) == Get(m1, key(v)) + [v];
      assert forall k :: k != key(v) ==> Get(m2, k) == Get(m1, k);
      if key(v) in ks {
        SumLengthsGrowOne(m1, m2, ks, key(v));
      } else {
        AddAllFnSpec(map[], init, key);
        assert Get(m1, key(v)) == [];
        SumLengthsAgree(m1, m2, ks);
        assert DistinctKeys(values, key) == ks + [key(v)];
        assert (ks + [key(v)])[..|ks|] == ks;
      }
    }
  }

  /** Filtering a list without repeats gives a list without repeats. */
  lemma {:induction false} FilterDistinct<K, V>(values: seq<V>, key: V -> K, k: K)
    requires forall i, j :: 0 <= i < j < |values| ==> values[i] != values[j]
    ensures var r := Filter(values, key, k); forall i, j :: 0 <= i < j < |r| ==> r[i] != r[j]
  {
    if values != [] {
      var n := |values| - 1;
      FilterDistinct(values[..n], key, k);
      FilterMembers(values[..n], key, k);
      assert values[n] !in values[..n];
    }
  }

  /** `mapBy`: one put per value in encounter order, so the last value with a key wins. */
  method MapBy<K(==), V>(values: seq<V>, key: V -> K) returns (m: map<K, V>)
    ensures m == MapByFn(values, key)
    ensures m.Keys == Image(values, key)
    ensures forall k :: k in m ==> exists i :: IsLastWithKey(values, key, k, i) && m[k] == values[i]
  {
    m := map[];
    for i := 0 to |values|
      invariant m == MapByFn(values[..i], key)
    {
      assert values[..i + 1][..i] == values[..i];
      m := m[key(values[i]) := values[i]];
    }
    assert values[..|values|] == values;
    MapByFnIsLastValue(values, key);
  }

  /** `multiMapBy`: each key's list gains its values in encounter order, created on first use. */
  method MultiMapBy<K(==), V>(values: seq<V>, key: V -> K) returns (m: map<K, seq<V>>)
    ensures m == MultiMapByFn(values, key)
    ensures m.Keys == Image(values, key)
    ensures forall k :: k in m ==> m[k] == Filter(values, key, k) && m[k] != []
  {
    m := map[];
    for i := 0 to |values|
      invariant m == MultiMapByFn(values[..i], key)
    {
      var v := values[i];
      var k := key(v);
      assert values[..i + 1][..i] == values[..i];
      if k !in m {
        m := m[k := []];
      }
      m := m[k := m[k] + [v]];
    }
    assert values[..|values|] == values;
    MultiMapByFnGroups(values, key);
    AddAllFnSpec(map[], values, key);
    forall k | k in m ensures m[k] == Filter(values, key, k) {
      assert Get(m, k) == Get(map[], k) + Filter(values, key, k);
    }
  }

  /**
   * `putAllBy`: puts each value into an existing map under its key. Keys outside
   * the image keep their old entry; keys in the image hold the last value with that key.
   */
  method PutAllBy<K(==), V>(kvMap: map<K, V>, values: seq<V>, key: V -> K) returns (r: map<K, V>)
    ensures r == kvMap + MapByFn(values, key)
    ensures r.Keys == kvMap.Keys + Image(values, key)
    ensures forall k :: k in kvMap && k !in Image(values, key) ==> r[k] == kvMap[k]
    ensures forall k :: k in Image(values, key) ==>
      exists i :: IsLastWithKey(values, key, k, i) && r[k] == values[i]
  {
    r := kvMap;
    for i := 0 to |values|
      invariant r == kvMap + MapByFn(values[..i], key)
    {
      assert values[..i + 1][..i] == values[..i];
      r := r[key(values[i]) := values[i]];
    }
    assert values[..|values|] == values;
    MapByFnIsLastValue(values, key);
  }

  /**
   * `addAllToBy`: appends each value to its key's list of an existing multi-map.
   * Every list keeps its old contents as a prefix and gains the new values with
   * that key in order; keys outside the image are untouched.
   */
  method AddAllToBy<K(==), V>(multiMap: map<K, seq<V>>, values: seq<V>, key: V -> K) returns (r: map<K, seq<V>>)
    ensures r == AddAllFn(multiMap, values, key)
    ensures r.Keys == multiMap.Keys + Image(values, key)
    ensures forall k :: k in r ==> r[k] == Get(multiMap, k) + Filter(values, key, k)
    ensures forall k :: k in multiMap && k !in Image(values, key) ==> r[k] == multiMap[k]
  {
    r := multiMap;
    for i := 0 to |values|
      invariant r == AddAllFn(multiMap, values[..i], key)
    {
      var v := values[i];
      var k := key(v);
      assert values[..i + 1][..i] == values[..i];
      if k !in r {
        r := r[k := []];
      }
      r := r[k := r[k] + [v]];
    }
    assert values[..|values|] == values;
    AddAllFnSpec(multiMap, values, key);
    forall k | k in r ensures r[k] == Get(multiMap, k) + Filter(values, key, k) {
      assert Get(r, k) == r[k];
    }
    forall k | k in multiMap && k !in Image(values, key) ensures r[k] == multiMap[k] {
      FilterEmptyIffAbsent(values, key, k);
    }
  }

  /**
   * `new ArrayList<>(set)` / `list.addAll(set)`: the elements of a hash set,
   * each once, in the set's unspecified iteration order.
   */
  method SetToSeq<T>(s: set<T>) returns (r: seq<T>)
    ensures multiset(r) == multiset(s)
    ensures forall x :: x in r <==> x in s
    ensures |r| == |s|
    ensures forall i, j :: 0 <= i < j < |r| ==> r[i] != r[j]
  {
    r := [];
    var remaining := s;
    while remaining != {}
      invariant remaining <= s
      invariant multiset(r) + multiset(remaining) == multiset(s)
      invariant forall i :: 0 <= i < |r| ==> r[i] !in remaining
      invariant forall i, j :: 0 <= i < j < |r| ==> r[i] != r[j]
      decreases |remaining|
    {
      var x :| x in remaining;
      r := r + [x];
      remaining := remaining - {x};
    }
    assert multiset(r) == multiset(s);
    forall x ensures x in r <==> x in s {
      assert x in r <==> x in multiset(r);
    }
    assert |r| == |multiset(r)| == |multiset(s)| == |s|;
  }
}
