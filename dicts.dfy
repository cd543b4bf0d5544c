/** Python dictionaries as key-unique sequences of pairs in insertion order.
    `FromPairs` is `dict(items)`: a repeated key keeps the position of its first
    occurrence and takes the value of its last. */
module Dicts {

  /** The keys of a sequence of pairs, in order. */
  function Keys<K, V>(items: seq<(K, V)>): (ks: seq<K>)
    ensures |ks| == |items|
    ensures forall i :: 0 <= i < |items| ==> ks[i] == items[i].0
  {
    seq(|items|, i requires 0 <= i < |items| => items[i].0)
  }

  /** The keys of a pair put in front of `rest`. */
  lemma KeysCons<K, V>(p: (K, V), rest: seq<(K, V)>)
    ensures Keys([p] + rest) == [p.0] + Keys(rest)
  {
    var l, r := Keys([p] + rest), [p.0] + Keys(rest);
    forall i | 0 <= i < |l|
      ensures l[i] == r[i]
    {
      if i > 0 {
        assert ([p] + rest)[i] == rest[i - 1];
      }
    }
  }

  /** The keys of a suffix, split at its first pair. */
  lemma KeysSuffix<K, V>(items: seq<(K, V)>, i: nat)
    requires i < |items|
    ensures Keys(items[i..]) == [items[i].0] + Keys(items[i + 1..])
  {
    assert items[i..] == [items[i]] + items[i + 1..];
    KeysCons(items[i], items[i + 1..]);
  }

  /** No key occurs twice: the shape of every Python dict. */
  predicate UniqueKeys<K(==), V>(items: seq<(K, V)>) {
    forall i, j :: 0 <= i < j < |items| ==> items[i].0 != items[j].0
  }

  /** The value of the last pair whose key is `k`: what `dict(items)[k]` is. */
  function LastValue<K(==), V>(items: seq<(K, V)>, k: K): V
    requires k in Keys(items)
  {
    var n := |items| - 1;
    if items[n].0 == k then items[n].1
    else
      assert k in Keys(items[..n]) by {
        var i :| 0 <= i < |items| && Keys(items)[i] == k;
        assert i < n && Keys(items[..n])[i] == k;
      }
      LastValue(items[..n], k)
  }

  /** The elements of `ks` in the order of their first occurrence. */
  function Distinct<K(==)>(ks: seq<K>): seq<K> {
    if ks == [] then []
    else
      var d := Distinct(ks[..|ks| - 1]);
      if ks[|ks| - 1] in d then d else d + [ks[|ks| - 1]]
  }

  /** `d[k] = v` on a dict: overwrite in place if the key is there, else append. */
  function Insert<K(==), V>(d: seq<(K, V)>, k: K, v: V): (r: seq<(K, V)>)
    requires UniqueKeys(d)
    ensures Keys(r) == if k in Keys(d) then Keys(d) else Keys(d) + [k]
    ensures UniqueKeys(r)
    ensures k in Keys(r) && LastValue(r, k) == v
    ensures forall j :: j in Keys(d) && j != k ==> LastValue(r, j) == LastValue(d, j)
  {
    if k in Keys(d) then Replace(d, k, v)
    else
      var r := d + [(k, v)];
      assert r[..|d|] == d;
      r
  }

  /** Overwrite the value of a key that is present, keeping its position. */
  function Replace<K(==), V>(d: seq<(K, V)>, k: K, v: V): (r: seq<(K, V)>)
    requires UniqueKeys(d) && k in Keys(d)
    ensures Keys(r) == Keys(d)
    ensures UniqueKeys(r)
    ensures LastValue(r, k) == v
    ensures forall j :: j in Keys(d) && j != k ==> LastValue(r, j) == LastValue(d, j)
  {
    var n := |d| - 1;
    assert d == d[..n] + [d[n]];
    assert Keys(d) == Keys(d[..n]) + [d[n].0];
    if d[n].0 == k then
      d[..n] + [(k, v)]
    else
      assert k in Keys(d[..n]);
      var r := Replace(d[..n], k, v) + [d[n]];
      assert r[..n] == Replace(d[..n], k, v);
      r
  }

  /** Python's `dict(items)`: insert the pairs left to right. */
  function FromPairs<K(==), V>(items: seq<(K, V)>): (r: seq<(K, V)>)
    ensures UniqueKeys(r)
  {
    if items == [] then []
    else
      var n := |items| - 1;
      Insert(FromPairs(items[..n]), items[n].0, items[n].1)
  }

  /** Uniqueness depends on the keys alone. */
  lemma SameKeysUnique<K, V, W>(a: seq<(K, V)>, b: seq<(K, W)>)
    requires Keys(a) == Keys(b)
    ensures UniqueKeys(a) ==> UniqueKeys(b)
  {
    if UniqueKeys(a) {
      forall i, j | 0 <= i < j < |b| ensures b[i].0 != b[j].0 {
        assert Keys(a)[i] == b[i].0 && Keys(a)[j] == b[j].0;
      }
    }
  }

  /** The keys of `dict(items)` are the distinct keys of `items`, in order of
      first occurrence. */
  lemma {:induction false} FromPairsKeys<K, V>(items: seq<(K, V)>)
    ensures Keys(FromPairs(items)) == Distinct(Keys(items))
  {
    if items != [] {
      var n := |items| - 1;
      FromPairsKeys(items[..n]);
      assert Keys(items)[..n] == Keys(items[..n]);
    }
  }

  /** Each key of `dict(items)` carries the last value given for it. */
  lemma {:induction false} FromPairsValues<K, V>(items: seq<(K, V)>, k: K)
    requires k in Keys(items)
    ensures k in Keys(FromPairs(items))
    ensures LastValue(FromPairs(items), k) == LastValue(items, k)
  {
    var n := |items| - 1;
    if items[n].0 != k {
      assert k in Keys(items[..n]) by {
        var i :| 0 <= i < |items| && Keys(items)[i] == k;
        assert i < n && Keys(items[..n])[i] == k;
      }
      FromPairsValues(items[..n], k);
    }
  }

  /** A key is in `dict(items)` exactly when it is given in `items`. */
  lemma FromPairsHasKey<K, V>(items: seq<(K, V)>, k: K)
    ensures k in Keys(FromPairs(items)) <==> k in Keys(items)
  {
    FromPairsKeys(items);
    DistinctMembers(Keys(items), k);
  }

  /** `Distinct` keeps every element and adds none. */
  lemma {:induction false} DistinctMembers<K>(ks: seq<K>, k: K)
    ensures k in Distinct(ks) <==> k in ks
  {
    if ks != [] {
      var n := |ks| - 1;
      DistinctMembers(ks[..n], k);
      assert ks == ks[..n] + [ks[n]];
    }
  }

  /** A literal whose keys are already unique is kept exactly as written. */
  lemma {:induction false} FromPairsOfUnique<K, V>(items: seq<(K, V)>)
    requires UniqueKeys(items)
    ensures FromPairs(items) == items
  {
    if items != [] {
      var n := |items| - 1;
      assert UniqueKeys(items[..n]);
      FromPairsOfUnique(items[..n]);
      assert items[n].0 !in Keys(items[..n]);
      assert items == items[..n] + [items[n]];
    }
  }

  /** The values of a sequence of pairs, in order. */
  function Values<K, V>(items: seq<(K, V)>): (vs: seq<V>)
    ensures |vs| == |items|
    ensures forall i :: 0 <= i < |items| ==> vs[i] == items[i].1
  {
    seq(|items|, i requires 0 <= i < |items| => items[i].1)
  }

  /** Overwriting a key brings in no value but the new one. */
  lemma {:induction false} ReplaceValues<K, V>(d: seq<(K, V)>, k: K, v: V)
    requires UniqueKeys(d) && k in Keys(d)
    ensures forall j :: 0 <= j < |Replace(d, k, v)| ==>
      Replace(d, k, v)[j].1 == v || Replace(d, k, v)[j].1 in Values(d)
  {
    var n := |d| - 1;
    var r := Replace(d, k, v);
    assert |r| == |Keys(r)| == |d|;
    assert d == d[..n] + [d[n]];
    assert Keys(d) == Keys(d[..n]) + [d[n].0];
    if d[n].0 != k {
      assert k in Keys(d[..n]);
      ReplaceValues(d[..n], k, v);
      var r0 := Replace(d[..n], k, v);
      assert r == r0 + [d[n]];
      forall j | 0 <= j < |r|
        ensures r[j].1 == v || r[j].1 in Values(d)
      {
        if j == n {
          assert Values(d)[n] == r[j].1;
        } else if r0[j].1 != v {
          var i :| 0 <= i < |d[..n]| && Values(d[..n])[i] == r0[j].1;
          assert Values(d)[i] == r[j].1;
        }
      }
    } else {
      forall j | 0 <= j < |r|
        ensures r[j].1 == v || r[j].1 in Values(d)
      {
        if j < n {
          assert Values(d)[j] == r[j].1;
        }
      }
    }
  }

  /** Every value of `dict(items)` is a value given in `items`. */
  lemma {:induction false} FromPairsValuesGiven<K, V>(items: seq<(K, V)>)
    ensures forall j :: 0 <= j < |FromPairs(items)| ==> FromPairs(items)[j].1 in Values(items)
  {
    if items != [] {
      var n := |items| - 1;
      var d := FromPairs(items[..n]);
      FromPairsValuesGiven(items[..n]);
      var r := FromPairs(items);
      assert Values(items)[n] == items[n].1;
      if items[n].0 in Keys(d) {
        ReplaceValues(d, items[n].0, items[n].1);
      }
      forall j | 0 <= j < |r|
        ensures r[j].1 in Values(items)
      {
        if r[j].1 != items[n].1 {
          assert r[j].1 in Values(d);
          var i :| 0 <= i < |d| && Values(d)[i] == r[j].1;
          var i' :| 0 <= i' < n && Values(items[..n])[i'] == d[i].1;
          assert Values(items)[i'] == r[j].1;
        }
      }
    }
  }
}
