/** Python's insertion-ordered `dict`, as a sequence of key/value pairs.
    The order is what iteration, `str()` and `as_dict` show; `ToMap` is
    what `==` on dicts compares. */
module Dicts {
  import opened Wrappers

  type Dict<K, V> = seq<(K, V)>

  /** The keys in iteration order. */
  function Keys<K, V>(d: Dict<K, V>): (ks: seq<K>)
    ensures |ks| == |d|
    ensures forall i :: 0 <= i < |d| ==> ks[i] == d[i].0
  {
    if d == [] then [] else [d[0].0] + Keys(d[1..])
  }

  predicate HasKey<K(==, !new), V>(d: Dict<K, V>, k: K) {
    k in Keys(d)
  }

  /** What every real dict satisfies: no key twice. */
  predicate UniqueKeys<K(==, !new), V>(d: Dict<K, V>) {
    forall i, j :: 0 <= i < j < |d| ==> d[i].0 != d[j].0
  }

  /** `d.get(k)`. */
  function Get<K(==, !new), V>(d: Dict<K, V>, k: K): (r: Option<V>)
    ensures r.Some? <==> HasKey(d, k)
    ensures r.Some? ==> (k, r.value) in d
  {
    if d == [] then None else if d[0].0 == k then Some(d[0].1) else Get(d[1..], k)
  }

  /** `d[k] = v`: a key already present keeps its place and takes the new
      value; a new key goes at the end. */
  function Put<K(==, !new), V>(d: Dict<K, V>, k: K, v: V): (r: Dict<K, V>)
    ensures Get(r, k) == Some(v)
    ensures forall k' :: k' != k ==> Get(r, k') == Get(d, k')
    ensures |r| <= |d| + 1
  {
    if d == [] then [(k, v)]
    else if d[0].0 == k then [(k, v)] + d[1..]
    else [d[0]] + Put(d[1..], k, v)
  }

  /** `d.update(e)`: the pairs of `e` put one after the other. */
  function Update<K(==, !new), V>(d: Dict<K, V>, e: seq<(K, V)>): (r: Dict<K, V>)
    ensures |r| <= |d| + |e|
    decreases |e|
  {
    if e == [] then d else Update(Put(d, e[0].0, e[0].1), e[1..])
  }

  /** `dict(pairs)`: a later pair with a repeated key overwrites the value
      but the key keeps the place of its first pair. */
  function FromPairs<K(==, !new), V>(e: seq<(K, V)>): Dict<K, V> {
    Update([], e)
  }

  /** The mapping a dict stands for. */
  function ToMap<K(==, !new), V>(d: Dict<K, V>): (m: map<K, V>)
    ensures forall k :: (k in m <==> HasKey(d, k))
    ensures forall k :: k in m ==> Get(d, k) == Some(m[k])
  {
    if d == [] then map[] else ToMap(d[1..])[d[0].0 := d[0].1]
  }

  lemma {:induction false} PutUnique<K(!new), V>(d: Dict<K, V>, k: K, v: V)
    requires UniqueKeys(d)
    ensures UniqueKeys(Put(d, k, v))
  {
    if HasKey(d, k) {
      var r := Put(d, k, v);
      PutKeys(d, k, v);
      forall i, j | 0 <= i < j < |r| ensures r[i].0 != r[j].0 {
        assert r[i].0 == Keys(r)[i] == Keys(d)[i] == d[i].0;
        assert r[j].0 == Keys(r)[j] == Keys(d)[j] == d[j].0;
      }
    } else {
      PutAppends(d, k, v);
      forall i | 0 <= i < |d| ensures d[i].0 != k {
        assert Keys(d)[i] == d[i].0;
      }
    }
  }

  lemma {:induction false} PutTwice<K(!new), V>(d: Dict<K, V>, k: K, v1: V, v2: V)
    ensures Put(Put(d, k, v1), k, v2) == Put(d, k, v2)
  {
    if d != [] && d[0].0 != k {
      var r := Put(d[1..], k, v1);
      assert ([d[0]] + r)[1..] == r;
      PutTwice(d[1..], k, v1, v2);
    }
  }

  /** Two dicts that agree on every lookup stand for the same mapping. */
  lemma SameMap<K(!new), V>(d1: Dict<K, V>, d2: Dict<K, V>)
    requires forall k :: Get(d1, k) == Get(d2, k)
    ensures ToMap(d1) == ToMap(d2)
  {
    var m1, m2 := ToMap(d1), ToMap(d2);
    assert forall k :: k in m1 <==> k in m2;
    forall k | k in m1 ensures m1[k] == m2[k] {
      assert Get(d1, k) == Some(m1[k]) && Get(d2, k) == Some(m2[k]);
    }
  }

  lemma ToMapPut<K(!new), V>(d: Dict<K, V>, k: K, v: V)
    ensures ToMap(Put(d, k, v)) == ToMap(d)[k := v]
  {
    var m, m' := ToMap(d)[k := v], ToMap(Put(d, k, v));
    forall k' | k' in m ensures k' in m' && m'[k'] == m[k'] {
      assert Get(Put(d, k, v), k') == Some(m'[k']);
    }
  }

  /** Updating a dict with pairs whose keys are distinct: a key of `e`
      takes its value from `e`, any other key keeps its value in `d`. */
  lemma {:induction false} UpdateGet<K(!new), V>(d: Dict<K, V>, e: seq<(K, V)>, k: K)
    requires UniqueKeys(e)
    ensures Get(Update(d, e), k) == if HasKey(e, k) then Get(e, k) else Get(d, k)
    decreases |e|
  {
    if e != [] {
      var e' := e[1..];
      assert UniqueKeys(e');
      UpdateGet(Put(d, e[0].0, e[0].1), e', k);
      assert Keys(e) == [e[0].0] + Keys(e');
      if k == e[0].0 {
        forall i | 0 <= i < |e'| ensures Keys(e')[i] != k {
          assert e'[i] == e[i + 1];
        }
      }
    }
  }

  /** Putting pairs with fresh keys appends them in order. */
  lemma {:induction false} UpdateFresh<K(!new), V>(d: Dict<K, V>, e: seq<(K, V)>)
    requires UniqueKeys(d + e)
    ensures Update(d, e) == d + e
    decreases |e|
  {
    if e != [] {
      var k, v := e[0].0, e[0].1;
      FreshKey(d, e);
      PutAppends(d, k, v);
      var d' := d + [(k, v)];
      assert e[0] == (k, v);
      MoveFirst(d, e);
      UpdateFresh(d', e[1..]);
    }
  }

  lemma MoveFirst<T>(d: seq<T>, e: seq<T>)
    requires e != []
    ensures (d + [e[0]]) + e[1..] == d + e
  {
  }

  /** Where `d[k] = v` puts the pair: in the place of the old one, ... */
  lemma {:induction false} PutKeys<K(!new), V>(d: Dict<K, V>, k: K, v: V)
    requires HasKey(d, k)
    ensures Keys(Put(d, k, v)) == Keys(d)
  {
    if d[0].0 != k {
      assert Keys(d) == [d[0].0] + Keys(d[1..]);
      PutKeys(d[1..], k, v);
      assert Keys(Put(d, k, v)) == [d[0].0] + Keys(Put(d[1..], k, v));
    } else {
      assert Keys(Put(d, k, v)) == [k] + Keys(d[1..]);
      assert Keys(d) == [k] + Keys(d[1..]);
    }
  }

  /** ... or at the end. */
  lemma {:induction false} PutAppends<K(!new), V>(d: Dict<K, V>, k: K, v: V)
    requires !HasKey(d, k)
    ensures Put(d, k, v) == d + [(k, v)]
  {
    if d != [] {
      assert Keys(d) == [d[0].0] + Keys(d[1..]);
      PutAppends(d[1..], k, v);
      ConsSnoc(d, (k, v));
    }
  }

  /** Keys that are distinct names make a dict without repeated keys. */
  lemma DistinctKeys<K(!new), V>(d: Dict<K, V>, names: seq<K>)
    requires Keys(d) == names
    requires forall i, j :: 0 <= i < j < |names| ==> names[i] != names[j]
    ensures UniqueKeys(d)
  {
    forall i, j | 0 <= i < j < |d| ensures d[i].0 != d[j].0 {
      assert Keys(d)[i] == d[i].0 && Keys(d)[j] == d[j].0;
    }
  }

  lemma ConsSnoc<T>(d: seq<T>, x: T)
    requires d != []
    ensures [d[0]] + (d[1..] + [x]) == d + [x]
  {
    assert d == [d[0]] + d[1..];
  }

  lemma FreshKey<K(!new), V>(d: Dict<K, V>, e: seq<(K, V)>)
    requires UniqueKeys(d + e) && e != []
    ensures !HasKey(d, e[0].0)
  {
    forall i | 0 <= i < |d| ensures Keys(d)[i] != e[0].0 {
      assert (d + e)[i] == d[i] && (d + e)[|d|] == e[0];
    }
  }

  /** `dict(pairs)` keeps the pairs as they are when no key repeats. */
  lemma FromDistinctPairs<K(!new), V>(e: seq<(K, V)>)
    requires UniqueKeys(e)
    ensures FromPairs(e) == e
  {
    assert [] + e == e;
    UpdateFresh([], e);
  }

  lemma {:induction false} UpdateUnique<K(!new), V>(d: Dict<K, V>, e: seq<(K, V)>)
    requires UniqueKeys(d)
    ensures UniqueKeys(Update(d, e))
    decreases |e|
  {
    if e != [] {
      PutUnique(d, e[0].0, e[0].1);
      UpdateUnique(Put(d, e[0].0, e[0].1), e[1..]);
    }
  }

  /** A key is in `d.update(e)` exactly when it is in `d` or in `e`. */
  lemma {:induction false} UpdateHasKey<K(!new), V>(d: Dict<K, V>, e: seq<(K, V)>, k: K)
    ensures HasKey(Update(d, e), k) <==> HasKey(d, k) || HasKey(e, k)
    decreases |e|
  {
    if e != [] {
      UpdateHasKey(Put(d, e[0].0, e[0].1), e[1..], k);
      assert Keys(e) == [e[0].0] + Keys(e[1..]);
      PutHasKey(d, e[0].0, e[0].1, k);
    }
  }

  lemma PutHasKey<K(!new), V>(d: Dict<K, V>, k: K, v: V, k': K)
    ensures HasKey(Put(d, k, v), k') <==> HasKey(d, k') || k' == k
  {
    var r := Put(d, k, v);
    if k' == k {
      assert Get(r, k).Some?;
    } else {
      assert Get(r, k') == Get(d, k');
    }
  }

  /** In a dict without repeated keys, each pair is what lookup finds. */
  lemma GetAt<K(!new), V>(d: Dict<K, V>, i: nat)
    requires UniqueKeys(d) && i < |d|
    ensures Get(d, d[i].0) == Some(d[i].1)
  {
    if i > 0 {
      assert d[0].0 != d[i].0;
      assert UniqueKeys(d[1..]);
      assert d[1..][i - 1] == d[i];
      GetAt(d[1..], i - 1);
    }
  }
}
