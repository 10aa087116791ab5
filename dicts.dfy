/** Python's dict: a map from keys to values that remembers the order in
    which keys were first inserted.  Assigning to an existing key keeps its
    position; a new key goes to the end. */
module Dicts {

  datatype Dict<K, V> = Dict(keys: seq<K>, values: map<K, V>)

  /** The keys are distinct and are exactly the keys of the map. */
  predicate Valid<K, V>(d: Dict<K, V>)
  {
    && (forall p, q :: 0 <= p < q < |d.keys| ==> d.keys[p] != d.keys[q])
    && d.values.Keys == set k | k in d.keys
  }

  function Empty<K, V>(): (d: Dict<K, V>)
    ensures Valid(d) && |d.keys| == 0
  {
    Dict([], map[])
  }

  /** `d[k] = v`. */
  function Put<K, V>(d: Dict<K, V>, k: K, v: V): (r: Dict<K, V>)
    ensures Valid(d) ==> Valid(r)
    ensures r.values == d.values[k := v]
    ensures k in d.values ==> r.keys == d.keys
    ensures k !in d.values ==> r.keys == d.keys + [k]
  {
    if k in d.values then Dict(d.keys, d.values[k := v])
    else Dict(d.keys + [k], d.values[k := v])
  }

  /** `d.get(k, default)`. */
  function Get<K, V>(d: Dict<K, V>, k: K, default: V): V
  {
    if k in d.values then d.values[k] else default
  }

  /** `d.items()`, in insertion order. */
  function Items<K, V>(d: Dict<K, V>): (r: seq<(K, V)>)
    requires Valid(d)
    ensures |r| == |d.keys|
    ensures forall p :: 0 <= p < |r| ==> r[p].0 == d.keys[p] && r[p].1 == d.values[d.keys[p]]
  {
    seq(|d.keys|, p requires 0 <= p < |d.keys| => (d.keys[p], d.values[d.keys[p]]))
  }

  /** The keys of a list of pairs, in order. */
  function KeysOf<K, V>(pairs: seq<(K, V)>): (r: seq<K>)
    ensures |r| == |pairs| && forall p :: 0 <= p < |pairs| ==> r[p] == pairs[p].0
  {
    seq(|pairs|, p requires 0 <= p < |pairs| => pairs[p].0)
  }

  /** `dict(pairs)`: the pairs stored one after the other, so a later pair
      overwrites an earlier one with the same key. */
  function DictOf<K, V>(pairs: seq<(K, V)>): (d: Dict<K, V>)
    ensures Valid(d)
  {
    if |pairs| == 0 then Empty()
    else
      var last := pairs[|pairs| - 1];
      Put(DictOf(pairs[..|pairs| - 1]), last.0, last.1)
  }

  /** A key is in dict(pairs) iff some pair carries it, and its value is
      the one of the last such pair. */
  lemma {:induction false} DictOfLast<K, V>(pairs: seq<(K, V)>, k: K, p: int)
    requires 0 <= p < |pairs| && pairs[p].0 == k
    requires forall q :: p < q < |pairs| ==> pairs[q].0 != k
    ensures k in DictOf(pairs).values && DictOf(pairs).values[k] == pairs[p].1
  {
    var init := pairs[..|pairs| - 1];
    if p < |pairs| - 1 {
      DictOfLast(init, k, p);
    }
  }

  lemma {:induction false} DictOfKeys<K, V>(pairs: seq<(K, V)>, k: K)
    ensures k in DictOf(pairs).values <==> k in KeysOf(pairs)
  {
    if |pairs| > 0 {
      var init := pairs[..|pairs| - 1];
      DictOfKeys(init, k);
      assert KeysOf(pairs) == KeysOf(init) + [pairs[|pairs| - 1].0];
    }
  }

  /** With distinct keys, dict(pairs) keeps the pairs' order and values. */
  lemma {:induction false} DictOfDistinct<K, V>(pairs: seq<(K, V)>)
    requires forall p, q :: 0 <= p < q < |pairs| ==> pairs[p].0 != pairs[q].0
    ensures DictOf(pairs).keys == KeysOf(pairs)
    ensures forall p :: 0 <= p < |pairs| ==> DictOf(pairs).values[pairs[p].0] == pairs[p].1
  {
    if |pairs| > 0 {
      var init := pairs[..|pairs| - 1];
      var last := pairs[|pairs| - 1];
      DictOfDistinct(init);
      DictOfKeys(init, last.0);
      assert last.0 !in KeysOf(init);
      assert KeysOf(pairs) == KeysOf(init) + [last.0];
      forall p | 0 <= p < |pairs| ensures DictOf(pairs).values[pairs[p].0] == pairs[p].1 {
        DictOfLast(pairs, pairs[p].0, p);
      }
    }
  }

  /** A dict rebuilt from its own items is the same dict. */
  lemma ItemsDictOf<K, V>(d: Dict<K, V>)
    requires Valid(d)
    ensures DictOf(Items(d)) == d
  {
    var items := Items(d);
    DictOfDistinct(items);
    assert KeysOf(items) == d.keys;
    forall k | k in d.values ensures DictOf(items).values[k] == d.values[k] {
      var p :| 0 <= p < |d.keys| && d.keys[p] == k;
      assert items[p].0 == k;
    }
  }

  /** An element occurs at most once in a sequence without repetitions. */
  lemma {:induction false} CountAtMostOne<T>(s: seq<T>, x: T)
    requires forall p, q :: 0 <= p < q < |s| ==> s[p] != s[q]
    ensures multiset(s)[x] <= 1
  {
    if |s| > 0 {
      var init := s[..|s| - 1];
      assert s == init + [s[|s| - 1]];
      CountAtMostOne(init, x);
      if s[|s| - 1] == x {
        assert x !in init by {
          forall p | 0 <= p < |init| ensures init[p] != x {
            assert init[p] == s[p];
          }
        }
      }
    }
  }

  /** An element at two positions occurs at least twice. */
  lemma CountTwo<T>(s: seq<T>, p: int, q: int)
    requires 0 <= p < q < |s| && s[p] == s[q]
    ensures multiset(s)[s[p]] >= 2
  {
    assert s == s[..q] + s[q..];
    assert s[p] in s[..q] && s[q] in s[q..];
  }

  /** Any reordering of d.items() (a sorted copy, say) still pairs every
      key of d, once, with its value. */
  lemma PermutedItems<K, V>(d: Dict<K, V>, r: seq<(K, V)>)
    requires Valid(d) && multiset(r) == multiset(Items(d))
    ensures |r| == |d.keys|
    ensures forall p :: 0 <= p < |r| ==> r[p].0 in d.values && r[p].1 == d.values[r[p].0]
    ensures forall p, q :: 0 <= p < q < |r| ==> r[p].0 != r[q].0
    ensures forall k :: k in d.values ==> k in KeysOf(r)
  {
    var items := Items(d);
    assert |r| == |multiset(r)| == |items|;
    forall p | 0 <= p < |r| ensures r[p].0 in d.values && r[p].1 == d.values[r[p].0] {
      assert r[p] in multiset(items);
    }
    forall p, q | 0 <= p < q < |r| ensures r[p].0 != r[q].0 {
      if r[p].0 == r[q].0 {
        assert r[p] == r[q];
        CountTwo(r, p, q);
        CountAtMostOne(items, r[p]);
        assert false;
      }
    }
    forall k | k in d.values ensures k in KeysOf(r) {
      var a :| 0 <= a < |d.keys| && d.keys[a] == k;
      assert items[a] in multiset(r);
      var p :| 0 <= p < |r| && r[p] == items[a];
      assert KeysOf(r)[p] == k;
    }
  }

  /** A sequence without repetitions has as many elements as its set. */
  lemma {:induction false} DistinctCard<T>(s: seq<T>)
    requires forall p, q :: 0 <= p < q < |s| ==> s[p] != s[q]
    ensures |set x | x in s| == |s|
  {
    if |s| > 0 {
      var init := s[..|s| - 1];
      DistinctCard(init);
      assert s == init + [s[|s| - 1]];
      assert s[|s| - 1] !in init;
      assert (set x | x in s) == (set x | x in init) + {s[|s| - 1]};
    }
  }

  /** `len(d)`: the number of keys. */
  lemma KeysCard<K, V>(d: Dict<K, V>)
    requires Valid(d)
    ensures |d.values.Keys| == |d.keys|
  {
    DistinctCard(d.keys);
  }
}
