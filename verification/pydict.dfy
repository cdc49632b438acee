/**
 This module models the part of a Python `dict` that the watcher relies on:
 entries kept in insertion order, each key at most once. Assigning to a key
 that is present keeps its position; assigning to a new key appends it;
 deleting a key removes its entry and keeps the order of the rest.
 The contents of a dict, forgetting the order, are given by `ToMap`.
 */
module PyDict {

  type Dict<K, V> = seq<(K, V)>

  /** No element occurs twice in `s`. */
  predicate Distinct<T(==)>(s: seq<T>) {
    forall i, j :: 0 <= i < j < |s| ==> s[i] != s[j]
  }

  /** The keys of `d`, in iteration order. */
  function Keys<K, V>(d: Dict<K, V>): (ks: seq<K>)
    ensures |ks| == |d|
    ensures forall i :: 0 <= i < |d| ==> ks[i] == d[i].0
  {
    if d == [] then [] else [d[0].0] + Keys(d[1..])
  }

  /** The keys of `d`, as a set. */
  function KeySet<K, V>(d: Dict<K, V>): set<K>
  {
    if d == [] then {} else {d[0].0} + KeySet(d[1..])
  }

  /** A dict never holds two entries for the same key. */
  predicate Valid<K(==), V>(d: Dict<K, V>) {
    d == [] || (d[0].0 !in KeySet(d[1..]) && Valid(d[1..]))
  }

  /** The key/value association held by `d`. */
  function ToMap<K(!new), V>(d: Dict<K, V>): (m: map<K, V>)
    ensures m.Keys == KeySet(d)
  {
    if d == [] then map[] else ToMap(d[1..])[d[0].0 := d[0].1]
  }

  lemma KeysCons<K, V>(x: (K, V), rest: Dict<K, V>)
    ensures Keys([x] + rest) == [x.0] + Keys(rest)
  {
    assert ([x] + rest)[1..] == rest;
  }

  lemma KeySetCons<K, V>(x: (K, V), rest: Dict<K, V>)
    ensures KeySet([x] + rest) == {x.0} + KeySet(rest)
  {
    assert ([x] + rest)[1..] == rest;
  }

  lemma ToMapCons<K(!new), V>(x: (K, V), rest: Dict<K, V>)
    ensures ToMap([x] + rest) == ToMap(rest)[x.0 := x.1]
  {
    assert ([x] + rest)[1..] == rest;
  }

  lemma ValidCons<K, V>(x: (K, V), rest: Dict<K, V>)
    ensures Valid([x] + rest) <==> Valid(rest) && x.0 !in KeySet(rest)
  {
    assert ([x] + rest)[1..] == rest;
  }

  /** `d[k] = v`. */
  function Put<K(==, !new), V>(d: Dict<K, V>, k: K, v: V): (r: Dict<K, V>)
    requires Valid(d)
    ensures Valid(r)
    ensures ToMap(r) == ToMap(d)[k := v]
    ensures k in KeySet(d) ==> Keys(r) == Keys(d)
    ensures k !in KeySet(d) ==> Keys(r) == Keys(d) + [k]
  {
    if d == [] then
      var r := [(k, v)];
      assert r == [(k, v)] + [];
      ToMapCons((k, v), []);
      r
    else
      var x, tail := d[0], d[1..];
      assert d == [x] + tail;
      KeysCons(x, tail);
      KeySetCons(x, tail);
      ToMapCons(x, tail);
      if x.0 == k then
        var r := [(k, v)] + tail;
        KeysCons((k, v), tail);
        KeySetCons((k, v), tail);
        ToMapCons((k, v), tail);
        ValidCons((k, v), tail);
        r
      else
        var rest := Put(tail, k, v);
        var r := [x] + rest;
        KeysCons(x, rest);
        KeySetCons(x, rest);
        ToMapCons(x, rest);
        ValidCons(x, rest);
        r
  }

  /**
   `del d[k]`. Python raises `KeyError` when `k` is absent; callers here
   only ever delete keys the dict holds.
   */
  function Delete<K(==, !new), V>(d: Dict<K, V>, k: K): (r: Dict<K, V>)
    requires Valid(d) && k in KeySet(d)
    ensures Valid(r)
    ensures ToMap(r) == ToMap(d) - {k}
    ensures Keys(r) == Without(Keys(d), k)
  {
    var x, tail := d[0], d[1..];
    assert d == [x] + tail;
    KeysCons(x, tail);
    KeySetCons(x, tail);
    ToMapCons(x, tail);
    if x.0 == k then
      WithoutAbsent(tail, k);
      tail
    else
      var rest := Delete(tail, k);
      var r := [x] + rest;
      KeysCons(x, rest);
      KeySetCons(x, rest);
      ToMapCons(x, rest);
      ValidCons(x, rest);
      r
  }

  /** `s` with every occurrence of `x` removed, the rest kept in order. */
  function Without<T(==)>(s: seq<T>, x: T): seq<T>
  {
    if s == [] then []
    else if s[0] == x then Without(s[1..], x)
    else [s[0]] + Without(s[1..], x)
  }

  /** `s` without the elements of `xs`, the rest kept in order. */
  function Omit<T(==)>(s: seq<T>, xs: seq<T>): seq<T>
  {
    if s == [] then []
    else if s[0] in xs then Omit(s[1..], xs)
    else [s[0]] + Omit(s[1..], xs)
  }

  /** Dropping `x` and then the elements of `xs` drops the elements of `[x] + xs`. */
  lemma {:induction false} OmitWithout<T>(s: seq<T>, x: T, xs: seq<T>)
    ensures Omit(Without(s, x), xs) == Omit(s, [x] + xs)
  {
    if s != [] {
      OmitWithout(s[1..], x, xs);
      if s[0] != x {
        var w := Without(s[1..], x);
        assert ([s[0]] + w)[0] == s[0] && ([s[0]] + w)[1..] == w;
      }
    }
  }

  /** Omitting distributes over concatenation. */
  lemma {:induction false} OmitAppend<T>(a: seq<T>, b: seq<T>, xs: seq<T>)
    ensures Omit(a + b, xs) == Omit(a, xs) + Omit(b, xs)
  {
    if a == [] {
      assert a + b == b;
    } else {
      assert (a + b)[0] == a[0] && (a + b)[1..] == a[1..] + b;
      OmitAppend(a[1..], b, xs);
    }
  }

  /** Omitting elements that do not occur changes nothing. */
  lemma {:induction false} OmitNone<T>(s: seq<T>, xs: seq<T>)
    requires forall i :: 0 <= i < |s| ==> s[i] !in xs
    ensures Omit(s, xs) == s
  {
    if s != [] {
      OmitNone(s[1..], xs);
      assert s == [s[0]] + s[1..];
    }
  }

  /** Removing an absent key from the key sequence changes nothing. */
  lemma {:induction false} WithoutAbsent<K, V>(d: Dict<K, V>, k: K)
    requires k !in KeySet(d)
    ensures Without(Keys(d), k) == Keys(d)
  {
    if d != [] {
      assert d == [d[0]] + d[1..];
      KeysCons(d[0], d[1..]);
      KeySetCons(d[0], d[1..]);
      WithoutAbsent(d[1..], k);
      assert Keys(d)[1..] == Keys(d[1..]);
    }
  }

  /** The key sequence and the key set hold the same keys. */
  lemma {:induction false} KeysMember<K, V>(d: Dict<K, V>, k: K)
    ensures k in Keys(d) <==> k in KeySet(d)
  {
    if d != [] {
      assert d == [d[0]] + d[1..];
      KeysCons(d[0], d[1..]);
      KeySetCons(d[0], d[1..]);
      KeysMember(d[1..], k);
    }
  }

  /** A valid dict has pairwise distinct keys. */
  lemma {:induction false} ValidDistinct<K, V>(d: Dict<K, V>)
    requires Valid(d)
    ensures Distinct(Keys(d))
  {
    if d != [] {
      assert d == [d[0]] + d[1..];
      KeysCons(d[0], d[1..]);
      KeysMember(d[1..], d[0].0);
      ValidDistinct(d[1..]);
      var ks := Keys(d);
      forall i, j | 0 <= i < j < |ks| ensures ks[i] != ks[j] {
        assert ks[j] == Keys(d[1..])[j - 1];
        if i > 0 {
          assert ks[i] == Keys(d[1..])[i - 1];
        }
      }
    }
  }

  /** Conversely, pairwise distinct keys make a valid dict. */
  lemma {:induction false} DistinctValid<K, V>(d: Dict<K, V>)
    requires Distinct(Keys(d))
    ensures Valid(d)
  {
    if d != [] {
      var tail := d[1..];
      assert d == [d[0]] + tail;
      KeysCons(d[0], tail);
      var ks := Keys(d);
      assert Distinct(Keys(tail)) by {
        forall i, j | 0 <= i < j < |tail| ensures Keys(tail)[i] != Keys(tail)[j] {
          assert Keys(tail)[i] == ks[i + 1] && Keys(tail)[j] == ks[j + 1];
        }
      }
      DistinctValid(tail);
      KeysMember(tail, d[0].0);
      forall j | 0 <= j < |tail| ensures Keys(tail)[j] != d[0].0 {
        assert Keys(tail)[j] == ks[j + 1];
      }
    }
  }

  /** Every entry's key is in the key set. */
  lemma KeySetHas<K, V>(d: Dict<K, V>)
    ensures forall i :: 0 <= i < |d| ==> d[i].0 in KeySet(d)
  {
    forall i | 0 <= i < |d| ensures d[i].0 in KeySet(d) {
      KeysMember(d, d[i].0);
    }
  }
}
