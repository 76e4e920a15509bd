/**
 * Python's `dict` as the scripts use it: entries kept in insertion order,
 * each key at most once. `d[k] = v` replaces a present key where it stands
 * and appends a new one; `del d[k]` removes one entry and keeps the order of
 * the rest.
 */
module Dicts {
  import opened Wrappers
  import Sorting

  /** The entries of a dict, in iteration order. */
  type Dict<K, V> = seq<(K, V)>

  function KeySet<K(==, !new), V(==, !new)>(d: Dict<K, V>): set<K> {
    set e | e in d :: e.0
  }

  /** Every key occurs once. */
  predicate Unique<K(==, !new), V(==, !new)>(d: Dict<K, V>) {
    d == [] || (d[0].0 !in KeySet(d[1..]) && Unique(d[1..]))
  }

  /** `d.get(k)`. */
  function Get<K(==, !new), V(==, !new)>(d: Dict<K, V>, k: K): (r: Option<V>)
    ensures r.Some? <==> k in KeySet(d)
    ensures r.Some? ==> (k, r.value) in d
  {
    if d == [] then None
    else if d[0].0 == k then Some(d[0].1)
    else
      assert d == [d[0]] + d[1..];
      Get(d[1..], k)
  }

  /** In a dict with unique keys an entry is what a lookup of its key gives. */
  lemma {:induction false} GetEntry<K(!new), V(!new)>(d: Dict<K, V>, k: K, v: V)
    requires Unique(d)
    ensures Get(d, k) == Some(v) <==> (k, v) in d
  {
    if d != [] {
      assert d == [d[0]] + d[1..];
      if d[0].0 != k {
        GetEntry(d[1..], k, v);
      }
    }
  }

  /**
   * `d[k] = v`: the key then maps to `v`, every other key keeps its value,
   * a present key stays where it was and a new key goes last.
   */
  function Set<K(==, !new), V(==, !new)>(d: Dict<K, V>, k: K, v: V): (r: Dict<K, V>)
    ensures KeySet(r) == KeySet(d) + {k}
    ensures Get(r, k) == Some(v)
    ensures forall j :: j != k ==> Get(r, j) == Get(d, j)
    ensures Unique(d) ==> Unique(r)
  {
    if d == [] then [(k, v)]
    else if d[0].0 == k then
      Cons(d[0], d[1..]);
      Cons((k, v), d[1..]);
      [(k, v)] + d[1..]
    else
      var rest := Set(d[1..], k, v);
      Cons(d[0], d[1..]);
      Cons(d[0], rest);
      [d[0]] + rest
  }

  /** What putting one entry in front does to the keys and to uniqueness. */
  lemma Cons<K(!new), V(!new)>(x: (K, V), s: Dict<K, V>)
    ensures ([x] + s)[0] == x && ([x] + s)[1..] == s
    ensures KeySet([x] + s) == {x.0} + KeySet(s)
    ensures Unique([x] + s) <==> x.0 !in KeySet(s) && Unique(s)
  {
    var r := [x] + s;
    assert r[1..] == s;
    assert forall e :: e in r <==> e == x || e in s;
  }

  /** `d[k] = v` with a new key puts it last. */
  lemma {:induction false} SetNew<K(!new), V(!new)>(d: Dict<K, V>, k: K, v: V)
    requires k !in KeySet(d)
    ensures Set(d, k, v) == d + [(k, v)]
  {
    if d != [] {
      assert d == [d[0]] + d[1..];
      Cons(d[0], d[1..]);
      SetNew(d[1..], k, v);
    }
  }

  /** `d[k] = v` with a present key leaves every key in its place. */
  lemma {:induction false} SetPresent<K(!new), V(!new)>(d: Dict<K, V>, k: K, v: V, i: nat)
    requires k in KeySet(d) && i < |d|
    ensures |Set(d, k, v)| == |d| && Set(d, k, v)[i].0 == d[i].0
  {
    Cons(d[0], d[1..]);
    if d[0].0 == k {
      Cons((k, v), d[1..]);
      if i > 0 {
        assert Set(d, k, v)[i] == d[1..][i - 1];
      }
    } else {
      var rest := Set(d[1..], k, v);
      Cons(d[0], rest);
      if i > 0 {
        SetPresent(d[1..], k, v, i - 1);
        assert Set(d, k, v)[i] == rest[i - 1];
      } else {
        SetPresent(d[1..], k, v, 0);
      }
    }
  }

  /** The entries whose key is in `live`, in their order. */
  function Keep<K(==, !new), V(==, !new)>(d: Dict<K, V>, live: set<K>): (r: Dict<K, V>)
    ensures forall e :: e in r <==> e in d && e.0 in live
    ensures Unique(d) ==> Unique(r)
    ensures |r| <= |d|
  {
    if d == [] then []
    else
      var rest := Keep(d[1..], live);
      assert d == [d[0]] + d[1..];
      if d[0].0 in live then
        var r := [d[0]] + rest;
        assert r[1..] == rest;
        r
      else rest
  }

  /** The keys kept are the live keys of the dict. */
  lemma KeepKeys<K(!new), V(!new)>(d: Dict<K, V>, live: set<K>)
    ensures KeySet(Keep(d, live)) == KeySet(d) * live
  {
    var r := Keep(d, live);
    forall k | k in KeySet(d) * live ensures k in KeySet(r) {
      var e :| e in d && e.0 == k;
      assert e in r;
    }
  }

  /** `del d[k]`. */
  function Delete<K(==, !new), V(==, !new)>(d: Dict<K, V>, k: K): (r: Dict<K, V>)
    ensures forall e :: e in r <==> e in d && e.0 != k
    ensures KeySet(r) == KeySet(d) - {k}
    ensures Unique(d) ==> Unique(r)
  {
    Keep(d, KeySet(d) - {k})
  }

  /** Keeping every key changes nothing. */
  lemma {:induction false} KeepAll<K(!new), V(!new)>(d: Dict<K, V>, live: set<K>)
    requires KeySet(d) <= live
    ensures Keep(d, live) == d
  {
    if d != [] {
      assert d == [d[0]] + d[1..];
      assert d[0] in d;
      KeepAll(d[1..], live);
    }
  }

  /** Only the keys the dict has matter to `Keep`. */
  lemma {:induction false} KeepSame<K(!new), V(!new)>(d: Dict<K, V>, a: set<K>, b: set<K>)
    requires a * KeySet(d) == b * KeySet(d)
    ensures Keep(d, a) == Keep(d, b)
  {
    if d != [] {
      assert d == [d[0]] + d[1..];
      assert d[0] in d;
      assert KeySet(d) == {d[0].0} + KeySet(d[1..]);
      assert a * KeySet(d[1..]) == (a * KeySet(d)) * KeySet(d[1..]);
      assert b * KeySet(d[1..]) == (b * KeySet(d)) * KeySet(d[1..]);
      KeepSame(d[1..], a, b);
      assert d[0].0 in KeySet(d);
      assert d[0].0 in a <==> d[0].0 in a * KeySet(d);
      assert d[0].0 in b <==> d[0].0 in b * KeySet(d);
    }
  }

  /** Deleting after keeping is keeping less. */
  lemma {:induction false} DeleteKeep<K(!new), V(!new)>(d: Dict<K, V>, live: set<K>, k: K)
    ensures Delete(Keep(d, live), k) == Keep(d, live - {k})
  {
    KeepKeep(d, live, KeySet(Keep(d, live)) - {k});
    KeepSame(d, live * (KeySet(Keep(d, live)) - {k}), live - {k});
  }

  /** Two filters in a row are one filter by the common keys. */
  lemma {:induction false} KeepKeep<K(!new), V(!new)>(d: Dict<K, V>, a: set<K>, b: set<K>)
    ensures Keep(Keep(d, a), b) == Keep(d, a * b)
  {
    if d != [] {
      assert d == [d[0]] + d[1..];
      KeepKeep(d[1..], a, b);
      if d[0].0 in a {
        assert Keep(d, a)[1..] == Keep(d[1..], a);
      }
    }
  }

  /** Insertion keeps the key set and uniqueness of a dict. */
  lemma {:induction false} InsertUnique<K(!new), V(!new)>(x: (K, V), d: Dict<K, V>, key: ((K, V)) -> int)
    requires Unique(d) && x.0 !in KeySet(d)
    ensures KeySet(Sorting.Insert(x, d, key)) == KeySet(d) + {x.0}
    ensures Unique(Sorting.Insert(x, d, key))
  {
    if d == [] {
      Cons(x, []);
    } else if key(x) <= key(d[0]) {
      Cons(x, d);
    } else {
      assert d == [d[0]] + d[1..];
      Cons(d[0], d[1..]);
      InsertUnique(x, d[1..], key);
      Cons(d[0], Sorting.Insert(x, d[1..], key));
    }
  }

  /**
   * `dict(sorted(d.items(), key=key))`: the same keys, each once, with the
   * same values, now in key order.
   */
  lemma {:induction false} SortedDict<K(!new), V(!new)>(d: Dict<K, V>, key: ((K, V)) -> int)
    requires Unique(d)
    ensures KeySet(Sorting.SortBy(d, key)) == KeySet(d)
    ensures Unique(Sorting.SortBy(d, key))
    ensures forall k :: Get(Sorting.SortBy(d, key), k) == Get(d, k)
  {
    var r := Sorting.SortBy(d, key);
    if d != [] {
      assert d == [d[0]] + d[1..];
      Cons(d[0], d[1..]);
      SortedDict(d[1..], key);
      InsertUnique(d[0], Sorting.SortBy(d[1..], key), key);
    }
    forall k ensures Get(r, k) == Get(d, k) {
      if Get(d, k).Some? {
        var v := Get(d, k).value;
        GetEntry(d, k, v);
        Sorting.SortedSameElements(d, key, (k, v));
        GetEntry(r, k, v);
      }
    }
  }

  /** A dict with unique integer keys, sorted by its key, runs strictly upwards. */
  lemma SortedByKey<V(!new)>(r: Dict<int, V>, key: ((int, V)) -> int)
    requires Unique(r) && Sorting.Sorted(r, key)
    requires forall e :: key(e) == e.0
    ensures forall i, j :: 0 <= i < j < |r| ==> r[i].0 < r[j].0
  {
    UniqueDistinct(r);
    forall i, j | 0 <= i < j < |r| ensures r[i].0 < r[j].0 {
      assert key(r[i]) <= key(r[j]);
      assert key(r[i]) == r[i].0 && key(r[j]) == r[j].0;
    }
  }

  /** The entries after `d[k] = v`: the new pair and every other entry. */
  lemma SetMembers<K(!new), V(!new)>(d: Dict<K, V>, k: K, v: V, e: (K, V))
    requires Unique(d)
    ensures e in Set(d, k, v) <==> e == (k, v) || (e in d && e.0 != k)
  {
    GetEntry(Set(d, k, v), e.0, e.1);
    GetEntry(d, e.0, e.1);
  }

  /** In a dict with unique keys, no two positions hold the same key. */
  lemma {:induction false} UniqueDistinct<K(!new), V(!new)>(d: Dict<K, V>)
    requires Unique(d)
    ensures forall i, j :: 0 <= i < j < |d| ==> d[i].0 != d[j].0
  {
    if d != [] {
      UniqueDistinct(d[1..]);
      forall i, j | 0 <= i < j < |d| ensures d[i].0 != d[j].0 {
        if i == 0 {
          assert d[j] == d[1..][j - 1];
          assert d[j] in d[1..];
        } else {
          assert d[i] == d[1..][i - 1] && d[j] == d[1..][j - 1];
        }
      }
    }
  }

  /** Writing a key twice is writing it once with the last value. */
  lemma {:induction false} SetSet<K(!new), V(!new)>(d: Dict<K, V>, k: K, v1: V, v2: V)
    ensures Set(Set(d, k, v1), k, v2) == Set(d, k, v2)
  {
    if d != [] && d[0].0 != k {
      SetSet(d[1..], k, v1, v2);
      var r := Set(d, k, v1);
      assert r == [d[0]] + Set(d[1..], k, v1);
      assert r[1..] == Set(d[1..], k, v1);
    }
  }

  /** The key at a position does not occur after it. */
  lemma UniqueAt<K(!new), V(!new)>(d: Dict<K, V>, i: nat)
    requires Unique(d) && i < |d|
    ensures d[i].0 !in KeySet(d[i + 1..])
  {
    UniqueDistinct(d);
  }

  /** Deleting a key that was added to the filter undoes the addition. */
  lemma DeleteAdded<K(!new), V(!new)>(d: Dict<K, V>, live: set<K>, k: K)
    requires k !in live
    ensures Delete(Keep(d, live + {k}), k) == Keep(d, live)
  {
    DeleteKeep(d, live + {k}, k);
    assert (live + {k}) - {k} == live;
  }

  /** One step of `Prune`: the entry at `i` is deleted exactly when its key is not live. */
  lemma PruneStep<K(!new), V(!new)>(d: Dict<K, V>, live: set<K>, i: nat)
    requires Unique(d) && i < |d|
    ensures var before := Keep(d, live + KeySet(d[i..]));
      (if d[i].0 in live then before else Delete(before, d[i].0)) == Keep(d, live + KeySet(d[i + 1..]))
  {
    var k := d[i].0;
    var after := live + KeySet(d[i + 1..]);
    assert live + KeySet(d[i..]) == after + {k} by {
      assert d[i..] == [d[i]] + d[i + 1..];
      Cons(d[i], d[i + 1..]);
    }
    if k !in live {
      assert k !in after by {
        UniqueAt(d, i);
      }
      DeleteAdded(d, after, k);
    } else {
      assert after + {k} == after;
    }
  }

  /**
   * `for k in d.copy(): if k not in live: del d[k]`: the entries whose key
   * is live, in their order.
   */
  method Prune<K(==, !new), V(==, !new)>(d: Dict<K, V>, live: set<K>) returns (r: Dict<K, V>)
    requires Unique(d)
    ensures r == Keep(d, live)
  {
    r := d;
    KeepAll(d, live + KeySet(d));
    for i := 0 to |d|
      invariant r == Keep(d, live + KeySet(d[i..]))
    {
      PruneStep(d, live, i);
      if d[i].0 !in live {
        r := Delete(r, d[i].0);
      }
    }
    assert KeySet(d[|d|..]) == {};
    assert live + KeySet(d[|d|..]) == live;
  }
}
