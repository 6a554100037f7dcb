/**
  An insertion-ordered map with put semantics, as java.util.LinkedHashMap
  behaves: the key sequence remembers first insertion, and a put under an
  existing key replaces the value without moving the key.
 */
module LinkedMaps {
  import opened Wrappers

  /** Representation: the keys in first-insertion order, and the key-to-value table. */
  datatype Rep<K, V> = Rep(keys: seq<K>, entries: map<K, V>)

  ghost predicate Distinct<K>(s: seq<K>) {
    forall i, j :: 0 <= i < j < |s| ==> s[i] != s[j]
  }

  ghost predicate WellFormed<K(!new), V>(r: Rep<K, V>) {
    && Distinct(r.keys)
    && forall k :: k in r.entries <==> k in r.keys
  }

  /** An insertion-ordered map: every key listed exactly once, and exactly the keys of the table. */
  type LinkedMap<K(==, !new), V> = r: Rep<K, V> | WellFormed(r) witness Rep([], map[])

  function Empty<K(==, !new), V>(): LinkedMap<K, V> {
    Rep([], map[])
  }

  /** `map.get(k)`: the value stored under `k`, or None (Java `null`). */
  function Get<K(==, !new), V>(m: LinkedMap<K, V>, k: K): (r: Option<V>)
    ensures r.Some? <==> k in m.keys
  {
    if k in m.entries then Some(m.entries[k]) else None
  }

  /** `map.put(k, v)`: later value wins, a known key keeps its position, a new key goes last. */
  function Put<K(==, !new), V>(m: LinkedMap<K, V>, k: K, v: V): (r: LinkedMap<K, V>)
    ensures Get(r, k) == Some(v)
    ensures forall k' :: k' != k ==> Get(r, k') == Get(m, k')
    ensures k in m.keys ==> r.keys == m.keys
    ensures k !in m.keys ==> r.keys == m.keys + [k]
  {
    if k in m.entries then Rep(m.keys, m.entries[k := v])
    else Rep(m.keys + [k], m.entries[k := v])
  }

  /** The keys of a sequence of pairs, in order. */
  function Keys<K, V>(ps: seq<(K, V)>): seq<K>
  {
    seq(|ps|, i requires 0 <= i < |ps| => ps[i].0)
  }

  /** Puts every pair of `ps` into `m`, in order (defined by its last step). */
  function PutAll<K(==, !new), V>(m: LinkedMap<K, V>, ps: seq<(K, V)>): LinkedMap<K, V>
    decreases |ps|
  {
    if ps == [] then m
    else Put(PutAll(m, ps[..|ps| - 1]), ps[|ps| - 1].0, ps[|ps| - 1].1)
  }

  /** Reference definition: the value of the last pair of `ps` whose key is `k`. */
  function LastValue<K(==), V>(ps: seq<(K, V)>, k: K): Option<V>
    decreases |ps|
  {
    if ps == [] then None
    else if ps[|ps| - 1].0 == k then Some(ps[|ps| - 1].1)
    else LastValue(ps[..|ps| - 1], k)
  }

  /** Reference definition: `s` with every repeat of an earlier element dropped. */
  function Dedup<K(==)>(s: seq<K>): seq<K>
    decreases |s|
  {
    if s == [] then []
    else
      var d := Dedup(s[..|s| - 1]);
      if s[|s| - 1] in d then d else d + [s[|s| - 1]]
  }

  lemma {:induction false} DedupMembers<K>(s: seq<K>)
    ensures forall x :: x in Dedup(s) <==> x in s
  {
    if s != [] {
      DedupMembers(s[..|s| - 1]);
      assert s == s[..|s| - 1] + [s[|s| - 1]];
    }
  }

  lemma {:induction false} DedupOfDistinct<K>(s: seq<K>)
    requires Distinct(s)
    ensures Dedup(s) == s
  {
    if s != [] {
      var p := s[..|s| - 1];
      DedupOfDistinct(p);
      assert s[|s| - 1] !in p;
      assert s == p + [s[|s| - 1]];
    }
  }

  /** After putting `ps`, a key holds its last value in `ps`, or its old value if `ps` never names it. */
  lemma {:induction false} PutAllGet<K(!new), V>(m: LinkedMap<K, V>, ps: seq<(K, V)>, k: K)
    ensures Get(PutAll(m, ps), k) == if LastValue(ps, k).Some? then LastValue(ps, k) else Get(m, k)
    decreases |ps|
  {
    if ps != [] {
      PutAllGet(m, ps[..|ps| - 1], k);
    }
  }

  /** After putting `ps`, the keys are the old keys followed by the new keys in first-occurrence order. */
  lemma {:induction false} PutAllKeys<K(!new), V>(m: LinkedMap<K, V>, ps: seq<(K, V)>)
    ensures PutAll(m, ps).keys == Dedup(m.keys + Keys(ps))
    decreases |ps|
  {
    if ps == [] {
      assert m.keys + Keys(ps) == m.keys;
      DedupOfDistinct(m.keys);
    } else {
      var p := ps[..|ps| - 1];
      var last := ps[|ps| - 1];
      PutAllKeys(m, p);
      var all := m.keys + Keys(ps);
      assert all[..|all| - 1] == m.keys + Keys(p);
      assert all[|all| - 1] == last.0;
      var prev := PutAll(m, p);
      assert last.0 in prev.entries <==> last.0 in prev.keys;
    }
  }

  /** With distinct keys, each pair's key holds that pair's value. */
  lemma {:induction false} LastValueOfDistinct<K, V>(ps: seq<(K, V)>, i: nat)
    requires Distinct(Keys(ps))
    requires i < |ps|
    ensures LastValue(ps, ps[i].0) == Some(ps[i].1)
    decreases |ps|
  {
    var n := |ps| - 1;
    if i < n {
      assert Keys(ps)[i] != Keys(ps)[n];
      var p := ps[..n];
      assert Keys(p) == Keys(ps)[..n];
      LastValueOfDistinct(p, i);
    }
  }

  /** Putting pairs with distinct keys into an empty map keeps exactly their keys, in order. */
  lemma PutAllDistinctKeys<K(!new), V>(ps: seq<(K, V)>)
    requires Distinct(Keys(ps))
    ensures PutAll(Empty(), ps).keys == Keys(ps)
  {
    var e: LinkedMap<K, V> := Empty();
    PutAllKeys(e, ps);
    assert e.keys + Keys(ps) == Keys(ps);
    DedupOfDistinct(Keys(ps));
  }

  /** Putting pairs with distinct keys into an empty map stores each pair's value under its key. */
  lemma PutAllDistinctGet<K(!new), V>(ps: seq<(K, V)>, i: nat)
    requires Distinct(Keys(ps))
    requires i < |ps|
    ensures Get(PutAll(Empty(), ps), ps[i].0) == Some(ps[i].1)
  {
    LastValueOfDistinct(ps, i);
    PutAllGet(Empty(), ps, ps[i].0);
  }
}
