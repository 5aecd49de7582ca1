/** A Python `dict` as the list of its items in insertion order: reading a
    key gives its value, assigning to an existing key replaces the value
    where the key stands, assigning to a new key appends it last. */
module PyDict {
  import opened Wrappers

  type Dict<K, V> = seq<(K, V)>

  /** The keys in iteration order. */
  function Keys<K, V>(d: Dict<K, V>): (ks: seq<K>)
    ensures |ks| == |d|
    ensures forall i :: 0 <= i < |d| ==> ks[i] == d[i].0
  {
    if d == [] then [] else [d[0].0] + Keys(d[1..])
  }

  /** What every Python dict satisfies: no key occurs twice. */
  predicate UniqueKeys<K(==), V>(d: Dict<K, V>) {
    forall i, j :: 0 <= i < j < |d| ==> d[i].0 != d[j].0
  }

  /** `d.get(k)`: present exactly for the keys of `d`, and then an item of `d`. */
  function Get<K(==), V>(d: Dict<K, V>, k: K): (r: Option<V>)
    ensures r.Some? <==> k in Keys(d)
    ensures r.Some? ==> (k, r.value) in d
  {
    if d == [] then None
    else if d[0].0 == k then Some(d[0].1)
    else Get(d[1..], k)
  }

  /** `d[k] = v`: `k` now maps to `v`, every other key keeps its value, and
      every item is the new one or an old one. */
  function Set<K(==,!new), V>(d: Dict<K, V>, k: K, v: V): (r: Dict<K, V>)
    ensures Get(r, k) == Some(v)
    ensures forall k' :: k' != k ==> Get(r, k') == Get(d, k')
    ensures forall p :: p in r ==> p == (k, v) || p in d
  {
    if d == [] then [(k, v)]
    else
      Cons(d[0], d[1..]);
      if d[0].0 == k then
        Cons((k, v), d[1..]);
        [(k, v)] + d[1..]
      else
        var rest := Set(d[1..], k, v);
        Cons(d[0], rest);
        [d[0]] + rest
  }

  /** Assignment keeps the key order, and a new key goes last. */
  lemma {:induction false} SetKeys<K(!new), V>(d: Dict<K, V>, k: K, v: V)
    ensures Keys(Set(d, k, v)) == if k in Keys(d) then Keys(d) else Keys(d) + [k]
    decreases |d|
  {
    if d != [] {
      Cons(d[0], d[1..]);
      if d[0].0 == k {
        Cons((k, v), d[1..]);
      } else {
        SetKeys(d[1..], k, v);
        Cons(d[0], Set(d[1..], k, v));
      }
    }
  }

  /** The dict with item `p` in front of the items `rest`. */
  lemma Cons<K(!new), V>(p: (K, V), rest: Dict<K, V>)
    ensures ([p] + rest)[1..] == rest
    ensures Keys([p] + rest) == [p.0] + Keys(rest)
    ensures forall k :: Get([p] + rest, k) == if p.0 == k then Some(p.1) else Get(rest, k)
    ensures forall q :: q in [p] + rest <==> q == p || q in rest
  {
    assert ([p] + rest)[1..] == rest;
  }

  /** Assigning a key twice is the same as assigning it the second value. */
  lemma {:induction false} SetTwice<K(!new), V>(d: Dict<K, V>, k: K, v1: V, v2: V)
    ensures Set(Set(d, k, v1), k, v2) == Set(d, k, v2)
    decreases |d|
  {
    if d != [] && d[0].0 != k {
      SetTwice(d[1..], k, v1, v2);
      assert Set(d, k, v1)[1..] == Set(d[1..], k, v1);
    }
  }

  /** Assignment keeps a dict a dict: its keys stay distinct. */
  lemma SetKeepsUniqueKeys<K(!new), V>(d: Dict<K, V>, k: K, v: V)
    requires UniqueKeys(d)
    ensures UniqueKeys(Set(d, k, v))
  {
    var r := Set(d, k, v);
    SetKeys(d, k, v);
    var ks, ks' := Keys(d), Keys(r);
    forall i, j | 0 <= i < j < |r|
      ensures r[i].0 != r[j].0
    {
      assert ks'[i] == r[i].0 && ks'[j] == r[j].0;
      if j == |d| {
        assert ks'[i] == d[i].0 && ks'[j] == k && k !in ks;
      } else {
        assert ks'[i] == d[i].0 && ks'[j] == d[j].0;
      }
    }
  }
}
