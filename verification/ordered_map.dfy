/** A JavaScript plain object used as a dictionary: a finite mapping from
    keys to values together with the order in which the keys were first
    assigned, which is the order `Object.keys`, `Object.values` and
    `Object.entries` enumerate. */
module OrderedMap {
  import opened Wrappers

  datatype OMap<K, V> = OMap(keys: seq<K>, items: map<K, V>)

  /** No element occurs twice. */
  predicate Distinct<T(==)>(s: seq<T>) {
    forall i, j :: 0 <= i < j < |s| ==> s[i] != s[j]
  }

  /** The position of the first occurrence of `x` in `s`. */
  function IndexOf<T(==)>(s: seq<T>, x: T): (i: nat)
    requires x in s
    ensures i < |s| && s[i] == x
    ensures forall j :: 0 <= j < i ==> s[j] != x
  {
    var s0 := s[..|s| - 1];
    if x in s0 then IndexOf(s0, x) else |s| - 1
  }

  /** Appending keeps the first occurrences of what was already there. */
  lemma IndexOfAppend<T>(s: seq<T>, z: T, x: T)
    requires x in s
    ensures IndexOf(s + [z], x) == IndexOf(s, x)
  {
    assert (s + [z])[..|s|] == s;
  }

  /** The key order lists every key of the mapping exactly once. */
  ghost predicate Valid<K(!new), V>(m: OMap<K, V>) {
    && Distinct(m.keys)
    && (forall k :: k in m.keys <==> k in m.items)
  }

  /** `{}` */
  function Empty<K(==,!new), V>(): (m: OMap<K, V>)
    ensures Valid(m)
    ensures forall k :: Get(m, k) == None
  {
    OMap([], map[])
  }

  /** `obj[k]`, with `None` for `undefined`. */
  function Get<K(==,!new), V>(m: OMap<K, V>, k: K): Option<V> {
    if k in m.items then Some(m.items[k]) else None
  }

  /** `obj[k] = v`: the key now maps to `v`, every other key keeps its
      value, and a key assigned for the first time goes to the end of the
      enumeration order while an existing key keeps its place. */
  function Put<K(==,!new), V>(m: OMap<K, V>, k: K, v: V): (r: OMap<K, V>)
    requires Valid(m)
    ensures Valid(r)
    ensures Get(r, k) == Some(v)
    ensures forall k' :: k' != k ==> Get(r, k') == Get(m, k')
    ensures k in m.items ==> r.keys == m.keys
    ensures k !in m.items ==> r.keys == m.keys + [k]
  {
    OMap(if k in m.items then m.keys else m.keys + [k], m.items[k := v])
  }

  /** Assigning a key twice leaves the same object as assigning the second
      value once. */
  lemma PutPut<K(!new), V>(m: OMap<K, V>, k: K, v1: V, v2: V)
    requires Valid(m)
    ensures Put(Put(m, k, v1), k, v2) == Put(m, k, v2)
  {
    assert m.items[k := v1][k := v2] == m.items[k := v2];
  }

  /** Assigning keeps the relative order of the keys already present, and
      a new key comes after all of them. */
  lemma PutOrder<K(!new), V>(m: OMap<K, V>, k: K, v: V, x: K)
    requires Valid(m) && x in m.items
    ensures IndexOf(Put(m, k, v).keys, x) == IndexOf(m.keys, x)
    ensures k !in m.items ==> IndexOf(Put(m, k, v).keys, k) == |m.keys|
  {
    if k !in m.items {
      IndexOfAppend(m.keys, k, x);
    }
  }

  /** If the keys of `m` follow the first occurrences in `ns0`, the keys
      after assigning `z` follow the first occurrences in `ns0 + [z]`. */
  lemma PutFollows<K(!new), V>(m: OMap<K, V>, ns0: seq<K>, z: K, v: V, x: K, y: K)
    requires Valid(m)
    requires x in ns0 + [z] && y in ns0 + [z]
    requires x in m.items <==> x in ns0
    requires y in m.items <==> y in ns0
    requires z in m.items <==> z in ns0
    requires x in ns0 && y in ns0 ==>
      (IndexOf(m.keys, x) < IndexOf(m.keys, y) <==> IndexOf(ns0, x) < IndexOf(ns0, y))
    ensures x in Put(m, z, v).keys && y in Put(m, z, v).keys
    ensures IndexOf(Put(m, z, v).keys, x) < IndexOf(Put(m, z, v).keys, y)
      <==> IndexOf(ns0 + [z], x) < IndexOf(ns0 + [z], y)
  {
    if x in ns0 {
      IndexOfAppend(ns0, z, x);
      PutOrder(m, z, v, x);
    }
    if y in ns0 {
      IndexOfAppend(ns0, z, y);
      PutOrder(m, z, v, y);
    }
  }
}
