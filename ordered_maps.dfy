/**
 * A JavaScript `Map`: a dictionary that remembers the order in which its keys
 * were first inserted.  Iteration (`for ... of`, `forEach`) follows that order,
 * and `set` on a key that is already present replaces the value in place
 * without moving the key.
 */
module OrderedMaps {
  import opened Wrappers

  /** `keys` is the iteration order, `vals` the dictionary. */
  datatype OrdMap<K, V> = OrdMap(keys: seq<K>, vals: map<K, V>)

  /** Exactly the keys of the dictionary are listed: what every `Map` satisfies. */
  predicate WellFormed<K, V>(m: OrdMap<K, V>) {
    && (forall k :: k in m.vals ==> k in m.keys)
    && (forall i :: 0 <= i < |m.keys| ==> m.keys[i] in m.vals)
  }

  predicate Distinct<K(==)>(s: seq<K>) {
    forall i, j :: 0 <= i < j < |s| ==> s[i] != s[j]
  }

  /** `new Map()`. */
  function Empty<K, V>(): (m: OrdMap<K, V>)
    ensures WellFormed(m) && Distinct(m.keys)
    ensures m.keys == [] && m.vals == map[]
  {
    OrdMap([], map[])
  }

  /** `m.set(k, v)`: a new key goes to the end of the order, an old one keeps its place. */
  function Set<K, V>(m: OrdMap<K, V>, k: K, v: V): (r: OrdMap<K, V>)
    ensures WellFormed(m) ==> WellFormed(r)
    ensures r.vals == m.vals[k := v]
    ensures r.keys == if k in m.vals then m.keys else m.keys + [k]
  {
    if k in m.vals then OrdMap(m.keys, m.vals[k := v])
    else OrdMap(m.keys + [k], m.vals[k := v])
  }

  /** `m.get(k)`, `undefined` being None. */
  function Get<K, V>(m: OrdMap<K, V>, k: K): (r: Option<V>)
    ensures r.Some? <==> k in m.vals
    ensures r.Some? ==> r.value == m.vals[k]
  {
    if k in m.vals then Some(m.vals[k]) else None
  }

  /** `get` after `set` reads the value just set for that key and the old value for every other key. */
  lemma GetSet<K, V>(m: OrdMap<K, V>, k: K, v: V, j: K)
    ensures Get(Set(m, k, v), k) == Some(v)
    ensures j != k ==> Get(Set(m, k, v), j) == Get(m, j)
  {
  }

  /** Setting a key to the value it already has changes nothing, order included. */
  lemma SetSame<K, V>(m: OrdMap<K, V>, k: K)
    requires k in m.vals
    ensures Set(m, k, m.vals[k]) == m
  {
    assert m.vals[k := m.vals[k]] == m.vals;
  }

  /** Keys are listed once each: `set` never lists a key a second time. */
  lemma SetKeepsDistinct<K, V>(m: OrdMap<K, V>, k: K, v: V)
    requires WellFormed(m) && Distinct(m.keys)
    ensures Distinct(Set(m, k, v).keys)
  {
    if k !in m.vals {
      assert k !in m.keys;
    }
  }
}
