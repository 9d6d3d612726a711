/**
 * JavaScript's `Map`: a finite map that remembers the order in which its
 * keys were first inserted. Overwriting the value of a present key leaves
 * the key where it was; a new key goes to the end.
 */
module JsMap {
  import opened Wrappers
  import opened Seqs

  /** The keys in insertion order, and the value stored under each key. */
  datatype OrderedMap<K(!new), V> = OrderedMap(keys: seq<K>, entries: map<K, V>)
  {
    /** Every key is listed exactly once, and only keys are listed. */
    ghost predicate Valid()
    {
      && Distinct(keys)
      && (forall k :: k in entries <==> k in keys)
    }
  }

  /** `new Map()`. */
  function Empty<K(!new), V>(): (m: OrderedMap<K, V>)
    ensures m.Valid()
    ensures m.keys == [] && forall k :: Get(m, k) == None
  {
    OrderedMap([], map[])
  }

  /** `Map.prototype.get`: the value stored under `k`, if any. */
  function Get<K(!new), V>(m: OrderedMap<K, V>, k: K): (r: Option<V>)
    ensures m.Valid() ==> (r.Some? <==> k in m.keys)
    ensures r.Some? ==> k in m.entries && r.value == m.entries[k]
  {
    if k in m.entries then Some(m.entries[k]) else None
  }

  /**
   * `Map.prototype.set`: a present key keeps its position, a new key is
   * listed last (`SetGet` states what the map then holds).
   */
  function Set<K(!new), V>(m: OrderedMap<K, V>, k: K, v: V): (m': OrderedMap<K, V>)
    ensures m.Valid() ==> m'.Valid()
    ensures k in m.entries ==> m'.keys == m.keys
    ensures k !in m.entries ==> m'.keys == m.keys + [k]
  {
    if k in m.entries then OrderedMap(m.keys, m.entries[k := v])
    else OrderedMap(m.keys + [k], m.entries[k := v])
  }

  /** After `Set(m, k, v)`, `k` maps to `v` and every other key keeps its value. */
  lemma SetGet<K(!new), V>(m: OrderedMap<K, V>, k: K, v: V)
    ensures Get(Set(m, k, v), k) == Some(v)
    ensures forall j :: j != k ==> Get(Set(m, k, v), j) == Get(m, j)
  {
  }
}
