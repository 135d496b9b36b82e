/**
 * Python's `dict` with string keys and its insertion order: `keys` lists the keys in the
 * order they were first assigned, `entries` holds the current values.
 */
module Dict {

  /** No entry is listed twice. */
  predicate Distinct(xs: seq<string>) {
    forall i, j :: 0 <= i < j < |xs| ==> xs[i] != xs[j]
  }

  datatype ODict<V> = ODict(keys: seq<string>, entries: map<string, V>) {

    /** Keys are listed once each, and exactly the keys of `entries` are listed. */
    predicate Valid() {
      && Distinct(keys)
      && (forall k | k in keys :: k in entries)
      && (forall k | k in entries :: k in keys)
    }
  }

  function Empty<V>(): (d: ODict<V>)
    ensures d.Valid() && d.keys == []
  {
    ODict([], map[])
  }

  /**
   * `d[k] = v`: a new key goes to the end, an existing key keeps its
   * position and only its value changes.
   */
  function Put<V>(d: ODict<V>, k: string, v: V): (d': ODict<V>)
    requires d.Valid()
    ensures d'.Valid()
    ensures k in d'.entries && d'.entries[k] == v
    ensures forall k' :: k' != k ==> (k' in d'.entries <==> k' in d.entries)
    ensures forall k' :: k' != k && k' in d.entries ==> d'.entries[k'] == d.entries[k']
    ensures k in d.entries ==> d'.keys == d.keys
    ensures k !in d.entries ==> d'.keys == d.keys + [k]
  {
    if k in d.entries then ODict(d.keys, d.entries[k := v])
    else ODict(d.keys + [k], d.entries[k := v])
  }

  /** A second write to the same key of a map overrides the first. */
  lemma UpdateTwice<K, V>(m: map<K, V>, k: K, v1: V, v2: V)
    ensures m[k := v1][k := v2] == m[k := v2]
  {
  }

  /** `d[k] = v1; d[k] = v2` leaves the same dictionary as `d[k] = v2`. */
  lemma PutTwice<V>(d: ODict<V>, k: string, v1: V, v2: V)
    requires d.Valid()
    ensures Put(Put(d, k, v1), k, v2) == Put(d, k, v2)
  {
    UpdateTwice(d.entries, k, v1, v2);
  }
}
