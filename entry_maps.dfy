/** `entry_fn` (src/util.rs): updates one entry of a hash map in place by
    taking the entry out, handing its old value to a function, and putting
    back whatever the function returns. The `&mut HashMap` is passed in and
    the updated map handed back. */
module EntryMaps {
  import opened Wrappers

  /** The entry for `key`, if there is one. */
  function Get<K, V>(m: map<K, V>, key: K): Option<V>
  {
    if key in m then Some(m[key]) else None
  }

  /** The map after the entry for `key` is replaced by `v`: set when `v` is
      `Some`, removed when it is `None`. */
  function Updated<K, V>(m: map<K, V>, key: K, v: Option<V>): map<K, V>
  {
    match v
    case Some(x) => m[key := x]
    case None => m - {key}
  }

  /** `entry_fn(map, key, f)`: removes the entry, calls `f` once with the key
      and the removed value, and re-inserts only what `f` returns. */
  method EntryFn<K, V>(m: map<K, V>, key: K, f: (K, Option<V>) -> Option<V>) returns (m': map<K, V>)
    ensures m' == Updated(m, key, f(key, Get(m, key)))
  {
    var prior := Get(m, key);
    m' := m - {key};
    var result := f(key, prior);
    if result.Some? {
      m' := m'[key := result.value];
    }
  }

  /** After the update, the key holds exactly what was handed in, and every
      other key keeps its entry. */
  lemma UpdatedFrame<K, V>(m: map<K, V>, key: K, v: Option<V>)
    ensures Get(Updated(m, key, v), key) == v
    ensures forall k :: k != key ==> Get(Updated(m, key, v), k) == Get(m, k)
  {
  }

  /** The map grows by one only when the key was absent and a value comes
      back, shrinks by one only when the key was present and nothing comes
      back, and keeps its size otherwise. */
  lemma UpdatedSize<K, V>(m: map<K, V>, key: K, v: Option<V>)
    ensures key !in m && v.Some? ==> |Updated(m, key, v)| == |m| + 1
    ensures key in m && v.None? ==> |Updated(m, key, v)| == |m| - 1
    ensures (key in m) == v.Some? ==> |Updated(m, key, v)| == |m|
  {
    var u := Updated(m, key, v);
    if v.None? {
      assert u.Keys == m.Keys - {key};
    } else {
      assert u.Keys == m.Keys + {key};
    }
  }

  /** Handing back the value taken out changes nothing. */
  lemma UpdatedUnchanged<K, V>(m: map<K, V>, key: K)
    ensures Updated(m, key, Get(m, key)) == m
  {
  }
}
