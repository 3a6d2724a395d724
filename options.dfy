/** Optional values: the model's stand-in for Java's `null` results. */
module Options {

  datatype Option<T> = None | Some(value: T)

  /** The value a map holds for `k`, or None when `k` is not a key. */
  function Lookup<K, V>(m: map<K, V>, k: K): (r: Option<V>)
    ensures r.Some? <==> k in m
    ensures r.Some? ==> r.value == m[k]
  {
    if k in m then Some(m[k]) else None
  }
}
