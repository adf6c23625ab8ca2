/** A value that may be missing, and map lookup in terms of it. */
module Options {

  datatype Option<+T> = None | Some(value: T)

  function Find<K, V>(m: map<K, V>, k: K): Option<V> {
    if k in m then Some(m[k]) else None
  }
}
