/** Redis keys with a time to live: a key is gone from its expiry instant on. */
module Redis {

  datatype Timed<+V> = Timed(value: V, expiresAt: int)

  predicate LiveIn<K, V>(keys: map<K, Timed<V>>, k: K, now: int) {
    k in keys && now < keys[k].expiresAt
  }
}
