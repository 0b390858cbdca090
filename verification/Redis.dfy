/** The Redis commands the components rely on: values with a deadline.

A key is live strictly before its deadline; afterwards every command treats it as
absent. Expiry times are given in whole seconds.
*/
module Redis {
  import opened Basics

  datatype Stored<+V> = Stored(value: V, deadline: int)

  type Keys<K(==), V> = map<K, Stored<V>>

  predicate Live<K, V>(keys: Keys<K, V>, key: K, now: int) {
    key in keys && now < keys[key].deadline
  }

  function Get<K, V>(keys: Keys<K, V>, key: K, now: int): Option<V> {
    if Live(keys, key, now) then Some(keys[key].value) else None
  }

  /** SET with EX: store unconditionally, for `ttl` seconds. */
  function SetEx<K, V>(keys: Keys<K, V>, key: K, value: V, now: int, ttl: nat): Keys<K, V> {
    keys[key := Stored(value, now + ttl * SECOND)]
  }

  /** SET with NX and EX: store only if the key is not live. */
  function SetNxEx<K, V>(keys: Keys<K, V>, key: K, value: V, now: int, ttl: nat): Keys<K, V> {
    if Live(keys, key, now) then keys else SetEx(keys, key, value, now, ttl)
  }

  /** EXPIRE: give a live key a new deadline. */
  function Expire<K, V>(keys: Keys<K, V>, key: K, now: int, ttl: nat): Keys<K, V> {
    if Live(keys, key, now) then SetEx(keys, key, keys[key].value, now, ttl) else keys
  }

  function Del<K, V>(keys: Keys<K, V>, key: K): Keys<K, V> {
    keys - {key}
  }

  /** Whole seconds in a duration, rounded toward zero. */
  function WholeSeconds(duration: int): int {
    if duration >= 0 then duration / SECOND else -((-duration) / SECOND)
  }

  /** A deadline set from a remaining lifetime precedes the end of that lifetime by
  less than a second. */
  lemma WholeSecondsBound(now: int, end: int)
    requires WholeSeconds(end - now) >= 1
    ensures end - SECOND < now + WholeSeconds(end - now) * SECOND <= end
    ensures now + WholeSeconds(end - now) * SECOND > now
  {
  }
}
