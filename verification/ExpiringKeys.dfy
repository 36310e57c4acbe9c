/** Redis keys with an expiry instant, and the owner-checked scripts of the collectors. Instants are microseconds. */
module ExpiringKeys {
  import opened Results

  const SECOND: int := 1_000_000
  const LEASE_TTL: int := 900 * SECOND

  /** A key holds its value until `expiry`, and is absent from that instant on. */
  datatype Entry<+V> = Entry(value: V, expiry: int)

  type Key<+V> = Option<Entry<V>>

  predicate Live<V>(k: Key<V>, now: int) {
    k.Some? && now < k.value.expiry
  }

  /** GET. */
  function Get<V>(k: Key<V>, now: int): Option<V> {
    if Live(k, now) then Some(k.value.value) else None
  }

  /** SET EX. */
  function Put<V>(value: V, now: int, ttl: int): Key<V> {
    Some(Entry(value, now + ttl))
  }

  /** The owner-checked delete: only the holder of the token removes the lease. */
  function Release(lease: Key<nat>, token: nat, now: int): (r: Key<nat>)
    ensures Get(lease, now) != Some(token) ==> r == lease
    ensures Get(lease, now) == Some(token) ==> r == None
  {
    if Get(lease, now) == Some(token) then None else lease
  }
}
