/** The expiring key-value map that backs the ARP table and the pending
    buffer: every entry carries the time it was last set, and an entry
    older than the map's lifetime reads as absent. Expiry is evaluated
    lazily, at lookup. */
module ExpiringMap {
  import opened Net

  datatype Stamped<V> = Stamped(value: V, time: nat)

  type Table<K, V> = map<K, Stamped<V>>

  /** An entry set at `time` is still live at `now` under lifetime `ttl`. */
  predicate Live<V>(e: Stamped<V>, now: nat, ttl: nat)
  {
    now < e.time + ttl
  }

  /** map_get: the value stored under `k`, unless absent or expired. */
  function Get<K, V>(m: Table<K, V>, k: K, now: nat, ttl: nat): (r: Option<V>)
    ensures r.Some? <==> k in m && Live(m[k], now, ttl)
    ensures r.Some? ==> r.value == m[k].value
  {
    if k in m && Live(m[k], now, ttl) then Some(m[k].value) else None
  }

  /** map_set: store `v` under `k`, stamped with `now`. */
  function Put<K, V>(m: Table<K, V>, k: K, v: V, now: nat): (r: Table<K, V>)
    ensures r.Keys == m.Keys + {k}
    ensures r[k] == Stamped(v, now)
    ensures forall j :: j in m && j != k ==> r[j] == m[j]
  {
    m[k := Stamped(v, now)]
  }

  /** map_delete: remove `k`. */
  function Delete<K, V>(m: Table<K, V>, k: K): (r: Table<K, V>)
    ensures r.Keys == m.Keys - {k}
    ensures forall j :: j in r ==> r[j] == m[j]
  {
    m - {k}
  }

  /** A value just stored is read back for as long as it lives. */
  lemma GetPut<K, V>(m: Table<K, V>, k: K, v: V, now: nat, later: nat, ttl: nat)
    requires now <= later < now + ttl
    ensures Get(Put(m, k, v, now), k, later, ttl) == Some(v)
  {
  }
}
