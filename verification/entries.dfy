/**
 The rows of the `cache_entries` table and the rule that decides whether a
 row is still live.

 The SQLite table is modelled as a finite map from key to entry: the primary
 key constraint on `key` is exactly what makes a map (and not a bag of rows)
 the right abstraction. The table itself may be missing, because the backing
 file can be removed between two operations.
 */
module Entries {

  /** A cache key after the host framework has built and validated it. */
  type Key = string

  /** A stored payload: the application value after serialisation and
      compression. The codec is modelled as the identity. */
  type Blob = seq<bv8>

  /** One row: the encoded value and its absolute expiry time in seconds. */
  datatype Entry = Entry(value: Blob, expiresAt: int)

  /** The backing table: absent (file removed, table never created) or
      present with one row per key. */
  datatype Store = Missing | Table(rows: map<Key, Entry>)

  datatype Option<+T> = None | Some(value: T)

  /** A row is live while the clock has not passed its expiry: a row whose
      `expiresAt` equals `now` is still live, only `expiresAt < now` is dead. */
  predicate IsLive(e: Entry, now: int)
  {
    now <= e.expiresAt
  }

  /** The rows visible in a store; a missing table reads as empty. */
  function Rows(s: Store): map<Key, Entry>
  {
    if s.Table? then s.rows else map[]
  }

  /** What `SELECT COUNT(key) FROM cache_entries` reports, dead rows included. */
  function Count(s: Store): nat
  {
    |Rows(s)|
  }

  /** The observable contents of the cache at time `now`: the value of every
      live row. Dead rows are, for every read, the same as absent rows. */
  function LiveView(s: Store, now: int): (v: map<Key, Blob>)
    ensures forall k :: k in v <==> k in Rows(s) && IsLive(Rows(s)[k], now)
    ensures forall k :: k in v ==> v[k] == Rows(s)[k].value
  {
    map k | k in Rows(s) && IsLive(Rows(s)[k], now) :: Rows(s)[k].value
  }
}
