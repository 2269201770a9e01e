/**
 The public operations of the SQLite file cache, as pure functions from the
 current store (and the current time, and the eviction settings) to the next
 store and the value the operation returns.

 Every read path (`Get`, `HasKey`, `Touch`, `Delete`) treats a missing table
 as an empty one and leaves it missing; the write path (`Set`, and `Add`
 when it writes) creates the table first.
 */
module FileCache {
  import opened Entries
  import opened Culling

  /** The store after an operation, and what the operation returned. */
  datatype Reply<T> = Reply(store: Store, result: T)

  /** `CREATE TABLE IF NOT EXISTS`: afterwards the table exists, and an
      existing table keeps all its rows. */
  function CreateFile(s: Store): (r: Store)
    ensures r.Table?
    ensures Rows(r) == Rows(s)
    ensures s.Table? ==> r == s
  {
    match s
    case Missing => Table(map[])
    case Table(_) => s
  }

  /** The lookup shared by the read paths: select the row of `key`; if it is
      dead, delete it. Returns the live row, if there is one. */
  function Probe(s: Store, key: Key, now: int): (r: Reply<Option<Entry>>)
    ensures r.result.Some? <==> key in Rows(s) && IsLive(Rows(s)[key], now)
    ensures r.result.Some? ==> r.result.value == Rows(s)[key] && r.store == s
    ensures key in Rows(s) && !IsLive(Rows(s)[key], now) ==> r.store == Table(Rows(s) - {key})
    ensures key !in Rows(s) ==> r.store == s
  {
    match s
    case Missing => Reply(s, None)
    case Table(rows) =>
      if key !in rows then Reply(s, None)
      else if rows[key].expiresAt < now then Reply(Table(rows - {key}), None)
      else Reply(s, Some(rows[key]))
  }

  /** `get(key, default)`: the stored value of a live row, otherwise `default`;
      a dead row is deleted on the way. */
  function Get(s: Store, key: Key, default: Blob, now: int): (r: Reply<Blob>)
    ensures s.Missing? ==> r == Reply(Missing, default)
    ensures key !in Rows(s) ==> r == Reply(s, default)
    ensures key in Rows(s) && Rows(s)[key].expiresAt < now ==>
      r == Reply(Table(Rows(s) - {key}), default)
    ensures key in Rows(s) && now <= Rows(s)[key].expiresAt ==>
      r == Reply(s, Rows(s)[key].value)
  {
    var p := Probe(s, key, now);
    Reply(p.store, if p.result.Some? then p.result.value.value else default)
  }

  /** `has_key(key)`: whether a live row exists; a dead row is deleted. */
  function HasKey(s: Store, key: Key, now: int): (r: Reply<bool>)
    ensures r.result <==> key in Rows(s) && IsLive(Rows(s)[key], now)
    ensures r.result || key !in Rows(s) ==> r.store == s
    ensures key in Rows(s) && Rows(s)[key].expiresAt < now ==>
      r.store == Table(Rows(s) - {key})
  {
    var p := Probe(s, key, now);
    Reply(p.store, p.result.Some?)
  }

  /** `touch(key)`: give a live row the new expiry `expiresAt`, keeping its
      value; a dead row is deleted and, like an absent one, reported false. */
  function Touch(s: Store, key: Key, expiresAt: int, now: int): (r: Reply<bool>)
    ensures r.result <==> key in Rows(s) && IsLive(Rows(s)[key], now)
    ensures r.result ==>
      r.store == Table(Rows(s)[key := Entry(Rows(s)[key].value, expiresAt)])
    ensures key !in Rows(s) ==> r == Reply(s, false)
    ensures key in Rows(s) && Rows(s)[key].expiresAt < now ==>
      r == Reply(Table(Rows(s) - {key}), false)
  {
    var p := Probe(s, key, now);
    match p.result
    case Some(e) => Reply(Table(Rows(p.store)[key := Entry(e.value, expiresAt)]), true)
    case None => Reply(p.store, false)
  }

  /** `delete(key)`: remove the row whatever its expiry, and report whether
      it was still live. */
  function Delete(s: Store, key: Key, now: int): (r: Reply<bool>)
    ensures key !in Rows(r.store)
    ensures r.result <==> key in Rows(s) && IsLive(Rows(s)[key], now)
    ensures key in Rows(s) ==> r.store == Table(Rows(s) - {key})
    ensures key !in Rows(s) ==> r.store == s
  {
    match s
    case Missing => Reply(s, false)
    case Table(rows) =>
      if key in rows then
        Reply(Table(rows - {key}), !(rows[key].expiresAt < now))
      else
        Reply(s, false)
  }

  /** `clear()`: delete every row; a missing table stays missing. */
  function Clear(s: Store): (r: Store)
    ensures Rows(r) == map[]
    ensures r.Table? <==> s.Table?
  {
    match s
    case Missing => Missing
    case Table(_) => Table(map[])
  }

  /** `set(key, value)`: create the table if needed, run the eviction pass
      with the sampled `victims`, then insert or update the row of `key`.
      Updating an existing row and inserting a new one both leave exactly
      one row for the key, so both are one map update. */
  function Set(s: Store, key: Key, value: Blob, expiresAt: int,
               cfg: Config, victims: set<Key>): (r: Store)
    requires ValidVictims(Rows(s), cfg, victims)
    ensures r.Table?
    ensures key in Rows(r) && Rows(r)[key] == Entry(value, expiresAt)
    // every other row is the one that was there, and survived the eviction
    ensures forall k :: k in Rows(r) && k != key ==> k in Rows(s) && Rows(r)[k] == Rows(s)[k]
    ensures !Triggered(Count(s), cfg) ==> Rows(r).Keys == Rows(s).Keys + {key}
    ensures Triggered(Count(s), cfg) && cfg.cullFrequency == 0 ==> Rows(r).Keys == {key}
    ensures Samples(Count(s), cfg) ==> Rows(r).Keys == Rows(s).Keys - victims + {key}
  {
    var culled := Cull(Rows(CreateFile(s)), cfg, victims);
    Table(culled[key := Entry(value, expiresAt)])
  }

  /** The condition on the eviction sample under which `add` is defined:
      it only matters when `add` goes on to write. */
  predicate AddVictims(s: Store, key: Key, cfg: Config, victims: set<Key>, now: int)
  {
    var h := HasKey(s, key, now);
    !h.result ==> ValidVictims(Rows(h.store), cfg, victims)
  }

  /** `add(key, value)`: `set` unless a live row already exists; reports
      whether it wrote. */
  function Add(s: Store, key: Key, value: Blob, expiresAt: int,
               cfg: Config, victims: set<Key>, now: int): (r: Reply<bool>)
    requires AddVictims(s, key, cfg, victims, now)
    ensures r.result <==> !(key in Rows(s) && IsLive(Rows(s)[key], now))
    ensures !r.result ==> r.store == s
    ensures r.result ==>
      r.store.Table? && key in Rows(r.store) && Rows(r.store)[key] == Entry(value, expiresAt)
    // when it writes, every other row is one that was there and survived the eviction
    ensures r.result ==>
      forall k :: k in Rows(r.store) && k != key ==> k in Rows(s) && Rows(r.store)[k] == Rows(s)[k]
    ensures r.result && !Triggered(Count(HasKey(s, key, now).store), cfg) ==>
      Rows(r.store).Keys == Rows(s).Keys + {key}
    // at the cap it evicts as `set` does, from the table `has_key` left
    ensures r.result && Triggered(Count(HasKey(s, key, now).store), cfg) && cfg.cullFrequency == 0 ==>
      Rows(r.store).Keys == {key}
    ensures r.result && Samples(Count(HasKey(s, key, now).store), cfg) ==>
      Rows(r.store).Keys == Rows(HasKey(s, key, now).store).Keys - victims + {key}
  {
    var h := HasKey(s, key, now);
    if h.result then Reply(h.store, false)
    else Reply(Set(h.store, key, value, expiresAt, cfg, victims), true)
  }
}
