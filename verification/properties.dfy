/**
 Properties of the cache operations, stated against `LiveView`, the map of
 live values that a caller of the cache can observe. Reaping a dead row
 changes the table but never what a caller sees.
 */
module CacheProperties {
  import opened Entries
  import opened Culling
  import opened FileCache

  /** Deleting a dead row leaves the observable contents unchanged. */
  lemma ReapKeepsView(s: Store, key: Key, now: int)
    requires key in Rows(s) && !IsLive(Rows(s)[key], now)
    ensures LiveView(Table(Rows(s) - {key}), now) == LiveView(s, now)
  {
  }

  /** The lookup every read path shares is invisible to callers: it returns
      the live row exactly when the key is in the view. */
  lemma ProbeKeepsView(s: Store, key: Key, now: int)
    ensures LiveView(Probe(s, key, now).store, now) == LiveView(s, now)
    ensures Probe(s, key, now).result.Some? <==> key in LiveView(s, now)
  {
  }

  /** `get` returns the observable value, or the default when there is none,
      and does not change what callers observe. */
  lemma GetMatchesView(s: Store, key: Key, default: Blob, now: int)
    ensures Get(s, key, default, now).result ==
      (if key in LiveView(s, now) then LiveView(s, now)[key] else default)
    ensures LiveView(Get(s, key, default, now).store, now) == LiveView(s, now)
  {
  }

  /** `has_key` reports membership in the view, and does not change it. */
  lemma HasKeyMatchesView(s: Store, key: Key, now: int)
    ensures HasKey(s, key, now).result <==> key in LiveView(s, now)
    ensures LiveView(HasKey(s, key, now).store, now) == LiveView(s, now)
  {
  }

  /** `touch` succeeds exactly for keys in the view; the value stays, and the
      key stays observable unless the new expiry is already past. */
  lemma TouchMatchesView(s: Store, key: Key, expiresAt: int, now: int)
    ensures Touch(s, key, expiresAt, now).result <==> key in LiveView(s, now)
    ensures LiveView(Touch(s, key, expiresAt, now).store, now) ==
      if key in LiveView(s, now) && expiresAt < now then LiveView(s, now) - {key}
      else LiveView(s, now)
  {
  }

  /** `delete` reports whether the key was observable, and afterwards it is
      not; nothing else observable changes. */
  lemma DeleteMatchesView(s: Store, key: Key, now: int)
    ensures Delete(s, key, now).result <==> key in LiveView(s, now)
    ensures LiveView(Delete(s, key, now).store, now) == LiveView(s, now) - {key}
  {
  }

  /** After `clear` nothing is observable. */
  lemma ClearEmptiesView(s: Store, now: int)
    ensures LiveView(Clear(s), now) == map[]
  {
  }

  /** Round trip: a value set with an expiry not yet passed is what `get`
      returns at the same instant, and the read leaves the store alone. */
  lemma SetThenGet(s: Store, key: Key, value: Blob, expiresAt: int, cfg: Config,
                   victims: set<Key>, default: Blob, now: int)
    requires ValidVictims(Rows(s), cfg, victims)
    requires now <= expiresAt
    ensures var t := Set(s, key, value, expiresAt, cfg, victims);
      Get(t, key, default, now) == Reply(t, value)
  {
  }

  /** An expiry already in the past makes the fresh row dead at once:
      `has_key` is false and deletes it. */
  lemma SetExpiredThenHasKey(s: Store, key: Key, value: Blob, expiresAt: int, cfg: Config,
                             victims: set<Key>, now: int)
    requires ValidVictims(Rows(s), cfg, victims)
    requires expiresAt < now
    ensures var t := Set(s, key, value, expiresAt, cfg, victims);
      HasKey(t, key, now) == Reply(Table(Rows(t) - {key}), false)
  {
  }

  /** Writing one row changes the view at that key only. */
  lemma WriteView(s: Store, key: Key, e: Entry, now: int)
    ensures LiveView(Table(Rows(s)[key := e]), now) ==
      if IsLive(e, now) then LiveView(s, now)[key := e.value] else LiveView(s, now) - {key}
  {
  }

  /** Below the cap, `set` changes the view at `key` only. */
  lemma SetMatchesView(s: Store, key: Key, value: Blob, expiresAt: int, cfg: Config,
                       victims: set<Key>, now: int)
    requires ValidVictims(Rows(s), cfg, victims)
    requires !Triggered(Count(s), cfg)
    ensures LiveView(Set(s, key, value, expiresAt, cfg, victims), now) ==
      if now <= expiresAt then LiveView(s, now)[key := value] else LiveView(s, now) - {key}
  {
  }

  /** Last write wins without a second row: setting a key that is already
      stored (and not evicted) leaves the row count unchanged. */
  lemma OverwriteKeepsCount(s: Store, key: Key, value: Blob, expiresAt: int, cfg: Config,
                            victims: set<Key>)
    requires ValidVictims(Rows(s), cfg, victims)
    requires key in Rows(s) && !Triggered(Count(s), cfg)
    ensures Count(Set(s, key, value, expiresAt, cfg, victims)) == Count(s)
  {
  }

  /** With a cull frequency of zero, a `set` that reaches the cap leaves only
      the row it wrote. */
  lemma FullClearLeavesOne(s: Store, key: Key, value: Blob, expiresAt: int, cfg: Config,
                           victims: set<Key>)
    requires Triggered(Count(s), cfg) && cfg.cullFrequency == 0
    ensures Count(Set(s, key, value, expiresAt, cfg, victims)) == 1
  {
  }

  /** A successful `add` is observable at once, provided its expiry is not
      past; a refused one found the key observable. */
  lemma AddThenHasKey(s: Store, key: Key, value: Blob, expiresAt: int, cfg: Config,
                      victims: set<Key>, now: int)
    requires AddVictims(s, key, cfg, victims, now)
    requires now <= expiresAt
    ensures HasKey(Add(s, key, value, expiresAt, cfg, victims, now).store, key, now).result
    ensures Add(s, key, value, expiresAt, cfg, victims, now).result <==> key !in LiveView(s, now)
  {
  }

  /** The entry-count bound: the table never exceeds the cap. */
  predicate Bounded(s: Store, cfg: Config)
  {
    Count(s) <= cfg.maxEntries
  }

  /** The settings under which the eviction pass keeps the table within the
      cap: a positive cap, and a frequency no larger in magnitude than it
      (otherwise `count / frequency` rounds to zero at the cap). */
  predicate BoundingConfig(cfg: Config)
  {
    1 <= cfg.maxEntries && -cfg.maxEntries <= cfg.cullFrequency <= cfg.maxEntries
  }

  /** Inserting one more row into a table at the cap still ends within it. */
  lemma SetKeepsBound(s: Store, key: Key, value: Blob, expiresAt: int, cfg: Config,
                      victims: set<Key>)
    requires ValidVictims(Rows(s), cfg, victims)
    requires BoundingConfig(cfg) && Bounded(s, cfg)
    ensures Bounded(Set(s, key, value, expiresAt, cfg, victims), cfg)
  {
  }
}
