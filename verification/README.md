# SQLite file cache — Dafny model

This project models the storage-and-eviction engine of `SQLiteFileCache`, a
Django cache backend that keeps every entry as one row
`(key, value, expires_at)` of a single SQLite table.

The table is modelled as `Store = Missing | Table(rows: map<Key, Entry>)`.
`Missing` stands for a backing file or table that was removed. The primary
key on `key` is what makes a map the right abstraction: a key can have at
most one row.

Each public operation is a pure function. It takes the store, the current
time `now` and, for writes, the eviction settings. It returns the next store
together with the operation's answer.

- A row is live while `now <= expires_at`. A row whose expiry equals `now` is
  still live.
- `get`, `has_key` and `touch` delete a dead row when they find one (lazy
  expiration). The read paths treat a missing table as empty and leave it
  missing.
- `set` creates the table if needed and runs the eviction pass (`_cull`).
  It then writes the row.
- The eviction pass does one of three things. Below `MAX_ENTRIES` it does
  nothing. With `CULL_FREQUENCY == 0` it clears the table. Otherwise it
  deletes the keys returned by
  `ORDER BY RANDOM() LIMIT int(count / CULL_FREQUENCY)`. For a positive
  frequency that is that many keys. For a negative one the limit is zero or
  negative, and SQLite reads a negative limit as no limit: every row goes
  once the count reaches `abs(CULL_FREQUENCY)`, and none before. The sampled
  keys are a parameter, constrained to be a possible result of that query.

Modules:

- `Entries` (`entries.dfy`): rows, the liveness rule, and `LiveView`, the
  map of live values a caller can observe.
- `Culling` (`culling.dfy`): the eviction pass.
- `FileCache` (`file_cache.dfy`): the public operations.
- `CacheProperties` (`properties.dfy`): the operations related to
  `LiveView`, round trips and the entry-count bound.
- `Traces` (`traces.dfy`): runs of arbitrary operation sequences, including
  removal of the backing file, and the count bound over any run.

`get` catches only `sqlite3.OperationalError`
(django_sqlite_file_cache/__init__.py:29-45), so a failure in
`zlib.decompress` or `pickle.loads` at line 41 propagates to the caller. The
model's codec is the identity, so decoding cannot fail.

## Model

| member | source | states |
|---|---|---|
| Culling.CullLimit | django_sqlite_file_cache/__init__.py:171 | `int(count / freq)` truncates toward zero: `abs(limit)` is the largest whole number with `abs(limit) * abs(freq) <= count`, with the sign of `freq`; so it lies in `0..count` for a positive frequency and in `-count..0` for a negative one, and is zero exactly when `count` is smaller than the frequency's magnitude |
| Culling.SampleSize | django_sqlite_file_cache/__init__.py:172-173 | the number of keys `ORDER BY RANDOM() LIMIT int(count / freq)` returns, in terms of the count and the frequency: never more than the row count; `count / freq` for a positive frequency; for a negative frequency every row once `count >= abs(freq)` (the limit is then negative, which SQLite reads as "no limit") and none before |
| Culling.Cull | django_sqlite_file_cache/__init__.py:162-180 | the pass only deletes rows and changes no surviving row; below the cap the rows are unchanged; with frequency 0 the table is emptied; otherwise exactly the sampled keys go, `count / freq` of them for a positive frequency, and for a negative frequency either all rows or none |
| Culling.DeleteSampled | django_sqlite_file_cache/__init__.py:174-180 | the per-key delete loop over the sampled keys leaves exactly `rows - set(keys)`: the listed keys are gone (a key without a row is a no-op) and every other row is unchanged, the set difference `Cull` uses |
| Culling.CullShrinksAtCap | django_sqlite_file_cache/__init__.py:162-180 | at the cap, with a frequency no larger in magnitude than the cap, the pass removes at least one row |
| FileCache.CreateFile | django_sqlite_file_cache/__init__.py:152-160 | afterwards the table exists; an existing table keeps every row (the create is idempotent) |
| FileCache.Probe | django_sqlite_file_cache/__init__.py:29-45 | the shared read-path lookup returns the row exactly when it is live; a dead row, and only that row, is deleted; an absent key or a missing table changes nothing |
| FileCache.Get | django_sqlite_file_cache/__init__.py:25-45 | a missing table or absent key gives `default` and no change; a dead row is deleted and gives `default`; a live row gives its value and no change |
| FileCache.HasKey | django_sqlite_file_cache/__init__.py:123-143 | true iff a live row exists; a dead row is deleted; otherwise the store is unchanged |
| FileCache.Touch | django_sqlite_file_cache/__init__.py:74-98 | true iff a live row exists, and then only its expiry is replaced (the value is kept); a dead row is deleted and gives false; an absent key gives false with no change |
| FileCache.Delete | django_sqlite_file_cache/__init__.py:100-121 | any existing row is removed, live or not; the answer is true iff the row was live; afterwards the key has no row; an absent key or missing table changes nothing |
| FileCache.Clear | django_sqlite_file_cache/__init__.py:145-150 | afterwards no rows; a missing table stays missing (the error is swallowed) |
| FileCache.Set | django_sqlite_file_cache/__init__.py:47-72 | afterwards the table exists and the key has exactly the new value and expiry; every other row is one that was there before and survived the eviction pass; the key set is old keys + key below the cap, {key} after a full clear, and old keys − victims + key after sampling |
| FileCache.Add | django_sqlite_file_cache/__init__.py:18-23 | true iff no live row existed; when false the store is unchanged; when true the key holds the new value and expiry, every other row is one that was there before and survived the eviction pass, and the key set is pinned for every eviction branch, taken over the table `has_key` left: the old keys plus `key` below the cap, `{key}` after a full clear, and those keys minus the victims plus `key` after sampling |
| CacheProperties.ReapKeepsView | django_sqlite_file_cache/__init__.py:34-39 | deleting a dead row does not change what any read can observe |
| CacheProperties.ProbeKeepsView | django_sqlite_file_cache/__init__.py:29-45 | the lookup shared by the read paths never changes the observable contents, and finds a row iff the key is observable |
| CacheProperties.GetMatchesView | django_sqlite_file_cache/__init__.py:25-45 | `get` returns the key's observable value, or `default` when the key is not observable, and leaves the observable contents unchanged |
| CacheProperties.HasKeyMatchesView | django_sqlite_file_cache/__init__.py:123-143 | `has_key` is membership in the observable contents and leaves them unchanged |
| CacheProperties.TouchMatchesView | django_sqlite_file_cache/__init__.py:78-98 | `touch` succeeds iff the key is observable; the observable contents stay the same unless the new expiry is already past, in which case only that key disappears |
| CacheProperties.DeleteMatchesView | django_sqlite_file_cache/__init__.py:104-121 | `delete` answers whether the key was observable; afterwards the observable contents are the old ones without that key |
| CacheProperties.ClearEmptiesView | django_sqlite_file_cache/__init__.py:145-150 | after `clear` nothing is observable, whether or not the table existed |
| CacheProperties.WriteView | django_sqlite_file_cache/__init__.py:63-68 | writing one row (update or insert) changes the observable contents at that key only: it maps to the new value if the row is live, otherwise the key is unobservable |
| CacheProperties.SetThenGet | tests/test_cache.py:27-32 | round trip: after `set` with an expiry not yet past, `get` at the same instant returns the value just set and changes nothing |
| CacheProperties.SetExpiredThenHasKey | django_sqlite_file_cache/__init__.py:132-137 | a row set with an expiry already past is dead at once: `has_key` is false and deletes it |
| CacheProperties.SetMatchesView | django_sqlite_file_cache/__init__.py:47-72 | below the cap, `set` changes the observable contents at its key only (new value, or absent if the expiry is past) |
| CacheProperties.OverwriteKeepsCount | django_sqlite_file_cache/__init__.py:55-68 | setting a key that already has a row, below the cap, adds no row: the count is unchanged (last write wins, no duplicates) |
| CacheProperties.FullClearLeavesOne | django_sqlite_file_cache/__init__.py:165-169 | with `CULL_FREQUENCY == 0`, a `set` at the cap leaves exactly one row, the one it wrote |
| CacheProperties.AddThenHasKey | django_sqlite_file_cache/__init__.py:18-23 | `add` succeeds iff the key was not observable; after it, with an expiry not past, `has_key` is true |
| CacheProperties.SetKeepsBound | django_sqlite_file_cache/__init__.py:162-180 | with `1 <= MAX_ENTRIES` and `abs(CULL_FREQUENCY) <= MAX_ENTRIES`, a `set` on a table within the cap leaves it within the cap |
| Traces.Step | django_sqlite_file_cache/__init__.py:18-150 | a call is impossible only when its eviction sample could not have been returned; calls other than `set` and `add` never increase the row count |
| Traces.StepKeepsBound | django_sqlite_file_cache/__init__.py:18-150 | with `1 <= MAX_ENTRIES` and `abs(CULL_FREQUENCY) <= MAX_ENTRIES`, every single call, including removal of the backing file, keeps a table within the cap within it |
| Traces.RunKeepsBound | django_sqlite_file_cache/__init__.py:162-180 | with `1 <= MAX_ENTRIES` and `abs(CULL_FREQUENCY) <= MAX_ENTRIES`, starting within the cap, every possible sequence of calls keeps the table within the cap |

## Left out

- SQLite connections, SQL text, commits and the `:memory:` location are left out. They are I/O. The table is the `Store` value, and `__init__` amounts to `CreateFile` on whatever store the location holds.
- `pickle`/`zlib` encoding and decoding are left out. They are foreign library codecs, modelled as the identity: values are stored blobs (`seq<bv8>`).
- `make_key`, `validate_key`, `get_backend_timeout`, `DEFAULT_TIMEOUT`, `_max_entries` and `_cull_frequency` are left out. They come from Django's `BaseCache`, which is not part of this model. Keys are taken already normalised, expiries as absolute times, and the settings as a `Config`.
- A `None` timeout is not modelled. `get_backend_timeout` turns it into a NULL `expires_at`, which the NOT NULL column would reject.
- `time.time()` is not modelled. Times are integers passed in. `touch` reads the clock twice (liveness, then new expiry); the model uses one `now` and takes the new expiry as given.
- `ORDER BY RANDOM()` is not modelled. The sampled keys are a parameter constrained to be a possible result of the query.
- `int(count / freq)` goes through a float in the source. The model divides exactly, which agrees for any count below 2^53.
- `get_many`, `set_many` and `delete_many` are left out. They are `BaseCache` defaults and are not defined in the modelled file.
- Concurrent access from several processes and busy/lock timeouts are left out. The model is sequential.
- CacheProperties.SetKeepsBound: stated only for `1 <= MAX_ENTRIES` and `abs(CULL_FREQUENCY) <= MAX_ENTRIES`. Outside that range the source itself lets the table grow past the cap, because `count / freq` rounds to zero at the cap, and because a cap below 1 cannot hold the row `set` writes. The same restriction applies to Traces.StepKeepsBound and Traces.RunKeepsBound.
- Removing the backing file is modelled as the table going missing, which is what the read paths' `except sqlite3.OperationalError` clauses expect. What SQLite does with the connection that `__init__` opened and keeps open is not modelled. No proved count bound depends on this step.
