/**
 The eviction pass (`_cull`) that runs before every write once the entry
 count reaches the configured cap.

 The source picks its victims with `ORDER BY RANDOM() LIMIT n`; the model
 takes the picked keys as a parameter and requires only what any such
 sample satisfies: they are distinct keys of the table and there are as many
 of them as the query returns.
 */
module Culling {
  import opened Entries

  /** The two settings the eviction pass reads (`MAX_ENTRIES` and
      `CULL_FREQUENCY`), taken as given integers. */
  datatype Config = Config(maxEntries: int, cullFrequency: int)

  /** Multiplying by a positive factor does not shrink a natural number. */
  lemma MulAtLeast(b: int, q: int)
    requires b >= 1 && q >= 0
    ensures b * q >= q
  {
  }

  /** Bounds on the quotient of a non-negative number by a positive one. */
  lemma QuotientBounds(a: nat, b: int)
    requires b > 0
    ensures 0 <= a / b <= a
    ensures a / b == 0 <==> a < b
  {
    var q, r := a / b, a % b;
    assert a == b * q + r && 0 <= r < b;
    assert q >= 0;
    MulAtLeast(b, q);
  }

  /** `int(count / freq)`: true division followed by truncation toward zero. */
  function CullLimit(count: nat, freq: int): (limit: int)
    requires freq != 0
    ensures freq > 0 ==> 0 <= limit <= count && (limit == 0 <==> count < freq)
    ensures freq < 0 ==> -limit <= count && limit <= 0 && (limit == 0 <==> count < -freq)
    // the truncated quotient itself: the largest whole number of |freq|s that fit in count
    ensures freq > 0 ==> limit * freq <= count < (limit + 1) * freq
    ensures freq < 0 ==> -limit * -freq <= count < (-limit + 1) * -freq
  {
    if freq > 0 then
      QuotientBounds(count, freq);
      count / freq
    else
      QuotientBounds(count, -freq);
      -(count / -freq)
  }

  /** How many keys `LIMIT limit` returns from a table of `count` rows:
      SQLite reads a negative limit as "no limit". */
  function SampleSize(count: nat, freq: int): (n: nat)
    requires freq != 0
    ensures n <= count
    // a positive frequency samples count / freq keys
    ensures freq > 0 ==> n == count / freq
    // a negative one samples every row once count reaches |freq|, and none before
    ensures freq < 0 ==> n == (if count >= -freq then count else 0)
  {
    var limit := CullLimit(count, freq);
    if limit < 0 then count else limit
  }

  /** The cap is reached: the pass does something. */
  predicate Triggered(count: nat, cfg: Config)
  {
    count >= cfg.maxEntries
  }

  /** The sampling branch runs: the cap is reached and the pass is not a
      full clear. */
  predicate Samples(count: nat, cfg: Config)
  {
    Triggered(count, cfg) && cfg.cullFrequency != 0
  }

  /** `victims` is a possible outcome of the random sample. Nothing is asked
      of it when the sampling query does not run. */
  predicate ValidVictims(rows: map<Key, Entry>, cfg: Config, victims: set<Key>)
  {
    Samples(|rows|, cfg) ==>
      victims <= rows.Keys && |victims| == SampleSize(|rows|, cfg.cullFrequency)
  }

  /** The deletion loop of the eviction pass: one `DELETE ... WHERE key = ?`
      per key the sample query returned, in the order returned. Deleting a
      key that has no row changes nothing. Its result is the set difference
      `rows - victims` that `Cull` uses for the sampling branch, with
      `victims` the set of the returned keys. */
  method DeleteSampled(rows: map<Key, Entry>, keys: seq<Key>) returns (r: map<Key, Entry>)
    ensures r == rows - set k | k in keys
  {
    r := rows;
    var i := 0;
    while i < |keys|
      invariant 0 <= i <= |keys|
      invariant r.Keys == rows.Keys - set k | k in keys[..i]
      invariant forall k :: k in r ==> r[k] == rows[k]
    {
      assert keys[..i + 1] == keys[..i] + [keys[i]];
      r := r - {keys[i]};
      i := i + 1;
    }
    assert keys[..i] == keys;
  }

  /** The eviction pass over the rows of an existing table. */
  function Cull(rows: map<Key, Entry>, cfg: Config, victims: set<Key>): (r: map<Key, Entry>)
    requires ValidVictims(rows, cfg, victims)
    // the pass only deletes: every surviving row is unchanged
    ensures r.Keys <= rows.Keys
    ensures forall k :: k in r ==> r[k] == rows[k]
    // below the cap nothing happens
    ensures !Triggered(|rows|, cfg) ==> r == rows
    // a cull frequency of zero clears the table
    ensures Triggered(|rows|, cfg) && cfg.cullFrequency == 0 ==> r == map[]
    // otherwise exactly the sampled keys go, and nothing else
    ensures Samples(|rows|, cfg) ==> r.Keys == rows.Keys - victims
    ensures Samples(|rows|, cfg) ==> |r| == |rows| - SampleSize(|rows|, cfg.cullFrequency)
    // with a positive frequency that is count / frequency rows, rounded down
    ensures Samples(|rows|, cfg) && cfg.cullFrequency > 0 ==>
      |rows| - |r| == |rows| / cfg.cullFrequency
    // with a negative one the limit is negative or zero: all rows go, or none
    ensures Samples(|rows|, cfg) && cfg.cullFrequency < 0 ==>
      (if |rows| >= -cfg.cullFrequency then r == map[] else r == rows)
  {
    if |rows| < cfg.maxEntries then
      rows
    else if cfg.cullFrequency == 0 then
      map[]
    else
      rows - victims
  }

  /** Once the cap is reached and the frequency is within the cap, the pass
      removes at least one row (or clears the table). */
  lemma CullShrinksAtCap(rows: map<Key, Entry>, cfg: Config, victims: set<Key>)
    requires ValidVictims(rows, cfg, victims)
    requires |rows| == cfg.maxEntries >= 1
    requires -cfg.maxEntries <= cfg.cullFrequency <= cfg.maxEntries
    ensures |Cull(rows, cfg, victims)| < |rows|
  {
  }
}
