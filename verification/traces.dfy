/**
 Sequences of cache operations, each at its own time, run against one store.
 Removing the backing file between two calls is one of the steps, because
 the cache is meant to survive it.
 */
module Traces {
  import opened Entries
  import opened Culling
  import opened FileCache
  import opened CacheProperties

  /** One call on the cache, with the time it runs at and, for writes, the
      keys the random eviction sample picks. */
  datatype Op =
    | GetOp(key: Key, default: Blob, now: int)
    | SetOp(key: Key, value: Blob, expiresAt: int, victims: set<Key>)
    | AddOp(key: Key, value: Blob, expiresAt: int, victims: set<Key>, now: int)
    | TouchOp(key: Key, expiresAt: int, now: int)
    | DeleteOp(key: Key, now: int)
    | HasKeyOp(key: Key, now: int)
    | ClearOp
    | RemoveFile

  /** The store after one call; `None` when the eviction sample the call
      names is not one the query could have returned. */
  function Step(s: Store, op: Op, cfg: Config): (r: Option<Store>)
    ensures r.None? <==>
      (op.SetOp? && !ValidVictims(Rows(s), cfg, op.victims)) ||
      (op.AddOp? && !AddVictims(s, op.key, cfg, op.victims, op.now))
    ensures r.Some? && !op.SetOp? && !op.AddOp? ==> Count(r.value) <= Count(s)
  {
    match op
    case GetOp(key, default, now) => Some(Get(s, key, default, now).store)
    case SetOp(key, value, expiresAt, victims) =>
      if ValidVictims(Rows(s), cfg, victims) then Some(Set(s, key, value, expiresAt, cfg, victims))
      else None
    case AddOp(key, value, expiresAt, victims, now) =>
      if AddVictims(s, key, cfg, victims, now) then Some(Add(s, key, value, expiresAt, cfg, victims, now).store)
      else None
    case TouchOp(key, expiresAt, now) => Some(Touch(s, key, expiresAt, now).store)
    case DeleteOp(key, now) => Some(Delete(s, key, now).store)
    case HasKeyOp(key, now) => Some(HasKey(s, key, now).store)
    case ClearOp => Some(Clear(s))
    case RemoveFile => Some(Missing)
  }

  /** The store after running `ops` in order, or `None` if some step's
      eviction sample is impossible. */
  function Run(s: Store, ops: seq<Op>, cfg: Config): Option<Store>
    decreases |ops|
  {
    if ops == [] then Some(s)
    else
      match Step(s, ops[0], cfg)
      case None => None
      case Some(t) => Run(t, ops[1..], cfg)
  }

  /** One call keeps the table within the cap. */
  lemma StepKeepsBound(s: Store, op: Op, cfg: Config)
    requires BoundingConfig(cfg) && Bounded(s, cfg)
    requires Step(s, op, cfg).Some?
    ensures Bounded(Step(s, op, cfg).value, cfg)
  {
  }

  /** Starting within the cap, every possible run stays within it. */
  lemma {:induction false} RunKeepsBound(s: Store, ops: seq<Op>, cfg: Config)
    requires BoundingConfig(cfg) && Bounded(s, cfg)
    requires Run(s, ops, cfg).Some?
    ensures Bounded(Run(s, ops, cfg).value, cfg)
    decreases |ops|
  {
    if ops != [] {
      StepKeepsBound(s, ops[0], cfg);
      RunKeepsBound(Step(s, ops[0], cfg).value, ops[1..], cfg);
    }
  }
}
