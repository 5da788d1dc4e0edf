/** The two engines read a ttl of 0 differently: NullAdapter stores
    expire_at = now, fresh for that one second, while LocalAdapter finds 0
    falsy and stores the never-stamp. */
module TtlDivergence {
  import opened CacheTypes
  import opened KeyValidation
  import NullCache
  import LocalCache

  lemma ZeroTtlDiverges(data: map<string, NullCache.Record>, dir: map<string, LocalCache.Child>,
                        key: string, value: Value, t: int, default: Value)
    requires ValidKey(key) && t != 0 && t + 1 != 0 && t + 1 <= LocalCache.Never
    ensures NullCache.Lookup(NullCache.Store(data, key, value, Some(0), t), key, default, t) == Ok(value)
    ensures NullCache.Lookup(NullCache.Store(data, key, value, Some(0), t), key, default, t + 1) == Ok(default)
    ensures LocalCache.ReadValue(LocalCache.Written(dir, key, value, Some(0), t), key, default, t) == value
    ensures LocalCache.ReadValue(LocalCache.Written(dir, key, value, Some(0), t), key, default, t + 1) == value
  {
    LocalCache.NeverStampLasts(dir, key, value, Some(0), t, t);
    LocalCache.NeverStampLasts(dir, key, value, Some(0), t, t + 1);
  }

  /** For every non-zero ttl, positive or negative, both engines give get the
      same answer at every time, unless the stored expiry t + d is exactly 0:
      only a null or zero ttl tells them apart. */
  lemma NonzeroTtlAgrees(data: map<string, NullCache.Record>, dir: map<string, LocalCache.Child>,
                          key: string, value: Value, d: int, t: int, now: int, default: Value)
    requires ValidKey(key) && d != 0 && t + d != 0
    ensures NullCache.Lookup(NullCache.Store(data, key, value, Some(d), t), key, default, now) ==
      Ok(LocalCache.ReadValue(LocalCache.Written(dir, key, value, Some(d), t), key, default, now))
  {
    LocalCache.InspectWritten(dir, key, value, Some(d), t, now);
  }
}
