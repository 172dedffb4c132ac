/** One cache entry: its key, value, lifespan and creation time never change;
    its access time, access count and expiry callback do. */
module CacheItems {
  import opened CacheBase

  class CacheItem<K, V> {
    const key: K
    const data: V
    /** How long the entry may stay without a keep-alive; 0 means forever. */
    const lifeSpan: Duration
    const createdOn: Time
    var accessedOn: Time
    var accessCount: int
    /** Invoked with the key right before the entry is removed from a table. */
    var aboutToExpire: Option<HookId>

    /** Access stats that only keep-alives at a non-decreasing clock produce. */
    ghost predicate Consistent()
      reads this
    {
      createdOn <= accessedOn && accessCount >= 0
    }

    /** CreateCacheItem, with the clock reading `now` passed in. */
    constructor (key: K, lifeSpan: Duration, data: V, now: Time)
      ensures this.key == key && this.lifeSpan == lifeSpan && this.data == data
      ensures createdOn == now && accessedOn == now
      ensures accessCount == 0 && aboutToExpire == None
      ensures Consistent()
    {
      this.key := key;
      this.lifeSpan := lifeSpan;
      this.data := data;
      createdOn := now;
      accessedOn := now;
      accessCount := 0;
      aboutToExpire := None;
    }

    /** Marks the entry as used at `now`: resets its idle clock and counts the access. */
    method KeepAlive(now: Time)
      modifies this`accessedOn, this`accessCount
      ensures accessedOn == now
      ensures accessCount == old(accessCount) + 1
      ensures aboutToExpire == old(aboutToExpire)
      ensures old(Consistent()) && old(accessedOn) <= now ==> Consistent()
    {
      accessedOn := now;
      accessCount := accessCount + 1;
    }

    /** Replaces the entry's expiry callback; nothing else changes. */
    method SetAboutToExpireCallback(f: Option<HookId>)
      modifies this`aboutToExpire
      ensures aboutToExpire == f
      ensures accessedOn == old(accessedOn) && accessCount == old(accessCount)
    {
      aboutToExpire := f;
    }
  }
}
