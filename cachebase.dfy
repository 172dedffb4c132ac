/** Basic types shared by the cache entry and the cache table. */
module CacheBase {

  /** An optional value: a Go pointer or function value that may be nil. */
  datatype Option<+T> = None | Some(value: T)

  /** A point in time, as Go's time.Time measured in nanoseconds. */
  type Time = int

  /** A time span, as Go's time.Duration: a count of nanoseconds. */
  type Duration = int

  /** Names a user-supplied callback (a loader, a hook, an expiry callback). */
  type HookId = nat

  /** Removing, or not, one more key from a map from which `gone` was
      removed: the same as removing `gone` and, or not, that key. A proof
      hint for the expiration scan's loop, stated on values to keep that
      loop's proof small. */
  lemma RemoveMaybe<K, X>(m: map<K, X>, gone: set<K>, k: K, b: bool, before: map<K, X>, after: map<K, X>)
    requires before == m - gone
    requires after == if b then before - {k} else before
    ensures after == m - (gone + if b then {k} else {})
  {
  }

  /** Sequence concatenation is associative. A proof hint for the trace the
      expiration scan's loop extends, stated on values to keep that loop's
      proof small. */
  lemma AppendAssoc<T>(a: seq<T>, b: seq<T>, c: seq<T>)
    ensures a + b + c == a + (b + c)
  {
  }
}
