# cache2go cache table, modelled in Dafny

This project models cache2go's in-memory cache table (`CacheTable`) and its
entry (`CacheItem`). It proves what the table's operations do to the
entries, to the expiration scheduler's interval and to the sequence of user
callbacks they invoke.

Modules:

- `CacheBase` (cachebase.dfy): `Option`, `Time` and `Duration` as integer
  nanoseconds, `HookId` naming a user callback, and two small helper lemmas.
- `CacheItems` (cacheitem.dfy): the class `CacheItem`.
  - Key, data, lifespan and creation time are `const`.
  - Access time, access count and the expiry callback are fields that
    `KeepAlive` and `SetAboutToExpireCallback` update in place.
- `Expiration` (expiration.dfy): the expiration scan stated on values.
  - It works on a map from key to `Timing` (lifespan, last access).
  - It defines which entries a scan at `now` keeps (`Survivors`, `Sweep`) and
    the interval it re-arms the timer with (`NextInterval`, the least
    remaining lifetime of the kept entries with a lifespan, or 0).
  - It defines the rule by which Add triggers a scan (`ShouldScan`).
  - `ScheduleCovers` says that the armed timer fires no later than the
    deadline of any entry with a positive lifespan.
  - It also defines what a scan visiting the keys in a given order removes
    (`ExpiredIn`), and its running minimum (`SmallestIn`).
- `Ranking` (ranking.dfy): the (key, access count) pairs of `MostAccessed`,
  sorted by non-increasing count (`SortByCount`).
- `CacheTables` (cachetable.dfy): the class `CacheTable`.
  - The table holds a map `items` from keys to `CacheItem` objects, the
    interval `cleanupInterval` and the optional loader, added and
    about-to-delete callbacks.
  - Every callback invocation is appended as an `Event` to a ghost `trace`,
    so that the order of callbacks can be stated. The functions
    `AddedEvents` (the added callback, cachetable.go:189-191), `DeleteEvents`
    (one removal), `RemovalEvents` (removals one after another,
    cachetable.go:141-143) and `ScanEvents` (a scan's removals) name the
    events an operation appends.
  - A ghost `clock` holds the latest time any operation was given.
  - A ghost `armedAt` holds when the expiration scan last ran: whenever a
    timer is armed (`cleanupInterval > 0`), the time it was armed.
  - The object invariant `Valid()` requires:
    - every entry is stored under its own key;
    - no entry was accessed after `clock`;
    - `ScheduleCovers(Timings(), armedAt, cleanupInterval)`.
  - The expiration scan is `ExpirationCheck`: a loop over the keys, in the
    map's iteration order, that deletes expired entries through `Delete` and
    keeps the running minimum of the remaining lifetimes.
  - `Add`, `NotFoundAdd` and `Value` are proved to leave a `Valid()` table:
    an entry that is due is never left without a timer that fires by its
    deadline.

The clock is a parameter: each reading of `time.Now()` is a parameter, no
earlier than any time the table has already been given. Add reads the clock
twice: `now` when it creates the entry, and `scanNow` (no earlier than `now`)
when the scan it triggers starts, after the added callback has run. An entry
whose lifespan has run out by `scanNow` is removed by that very scan, and the
entry Add returns is then no longer in the table. `NotFoundAdd` and `Value`
(through the loader) take both readings too.

## Model

| member | source | states |
|---|---|---|
| CacheItems.CacheItem.constructor | expt/vendor/github.com/muesli/cache2go/cacheitem.go:46-57 | the new entry has the given key, lifespan and data, was created and last accessed at `now`, has access count 0 and no expiry callback |
| CacheItems.CacheItem.KeepAlive | expt/vendor/github.com/muesli/cache2go/cacheitem.go:61-66 | the access time becomes `now` and the access count grows by exactly 1; the callback and (being const) key, data, lifespan and creation time are unchanged; with a clock that does not go back, "created no later than last accessed" is preserved |
| CacheItems.CacheItem.SetAboutToExpireCallback | expt/vendor/github.com/muesli/cache2go/cacheitem.go:113-117 | only the expiry callback changes, to the given one |
| Expiration.Survivors | expt/vendor/github.com/muesli/cache2go/cachetable.go:137-143 | a scan at `now` keeps exactly the entries not expired: a lifespan of 0 is never removed, and every kept entry with a lifespan has idle time below it (positive time left) |
| Expiration.Sweep | expt/vendor/github.com/muesli/cache2go/cachetable.go:130-152 | the table a scan leaves: exactly the survivors, with their timings unchanged |
| Expiration.SmallestRemaining | expt/vendor/github.com/muesli/cache2go/cachetable.go:129-151 | the scan's `smallestDuration` over a set of keys: 0 exactly when none is pending, otherwise no larger than any pending entry's remaining time and equal to one of them |
| Expiration.NextInterval | expt/vendor/github.com/muesli/cache2go/cachetable.go:154-156 | the interval the scan stores is non-negative, positive exactly when a survivor has a nonzero lifespan, no larger than the remaining time of any such survivor, and equal to one of them |
| Expiration.SmallestRemainingUnique | expt/vendor/github.com/muesli/cache2go/cachetable.go:148-150 | the minimum is determined by its characterisation, so it does not depend on the order the keys are visited in |
| Expiration.SmallestRemainingStep | expt/vendor/github.com/muesli/cache2go/cachetable.go:148-150 | visiting one more key updates the minimum exactly as the loop's `if` does |
| Expiration.ScanCovers | expt/vendor/github.com/muesli/cache2go/cachetable.go:154-162 | the timer a scan re-arms at `now` fires no later than the deadline of any surviving entry with a lifespan |
| Expiration.UnscannedInsertCovered | expt/vendor/github.com/muesli/cache2go/cachetable.go:193-197 | when the trigger rule does not fire, the armed timer already fires by the new entry's deadline |
| Expiration.KeepAliveCovered | expt/vendor/github.com/muesli/cache2go/cacheitem.go:61-66 | a keep-alive only moves an entry's deadline later, so the armed timer still covers it |
| Expiration.RemovalCovered | expt/vendor/github.com/muesli/cache2go/cachetable.go:203-236 | removing entries never leaves a remaining entry uncovered by the timer |
| Expiration.ScanIdempotent | expt/vendor/github.com/muesli/cache2go/cachetable.go:111-164 | a second scan at the same instant removes nothing more and re-arms with the same interval |
| Expiration.SmallestInIsSmallest | expt/vendor/github.com/muesli/cache2go/cachetable.go:129-151 | the running minimum after visiting distinct keys in any order equals the order-free minimum over those keys |
| Expiration.ExpiredInOrder | expt/vendor/github.com/muesli/cache2go/cachetable.go:130-143 | visiting distinct keys, the scan removes each expired visited key exactly once and nothing else |
| Expiration.ScanStep | expt/vendor/github.com/muesli/cache2go/cachetable.go:130-151 | one loop iteration: the removals and the running minimum grow by what the visited key contributes |
| Expiration.ScanOutcome | expt/vendor/github.com/muesli/cache2go/cachetable.go:111-164 | a scan visiting every key once ends with `smallestDuration == NextInterval`, removes exactly the expired keys, keeps exactly the survivors and leaves a table its new timer covers |
| Expiration.Idle | expt/vendor/github.com/muesli/cache2go/cachetable.go:141 | the idle time `now.Sub(accessedOn)`: non-negative exactly when the entry was accessed no later than `now` |
| Expiration.Expired | expt/vendor/github.com/muesli/cache2go/cachetable.go:137-143 | the scan's deletion test: a nonzero lifespan the idle time has reached; equivalently, a nonzero lifespan that is not pending |
| Expiration.Pending | expt/vendor/github.com/muesli/cache2go/cachetable.go:144-150 | the entries that bound the next interval: a nonzero lifespan not yet reached, so with positive time left |
| Expiration.Remaining | expt/vendor/github.com/muesli/cache2go/cachetable.go:148-149 | `lifeSpan - now.Sub(accessedOn)`: positive exactly when the deadline lies after `now`, and, when the entry was accessed no later than `now`, never more than the lifespan |
| Expiration.ShouldScan | expt/vendor/github.com/muesli/cache2go/cachetable.go:195 | the trigger rule of Add (and NotFoundAdd, line 279): it fires only for a positive lifespan, and when it does not fire (with a non-negative interval) its lifespan is not positive, or a timer is armed for no longer than its lifespan |
| Expiration.ExpiredIn | expt/vendor/github.com/muesli/cache2go/cachetable.go:130-143 | the keys the scan deletes, in visit order, when it visits `ks` in that order: only visited keys, each expired |
| Expiration.SmallestIn | expt/vendor/github.com/muesli/cache2go/cachetable.go:129-151 | the running `smallestDuration` after visiting `ks` in that order: non-negative, and positive and no larger than the remaining time of every pending entry visited |
| Expiration.NewEntryFate | expt/vendor/github.com/muesli/cache2go/cachetable.go:180-197 | the entry Add just created at `now` with a positive lifespan is removed by the scan Add triggers at `scanNow` exactly when `scanNow - now` has reached its lifespan |
| Ranking.CacheItemPair | expt/vendor/github.com/muesli/cache2go/cachetable.go:335-338 | a key with the access count read from its entry |
| Ranking.InsertByCount | expt/vendor/github.com/muesli/cache2go/cachetable.go:343-345 | inserting one pair adds exactly that pair (as a multiset) |
| Ranking.InsertKeepsOrder | expt/vendor/github.com/muesli/cache2go/cachetable.go:345 | inserting into a list ordered by non-increasing access count keeps it ordered |
| Ranking.SortByCount | expt/vendor/github.com/muesli/cache2go/cachetable.go:359 | the sort's result is a permutation of its input, ordered by non-increasing access count |
| Ranking.RankedPairs | expt/vendor/github.com/muesli/cache2go/cachetable.go:353-359 | sorting pairs with distinct keys yields exactly the same pairs, keys still distinct |
| Ranking.TopRanked | expt/vendor/github.com/muesli/cache2go/cachetable.go:361-374 | a key that is not among the first n pairs of the ranking has no more accesses than any of those n |
| CacheTables.SweepStep | expt/vendor/github.com/muesli/cache2go/cachetable.go:130-151 | the key the scan visits next has not been removed yet; the removals, the minimum and the callbacks grow by that key's share |
| CacheTables.ScanEventsAreRemovalEvents | expt/vendor/github.com/muesli/cache2go/cachetable.go:141-143 | the callbacks of a scan are those of deleting the expired keys one after the other, in removal order |
| CacheTables.DeleteEvents | expt/vendor/github.com/muesli/cache2go/cachetable.go:215-227 | the callbacks of removing one entry: the table's about-to-delete callback first, then the entry's own expiry callback, each only if set |
| CacheTables.ScanEvents | expt/vendor/github.com/muesli/cache2go/cachetable.go:130-152 | the callbacks a scan invokes visiting `ks` in that order: only delete and expiry callbacks, only for visited keys that expired |
| CacheTables.RemovalEventsCover | expt/vendor/github.com/muesli/cache2go/cachetable.go:141-143 | removing a list of keys one after the other runs the about-to-delete callback for each of them |
| CacheTables.ScannedAdd | expt/vendor/github.com/muesli/cache2go/cachetable.go:180-197 | an insert at `now` followed by the triggered scan at `scanNow` gives Add's stated outcome, including whether the new entry survives |
| CacheTables.EntryExpiringDuringAdd | expt/vendor/github.com/muesli/cache2go/cachetable.go:173-197 | on a table without a timer, an entry created at 0 with lifespan 1 whose scan reads the clock at 1 is removed by that scan, and the about-to-delete callback runs for it |
| CacheTables.RangeOrder | expt/vendor/github.com/muesli/cache2go/cachetable.go:130 | a `range` over the map visits every key exactly once |
| CacheTables.CacheTable.constructor | expt/vendor/github.com/muesli/cache2go/cachetable.go:19-47 | a new table is empty, has no callbacks and no armed timer, and is valid |
| CacheTables.CacheTable.Count | expt/vendor/github.com/muesli/cache2go/cachetable.go:51-55 | the number of keys in the table; reads nothing else and changes nothing |
| CacheTables.CacheTable.Exists | expt/vendor/github.com/muesli/cache2go/cachetable.go:243-249 | true exactly when the key is in the table; changes nothing, neither loads nor keeps alive |
| CacheTables.CacheTable.CountZeroIffEmpty | expt/vendor/github.com/muesli/cache2go/cachetable.go:51-55 | Count is 0 exactly when Exists is false for every key |
| CacheTables.CacheTable.Foreach | expt/vendor/github.com/muesli/cache2go/cachetable.go:59-66 | the visitor is called once per entry, with the key and the entry stored under it, and every key is visited |
| CacheTables.CacheTable.SetDataLoader | expt/vendor/github.com/muesli/cache2go/cachetable.go:72-76 | installs the loader; validity is kept |
| CacheTables.CacheTable.SetAddedItemCallback | expt/vendor/github.com/muesli/cache2go/cachetable.go:81-85 | installs the added callback; validity is kept |
| CacheTables.CacheTable.SetAboutToDeleteItemCallback | expt/vendor/github.com/muesli/cache2go/cachetable.go:90-94 | installs the about-to-delete callback; validity is kept |
| CacheTables.CacheTable.Store | expt/vendor/github.com/muesli/cache2go/cachetable.go:174-191 | the key now maps to a fresh entry (given lifespan and data, access count 0, accessed at `now`), every other key is unchanged, and the added callback, if any, is the one event appended |
| CacheTables.CacheTable.Add | expt/vendor/github.com/muesli/cache2go/cachetable.go:173-200 | stores a fresh entry created at `now` under the key, overwriting any old one, and runs the added callback. The scan runs exactly when lifeSpan > 0 and either cleanupInterval == 0 or lifeSpan < cleanupInterval, judged on the interval before the insert. If it runs, at the second clock reading `scanNow`: exactly the expired entries are removed, the new one among them exactly when `scanNow - now` has reached its lifespan; the interval becomes NextInterval; the trace is the added callback, then each removal's callbacks in order. If not, nothing is removed and the timer is unchanged. The table stays valid. |
| CacheTables.CacheTable.NotFoundAdd | expt/vendor/github.com/muesli/cache2go/cachetable.go:254-283 | returns true exactly when the key was absent; on a present key nothing changes, the trace included; on an absent key the outcome is Add's, with the same two clock readings |
| CacheTables.CacheTable.Delete | expt/vendor/github.com/muesli/cache2go/cachetable.go:203-236 | on an absent key returns ErrKeyNotFound and changes nothing. On a present key: it returns the removed entry and removes exactly that key; it appends the about-to-delete callback and then the entry's expiry callback, each only if set. Validity is kept. |
| CacheTables.CacheTable.Value | expt/vendor/github.com/muesli/cache2go/cachetable.go:288-317 | a hit returns the entry, bumps its access count by 1, sets its access time to `now`, keeps its expiry callback, and leaves the keys, timer and trace alone. A miss without a loader returns ErrKeyNotFound. If the loader yields nothing, the result is ErrKeyNotFoundOrLoadable after the loader event. Otherwise the loader's entry is returned, after Add's outcome (both clock readings included) with its lifespan and data. |
| CacheTables.CacheTable.AdvanceClock | expt/vendor/github.com/muesli/cache2go/cacheitem.go:61-66 | a later clock reading (such as one a caller kept an entry alive at directly) becomes the table's clock, and the table is valid again once every entry was accessed no later than it and the timer still covers the entries |
| CacheTables.CacheTable.KeepAliveEntry | expt/vendor/github.com/muesli/cache2go/cachetable.go:294-298 | the hit entry is kept alive at `now` (access time `now`, count up by 1, expiry callback unchanged) and the table stays valid |
| CacheTables.CacheTable.LoadEntry | expt/vendor/github.com/muesli/cache2go/cachetable.go:304-312 | the loader event is appended; a nil result gives ErrKeyNotFoundOrLoadable and no other change, and otherwise an entry with the loaded lifespan and data is added as Add does and the loader's entry returned |
| CacheTables.CacheTable.Flush | expt/vendor/github.com/muesli/cache2go/cachetable.go:321-332 | no entries are left, the interval is 0 and no callback runs; the result is valid |
| CacheTables.CacheTable.CountPairs | expt/vendor/github.com/muesli/cache2go/cachetable.go:353-358 | one (key, access count) pair per entry, each key once |
| CacheTables.CacheTable.RankEntries | expt/vendor/github.com/muesli/cache2go/cachetable.go:353-359 | exactly the entries' pairs, keys distinct, ordered by non-increasing access count |
| CacheTables.CacheTable.MostAccessed | expt/vendor/github.com/muesli/cache2go/cachetable.go:348-377 | returns min(count, Count()) entries (none for count <= 0) of the table, distinct, in ranking order. No entry left out has more accesses than any entry returned. |
| CacheTables.CacheTable.TopEntries | expt/vendor/github.com/muesli/cache2go/cachetable.go:361-374 | the entries taken in rank order are distinct, and each entry left out has no more accesses than each one taken |
| CacheTables.CacheTable.VisitEntry | expt/vendor/github.com/muesli/cache2go/cachetable.go:132-150 | one iteration of the scan: an expired entry is deleted with its callbacks, and a pending one lowers the running minimum if it is due sooner |
| CacheTables.CacheTable.SweepKeys | expt/vendor/github.com/muesli/cache2go/cachetable.go:129-152 | the scan loop removes the expired visited keys, returns the running minimum and appends their callbacks in visit order |
| CacheTables.CacheTable.ExpirationCheck | expt/vendor/github.com/muesli/cache2go/cachetable.go:111-164 | removes exactly the expired entries, each once, with their callbacks in removal order. It sets the interval to NextInterval: the least remaining lifetime of the kept entries with a lifespan, or 0. The scan's time is recorded as `armedAt` and the table is valid. |
| CacheTables.CacheTable.ScanResult | expt/vendor/github.com/muesli/cache2go/cachetable.go:154-163 | what the scan loop left, restated independently of the visit order: validity, the removal order, NextInterval and the removal callbacks |
| CacheTables.CacheTable.Inserted | expt/vendor/github.com/muesli/cache2go/cachetable.go:180 | storing a fresh entry changes the timings and expiry callbacks at that key only |
| CacheTables.CacheTable.KeptAlive | expt/vendor/github.com/muesli/cache2go/cachetable.go:294-298 | a keep-alive changes only that entry's timing and keeps the table valid |

## Left out

- Locking (`sync.RWMutex` in both types): every operation is one atomic step.
  Interleavings of concurrent callers are not modelled.
- The timer (`time.AfterFunc`, `Stop`) and the goroutine that runs the scan.
  - `cleanupInterval > 0` stands for "a timer is armed".
  - The ghost `armedAt` records when the scan last ran, which is when the
    timer was armed whenever one is armed.
  - The scan runs only when Add triggers it or a caller invokes
    `ExpirationCheck`; the timer firing later is not modelled.
- `time.Now()`: each reading is a parameter, no earlier than any earlier
  one (`now`, and for Add's triggered scan `scanNow`). The scan reads the
  clock once, as the source does; the time its own loop takes is not seen.
- CacheItem.KeepAlive called directly by a caller on an entry the table
  holds: the entry then carries a clock reading the table has not seen, and
  the table is not `Wellformed()` until the caller hands it that reading
  through the ghost step `AdvanceClock`. The table's own keep-alive
  (`KeepAliveEntry`, on a hit in Value) does both at once.
- Go's int64 arithmetic on durations and on the access count: the model uses
  unbounded integers, so overflow is not modelled.
- The logger (`SetLogger`, `log`): output only, no effect on the table.
- User callbacks are foreign code. Each is a `HookId`, and each invocation is
  an `Event` in the trace. A callback that mutates the table or fails is not
  modelled.
- The loader's extra `args` are not passed. Its result for the key is the
  `loaded` parameter of `Value` (None for nil).
- The getters `LifeSpan`, `AccessedOn`, `CreatedOn`, `AccessCount`, `Key` and
  `Data` are the entry's fields read directly.
  - `key`, `data`, `lifeSpan` and `createdOn` are `const`, so they keep their
    construction-time values.
  - `accessedOn` and `accessCount` change only in `KeepAlive`.
  - The read lock they take is not modelled.
- Map iteration order is left open: `RangeOrder`, `Foreach` and `CountPairs`
  pick keys with `:|`.
- `NotFoundAdd` is modelled as the absence check followed by Add. The source
  repeats Add's body under the lock it took for the check; under atomic steps
  the two are the same.
- MostAccessed: the source's `if ok` lookup always succeeds while the read
  lock is held, so the model indexes `items` directly.
- sort.Sort is modelled by an insertion sort (`SortByCount`). The order among
  equal counts is an artefact of that sort: only the count order and the
  permutation are stated.
- Negative lifespans are accepted as the source accepts them. Such an entry
  never triggers a scan, and every scan removes it, since its idle time is
  at least its lifespan.
- The named-table registry (`cache2go.Cache`) and the table's `name` lookup
  are not part of this model. Neither is the demo program
  callbacks.go.
- Value on a miss with a loader returns the loader's own entry, not the copy
  that Add stores. This is what the code does.
