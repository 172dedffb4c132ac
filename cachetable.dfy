/** The cache table: a map from keys to entries, the expiration scheduler's
    interval, and the optional loader, added and about-to-delete hooks.
    Every user callback the table invokes is recorded as an event in `trace`. */
module CacheTables {
  import opened CacheBase
  import opened CacheItems
  import opened Expiration
  import opened Ranking

  datatype CacheError = ErrKeyNotFound | ErrKeyNotFoundOrLoadable

  datatype Result<T> = Ok(value: T) | Err(error: CacheError)

  /** One invocation of a user callback: which callback, about which key. */
  datatype Event<K> =
    | Loaded(loader: HookId, key: K)
    | Added(hook: HookId, key: K)
    | AboutToDelete(hook: HookId, key: K)
    | AboutToExpire(hook: HookId, key: K)

  /** The added callback, if one is installed, sees the new entry. */
  function AddedEvents<K>(onAdded: Option<HookId>, key: K): seq<Event<K>> {
    if onAdded.Some? then [Added(onAdded.value, key)] else []
  }

  /** Removing an entry runs the table's about-to-delete callback first and
      the entry's own expiry callback second, each only if installed. */
  function DeleteEvents<K>(onDelete: Option<HookId>, key: K, onExpire: Option<HookId>): (e: seq<Event<K>>)
    ensures |e| == (if onDelete.Some? then 1 else 0) + (if onExpire.Some? then 1 else 0)
    ensures onDelete.Some? ==> e[0] == AboutToDelete(onDelete.value, key)
    ensures onExpire.Some? ==> e[|e| - 1] == AboutToExpire(onExpire.value, key)
  {
    (if onDelete.Some? then [AboutToDelete(onDelete.value, key)] else [])
    + (if onExpire.Some? then [AboutToExpire(onExpire.value, key)] else [])
  }

  /** The callbacks of removing the keys of `order`, one after the other;
      `onExpire` holds each entry's own expiry callback (a key it lacks has none). */
  function RemovalEvents<K>(onDelete: Option<HookId>, order: seq<K>, onExpire: map<K, Option<HookId>>): seq<Event<K>> {
    if order == [] then []
    else
      var last := order[|order| - 1];
      RemovalEvents(onDelete, order[..|order| - 1], onExpire)
      + DeleteEvents(onDelete, last, HookOf(onExpire, last))
  }

  /** An entry's own expiry callback as `onExpire` records it (none if absent). */
  function HookOf<K>(onExpire: map<K, Option<HookId>>, key: K): Option<HookId> {
    if key in onExpire then onExpire[key] else None
  }

  /** The callbacks a scan at `now` invokes while it visits `ks` in that order:
      those of deleting each expired entry as it comes to it. */
  function ScanEvents<K>(ts: map<K, Timing>, now: Time, ks: seq<K>, onDelete: Option<HookId>, onExpire: map<K, Option<HookId>>): (e: seq<Event<K>>)
    ensures forall i :: 0 <= i < |e| ==> (e[i].AboutToDelete? || e[i].AboutToExpire?) && e[i].key in ks && Expired(TimingOf(ts, e[i].key), now)
  {
    if ks == [] then []
    else
      var last := ks[|ks| - 1];
      ScanEvents(ts, now, ks[..|ks| - 1], onDelete, onExpire)
      + (if Expired(TimingOf(ts, last), now) then DeleteEvents(onDelete, last, HookOf(onExpire, last)) else [])
  }

  /** Visiting the key after the prefix `ks[..i]`: the scan has not removed
      it yet, and the removals, the running minimum and the callbacks grow by
      what that one key contributes. */
  lemma SweepStep<K>(ts: map<K, Timing>, now: Time, ks: seq<K>, i: nat, onDelete: Option<HookId>, onExpire: map<K, Option<HookId>>)
    requires DistinctKeysOf(ts, ks) && i < |ks|
    ensures ks[i] !in Elements(ExpiredIn(ts, now, ks[..i]))
    ensures Elements(ExpiredIn(ts, now, ks[..i + 1])) ==
      Elements(ExpiredIn(ts, now, ks[..i])) + (if Expired(TimingOf(ts, ks[i]), now) then {ks[i]} else {})
    ensures SmallestIn(ts, now, ks[..i + 1]) ==
      var d, t := SmallestIn(ts, now, ks[..i]), TimingOf(ts, ks[i]);
      if Pending(t, now) && (d == 0 || Remaining(t, now) < d) then Remaining(t, now) else d
    ensures ScanEvents(ts, now, ks[..i + 1], onDelete, onExpire) ==
      ScanEvents(ts, now, ks[..i], onDelete, onExpire)
      + (if Expired(TimingOf(ts, ks[i]), now) then DeleteEvents(onDelete, ks[i], HookOf(onExpire, ks[i])) else [])
  {
    ScanStep(ts, now, ks, i);
    assert ks[..i + 1][..i] == ks[..i];
    assert ks[i] !in ks[..i];
  }

  /** The scan's callbacks are those of deleting the expired keys one after
      the other, in the order it removes them. */
  lemma {:induction false} ScanEventsAreRemovalEvents<K>(ts: map<K, Timing>, now: Time, ks: seq<K>, onDelete: Option<HookId>, onExpire: map<K, Option<HookId>>)
    ensures ScanEvents(ts, now, ks, onDelete, onExpire) == RemovalEvents(onDelete, ExpiredIn(ts, now, ks), onExpire)
  {
    if ks != [] {
      var init, last := ks[..|ks| - 1], ks[|ks| - 1];
      ScanEventsAreRemovalEvents(ts, now, init, onDelete, onExpire);
      if Expired(TimingOf(ts, last), now) {
        RemovalEventsAppend(onDelete, ExpiredIn(ts, now, init), onExpire, last);
      } else {
        assert ExpiredIn(ts, now, ks) == ExpiredIn(ts, now, init);
      }
    }
  }

  /** Removing one more key appends its callbacks to the trace. */
  lemma RemovalEventsAppend<K>(onDelete: Option<HookId>, order: seq<K>, onExpire: map<K, Option<HookId>>, key: K)
    ensures RemovalEvents(onDelete, order + [key], onExpire)
            == RemovalEvents(onDelete, order, onExpire) + DeleteEvents(onDelete, key, HookOf(onExpire, key))
  {
    assert (order + [key])[..|order|] == order;
  }

  /** A snapshot of a table's entries, their timings and expiry callbacks,
      its timer and its callback trace. */
  datatype TableState<K, V> = TableState(items: map<K, CacheItem<K, V>>, timings: map<K, Timing>, hooks: map<K, Option<HookId>>,
                                         interval: Duration, armedAt: Time, trace: seq<Event<K>>)

  /** What adding `entry` under `key` with `lifeSpan`, created at `now`, does
      to a table's state: the entry is stored, replacing any entry under that
      key without a callback, and the added callback `onAdded` runs. If the
      trigger rule fires, a scan follows that reads the clock again, at
      `scanNow`: it removes the expired entries (`removed` lists them in the
      order it removes them, invoking `onDelete` and their own expiry
      callbacks), the new entry among them if its whole lifespan passed
      since `now`, and re-arms the timer at `scanNow` with NextInterval;
      otherwise the timer is left alone and nothing is removed. */
  ghost predicate AddedTo<K, V>(before: TableState<K, V>, after: TableState<K, V>, key: K, lifeSpan: Duration, now: Time, scanNow: Time,
                                entry: CacheItem<K, V>, removed: seq<K>, onAdded: Option<HookId>, onDelete: Option<HookId>)
  {
    && after.items == before.items[key := entry] - Elements(removed)
    && (key in after.items <==> !ShouldScan(lifeSpan, before.interval) || scanNow - now < lifeSpan)
    && (!ShouldScan(lifeSpan, before.interval) ==>
          && removed == []
          && after.interval == before.interval && after.armedAt == before.armedAt
          && after.trace == before.trace + AddedEvents(onAdded, key))
    && (ShouldScan(lifeSpan, before.interval) ==>
          var ts := before.timings[key := Timing(lifeSpan, now)];
          && RemovalOrder(removed, ts.Keys - Survivors(ts, scanNow))
          && after.interval == NextInterval(ts, scanNow) && after.armedAt == scanNow
          && after.trace == before.trace + AddedEvents(onAdded, key)
                            + RemovalEvents(onDelete, removed, before.hooks[key := None]))
  }

  /** Add's outcome when the trigger rule fires: `mid` is the table right
      after the insert at `now` and `after` the table its scan at `scanNow`
      leaves behind. */
  lemma ScannedAdd<K, V>(before: TableState<K, V>, mid: TableState<K, V>, after: TableState<K, V>, key: K, lifeSpan: Duration,
                         now: Time, scanNow: Time, entry: CacheItem<K, V>, removed: seq<K>, onAdded: Option<HookId>, onDelete: Option<HookId>)
    requires ShouldScan(lifeSpan, before.interval)
    requires mid.items == before.items[key := entry] && mid.timings == before.timings[key := Timing(lifeSpan, now)]
    requires mid.items.Keys == mid.timings.Keys
    requires mid.hooks == before.hooks[key := None] && mid.trace == before.trace + AddedEvents(onAdded, key)
    requires RemovalOrder(removed, mid.items.Keys - Survivors(mid.timings, scanNow))
    requires after.items == mid.items - Elements(removed)
    requires after.interval == NextInterval(mid.timings, scanNow) && after.armedAt == scanNow
    requires after.trace == mid.trace + RemovalEvents(onDelete, removed, mid.hooks)
    ensures AddedTo(before, after, key, lifeSpan, now, scanNow, entry, removed, onAdded, onDelete)
  {
    NewEntryFate(mid.timings, key, now, scanNow, removed);
  }

  /** An entry whose lifespan runs out while Add runs (created at 0 with a
      lifespan of 1, the scan reading the clock at 1) is removed by the scan
      Add triggers on a table without a timer, with its callbacks. */
  lemma EntryExpiringDuringAdd<K, V>(before: TableState<K, V>, after: TableState<K, V>, key: K, entry: CacheItem<K, V>,
                                     removed: seq<K>, onAdded: Option<HookId>, onDelete: HookId)
    requires before.interval == 0
    requires AddedTo(before, after, key, 1, 0, 1, entry, removed, onAdded, Some(onDelete))
    ensures key !in after.items && key in removed
    ensures AboutToDelete(onDelete, key) in after.trace
  {
    var ts := before.timings[key := Timing(1, 0)];
    var hooks := before.hooks[key := None];
    var i :| 0 <= i < |removed| && removed[i] == key;
    RemovalEventsCover(Some(onDelete), removed, hooks, i);
  }

  /** Removing the keys of `order` one after the other runs the about-to-delete
      callback for each of them. */
  lemma {:induction false} RemovalEventsCover<K>(onDelete: Option<HookId>, order: seq<K>, onExpire: map<K, Option<HookId>>, i: int)
    requires onDelete.Some? && 0 <= i < |order|
    ensures AboutToDelete(onDelete.value, order[i]) in RemovalEvents(onDelete, order, onExpire)
  {
    var init, last := order[..|order| - 1], order[|order| - 1];
    var d := DeleteEvents(onDelete, last, HookOf(onExpire, last));
    if i == |order| - 1 {
      assert d[0] == AboutToDelete(onDelete.value, last);
    } else {
      RemovalEventsCover(onDelete, init, onExpire, i);
      assert init[i] == order[i];
    }
  }

  /** The keys of `s` in the order a Go `range` over the map visits them:
      every key once, in an order the model leaves open. */
  method RangeOrder<K>(s: set<K>) returns (ks: seq<K>)
    ensures forall k :: k in s <==> k in ks
    ensures forall i, j :: 0 <= i < j < |ks| ==> ks[i] != ks[j]
  {
    ks := [];
    var rest := s;
    while rest != {}
      invariant rest <= s
      invariant forall k :: k in s <==> k in ks || k in rest
      invariant forall k :: k in ks ==> k !in rest
      invariant forall i, j :: 0 <= i < j < |ks| ==> ks[i] != ks[j]
      decreases rest
    {
      var k :| k in rest;
      ks := ks + [k];
      rest := rest - {k};
    }
  }

  function Min(a: int, b: int): int {
    if a <= b then a else b
  }

  class CacheTable<K(==), V> {
    const name: string
    var items: map<K, CacheItem<K, V>>
    /** The delay the expiration timer is armed with; 0 when no timer is armed. */
    var cleanupInterval: Duration
    var loadData: Option<HookId>
    var addedItem: Option<HookId>
    var aboutToDeleteItem: Option<HookId>

    /** The user callbacks invoked so far, in order. */
    ghost var trace: seq<Event<K>>
    /** The latest clock reading any operation has seen. */
    ghost var clock: Time
    /** When the pending timer was armed. */
    ghost var armedAt: Time

    /** Every entry is stored under its own key. */
    ghost predicate KeysMatch()
      reads this`items
    {
      forall k :: k in items ==> items[k].key == k
    }

    ghost predicate Wellformed()
      reads this`items, this`clock, this`armedAt, items.Values
    {
      && KeysMatch()
      && (forall k :: k in items ==> items[k].Consistent() && items[k].accessedOn <= clock)
      && armedAt <= clock
    }

    /** What the expiration scan reads of every entry. */
    function Timings(): (ts: map<K, Timing>)
      reads this`items, items.Values
      ensures ts.Keys == items.Keys
    {
      map k | k in items :: Timing(items[k].lifeSpan, items[k].accessedOn)
    }

    /** Each entry's own expiry callback. */
    function ExpiryHooks(): (hs: map<K, Option<HookId>>)
      reads this`items, items.Values
    {
      map k | k in items :: items[k].aboutToExpire
    }

    /** The object invariant: well-formed, and the armed timer (if any) fires
        no later than the deadline of any entry with a positive lifespan. */
    ghost predicate Valid()
      reads this`items, this`clock, this`armedAt, this`cleanupInterval, items.Values
    {
      Wellformed() && ScheduleCovers(Timings(), armedAt, cleanupInterval)
    }

    /** What a scan that visited `keys` (every key once) left behind, restated
        independently of the order: the expired entries removed, the timer
        re-armed at `now` with NextInterval and covering what is left, and the
        callbacks those of removing the expired entries one after the other. */
    twostate lemma ScanResult(now: Time, new keys: seq<K>)
      requires old(Wellformed()) && old(clock) <= now
      requires DistinctKeysOf(old(Timings()), keys) && forall k :: k in old(items) ==> k in keys
      requires items == old(items) - Elements(ExpiredIn(old(Timings()), now, keys)) && unchanged(old(items).Values)
      requires cleanupInterval == SmallestIn(old(Timings()), now, keys) && armedAt == now && clock == now
      requires trace == old(trace) + ScanEvents(old(Timings()), now, keys, aboutToDeleteItem, old(ExpiryHooks()))
      ensures Valid()
      ensures RemovalOrder(ExpiredIn(old(Timings()), now, keys), old(items).Keys - Survivors(old(Timings()), now))
      ensures cleanupInterval == NextInterval(old(Timings()), now)
      ensures trace == old(trace) + RemovalEvents(aboutToDeleteItem, ExpiredIn(old(Timings()), now, keys), old(ExpiryHooks()))
    {
      var ts, gone := old(Timings()), Elements(ExpiredIn(old(Timings()), now, keys));
      ScanOutcome(ts, now, keys);
      ScanEventsAreRemovalEvents(ts, now, keys, aboutToDeleteItem, old(ExpiryHooks()));
      TimingsAfterRemoval(gone);
    }

    /** Removing the entries under `gone`, with nothing else changing,
        removes just their timings. */
    twostate lemma TimingsAfterRemoval(new gone: set<K>)
      requires items == old(items) - gone && unchanged(old(items).Values)
      ensures Timings() == old(Timings()) - gone
    {
      var after := Timings();
      forall k | k in after ensures after[k] == old(Timings())[k] {
        assert items[k] == old(items)[k];
      }
    }

    /** Storing the fresh entry `item` under `key` at `now`, with nothing else
        changing in the entries, keeps the table well-formed and adds that
        entry's timing (no expiry callback) to the views. */
    twostate lemma Inserted(new key: K, new item: CacheItem<K, V>, now: Time)
      requires old(Wellformed()) && old(clock) <= now && clock == now && armedAt == old(armedAt)
      requires items == old(items)[key := item] && unchanged(old(items).Values)
      requires item.key == key && item.Consistent() && item.accessedOn == now && item.aboutToExpire == None
      ensures Wellformed()
      ensures Timings() == old(Timings())[key := Timing(item.lifeSpan, now)]
      ensures ExpiryHooks() == old(ExpiryHooks())[key := None]
    {
    }

    /** A keep-alive at `now` of the entry under `key`, with nothing else
        changing, keeps the table valid: the entry's deadline only moves later. */
    twostate lemma KeptAlive(new key: K, now: Time)
      requires old(Valid()) && old(clock) <= now && clock == now
      requires key in old(items) && items == old(items)
      requires armedAt == old(armedAt) && cleanupInterval == old(cleanupInterval)
      requires items[key].accessedOn == now && items[key].accessCount == old(items[key].accessCount) + 1
      requires unchanged(old(items).Values - {old(items)[key]})
      ensures Valid()
      ensures Timings() == old(Timings())[key := Timing(items[key].lifeSpan, now)]
    {
      KeepAliveCovered(old(Timings()), armedAt, cleanupInterval, key, now);
      assert Timings() == old(Timings())[key := Timing(items[key].lifeSpan, now)];
    }

    /** A new, empty table with no callbacks and no timer. */
    constructor (name: string, ghost now: Time)
      ensures Valid()
      ensures this.name == name && items == map[] && cleanupInterval == 0
      ensures loadData == None && addedItem == None && aboutToDeleteItem == None
      ensures trace == [] && clock == now
    {
      this.name := name;
      items := map[];
      cleanupInterval := 0;
      loadData := None;
      addedItem := None;
      aboutToDeleteItem := None;
      trace := [];
      clock := now;
      armedAt := now;
    }

    function Count(): (n: nat)
      reads this`items
      ensures n == |items.Keys|
    {
      |items|
    }

    /** Membership only: neither the loader nor a keep-alive is involved. */
    function Exists(key: K): (b: bool)
      reads this`items
      ensures b <==> key in items.Keys
    {
      key in items
    }

    /** The table is empty exactly when no key exists in it. */
    lemma CountZeroIffEmpty()
      ensures Count() == 0 <==> forall k :: !Exists(k)
    {
      if Count() != 0 {
        var k :| k in items;
        assert Exists(k);
      }
    }

    /** The calls Foreach makes to its visitor, in the map's iteration order:
        each entry once, with the key it is stored under. */
    method Foreach() returns (visits: seq<(K, CacheItem<K, V>)>)
      ensures |visits| == |items|
      ensures forall i :: 0 <= i < |visits| ==> visits[i].0 in items && visits[i].1 == items[visits[i].0]
      ensures forall i, j :: 0 <= i < j < |visits| ==> visits[i].0 != visits[j].0
      ensures forall k :: k in items ==> exists i :: 0 <= i < |visits| && visits[i].0 == k
    {
      visits := [];
      var rest := items.Keys;
      while rest != {}
        invariant rest <= items.Keys
        invariant |visits| + |rest| == |items|
        invariant forall i :: 0 <= i < |visits| ==> visits[i].0 in items && visits[i].0 !in rest && visits[i].1 == items[visits[i].0]
        invariant forall i, j :: 0 <= i < j < |visits| ==> visits[i].0 != visits[j].0
        invariant forall k :: k in items && k !in rest ==> exists i :: 0 <= i < |visits| && visits[i].0 == k
        decreases rest
      {
        var k :| k in rest;
        ghost var before := visits;
        visits := visits + [(k, items[k])];
        rest := rest - {k};
        assert visits[|before|].0 == k;
        assert forall i :: 0 <= i < |before| ==> visits[i] == before[i];
      }
    }

    method SetDataLoader(f: Option<HookId>)
      requires Valid()
      modifies this`loadData
      ensures Valid() && loadData == f
    {
      loadData := f;
    }

    method SetAddedItemCallback(f: Option<HookId>)
      requires Valid()
      modifies this`addedItem
      ensures Valid() && addedItem == f
    {
      addedItem := f;
    }

    method SetAboutToDeleteItemCallback(f: Option<HookId>)
      requires Valid()
      modifies this`aboutToDeleteItem
      ensures Valid() && aboutToDeleteItem == f
    {
      aboutToDeleteItem := f;
    }

    /** The first half of Add and NotFoundAdd: stores a new entry for `key`
        created at `now`, replacing any entry under that key without invoking a
        callback, and runs the added callback. */
    method Store(key: K, lifeSpan: Duration, data: V, now: Time) returns (item: CacheItem<K, V>)
      requires Wellformed() && clock <= now
      modifies this`items, this`trace, this`clock
      ensures fresh(item) && item.key == key && item.lifeSpan == lifeSpan && item.data == data
      ensures item.createdOn == now && item.accessedOn == now && item.accessCount == 0 && item.aboutToExpire == None
      ensures Wellformed() && clock == now
      ensures items == old(items)[key := item]
      ensures Timings() == old(Timings())[key := Timing(lifeSpan, now)]
      ensures ExpiryHooks() == old(ExpiryHooks())[key := None]
      ensures trace == old(trace) + AddedEvents(addedItem, key)
    {
      item := new CacheItem(key, lifeSpan, data, now);
      items, clock := items[key := item], now;
      if addedItem.Some? {
        trace := trace + [Added(addedItem.value, key)];
      }
      Inserted(key, item, now);
    }

    /** The parts of the table an operation's outcome is stated against. */
    ghost function State(): (st: TableState<K, V>)
      reads this`items, this`cleanupInterval, this`armedAt, this`trace, items.Values
      ensures st.items == items && st.timings == Timings() && st.hooks == ExpiryHooks()
      ensures st.interval == cleanupInterval && st.armedAt == armedAt && st.trace == trace
    {
      TableState(items, Timings(), ExpiryHooks(), cleanupInterval, armedAt, trace)
    }

    /** What Add(key, lifeSpan, data) leaves behind, starting from `before`,
        when its entry is created at `now` and a triggered scan reads the clock
        at `scanNow`: `entry` is the new entry (see AddedTo for the rest). */
    ghost predicate AddOutcome(key: K, lifeSpan: Duration, data: V, now: Time, scanNow: Time, entry: CacheItem<K, V>,
                               removed: seq<K>, before: TableState<K, V>)
      reads this`items, this`clock, this`armedAt, this`cleanupInterval, this`trace, this`addedItem, this`aboutToDeleteItem, items.Values, entry
    {
      && entry.key == key && entry.lifeSpan == lifeSpan && entry.data == data
      && entry.createdOn == now && entry.accessedOn == now && entry.accessCount == 0 && entry.aboutToExpire == None
      && Valid() && clock == (if ShouldScan(lifeSpan, before.interval) then scanNow else now)
      && AddedTo(before, State(), key, lifeSpan, now, scanNow, entry, removed, addedItem, aboutToDeleteItem)
    }

    /** Add: stores a new entry for `key` created at `now` (see Store), then
        runs the expiration scan, at the later clock reading `scanNow`, if the
        new entry has a positive lifespan shorter than the armed interval, or
        no timer is armed. The entry returned may already have been removed by
        that scan. */
    method Add(key: K, lifeSpan: Duration, data: V, now: Time, scanNow: Time) returns (item: CacheItem<K, V>, ghost removed: seq<K>)
      requires Valid() && clock <= now <= scanNow
      modifies this`items, this`trace, this`cleanupInterval, this`armedAt, this`clock
      ensures fresh(item) && AddOutcome(key, lifeSpan, data, now, scanNow, item, removed, old(State()))
    {
      ghost var before := State();
      item := Store(key, lifeSpan, data, now);
      ghost var mid := State();
      var expDur := cleanupInterval;
      if ShouldScan(lifeSpan, expDur) {
        removed := ExpirationCheck(scanNow);
        ScannedAdd(before, mid, State(), key, lifeSpan, now, scanNow, item, removed, addedItem, aboutToDeleteItem);
      } else {
        removed := [];
        UnscannedInsertCovered(before.timings, armedAt, expDur, key, lifeSpan, now);
      }
    }

    /** NotFoundAdd: adds as Add does only when no entry exists under `key`,
        and reports whether it did; otherwise nothing changes. `entry` is the
        entry under `key`: the one already there, or the one added. */
    method NotFoundAdd(key: K, lifeSpan: Duration, data: V, now: Time, scanNow: Time)
      returns (added: bool, ghost entry: CacheItem<K, V>, ghost removed: seq<K>)
      requires Valid() && clock <= now <= scanNow
      modifies this`items, this`trace, this`cleanupInterval, this`armedAt, this`clock
      ensures added <==> key !in old(items)
      ensures !added ==> entry == old(items)[key] && removed == [] && unchanged(this)
      ensures added ==> fresh(entry) && AddOutcome(key, lifeSpan, data, now, scanNow, entry, removed, old(State()))
    {
      if key in items {
        return false, items[key], [];
      }
      entry, removed := Add(key, lifeSpan, data, now, scanNow);
      return true, entry, removed;
    }

    method Delete(key: K) returns (res: Result<CacheItem<K, V>>)
      modifies this`items, this`trace
      ensures old(Wellformed()) ==> Wellformed()
      ensures old(Valid()) ==> Valid()
      ensures key !in old(items) ==> res == Err(ErrKeyNotFound) && items == old(items) && trace == old(trace)
      ensures key in old(items) ==>
        && res == Ok(old(items)[key])
        && items == old(items) - {key}
        && trace == old(trace) + DeleteEvents(aboutToDeleteItem, key, old(items)[key].aboutToExpire)
    {
      if key !in items {
        return Err(ErrKeyNotFound);
      }
      var r := items[key];
      if aboutToDeleteItem.Some? {
        trace := trace + [AboutToDelete(aboutToDeleteItem.value, key)];
      }
      if r.aboutToExpire.Some? {
        trace := trace + [AboutToExpire(r.aboutToExpire.value, key)];
      }
      items := items - {key};
      assert Timings() == old(Timings()) - {key};
      if old(Valid()) {
        RemovalCovered(old(Timings()), armedAt, cleanupInterval, {key});
      }
      return Ok(r);
    }

    /** Value at `now`: a hit marks the entry as used and returns it; on a
        miss with a loader installed, `loaded` is what the loader returns for
        `key` (None for nil): a loaded entry is added as Add does (`now` and
        `scanNow` being Add's clock readings), `stored` is the entry Add
        creates, and the loader's own entry is returned. */
    method Value(key: K, now: Time, scanNow: Time, loaded: Option<CacheItem<K, V>>)
      returns (res: Result<CacheItem<K, V>>, ghost stored: CacheItem?<K, V>, ghost removed: seq<K>)
      requires Valid() && clock <= now <= scanNow
      modifies this`items, this`trace, this`cleanupInterval, this`armedAt, this`clock
      modifies if key in items then {items[key]} else {}
      ensures Valid()
      ensures key in old(items) ==>
        && res == Ok(old(items)[key]) && stored == null && removed == [] && clock == now
        && items == old(items) && trace == old(trace)
        && cleanupInterval == old(cleanupInterval) && armedAt == old(armedAt)
        && items[key].accessedOn == now && items[key].accessCount == old(items[key].accessCount) + 1
        && items[key].aboutToExpire == old(items[key].aboutToExpire)
      ensures key !in old(items) && loadData == None ==>
        && res == Err(ErrKeyNotFound) && stored == null && removed == [] && clock == now
        && items == old(items) && trace == old(trace)
        && cleanupInterval == old(cleanupInterval) && armedAt == old(armedAt)
      ensures key !in old(items) && loadData.Some? && loaded == None ==>
        && res == Err(ErrKeyNotFoundOrLoadable) && stored == null && removed == [] && clock == now
        && items == old(items) && trace == old(trace) + [Loaded(loadData.value, key)]
        && cleanupInterval == old(cleanupInterval) && armedAt == old(armedAt)
      ensures key !in old(items) && loadData.Some? && loaded.Some? ==>
        && res == Ok(loaded.value) && stored != null && fresh(stored)
        && AddOutcome(key, loaded.value.lifeSpan, loaded.value.data, now, scanNow, stored, removed,
                      old(State()).(trace := old(trace) + [Loaded(loadData.value, key)]))
    {
      if key in items {
        var r := KeepAliveEntry(key, now);
        return Ok(r), null, [];
      } else if loadData.Some? {
        res, stored, removed := LoadEntry(key, now, scanNow, loaded);
      } else {
        clock := now;
        return Err(ErrKeyNotFound), null, [];
      }
    }

    /** The table learns of a later clock reading `now`. A caller holding an
        entry of the table may keep it alive directly (CacheItem.KeepAlive) at
        such a reading; this step re-establishes the invariant once every
        entry was accessed no later than `now` and the timer still covers the
        entries (as Expiration.KeepAliveCovered shows after a keep-alive). */
    ghost method AdvanceClock(now: Time)
      requires clock <= now && armedAt <= clock && KeysMatch()
      requires forall k :: k in items ==> items[k].Consistent() && items[k].accessedOn <= now
      requires ScheduleCovers(Timings(), armedAt, cleanupInterval)
      modifies this`clock
      ensures Valid() && clock == now
    {
      clock := now;
    }

    /** A hit in Value, and the way the table itself keeps an entry alive: the
        entry under `key` is marked as used at `now`, and the table's clock
        moves to `now` with it. */
    method KeepAliveEntry(key: K, now: Time) returns (r: CacheItem<K, V>)
      requires Valid() && clock <= now && key in items
      modifies this`clock, items[key]
      ensures Valid() && clock == now && r == items[key]
      ensures r.accessedOn == now && r.accessCount == old(r.accessCount) + 1
      ensures r.aboutToExpire == old(r.aboutToExpire)
    {
      r := items[key];
      r.KeepAlive(now);
      clock := now;
      KeptAlive(key, now);
    }

    /** A miss in Value with a loader installed: the loader is asked for `key`
        and what it returns (`loaded`), if anything, is added as Add does. */
    method LoadEntry(key: K, now: Time, scanNow: Time, loaded: Option<CacheItem<K, V>>)
      returns (res: Result<CacheItem<K, V>>, ghost stored: CacheItem?<K, V>, ghost removed: seq<K>)
      requires Valid() && clock <= now <= scanNow && key !in items && loadData.Some?
      modifies this`items, this`trace, this`cleanupInterval, this`armedAt, this`clock
      ensures Valid()
      ensures loaded == None ==>
        && res == Err(ErrKeyNotFoundOrLoadable) && stored == null && removed == [] && clock == now
        && items == old(items) && trace == old(trace) + [Loaded(loadData.value, key)]
        && cleanupInterval == old(cleanupInterval) && armedAt == old(armedAt)
      ensures loaded.Some? ==>
        && res == Ok(loaded.value) && stored != null && fresh(stored)
        && AddOutcome(key, loaded.value.lifeSpan, loaded.value.data, now, scanNow, stored, removed,
                      old(State()).(trace := old(trace) + [Loaded(loadData.value, key)]))
    {
      trace := trace + [Loaded(loadData.value, key)];
      if loaded.Some? {
        ghost var before := State();
        assert before == old(State()).(trace := old(trace) + [Loaded(loadData.value, key)]);
        var entry, r := Add(key, loaded.value.lifeSpan, loaded.value.data, now, scanNow);
        assert AddOutcome(key, loaded.value.lifeSpan, loaded.value.data, now, scanNow, entry, r, before);
        return Ok(loaded.value), entry, r;
      }
      clock := now;
      return Err(ErrKeyNotFoundOrLoadable), null, [];
    }

    /** Removes every entry and disarms the timer, without invoking a callback. */
    method Flush()
      modifies this`items, this`cleanupInterval
      ensures items == map[] && cleanupInterval == 0 && trace == old(trace)
      ensures old(Wellformed()) ==> Valid()
    {
      items := map[];
      cleanupInterval := 0;
    }

    /** The (key, access count) pair of every entry, in the map's iteration
        order. */
    method CountPairs() returns (p: seq<CacheItemPair<K>>)
      ensures |p| == |items| && DistinctKeys(p)
      ensures forall i :: 0 <= i < |p| ==> p[i].key in items && p[i].accessCount == items[p[i].key].accessCount
      ensures forall k :: k in items ==> CacheItemPair(k, items[k].accessCount) in p
    {
      p := [];
      var rest := items.Keys;
      while rest != {}
        invariant rest <= items.Keys
        invariant |p| + |rest| == |items|
        invariant DistinctKeys(p)
        invariant forall i :: 0 <= i < |p| ==> p[i].key in items && p[i].key !in rest && p[i].accessCount == items[p[i].key].accessCount
        invariant forall k :: k in items && k !in rest ==> CacheItemPair(k, items[k].accessCount) in p
        decreases rest
      {
        var k :| k in rest;
        p := p + [CacheItemPair(k, items[k].accessCount)];
        rest := rest - {k};
      }
    }

    /** The first half of MostAccessed: every entry's (key, access count)
        pair, sorted by non-increasing access count. */
    method RankEntries() returns (ranked: seq<CacheItemPair<K>>)
      ensures ByCountDesc(ranked) && DistinctKeys(ranked) && |ranked| == |items|
      ensures forall i :: 0 <= i < |ranked| ==> ranked[i].key in items && ranked[i].accessCount == items[ranked[i].key].accessCount
      ensures forall k :: k in items ==> CacheItemPair(k, items[k].accessCount) in ranked
    {
      var p := CountPairs();
      ranked := SortByCount(p);
      RankedPairs(p);
    }

    /** MostAccessed: the entries of the `count` most accessed keys, most
        accessed first; `ranked` is the order the sort puts all the entries in. */
    method MostAccessed(count: int) returns (r: seq<CacheItem<K, V>>, ghost ranked: seq<CacheItemPair<K>>)
      requires KeysMatch()
      ensures ByCountDesc(ranked) && DistinctKeys(ranked) && |ranked| == |items|
      ensures forall i :: 0 <= i < |ranked| ==> ranked[i].key in items && ranked[i].accessCount == items[ranked[i].key].accessCount
      ensures |r| == if count <= 0 then 0 else Min(count, |items|)
      ensures forall i :: 0 <= i < |r| ==> r[i] == items[ranked[i].key]
      ensures forall i, j :: 0 <= i < j < |r| ==> r[i] != r[j]
      ensures forall k, i :: k in items && items[k] !in r && 0 <= i < |r| ==> items[k].accessCount <= r[i].accessCount
    {
      var sorted := RankEntries();
      ranked := sorted;
      r := [];
      var c := 0;
      while c < |sorted| && c < count
        invariant 0 <= c <= |sorted| && |r| == c && (c == 0 || c <= count)
        invariant forall i :: 0 <= i < c ==> r[i] == items[sorted[i].key]
      {
        // The lookup always succeeds: the table is locked throughout.
        r := r + [items[sorted[c].key]];
        c := c + 1;
      }
      TopEntries(ranked, r);
    }

    /** The entries picked by rank are distinct, and every entry left out has
        no more accesses than any entry picked. */
    lemma TopEntries(ranked: seq<CacheItemPair<K>>, r: seq<CacheItem<K, V>>)
      requires KeysMatch() && ByCountDesc(ranked) && DistinctKeys(ranked) && |r| <= |ranked|
      requires forall i :: 0 <= i < |ranked| ==> ranked[i].key in items && ranked[i].accessCount == items[ranked[i].key].accessCount
      requires forall k :: k in items ==> CacheItemPair(k, items[k].accessCount) in ranked
      requires forall i :: 0 <= i < |r| ==> r[i] == items[ranked[i].key]
      ensures forall i, j :: 0 <= i < j < |r| ==> r[i] != r[j]
      ensures forall k, i :: k in items && items[k] !in r && 0 <= i < |r| ==> items[k].accessCount <= r[i].accessCount
    {
      var counts := map k | k in items :: items[k].accessCount;
      forall k | k in items && items[k] !in r ensures forall i :: 0 <= i < |r| ==> items[k].accessCount <= r[i].accessCount {
        TopRanked(ranked, |r|, counts, k);
      }
    }

    /** One iteration of the expiration scan, on the entry under `key`, whose
        timing is `t` and expiry callback `hook`: an entry whose idle time has
        reached its nonzero lifespan is removed through Delete; a pending one
        lowers the running minimum `smallest` if it is due sooner. */
    method VisitEntry(key: K, now: Time, smallest: Duration, ghost t: Timing, ghost hook: Option<HookId>)
      returns (smallest': Duration)
      requires key in items && t == Timing(items[key].lifeSpan, items[key].accessedOn) && hook == items[key].aboutToExpire
      modifies this`items, this`trace
      ensures items == if Expired(t, now) then old(items) - {key} else old(items)
      ensures trace == old(trace) + if Expired(t, now) then DeleteEvents(aboutToDeleteItem, key, hook) else []
      ensures smallest' == if Pending(t, now) && (smallest == 0 || Remaining(t, now) < smallest) then Remaining(t, now) else smallest
    {
      var item := items[key];
      var lifeSpan := item.lifeSpan;
      var accessedOn := item.accessedOn;
      smallest' := smallest;
      if lifeSpan == 0 {
      } else if now - accessedOn >= lifeSpan {
        var _ := Delete(key);
      } else if smallest == 0 || lifeSpan - (now - accessedOn) < smallest {
        smallest' := lifeSpan - (now - accessedOn);
      }
    }

    /** The loop of the expiration scan: visits `keys` in order, removing the
        expired entries and returning the least remaining lifetime of the
        pending ones (0 when none is pending). */
    method SweepKeys(keys: seq<K>, now: Time, ghost ts: map<K, Timing>, ghost hooks: map<K, Option<HookId>>)
      returns (smallestDuration: Duration)
      requires DistinctKeysOf(ts, keys)
      requires forall i :: 0 <= i < |keys| ==> keys[i] in items
      requires ts == Timings() && hooks == ExpiryHooks()
      modifies this`items, this`trace
      ensures items == old(items) - Elements(ExpiredIn(ts, now, keys))
      ensures smallestDuration == SmallestIn(ts, now, keys)
      ensures trace == old(trace) + ScanEvents(ts, now, keys, aboutToDeleteItem, hooks)
    {
      var snapshot := items;
      smallestDuration := 0;
      for i := 0 to |keys|
        invariant items == snapshot - Elements(ExpiredIn(ts, now, keys[..i]))
        invariant smallestDuration == SmallestIn(ts, now, keys[..i])
        invariant trace == old(trace) + ScanEvents(ts, now, keys[..i], aboutToDeleteItem, hooks)
      {
        var key := keys[i];
        SweepStep(ts, now, keys, i, aboutToDeleteItem, hooks);
        ghost var t := TimingOf(ts, key);
        ghost var before := items;
        AppendAssoc(old(trace), ScanEvents(ts, now, keys[..i], aboutToDeleteItem, hooks),
                    if Expired(t, now) then DeleteEvents(aboutToDeleteItem, key, HookOf(hooks, key)) else []);
        smallestDuration := VisitEntry(key, now, smallestDuration, t, HookOf(hooks, key));
        RemoveMaybe(snapshot, Elements(ExpiredIn(ts, now, keys[..i])), key, Expired(t, now), before, items);
      }
      assert keys[..|keys|] == keys;
    }

    /** One run of the expiration scan at `now`: visits the keys in the map's
        iteration order, removes through Delete every entry whose idle time
        has reached its nonzero lifespan (`removed` lists them in the order
        it removes them), and re-arms the timer with the least remaining
        lifetime among the others (0: no timer). */
    method ExpirationCheck(now: Time) returns (ghost removed: seq<K>)
      requires Wellformed() && clock <= now
      modifies this`items, this`trace, this`cleanupInterval, this`armedAt, this`clock
      ensures Valid() && clock == now && armedAt == now
      ensures RemovalOrder(removed, old(items).Keys - Survivors(old(Timings()), now))
      ensures items == old(items) - Elements(removed)
      ensures cleanupInterval == NextInterval(old(Timings()), now)
      ensures trace == old(trace) + RemovalEvents(aboutToDeleteItem, removed, old(ExpiryHooks()))
    {
      ghost var ts := Timings();
      ghost var hooks := ExpiryHooks();
      var keys := RangeOrder(items.Keys);
      var smallestDuration := SweepKeys(keys, now, ts, hooks);
      cleanupInterval, clock, armedAt := smallestDuration, now, now;
      removed := ExpiredIn(ts, now, keys);
      ScanResult(now, keys);
    }
  }
}
