/** The self-adjusting expiration scheduler of a cache table, stated on values:
    which entries one scan removes, the interval it re-arms the timer with,
    and the rule by which inserting an entry triggers a scan. */
module Expiration {
  import opened CacheBase

  /** What a scan reads of one entry. */
  datatype Timing = Timing(lifeSpan: Duration, accessedOn: Time)

  /** How long the entry has gone without a keep-alive. */
  function Idle(t: Timing, now: Time): (d: Duration)
    ensures d >= 0 <==> t.accessedOn <= now
  {
    now - t.accessedOn
  }

  /** A lifespan of 0 means the entry never expires; otherwise it expires once
      its idle time reaches its lifespan. */
  predicate Expired(t: Timing, now: Time)
    ensures Expired(t, now) ==> t.lifeSpan != 0 && !Pending(t, now)
    ensures t.lifeSpan != 0 && !Pending(t, now) ==> Expired(t, now)
  {
    t.lifeSpan != 0 && Idle(t, now) >= t.lifeSpan
  }

  /** An entry with a finite lifespan that a scan keeps: it bounds the next interval. */
  predicate Pending(t: Timing, now: Time)
    ensures Pending(t, now) ==> t.lifeSpan != 0 && Remaining(t, now) > 0
  {
    t.lifeSpan != 0 && Idle(t, now) < t.lifeSpan
  }

  /** Time left before a pending entry expires. */
  function Remaining(t: Timing, now: Time): (d: Duration)
    ensures t.accessedOn <= now ==> d <= t.lifeSpan
    ensures d > 0 <==> now < t.accessedOn + t.lifeSpan
  {
    t.lifeSpan - Idle(t, now)
  }

  /** The keys a scan at `now` keeps. */
  function Survivors<K>(ts: map<K, Timing>, now: Time): (s: set<K>)
    ensures s <= ts.Keys
    ensures forall k :: k in ts && ts[k].lifeSpan == 0 ==> k in s
    ensures forall k :: k in ts ==> (k in s <==> !Expired(ts[k], now))
    ensures forall k :: k in s && ts[k].lifeSpan != 0 ==> Pending(ts[k], now) && Remaining(ts[k], now) > 0
  {
    set k | k in ts && !Expired(ts[k], now)
  }

  /** The table a scan at `now` leaves behind. */
  function Sweep<K>(ts: map<K, Timing>, now: Time): (r: map<K, Timing>)
    ensures r.Keys == Survivors(ts, now)
    ensures forall k :: k in r ==> r[k] == ts[k]
  {
    map k | k in Survivors(ts, now) :: ts[k]
  }

  /** `d` is the smallest remaining lifetime among the pending entries of
      `keys`, or 0 when none of them is pending. */
  ghost predicate IsSmallestRemaining<K>(ts: map<K, Timing>, keys: set<K>, now: Time, d: Duration) {
    && d >= 0
    && (d == 0 <==> forall k :: k in keys && k in ts ==> !Pending(ts[k], now))
    && (forall k :: k in keys && k in ts && Pending(ts[k], now) ==> d <= Remaining(ts[k], now))
    && (d != 0 ==> exists k :: k in keys && k in ts && Pending(ts[k], now) && d == Remaining(ts[k], now))
  }

  /** The scan's `smallestDuration` after visiting `keys`, one key at a time
      in any order, as the scan loop does. */
  ghost function SmallestRemaining<K>(ts: map<K, Timing>, keys: set<K>, now: Time): (d: Duration)
    ensures IsSmallestRemaining(ts, keys, now, d)
    decreases keys
  {
    if keys == {} then 0
    else
      var k :| k in keys;
      var d := SmallestRemaining(ts, keys - {k}, now);
      assert forall j :: j in keys ==> j == k || j in keys - {k};
      if k in ts && Pending(ts[k], now) && (d == 0 || Remaining(ts[k], now) < d) then Remaining(ts[k], now) else d
  }

  /** The interval a scan at `now` re-arms the timer with. */
  ghost function NextInterval<K>(ts: map<K, Timing>, now: Time): (d: Duration)
    ensures d >= 0
    ensures d > 0 <==> exists k :: k in Survivors(ts, now) && ts[k].lifeSpan != 0
    ensures forall k :: k in Survivors(ts, now) && ts[k].lifeSpan != 0 ==> d <= Remaining(ts[k], now)
    ensures d > 0 ==> exists k :: k in Survivors(ts, now) && ts[k].lifeSpan != 0 && d == Remaining(ts[k], now)
  {
    SmallestRemaining(ts, ts.Keys, now)
  }

  /** The characterisation fixes the value. */
  lemma SmallestRemainingUnique<K>(ts: map<K, Timing>, keys: set<K>, now: Time, d: Duration)
    requires IsSmallestRemaining(ts, keys, now, d)
    ensures d == SmallestRemaining(ts, keys, now)
  {
    var e := SmallestRemaining(ts, keys, now);
    if d != 0 {
      var k :| k in keys && k in ts && Pending(ts[k], now) && d == Remaining(ts[k], now);
      var j :| j in keys && j in ts && Pending(ts[j], now) && e == Remaining(ts[j], now);
    }
  }

  /** One step of the scan loop: visiting key `k` keeps the minimum, or replaces
      it when `k` is pending with less time left (or nothing was pending yet). */
  lemma SmallestRemainingStep<K>(ts: map<K, Timing>, done: set<K>, k: K, now: Time)
    requires k in ts && k !in done
    ensures SmallestRemaining(ts, done + {k}, now) ==
      var d := SmallestRemaining(ts, done, now);
      if Pending(ts[k], now) && (d == 0 || Remaining(ts[k], now) < d) then Remaining(ts[k], now) else d
  {
    var d := SmallestRemaining(ts, done, now);
    var e := if Pending(ts[k], now) && (d == 0 || Remaining(ts[k], now) < d) then Remaining(ts[k], now) else d;
    if e != 0 {
      if e == d {
        var j :| j in done && j in ts && Pending(ts[j], now) && d == Remaining(ts[j], now);
        assert j in done + {k};
      } else {
        assert k in done + {k};
      }
    }
    SmallestRemainingUnique(ts, done + {k}, now, e);
  }

  /** The rule by which Add and NotFoundAdd run a scan, judged on the interval
      the table held before the insert. */
  predicate ShouldScan(lifeSpan: Duration, interval: Duration)
    ensures ShouldScan(lifeSpan, interval) ==> lifeSpan > 0
    ensures !ShouldScan(lifeSpan, interval) && interval >= 0 ==> lifeSpan <= 0 || 0 < interval <= lifeSpan
  {
    lifeSpan > 0 && (interval == 0 || lifeSpan < interval)
  }

  /** The timer armed at `armedAt` for `interval` fires no later than the
      deadline of any entry with a positive lifespan, and an idle scheduler
      (interval 0) means no entry has a positive lifespan. */
  ghost predicate ScheduleCovers<K>(ts: map<K, Timing>, armedAt: Time, interval: Duration) {
    && interval >= 0
    && (interval == 0 ==> forall k :: k in ts ==> ts[k].lifeSpan <= 0)
    && (interval > 0 ==>
          forall k :: k in ts && ts[k].lifeSpan > 0 ==> armedAt + interval <= ts[k].accessedOn + ts[k].lifeSpan)
  }

  /** A scan re-arms the timer so that it covers every entry the scan keeps. */
  lemma ScanCovers<K>(ts: map<K, Timing>, now: Time)
    ensures ScheduleCovers(Sweep(ts, now), now, NextInterval(ts, now))
  {
    var r, d := Sweep(ts, now), NextInterval(ts, now);
    if d == 0 {
      forall k | k in r ensures r[k].lifeSpan <= 0 {
        assert k in Survivors(ts, now);
      }
    }
  }

  /** When the trigger rule skips the scan, the pending timer already covers
      the new entry: it fires no later than the new entry's deadline. */
  lemma UnscannedInsertCovered<K>(ts: map<K, Timing>, armedAt: Time, interval: Duration, key: K, lifeSpan: Duration, now: Time)
    requires ScheduleCovers(ts, armedAt, interval)
    requires armedAt <= now
    requires !ShouldScan(lifeSpan, interval)
    ensures ScheduleCovers(ts[key := Timing(lifeSpan, now)], armedAt, interval)
  {
  }

  /** A keep-alive at a time no earlier than the last access only moves the
      entry's deadline later, so the timer still covers it. */
  lemma KeepAliveCovered<K>(ts: map<K, Timing>, armedAt: Time, interval: Duration, key: K, now: Time)
    requires ScheduleCovers(ts, armedAt, interval)
    requires key in ts && ts[key].accessedOn <= now
    ensures ScheduleCovers(ts[key := Timing(ts[key].lifeSpan, now)], armedAt, interval)
  {
  }

  /** Removing entries never uncovers the timer. */
  lemma RemovalCovered<K>(ts: map<K, Timing>, armedAt: Time, interval: Duration, gone: set<K>)
    requires ScheduleCovers(ts, armedAt, interval)
    ensures ScheduleCovers(ts - gone, armedAt, interval)
  {
  }

  /** A second scan at the same instant removes nothing more and re-arms with
      the same interval. */
  lemma ScanIdempotent<K>(ts: map<K, Timing>, now: Time)
    ensures Survivors(Sweep(ts, now), now) == Survivors(ts, now)
    ensures NextInterval(Sweep(ts, now), now) == NextInterval(ts, now)
  {
    var r := Sweep(ts, now);
    var d := NextInterval(ts, now);
    assert Survivors(r, now) == Survivors(ts, now);
    forall k | k in r.Keys && k in r && Pending(r[k], now) ensures d <= Remaining(r[k], now) {
      assert k in Survivors(ts, now);
    }
    if d != 0 {
      var k :| k in Survivors(ts, now) && ts[k].lifeSpan != 0 && d == Remaining(ts[k], now);
      assert k in r.Keys && k in r && Pending(r[k], now);
    } else {
      forall k | k in r.Keys && k in r ensures !Pending(r[k], now) {
        assert k in Survivors(ts, now);
      }
    }
    SmallestRemainingUnique(r, r.Keys, now, d);
  }
  /** `order` lists every key of `removed` exactly once. */
  ghost predicate RemovalOrder<K>(order: seq<K>, removed: set<K>) {
    && (forall i, j :: 0 <= i < j < |order| ==> order[i] != order[j])
    && (forall k :: k in order ==> k in removed)
    && (forall k :: k in removed ==> k in order)
  }

  /** The keys occurring in `ks`. */
  function Elements<K>(ks: seq<K>): set<K> {
    set k | k in ks
  }

  /** Every key of `ks` has a timing and no key occurs twice. */
  ghost predicate DistinctKeysOf<K>(ts: map<K, Timing>, ks: seq<K>) {
    && (forall i :: 0 <= i < |ks| ==> ks[i] in ts)
    && (forall i, j :: 0 <= i < j < |ks| ==> ks[i] != ks[j])
  }

  /** The timing of `k` in `ts`; a key without one is never due. */
  function TimingOf<K>(ts: map<K, Timing>, k: K): Timing {
    if k in ts then ts[k] else Timing(0, 0)
  }

  /** The keys a scan at `now` removes when it visits `ks` in that order. */
  function ExpiredIn<K>(ts: map<K, Timing>, now: Time, ks: seq<K>): (r: seq<K>)
    ensures |r| <= |ks|
    ensures forall k :: k in r ==> k in ks && Expired(TimingOf(ts, k), now)
  {
    if ks == [] then []
    else
      var last := ks[|ks| - 1];
      ExpiredIn(ts, now, ks[..|ks| - 1]) + (if Expired(TimingOf(ts, last), now) then [last] else [])
  }

  /** The scan's running minimum after visiting `ks` in that order: 0 until a
      pending entry is seen, then the least remaining lifetime so far. */
  function SmallestIn<K>(ts: map<K, Timing>, now: Time, ks: seq<K>): (d: Duration)
    ensures d >= 0
    ensures forall i :: 0 <= i < |ks| && Pending(TimingOf(ts, ks[i]), now) ==> 0 < d <= Remaining(TimingOf(ts, ks[i]), now)
  {
    if ks == [] then 0
    else
      var last := ks[|ks| - 1];
      var d := SmallestIn(ts, now, ks[..|ks| - 1]);
      var t := TimingOf(ts, last);
      if Pending(t, now) && (d == 0 || Remaining(t, now) < d) then Remaining(t, now) else d
  }

  /** Visiting the keys in any order, the running minimum is the least
      remaining lifetime of the pending entries visited. */
  lemma {:induction false} SmallestInIsSmallest<K>(ts: map<K, Timing>, now: Time, ks: seq<K>)
    requires DistinctKeysOf(ts, ks)
    ensures SmallestIn(ts, now, ks) == SmallestRemaining(ts, Elements(ks), now)
  {
    if ks != [] {
      var init, last := ks[..|ks| - 1], ks[|ks| - 1];
      assert ks == init + [last];
      assert DistinctKeysOf(ts, init);
      SmallestInIsSmallest(ts, now, init);
      assert last !in init;
      assert Elements(ks) == Elements(init) + {last};
      SmallestRemainingStep(ts, Elements(init), last, now);
    }
  }

  /** Visiting every key once, the removed keys are exactly the expired ones,
      each removed once. */
  lemma {:induction false} ExpiredInOrder<K>(ts: map<K, Timing>, now: Time, ks: seq<K>)
    requires DistinctKeysOf(ts, ks)
    ensures RemovalOrder(ExpiredIn(ts, now, ks), Elements(ks) - Survivors(ts, now))
  {
    if ks != [] {
      var init, last := ks[..|ks| - 1], ks[|ks| - 1];
      assert ks == init + [last];
      assert DistinctKeysOf(ts, init);
      ExpiredInOrder(ts, now, init);
      assert last !in init;
      var order := ExpiredIn(ts, now, init);
      if Expired(ts[last], now) {
        assert last !in order;
        assert Elements(ks) - Survivors(ts, now) == (Elements(init) - Survivors(ts, now)) + {last};
      } else {
        assert Elements(ks) - Survivors(ts, now) == Elements(init) - Survivors(ts, now);
      }
    }
  }

  /** Visiting the key after the prefix `ks[..i]`: one step of the scan. */
  lemma ScanStep<K>(ts: map<K, Timing>, now: Time, ks: seq<K>, i: nat)
    requires i < |ks|
    ensures ExpiredIn(ts, now, ks[..i + 1]) ==
      ExpiredIn(ts, now, ks[..i]) + (if Expired(TimingOf(ts, ks[i]), now) then [ks[i]] else [])
    ensures Elements(ExpiredIn(ts, now, ks[..i + 1])) ==
      Elements(ExpiredIn(ts, now, ks[..i])) + (if Expired(TimingOf(ts, ks[i]), now) then {ks[i]} else {})
    ensures SmallestIn(ts, now, ks[..i + 1]) ==
      var d, t := SmallestIn(ts, now, ks[..i]), TimingOf(ts, ks[i]);
      if Pending(t, now) && (d == 0 || Remaining(t, now) < d) then Remaining(t, now) else d
  {
    var pre := ks[..i + 1];
    assert pre[..|pre| - 1] == ks[..i];
    assert pre[|pre| - 1] == ks[i];
  }

  /** A scan that visits every key once removes exactly the expired entries,
      in an order that lists each once, re-arms with NextInterval, and leaves
      a table its new timer covers. */
  lemma ScanOutcome<K>(ts: map<K, Timing>, now: Time, ks: seq<K>)
    requires DistinctKeysOf(ts, ks) && forall k :: k in ts ==> k in ks
    ensures SmallestIn(ts, now, ks) == NextInterval(ts, now)
    ensures RemovalOrder(ExpiredIn(ts, now, ks), ts.Keys - Survivors(ts, now))
    ensures (ts - Elements(ExpiredIn(ts, now, ks))).Keys == Survivors(ts, now)
    ensures ScheduleCovers(ts - Elements(ExpiredIn(ts, now, ks)), now, SmallestIn(ts, now, ks))
  {
    assert Elements(ks) == ts.Keys;
    SmallestInIsSmallest(ts, now, ks);
    ExpiredInOrder(ts, now, ks);
    assert ts - Elements(ExpiredIn(ts, now, ks)) == Sweep(ts, now);
    ScanCovers(ts, now);
  }

  /** The fate of an entry created at `now` with a positive lifespan when a
      scan that reads the clock again, at `scanNow`, follows: the scan removes
      it exactly when its whole lifespan has passed in between. */
  lemma NewEntryFate<K>(ts: map<K, Timing>, key: K, now: Time, scanNow: Time, removed: seq<K>)
    requires key in ts && ts[key].accessedOn == now && ts[key].lifeSpan > 0
    requires RemovalOrder(removed, ts.Keys - Survivors(ts, scanNow))
    ensures key in Elements(removed) <==> scanNow - now >= ts[key].lifeSpan
  {
  }
}
