/**
 * The next-update-time computation of AutoUpdateScheduler.kt. The clock, the
 * local midnight of the last update's day, the two entry counts the DAO would
 * return and the configured default mode are inputs.
 */
module AutoUpdateScheduler {
  import opened Common
  import opened UpdateModes

  /** Sentinel next-update times stored in the feed table. */
  const NEXT_UPDATE_TIME_DISABLED: int := 0
  const NEXT_UPDATE_TIME_ON_APP_LAUNCH: int := -1

  /** The 15-minute grid of the adaptive mode: `HOUR_IN_MILLIS / 4`. */
  const QUARTER_HOUR: int := HOUR_IN_MILLIS / 4

  /** The intervals of the `EveryNMinutes`/`EveryNHours` objects the scheduler matches on. */
  predicate CanonicalMinutes(minutes: Int32) {
    minutes in {15, 30, 45, 60, 120, 180, 240, 360, 480}
  }

  /** The modes `calculateNextUpdateTime` has a branch for. */
  predicate Schedulable(mode: UpdateMode) {
    match mode
    case Repeating(minutes) => CanonicalMinutes(minutes)
    case _ => true
  }

  /** A configured default the `Default` branch can defer to without recursing forever. */
  predicate ValidDefault(defaultMode: UpdateMode) {
    !defaultMode.Default? && Schedulable(defaultMode)
  }

  /**
   * What the platform provides for one feed: local midnight of the day of its
   * last update (the `Calendar` computation) and the number of entries
   * aggregated since one day and since one week before that update.
   */
  datatype FeedHistory = FeedHistory(midnight: int, entriesSinceYesterday: nat, entriesSinceLastWeek: nat)

  /** `minutes * 60000`: the interval of a repeating mode in milliseconds. */
  function MinutesInMillis(minutes: Int32): int {
    minutes as int * 60000
  }

  /** A slot of a repeating schedule: `k` intervals after midnight. */
  function Slot(midnight: int, interval: int, k: int): int {
    midnight + k * interval
  }

  // ---------------------------------------------------------------------
  // Adaptive mode
  // ---------------------------------------------------------------------

  /** `updateRate` of `calculateNextAdaptiveUpdateTime`, before it is aligned to the grid. */
  function AdaptiveUpdateRate(entriesSinceYesterday: nat, entriesSinceLastWeek: nat): (rate: int)
    ensures entriesSinceYesterday > 0 ==> QUARTER_HOUR <= rate <= DAY_IN_MILLIS / 2
    ensures entriesSinceYesterday == 0 && entriesSinceLastWeek > 0 ==> 0 <= rate <= DAY_IN_MILLIS / 4
    ensures entriesSinceYesterday == 0 && entriesSinceLastWeek == 0 ==> rate == DAY_IN_MILLIS / 2
  {
    if entriesSinceYesterday > 0 then
      Max(KDiv(DAY_IN_MILLIS, entriesSinceYesterday), HOUR_IN_MILLIS / 2) / 2
    else if entriesSinceLastWeek > 0 then
      Min(KDiv(WEEK_IN_MILLIS, entriesSinceLastWeek), DAY_IN_MILLIS / 2) / 2
    else
      DAY_IN_MILLIS / 2
  }

  function Max(a: int, b: int): int { if a >= b then a else b }
  function Min(a: int, b: int): int { if a <= b then a else b }

  /** The adaptive interval: the update rate truncated to the 15-minute grid. */
  function AdaptiveInterval(entriesSinceYesterday: nat, entriesSinceLastWeek: nat): (interval: int)
    ensures interval % QUARTER_HOUR == 0
    ensures 0 <= interval <= 12 * HOUR_IN_MILLIS
  {
    var rate := AdaptiveUpdateRate(entriesSinceYesterday, entriesSinceLastWeek);
    TruncateNonNegative(rate, QUARTER_HOUR);
    Truncate(rate, QUARTER_HOUR)
  }

  /**
   * Between 15 minutes and 12 hours when entries arrived in the last day, at
   * most 6 hours (possibly 0) when entries arrived only in the last week,
   * exactly 12 hours otherwise.
   */
  lemma AdaptiveIntervalBounds(entriesSinceYesterday: nat, entriesSinceLastWeek: nat)
    ensures entriesSinceYesterday > 0 ==>
              QUARTER_HOUR <= AdaptiveInterval(entriesSinceYesterday, entriesSinceLastWeek) <= 12 * HOUR_IN_MILLIS
    ensures entriesSinceYesterday == 0 && entriesSinceLastWeek > 0 ==>
              0 <= AdaptiveInterval(entriesSinceYesterday, entriesSinceLastWeek) <= 6 * HOUR_IN_MILLIS
    ensures entriesSinceYesterday == 0 && entriesSinceLastWeek == 0 ==>
              AdaptiveInterval(entriesSinceYesterday, entriesSinceLastWeek) == 12 * HOUR_IN_MILLIS
  {
    var rate := AdaptiveUpdateRate(entriesSinceYesterday, entriesSinceLastWeek);
    if entriesSinceYesterday > 0 {
      TruncateKeepsFloor(rate, QUARTER_HOUR);
    } else if entriesSinceLastWeek == 0 {
      HalfDayOnGrid();
    }
  }

  lemma HalfDayOnGrid()
    ensures Truncate(DAY_IN_MILLIS / 2, QUARTER_HOUR) == 12 * HOUR_IN_MILLIS
  {
    assert DAY_IN_MILLIS / 2 == 43_200_000 && QUARTER_HOUR == 900_000;
    assert KDiv(43_200_000, 900_000) == 48;
  }

  lemma TruncateKeepsFloor(a: int, b: int)
    requires b > 0
    ensures a >= b ==> Truncate(a, b) >= b
  {
    if a < b {
      return;
    }
    var q := KDiv(a, b);
    assert q * b > a - b >= 0;
    MulAtLeast(q, b);
  }

  /**
   * `calculateNextAdaptiveUpdateTime`: the last update time truncated to the
   * 15-minute grid plus the adaptive interval. The result is on the grid and
   * never before the truncated last update time.
   */
  function NextAdaptiveUpdateTime(lastUpdateTime: int, entriesSinceYesterday: nat, entriesSinceLastWeek: nat): (next: int)
    ensures next % QUARTER_HOUR == 0
    ensures next >= Truncate(lastUpdateTime, QUARTER_HOUR)
    ensures next - Truncate(lastUpdateTime, QUARTER_HOUR) == AdaptiveInterval(entriesSinceYesterday, entriesSinceLastWeek)
    ensures entriesSinceYesterday > 0 || entriesSinceLastWeek == 0 ==> lastUpdateTime < next
    ensures 0 <= lastUpdateTime ==> next <= lastUpdateTime + 12 * HOUR_IN_MILLIS
  {
    var base := Truncate(lastUpdateTime, QUARTER_HOUR);
    var interval := AdaptiveInterval(entriesSinceYesterday, entriesSinceLastWeek);
    AdaptiveIntervalBounds(entriesSinceYesterday, entriesSinceLastWeek);
    SumOfMultiples(base, interval, QUARTER_HOUR);
    base + interval
  }

  lemma SumOfMultiples(a: int, b: int, m: int)
    requires m > 0 && a % m == 0 && b % m == 0
    ensures (a + b) % m == 0
  {
    assert a == (a / m) * m;
    assert b == (b / m) * m;
    assert a + b == (a / m + b / m) * m;
    ModOfMultiple(a / m + b / m, m);
  }

  // ---------------------------------------------------------------------
  // Repeating modes
  // ---------------------------------------------------------------------

  /**
   * `calculateNextRepeatingUpdateTime`: the first slot of a `minutes` grid
   * anchored at local midnight that lies strictly after the last update.
   */
  function NextRepeatingUpdateTime(lastUpdateTime: int, midnight: int, minutes: Int32): (next: int)
    requires CanonicalMinutes(minutes)
    ensures midnight <= lastUpdateTime ==> lastUpdateTime < next <= lastUpdateTime + MinutesInMillis(minutes)
    ensures midnight <= lastUpdateTime ==> (next - midnight) % MinutesInMillis(minutes) == 0
    ensures midnight <= lastUpdateTime ==>
              forall k: int :: lastUpdateTime < Slot(midnight, MinutesInMillis(minutes), k) ==> next <= Slot(midnight, MinutesInMillis(minutes), k)
  {
    var minutesInMillis := MinutesInMillis(minutes);
    var q := KDiv(lastUpdateTime - midnight, minutesInMillis);
    RepeatingFacts(lastUpdateTime, midnight, minutesInMillis);
    midnight + (q + 1) * minutesInMillis
  }

  lemma RepeatingFacts(lastUpdateTime: int, midnight: int, minutesInMillis: int)
    requires minutesInMillis > 0
    ensures var next := midnight + (KDiv(lastUpdateTime - midnight, minutesInMillis) + 1) * minutesInMillis;
            midnight <= lastUpdateTime ==>
              && lastUpdateTime < next <= lastUpdateTime + minutesInMillis
              && (next - midnight) % minutesInMillis == 0
              && forall k: int :: lastUpdateTime < Slot(midnight, minutesInMillis, k) ==> next <= Slot(midnight, minutesInMillis, k)
  {
    if midnight > lastUpdateTime {
      return;
    }
    var q := KDiv(lastUpdateTime - midnight, minutesInMillis);
    var next := midnight + (q + 1) * minutesInMillis;
    RepeatingSlot(lastUpdateTime - midnight, minutesInMillis, q);
    assert next - midnight == (q + 1) * minutesInMillis;
    ModOfMultiple(q + 1, minutesInMillis);
    forall k: int | lastUpdateTime < Slot(midnight, minutesInMillis, k)
      ensures next <= Slot(midnight, minutesInMillis, k)
    {
      SlotAfter(lastUpdateTime - midnight, minutesInMillis, q, k);
    }
  }

  lemma RepeatingSlot(d: int, m: int, q: int)
    requires d >= 0 && m > 0 && 0 <= d - q * m < m
    ensures d < (q + 1) * m <= d + m
  {
    assert (q + 1) * m == q * m + m;
  }

  lemma SlotAfter(d: int, m: int, q: int, k: int)
    requires m > 0 && 0 <= d - q * m < m && d < k * m
    ensures (q + 1) * m <= k * m
  {
    if k <= q {
      MulNonNegative(q - k, m);
    }
    assert (k - q - 1) * m >= 0 by {
      MulNonNegative(k - q - 1, m);
    }
    assert k * m - (q + 1) * m == (k - q - 1) * m;
  }


  // ---------------------------------------------------------------------
  // calculateNextUpdateTime and schedule
  // ---------------------------------------------------------------------

  /**
   * `calculateNextUpdateTime(feedId, updateMode, lastUpdateTime)`: `Default`
   * defers to the configured default mode.
   */
  function NextUpdateTime(mode: UpdateMode, defaultMode: UpdateMode, lastUpdateTime: int, history: FeedHistory): (next: int)
    requires Schedulable(mode)
    requires mode.Default? ==> ValidDefault(defaultMode)
    ensures mode.Disabled? ==> next == NEXT_UPDATE_TIME_DISABLED
    ensures mode.OnAppLaunch? ==> next == NEXT_UPDATE_TIME_ON_APP_LAUNCH
    decreases if mode.Default? then 1 else 0
  {
    match mode
    case Adaptive => NextAdaptiveUpdateTime(lastUpdateTime, history.entriesSinceYesterday, history.entriesSinceLastWeek)
    case Default => NextUpdateTime(defaultMode, defaultMode, lastUpdateTime, history)
    case Disabled => NEXT_UPDATE_TIME_DISABLED
    case OnAppLaunch => NEXT_UPDATE_TIME_ON_APP_LAUNCH
    case Repeating(minutes) => NextRepeatingUpdateTime(lastUpdateTime, history.midnight, minutes)
  }

  /** The mode whose rule decides the next update time. */
  function EffectiveMode(mode: UpdateMode, defaultMode: UpdateMode): UpdateMode {
    if mode.Default? then defaultMode else mode
  }

  /** `Default` yields exactly what the configured default mode yields. */
  lemma DefaultDefersToConfigured(defaultMode: UpdateMode, other: UpdateMode, lastUpdateTime: int, history: FeedHistory)
    requires ValidDefault(defaultMode)
    ensures NextUpdateTime(Default, defaultMode, lastUpdateTime, history)
         == NextUpdateTime(defaultMode, other, lastUpdateTime, history)
  {
  }

  /**
   * Once the last update lies at least 15 minutes after the epoch and after
   * its local midnight, the two sentinels are produced exactly by the
   * disabled and on-launch modes; every other mode yields a positive time,
   * after the last update unless the adaptive interval rounded down to 0.
   */
  lemma {:induction false} NextUpdateTimeSentinels(mode: UpdateMode, defaultMode: UpdateMode, lastUpdateTime: int, history: FeedHistory)
    requires Schedulable(mode)
    requires mode.Default? ==> ValidDefault(defaultMode)
    requires lastUpdateTime >= QUARTER_HOUR && history.midnight <= lastUpdateTime
    ensures (NextUpdateTime(mode, defaultMode, lastUpdateTime, history) == NEXT_UPDATE_TIME_DISABLED)
              <==> EffectiveMode(mode, defaultMode).Disabled?
    ensures (NextUpdateTime(mode, defaultMode, lastUpdateTime, history) == NEXT_UPDATE_TIME_ON_APP_LAUNCH)
              <==> EffectiveMode(mode, defaultMode).OnAppLaunch?
    ensures (!EffectiveMode(mode, defaultMode).Disabled? && !EffectiveMode(mode, defaultMode).OnAppLaunch?)
              ==> NextUpdateTime(mode, defaultMode, lastUpdateTime, history) > 0
    ensures EffectiveMode(mode, defaultMode).Repeating? ==>
              NextUpdateTime(mode, defaultMode, lastUpdateTime, history) > lastUpdateTime
    decreases if mode.Default? then 1 else 0
  {
    if mode.Default? {
      NextUpdateTimeSentinels(defaultMode, defaultMode, lastUpdateTime, history);
    } else if mode.Adaptive? {
      TruncateKeepsFloor(lastUpdateTime, QUARTER_HOUR);
    }
  }

  /**
   * `setMinimumLatency(max(0, nextUpdateDelay))`: the delay until the next
   * update time, never negative.
   */
  function MinimumLatency(nextUpdateTime: int, now: int): (latency: int)
    ensures latency >= 0
    ensures latency >= nextUpdateTime - now
    ensures latency == 0 || latency == nextUpdateTime - now
  {
    Max(0, nextUpdateTime - now)
  }

  /**
   * `schedule()`: no job when the DAO reports no next update time, otherwise
   * one job whose minimum latency is the clamped delay.
   */
  function Schedule(nextUpdateTime: Option<int>, now: int): (latency: Option<int>)
    ensures latency.None? <==> nextUpdateTime.None?
    ensures latency.Some? ==> latency.value >= 0 && latency.value >= nextUpdateTime.value - now
    ensures latency.Some? && nextUpdateTime.value >= now ==> now + latency.value == nextUpdateTime.value
  {
    match nextUpdateTime
    case None => None
    case Some(t) => Some(MinimumLatency(t, now))
  }

  /** The feed fields `scheduleFeeds` reads. */
  datatype SchedulerFeed = SchedulerFeed(id: int, updateMode: UpdateMode, lastUpdateTime: int)

  /**
   * `scheduleFeeds`: one `(feed id, next update time)` write per feed, in
   * order. The transaction around the writes and the `schedule()` call after
   * them are not part of this method.
   */
  method ScheduleFeeds(feeds: seq<SchedulerFeed>, histories: seq<FeedHistory>, defaultMode: UpdateMode)
    returns (writes: seq<(int, int)>)
    requires |histories| == |feeds|
    requires forall i :: 0 <= i < |feeds| ==> Schedulable(feeds[i].updateMode)
    requires forall i :: 0 <= i < |feeds| ==> feeds[i].updateMode.Default? ==> ValidDefault(defaultMode)
    ensures |writes| == |feeds|
    ensures forall i :: 0 <= i < |feeds| ==>
              writes[i] == (feeds[i].id, NextUpdateTime(feeds[i].updateMode, defaultMode, feeds[i].lastUpdateTime, histories[i]))
  {
    writes := [];
    var i := 0;
    while i < |feeds|
      invariant 0 <= i <= |feeds|
      invariant |writes| == i
      invariant forall j :: 0 <= j < i ==>
                  writes[j] == (feeds[j].id, NextUpdateTime(feeds[j].updateMode, defaultMode, feeds[j].lastUpdateTime, histories[j]))
    {
      var feed := feeds[i];
      writes := writes + [(feed.id, NextUpdateTime(feed.updateMode, defaultMode, feed.lastUpdateTime, histories[i]))];
      i := i + 1;
    }
  }

  // ---------------------------------------------------------------------
  // Worked examples
  // ---------------------------------------------------------------------

  /** Every 30 minutes: 10:05 is followed by 10:30, and 23:55 by midnight of the next day. */
  lemma RepeatingExamples()
    ensures NextRepeatingUpdateTime(10 * HOUR_IN_MILLIS + 5 * 60000, 0, 30) == 10 * HOUR_IN_MILLIS + 30 * 60000
    ensures NextRepeatingUpdateTime(23 * HOUR_IN_MILLIS + 55 * 60000, 0, 30) == DAY_IN_MILLIS
  {
  }

  /** 48 entries in the last day give the 15-minute floor. */
  lemma AdaptiveExample()
    ensures AdaptiveInterval(48, 48) == QUARTER_HOUR
  {
    assert KDiv(DAY_IN_MILLIS, 48) == 1_800_000;
    assert AdaptiveUpdateRate(48, 48) == 900_000;
    assert KDiv(900_000, QUARTER_HOUR) == 1;
  }

  /** With entries only in the last week the interval can round down to 0 (the cap is `min`). */
  lemma AdaptiveWeekOnlyCanBeZero()
    ensures AdaptiveInterval(0, 400) == 0
  {
    assert KDiv(WEEK_IN_MILLIS, 400) == 1_512_000;
    assert AdaptiveUpdateRate(0, 400) == 756_000;
    assert KDiv(756_000, QUARTER_HOUR) == 0;
  }
}
