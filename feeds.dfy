/**
 * The feed repository (Feeds.kt): the derived columns of its projection map,
 * the next-update-time queries and the list criteria.
 */
module Feeds {
  import opened Common
  import opened Schema
  import opened UpdateModes
  import AutoUpdateScheduler
  import Entries

  // ---------------------------------------------------------------------
  // Derived columns
  // ---------------------------------------------------------------------

  /** `UNREAD_ENTRY_COUNT`: the feed's entries with `read_time = 0`. */
  function UnreadEntryCount(entries: seq<EntryRow>, feedId: int): nat {
    if entries == [] then 0
    else
      var last := entries[|entries| - 1];
      UnreadEntryCount(entries[..|entries| - 1], feedId) + (if last.feedId == feedId && last.readTime == 0 then 1 else 0)
  }

  /**
   * Marking an entry read with a nonzero clock never raises a feed's unread
   * count, and lowers it when the entry was one of its unread entries.
   */
  lemma {:induction false} MarkReadLowersUnreadCount(entries: seq<EntryRow>, feedId: int, entryId: int, now: int)
    requires now != 0
    ensures UnreadEntryCount(Entries.MarkRead(entries, entryId, now).rows, feedId) <= UnreadEntryCount(entries, feedId)
    ensures (exists i :: 0 <= i < |entries| && entries[i].id == entryId && entries[i].feedId == feedId && entries[i].readTime == 0) ==>
              UnreadEntryCount(Entries.MarkRead(entries, entryId, now).rows, feedId) < UnreadEntryCount(entries, feedId)
  {
    Entries.MarkReadEffect(entries, entryId, now);
    ReadRowsLowerUnreadCount(entries, Entries.MarkRead(entries, entryId, now).rows, feedId, entryId, now);
  }

  /** The same, for any rows that differ from `rows` exactly as `markRead(entryId)` makes them. */
  lemma {:induction false} ReadRowsLowerUnreadCount(rows: seq<EntryRow>, after: seq<EntryRow>, feedId: int, entryId: int, now: int)
    requires now != 0 && |after| == |rows|
    requires forall i :: 0 <= i < |rows| ==>
               after[i] == if rows[i].id == entryId then rows[i].(readTime := now, pinnedTime := 0) else rows[i]
    ensures UnreadEntryCount(after, feedId) <= UnreadEntryCount(rows, feedId)
    ensures (exists i :: 0 <= i < |rows| && rows[i].id == entryId && rows[i].feedId == feedId && rows[i].readTime == 0) ==>
              UnreadEntryCount(after, feedId) < UnreadEntryCount(rows, feedId)
  {
    if rows != [] {
      var n := |rows| - 1;
      ReadRowsLowerUnreadCount(rows[..n], after[..n], feedId, entryId, now);
      assert UnreadEntryCount(rows, feedId)
          == UnreadEntryCount(rows[..n], feedId) + (if rows[n].feedId == feedId && rows[n].readTime == 0 then 1 else 0);
      assert UnreadEntryCount(after, feedId)
          == UnreadEntryCount(after[..n], feedId) + (if after[n].feedId == feedId && after[n].readTime == 0 then 1 else 0);
      if exists i :: 0 <= i < |rows| && rows[i].id == entryId && rows[i].feedId == feedId && rows[i].readTime == 0 {
        var i :| 0 <= i < |rows| && rows[i].id == entryId && rows[i].feedId == feedId && rows[i].readTime == 0;
        if i < n {
          assert rows[..n][i] == rows[i];
        }
      }
    }
  }

  // ---------------------------------------------------------------------
  // Next update time
  // ---------------------------------------------------------------------

  /** A feed is scheduled when its next update time is positive; 0 (disabled) and -1 (on launch) are not. */
  predicate Scheduled(f: FeedRow) {
    f.nextUpdateTime > 0
  }

  /** `MIN(next_update_time) … WHERE next_update_time > 0`: NULL when no feed is scheduled. */
  function EarliestScheduled(feeds: seq<FeedRow>): (m: Option<int>)
    ensures m.None? <==> forall i :: 0 <= i < |feeds| ==> !Scheduled(feeds[i])
    ensures m.Some? ==> m.value > 0
    ensures m.Some? ==> exists i :: 0 <= i < |feeds| && feeds[i].nextUpdateTime == m.value
    ensures m.Some? ==> forall i :: 0 <= i < |feeds| && Scheduled(feeds[i]) ==> m.value <= feeds[i].nextUpdateTime
  {
    if feeds == [] then None
    else
      var last := feeds[|feeds| - 1];
      var p := feeds[..|feeds| - 1];
      var m := EarliestScheduled(p);
      assert forall i :: 0 <= i < |p| ==> p[i] == feeds[i];
      if !Scheduled(last) then m
      else if m.None? || last.nextUpdateTime < m.value then Some(last.nextUpdateTime)
      else m
  }

  /**
   * `queryNextUpdateTime()`: the earliest scheduled time. The cursor reads the
   * NULL of an empty minimum as 0, so the function never returns null.
   */
  function QueryNextUpdateTime(feeds: seq<FeedRow>): (t: int)
    ensures t >= 0
    ensures t == 0 <==> forall i :: 0 <= i < |feeds| ==> !Scheduled(feeds[i])
    ensures t > 0 ==> forall i :: 0 <= i < |feeds| && Scheduled(feeds[i]) ==> t <= feeds[i].nextUpdateTime
    ensures t > 0 ==> exists i :: 0 <= i < |feeds| && Scheduled(feeds[i]) && feeds[i].nextUpdateTime == t
  {
    EarliestScheduled(feeds).GetOr(0)
  }

  /** Disabled and on-launch feeds never move the next update time. */
  lemma UnscheduledFeedsDoNotCount(feeds: seq<FeedRow>, f: FeedRow)
    requires !Scheduled(f)
    ensures QueryNextUpdateTime(feeds + [f]) == QueryNextUpdateTime(feeds)
  {
    assert (feeds + [f])[..|feeds + [f]| - 1] == feeds;
  }

  /** The feeds `queryOutdatedFeedIds(now)` selects, in table order. */
  function ScheduledBefore(feeds: seq<FeedRow>, now: int): (r: seq<FeedRow>)
    ensures forall f :: f in r <==> f in feeds && 0 < f.nextUpdateTime < now
  {
    if feeds == [] then []
    else
      var last := feeds[|feeds| - 1];
      assert feeds == feeds[..|feeds| - 1] + [last];
      ScheduledBefore(feeds[..|feeds| - 1], now) + (if 0 < last.nextUpdateTime < now then [last] else [])
  }

  /** `queryOutdatedFeedIds(now)`: the ids of the feeds whose scheduled time has passed, empty when none has. */
  method QueryOutdatedFeedIds(feeds: seq<FeedRow>, now: int) returns (ids: seq<int>)
    ensures |ids| == |ScheduledBefore(feeds, now)|
    ensures forall i :: 0 <= i < |ids| ==> ids[i] == ScheduledBefore(feeds, now)[i].id
    ensures forall id :: id in ids <==> exists f :: f in feeds && f.id == id && 0 < f.nextUpdateTime < now
  {
    var cursor := ScheduledBefore(feeds, now);
    ids := [];
    if |cursor| > 0 {
      var k := 0;
      var more := true;
      while more
        invariant 0 <= k <= |cursor|
        invariant more <==> k < |cursor|
        invariant |ids| == k && forall i :: 0 <= i < k ==> ids[i] == cursor[i].id
        decreases |cursor| - k
      {
        ids := ids + [cursor[k].id];
        k := k + 1;
        more := k < |cursor|;
      }
    }
    forall id ensures id in ids <==> exists f :: f in feeds && f.id == id && 0 < f.nextUpdateTime < now {
      if id in ids {
        var i :| 0 <= i < |ids| && ids[i] == id;
        assert cursor[i] in cursor;
      }
      if exists f :: f in feeds && f.id == id && 0 < f.nextUpdateTime < now {
        var f :| f in feeds && f.id == id && 0 < f.nextUpdateTime < now;
        var i :| 0 <= i < |cursor| && cursor[i] == f;
        assert ids[i] == id;
      }
    }
  }

  // ---------------------------------------------------------------------
  // Criteria
  // ---------------------------------------------------------------------

  datatype Criteria = AllCriteria | OutdatedCriteria(now: int) | UpdateModeCriteria(updateMode: UpdateMode)

  /** The criteria there is a query for: the update mode one needs a serial form. */
  predicate Expressible(c: Criteria) {
    c.UpdateModeCriteria? ==> HasSerialForm(c.updateMode)
  }

  /** The WHERE clause of each criteria (`AllCriteria` has none). */
  predicate Matches(c: Criteria, f: FeedRow)
    requires Expressible(c)
  {
    match c
    case AllCriteria => true
    case OutdatedCriteria(now) => (0 < f.nextUpdateTime < now) || f.nextUpdateTime == AutoUpdateScheduler.NEXT_UPDATE_TIME_ON_APP_LAUNCH
    case UpdateModeCriteria(m) => f.updateMode == Serialize(m)
  }

  /** `AllCriteria`'s ORDER BY: the title, only when the title is a requested column. */
  function AllCriteriaOrderBy(columns: seq<string>): (orderBy: Option<string>)
    ensures orderBy.Some? <==> "title" in columns
    ensures orderBy.Some? ==> orderBy.value == "title"
  {
    if "title" in columns then Some("title") else None
  }

  /** The rows a criteria selects, in table order. */
  function Select(feeds: seq<FeedRow>, c: Criteria): (r: seq<FeedRow>)
    requires Expressible(c)
    ensures forall f :: f in r <==> f in feeds && Matches(c, f)
  {
    if feeds == [] then []
    else
      var last := feeds[|feeds| - 1];
      assert feeds == feeds[..|feeds| - 1] + [last];
      Select(feeds[..|feeds| - 1], c) + (if Matches(c, last) then [last] else [])
  }

  /** `query(criteria)`: the selected rows read off the cursor, empty when there are none. */
  method Query(feeds: seq<FeedRow>, c: Criteria) returns (result: seq<FeedRow>)
    requires Expressible(c)
    ensures result == Select(feeds, c)
    ensures forall f :: f in result <==> f in feeds && Matches(c, f)
  {
    var cursor := Select(feeds, c);
    result := [];
    if |cursor| > 0 {
      var k := 0;
      var more := true;
      while more
        invariant 0 <= k <= |cursor|
        invariant more <==> k < |cursor|
        invariant result == cursor[..k]
        decreases |cursor| - k
      {
        result := result + [cursor[k]];
        k := k + 1;
        more := k < |cursor|;
      }
      assert cursor[..k] == cursor;
    }
  }

  /** Every feed `queryOutdatedFeedIds` returns is also selected by `OutdatedCriteria`. */
  lemma OutdatedIdsAreOutdated(feeds: seq<FeedRow>, now: int, f: FeedRow)
    requires f in ScheduledBefore(feeds, now)
    ensures f in Select(feeds, OutdatedCriteria(now))
  {
  }

  /**
   * A feed whose next update time the scheduler set is never outdated when
   * its mode is disabled, and always outdated when it updates on launch.
   */
  lemma OutdatedCriteriaSentinels(f: FeedRow, defaultMode: UpdateMode, history: AutoUpdateScheduler.FeedHistory, now: int)
    ensures !Matches(OutdatedCriteria(now),
                     f.(nextUpdateTime := AutoUpdateScheduler.NextUpdateTime(Disabled, defaultMode, f.lastUpdateTime, history)))
    ensures Matches(OutdatedCriteria(now),
                    f.(nextUpdateTime := AutoUpdateScheduler.NextUpdateTime(OnAppLaunch, defaultMode, f.lastUpdateTime, history)))
  {
  }

  /** A feed selected by `UpdateModeCriteria(m)` stores a value that reads back as `m`. */
  lemma UpdateModeCriteriaReadsBack(feeds: seq<FeedRow>, m: UpdateMode, f: FeedRow)
    requires HasSerialForm(m)
    requires f in Select(feeds, UpdateModeCriteria(m))
    ensures Deserialize(f.updateMode) == Ok(m)
  {
    RoundTrip(m);
  }
}
