/**
 * The entry repository (Entries.kt): derived columns, the read and pinned
 * state changes, the update and query criteria, the sort orders and the
 * join selection of its query helper.
 *
 * SQL statements are modelled by what they select or change in a sequence
 * of `entry` rows. The full-text search over `entry_fts` that the My Feed
 * and tag criteria delegate to is a parameter: the set of entry ids it
 * matches.
 */
module Entries {
  import opened Common
  import opened Schema
  import Tags
  import Storage

  // ---------------------------------------------------------------------
  // Derived columns
  // ---------------------------------------------------------------------

  /** `PUBLISH_TIME`: `COALESCE(publish_time, insert_time)`. */
  function PublishTime(e: EntryRow): (t: int)
    ensures e.publishTime.Some? ==> t == e.publishTime.value
    ensures e.publishTime.None? ==> t == e.insertTime
  {
    e.publishTime.GetOr(e.insertTime)
  }

  /** `FEED_TITLE`: the effective title of the entry's feed, NULL when the join finds no feed. */
  function FeedTitle(feeds: seq<FeedRow>, e: EntryRow): (t: Option<string>)
    ensures t.None? <==> forall i :: 0 <= i < |feeds| ==> feeds[i].id != e.feedId
    ensures t.Some? ==> exists f :: f in feeds && f.id == e.feedId && t.value == EffectiveTitle(f)
  {
    match FeedById(feeds, e.feedId)
    case None => None
    case Some(f) => Some(EffectiveTitle(f))
  }

  /** `STAR_TIME`: the `tag_time` of the entry's Starred `entry_tag` row, NULL when it has none. */
  function StarTime(entryTags: seq<EntryTagRow>, e: EntryRow): (t: Option<int>)
    ensures t.None? <==> forall x :: x in entryTags ==> !(x.entryId == e.id && x.tagId == Tags.STARRED)
    ensures t.Some? ==> EntryTagRow(e.id, Tags.STARRED, t.value) in entryTags
  {
    if entryTags == [] then None
    else
      var x := entryTags[0];
      assert entryTags == [x] + entryTags[1..];
      if x.entryId == e.id && x.tagId == Tags.STARRED then Some(x.tagTime)
      else StarTime(entryTags[1..], e)
  }

  datatype EntryType = READ | UNREAD

  /** `TYPE`: READ when read and not pinned, UNREAD otherwise. */
  function Type(e: EntryRow): EntryType {
    if e.readTime > 0 && e.pinnedTime == 0 then READ else UNREAD
  }

  // ---------------------------------------------------------------------
  // Updates
  // ---------------------------------------------------------------------

  /** The update criteria, including the ones bulk mark-read builds. */
  datatype UpdateCriteria =
    | UpdateFeedEntry(feedId: int, uid: string)
    | UpdateEntry(id: int)
    | UpdateUnreadEntry(id: int)
    | UpdateFeedUnread(feedId: int)
    | UpdateMyFeedUnread
    | UpdateTagUnread(tagId: int)

  /** Neither read nor pinned: `pinned_time = 0 AND read_time = 0`. */
  predicate Fresh(e: EntryRow) {
    e.readTime == 0 && e.pinnedTime == 0
  }

  /** Whether an update criteria selects a row; `matched` is what the full-text search returns. */
  predicate UpdateMatches(c: UpdateCriteria, e: EntryRow, matched: set<int>) {
    match c
    case UpdateFeedEntry(feedId, uid) => e.feedId == feedId && e.uid == uid
    case UpdateEntry(id) => e.id == id
    case UpdateUnreadEntry(id) => e.id == id && Fresh(e)
    case UpdateFeedUnread(feedId) => e.feedId == feedId && Fresh(e)
    case UpdateMyFeedUnread => e.id in matched && Fresh(e)
    case UpdateTagUnread(_) => e.id in matched && Fresh(e)
  }

  /** The values an update assigns; an absent one is left as stored. */
  datatype Assignment = Assignment(readTime: Option<int>, pinnedTime: Option<int>)

  function Assign(e: EntryRow, a: Assignment): EntryRow {
    e.(readTime := a.readTime.GetOr(e.readTime), pinnedTime := a.pinnedTime.GetOr(e.pinnedTime))
  }

  /** The rows after an update, and the affected-row count. */
  datatype Updated = Updated(rows: seq<EntryRow>, affected: nat)

  /** The number of rows an update criteria selects. */
  function MatchCount(rows: seq<EntryRow>, c: UpdateCriteria, matched: set<int>): nat {
    if rows == [] then 0
    else MatchCount(rows[..|rows| - 1], c, matched) + (if UpdateMatches(c, rows[|rows| - 1], matched) then 1 else 0)
  }

  /** `update(criteria, values)`: every selected row gets the assignment, every other row is kept. */
  function UpdateRows(rows: seq<EntryRow>, c: UpdateCriteria, a: Assignment, matched: set<int>): (r: Updated)
    ensures |r.rows| == |rows|
    ensures forall i :: 0 <= i < |rows| ==>
              r.rows[i] == if UpdateMatches(c, rows[i], matched) then Assign(rows[i], a) else rows[i]
    ensures r.affected == MatchCount(rows, c, matched)
  {
    if rows == [] then Updated([], 0)
    else
      var last := rows[|rows| - 1];
      var u := UpdateRows(rows[..|rows| - 1], c, a, matched);
      if UpdateMatches(c, last, matched) then Updated(u.rows + [Assign(last, a)], u.affected + 1)
      else Updated(u.rows + [last], u.affected)
  }

  /** `markRead(entryId)`: `read_time = now`, `pinned_time = 0`. */
  function MarkRead(rows: seq<EntryRow>, entryId: int, now: int): Updated {
    UpdateRows(rows, UpdateEntry(entryId), Assignment(Some(now), Some(0)), {})
  }

  /** `markPinned(entryId)`: `read_time = 0`, `pinned_time = now`. */
  function MarkPinned(rows: seq<EntryRow>, entryId: int, now: int): Updated {
    UpdateRows(rows, UpdateEntry(entryId), Assignment(Some(0), Some(now)), {})
  }

  /** Marking an entry read sets its read time and clears its pin; nothing else changes. */
  lemma MarkReadEffect(rows: seq<EntryRow>, entryId: int, now: int)
    ensures |MarkRead(rows, entryId, now).rows| == |rows|
    ensures forall i :: 0 <= i < |rows| ==>
              MarkRead(rows, entryId, now).rows[i]
                == if rows[i].id == entryId then rows[i].(readTime := now, pinnedTime := 0) else rows[i]
  {
  }

  /** Pinning an entry clears its read time and sets its pin; nothing else changes. */
  lemma MarkPinnedEffect(rows: seq<EntryRow>, entryId: int, now: int)
    ensures |MarkPinned(rows, entryId, now).rows| == |rows|
    ensures forall i :: 0 <= i < |rows| ==>
              MarkPinned(rows, entryId, now).rows[i]
                == if rows[i].id == entryId then rows[i].(readTime := 0, pinnedTime := now) else rows[i]
  {
  }

  /** With a positive clock, a read entry is of type READ and a pinned one of type UNREAD. */
  lemma TypeOfMarkedEntries(rows: seq<EntryRow>, entryId: int, now: int, i: int)
    requires now > 0 && 0 <= i < |rows| && rows[i].id == entryId
    ensures Type(MarkRead(rows, entryId, now).rows[i]) == READ
    ensures Type(MarkPinned(rows, entryId, now).rows[i]) == UNREAD
  {
  }

  // ---------------------------------------------------------------------
  // Query criteria
  // ---------------------------------------------------------------------

  datatype SortOrder = ByDateAscending | ByDateDescending | ByTitle

  function SerializeSortOrder(o: SortOrder): string {
    match o
    case ByDateAscending => "date-asc"
    case ByDateDescending => "date-desc"
    case ByTitle => "title-asc"
  }

  /** `SortOrder.deserialize`: an unknown value falls back to the ascending date order. */
  function DeserializeSortOrder(value: string): (o: SortOrder)
    ensures value !in {"date-asc", "date-desc", "title-asc"} ==> o == ByDateAscending
  {
    if value == "date-asc" then ByDateAscending
    else if value == "date-desc" then ByDateDescending
    else if value == "title-asc" then ByTitle
    else ByDateAscending
  }

  lemma SortOrderRoundTrip(o: SortOrder)
    ensures DeserializeSortOrder(SerializeSortOrder(o)) == o
  {
  }

  /** The three list criteria (`EntriesQueryCriteria`). */
  datatype EntriesQueryCriteria =
    | FeedEntries(feedId: int, sessionTime: int, sortOrder: SortOrder)
    | MyFeedEntries(sessionTime: int, sortOrder: SortOrder)
    | TagEntries(tagId: int, sessionTime: int, sortOrder: SortOrder)

  /** The query criteria: one row by id, or one of the lists. */
  datatype QueryCriteria = QueryRow(id: int) | Listing(criteria: EntriesQueryCriteria)

  /** Kept in a session started at `sessionTime`: unread, or read after the session started. */
  predicate InSession(e: EntryRow, sessionTime: int) {
    e.readTime == 0 || e.readTime > sessionTime
  }

  /**
   * The WHERE clause of each criteria; a session time of 0 means no session
   * filter. The My Feed criteria with no session has no WHERE clause at all.
   */
  predicate Selects(c: QueryCriteria, e: EntryRow, matched: set<int>) {
    match c
    case QueryRow(id) => e.id == id
    case Listing(FeedEntries(feedId, sessionTime, _)) =>
      e.feedId == feedId && (sessionTime != 0 ==> InSession(e, sessionTime))
    case Listing(MyFeedEntries(sessionTime, _)) =>
      sessionTime != 0 ==> e.id in matched && InSession(e, sessionTime)
    case Listing(TagEntries(_, sessionTime, _)) =>
      e.id in matched && (sessionTime != 0 ==> InSession(e, sessionTime))
  }

  /** The rows a criteria selects, in table order. */
  function Select(rows: seq<EntryRow>, c: QueryCriteria, matched: set<int>): (r: seq<EntryRow>)
    ensures forall e :: e in r <==> e in rows && Selects(c, e, matched)
  {
    if rows == [] then []
    else
      var last := rows[|rows| - 1];
      assert rows == rows[..|rows| - 1] + [last];
      Select(rows[..|rows| - 1], c, matched) + (if Selects(c, last, matched) then [last] else [])
  }

  /** Without a session a feed list shows all of the feed's entries; with one, those unread or read since. */
  lemma FeedEntriesSelection(rows: seq<EntryRow>, feedId: int, sessionTime: int, o: SortOrder, e: EntryRow)
    ensures sessionTime == 0 ==> (e in Select(rows, Listing(FeedEntries(feedId, sessionTime, o)), {}) <==> e in rows && e.feedId == feedId)
    ensures sessionTime != 0 ==>
              ((e in Select(rows, Listing(FeedEntries(feedId, sessionTime, o)), {})) <==>
               e in rows && e.feedId == feedId && (e.readTime == 0 || e.readTime > sessionTime))
  {
  }

  /** Reading an entry during a session never removes it from the list the session shows. */
  lemma {:induction false} ReadingKeepsSessionView(rows: seq<EntryRow>, c: EntriesQueryCriteria, matched: set<int>, entryId: int, now: int)
    requires c.sessionTime != 0 && now > c.sessionTime
    ensures forall i :: 0 <= i < |rows| && Selects(Listing(c), rows[i], matched) ==>
              Selects(Listing(c), MarkRead(rows, entryId, now).rows[i], matched)
    ensures |Select(MarkRead(rows, entryId, now).rows, Listing(c), matched)| >= |Select(rows, Listing(c), matched)|
  {
    if rows != [] {
      var p := rows[..|rows| - 1];
      ReadingKeepsSessionView(p, c, matched, entryId, now);
      assert MarkRead(rows, entryId, now).rows[..|rows| - 1] == MarkRead(p, entryId, now).rows;
    }
  }

  /** `copy(sessionTime, sortOrder)`: a supplied value replaces the field, an absent one keeps it. */
  function Copy(c: EntriesQueryCriteria, sessionTime: Option<int>, sortOrder: Option<SortOrder>): (r: EntriesQueryCriteria)
    ensures r.sessionTime == sessionTime.GetOr(c.sessionTime)
    ensures r.sortOrder == sortOrder.GetOr(c.sortOrder)
    ensures r.FeedEntries? == c.FeedEntries? && r.MyFeedEntries? == c.MyFeedEntries? && r.TagEntries? == c.TagEntries?
    ensures c.FeedEntries? ==> r.feedId == c.feedId
    ensures c.TagEntries? ==> r.tagId == c.tagId
  {
    var s := sessionTime.GetOr(c.sessionTime);
    var o := sortOrder.GetOr(c.sortOrder);
    match c
    case FeedEntries(feedId, _, _) => FeedEntries(feedId, s, o)
    case MyFeedEntries(_, _) => MyFeedEntries(s, o)
    case TagEntries(tagId, _, _) => TagEntries(tagId, s, o)
  }

  lemma CopyWithNothingIsIdentity(c: EntriesQueryCriteria)
    ensures Copy(c, None, None) == c
  {
  }

  /** The tables a criteria adds to those its query observes. */
  function ExtraObservedTables(c: QueryCriteria): (tables: seq<string>)
    ensures c.Listing? && c.criteria.MyFeedEntries? ==> tables == ["my_feed_tag"]
    ensures c.Listing? && c.criteria.TagEntries? ==> tables == ["entry", "entry_tag", "feed_tag"]
    ensures c.QueryRow? || c.criteria.FeedEntries? ==> tables == []
  {
    match c
    case Listing(MyFeedEntries(_, _)) => ["my_feed_tag"]
    case Listing(TagEntries(_, _, _)) => ["entry", "entry_tag", "feed_tag"]
    case _ => []
  }

  /**
   * A listing registered as a live query over its base tables and the tables
   * its criteria add is notified when, outside a transaction, one of those
   * added tables is invalidated: tag listings by `entry_tag` writes, My Feed
   * listings by `my_feed_tag` writes.
   */
  lemma ListingHearsExtraTables(s: Storage.DbState, base: seq<string>, c: EntriesQueryCriteria)
    requires !Storage.InTransaction(s)
    ensures var r := Storage.Register(s, base + ExtraObservedTables(Listing(c)));
            && (c.TagEntries? ==> Storage.Notification(s.listeners, "entry_tag") in Storage.Invalidate(r, "entry_tag").log)
            && (c.MyFeedEntries? ==> Storage.Notification(s.listeners, "my_feed_tag") in Storage.Invalidate(r, "my_feed_tag").log)
  {
    var tables := base + ExtraObservedTables(Listing(c));
    if c.TagEntries? {
      assert tables[|base| + 1] == "entry_tag";
      Storage.LiveQueryIsNotified(s, tables, "entry_tag");
    } else if c.MyFeedEntries? {
      assert tables[|base|] == "my_feed_tag";
      Storage.LiveQueryIsNotified(s, tables, "my_feed_tag");
    }
  }

  // ---------------------------------------------------------------------
  // Bulk mark-read
  // ---------------------------------------------------------------------

  /** The update criteria bulk mark-read uses for a list criteria. */
  function MarkReadCriteria(c: EntriesQueryCriteria): UpdateCriteria {
    match c
    case FeedEntries(feedId, _, _) => UpdateFeedUnread(feedId)
    case MyFeedEntries(_, _) => UpdateMyFeedUnread
    case TagEntries(tagId, _, _) => UpdateTagUnread(tagId)
  }

  /** `markRead(criteria)`: `read_time = now` on the listed entries that are neither read nor pinned. */
  function MarkAllRead(rows: seq<EntryRow>, c: EntriesQueryCriteria, now: int, matched: set<int>): Updated {
    UpdateRows(rows, MarkReadCriteria(c), Assignment(Some(now), None), matched)
  }

  /** Bulk mark-read of a feed changes only that feed's fresh entries, and only their read time. */
  lemma MarkAllReadOfFeed(rows: seq<EntryRow>, feedId: int, sessionTime: int, o: SortOrder, now: int, matched: set<int>)
    ensures var r := MarkAllRead(rows, FeedEntries(feedId, sessionTime, o), now, matched).rows;
            |r| == |rows| &&
            forall i :: 0 <= i < |rows| ==>
              r[i] == if rows[i].feedId == feedId && Fresh(rows[i]) then rows[i].(readTime := now) else rows[i]
  {
  }

  /** With a nonzero clock, bulk mark-read leaves no fresh entry behind among those it targets. */
  lemma MarkAllReadLeavesNoneFresh(rows: seq<EntryRow>, c: EntriesQueryCriteria, now: int, matched: set<int>)
    requires now != 0
    ensures MatchCount(MarkAllRead(rows, c, now, matched).rows, MarkReadCriteria(c), matched) == 0
  {
    var r := MarkAllRead(rows, c, now, matched).rows;
    MarkedRowsNoLongerMatch(rows, c, now, matched);
    NoneMatch(r, MarkReadCriteria(c), matched);
  }

  /** After bulk mark-read with a nonzero clock, no single row matches the criteria any more. */
  lemma MarkedRowsNoLongerMatch(rows: seq<EntryRow>, c: EntriesQueryCriteria, now: int, matched: set<int>)
    requires now != 0
    ensures var r := MarkAllRead(rows, c, now, matched).rows;
            forall i :: 0 <= i < |r| ==> !UpdateMatches(MarkReadCriteria(c), r[i], matched)
  {
  }

  lemma {:induction false} NoneMatch(rows: seq<EntryRow>, c: UpdateCriteria, matched: set<int>)
    requires forall i :: 0 <= i < |rows| ==> !UpdateMatches(c, rows[i], matched)
    ensures MatchCount(rows, c, matched) == 0
  {
    if rows != [] {
      NoneMatch(rows[..|rows| - 1], c, matched);
    }
  }

  /** Bulk mark-read is idempotent: repeating it affects no row and changes nothing. */
  lemma MarkAllReadTwice(rows: seq<EntryRow>, c: EntriesQueryCriteria, now: int, later: int, matched: set<int>)
    requires now != 0
    ensures var once := MarkAllRead(rows, c, now, matched).rows;
            MarkAllRead(once, c, later, matched) == Updated(once, 0)
  {
    var once := MarkAllRead(rows, c, now, matched).rows;
    MarkAllReadLeavesNoneFresh(rows, c, now, matched);
    MarkedRowsNoLongerMatch(rows, c, now, matched);
    var twice := MarkAllRead(once, c, later, matched);
    assert forall i :: 0 <= i < |once| ==> twice.rows[i] == once[i];
    assert twice.rows == once;
  }

  // ---------------------------------------------------------------------
  // Counts
  // ---------------------------------------------------------------------

  /** `queryPublishedCount(feedId, since)`: the feed's entries whose publish time is after `since`. */
  function PublishedCount(rows: seq<EntryRow>, feedId: int, since: int): nat {
    if rows == [] then 0
    else
      var last := rows[|rows| - 1];
      PublishedCount(rows[..|rows| - 1], feedId, since) + (if last.feedId == feedId && PublishTime(last) > since then 1 else 0)
  }

  /** Counting from an earlier instant counts at least as many entries, and never more than the feed has. */
  lemma {:induction false} PublishedCountMonotone(rows: seq<EntryRow>, feedId: int, earlier: int, later: int)
    requires earlier <= later
    ensures PublishedCount(rows, feedId, later) <= PublishedCount(rows, feedId, earlier)
    ensures PublishedCount(rows, feedId, earlier) <= |rows|
  {
    if rows != [] {
      PublishedCountMonotone(rows[..|rows| - 1], feedId, earlier, later);
    }
  }

  // ---------------------------------------------------------------------
  // QueryHelper.tables
  // ---------------------------------------------------------------------

  datatype Column =
    | ID | UID | FEED_ID | FEED_TITLE | FEED_LANGUAGE | FEED_FAVICON_URL | TITLE | LINK
    | CONTENT | AUTHOR | PUBLISH_TIME | INSERT_TIME | UPDATE_TIME | READ_TIME | PINNED_TIME
    | STAR_TIME | TYPE

  /** The columns stored in `entry` itself. */
  predicate IsTableColumn(c: Column) {
    !(c.FEED_TITLE? || c.FEED_LANGUAGE? || c.FEED_FAVICON_URL? || c.STAR_TIME? || c.TYPE?)
  }

  predicate NeedsFeed(c: Column) {
    c.FEED_TITLE? || c.FEED_LANGUAGE? || c.FEED_FAVICON_URL?
  }

  const JOIN_FEED := " LEFT JOIN feed f ON f.id = e.feed_id"

  /** The FROM clause: `entry e`, joined to its feed once exactly when a feed column is requested. */
  method Tables(columns: seq<Column>) returns (tables: string)
    ensures tables == "entry e" + (if exists i :: 0 <= i < |columns| && NeedsFeed(columns[i]) then JOIN_FEED else "")
  {
    tables := "entry e";
    var feed := false;
    var k := 0;
    while k < |columns|
      invariant 0 <= k <= |columns|
      invariant feed <==> exists i :: 0 <= i < k && NeedsFeed(columns[i])
    {
      var column := columns[k];
      if !IsTableColumn(column) {
        match column
        case FEED_TITLE => feed := true;
        case FEED_LANGUAGE => feed := true;
        case FEED_FAVICON_URL => feed := true;
        case _ =>
      }
      k := k + 1;
      if feed {
        break;
      }
    }
    if feed {
      tables := tables + JOIN_FEED;
    }
  }
}
