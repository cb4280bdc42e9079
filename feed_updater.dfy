/**
 * What `FeedUpdater` writes for a parsed feed (FeedUpdater.kt): the feed's
 * metadata, and one upsert per parsed entry keyed by `(feedId, uid)`.
 *
 * The entry table is a map from that key to the stored row, so the unique
 * index on `(feed_id, uid)` holds by construction; the feed table is a map
 * from feed id to row. The clock is the parameter `now`.
 */
module FeedUpdater {
  import opened Common
  import opened Schema

  /** The `(feed_id, uid)` key of the entry table's unique index. */
  datatype EntryKey = EntryKey(feedId: int, uid: string)

  /** What the parser reports for one entry. */
  datatype ParsedEntry = ParsedEntry(
    uid: string,
    title: Option<string>,
    link: Option<string>,
    content: Option<string>,
    author: Option<string>,
    publishDate: Option<int>)

  /** Whether any of title, link, content or author differs from the stored entry; the publish date is not compared. */
  predicate ContentChanged(stored: EntryRow, p: ParsedEntry) {
    stored.title != p.title || stored.link != p.link || stored.content != p.content || stored.author != p.author
  }

  /** The row inserted for an unknown key: `insertTime = updateTime = now`, publish time defaulting to `now`. */
  function NewEntry(id: int, feedId: int, p: ParsedEntry, now: int): EntryRow {
    EntryRow(id, feedId, p.uid, p.title, p.link, p.content, p.author, Some(p.publishDate.GetOr(now)), now, now, 0, 0)
  }

  /** The row after an update: the new values, the parsed publish date (possibly none) and `updateTime = now`. */
  function Refreshed(stored: EntryRow, p: ParsedEntry, now: int): EntryRow {
    stored.(title := p.title, link := p.link, content := p.content, author := p.author,
            publishTime := p.publishDate, updateTime := now)
  }

  datatype Outcome = Inserted | Updated | Unchanged

  /** The entry table after one parsed entry, the next row id, and which write happened. */
  datatype Step = Step(entries: map<EntryKey, EntryRow>, nextId: int, outcome: Outcome)

  /** The upsert rule of `onParsedEntry`. */
  function Ingest(entries: map<EntryKey, EntryRow>, nextId: int, feedId: int, p: ParsedEntry, now: int): (s: Step)
    ensures s.entries.Keys == entries.Keys + {EntryKey(feedId, p.uid)}
    ensures forall k :: k in entries && k != EntryKey(feedId, p.uid) ==> s.entries[k] == entries[k]
    ensures s.outcome == Unchanged ==> s.entries == entries
    ensures s.outcome == Inserted <==> EntryKey(feedId, p.uid) !in entries
  {
    var key := EntryKey(feedId, p.uid);
    if key !in entries then
      Step(entries[key := NewEntry(nextId, feedId, p, now)], nextId + 1, Inserted)
    else if ContentChanged(entries[key], p) then
      Step(entries[key := Refreshed(entries[key], p, now)], nextId, Updated)
    else
      Step(entries, nextId, Unchanged)
  }

  /** An unseen key is inserted, unread and unpinned, with all three times taken from the clock unless a publish date was parsed. */
  lemma UnseenEntryIsInserted(entries: map<EntryKey, EntryRow>, nextId: int, feedId: int, p: ParsedEntry, now: int)
    requires EntryKey(feedId, p.uid) !in entries
    ensures var row := Ingest(entries, nextId, feedId, p, now).entries[EntryKey(feedId, p.uid)];
            && row.insertTime == now && row.updateTime == now
            && row.publishTime == Some(if p.publishDate.Some? then p.publishDate.value else now)
            && row.readTime == 0 && row.pinnedTime == 0
            && row.feedId == feedId && row.uid == p.uid && row.id == nextId
            && row.title == p.title && row.link == p.link && row.content == p.content && row.author == p.author
  {
  }

  /**
   * A known key whose title, link, content and author are all unchanged causes
   * no write, whatever its publish date.
   */
  lemma UnchangedContentIsNotWritten(entries: map<EntryKey, EntryRow>, nextId: int, feedId: int, p: ParsedEntry, now: int)
    requires EntryKey(feedId, p.uid) in entries
    requires !ContentChanged(entries[EntryKey(feedId, p.uid)], p)
    ensures Ingest(entries, nextId, feedId, p, now) == Step(entries, nextId, Unchanged)
  {
  }

  /** A changed entry gets the new values and times but keeps its id, insert time and read and pinned state. */
  lemma ChangedEntryIsUpdated(entries: map<EntryKey, EntryRow>, nextId: int, feedId: int, p: ParsedEntry, now: int)
    requires EntryKey(feedId, p.uid) in entries
    requires ContentChanged(entries[EntryKey(feedId, p.uid)], p)
    ensures var stored := entries[EntryKey(feedId, p.uid)];
            var s := Ingest(entries, nextId, feedId, p, now);
            var row := s.entries[EntryKey(feedId, p.uid)];
            && s.outcome == Updated && s.nextId == nextId
            && row.title == p.title && row.link == p.link && row.content == p.content && row.author == p.author
            && row.publishTime == p.publishDate && row.updateTime == now
            && row.id == stored.id && row.insertTime == stored.insertTime
            && row.readTime == stored.readTime && row.pinnedTime == stored.pinnedTime
            && row.feedId == stored.feedId && row.uid == stored.uid
  {
  }

  /** Ingesting the same parsed entry again performs no write. */
  lemma IngestIsIdempotent(entries: map<EntryKey, EntryRow>, nextId: int, feedId: int, p: ParsedEntry, now: int, later: int)
    ensures var s := Ingest(entries, nextId, feedId, p, now);
            Ingest(s.entries, s.nextId, feedId, p, later) == Step(s.entries, s.nextId, Unchanged)
  {
  }

  /**
   * The entry table after a sequence of parsed entries of one feed; `nows[i]`
   * is the clock reading taken while handling `parsed[i]`.
   */
  function IngestAll(entries: map<EntryKey, EntryRow>, nextId: int, feedId: int, parsed: seq<ParsedEntry>, nows: seq<int>): Step
    requires |nows| == |parsed|
  {
    if parsed == [] then Step(entries, nextId, Unchanged)
    else
      var s := IngestAll(entries, nextId, feedId, parsed[..|parsed| - 1], nows[..|nows| - 1]);
      Ingest(s.entries, s.nextId, feedId, parsed[|parsed| - 1], nows[|nows| - 1])
  }

  /** The stored keys of a feed's entries. */
  function KeysOf(feedId: int, parsed: seq<ParsedEntry>): (keys: set<EntryKey>)
    ensures forall k :: k in keys <==> exists i :: 0 <= i < |parsed| && k == EntryKey(feedId, parsed[i].uid)
  {
    if parsed == [] then {}
    else
      var p := parsed[..|parsed| - 1];
      assert parsed == p + [parsed[|parsed| - 1]];
      KeysOf(feedId, p) + {EntryKey(feedId, parsed[|parsed| - 1].uid)}
  }

  /**
   * After a whole feed, the table holds one row per distinct key — the old
   * ones and one for each parsed uid — and the rows of other feeds are as
   * they were.
   */
  lemma {:induction false} IngestAllKeys(entries: map<EntryKey, EntryRow>, nextId: int, feedId: int, parsed: seq<ParsedEntry>, nows: seq<int>)
    requires |nows| == |parsed|
    ensures IngestAll(entries, nextId, feedId, parsed, nows).entries.Keys == entries.Keys + KeysOf(feedId, parsed)
    ensures forall k :: k in entries && k.feedId != feedId ==> IngestAll(entries, nextId, feedId, parsed, nows).entries[k] == entries[k]
  {
    if parsed != [] {
      IngestAllKeys(entries, nextId, feedId, parsed[..|parsed| - 1], nows[..|nows| - 1]);
    }
  }

  /** `onParsedFeed`: the parsed title, link and language, and `updateTime = now`, over the feed read before fetching. */
  function FeedRefreshed(feed: FeedRow, title: string, link: Option<string>, language: Option<string>, now: int): FeedRow {
    feed.(title := title, link := link, language := language, lastUpdateTime := now)
  }

  /**
   * A refresh overwrites only the parsed metadata and the update time: the
   * URL, the user's custom title, the update mode and the schedule are kept,
   * so a custom title still wins over the new one.
   */
  lemma FeedRefreshKeepsUserSettings(feed: FeedRow, title: string, link: Option<string>, language: Option<string>, now: int)
    ensures var f := FeedRefreshed(feed, title, link, language, now);
            && f.id == feed.id && f.url == feed.url && f.customTitle == feed.customTitle
            && f.updateMode == feed.updateMode && f.nextUpdateTime == feed.nextUpdateTime
            && f.title == title && f.link == link && f.language == language && f.lastUpdateTime == now
            && EffectiveTitle(f) == if feed.customTitle.Some? then feed.customTitle.value else title
  {
  }

  /** The tables `FeedUpdater` writes to. */
  class Store {
    var feeds: map<int, FeedRow>
    var entries: map<EntryKey, EntryRow>
    var nextId: int

    /** Every row sits under its own key, and row ids are distinct and below the next id. */
    ghost predicate Valid()
      reads this
    {
      && (forall k :: k in entries ==> entries[k].feedId == k.feedId && entries[k].uid == k.uid && entries[k].id < nextId)
      && (forall k1, k2 :: k1 in entries && k2 in entries && k1 != k2 ==> entries[k1].id != entries[k2].id)
      && (forall id :: id in feeds ==> feeds[id].id == id)
    }

    constructor (feeds: map<int, FeedRow>)
      requires forall id :: id in feeds ==> feeds[id].id == id
      ensures Valid()
      ensures this.feeds == feeds && entries == map[] && nextId == 1
    {
      this.feeds := feeds;
      entries := map[];
      nextId := 1;
    }

    /** `onParsedEntry`: look the key up, then insert, update or leave the table alone. */
    method OnParsedEntry(feedId: int, p: ParsedEntry, now: int) returns (outcome: Outcome)
      requires Valid()
      modifies this
      ensures Valid()
      ensures Step(entries, nextId, outcome) == Ingest(old(entries), old(nextId), feedId, p, now)
      ensures feeds == old(feeds)
    {
      var key := EntryKey(feedId, p.uid);
      if key !in entries {
        entries := entries[key := NewEntry(nextId, feedId, p, now)];
        nextId := nextId + 1;
        outcome := Inserted;
      } else {
        var stored := entries[key];
        if ContentChanged(stored, p) {
          entries := entries[key := Refreshed(stored, p, now)];
          outcome := Updated;
        } else {
          outcome := Unchanged;
        }
      }
    }

    /** `onParsedFeed`: write the refreshed snapshot back; 1 row when the feed still exists, 0 otherwise. */
    method OnParsedFeed(feed: FeedRow, title: string, link: Option<string>, language: Option<string>, now: int) returns (updated: int)
      requires Valid()
      modifies this
      ensures Valid()
      ensures feed.id in old(feeds) ==> updated == 1 && feeds == old(feeds)[feed.id := FeedRefreshed(feed, title, link, language, now)]
      ensures feed.id !in old(feeds) ==> updated == 0 && feeds == old(feeds)
      ensures entries == old(entries) && nextId == old(nextId)
    {
      if feed.id in feeds {
        feeds := feeds[feed.id := FeedRefreshed(feed, title, link, language, now)];
        updated := 1;
      } else {
        updated := 0;
      }
    }
  }
}
