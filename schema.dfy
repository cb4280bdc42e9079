/**
 * The rows of the tables this model reads and writes, as created by the
 * database schema (Database.kt): nullable columns are `Option`s, integer
 * columns are `int`.
 */
module Schema {
  import opened Common

  /** A `feed` row (the columns this model uses). */
  datatype FeedRow = FeedRow(
    id: int,
    url: string,
    title: string,
    link: Option<string>,
    language: Option<string>,
    customTitle: Option<string>,
    faviconUrl: Option<string>,
    updateMode: string,
    lastUpdateTime: int,
    nextUpdateTime: int)

  /** An `entry` row. */
  datatype EntryRow = EntryRow(
    id: int,
    feedId: int,
    uid: string,
    title: Option<string>,
    link: Option<string>,
    content: Option<string>,
    author: Option<string>,
    publishTime: Option<int>,
    insertTime: int,
    updateTime: int,
    readTime: int,
    pinnedTime: int)

  /** A `tag` row; `editable` is the stored integer flag. */
  datatype TagRow = TagRow(id: int, name: string, editable: int)

  /** An `entry_tag` row. */
  datatype EntryTagRow = EntryTagRow(entryId: int, tagId: int, tagTime: int)

  /** `COALESCE(custom_title, title)`: the title a feed is shown under. */
  function EffectiveTitle(f: FeedRow): (t: string)
    ensures f.customTitle.Some? ==> t == f.customTitle.value
    ensures f.customTitle.None? ==> t == f.title
  {
    f.customTitle.GetOr(f.title)
  }

  /** The feed a `LEFT JOIN feed f ON f.id = …` finds for `feedId`, if any. */
  function FeedById(feeds: seq<FeedRow>, feedId: int): (r: Option<FeedRow>)
    ensures r.None? <==> forall i :: 0 <= i < |feeds| ==> feeds[i].id != feedId
    ensures r.Some? ==> r.value in feeds && r.value.id == feedId
  {
    if feeds == [] then None
    else if feeds[0].id == feedId then Some(feeds[0])
    else FeedById(feeds[1..], feedId)
  }

  /**
   * The entry a `LEFT JOIN entry e ON e.id = et.entry_id` finds for an
   * `entry_tag` row, if any: the join the tag's unread count is taken over.
   * It is the `FeedById` lookup for the other row type.
   */
  function EntryById(entries: seq<EntryRow>, entryId: int): (r: Option<EntryRow>)
    ensures r.None? <==> forall i :: 0 <= i < |entries| ==> entries[i].id != entryId
    ensures r.Some? ==> r.value in entries && r.value.id == entryId
  {
    if entries == [] then None
    else if entries[0].id == entryId then Some(entries[0])
    else EntryById(entries[1..], entryId)
  }
}
