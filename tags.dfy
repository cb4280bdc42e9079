/**
 * The tag repository (Tags.kt): the reserved tag ids, the delete and query
 * criteria, the two aggregate columns and the join selection.
 */
module Tags {
  import opened Common
  import opened Schema

  const STARRED: int := 0
  const HIDDEN: int := -1

  /** The two tags the schema creates, neither of them editable (Database.kt). */
  function BuiltInTags(): (tags: seq<TagRow>)
    ensures forall i :: 0 <= i < |tags| ==> tags[i].editable == 0
    ensures exists i :: 0 <= i < |tags| && tags[i].id == STARRED
    ensures exists i :: 0 <= i < |tags| && tags[i].id == HIDDEN
  {
    var tags := [TagRow(STARRED, "Starred", 0), TagRow(HIDDEN, "Hidden", 0)];
    assert tags[0].id == STARRED && tags[1].id == HIDDEN;
    tags
  }

  // ---------------------------------------------------------------------
  // Criteria
  // ---------------------------------------------------------------------

  /** `UpdateTagCriteria(tagId)`: `id = ?`. */
  predicate UpdateTagMatches(tagId: int, t: TagRow) {
    t.id == tagId
  }

  /** `DeleteTagCriteria(tagId)`: `id = ? AND editable = 1`. */
  predicate DeleteTagMatches(tagId: int, t: TagRow) {
    t.id == tagId && t.editable == 1
  }

  /** The outcome of a `delete`: the remaining rows and the affected-row count. */
  datatype Deletion = Deletion(rows: seq<TagRow>, affected: nat)

  /** Deleting with `DeleteTagCriteria(tagId)`. */
  function DeleteTag(rows: seq<TagRow>, tagId: int): (r: Deletion)
    ensures |r.rows| + r.affected == |rows|
    ensures forall t :: t in r.rows <==> t in rows && !DeleteTagMatches(tagId, t)
    ensures forall t :: multiset(r.rows)[t] == if DeleteTagMatches(tagId, t) then 0 else multiset(rows)[t]
  {
    if rows == [] then Deletion([], 0)
    else
      var init, last := rows[..|rows| - 1], rows[|rows| - 1];
      assert rows == init + [last];
      assert multiset(rows) == multiset(init) + multiset{last};
      var d := DeleteTag(init, tagId);
      if DeleteTagMatches(tagId, last) then Deletion(d.rows, d.affected + 1)
      else
        assert multiset(d.rows + [last]) == multiset(d.rows) + multiset{last};
        Deletion(d.rows + [last], d.affected)
  }

  /** A tag that is not editable survives every delete, and so does every tag with another id. */
  lemma DeleteKeepsProtectedTags(rows: seq<TagRow>, tagId: int, t: TagRow)
    requires t in rows
    requires t.editable != 1 || t.id != tagId
    ensures t in DeleteTag(rows, tagId).rows
  {
  }

  /** Deleting a tag only takes effect on editable rows with that id. */
  lemma {:induction false} DeleteAffectsOnlyEditable(rows: seq<TagRow>, tagId: int)
    requires forall i :: 0 <= i < |rows| ==> rows[i].id == tagId ==> rows[i].editable != 1
    ensures DeleteTag(rows, tagId) == Deletion(rows, 0)
  {
    if rows != [] {
      var init, last := rows[..|rows| - 1], rows[|rows| - 1];
      assert rows == init + [last];
      DeleteAffectsOnlyEditable(init, tagId);
      DeleteTagSnoc(init, last, tagId);
    }
  }

  /** One more row at the end: it is removed and counted when it matches, and kept otherwise. */
  lemma DeleteTagSnoc(init: seq<TagRow>, last: TagRow, tagId: int)
    ensures DeleteTag(init + [last], tagId)
              == if DeleteTagMatches(tagId, last) then Deletion(DeleteTag(init, tagId).rows, DeleteTag(init, tagId).affected + 1)
                 else Deletion(DeleteTag(init, tagId).rows + [last], DeleteTag(init, tagId).affected)
  {
    assert (init + [last])[..|init|] == init;
  }

  /** The built-in Starred and Hidden tags cannot be deleted: the delete affects 0 rows. */
  lemma BuiltInTagsCannotBeDeleted(tagId: int)
    ensures DeleteTag(BuiltInTags(), tagId) == Deletion(BuiltInTags(), 0)
  {
    DeleteAffectsOnlyEditable(BuiltInTags(), tagId);
  }

  /** `QueryTagCriteria(tagId)`: the rows with that id. */
  function QueryTag(rows: seq<TagRow>, tagId: int): (r: seq<TagRow>)
    ensures forall t :: t in r <==> t in rows && t.id == tagId
  {
    if rows == [] then []
    else
      var last := rows[|rows| - 1];
      assert rows == rows[..|rows| - 1] + [last];
      QueryTag(rows[..|rows| - 1], tagId) + (if last.id == tagId then [last] else [])
  }

  /** The columns a tag update may assign: the name and the editable flag, where given. */
  datatype TagAssignment = TagAssignment(name: Option<string>, editable: Option<int>)

  function AssignTag(t: TagRow, a: TagAssignment): TagRow {
    t.(name := a.name.GetOr(t.name), editable := a.editable.GetOr(t.editable))
  }

  /** The outcome of an `update`: the rows afterwards and the affected-row count. */
  datatype TagUpdate = TagUpdate(rows: seq<TagRow>, affected: nat)

  /** Updating with `UpdateTagCriteria(tagId)`; it affects as many rows as `QueryTagCriteria(tagId)` lists. */
  function UpdateTag(rows: seq<TagRow>, tagId: int, a: TagAssignment): (r: TagUpdate)
    ensures |r.rows| == |rows|
    ensures forall i :: 0 <= i < |rows| ==>
              r.rows[i] == if UpdateTagMatches(tagId, rows[i]) then AssignTag(rows[i], a) else rows[i]
    ensures r.affected == |QueryTag(rows, tagId)|
  {
    if rows == [] then TagUpdate([], 0)
    else
      var last := rows[|rows| - 1];
      var u := UpdateTag(rows[..|rows| - 1], tagId, a);
      if UpdateTagMatches(tagId, last) then TagUpdate(u.rows + [AssignTag(last, a)], u.affected + 1)
      else TagUpdate(u.rows + [last], u.affected)
  }

  /** `id` is the primary key of `tag`. */
  predicate UniqueTagIds(rows: seq<TagRow>) {
    forall i, j :: 0 <= i < j < |rows| ==> rows[i].id != rows[j].id
  }

  /** With unique ids an update by tag id affects one row when that tag exists and none otherwise. */
  lemma {:induction false} UpdateTagAffectsAtMostOne(rows: seq<TagRow>, tagId: int, a: TagAssignment)
    requires UniqueTagIds(rows)
    ensures UpdateTag(rows, tagId, a).affected <= 1
    ensures UpdateTag(rows, tagId, a).affected == 1 <==> exists i :: 0 <= i < |rows| && rows[i].id == tagId
  {
    if rows != [] {
      var init, last := rows[..|rows| - 1], rows[|rows| - 1];
      assert rows == init + [last];
      assert UniqueTagIds(init);
      UpdateTagAffectsAtMostOne(init, tagId, a);
      assert UpdateTag(rows, tagId, a).affected
          == UpdateTag(init, tagId, a).affected + (if last.id == tagId then 1 else 0);
      if last.id == tagId {
        assert forall i :: 0 <= i < |init| ==> init[i].id != tagId;
      } else {
        assert (exists i :: 0 <= i < |rows| && rows[i].id == tagId) ==> (exists i :: 0 <= i < |init| && init[i].id == tagId);
      }
    }
  }

  // ---------------------------------------------------------------------
  // Visible tags: everything but Hidden, Starred first, then by name
  // ---------------------------------------------------------------------

  /**
   * Lexicographic order on names, comparing Unicode code points. On UTF-8
   * text this is the byte order of SQLite's default BINARY collation, which
   * the `t.name` sort key uses.
   */
  predicate NameLe(a: string, b: string) {
    if a == [] then true
    else if b == [] then false
    else if a[0] != b[0] then a[0] < b[0]
    else NameLe(a[1..], b[1..])
  }

  lemma {:induction false} NameLeTotal(a: string, b: string)
    ensures NameLe(a, b) || NameLe(b, a)
  {
    if a != [] && b != [] && a[0] == b[0] {
      NameLeTotal(a[1..], b[1..]);
    }
  }

  lemma {:induction false} NameLeTransitive(a: string, b: string, c: string)
    requires NameLe(a, b) && NameLe(b, c)
    ensures NameLe(a, c)
  {
    if a != [] && b != [] && c != [] && a[0] == b[0] && b[0] == c[0] {
      NameLeTransitive(a[1..], b[1..], c[1..]);
    }
  }

  /** `CASE t.id WHEN 0 THEN 0 ELSE 1 END`. */
  function Rank(t: TagRow): int {
    if t.id == STARRED then 0 else 1
  }

  /** The `ORDER BY (CASE t.id WHEN 0 THEN 0 ELSE 1 END), t.name` order. */
  predicate ListedBefore(x: TagRow, y: TagRow) {
    Rank(x) < Rank(y) || (Rank(x) == Rank(y) && NameLe(x.name, y.name))
  }

  lemma ListedBeforeTotal(x: TagRow, y: TagRow)
    ensures ListedBefore(x, y) || ListedBefore(y, x)
  {
    NameLeTotal(x.name, y.name);
  }

  lemma ListedBeforeTransitive(x: TagRow, y: TagRow, z: TagRow)
    requires ListedBefore(x, y) && ListedBefore(y, z)
    ensures ListedBefore(x, z)
  {
    if Rank(x) == Rank(y) == Rank(z) {
      NameLeTransitive(x.name, y.name, z.name);
    }
  }

  ghost predicate Listed(s: seq<TagRow>) {
    forall i, j :: 0 <= i < j < |s| ==> ListedBefore(s[i], s[j])
  }

  /** Place `x` in an already ordered list. */
  function InsertListed(x: TagRow, s: seq<TagRow>): seq<TagRow> {
    if s == [] then [x]
    else if ListedBefore(x, s[0]) then [x] + s
    else [s[0]] + InsertListed(x, s[1..])
  }

  /** Tags in `ORDER BY` order. */
  function SortTags(s: seq<TagRow>): seq<TagRow> {
    if s == [] then [] else InsertListed(s[0], SortTags(s[1..]))
  }

  lemma {:induction false} InsertListedPermutes(x: TagRow, s: seq<TagRow>)
    ensures multiset(InsertListed(x, s)) == multiset(s) + multiset{x}
  {
    if s != [] && !ListedBefore(x, s[0]) {
      InsertListedPermutes(x, s[1..]);
      assert s == [s[0]] + s[1..];
    }
  }

  lemma {:induction false} InsertListedKeepsOrder(x: TagRow, s: seq<TagRow>)
    requires Listed(s)
    ensures Listed(InsertListed(x, s))
  {
    if s == [] {
    } else if ListedBefore(x, s[0]) {
      forall j | 0 < j < |s| ensures ListedBefore(x, s[j]) {
        ListedBeforeTransitive(x, s[0], s[j]);
      }
    } else {
      var rest := InsertListed(x, s[1..]);
      InsertListedKeepsOrder(x, s[1..]);
      InsertListedPermutes(x, s[1..]);
      ListedBeforeTotal(x, s[0]);
      forall j | 0 <= j < |rest| ensures ListedBefore(s[0], rest[j]) {
        assert rest[j] in multiset(rest);
        assert rest[j] in multiset(s[1..]) || rest[j] == x;
        if rest[j] != x {
          var k :| 0 <= k < |s[1..]| && s[1..][k] == rest[j];
          assert s[k + 1] == rest[j];
        }
      }
    }
  }

  lemma {:induction false} SortTagsCorrect(s: seq<TagRow>)
    ensures Listed(SortTags(s))
    ensures multiset(SortTags(s)) == multiset(s)
  {
    if s != [] {
      SortTagsCorrect(s[1..]);
      InsertListedKeepsOrder(s[0], SortTags(s[1..]));
      InsertListedPermutes(s[0], SortTags(s[1..]));
      assert s == [s[0]] + s[1..];
    }
  }

  /** The rows `t.id != HIDDEN` selects, in table order. */
  function NotHidden(rows: seq<TagRow>): (r: seq<TagRow>)
    ensures forall t :: t in r <==> t in rows && t.id != HIDDEN
    ensures multiset(r) <= multiset(rows)
  {
    if rows == [] then []
    else
      var last := rows[|rows| - 1];
      assert rows == rows[..|rows| - 1] + [last];
      NotHidden(rows[..|rows| - 1]) + (if last.id != HIDDEN then [last] else [])
  }

  /** `QueryVisibleTagsCriteria`. */
  function VisibleTags(rows: seq<TagRow>): seq<TagRow> {
    SortTags(NotHidden(rows))
  }

  /**
   * The visible tags are exactly the tags other than Hidden, each as often as
   * stored, ordered Starred first and then by name.
   */
  lemma VisibleTagsCorrect(rows: seq<TagRow>)
    ensures multiset(VisibleTags(rows)) == multiset(NotHidden(rows))
    ensures forall t :: t in VisibleTags(rows) <==> t in rows && t.id != HIDDEN
    ensures Listed(VisibleTags(rows))
  {
    SortTagsCorrect(NotHidden(rows));
    forall t ensures t in VisibleTags(rows) <==> t in NotHidden(rows) {
      assert t in VisibleTags(rows) <==> t in multiset(VisibleTags(rows));
    }
  }

  /** Starred comes before every other visible tag. */
  lemma StarredListedFirst(rows: seq<TagRow>, i: int, j: int)
    requires 0 <= i < |VisibleTags(rows)| && 0 <= j < |VisibleTags(rows)|
    requires VisibleTags(rows)[i].id == STARRED && VisibleTags(rows)[j].id != STARRED
    ensures i < j
  {
    SortTagsCorrect(NotHidden(rows));
    StarredFirstInListed(VisibleTags(rows), i, j);
  }

  /** In any list in listing order, Starred precedes every other tag. */
  lemma StarredFirstInListed(v: seq<TagRow>, i: int, j: int)
    requires Listed(v) && 0 <= i < |v| && 0 <= j < |v|
    requires v[i].id == STARRED && v[j].id != STARRED
    ensures i < j
  {
    assert !ListedBefore(v[j], v[i]);
  }

  // ---------------------------------------------------------------------
  // Aggregate columns, per tag over the LEFT JOINed rows
  // ---------------------------------------------------------------------

  /** The `entry_tag` rows joined to a tag. */
  function RowsOfTag(entryTags: seq<EntryTagRow>, tagId: int): (r: seq<EntryTagRow>)
    ensures forall x :: x in r <==> x in entryTags && x.tagId == tagId
  {
    if entryTags == [] then []
    else
      var last := entryTags[|entryTags| - 1];
      assert entryTags == entryTags[..|entryTags| - 1] + [last];
      RowsOfTag(entryTags[..|entryTags| - 1], tagId) + (if last.tagId == tagId then [last] else [])
  }

  /** `ENTRY_COUNT`: `SUM(CASE WHEN tag_time THEN 1 ELSE 0 END)` over the tag's `entry_tag` rows. */
  function EntryCount(entryTags: seq<EntryTagRow>, tagId: int): nat {
    if entryTags == [] then 0
    else
      var last := entryTags[|entryTags| - 1];
      EntryCount(entryTags[..|entryTags| - 1], tagId) + (if last.tagId == tagId && last.tagTime != 0 then 1 else 0)
  }

  /** The entries carrying the tag with a nonzero tag time. */
  function TaggedEntries(entryTags: seq<EntryTagRow>, tagId: int): (ids: set<int>)
    ensures forall id :: id in ids <==> exists x :: x in entryTags && x.tagId == tagId && x.tagTime != 0 && x.entryId == id
  {
    if entryTags == [] then {}
    else
      var last := entryTags[|entryTags| - 1];
      assert entryTags == entryTags[..|entryTags| - 1] + [last];
      TaggedEntries(entryTags[..|entryTags| - 1], tagId) + (if last.tagId == tagId && last.tagTime != 0 then {last.entryId} else {})
  }

  /** The `UNIQUE (entry_id, tag_id)` constraint of `entry_tag`. */
  ghost predicate UniqueEntryTags(entryTags: seq<EntryTagRow>) {
    forall i, j :: 0 <= i < j < |entryTags| ==>
      (entryTags[i].entryId, entryTags[i].tagId) != (entryTags[j].entryId, entryTags[j].tagId)
  }

  /** Under the uniqueness constraint, `ENTRY_COUNT` is the number of distinct entries carrying the tag. */
  lemma {:induction false} EntryCountIsTaggedEntries(entryTags: seq<EntryTagRow>, tagId: int)
    requires UniqueEntryTags(entryTags)
    ensures EntryCount(entryTags, tagId) == |TaggedEntries(entryTags, tagId)|
  {
    if entryTags != [] {
      var prefix := entryTags[..|entryTags| - 1];
      var last := entryTags[|entryTags| - 1];
      EntryCountIsTaggedEntries(prefix, tagId);
    }
  }

  /** Whether a joined entry counts as unread: `read_time = 0`, or else a nonzero `pinned_time`. */
  predicate CountsUnread(e: Option<EntryRow>) {
    e.Some? && (e.value.readTime == 0 || e.value.pinnedTime != 0)
  }

  /**
   * `UNREAD_ENTRY_COUNT`: over the tag's `entry_tag` rows, each joined to its
   * entry (none when the entry is missing), the ones that count as unread.
   */
  function UnreadEntryCount(entryTags: seq<EntryTagRow>, entries: seq<EntryRow>, tagId: int): (n: nat)
    ensures n <= |RowsOfTag(entryTags, tagId)|
  {
    if entryTags == [] then 0
    else
      var last := entryTags[|entryTags| - 1];
      UnreadEntryCount(entryTags[..|entryTags| - 1], entries, tagId)
        + (if last.tagId == tagId && CountsUnread(EntryById(entries, last.entryId)) then 1 else 0)
  }

  /** The entries carrying the tag whose joined row counts as unread. */
  function UnreadTaggedEntries(entryTags: seq<EntryTagRow>, entries: seq<EntryRow>, tagId: int): (ids: set<int>)
    ensures forall id :: id in ids <==>
              (exists x :: x in entryTags && x.tagId == tagId && x.entryId == id) && CountsUnread(EntryById(entries, id))
  {
    if entryTags == [] then {}
    else
      var last := entryTags[|entryTags| - 1];
      assert entryTags == entryTags[..|entryTags| - 1] + [last];
      UnreadTaggedEntries(entryTags[..|entryTags| - 1], entries, tagId)
        + (if last.tagId == tagId && CountsUnread(EntryById(entries, last.entryId)) then {last.entryId} else {})
  }

  /**
   * Under the uniqueness constraint, `UNREAD_ENTRY_COUNT` is the number of
   * distinct entries carrying the tag that are unread or pinned.
   */
  lemma {:induction false} UnreadEntryCountIsUnreadEntries(entryTags: seq<EntryTagRow>, entries: seq<EntryRow>, tagId: int)
    requires UniqueEntryTags(entryTags)
    ensures UnreadEntryCount(entryTags, entries, tagId) == |UnreadTaggedEntries(entryTags, entries, tagId)|
  {
    if entryTags != [] {
      var prefix := entryTags[..|entryTags| - 1];
      var last := entryTags[|entryTags| - 1];
      UnreadEntryCountIsUnreadEntries(prefix, entries, tagId);
    }
  }

  /** A tag none of whose rows joins an unread or pinned entry has no unread entries. */
  lemma {:induction false} UnreadEntryCountZero(entryTags: seq<EntryTagRow>, entries: seq<EntryRow>, tagId: int)
    requires forall e :: e in entries ==> e.readTime != 0 && e.pinnedTime == 0
    ensures UnreadEntryCount(entryTags, entries, tagId) == 0
  {
    if entryTags != [] {
      UnreadEntryCountZero(entryTags[..|entryTags| - 1], entries, tagId);
    }
  }

  // ---------------------------------------------------------------------
  // QueryHelper.tables
  // ---------------------------------------------------------------------

  datatype Column = ID | NAME | EDITABLE | ENTRY_COUNT | UNREAD_ENTRY_COUNT

  /** The columns that are stored in `tag` itself. */
  predicate IsTableColumn(c: Column) {
    c.ID? || c.NAME? || c.EDITABLE?
  }

  const JOIN_ENTRY_TAG := " LEFT JOIN entry_tag et ON et.tag_id = t.id"
  const JOIN_ENTRY := " LEFT JOIN entry e ON e.id = et.entry_id"

  /**
   * The FROM clause for the requested columns: the `entry_tag` join exactly
   * when an entry count is requested, the `entry` join exactly when the
   * unread count is, and that one after the other.
   */
  method Tables(columns: seq<Column>) returns (tables: string)
    ensures tables == "tag t"
      + (if exists i :: 0 <= i < |columns| && (columns[i].ENTRY_COUNT? || columns[i].UNREAD_ENTRY_COUNT?) then JOIN_ENTRY_TAG else "")
      + (if exists i :: 0 <= i < |columns| && columns[i].UNREAD_ENTRY_COUNT? then JOIN_ENTRY else "")
  {
    tables := "tag t";
    var entry := false;
    var entryTag := false;
    var k := 0;
    while k < |columns|
      invariant 0 <= k <= |columns|
      invariant entryTag <==> exists i :: 0 <= i < k && (columns[i].ENTRY_COUNT? || columns[i].UNREAD_ENTRY_COUNT?)
      invariant entry <==> exists i :: 0 <= i < k && columns[i].UNREAD_ENTRY_COUNT?
      invariant entry ==> entryTag
    {
      var column := columns[k];
      if !IsTableColumn(column) {
        match column
        case ENTRY_COUNT =>
          entryTag := true;
        case UNREAD_ENTRY_COUNT =>
          entry := true;
          entryTag := true;
      }
      k := k + 1;
      if entry && entryTag {
        break;
      }
    }
    if entryTag {
      tables := tables + JOIN_ENTRY_TAG;
    }
    if entry {
      tables := tables + JOIN_ENTRY;
    }
  }
}
