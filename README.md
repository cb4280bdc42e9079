# Aggregator data layer in Dafny

A model of the data layer of the Aggregator Android feed reader:

- the `UpdateMode` value type and its text form;
- the auto-update scheduler, which computes each feed's next update time;
- the table-invalidation engine of `Database`, which tracks dirty tables through writes and transactions and notifies live queries;
- the row-selection and row-update criteria of `Entries`, `Tags` and `Feeds`;
- the entry upsert rule of the feed updater.

SQL is not modelled. Each criterion is a predicate over in-memory rows. Each update is a function from a row sequence to the new rows and the affected-row count. The values SQLite would return (insert ids, affected counts, entry counts) are inputs, and so are the clock, local midnight and the FTS match.

Files and modules:

| file | module | models |
|---|---|---|
| `common.dfy` | `Common` | `Option`/`Result`, DateUtils constants, Kotlin `Long` division |
| `update_modes.dfy` | `UpdateModes` | `UpdateMode`, `serialize`, `deserialize`, Kotlin `split` and `toInt` |
| `auto_update_scheduler.dfy` | `AutoUpdateScheduler` | `calculateNextUpdateTime` and helpers, `schedule`, `scheduleFeeds` |
| `storage.dfy` | `Storage` | `Database`: write primitives, `invalidateTable`, transactions, `liveQuery`, `TableObserver` |
| `schema.dfy` | `Schema` | the `feed`, `entry`, `tag` and `entry_tag` rows |
| `entries.dfy` | `Entries` | derived columns, update criteria, query criteria, `SortOrder`, `QueryHelper.tables` |
| `tags.dfy` | `Tags` | built-in tags, delete protection, visible-tag order, counts, `QueryHelper.tables` |
| `feeds.dfy` | `Feeds` | unread count, `queryNextUpdateTime`, `queryOutdatedFeedIds`, feed criteria |
| `feed_updater.dfy` | `FeedUpdater` | `onParsedEntry` upsert and `onParsedFeed` |

The invalidation engine changes state in place, and so does the feed updater's store. Each is modelled twice:

- a pure state machine (`Storage.DbState` with `Invalidate`, `PerformOne`, `Begin`, `MarkSuccessful`, `End`, `RunTransaction`, `Register`);
- a class whose methods update fields. Each method's contract says the new `State()` is the state machine's step applied to the old state.

The properties are then lemmas about the state machine. The write primitives, `invalidateTable`'s observer loop, the flush loop of `endTransaction`, `queryOutdatedFeedIds`'s cursor loop and the two `QueryHelper.tables` loops are methods with loop invariants.

The files come from different revisions of the app, so the model joins them:

- `UpdateModes.UpdateMode` holds the modes of `UpdateModes.kt` (`Adaptive`, `Default`, `Disabled`, `Repeating(minutes)`). It also holds `OnAppLaunch`, which the scheduler's revision matches on.
- The scheduler's `Every15Minutes` … `Every8Hours` modes are `Repeating(15)` … `Repeating(480)`.
- `Feeds.kt` reads a table named `feeds` and goes through an older storage object. The model treats it as the same `feed` rows as `Entries.kt`.

Two behaviours of the code are easy to misread; the model follows the code in both:

- `endTransaction` flushes the buffered dirty tables when the outermost transaction ends, whether it committed or rolled back: it is not a commit-only flush, and observers are notified after a rolled-back transaction too: see `Storage.TransactionFromIdle` and `Storage.RolledBackTransactionStillNotifies`.
- `queryNextUpdateTime` returns 0, not null, when no feed is scheduled, because it reads the `MIN` column with `getLong`.

## Model

| member | source | states |
|---|---|---|
| Common.KDiv | app/src/main/java/com/tughi/aggregator/services/AutoUpdateScheduler.kt:123-124 | Kotlin `Long` division truncates toward zero: the remainder has the dividend's sign and is smaller than the divisor |
| Common.Truncate | app/src/main/java/com/tughi/aggregator/services/AutoUpdateScheduler.kt:123-124 | `a / b * b` is a multiple of `b` within one `b` of `a`, on `a`'s side of zero |
| UpdateModes.Serialize | app/src/main/java/com/tughi/aggregator/data/UpdateModes.kt:29-45 | the constant modes serialise to `ADAPTIVE`, `DEFAULT`, `DISABLED`; `Repeating(m)` serialises to `REPEATING:` followed by the decimal text of `m` |
| UpdateModes.ParseInt | app/src/main/java/com/tughi/aggregator/data/UpdateModes.kt:42 | Kotlin `toInt`: sign and decimal digits within the Int range, otherwise the failure case |
| UpdateModes.ParseIntToString | app/src/main/java/com/tughi/aggregator/data/UpdateModes.kt:42-44 | parsing the decimal text of any Int gives that Int back |
| UpdateModes.Split | app/src/main/java/com/tughi/aggregator/data/UpdateModes.kt:13 | Kotlin `split` with a limit yields at least one part and at most `limit` parts |
| UpdateModes.SplitLimitOneIsWhole | app/src/main/java/com/tughi/aggregator/data/UpdateModes.kt:13 | with limit 1 the string is never split: the only part is the whole string |
| UpdateModes.SplitLimitTwo | app/src/main/java/com/tughi/aggregator/data/UpdateModes.kt:13 | with limit 2 the string splits at its first separator, or stays whole when it has none |
| UpdateModes.FromParts | app/src/main/java/com/tughi/aggregator/data/UpdateModes.kt:17-24 | only the `REPEATING` branch can fail; every unknown name gives `Disabled` |
| UpdateModes.DeserializeAsWritten | app/src/main/java/com/tughi/aggregator/data/UpdateModes.kt:12-25 | `deserialize` as written, with `split(':', limit = 1)`: never fails, `REPEATING` gives `Repeating(60)`, an unknown name gives `Disabled` |
| UpdateModes.ConstantRoundTripAsWritten | app/src/main/java/com/tughi/aggregator/data/UpdateModes.kt:12-24 | as written, deserialising the serial form of `Adaptive`, `Default` or `Disabled` gives the mode back |
| UpdateModes.RepeatingRoundTripFailsAsWritten | app/src/main/java/com/tughi/aggregator/data/UpdateModes.kt:13 | as written, the serial form of every `Repeating(m)` deserialises to `Disabled` |
| UpdateModes.Repeating30AsWritten | app/src/main/java/com/tughi/aggregator/data/UpdateModes.kt:13 | as written, `Repeating(30)` serialises to `REPEATING:30`, which deserialises to `Disabled` |
| UpdateModes.Deserialize | app/src/main/java/com/tughi/aggregator/data/UpdateModes.kt:12-25 | corrected `deserialize` (limit 2): it agrees with the code as written on every string without a colon |
| UpdateModes.UnknownNameIsDisabled | app/src/main/java/com/tughi/aggregator/data/UpdateModes.kt:23 | a name other than the four known ones deserialises to `Disabled` |
| UpdateModes.RoundTrip | app/src/main/java/com/tughi/aggregator/data/UpdateModes.kt:12-45 | for every serialisable mode, deserialising its serial form gives the mode back |
| UpdateModes.RepeatingRoundTrip | app/src/main/java/com/tughi/aggregator/data/UpdateModes.kt:16-22 | `Repeating(m)` survives the corrected round trip for every Int `m` |
| UpdateModes.DeserializeIsTotalOnSerialForms | app/src/main/java/com/tughi/aggregator/data/UpdateModes.kt:12-25 | the corrected `deserialize` never fails on a serial form |
| AutoUpdateScheduler.AdaptiveUpdateRate | app/src/main/java/com/tughi/aggregator/services/AutoUpdateScheduler.kt:112-122 | the rate is within [15 min, 12 h] when the 24-hour count is positive; within [0, 6 h] (a `min`, not a `max`) when only the week count is positive; exactly 12 h when both counts are 0 |
| AutoUpdateScheduler.AdaptiveInterval | app/src/main/java/com/tughi/aggregator/services/AutoUpdateScheduler.kt:112-124 | the interval is on the 15-minute grid and within [0, 12 h] |
| AutoUpdateScheduler.AdaptiveIntervalBounds | app/src/main/java/com/tughi/aggregator/services/AutoUpdateScheduler.kt:112-124 | after grid alignment the interval is within [15 min, 12 h] with a 24-hour count, within [0, 6 h] with only a week count, and exactly 12 h with neither |
| AutoUpdateScheduler.NextAdaptiveUpdateTime | app/src/main/java/com/tughi/aggregator/services/AutoUpdateScheduler.kt:109-125 | the next time is a multiple of 15 minutes, at least `lastUpdateTime` truncated to 15 minutes, that plus the adaptive interval, later than `lastUpdateTime` unless only the week count is positive, and at most 12 h after it when `lastUpdateTime` is not negative |
| AutoUpdateScheduler.AdaptiveExample | app/src/main/java/com/tughi/aggregator/services/AutoUpdateScheduler.kt:112-124 | 48 entries in a day (and a week) give the 15-minute interval |
| AutoUpdateScheduler.AdaptiveWeekOnlyCanBeZero | app/src/main/java/com/tughi/aggregator/services/AutoUpdateScheduler.kt:116-124 | with no entries in 24 hours and many in the week, the interval is 0 |
| AutoUpdateScheduler.NextRepeatingUpdateTime | app/src/main/java/com/tughi/aggregator/services/AutoUpdateScheduler.kt:127-137 | given `midnight <= lastUpdateTime`: the next time is later than `lastUpdateTime` and at most one period after it, lies on a period boundary counted from midnight, and is the first such boundary |
| AutoUpdateScheduler.RepeatingExamples | app/src/main/java/com/tughi/aggregator/services/AutoUpdateScheduler.kt:127-137 | 10:05 with a 30-minute period gives 10:30; 23:55 gives the next midnight |
| AutoUpdateScheduler.NextUpdateTime | app/src/main/java/com/tughi/aggregator/services/AutoUpdateScheduler.kt:93-107 | `Disabled` gives 0 and `OnAppLaunch` gives -1; the other modes give their computed time |
| AutoUpdateScheduler.DefaultDefersToConfigured | app/src/main/java/com/tughi/aggregator/services/AutoUpdateScheduler.kt:95 | `Default` gives exactly the configured default mode's result, which must not be `Default` itself |
| AutoUpdateScheduler.NextUpdateTimeSentinels | app/src/main/java/com/tughi/aggregator/services/AutoUpdateScheduler.kt:34-35 | for last update times after midnight and at least 15 minutes after the epoch, the result is 0 exactly for (effective) `Disabled` and -1 exactly for `OnAppLaunch`; the computed times never collide with the sentinels |
| AutoUpdateScheduler.MinimumLatency | app/src/main/java/com/tughi/aggregator/services/AutoUpdateScheduler.kt:79 | the job latency is `max(0, next - now)`: never negative |
| AutoUpdateScheduler.Schedule | app/src/main/java/com/tughi/aggregator/services/AutoUpdateScheduler.kt:70-86 | no job when no next update time is known; otherwise a non-negative latency that ends at the next update time when that lies ahead |
| AutoUpdateScheduler.ScheduleFeeds | app/src/main/java/com/tughi/aggregator/services/AutoUpdateScheduler.kt:53-68 | every feed gets the next update time `calculateNextUpdateTime` gives for its mode and history |
| Storage.WriteResult | app/src/main/java/com/tughi/aggregator/data/Database.kt:175-203 | `insert` returns the row id; `replace` returns 1 exactly when the insert succeeded, else 0; `update` and `delete` return the affected count |
| Storage.Registrations | app/src/main/java/com/tughi/aggregator/data/Database.kt:301-305 | one live observer per observed table, all for the new query |
| Storage.Released | app/src/main/java/com/tughi/aggregator/data/Database.kt:310-323 | reclaiming a query kills exactly its observers and leaves the others alone |
| Storage.Buffered | app/src/main/java/com/tughi/aggregator/data/Database.kt:210-216 | adding a table to the buffered set: the old members plus the table |
| Storage.DirtyTables | app/src/main/java/com/tughi/aggregator/data/Database.kt:175-203 | a table is dirty exactly when one of the writes to it affected rows |
| Storage.BufferedAll | app/src/main/java/com/tughi/aggregator/data/Database.kt:210-216 | marking tables one by one leaves exactly the old buffer's tables and the marked ones in the buffer |
| Storage.Invalidate | app/src/main/java/com/tughi/aggregator/data/Database.kt:209-238 | invalidating a table never changes the transaction stack, the commit record or the listener counter |
| Storage.PerformAll | app/src/main/java/com/tughi/aggregator/data/Database.kt:175-203 | a sequence of writes never changes the transaction stack, the commit record or the listener counter |
| Storage.PerformOne | app/src/main/java/com/tughi/aggregator/data/Database.kt:175-203 | a write invalidates its table exactly when it affected rows; stated by its body, the property is `Storage.IneffectiveWriteChangesNothing` |
| Storage.Begin | app/src/main/java/com/tughi/aggregator/data/Database.kt:250-256 | opens one more nesting level, not yet successful; stated by its body, used by `Storage.TransactionFromIdle` |
| Storage.MarkSuccessful | app/src/main/java/com/tughi/aggregator/data/Database.kt:258 | marks the innermost level successful; stated by its body, used by `Storage.TransactionFromIdle` |
| Storage.End | app/src/main/java/com/tughi/aggregator/data/Database.kt:260-271 | closes a level, dooming the outer one when this one failed; the outermost records the commit, flushes every buffered table and empties the buffer; stated by its body, the properties are `Storage.TransactionFromIdle` and `Storage.RolledBackTransactionStillNotifies` |
| Storage.RunTransaction | app/src/main/java/com/tughi/aggregator/data/Database.kt:240-248 | begin, the body's writes, success unless the body throws, end; stated by its body, the property is `Storage.TransactionFromIdle` |
| Storage.Register | app/src/main/java/com/tughi/aggregator/data/Database.kt:301-305 | appends one alive observer per table under a fresh listener id; stated by its body, the property is `Storage.LiveQueryIsNotified` |
| Storage.Notified | app/src/main/java/com/tughi/aggregator/data/Database.kt:222-231 | the notifications of one invalidation: one for each alive observer of the table, in registration order; stated by its body, the properties are `Storage.NotifiedMatchesAlive`, `Storage.AliveOfMembers`, `Storage.NotifiedIsForTable` and `Storage.AliveObserverIsNotified` |
| Storage.Pruned | app/src/main/java/com/tughi/aggregator/data/Database.kt:222-235 | the observers left after one invalidation removed the vanished observers of the table; stated by its body, the properties are `Storage.PrunedMembers`, `Storage.PrunedKeepsOtherTables`, `Storage.PrunedKeepsAlive` and `Storage.PrunedSubset` |
| Storage.FlushLog | app/src/main/java/com/tughi/aggregator/data/Database.kt:265-269 | the notifications of invalidating each buffered table in turn, each over the observers the earlier ones left; stated by its body, the property is `Storage.FlushNotifiesEachTableOnce` |
| Storage.NotifiedMatchesAlive | app/src/main/java/com/tughi/aggregator/data/Database.kt:222-231 | one notification per alive observer of the table, in registration order |
| Storage.AliveOfMembers | app/src/main/java/com/tughi/aggregator/data/Database.kt:222-231 | the notified observers are exactly the alive observers of the table |
| Storage.NotifiedIsForTable | app/src/main/java/com/tughi/aggregator/data/Database.kt:222-231 | invalidating a table notifies only observers of that table |
| Storage.PrunedMembers | app/src/main/java/com/tughi/aggregator/data/Database.kt:222-235 | after invalidation the observers kept are those of other tables and the alive ones of this table |
| Storage.PrunedKeepsOtherTables | app/src/main/java/com/tughi/aggregator/data/Database.kt:233-235 | observers of other tables, dead or alive, stay registered unchanged and in order |
| Storage.PrunedKeepsAlive | app/src/main/java/com/tughi/aggregator/data/Database.kt:222-235 | the observers of the table left after invalidation are exactly its alive ones |
| Storage.PrunedSubset | app/src/main/java/com/tughi/aggregator/data/Database.kt:233-235 | pruning never adds an observer |
| Storage.NotifiedIgnoresPruning | app/src/main/java/com/tughi/aggregator/data/Database.kt:222-235 | pruning dead observers never changes who a later invalidation notifies |
| Storage.FlushNotifiesEachTableOnce | app/src/main/java/com/tughi/aggregator/data/Database.kt:260-271 | flushing a duplicate-free buffer notifies the observers of each buffered table exactly once, and nobody for unbuffered tables |
| Storage.InvalidateInTransaction | app/src/main/java/com/tughi/aggregator/data/Database.kt:209-216 | inside a transaction invalidation only adds the table to the buffered set: no notification, no pruning |
| Storage.IneffectiveWriteChangesNothing | app/src/main/java/com/tughi/aggregator/data/Database.kt:175-203 | a failed insert, or an update or delete of 0 rows, leaves the whole state unchanged |
| Storage.PerformAllInTransaction | app/src/main/java/com/tughi/aggregator/data/Database.kt:209-216 | inside a transaction a batch of writes only buffers its dirty tables |
| Storage.BufferedAllNoDuplicates | app/src/main/java/com/tughi/aggregator/data/Database.kt:207 | the buffered set never holds a table twice |
| Storage.TransactionFromIdle | app/src/main/java/com/tughi/aggregator/data/Database.kt:240-271 | an outermost transaction records whether its body returned, and then flushes each table its body dirtied exactly once, whether it committed or rolled back; the buffer ends empty |
| Storage.TransactionNotifiesDirtyTablesOnce | app/src/main/java/com/tughi/aggregator/data/Database.kt:240-271 | after an outermost transaction, a table's observers have been notified once more exactly when some write of the body affected that table, committed or rolled back |
| Storage.RolledBackTransactionStillNotifies | app/src/main/java/com/tughi/aggregator/data/Database.kt:240-271 | a body that throws after an effective update still notifies that table's alive observers |
| Storage.AliveObserverIsNotified | app/src/main/java/com/tughi/aggregator/data/Database.kt:222-231 | every alive observer of an invalidated table is notified |
| Storage.LiveQueryIsNotified | app/src/main/java/com/tughi/aggregator/data/Database.kt:279-308 | a newly registered live query is notified when one of its tables is invalidated outside a transaction |
| Storage.ReclaimedQueryIsNotNotified | app/src/main/java/com/tughi/aggregator/data/Database.kt:310-323 | a reclaimed query is never notified |
| Storage.ReclaimedObserversArePruned | app/src/main/java/com/tughi/aggregator/data/Database.kt:233-235 | a reclaimed query's observers of the invalidated table are removed |
| Storage.NotifyObservers | app/src/main/java/com/tughi/aggregator/data/Database.kt:222-231 | the loop notifies exactly the alive observers of the table and collects exactly the positions of its dead ones |
| Storage.RemoveVanished | app/src/main/java/com/tughi/aggregator/data/Database.kt:233-235 | removing the collected positions leaves exactly the pruned observer list |
| Storage.Database.constructor | app/src/main/java/com/tughi/aggregator/data/Database.kt:205-207 | a new database has no transaction, no buffer, no observers and no notifications |
| Storage.Database.InvalidateTable | app/src/main/java/com/tughi/aggregator/data/Database.kt:209-238 | the new state is the `Invalidate` step of the old one |
| Storage.Database.Insert | app/src/main/java/com/tughi/aggregator/data/Database.kt:175-183 | returns the row id; the table is invalidated unless the id is -1 |
| Storage.Database.Replace | app/src/main/java/com/tughi/aggregator/data/Database.kt:185-187 | returns 1 when the insert succeeded, else 0; invalidates as `insert` does |
| Storage.Database.Update | app/src/main/java/com/tughi/aggregator/data/Database.kt:189-195 | returns the affected count; the table is invalidated only when it is positive |
| Storage.Database.Delete | app/src/main/java/com/tughi/aggregator/data/Database.kt:197-203 | returns the affected count; the table is invalidated only when it is positive |
| Storage.Database.Apply | app/src/main/java/com/tughi/aggregator/data/Database.kt:175-203 | performs any one write: the new state is `PerformOne` of the old one and the result is `WriteResult` |
| Storage.Database.BeginTransaction | app/src/main/java/com/tughi/aggregator/data/Database.kt:250-256 | opens one more nesting level, not yet successful |
| Storage.Database.SetTransactionSuccessful | app/src/main/java/com/tughi/aggregator/data/Database.kt:258 | marks the innermost level successful |
| Storage.Database.EndTransaction | app/src/main/java/com/tughi/aggregator/data/Database.kt:260-271 | closes a level; the outermost one takes the buffered tables, empties the buffer and invalidates each table |
| Storage.Database.Flush | app/src/main/java/com/tughi/aggregator/data/Database.kt:265-269 | invalidating each table in turn appends the flush notifications and prunes each table's dead observers |
| Storage.Database.Transaction | app/src/main/java/com/tughi/aggregator/data/Database.kt:240-248 | the body's writes return their results; success is marked only when the body returns normally; the transaction is always ended |
| Storage.Database.LiveQuery | app/src/main/java/com/tughi/aggregator/data/Database.kt:279-308 | registers one observer per observed table under a fresh listener id |
| Storage.Database.Reclaim | app/src/main/java/com/tughi/aggregator/data/Database.kt:310-323 | the collector clears the query's references: its observers become dead, nothing else changes |
| Schema.EffectiveTitle | app/src/main/java/com/tughi/aggregator/data/Feeds.kt:32 | the feed title is `custom_title` when it is not null, else `title` |
| Schema.FeedById | app/src/main/java/com/tughi/aggregator/data/Feeds.kt:84-97 | `query(id)` is null exactly when no feed has the id; otherwise it is a row with that id |
| Schema.EntryById | app/src/main/java/com/tughi/aggregator/data/Tags.kt:16 | the `LEFT JOIN entry e ON e.id = et.entry_id` of the unread count finds nothing exactly when no entry has the id, and otherwise an entry with that id |
| Entries.PublishTime | app/src/main/java/com/tughi/aggregator/data/Entries.kt:40 | `publish_time`, falling back to `insert_time` |
| Entries.FeedTitle | app/src/main/java/com/tughi/aggregator/data/Entries.kt:33 | the joined feed's `custom_title`, falling back to `title`; null when the left join finds no feed |
| Entries.StarTime | app/src/main/java/com/tughi/aggregator/data/Entries.kt:45 | the `tag_time` of the entry's Starred link; null exactly when it has none |
| Entries.Type | app/src/main/java/com/tughi/aggregator/data/Entries.kt:46 | READ when `read_time > 0` and `pinned_time = 0`, else UNREAD; no ensures of its own, the property is `Entries.TypeOfMarkedEntries` |
| Entries.UpdateRows | app/src/main/java/com/tughi/aggregator/data/Entries.kt:74-87 | an update changes exactly the rows the criteria match, as the assignment says, and reports their number |
| Entries.UpdateMatches | app/src/main/java/com/tughi/aggregator/data/Entries.kt:74-87 | the WHERE clause of each update criteria; stated by its body, and `Entries.UpdateRows` says an update changes exactly the rows it matches |
| Entries.MarkRead | app/src/main/java/com/tughi/aggregator/data/Entries.kt:48 | `markRead(id)` as an update; stated by its body, the effect is `Entries.MarkReadEffect` |
| Entries.MarkPinned | app/src/main/java/com/tughi/aggregator/data/Entries.kt:50 | `markPinned(id)` as an update; stated by its body, the effect is `Entries.MarkPinnedEffect` |
| Entries.MarkReadEffect | app/src/main/java/com/tughi/aggregator/data/Entries.kt:48 | `markRead(id)` sets `read_time = now` and `pinned_time = 0` on that entry and leaves every other row unchanged |
| Entries.MarkPinnedEffect | app/src/main/java/com/tughi/aggregator/data/Entries.kt:50 | `markPinned` sets `read_time = 0` and `pinned_time = now` on that entry and leaves every other row unchanged |
| Entries.TypeOfMarkedEntries | app/src/main/java/com/tughi/aggregator/data/Entries.kt:46-50 | with a positive clock, an entry marked read is READ; a pinned one is UNREAD |
| Entries.SerializeSortOrder | app/src/main/java/com/tughi/aggregator/data/Entries.kt:170-185 | the serial names `date-asc`, `date-desc` and `title-asc`; stated by its body, the property is `Entries.SortOrderRoundTrip` |
| Entries.DeserializeSortOrder | app/src/main/java/com/tughi/aggregator/data/Entries.kt:170-185 | an unknown string gives `ByDateAscending` |
| Entries.SortOrderRoundTrip | app/src/main/java/com/tughi/aggregator/data/Entries.kt:170-185 | every sort order survives serialise then deserialise |
| Entries.Selects | app/src/main/java/com/tughi/aggregator/data/Entries.kt:95-168 | the WHERE clause of each query criteria; stated by its body, the properties are `Entries.Select`, `Entries.FeedEntriesSelection` and `Entries.ReadingKeepsSessionView` |
| Entries.InSession | app/src/main/java/com/tughi/aggregator/data/Entries.kt:108-121 | a row belongs to a session started at `sessionTime` when `read_time = 0 OR read_time > sessionTime`; stated by its body, the properties are `Entries.FeedEntriesSelection` and `Entries.ReadingKeepsSessionView` |
| Entries.Select | app/src/main/java/com/tughi/aggregator/data/Entries.kt:95-168 | a query returns exactly the rows its criteria select |
| Entries.FeedEntriesSelection | app/src/main/java/com/tughi/aggregator/data/Entries.kt:108-121 | with session time 0 the feed's entries are all selected; otherwise just those unread or read after the session started |
| Entries.ReadingKeepsSessionView | app/src/main/java/com/tughi/aggregator/data/Entries.kt:108-168 | marking an entry read during a session never drops a row from the session's listing |
| Entries.Copy | app/src/main/java/com/tughi/aggregator/data/Entries.kt:123-127 | `copy` takes the supplied session time and sort order and keeps every field not supplied |
| Entries.CopyWithNothingIsIdentity | app/src/main/java/com/tughi/aggregator/data/Entries.kt:123-127 | `copy()` with no arguments gives back the same criteria |
| Entries.ExtraObservedTables | app/src/main/java/com/tughi/aggregator/data/Entries.kt:130-158 | My Feed listings also observe `my_feed_tag`, tag listings observe `entry`, `entry_tag` and `feed_tag`, feed listings nothing extra |
| Entries.ListingHearsExtraTables | app/src/main/java/com/tughi/aggregator/data/Entries.kt:130-158 | a tag listing registered over its observed tables is notified by an `entry_tag` invalidation outside a transaction, and a My Feed listing by a `my_feed_tag` one |
| Entries.MarkAllRead | app/src/main/java/com/tughi/aggregator/data/Entries.kt:52-60 | bulk mark-read of a listing's criteria; stated by its body, the properties are `Entries.MarkAllReadOfFeed`, `Entries.MarkAllReadLeavesNoneFresh` and `Entries.MarkAllReadTwice` |
| Entries.MarkReadCriteria | app/src/main/java/com/tughi/aggregator/data/Entries.kt:52-60 | the update criteria of each list criteria: the feed, My Feed or tag entries that are unread and unpinned; stated by its body, the properties are `Entries.MarkAllReadOfFeed`, `Entries.MarkAllReadLeavesNoneFresh` and `Entries.MarkAllReadTwice` |
| Entries.MarkAllReadOfFeed | app/src/main/java/com/tughi/aggregator/data/Entries.kt:52-60 | bulk mark-read of a feed sets `read_time = now` exactly on that feed's unread, unpinned entries; all other rows are unchanged |
| Entries.MarkedRowsNoLongerMatch | app/src/main/java/com/tughi/aggregator/data/Entries.kt:52-60 | with a nonzero clock, no row left by bulk mark-read matches the same update criteria |
| Entries.MarkAllReadLeavesNoneFresh | app/src/main/java/com/tughi/aggregator/data/Entries.kt:52-60 | with a nonzero clock, after bulk mark-read no row matches the same criteria |
| Entries.MarkAllReadTwice | app/src/main/java/com/tughi/aggregator/data/Entries.kt:52-60 | with a nonzero clock for the first pass, bulk mark-read a second time affects no row and changes nothing |
| Entries.PublishedCount | app/src/main/java/com/tughi/aggregator/data/Entries.kt:62-68 | the feed's entries whose publish time (falling back to the insert time) is after `since`; stated by its body, the property is `Entries.PublishedCountMonotone` |
| Entries.PublishedCountMonotone | app/src/main/java/com/tughi/aggregator/data/Entries.kt:62-68 | counting entries published since a later time never gives more, and a count never exceeds the rows |
| Entries.Tables | app/src/main/java/com/tughi/aggregator/data/Entries.kt:188-210 | `entry e`, plus one feed join exactly when a requested column needs the feed |
| Tags.BuiltInTags | app/src/main/java/com/tughi/aggregator/data/Database.kt:82-84 | the built-in tags include Starred (0) and Hidden (-1), and none is editable |
| Tags.UpdateTagMatches | app/src/main/java/com/tughi/aggregator/data/Tags.kt:20-23 | `id = ?`; stated by its body, the properties are `Tags.UpdateTag` and `Tags.UpdateTagAffectsAtMostOne` |
| Tags.UpdateTag | app/src/main/java/com/tughi/aggregator/data/Tags.kt:20-23 | an update by tag id assigns the given columns on exactly the rows with that id, keeps every other row, and affects as many rows as `QueryTagCriteria(tagId)` lists |
| Tags.UpdateTagAffectsAtMostOne | app/src/main/java/com/tughi/aggregator/data/Tags.kt:20-23 | with `id` as the primary key, an update by tag id affects at most one row, and exactly one when a tag has the id |
| Tags.DeleteTagMatches | app/src/main/java/com/tughi/aggregator/data/Tags.kt:27-30 | `id = ? AND editable = 1`; stated by its body, the properties are `Tags.DeleteTag` and the lemmas after it |
| Tags.DeleteTag | app/src/main/java/com/tughi/aggregator/data/Tags.kt:27-30 | deletion removes every row matching `id = ? AND editable = 1`, keeps every other row as often as it occurred, and reports how many rows it removed |
| Tags.DeleteTagSnoc | app/src/main/java/com/tughi/aggregator/data/Tags.kt:27-30 | one more row at the end is removed and counted when it matches `id = ? AND editable = 1`, and kept otherwise |
| Tags.DeleteKeepsProtectedTags | app/src/main/java/com/tughi/aggregator/data/Tags.kt:27-30 | a tag that is not editable, or has another id, survives the deletion |
| Tags.DeleteAffectsOnlyEditable | app/src/main/java/com/tughi/aggregator/data/Tags.kt:27-30 | deleting an id no editable tag has affects 0 rows and changes nothing |
| Tags.BuiltInTagsCannotBeDeleted | app/src/main/java/com/tughi/aggregator/data/Tags.kt:27-30 | no deletion touches the built-in tags |
| Tags.QueryTag | app/src/main/java/com/tughi/aggregator/data/Tags.kt:36-40 | the query returns exactly the tags with the id |
| Tags.NameLe | app/src/main/java/com/tughi/aggregator/data/Tags.kt:42-47 | lexicographic order on names by code point, the order of the `t.name` sort key; stated by its body, the properties are `Tags.NameLeTotal` and `Tags.NameLeTransitive` |
| Tags.NameLeTotal | app/src/main/java/com/tughi/aggregator/data/Tags.kt:42-47 | any two names are ordered |
| Tags.NameLeTransitive | app/src/main/java/com/tughi/aggregator/data/Tags.kt:42-47 | name order is transitive |
| Tags.Rank | app/src/main/java/com/tughi/aggregator/data/Tags.kt:45 | `CASE t.id WHEN 0 THEN 0 ELSE 1 END`; stated by its body, the property is `Tags.StarredListedFirst` |
| Tags.ListedBefore | app/src/main/java/com/tughi/aggregator/data/Tags.kt:45 | the visible-tag order, by rank and then by name; stated by its body, the properties are `Tags.ListedBeforeTotal` and `Tags.ListedBeforeTransitive` |
| Tags.ListedBeforeTotal | app/src/main/java/com/tughi/aggregator/data/Tags.kt:42-47 | the visible-tag order (Starred first, then by name) orders any two tags |
| Tags.ListedBeforeTransitive | app/src/main/java/com/tughi/aggregator/data/Tags.kt:42-47 | the visible-tag order is transitive |
| Tags.SortTags | app/src/main/java/com/tughi/aggregator/data/Tags.kt:42-47 | the tags in listing order; stated by its body, the property is `Tags.SortTagsCorrect` |
| Tags.SortTagsCorrect | app/src/main/java/com/tughi/aggregator/data/Tags.kt:42-47 | the sorted tags are in listing order and a permutation of the input |
| Tags.NotHidden | app/src/main/java/com/tughi/aggregator/data/Tags.kt:42-47 | the filter keeps exactly the tags other than Hidden |
| Tags.VisibleTags | app/src/main/java/com/tughi/aggregator/data/Tags.kt:42-47 | the non-Hidden tags sorted Starred first, then by name; stated by its body, the property is `Tags.VisibleTagsCorrect` |
| Tags.VisibleTagsCorrect | app/src/main/java/com/tughi/aggregator/data/Tags.kt:42-47 | the visible tags are exactly the tags other than Hidden, each as often as stored, in listing order |
| Tags.StarredListedFirst | app/src/main/java/com/tughi/aggregator/data/Tags.kt:42-47 | Starred comes before every other visible tag |
| Tags.StarredFirstInListed | app/src/main/java/com/tughi/aggregator/data/Tags.kt:45 | in any list in listing order, Starred comes before every other tag |
| Tags.RowsOfTag | app/src/main/java/com/tughi/aggregator/data/Tags.kt:50-80 | the `entry_tag` join yields exactly the links of the tag |
| Tags.EntryCount | app/src/main/java/com/tughi/aggregator/data/Tags.kt:15 | one per joined row with a nonzero `tag_time`; stated by its body, the property is `Tags.EntryCountIsTaggedEntries` |
| Tags.TaggedEntries | app/src/main/java/com/tughi/aggregator/data/Tags.kt:15 | the entries linked to the tag with a nonzero `tag_time` |
| Tags.EntryCountIsTaggedEntries | app/src/main/java/com/tughi/aggregator/data/Tags.kt:15 | with one link per entry and tag, `ENTRY_COUNT` is the number of entries tagged with a nonzero `tag_time` |
| Tags.UnreadEntryCount | app/src/main/java/com/tughi/aggregator/data/Tags.kt:16 | `UNREAD_ENTRY_COUNT` never exceeds the tag's joined links; which links count is `Tags.UnreadEntryCountIsUnreadEntries` |
| Tags.CountsUnread | app/src/main/java/com/tughi/aggregator/data/Tags.kt:16 | a joined link counts when its entry exists and has `read_time = 0` or a nonzero `pinned_time`; stated by its body, the properties are `Tags.UnreadTaggedEntries`, `Tags.UnreadEntryCountIsUnreadEntries` and `Tags.UnreadEntryCountZero` |
| Tags.UnreadTaggedEntries | app/src/main/java/com/tughi/aggregator/data/Tags.kt:16 | the entries linked to the tag whose joined entry has `read_time = 0` or a nonzero `pinned_time` |
| Tags.UnreadEntryCountIsUnreadEntries | app/src/main/java/com/tughi/aggregator/data/Tags.kt:16 | with one link per entry and tag, `UNREAD_ENTRY_COUNT` is the number of linked entries that are unread or pinned |
| Tags.UnreadEntryCountZero | app/src/main/java/com/tughi/aggregator/data/Tags.kt:16 | when every entry is read and unpinned, the unread count is 0 |
| Tags.Tables | app/src/main/java/com/tughi/aggregator/data/Tags.kt:50-80 | `tag t`, plus the `entry_tag` join exactly when a count is requested, plus the `entry` join after it exactly when the unread count is |
| Feeds.MarkReadLowersUnreadCount | app/src/main/java/com/tughi/aggregator/data/Feeds.kt:45 | with a nonzero clock, marking an entry read never raises a feed's unread count, and strictly lowers it when the entry was an unread entry of that feed |
| Feeds.ReadRowsLowerUnreadCount | app/src/main/java/com/tughi/aggregator/data/Feeds.kt:45 | for any rows changed exactly as `markRead(entryId)` changes them, under a nonzero clock, the feed's unread count never rises, and it strictly falls when the entry was an unread entry of that feed |
| Feeds.UnreadEntryCount | app/src/main/java/com/tughi/aggregator/data/Feeds.kt:45 | the feed's entries with `read_time = 0`; stated by its body, the property is `Feeds.MarkReadLowersUnreadCount` |
| Feeds.Scheduled | app/src/main/java/com/tughi/aggregator/data/Feeds.kt:58 | `next_update_time > 0`; stated by its body, the properties are `Feeds.EarliestScheduled`, `Feeds.QueryNextUpdateTime` and `Feeds.UnscheduledFeedsDoNotCount` |
| Feeds.EarliestScheduled | app/src/main/java/com/tughi/aggregator/data/Feeds.kt:57-62 | the least positive `next_update_time`; nothing when no feed is scheduled |
| Feeds.QueryNextUpdateTime | app/src/main/java/com/tughi/aggregator/data/Feeds.kt:57-62 | 0 exactly when no feed has a positive next update time; otherwise the least such time, which some scheduled feed has |
| Feeds.UnscheduledFeedsDoNotCount | app/src/main/java/com/tughi/aggregator/data/Feeds.kt:57-62 | disabled (0) and on-launch (-1) feeds never change the result |
| Feeds.ScheduledBefore | app/src/main/java/com/tughi/aggregator/data/Feeds.kt:64-76 | the feeds with `0 < next_update_time < now` |
| Feeds.QueryOutdatedFeedIds | app/src/main/java/com/tughi/aggregator/data/Feeds.kt:64-76 | the ids are exactly those of the feeds with `0 < next_update_time < now`, in row order; empty when there are none |
| Feeds.AllCriteriaOrderBy | app/src/main/java/com/tughi/aggregator/data/Feeds.kt:130-136 | orders by title exactly when the title column is requested |
| Feeds.Matches | app/src/main/java/com/tughi/aggregator/data/Feeds.kt:130-148 | the WHERE clause of each feed criteria; stated by its body, the properties are `Feeds.Select`, `Feeds.OutdatedCriteriaSentinels` and `Feeds.UpdateModeCriteriaReadsBack` |
| Feeds.Select | app/src/main/java/com/tughi/aggregator/data/Feeds.kt:101-148 | a query returns exactly the feeds its criteria match |
| Feeds.Query | app/src/main/java/com/tughi/aggregator/data/Feeds.kt:101-115 | the cursor loop returns exactly the matching feeds |
| Feeds.OutdatedIdsAreOutdated | app/src/main/java/com/tughi/aggregator/data/Feeds.kt:64-76 | every feed `queryOutdatedFeedIds` reports also matches `OutdatedCriteria` |
| Feeds.OutdatedCriteriaSentinels | app/src/main/java/com/tughi/aggregator/data/Feeds.kt:138-142 | a feed scheduled to `Disabled` is never outdated; one scheduled to `OnAppLaunch` always is |
| Feeds.UpdateModeCriteriaReadsBack | app/src/main/java/com/tughi/aggregator/data/Feeds.kt:144-148 | every feed the criteria select stores the serial form of the mode, which deserialises back to it |
| FeedUpdater.Ingest | app/src/main/java/com/tughi/aggregator/services/FeedUpdater.kt:68-122 | afterwards the entry's key is stored, every other entry is unchanged, the entry is inserted exactly when its key was unknown, and no change means no write |
| FeedUpdater.ContentChanged | app/src/main/java/com/tughi/aggregator/services/FeedUpdater.kt:99 | a stored entry needs an update when its title, link, content or author differs from the parsed one; stated by its body, the properties are `FeedUpdater.UnchangedContentIsNotWritten` and `FeedUpdater.ChangedEntryIsUpdated` |
| FeedUpdater.NewEntry | app/src/main/java/com/tughi/aggregator/services/FeedUpdater.kt:83-95 | the inserted row; stated by its body, the property is `FeedUpdater.UnseenEntryIsInserted` |
| FeedUpdater.Refreshed | app/src/main/java/com/tughi/aggregator/services/FeedUpdater.kt:100-108 | the updated row; stated by its body, the property is `FeedUpdater.ChangedEntryIsUpdated` |
| FeedUpdater.UnseenEntryIsInserted | app/src/main/java/com/tughi/aggregator/services/FeedUpdater.kt:82-95 | an unknown key is inserted with the next id, `insertTime = updateTime = now` and `publishTime` falling back to now |
| FeedUpdater.UnchangedContentIsNotWritten | app/src/main/java/com/tughi/aggregator/services/FeedUpdater.kt:99 | equal title, link, content and author mean no write, even if the publish date changed |
| FeedUpdater.ChangedEntryIsUpdated | app/src/main/java/com/tughi/aggregator/services/FeedUpdater.kt:99-108 | a change in any of the four fields updates them, sets `updateTime = now` and `publishTime` to the parsed date, and keeps the id, insert time and read state |
| FeedUpdater.IngestIsIdempotent | app/src/main/java/com/tughi/aggregator/services/FeedUpdater.kt:80-121 | ingesting the same parsed entry again writes nothing |
| FeedUpdater.KeysOf | app/src/main/java/com/tughi/aggregator/services/FeedUpdater.kt:80-121 | the keys of a parsed feed's entries |
| FeedUpdater.IngestAll | app/src/main/java/com/tughi/aggregator/services/FeedUpdater.kt:80-121 | every parsed entry of one feed in turn, each with its own clock reading; stated by its body, the property is `FeedUpdater.IngestAllKeys` |
| FeedUpdater.IngestAllKeys | app/src/main/java/com/tughi/aggregator/services/FeedUpdater.kt:80-121 | after a whole feed is ingested the stored keys are the old ones plus the parsed ones; other feeds' entries are unchanged |
| FeedUpdater.FeedRefreshed | app/src/main/java/com/tughi/aggregator/services/FeedUpdater.kt:50-62 | the refreshed feed row; stated by its body, the property is `FeedUpdater.FeedRefreshKeepsUserSettings` |
| FeedUpdater.FeedRefreshKeepsUserSettings | app/src/main/java/com/tughi/aggregator/services/FeedUpdater.kt:50-62 | `onParsedFeed` overwrites title, link and language, sets the update time to now, and keeps the URL, custom title, update mode and next update time |
| FeedUpdater.Store.constructor | app/src/main/java/com/tughi/aggregator/services/FeedUpdater.kt:68-122 | a store with the given feeds and no entries |
| FeedUpdater.Store.OnParsedEntry | app/src/main/java/com/tughi/aggregator/services/FeedUpdater.kt:68-122 | the new entries, next id and outcome are those of `Ingest`; one entry per key is kept |
| FeedUpdater.Store.OnParsedFeed | app/src/main/java/com/tughi/aggregator/services/FeedUpdater.kt:50-62 | the feed's row is replaced by the refreshed one and 1 is returned; an unknown id changes nothing and returns 0 |

## Findings

| source | as written | input that shows it | evidently intended | confidence | as-written member | corrected member |
|---|---|---|---|---|---|---|
| app/src/main/java/com/tughi/aggregator/data/UpdateModes.kt:13 | `value.split(':', limit = 1)` never splits, so the parameters are always null | `"REPEATING:30"`, the serial form of `Repeating(30)`, deserialises to `Disabled` | `limit = 2`, so the minutes after the colon are read back | not executed | UpdateModes.RepeatingRoundTripFailsAsWritten | UpdateModes.RoundTrip |

`UpdateModes.DeserializeAsWritten` and `UpdateModes.Repeating30AsWritten` also model the code as written; the corrected `UpdateModes.Deserialize` is the one `Feeds.UpdateModeCriteriaReadsBack` uses.

## Left out

- SQL text, cursors and SQLite itself are not modelled. The model works on sequences of rows. Insert ids, affected counts and query results are parameters or functions of the rows.
- The schema and its migrations (Database.kt:32-164) are left out, except the built-in tags and the `(feed_id, uid)` key of `entry`, which the upsert map stands for.
- FTS `MATCH` over `entry_fts`, used by the My Feed and tag listings, is left out: the set of matching entry ids is a parameter.
- The ORDER BY of entry listings (`SortOrder`'s SQL text), the `GROUP BY` of tag queries and `Query.Builder` are left out. `Query.kt` is not part of this model, and row order is only kept where the code sorts in Kotlin-visible terms: visible tags, and the choice of `AllCriteria`'s order column.
- Tags.VisibleTags: assumes the criteria's `orderBy` replaces the helper's default `t.name` order.
- Entries.MarkAllRead: `markRead(criteria)` throws for a criteria class other than the three in `Entries.kt`. The model's criteria type is closed, so that branch cannot be reached.
- Entries.PublishedCount: the count is unbounded. The cursor's `getInt` 32-bit read is not modelled.
- Concurrency is left out: `synchronized` blocks, `GlobalScope.launch`, `postValue` and the background refresh of a live query.
- The garbage collector is left out. A `WeakReference` becoming null is the explicit `Storage.Database.Reclaim` step.
- Storage.Database.SetTransactionSuccessful: requires only an open transaction. SQLite's error when it is called twice at the same level is not modelled.
- `beginTransaction`'s choice between WAL and exclusive mode is a locking concern and is not modelled.
- Storage.Database.LiveQuery: registers the observers and returns the listener id. The query the observer re-runs, and its `LiveData`, are not modelled.
- Clocks, `java.util.Calendar` and time zones are inputs: `now` and local midnight.
- The entry counts the scheduler reads through the DAO are inputs (`FeedHistory`).
- `JobScheduler` is left out: `Schedule` returns the latency it would request.
- AutoUpdateScheduler.NextUpdateTime: `Long` overflow of epoch milliseconds is not modelled, because the integers are unbounded.
- AutoUpdateScheduler.NextUpdateTime: requires a configured default other than `Default` itself when the mode is `Default`. With `Default` as the default, `calculateNextUpdateTime` calls itself without end and overflows the stack; the model does not describe that failure.
- AutoUpdateScheduler.ScheduleFeeds: models only the per-feed writes. The begin/set-successful/end transaction around them and the `schedule()` call after them are not modelled.
- AutoUpdateScheduler.NextRepeatingUpdateTime: requires one of the nine period lengths the scheduler's modes define (15 minutes to 8 hours).
- UpdateModes.ParseInt: accepts ASCII digits only. Kotlin's `toInt` also accepts other Unicode decimal digits.
- HTTP fetching, XML parsing and the `doAsync` fan-out of the feed updater are left out.
- FeedUpdater.Store.OnParsedEntry: runs without the Room transaction around it. That transaction belongs to a different database object from the invalidation engine and is not modelled.
- FeedUpdater.Refreshed: the Room `Entry`/`Feed` entity classes are not part of this model. Their `updated` helpers are taken to copy the row with the changed fields. The feed's `updateTime` is taken to be `last_update_time`.
- FeedUpdater.Store.OnParsedFeed: takes a snapshot of the feed as read before parsing, and overwrites the stored row with that snapshot refreshed.
- Feeds.Query: the projection map and the row factory are left out; a row is returned whole.
- Feeds.kt reads the older `feeds` table through an older storage object. The model uses one set of feed rows.
