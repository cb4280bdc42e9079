/**
 * The table-invalidation engine of the `Database` object (Database.kt): writes
 * mark their table dirty when they affected rows, transactions buffer the
 * dirty marks, and dirty tables notify the live queries observing them.
 *
 * SQLite itself is not modelled: each write carries the row id or the
 * affected-row count SQLite reported, and a live query's weak reference is
 * an explicit `alive` flag.
 */
module Storage {
  import opened Common

  /** A `TableObserver`: the observed table, the live query it serves, and whether that query is still reachable. */
  datatype Observer = Observer(table: string, listener: nat, alive: bool)

  /** One `onInvalidated()` call on a live query. */
  datatype Notification = Notification(listener: nat, table: string)

  /** A write primitive, with what SQLite returned for it. */
  datatype Write =
    | Insert(table: string, rowId: int)
    | Replace(table: string, rowId: int)
    | Update(table: string, affected: int)
    | Delete(table: string, affected: int)

  /** Whether a write marks its table dirty: a row id other than -1, or at least one affected row. */
  predicate Dirties(w: Write) {
    match w
    case Insert(_, rowId) => rowId != -1
    case Replace(_, rowId) => rowId != -1
    case Update(_, affected) => affected > 0
    case Delete(_, affected) => affected > 0
  }

  /** What the write primitive returns to its caller. */
  function WriteResult(w: Write): (r: int)
    ensures w.Insert? ==> r == w.rowId
    ensures w.Replace? ==> (r == 1 <==> w.rowId != -1) && (r == 0 <==> w.rowId == -1)
    ensures w.Update? || w.Delete? ==> r == w.affected
  {
    match w
    case Insert(_, rowId) => rowId
    case Replace(_, rowId) => if rowId != -1 then 1 else 0
    case Update(_, affected) => affected
    case Delete(_, affected) => affected
  }

  // ---------------------------------------------------------------------
  // Observer registry
  // ---------------------------------------------------------------------

  /** The notifications one invalidation of `table` sends: one per live observer of it, in registry order. */
  function Notified(obs: seq<Observer>, table: string): seq<Notification> {
    if obs == [] then []
    else
      var o := obs[|obs| - 1];
      Notified(obs[..|obs| - 1], table) + (if o.table == table && o.alive then [Notification(o.listener, table)] else [])
  }

  /** The registry after an invalidation of `table` removed the vanished observers of that table. */
  function Pruned(obs: seq<Observer>, table: string): seq<Observer> {
    if obs == [] then []
    else
      var o := obs[|obs| - 1];
      Pruned(obs[..|obs| - 1], table) + (if o.table == table && !o.alive then [] else [o])
  }

  /** The observers of one table, in registry order. */
  function OfTable(obs: seq<Observer>, table: string): seq<Observer> {
    if obs == [] then []
    else
      var o := obs[|obs| - 1];
      OfTable(obs[..|obs| - 1], table) + (if o.table == table then [o] else [])
  }

  /** The live observers of one table, in registry order. */
  function AliveOf(obs: seq<Observer>, table: string): seq<Observer> {
    if obs == [] then []
    else
      var o := obs[|obs| - 1];
      AliveOf(obs[..|obs| - 1], table) + (if o.table == table && o.alive then [o] else [])
  }

  /** The registry after invalidating each of `tables` in turn. */
  function PrunedAll(obs: seq<Observer>, tables: seq<string>): seq<Observer> {
    if tables == [] then obs
    else Pruned(PrunedAll(obs, tables[..|tables| - 1]), tables[|tables| - 1])
  }

  /** The notifications of invalidating each of `tables` in turn. */
  function FlushLog(obs: seq<Observer>, tables: seq<string>): seq<Notification> {
    if tables == [] then []
    else
      var prefix := tables[..|tables| - 1];
      FlushLog(obs, prefix) + Notified(PrunedAll(obs, prefix), tables[|tables| - 1])
  }

  /** The notifications of a log that concern one table. */
  function NotesFor(log: seq<Notification>, table: string): seq<Notification> {
    if log == [] then []
    else
      NotesFor(log[..|log| - 1], table) + (if log[|log| - 1].table == table then [log[|log| - 1]] else [])
  }

  /** The registrations `liveQuery` adds: one live observer per observed table. */
  function Registrations(tables: seq<string>, listener: nat): (obs: seq<Observer>)
    ensures |obs| == |tables|
    ensures forall i :: 0 <= i < |tables| ==> obs[i] == Observer(tables[i], listener, true)
  {
    seq(|tables|, i requires 0 <= i < |tables| => Observer(tables[i], listener, true))
  }

  /** The registry once a live query has been reclaimed: its observers are no longer alive. */
  function Released(obs: seq<Observer>, listener: nat): (r: seq<Observer>)
    ensures |r| == |obs|
    ensures forall i :: 0 <= i < |obs| ==>
              r[i] == if obs[i].listener == listener then obs[i].(alive := false) else obs[i]
  {
    seq(|obs|, i requires 0 <= i < |obs| => if obs[i].listener == listener then obs[i].(alive := false) else obs[i])
  }

  /** The buffer of dirty tables after marking `table` (a set: duplicates collapse). */
  function Buffered(buffer: seq<string>, table: string): (r: seq<string>)
    ensures table in r
    ensures forall t :: t in r <==> t in buffer || t == table
  {
    if table in buffer then buffer else buffer + [table]
  }

  /** The tables that a sequence of writes marks dirty, in order, with repetitions. */
  function DirtyTables(writes: seq<Write>): (tables: seq<string>)
    ensures forall t :: t in tables <==> exists i :: 0 <= i < |writes| && Dirties(writes[i]) && writes[i].table == t
  {
    if writes == [] then []
    else
      var w := writes[|writes| - 1];
      assert writes == writes[..|writes| - 1] + [w];
      DirtyTables(writes[..|writes| - 1]) + (if Dirties(w) then [w.table] else [])
  }

  /** Marking each of `tables` in turn. */
  function BufferedAll(buffer: seq<string>, tables: seq<string>): (r: seq<string>)
    ensures forall t :: t in r <==> t in buffer || t in tables
  {
    if tables == [] then buffer
    else Buffered(BufferedAll(buffer, tables[..|tables| - 1]), tables[|tables| - 1])
  }

  // ---------------------------------------------------------------------
  // The engine's state and transitions
  // ---------------------------------------------------------------------

  /**
   * The engine's state: one success mark per open transaction level
   * (outermost first), whether an inner level already ended unsuccessfully,
   * the outcome of every outermost transaction (committed or rolled back),
   * the buffered dirty tables, the observer registry, every notification
   * sent so far, and how many live queries were created.
   */
  datatype DbState = DbState(
    marks: seq<bool>,
    rollbackOnly: bool,
    commits: seq<bool>,
    invalidated: seq<string>,
    observers: seq<Observer>,
    log: seq<Notification>,
    listeners: nat)

  /** No transaction, no buffered table, no observer, nothing logged. */
  function Initial(): DbState {
    DbState([], false, [], [], [], [], 0)
  }

  /** The invariant of the engine. */
  ghost predicate Consistent(s: DbState) {
    && NoDuplicates(s.invalidated)
    && (s.marks == [] ==> s.invalidated == [] && !s.rollbackOnly)
    && forall o :: o in s.observers ==> o.listener < s.listeners
  }

  predicate InTransaction(s: DbState) {
    s.marks != []
  }

  /** `invalidateTable`: buffer the table inside a transaction, otherwise notify and prune. */
  function Invalidate(s: DbState, table: string): (r: DbState)
    ensures r.marks == s.marks && r.rollbackOnly == s.rollbackOnly
    ensures r.commits == s.commits && r.listeners == s.listeners
  {
    if InTransaction(s) then s.(invalidated := Buffered(s.invalidated, table))
    else s.(log := s.log + Notified(s.observers, table), observers := Pruned(s.observers, table))
  }

  /** `insert`, `replace`, `update` or `delete`: invalidate the table only when the write took effect. */
  function PerformOne(s: DbState, w: Write): DbState {
    if Dirties(w) then Invalidate(s, w.table) else s
  }

  function PerformAll(s: DbState, writes: seq<Write>): (r: DbState)
    ensures r.marks == s.marks && r.rollbackOnly == s.rollbackOnly
    ensures r.commits == s.commits && r.listeners == s.listeners
  {
    if writes == [] then s
    else PerformOne(PerformAll(s, writes[..|writes| - 1]), writes[|writes| - 1])
  }

  function Begin(s: DbState): DbState {
    s.(marks := s.marks + [false])
  }

  function MarkSuccessful(s: DbState): DbState
    requires InTransaction(s)
  {
    s.(marks := s.marks[..|s.marks| - 1] + [true])
  }

  /**
   * `endTransaction`: close the innermost level; when it was the outermost,
   * record whether the transaction committed and invalidate every buffered
   * table once, committed or not.
   */
  function End(s: DbState): DbState
    requires InTransaction(s)
  {
    var rest := s.marks[..|s.marks| - 1];
    var doomed := s.rollbackOnly || !s.marks[|s.marks| - 1];
    if rest != [] then s.(marks := rest, rollbackOnly := doomed)
    else
      s.(marks := [], rollbackOnly := false, commits := s.commits + [!doomed], invalidated := [],
         log := s.log + FlushLog(s.observers, s.invalidated),
         observers := PrunedAll(s.observers, s.invalidated))
  }

  /** `transaction(body)`: the body's writes, then success unless it threw, then `endTransaction`. */
  function RunTransaction(s: DbState, body: seq<Write>, throws: bool): DbState {
    var afterBody := PerformAll(Begin(s), body);
    End(if throws then afterBody else MarkSuccessful(afterBody))
  }

  /** `liveQuery`: a new live query observing each of `tables`. */
  function Register(s: DbState, tables: seq<string>): DbState {
    s.(observers := s.observers + Registrations(tables, s.listeners), listeners := s.listeners + 1)
  }

  // ---------------------------------------------------------------------
  // Properties of the registry
  // ---------------------------------------------------------------------

  /** The notifications of one invalidation are exactly one per live observer of the table, in order. */
  lemma {:induction false} NotifiedMatchesAlive(obs: seq<Observer>, table: string)
    ensures |Notified(obs, table)| == |AliveOf(obs, table)|
    ensures forall i :: 0 <= i < |AliveOf(obs, table)| ==>
              Notified(obs, table)[i] == Notification(AliveOf(obs, table)[i].listener, table)
  {
    if obs != [] {
      NotifiedMatchesAlive(obs[..|obs| - 1], table);
    }
  }

  /** The live observers of a table are those registered for it and alive. */
  lemma {:induction false} AliveOfMembers(obs: seq<Observer>, table: string)
    ensures forall o :: o in AliveOf(obs, table) <==> o in obs && o.table == table && o.alive
  {
    if obs != [] {
      var p := obs[..|obs| - 1];
      AliveOfMembers(p, table);
      assert obs == p + [obs[|obs| - 1]];
    }
  }

  /** Pruning removes exactly the vanished observers of the invalidated table. */
  lemma {:induction false} PrunedMembers(obs: seq<Observer>, table: string)
    ensures forall o :: o in Pruned(obs, table) <==> o in obs && (o.table != table || o.alive)
  {
    if obs != [] {
      var p := obs[..|obs| - 1];
      PrunedMembers(p, table);
      assert obs == p + [obs[|obs| - 1]];
    }
  }

  /** Pruning one table leaves the observers of every other table as they were, in order. */
  lemma {:induction false} PrunedKeepsOtherTables(obs: seq<Observer>, table: string, other: string)
    requires other != table
    ensures OfTable(Pruned(obs, table), other) == OfTable(obs, other)
  {
    if obs != [] {
      var p := obs[..|obs| - 1];
      var o := obs[|obs| - 1];
      PrunedKeepsOtherTables(p, table, other);
      OfTableAppend(Pruned(p, table), if o.table == table && !o.alive then [] else [o], other);
    }
  }

  /** Pruning keeps the live observers of the invalidated table, in order, and drops its dead ones. */
  lemma {:induction false} PrunedKeepsAlive(obs: seq<Observer>, table: string)
    ensures OfTable(Pruned(obs, table), table) == AliveOf(obs, table)
  {
    if obs != [] {
      var p := obs[..|obs| - 1];
      var o := obs[|obs| - 1];
      PrunedKeepsAlive(p, table);
      OfTableAppend(Pruned(p, table), if o.table == table && !o.alive then [] else [o], table);
    }
  }

  lemma {:induction false} OfTableAppend(a: seq<Observer>, b: seq<Observer>, table: string)
    requires |b| <= 1
    ensures OfTable(a + b, table) == OfTable(a, table) + OfTable(b, table)
  {
    if b != [] {
      assert (a + b)[..|a + b| - 1] == a;
      assert OfTable(b, table) == OfTable([], table) + (if b[0].table == table then [b[0]] else []);
    } else {
      assert a + b == a;
    }
  }

  /** Removing vanished observers never changes who is notified next time. */
  lemma {:induction false} NotifiedIgnoresPruning(obs: seq<Observer>, pruned: string, table: string)
    ensures Notified(Pruned(obs, pruned), table) == Notified(obs, table)
  {
    if obs != [] {
      var p := obs[..|obs| - 1];
      var o := obs[|obs| - 1];
      NotifiedIgnoresPruning(p, pruned, table);
      var kept := if o.table == pruned && !o.alive then [] else [o];
      NotifiedAppend(Pruned(p, pruned), kept, table);
      if kept != [] {
        assert Notified(kept, table) == Notified([], table) + (if o.table == table && o.alive then [Notification(o.listener, table)] else []);
      }
    }
  }

  lemma {:induction false} NotifiedIgnoresPruningAll(obs: seq<Observer>, pruned: seq<string>, table: string)
    ensures Notified(PrunedAll(obs, pruned), table) == Notified(obs, table)
  {
    if pruned != [] {
      NotifiedIgnoresPruningAll(obs, pruned[..|pruned| - 1], table);
      NotifiedIgnoresPruning(PrunedAll(obs, pruned[..|pruned| - 1]), pruned[|pruned| - 1], table);
    }
  }

  lemma {:induction false} NotifiedAppend(a: seq<Observer>, b: seq<Observer>, table: string)
    requires |b| <= 1
    ensures Notified(a + b, table) == Notified(a, table) + Notified(b, table)
  {
    if b != [] {
      assert (a + b)[..|a + b| - 1] == a;
    } else {
      assert a + b == a;
    }
  }

  lemma {:induction false} NotifiedIsForTable(obs: seq<Observer>, table: string)
    ensures forall i :: 0 <= i < |Notified(obs, table)| ==> Notified(obs, table)[i].table == table
  {
    if obs != [] {
      NotifiedIsForTable(obs[..|obs| - 1], table);
    }
  }

  lemma {:induction false} NotesForAppend(a: seq<Notification>, b: seq<Notification>, table: string)
    ensures NotesFor(a + b, table) == NotesFor(a, table) + NotesFor(b, table)
    decreases |b|
  {
    if b == [] {
      assert a + b == a;
    } else {
      var b' := b[..|b| - 1];
      assert (a + b)[..|a + b| - 1] == a + b';
      NotesForAppend(a, b', table);
    }
  }

  /** Filtering the notifications of one invalidation by table. */
  lemma {:induction false} NotesForNotified(obs: seq<Observer>, t: string, table: string)
    ensures NotesFor(Notified(obs, t), table) == if t == table then Notified(obs, t) else []
  {
    if obs != [] {
      var p := obs[..|obs| - 1];
      var o := obs[|obs| - 1];
      var n := if o.table == t && o.alive then [Notification(o.listener, t)] else [];
      NotesForNotified(p, t, table);
      NotesForAppend(Notified(p, t), n, table);
      if n != [] {
        assert NotesFor(n, table) == NotesFor([], table) + (if n[0].table == table then [n[0]] else []);
      }
    }
  }

  /**
   * Flushing a buffer without duplicates notifies the live observers of each
   * buffered table exactly once, and nobody for a table not in the buffer.
   */
  lemma {:induction false} FlushNotifiesEachTableOnce(obs: seq<Observer>, tables: seq<string>, table: string)
    requires NoDuplicates(tables)
    ensures NotesFor(FlushLog(obs, tables), table) == if table in tables then Notified(obs, table) else []
  {
    if tables != [] {
      var prefix := tables[..|tables| - 1];
      var last := tables[|tables| - 1];
      assert tables == prefix + [last];
      FlushNotifiesEachTableOnce(obs, prefix, table);
      NotesForAppend(FlushLog(obs, prefix), Notified(PrunedAll(obs, prefix), last), table);
      NotifiedIgnoresPruningAll(obs, prefix, last);
      NotesForNotified(obs, last, table);
      if table == last {
        assert table !in prefix;
      }
    }
  }

  // ---------------------------------------------------------------------
  // Properties of the transitions
  // ---------------------------------------------------------------------

  /** Inside a transaction a write only buffers its table: nobody is notified, nothing is pruned. */
  lemma InvalidateInTransaction(s: DbState, table: string)
    requires Consistent(s) && InTransaction(s)
    ensures Invalidate(s, table).log == s.log && Invalidate(s, table).observers == s.observers
    ensures forall t :: t in Invalidate(s, table).invalidated <==> t in s.invalidated || t == table
    ensures Consistent(Invalidate(s, table))
  {
  }

  /** A write that affected nothing (row id -1, or no row) changes nothing. */
  lemma IneffectiveWriteChangesNothing(s: DbState, w: Write)
    requires !Dirties(w)
    ensures PerformOne(s, w) == s
  {
  }

  /** Inside a transaction, a body of writes only adds its dirty tables to the buffer. */
  lemma {:induction false} PerformAllInTransaction(s: DbState, writes: seq<Write>)
    requires Consistent(s) && InTransaction(s)
    ensures PerformAll(s, writes) == s.(invalidated := BufferedAll(s.invalidated, DirtyTables(writes)))
    ensures Consistent(PerformAll(s, writes))
  {
    if writes != [] {
      var p := writes[..|writes| - 1];
      var w := writes[|writes| - 1];
      PerformAllInTransaction(s, p);
      InvalidateInTransaction(PerformAll(s, p), w.table);
      BufferedAllAppend(s.invalidated, DirtyTables(p), if Dirties(w) then [w.table] else []);
    }
  }

  lemma BufferedAllAppend(buffer: seq<string>, a: seq<string>, b: seq<string>)
    requires |b| <= 1
    ensures BufferedAll(buffer, a + b) == if b == [] then BufferedAll(buffer, a) else Buffered(BufferedAll(buffer, a), b[0])
  {
    if b == [] {
      assert a + b == a;
    } else {
      assert (a + b)[..|a + b| - 1] == a;
    }
  }

  /**
   * `transaction(body)` started outside any transaction: every table the body
   * made dirty is invalidated once when it ends, and the outcome is recorded
   * as committed exactly when the body did not throw. The buffered marks are
   * flushed on rollback too.
   */
  lemma TransactionFromIdle(s: DbState, body: seq<Write>, throws: bool)
    requires Consistent(s) && !InTransaction(s)
    ensures var dirty := BufferedAll([], DirtyTables(body));
            RunTransaction(s, body, throws)
              == s.(commits := s.commits + [!throws],
                    log := s.log + FlushLog(s.observers, dirty),
                    observers := PrunedAll(s.observers, dirty))
  {
    var b := Begin(s);
    assert Consistent(b);
    PerformAllInTransaction(b, body);
  }

  /**
   * Seen from one table: after an outermost transaction the table's
   * observers have been notified once more exactly when some write of the
   * body affected it, whether the body threw or not.
   */
  lemma TransactionNotifiesDirtyTablesOnce(s: DbState, body: seq<Write>, throws: bool, t: string)
    requires Consistent(s) && !InTransaction(s)
    ensures NotesFor(RunTransaction(s, body, throws).log, t)
              == NotesFor(s.log, t) + (if t in DirtyTables(body) then Notified(s.observers, t) else [])
  {
    var dirty := BufferedAll([], DirtyTables(body));
    TransactionFromIdle(s, body, throws);
    BufferedAllNoDuplicates([], DirtyTables(body));
    FlushNotifiesEachTableOnce(s.observers, dirty, t);
    NotesForAppend(s.log, FlushLog(s.observers, dirty), t);
  }

  /** A transaction whose body throws still notifies the observers of the tables it wrote. */
  lemma RolledBackTransactionStillNotifies(s: DbState, table: string, listener: nat)
    requires Consistent(s) && !InTransaction(s)
    requires Observer(table, listener, true) in s.observers
    ensures RunTransaction(s, [Update(table, 1)], true).commits == s.commits + [false]
    ensures Notification(listener, table) in RunTransaction(s, [Update(table, 1)], true).log
  {
    var body := [Update(table, 1)];
    assert DirtyTables(body) == [table];
    assert BufferedAll([], [table]) == [table];
    assert FlushLog(s.observers, [table]) == Notified(s.observers, table);
    TransactionFromIdle(s, body, true);
    var r := RunTransaction(s, body, true);
    assert r.log == s.log + Notified(s.observers, table);
    AliveObserverIsNotified(s.observers, Observer(table, listener, true));
  }

  /** A live observer is notified when its table is invalidated. */
  lemma AliveObserverIsNotified(obs: seq<Observer>, o: Observer)
    requires o in obs && o.alive
    ensures Notification(o.listener, o.table) in Notified(obs, o.table)
  {
    AliveOfMembers(obs, o.table);
    NotifiedMatchesAlive(obs, o.table);
    var k :| 0 <= k < |AliveOf(obs, o.table)| && AliveOf(obs, o.table)[k] == o;
    assert Notified(obs, o.table)[k] == Notification(o.listener, o.table);
  }

  /** A live query is notified by the next write, outside a transaction, to any table it observes. */
  lemma LiveQueryIsNotified(s: DbState, tables: seq<string>, table: string)
    requires !InTransaction(s) && table in tables
    ensures Notification(s.listeners, table) in Invalidate(Register(s, tables), table).log
  {
    var obs := Register(s, tables).observers;
    var i :| 0 <= i < |tables| && tables[i] == table;
    assert obs[|s.observers| + i] == Observer(table, s.listeners, true);
    AliveObserverIsNotified(obs, Observer(table, s.listeners, true));
  }

  /** A reclaimed live query is never notified again. */
  lemma ReclaimedQueryIsNotNotified(obs: seq<Observer>, listener: nat, table: string)
    ensures forall n :: n in Notified(Released(obs, listener), table) ==> n.listener != listener
  {
    var r := Released(obs, listener);
    NotifiedMatchesAlive(r, table);
    AliveOfMembers(r, table);
    forall n | n in Notified(r, table) ensures n.listener != listener {
      var k :| 0 <= k < |Notified(r, table)| && Notified(r, table)[k] == n;
      var o := AliveOf(r, table)[k];
      assert o in AliveOf(r, table);
      var j :| 0 <= j < |r| && r[j] == o;
    }
  }

  /** Invalidating a table drops the observers of that table whose query was reclaimed. */
  lemma ReclaimedObserversArePruned(obs: seq<Observer>, listener: nat, table: string)
    ensures forall o :: o in Pruned(Released(obs, listener), table) && o.table == table ==> o.listener != listener
  {
    var r := Released(obs, listener);
    PrunedMembers(r, table);
    forall o | o in Pruned(r, table) && o.table == table ensures o.listener != listener {
      var j :| 0 <= j < |r| && r[j] == o;
    }
  }

  lemma BufferedAllNoDuplicates(buffer: seq<string>, tables: seq<string>)
    requires NoDuplicates(buffer)
    ensures NoDuplicates(BufferedAll(buffer, tables))
  {
    if tables != [] {
      BufferedAllNoDuplicates(buffer, tables[..|tables| - 1]);
    }
  }

  lemma {:induction false} PrunedSubset(obs: seq<Observer>, table: string)
    ensures forall o :: o in Pruned(obs, table) ==> o in obs
  {
    PrunedMembers(obs, table);
  }

  lemma {:induction false} PrunedAllSubset(obs: seq<Observer>, tables: seq<string>)
    ensures forall o :: o in PrunedAll(obs, tables) ==> o in obs
  {
    if tables != [] {
      PrunedAllSubset(obs, tables[..|tables| - 1]);
      PrunedSubset(PrunedAll(obs, tables[..|tables| - 1]), tables[|tables| - 1]);
    }
  }

  /**
   * The notify loop of `invalidateTable`: one notification per live observer
   * of the table, and the positions of its vanished observers.
   */
  method NotifyObservers(obs: seq<Observer>, table: string) returns (notes: seq<Notification>, vanished: set<nat>)
    ensures notes == Notified(obs, table)
    ensures forall j: nat :: j in vanished <==> j < |obs| && obs[j].table == table && !obs[j].alive
  {
    notes := [];
    vanished := {};
    var i := 0;
    while i < |obs|
      invariant 0 <= i <= |obs|
      invariant notes == Notified(obs[..i], table)
      invariant forall j: nat :: j in vanished <==> j < i && obs[j].table == table && !obs[j].alive
    {
      var o := obs[i];
      assert obs[..i + 1][..i] == obs[..i];
      if o.table == table {
        if o.alive {
          notes := notes + [Notification(o.listener, table)];
        } else {
          vanished := vanished + {i};
        }
      }
      i := i + 1;
    }
    assert obs[..i] == obs;
  }

  /** The removal loop of `invalidateTable`: drop the vanished observers, keep the rest in order. */
  method RemoveVanished(obs: seq<Observer>, table: string, vanished: set<nat>) returns (kept: seq<Observer>)
    requires forall j: nat :: j in vanished <==> j < |obs| && obs[j].table == table && !obs[j].alive
    ensures kept == Pruned(obs, table)
  {
    kept := [];
    var j := 0;
    while j < |obs|
      invariant 0 <= j <= |obs|
      invariant kept == Pruned(obs[..j], table)
    {
      assert obs[..j + 1][..j] == obs[..j];
      if j !in vanished {
        kept := kept + [obs[j]];
      }
      j := j + 1;
    }
    assert obs[..j] == obs;
  }

  // ---------------------------------------------------------------------
  // The Database object
  // ---------------------------------------------------------------------

  /** The `Database` object: its transaction state, buffer and observer registry. */
  class Database {
    var marks: seq<bool>
    var rollbackOnly: bool
    var commits: seq<bool>
    var invalidated: seq<string>
    var observers: seq<Observer>
    var log: seq<Notification>
    var listeners: nat

    function State(): DbState
      reads this
    {
      DbState(marks, rollbackOnly, commits, invalidated, observers, log, listeners)
    }

    ghost predicate Valid()
      reads this
    {
      Consistent(State())
    }

    constructor ()
      ensures Valid() && State() == Initial()
    {
      marks, rollbackOnly, commits, invalidated := [], false, [], [];
      observers, log, listeners := [], [], 0;
    }

    /** `invalidateTable(table)`. */
    method InvalidateTable(table: string)
      requires Valid()
      modifies this
      ensures Valid() && State() == Invalidate(old(State()), table)
    {
      if marks != [] {
        if table !in invalidated {
          invalidated := invalidated + [table];
        }
        return;
      }
      if |observers| > 0 {
        var notes, vanished := NotifyObservers(observers, table);
        var kept := RemoveVanished(observers, table, vanished);
        PrunedSubset(observers, table);
        log := log + notes;
        observers := kept;
      }
    }

    /** `insert(table, values)`: `rowId` is what SQLite returned. */
    method Insert(table: string, rowId: int) returns (id: int)
      requires Valid()
      modifies this
      ensures Valid() && State() == PerformOne(old(State()), Write.Insert(table, rowId))
      ensures id == rowId
    {
      if rowId != -1 {
        InvalidateTable(table);
      }
      id := rowId;
    }

    /** `replace(table, values)`: 1 when the underlying insert produced a row, 0 otherwise. */
    method Replace(table: string, rowId: int) returns (n: int)
      requires Valid()
      modifies this
      ensures Valid() && State() == PerformOne(old(State()), Write.Replace(table, rowId))
      ensures n == WriteResult(Write.Replace(table, rowId))
    {
      var id := Insert(table, rowId);
      n := if id != -1 then 1 else 0;
    }

    /** `update(table, values, selection, args)`: `affected` is SQLite's row count. */
    method Update(table: string, affected: int) returns (n: int)
      requires Valid()
      modifies this
      ensures Valid() && State() == PerformOne(old(State()), Write.Update(table, affected))
      ensures n == affected
    {
      if affected > 0 {
        InvalidateTable(table);
      }
      n := affected;
    }

    /** `delete(table, selection, args)`: `affected` is SQLite's row count. */
    method Delete(table: string, affected: int) returns (n: int)
      requires Valid()
      modifies this
      ensures Valid() && State() == PerformOne(old(State()), Write.Delete(table, affected))
      ensures n == affected
    {
      if affected > 0 {
        InvalidateTable(table);
      }
      n := affected;
    }

    method BeginTransaction()
      requires Valid()
      modifies this
      ensures Valid() && State() == Begin(old(State()))
    {
      marks := marks + [false];
    }

    method SetTransactionSuccessful()
      requires Valid() && marks != []
      modifies this
      ensures Valid() && State() == MarkSuccessful(old(State()))
    {
      marks := marks[..|marks| - 1] + [true];
    }

    /** `endTransaction()`: after the outermost level, invalidate each buffered table and clear the buffer. */
    method EndTransaction()
      requires Valid() && marks != []
      modifies this
      ensures Valid() && State() == End(old(State()))
    {
      var doomed := rollbackOnly || !marks[|marks| - 1];
      marks := marks[..|marks| - 1];
      if marks != [] {
        rollbackOnly := doomed;
        return;
      }
      commits := commits + [!doomed];
      rollbackOnly := false;
      // The buffer is taken and emptied before it is replayed; replaying
      // outside a transaction never touches it.
      var tables := invalidated;
      invalidated := [];
      Flush(tables);
    }

    /** Invalidate each of `tables` in turn, outside any transaction. */
    method Flush(tables: seq<string>)
      requires Valid() && marks == []
      modifies this
      ensures Valid()
      ensures State() == old(State()).(log := old(log) + FlushLog(old(observers), tables),
                                       observers := PrunedAll(old(observers), tables))
    {
      var k := 0;
      while k < |tables|
        invariant 0 <= k <= |tables|
        invariant Valid()
        invariant State() == old(State()).(log := old(log) + FlushLog(old(observers), tables[..k]),
                                           observers := PrunedAll(old(observers), tables[..k]))
      {
        assert tables[..k + 1][..k] == tables[..k];
        InvalidateTable(tables[k]);
        k := k + 1;
      }
      assert tables[..k] == tables;
    }

    /** One write primitive. */
    method Apply(w: Write) returns (n: int)
      requires Valid()
      modifies this
      ensures Valid() && State() == PerformOne(old(State()), w)
      ensures n == WriteResult(w)
    {
      match w
      case Insert(table, rowId) => n := Insert(table, rowId);
      case Replace(table, rowId) => n := Replace(table, rowId);
      case Update(table, affected) => n := Update(table, affected);
      case Delete(table, affected) => n := Delete(table, affected);
    }

    /**
     * `transaction(body)`: the body performs `body` and then throws when
     * `throws` holds; success is marked only when it returned normally, and
     * the transaction is always ended.
     */
    method Transaction(body: seq<Write>, throws: bool) returns (results: seq<int>)
      requires Valid()
      modifies this
      ensures Valid() && State() == RunTransaction(old(State()), body, throws)
      ensures |results| == |body| && forall i :: 0 <= i < |body| ==> results[i] == WriteResult(body[i])
    {
      BeginTransaction();
      ghost var start := State();
      results := [];
      var i := 0;
      while i < |body|
        invariant 0 <= i <= |body|
        invariant Valid() && marks != []
        invariant State() == PerformAll(start, body[..i])
        invariant |results| == i && forall j :: 0 <= j < i ==> results[j] == WriteResult(body[j])
      {
        assert body[..i + 1][..i] == body[..i];
        var n := Apply(body[i]);
        results := results + [n];
        i := i + 1;
      }
      assert body[..i] == body;
      if !throws {
        SetTransactionSuccessful();
      }
      EndTransaction();
    }

    /** `liveQuery(query, transform)`: register one observer per observed table; returns the new live query. */
    method LiveQuery(observedTables: seq<string>) returns (listener: nat)
      requires Valid()
      modifies this
      ensures Valid() && State() == Register(old(State()), observedTables)
      ensures listener == old(listeners)
    {
      listener := listeners;
      observers := observers + Registrations(observedTables, listener);
      listeners := listeners + 1;
    }

    /** The live query `listener` became unreachable: its weak references now read null. */
    method Reclaim(listener: nat)
      requires Valid()
      modifies this
      ensures Valid() && State() == old(State()).(observers := Released(old(observers), listener))
    {
      observers := Released(observers, listener);
    }
  }
}
