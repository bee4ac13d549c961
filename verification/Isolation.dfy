/** Many transactions writing rows in any interleaving, each write under exclusive locks that
    are kept until the end: rolling one back leaves what would be there without its writes. */
module Isolation {
  import opened Locks
  import opened LostRows
  import opened Rollbacks
  import opened Rows

  datatype Event =
    | Ask(txn: nat, resource: string, mode: LockMode)
    | Write(txn: nat, w: WriteRecord)
    | Commit(txn: nat)
    | Rollback(txn: nat)

  type Trace = seq<Event>

  function Front(es: Trace): Trace
    requires es != []
  {
    es[..|es| - 1]
  }

  function Last(es: Trace): Event
    requires es != []
  {
    es[|es| - 1]
  }

  /** A row is locked under the name of its table and its id, as in "users:1". */
  function Resource(table: string, k: string): string {
    table + ":" + k
  }

  // ----- what a run leaves behind -----

  function LogOf(es: Trace, t: nat): seq<WriteRecord> {
    if es == [] then []
    else LogOf(Front(es), t) + (if Last(es).Write? && Last(es).txn == t then [Last(es).w] else [])
  }

  function LocksAfter(es: Trace): LockTable {
    if es == [] then map[]
    else
      match Last(es)
      case Ask(t, r, mode) => Acquire(LocksAfter(Front(es)), t, r, mode)
      case Write(_, _) => LocksAfter(Front(es))
      case Commit(t) => ReleaseAll(LocksAfter(Front(es)), t)
      case Rollback(t) => ReleaseAll(LocksAfter(Front(es)), t)
  }

  function TablesAfter(start: Tables, es: Trace): Tables {
    if es == [] then start
    else
      var before := TablesAfter(start, Front(es));
      match Last(es)
      case Ask(_, _, _) => before
      case Write(_, w) => Apply(before, w)
      case Commit(_) => before
      case Rollback(t) => UndoAll(before, LogOf(Front(es), t))
  }

  predicate Finished(es: Trace, t: nat) {
    Commit(t) in es || Rollback(t) in es
  }

  // ----- the discipline -----

  ghost predicate Covers(locks: LockTable, t: nat, w: WriteRecord) {
    forall k :: Involves(w, k) ==> HoldsExclusive(locks, t, Resource(w.table, k))
  }

  ghost predicate AllCovered(locks: LockTable, t: nat, log: seq<WriteRecord>) {
    forall w :: w in log ==> Covers(locks, t, w)
  }

  /** A write that keeps ids present and unique, made under its locks. */
  ghost predicate Lawful(start: Tables, es: Trace, e: Event) {
    match e
    case Ask(_, _, _) => true
    case Write(t, w) =>
      && !Finished(es, t)
      && Fits(TablesAfter(start, es), w)
      && Covers(LocksAfter(es), t, w)
    case Commit(t) => !Finished(es, t)
    case Rollback(t) => !Finished(es, t)
  }

  ghost predicate Disciplined(start: Tables, es: Trace) {
    es == [] || (Disciplined(start, Front(es)) && Lawful(start, Front(es), Last(es)))
  }

  /** The same interleaving without t's writes. */
  function Without(es: Trace, t: nat): Trace {
    if es == [] then []
    else Without(Front(es), t) + (if Last(es).Write? && Last(es).txn == t then [] else [Last(es)])
  }

  // ----- leaving out writes changes no lock and no other log -----

  lemma FinishedStep(es: Trace, u: nat)
    requires es != []
    ensures Finished(es, u) <==> Finished(Front(es), u) || Last(es) == Commit(u) || Last(es) == Rollback(u)
  {
    assert es == Front(es) + [Last(es)];
  }

  lemma WithoutKept(es: Trace, t: nat)
    requires es != [] && !(Last(es).Write? && Last(es).txn == t)
    ensures Without(es, t) != [] && Front(Without(es, t)) == Without(Front(es), t) && Last(Without(es, t)) == Last(es)
  {
  }

  lemma {:induction false} WithoutFinished(es: Trace, t: nat, u: nat)
    ensures Finished(Without(es, t), u) <==> Finished(es, u)
    ensures |Without(es, t)| <= |es|
  {
    hide Finished;
    if es == [] {
    } else {
      WithoutFinished(Front(es), t, u);
      FinishedStep(es, u);
      if !(Last(es).Write? && Last(es).txn == t) {
        WithoutKept(es, t);
        FinishedStep(Without(es, t), u);
      } else {
        assert Without(es, t) == Without(Front(es), t);
      }
    }
  }

  lemma {:induction false} WithoutLog(es: Trace, t: nat, u: nat)
    requires t != u
    ensures LogOf(Without(es, t), u) == LogOf(es, u)
  {
    if es != [] {
      WithoutLog(Front(es), t, u);
      if !(Last(es).Write? && Last(es).txn == t) {
        WithoutKept(es, t);
      } else {
        assert Without(es, t) == Without(Front(es), t);
      }
    }
  }

  lemma {:induction false} WithoutLocks(es: Trace, t: nat)
    ensures LocksAfter(Without(es, t)) == LocksAfter(es)
  {
    hide Acquire, ReleaseAll;
    if es != [] {
      WithoutLocks(Front(es), t);
      if !(Last(es).Write? && Last(es).txn == t) {
        WithoutKept(es, t);
      } else {
        assert Without(es, t) == Without(Front(es), t);
      }
    }
  }

  // ----- locks held by a running transaction -----

  lemma {:induction false} LocksGuarded(es: Trace)
    ensures AllGuarded(LocksAfter(es))
  {
    if es != [] {
      LocksGuarded(Front(es));
      var before := LocksAfter(Front(es));
      match Last(es) {
        case Ask(t, r, mode) => AcquireKeepsGuarded(before, t, r, mode);
        case Write(_, _) =>
        case Commit(t) => ReleaseKeepsGuarded(before, t);
        case Rollback(t) => ReleaseKeepsGuarded(before, t);
      }
    }
  }

  lemma AcquireKeepsHeld(locks: LockTable, t: nat, resource: string, u: nat, r: string, mode: LockMode)
    requires HoldsExclusive(locks, t, resource)
    ensures HoldsExclusive(Acquire(locks, u, r, mode), t, resource)
  {
  }

  lemma StepKeepsHeld(es: Trace, t: nat, resource: string)
    requires es != [] && !Finished(es, t)
    requires HoldsExclusive(LocksAfter(Front(es)), t, resource)
    ensures HoldsExclusive(LocksAfter(es), t, resource)
  {
    var before := LocksAfter(Front(es));
    assert Last(es) in es;
    match Last(es) {
      case Ask(u, r, mode) => AcquireKeepsHeld(before, t, resource, u, r, mode);
      case Write(_, _) =>
      case Commit(u) => ReleaseMembers(before, u, resource);
      case Rollback(u) => ReleaseMembers(before, u, resource);
    }
  }

  /** A running transaction still holds the lock on every id it has written. */
  lemma {:induction false} LogCovered(start: Tables, es: Trace, t: nat)
    requires Disciplined(start, es) && !Finished(es, t)
    ensures AllCovered(LocksAfter(es), t, LogOf(es, t))
  {
    if es != [] {
      LogCovered(start, Front(es), t);
      forall w | w in LogOf(es, t) ensures Covers(LocksAfter(es), t, w) {
        if w in LogOf(Front(es), t) {
          forall k | Involves(w, k) ensures HoldsExclusive(LocksAfter(es), t, Resource(w.table, k)) {
            StepKeepsHeld(es, t, Resource(w.table, k));
          }
        }
      }
    }
  }

  // ----- writes under other locks commute -----

  ghost predicate Apart(v: WriteRecord, w: WriteRecord) {
    v.table == w.table ==> forall k :: Involves(v, k) ==> !Involves(w, k)
  }

  lemma LocksSetApart(locks: LockTable, t: nat, v: WriteRecord, u: nat, w: WriteRecord)
    requires AllGuarded(locks) && t != u && Covers(locks, t, v) && Covers(locks, u, w)
    ensures Apart(v, w)
  {
    if v.table == w.table {
      forall k | Involves(v, k) ensures !Involves(w, k) {
        assert Guarded(Entries(locks, Resource(v.table, k)));
      }
    }
  }

  /** What a write does or takes back is apart from the ids of the other. */
  lemma OpsApart(v: WriteRecord, w: WriteRecord)
    requires Apart(v, w) && WellLogged(v) && WellLogged(w)
    ensures OpApart(v, w.table, ApplyOp(w)) && OpApart(v, w.table, UndoOp(w))
  {
    forall k | v.table == w.table && Involves(v, k)
      ensures !Touches(ApplyOp(w), k) && !Touches(UndoOp(w), k)
    {
      assert !Involves(w, k);
    }
  }

  ghost predicate AllApart(log: seq<WriteRecord>, w: WriteRecord) {
    forall v :: v in log ==> WellLogged(v) && Apart(v, w)
  }

  lemma AllOpsApart(log: seq<WriteRecord>, w: WriteRecord)
    requires AllApart(log, w) && WellLogged(w)
    ensures AllOpApart(log, w.table, ApplyOp(w)) && AllOpApart(log, w.table, UndoOp(w))
  {
    hide WellLogged, Apart, OpApart;
    forall v | v in log
      ensures OpApart(v, w.table, ApplyOp(w)) && OpApart(v, w.table, UndoOp(w))
    {
      OpsApart(v, w);
    }
  }

  lemma LeavesWrite(tables: Tables, others: Tables, log: seq<WriteRecord>, w: WriteRecord)
    requires Leaves(tables, others, log) && w.table in tables && AllApart(log, w) && WellLogged(w)
    ensures Leaves(Apply(tables, w), Apply(others, w), log)
  {
    hide Leaves, AllApart, WellLogged, Apply, Do, AllOpApart;
    AllOpsApart(log, w);
    LeavesOp(tables, others, log, w.table, ApplyOp(w));
    ApplyIsDo(tables, w);
    ApplyIsDo(others, w);
  }

  /** Another rollback does the same beside the run without the log's writes. */
  lemma {:induction false} LeavesRollback(tables: Tables, others: Tables, log: seq<WriteRecord>, other: seq<WriteRecord>)
    requires Leaves(tables, others, log)
    requires forall w :: w in other ==> WellLogged(w) && AllApart(log, w) && w.table in tables
    ensures Leaves(UndoAll(tables, other), UndoAll(others, other), log)
    decreases |other|
  {
    hide Leaves, AllApart, WellLogged, Undo, Do, AllOpApart;
    if other != [] {
      var w := other[|other| - 1];
      AllOpsApart(log, w);
      LeavesOp(tables, others, log, w.table, UndoOp(w));
      ApplyIsDo(tables, w);
      ApplyIsDo(others, w);
      UndoKeys(tables, w);
      LeavesRollback(Undo(tables, w), Undo(others, w), log, other[..|other| - 1]);
    }
  }

  // ----- a write still fits when others' writes are undone -----

  lemma {:induction false} RemoveMember(rows: seq<Row>, k: string, row: Row)
    ensures row in RemoveId(rows, k) <==> row in rows && !HasId(row, k)
  {
    hide HasId;
    if rows != [] {
      RemoveMember(rows[1..], k, row);
      assert rows == [rows[0]] + rows[1..];
    }
  }

  lemma {:induction false} ReplaceMember(rows: seq<Row>, k: string, changed: Row, row: Row)
    requires !HasId(row, k) && row != changed
    ensures row in ReplaceId(rows, k, changed) <==> row in rows
  {
    hide HasId;
    if rows != [] {
      ReplaceMember(rows[1..], k, changed, row);
      assert rows == [rows[0]] + rows[1..];
    }
  }

  lemma UndoMember(rows: seq<Row>, v: WriteRecord, row: Row)
    requires WellLogged(v) && ID in row && !Involves(v, row[ID])
    ensures row in UndoRows(rows, v) <==> row in rows
  {
    if v.kind == Insert {
      RemoveMember(rows, v.key, row);
    } else {
      ReplaceMember(rows, v.key, v.oldRow, row);
    }
  }

  lemma UndoHolds(rows: seq<Row>, v: WriteRecord, k: string)
    requires WellLogged(v) && !Involves(v, k)
    ensures HasRow(UndoRows(rows, v), k) <==> HasRow(rows, k)
  {
    hide UndoRows, WellLogged, Involves;
    var after := UndoRows(rows, v);
    if HasRow(rows, k) {
      var i :| 0 <= i < |rows| && HasId(rows[i], k);
      UndoMember(rows, v, rows[i]);
      var j :| 0 <= j < |after| && after[j] == rows[i];
    }
    if HasRow(after, k) {
      var j :| 0 <= j < |after| && HasId(after[j], k);
      UndoMember(rows, v, after[j]);
      var i :| 0 <= i < |rows| && rows[i] == after[j];
    }
  }

  lemma FitsStable(tables: Tables, v: WriteRecord, w: WriteRecord)
    requires Fits(tables, w) && WellLogged(v) && Apart(v, w)
    ensures Fits(Undo(tables, v), w)
  {
    hide UndoRows, WellLogged, HasRow;
    if v.table == w.table {
      var rows := tables[w.table];
      assert Involves(w, w.key);
      UndoHolds(rows, v, w.key);
      if w.kind != Insert {
        assert Involves(w, IdOf(w.oldRow));
        UndoMember(rows, v, w.oldRow);
      }
    }
  }

  lemma {:induction false} FitsStableAll(tables: Tables, log: seq<WriteRecord>, w: WriteRecord)
    requires Fits(tables, w) && AllApart(log, w)
    ensures Fits(UndoAll(tables, log), w)
    decreases |log|
  {
    hide Undo, WellLogged, Apart, Fits;
    if log != [] {
      FitsStable(tables, log[|log| - 1], w);
      FitsStableAll(Undo(tables, log[|log| - 1]), log[..|log| - 1], w);
    }
  }

  // ----- the theorem -----

  lemma {:induction false} LogWell(start: Tables, es: Trace, t: nat)
    requires Disciplined(start, es)
    ensures forall w :: w in LogOf(es, t) ==> WellLogged(w)
  {
    if es != [] {
      LogWell(start, Front(es), t);
    }
  }

  /** Writes of two running transactions are apart. */
  lemma LogsApart(start: Tables, es: Trace, t: nat, u: nat)
    requires Disciplined(start, es) && t != u && !Finished(es, t) && !Finished(es, u)
    ensures forall w :: w in LogOf(es, u) ==> WellLogged(w) && AllApart(LogOf(es, t), w)
  {
    hide Disciplined, LogOf, LocksAfter, Finished, Covers, Apart, WellLogged, AllGuarded;
    LogWell(start, es, t);
    LogWell(start, es, u);
    LogCovered(start, es, t);
    LogCovered(start, es, u);
    LocksGuarded(es);
    forall w | w in LogOf(es, u) ensures AllApart(LogOf(es, t), w) {
      forall v | v in LogOf(es, t) ensures Apart(v, w) {
        LocksSetApart(LocksAfter(es), t, v, u, w);
      }
    }
  }

  lemma WriteApart(start: Tables, es: Trace, t: nat, u: nat, w: WriteRecord)
    requires Disciplined(start, es) && t != u && !Finished(es, t) && Covers(LocksAfter(es), u, w)
    ensures AllApart(LogOf(es, t), w)
  {
    hide Disciplined, LogOf, LocksAfter, Finished, Covers, Apart, WellLogged, AllGuarded;
    LogWell(start, es, t);
    LogCovered(start, es, t);
    LocksGuarded(es);
    forall v | v in LogOf(es, t) ensures Apart(v, w) {
      LocksSetApart(LocksAfter(es), t, v, u, w);
    }
  }

  /** The tables of a run are those it started with, and its writes are on them. */
  lemma {:induction false} KeysStay(start: Tables, es: Trace)
    requires Disciplined(start, es)
    ensures TablesAfter(start, es).Keys == start.Keys
    ensures forall t, w :: w in LogOf(es, t) ==> w.table in start
  {
    hide FitsRows, ApplyRows, Covers, Finished, UndoAll;
    if es != [] {
      KeysStay(start, Front(es));
      if Last(es).Rollback? {
        UndoAllKeys(TablesAfter(start, Front(es)), LogOf(Front(es), Last(es).txn));
      }
    }
  }

  lemma {:induction false} UndoAllKeys(tables: Tables, log: seq<WriteRecord>)
    requires forall w :: w in log ==> w.table in tables
    ensures UndoAll(tables, log).Keys == tables.Keys
    decreases |log|
  {
    hide UndoRows;
    if log != [] {
      UndoAllKeys(Undo(tables, log[|log| - 1]), log[..|log| - 1]);
    }
  }

  lemma WriteKeepsUnique(tables: Tables, w: WriteRecord)
    requires AllUnique(tables) && Fits(tables, w)
    ensures AllUnique(Apply(tables, w))
  {
    hide UniqueIds, FitsRows, ApplyRows;
    ApplyKeepsUnique(tables[w.table], w);
  }

  lemma {:induction false} StaysUnique(start: Tables, es: Trace)
    requires AllUnique(start) && Disciplined(start, es)
    ensures AllUnique(TablesAfter(start, es))
    decreases |es|
  {
    hide AllUnique, Fits, Covers, Finished, Apply, UndoAll, LogOf, Lessened, Leaves;
    if es != [] {
      StaysUnique(start, Front(es));
      match Last(es) {
        case Ask(_, _, _) =>
        case Write(u, w) => WriteKeepsUnique(TablesAfter(start, Front(es)), w);
        case Commit(_) =>
        case Rollback(u) =>
          RollbackLeaves(start, Front(es), u);
          WithoutFinished(Front(es), u, u);
          var others := TablesAfter(start, Without(Front(es), u));
          StaysUnique(start, Without(Front(es), u));
          LessenedUnique(others, LostAll(others, LogOf(Front(es), u)));
          LeavesIs(TablesAfter(start, Front(es)), others, LogOf(Front(es), u));
      }
    }
  }

  lemma LeavesIs(tables: Tables, others: Tables, log: seq<WriteRecord>)
    requires Leaves(tables, others, log)
    ensures UndoAll(tables, log) == Lessened(others, LostAll(others, log))
  {
  }

  lemma {:induction false} RollbackLeaves(start: Tables, es: Trace, t: nat)
    requires AllUnique(start) && Disciplined(start, es) && !Finished(es, t)
    ensures Leaves(TablesAfter(start, es), TablesAfter(start, Without(es, t)), LogOf(es, t))
    ensures Disciplined(start, Without(es, t))
    decreases |es|, 1
  {
    hide AllUnique, Finished, Lawful, Leaves, TablesAfter;
    if es == [] {
      LeavesStart(start, es, t);
    } else {
      FinishedStep(es, t);
      RollbackLeaves(start, Front(es), t);
      if Last(es).Write? && Last(es).txn == t {
        LeaveOwn(start, es, t);
      } else {
        LeaveOther(start, es, t);
      }
    }
  }

  lemma LeavesStart(start: Tables, es: Trace, t: nat)
    requires es == []
    ensures Leaves(TablesAfter(start, es), TablesAfter(start, Without(es, t)), LogOf(es, t))
  {
    hide Leaves;
    LeavesNone(start);
  }

  lemma LeaveOwn(start: Tables, es: Trace, t: nat)
    requires AllUnique(start) && es != [] && Disciplined(start, es) && Last(es).Write? && Last(es).txn == t
    requires Leaves(TablesAfter(start, Front(es)), TablesAfter(start, Without(Front(es), t)), LogOf(Front(es), t))
    ensures Leaves(TablesAfter(start, es), TablesAfter(start, Without(es, t)), LogOf(es, t))
    ensures Without(es, t) == Without(Front(es), t)
    decreases |es|, 0
  {
    hide Fits, Covers, Finished, Apply, Leaves, AllUnique;
    StaysUnique(start, Front(es));
    assert Without(es, t) == Without(Front(es), t);
    assert LogOf(es, t) == LogOf(Front(es), t) + [Last(es).w];
    LeavesOwn(TablesAfter(start, Front(es)), TablesAfter(start, Without(Front(es), t)), LogOf(Front(es), t), Last(es).w);
  }

  lemma LeaveOther(start: Tables, es: Trace, t: nat)
    requires es != [] && Disciplined(start, es) && !Finished(es, t) && !Finished(Front(es), t)
    requires !(Last(es).Write? && Last(es).txn == t)
    requires Leaves(TablesAfter(start, Front(es)), TablesAfter(start, Without(Front(es), t)), LogOf(Front(es), t))
    requires Disciplined(start, Without(Front(es), t))
    ensures Leaves(TablesAfter(start, es), TablesAfter(start, Without(es, t)), LogOf(es, t))
    ensures Disciplined(start, Without(es, t))
  {
    hide Fits, Covers, Finished, Apply, UndoAll, AllUnique, LocksAfter, Leaves, WellLogged;
    var f := Front(es);
    var log := LogOf(f, t);
    assert LogOf(es, t) == log;
    WithoutKept(es, t);
    FinishedStep(es, t);
    WithoutLocks(f, t);
    KeysStay(start, f);
    match Last(es) {
      case Ask(_, _, _) =>
      case Write(u, w) =>
        WriteApart(start, f, t, u, w);
        FitsWell(TablesAfter(start, f), w);
        FitsIn(TablesAfter(start, f), w);
        LeavesWrite(TablesAfter(start, f), TablesAfter(start, Without(f, t)), log, w);
        OthersFit(TablesAfter(start, f), TablesAfter(start, Without(f, t)), log, w);
        WithoutFinished(f, t, u);
      case Commit(u) =>
        WithoutFinished(f, t, u);
      case Rollback(u) =>
        WithoutFinished(f, t, u);
        WithoutLog(f, t, u);
        LogsApart(start, f, t, u);
        LeavesRollback(TablesAfter(start, f), TablesAfter(start, Without(f, t)), log, LogOf(f, u));
    }
  }

  /** Another transaction's write fits without the log's writes too. */
  lemma OthersFit(tables: Tables, others: Tables, log: seq<WriteRecord>, w: WriteRecord)
    requires Leaves(tables, others, log) && Fits(tables, w) && AllApart(log, w)
    ensures Fits(others, w)
  {
    hide Fits, UndoAll, Undoable, Lessened, Lost, IdsOf, WellLogged, Apart;
    FitsStableAll(tables, log, w);
    if w.table in others {
      forall k | Involves(w, k)
        ensures k !in Lost(log, w.table)
      {
        NotLost(log, w, k);
      }
    }
    FitsWhole(others, LostAll(others, log), w);
  }

  lemma NotLost(log: seq<WriteRecord>, w: WriteRecord, k: string)
    requires AllApart(log, w) && Involves(w, k)
    ensures k !in Lost(log, w.table)
  {
    hide WellLogged, Deleted;
    forall v | v in log && v.table == w.table
      ensures !Involves(v, k)
    {
      assert Apart(v, w);
    }
    if k in Lost(log, w.table) {
      DeletedInvolved(log, w.table, {}, k);
      assert false;
    }
  }

  /** Rolling t back at any point of a disciplined run: the tables, row lists in order, that the same
      interleaving without t's writes gives, less the rows of those that t had deleted, followed
      through changes of their ids. So all is restored iff t deleted none of them. The interleaving
      without t's writes is itself a disciplined run. */
  lemma RollbackRestores(start: Tables, es: Trace, t: nat)
    requires AllUnique(start) && Disciplined(start, es) && !Finished(es, t)
    ensures Disciplined(start, Without(es, t))
    ensures var others, log := TablesAfter(start, Without(es, t)), LogOf(es, t);
      && UndoAll(TablesAfter(start, es), log) == Lessened(others, LostAll(others, log))
      && (UndoAll(TablesAfter(start, es), log) == others <==> forall s :: s in others ==> Lost(log, s) == {})
  {
    hide AllUnique, Finished, Disciplined, Leaves, TablesAfter, LogOf, Lost, Lessened, UndoAll;
    RollbackLeaves(start, es, t);
    var tables, others, log := TablesAfter(start, es), TablesAfter(start, Without(es, t)), LogOf(es, t);
    LeavesIs(tables, others, log);
    LeavesAllIff(tables, others, log);
  }

  /** A transaction of inserts and updates is always taken back, whatever the others delete. */
  lemma RollbackRestoresAll(start: Tables, es: Trace, t: nat)
    requires AllUnique(start) && Disciplined(start, es) && !Finished(es, t) && NoDeletes(LogOf(es, t))
    ensures UndoAll(TablesAfter(start, es), LogOf(es, t)) == TablesAfter(start, Without(es, t))
  {
    hide AllUnique, Finished, Disciplined, TablesAfter, LogOf, Lost, Lessened, UndoAll, NoDeletes;
    RollbackRestores(start, es, t);
    forall s | s in TablesAfter(start, Without(es, t))
      ensures Lost(LogOf(es, t), s) == {}
    {
      NothingLost(LogOf(es, t), s);
    }
  }
}
