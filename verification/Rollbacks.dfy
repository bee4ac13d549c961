/** The write log of one transaction: what applying it does, and what undoing it brings back. */
module Rollbacks {
  import opened Rows

  // ----- runs of fitting writes -----

  function ApplyAll(tables: Tables, log: seq<WriteRecord>): Tables {
    if log == [] then tables else Apply(ApplyAll(tables, log[..|log| - 1]), log[|log| - 1])
  }

  ghost predicate FitsAll(tables: Tables, log: seq<WriteRecord>) {
    log == [] ||
    (FitsAll(tables, log[..|log| - 1]) && Fits(ApplyAll(tables, log[..|log| - 1]), log[|log| - 1]))
  }

  lemma {:induction false} ApplyAllConcat(tables: Tables, a: seq<WriteRecord>, b: seq<WriteRecord>)
    ensures ApplyAll(tables, a + b) == ApplyAll(ApplyAll(tables, a), b)
    ensures FitsAll(tables, a) && FitsAll(ApplyAll(tables, a), b) ==> FitsAll(tables, a + b)
    decreases |b|
  {
    hide Apply, Fits;
    if b == [] {
      assert a + b == a;
    } else {
      var front := b[..|b| - 1];
      ApplyAllConcat(tables, a, front);
      assert (a + b)[..|a + b| - 1] == a + front && (a + b)[|a + b| - 1] == b[|b| - 1];
    }
  }

  lemma RunNone(tables: Tables)
    ensures FitsAll(tables, []) && ApplyAll(tables, []) == tables
  {
  }

  lemma RunSnoc(tables: Tables, log: seq<WriteRecord>, w: WriteRecord)
    requires FitsAll(tables, log) && Fits(ApplyAll(tables, log), w)
    ensures FitsAll(tables, log + [w]) && ApplyAll(tables, log + [w]) == Apply(ApplyAll(tables, log), w)
  {
    hide Fits, Apply;
    assert (log + [w])[..|log + [w]| - 1] == log;
  }

  // ----- undoing a run, deletes included -----

  /** The tables without the rows in gone. */
  ghost function Lessened(tables: Tables, gone: map<string, set<string>>): Tables {
    map t | t in tables :: if t in gone then Lacking(tables[t], gone[t]) else tables[t]
  }

  ghost predicate Present(tables: Tables, gone: map<string, set<string>>) {
    forall t :: t in gone ==> t in tables && IdsOf(tables[t], gone[t])
  }

  ghost function DeletedAll(log: seq<WriteRecord>, gone: map<string, set<string>>): map<string, set<string>> {
    map t | t in gone :: Deleted(log, t, gone[t])
  }

  /** The same for every table at once. */
  ghost function BackOne(gone: map<string, set<string>>, w: WriteRecord): map<string, set<string>> {
    map t | t in gone :: if w.table == t then BackOver(gone[t], w) else gone[t]
  }

  lemma UndoOne(tables: Tables, w: WriteRecord, gone: map<string, set<string>>)
    requires AllUnique(tables) && Fits(tables, w) && gone.Keys == tables.Keys && Present(Apply(tables, w), gone)
    ensures Undo(Lessened(Apply(tables, w), gone), w) == Lessened(tables, BackOne(gone, w))
    ensures Present(tables, BackOne(gone, w)) && AllUnique(Apply(tables, w))
  {
    hide UniqueIds, FitsRows, ApplyRows, UndoRows, Lacking, IdsOf, BackOver;
    var t := w.table;
    UndoLacking(tables[t], w, gone[t]);
    ApplyKeepsUnique(tables[t], w);
    var after := Undo(Lessened(Apply(tables, w), gone), w);
    assert after.Keys == tables.Keys;
    forall u | u in tables
      ensures after[u] == Lessened(tables, BackOne(gone, w))[u]
    {
      assert u != t ==> Apply(tables, w)[u] == tables[u];
    }
  }

  /** Undoing a whole run of fitting writes, in tables that lack some rows: what comes back is the
      tables at the start, less the rows that were deleted or lead to a missing one. */
  lemma {:induction false} UndoneLacks(tables: Tables, log: seq<WriteRecord>, gone: map<string, set<string>>)
    requires AllUnique(tables) && FitsAll(tables, log) && gone.Keys == tables.Keys && Present(ApplyAll(tables, log), gone)
    ensures AllUnique(ApplyAll(tables, log))
    ensures UndoAll(Lessened(ApplyAll(tables, log), gone), log) == Lessened(tables, DeletedAll(log, gone))
    ensures Present(tables, DeletedAll(log, gone))
    decreases |log|
  {
    hide AllUnique, Apply, Undo, Fits, Lessened, Present, BackOver;
    if log == [] {
      assert DeletedAll(log, gone) == gone;
    } else {
      var front, w := log[..|log| - 1], log[|log| - 1];
      AllStayUnique(tables, front);
      KeysStay(tables, front);
      UndoOne(ApplyAll(tables, front), w, gone);
      UndoneLacks(tables, front, BackOne(gone, w));
      assert DeletedAll(front, BackOne(gone, w)) == DeletedAll(log, gone);
    }
  }

  lemma {:induction false} AllStayUnique(tables: Tables, log: seq<WriteRecord>)
    requires AllUnique(tables) && FitsAll(tables, log)
    ensures AllUnique(ApplyAll(tables, log))
  {
    hide UniqueIds, FitsRows, ApplyRows;
    if log != [] {
      var front, w := log[..|log| - 1], log[|log| - 1];
      AllStayUnique(tables, front);
      ApplyKeepsUnique(ApplyAll(tables, front)[w.table], w);
    }
  }

  lemma {:induction false} KeysStay(tables: Tables, log: seq<WriteRecord>)
    requires FitsAll(tables, log)
    ensures ApplyAll(tables, log).Keys == tables.Keys
  {
    hide FitsRows, ApplyRows;
    if log != [] {
      KeysStay(tables, log[..|log| - 1]);
    }
  }

  ghost function LostAll(tables: Tables, log: seq<WriteRecord>): map<string, set<string>> {
    map t | t in tables :: Lost(log, t)
  }

  /** Rollback of any fitting run, deletes included: each table comes back, in order, less the rows
      that the log deletes of those it started with, followed through changes of their ids. */
  lemma ApplyAllUndone(tables: Tables, log: seq<WriteRecord>)
    requires AllUnique(tables) && FitsAll(tables, log)
    ensures UndoAll(ApplyAll(tables, log), log) == Lessened(tables, LostAll(tables, log))
    ensures Present(tables, LostAll(tables, log))
  {
    hide AllUnique, FitsAll, ApplyAll, UndoAll, Lacking, Deleted, IdsOf;
    var nothing: map<string, set<string>> := map t | t in tables :: {};
    var after := ApplyAll(tables, log);
    KeysStay(tables, log);
    forall t | t in tables
      ensures IdsOf(after[t], {}) && Lacking(after[t], {}) == after[t]
    {
      LackingNone(after[t]);
      NoIds(after[t]);
    }
    assert Lessened(after, nothing) == after;
    UndoneLacks(tables, log, nothing);
    assert DeletedAll(log, nothing) == LostAll(tables, log);
  }

  lemma NoIds(rows: seq<Row>)
    ensures IdsOf(rows, {})
  {
  }

  /** Rollback restores every table exactly when the log deletes no row that was there before. */
  lemma UndoneIff(tables: Tables, log: seq<WriteRecord>)
    requires AllUnique(tables) && FitsAll(tables, log)
    ensures UndoAll(ApplyAll(tables, log), log) == tables <==> forall t :: t in tables ==> Lost(log, t) == {}
  {
    hide AllUnique, FitsAll, ApplyAll, UndoAll, Lacking, Deleted, IdsOf, Lost;
    ApplyAllUndone(tables, log);
    var lost := LostAll(tables, log);
    forall t | t in tables
      ensures Lessened(tables, lost)[t] == tables[t] <==> Lost(log, t) == {}
    {
      LackingAllIff(tables[t], lost[t]);
    }
    if forall t :: t in tables ==> Lost(log, t) == {} {
      assert Lessened(tables, lost) == tables;
    }
  }

  predicate NoDeletes(log: seq<WriteRecord>) {
    forall w :: w in log ==> w.kind != Delete
  }

  lemma {:induction false} NothingLost(log: seq<WriteRecord>, t: string)
    requires NoDeletes(log)
    ensures Lost(log, t) == {}
  {
    if log != [] {
      var w := log[|log| - 1];
      NothingLost(log[..|log| - 1], t);
      assert w in log;
      assert BackOver({}, w) == {};
    }
  }
}
