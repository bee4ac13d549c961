/** What goes wrong without row locks: exactly when rolling a transaction back leaves what the same
    interleaving without its writes would have left. */
module Unlocked {
  import C = CrashAtomicity
  import D = Durability
  import opened Isolation
  import opened Options
  import Recovery
  import opened Rows

  /** Every write changes a row that is there and keeps its id; nothing is rolled back yet. Locks are
      not asked for. */
  ghost predicate OnlyUpdates(start: Tables, es: Trace) {
    es == [] ||
    (var e := Last(es);
     && OnlyUpdates(start, Front(es)) && !e.Rollback?
     && (e.Write? ==> Updates(e.w) && Fits(TablesAfter(start, Front(es)), e.w)))
  }

  predicate Updates(w: WriteRecord) {
    w.kind == Update && HasId(w.oldRow, w.key) && HasId(w.newRow, w.key)
  }

  /** The row that all but transaction x leave under an id. */
  ghost function LeftByOthers(start: Tables, es: Trace, x: nat, t: string, k: string): Option<Row> {
    if es == [] then Recovery.Cell(start, t, k)
    else
      var e := Last(es);
      if e.Write? && e.txn != x && e.w.table == t && e.w.key == k then Some(e.w.newRow)
      else LeftByOthers(start, Front(es), x, t, k)
  }

  /** What the last write of an id after x's first one leaves there, other than x's own. */
  ghost function LaterByOthers(es: Trace, x: nat, t: string, k: string): Option<Row> {
    if es == [] then None
    else
      var e := Last(es);
      if e.Write? && e.txn != x && e.w.table == t && e.w.key == k && C.WritesOn(LogOf(Front(es), x), t, k) != []
      then Some(e.w.newRow)
      else LaterByOthers(Front(es), x, t, k)
  }

  /** If x wrote the id, then no other transaction did so after x's first write, or the last such write
      put back the row that x had found. */
  ghost predicate PutBack(es: Trace, x: nat, t: string, k: string) {
    var mine := C.WritesOn(LogOf(es, x), t, k);
    mine != [] && LaterByOthers(es, x, t, k).Some? ==> LaterByOthers(es, x, t, k).value == mine[0].oldRow
  }

  lemma UpdatedCell(tables: Tables, w: WriteRecord, row: Row, t: string, k: string)
    requires HasId(row, w.key)
    ensures Recovery.Cell(tables[w.table := ReplaceId(TableOf(tables, w.table), w.key, row)], t, k) ==
            if w.table == t && w.key == k && Recovery.Cell(tables, t, k).Some? then Some(row) else Recovery.Cell(tables, t, k)
  {
    hide Recovery.Find, ReplaceId;
    if w.table == t {
      D.FindReplace(TableOf(tables, t), w.key, row, k);
    }
  }

  lemma {:induction false} UndoneCell(tables: Tables, log: seq<WriteRecord>, t: string, k: string)
    requires forall w :: w in log ==> w.kind == Update && HasId(w.oldRow, w.key)
    requires Recovery.Cell(tables, t, k).Some?
    ensures var mine := C.WritesOn(log, t, k);
      Recovery.Cell(UndoAll(tables, log), t, k) == if mine == [] then Recovery.Cell(tables, t, k) else Some(mine[0].oldRow)
    decreases |log|
  {
    hide Recovery.Cell, HasId;
    if log != [] {
      var front, w := log[..|log| - 1], log[|log| - 1];
      assert w in log;
      UpdatedCell(tables, w, w.oldRow, t, k);
      UndoneCell(Undo(tables, w), front, t, k);
    }
  }

  lemma {:induction false} UpdatesUnique(start: Tables, es: Trace)
    requires AllUnique(start) && OnlyUpdates(start, es)
    ensures AllUnique(TablesAfter(start, es))
  {
    hide AllUnique, Fits, Updates, UndoAll, Apply;
    if es != [] {
      UpdatesUnique(start, Front(es));
      if Last(es).Write? {
        WriteKeepsUnique(TablesAfter(start, Front(es)), Last(es).w);
      }
    }
  }

  lemma SameId(w: WriteRecord)
    requires Updates(w)
    ensures w.kind == Update && IdOf(w.oldRow) == w.key && HasId(w.oldRow, w.key) && HasId(w.newRow, w.key)
  {
  }

  /** An update finds its old row. */
  lemma FoundThere(tables: Tables, w: WriteRecord)
    requires AllUnique(tables) && Fits(tables, w) && Updates(w)
    ensures Recovery.Cell(tables, w.table, w.key) == Some(w.oldRow)
  {
    hide Recovery.Find, UniqueIds;
    D.FindUnique(tables[w.table], w.oldRow);
  }

  /** The run itself, seen from transaction x: its own writes count only where it made some. */
  lemma {:induction false} RunCell(start: Tables, es: Trace, x: nat, t: string, k: string)
    requires OnlyUpdates(start, es)
    ensures Recovery.Cell(TablesAfter(start, es), t, k).Some? <==> Recovery.Cell(start, t, k).Some?
    ensures C.WritesOn(LogOf(es, x), t, k) == [] ==>
      Recovery.Cell(TablesAfter(start, es), t, k) == LeftByOthers(start, es, x, t, k)
    ensures C.WritesOn(LogOf(es, x), t, k) == [] ==> LaterByOthers(es, x, t, k) == None
    ensures forall w :: w in LogOf(es, x) ==> Updates(w)
    decreases |es|
  {
    hide Recovery.Cell, Updates, Fits, UndoAll, C.WritesOn;
    if es != [] {
      RunCell(start, Front(es), x, t, k);
      if Last(es).Write? {
        var w := Last(es).w;
        SameId(w);
        PresentWritten(start, es, t, k);
        UpdatedCell(TablesAfter(start, Front(es)), w, w.newRow, t, k);
        C.WritesOnSnoc(LogOf(Front(es), x), w, t, k);
      }
      assert LogOf(Front(es), x) + [] == LogOf(Front(es), x);
    }
  }

  lemma PresentWritten(start: Tables, es: Trace, t: string, k: string)
    requires es != [] && OnlyUpdates(start, es) && Last(es).Write?
    ensures Last(es).w.table == t && Last(es).w.key == k ==> Recovery.Cell(TablesAfter(start, Front(es)), t, k).Some?
  {
    hide Recovery.Find, TablesAfter, OnlyUpdates;
    var w := Last(es).w;
    OnlyUpdatesLast(start, es);
    if w.table == t && w.key == k {
      var rows := TablesAfter(start, Front(es))[t];
      Recovery.FindHasRow(rows, k);
      var i :| 0 <= i < |rows| && rows[i] == w.oldRow;
      assert HasRow(rows, k);
    }
  }

  lemma OnlyUpdatesLast(start: Tables, es: Trace)
    requires es != [] && OnlyUpdates(start, es) && Last(es).Write?
    ensures Updates(Last(es).w) && Fits(TablesAfter(start, Front(es)), Last(es).w)
  {
  }

  lemma {:induction false} OthersCell(start: Tables, es: Trace, x: nat, t: string, k: string)
    requires OnlyUpdates(start, es)
    ensures Recovery.Cell(TablesAfter(start, Without(es, x)), t, k) == LeftByOthers(start, es, x, t, k)
    ensures Recovery.Cell(TablesAfter(start, Without(es, x)), t, k).Some? <==> Recovery.Cell(start, t, k).Some?
    decreases |es|
  {
    hide Recovery.Cell, Updates, Fits, UndoAll;
    if es != [] {
      OthersCell(start, Front(es), x, t, k);
      if Last(es).Write? && Last(es).txn == x {
        assert Without(es, x) == Without(Front(es), x);
      } else {
        WithoutKept(es, x);
        if Last(es).Write? {
          var w := Last(es).w;
          SameId(w);
          PresentWritten(start, es, t, k);
          RunCell(start, Front(es), x, t, k);
          UpdatedCell(TablesAfter(start, Without(Front(es), x)), w, w.newRow, t, k);
        }
      }
    }
  }

  /** On an id that x wrote, the others leave what the last of them wrote after x's first write, or
      else what x had found. */
  lemma {:induction false} LeftIsLater(start: Tables, es: Trace, x: nat, t: string, k: string)
    requires AllUnique(start) && OnlyUpdates(start, es) && C.WritesOn(LogOf(es, x), t, k) != []
    ensures var later := LaterByOthers(es, x, t, k);
      LeftByOthers(start, es, x, t, k) == if later.Some? then later else Some(C.WritesOn(LogOf(es, x), t, k)[0].oldRow)
    decreases |es|
  {
    hide AllUnique, Recovery.Cell, Updates, Fits, UndoAll, C.WritesOn;
    if es == [] {
      C.NoWritesOn(t, k);
    } else {
      var f := Front(es);
      if Last(es).Write? {
        C.WritesOnSnoc(LogOf(f, x), Last(es).w, t, k);
      }
      assert LogOf(f, x) + [] == LogOf(f, x);
      if C.WritesOn(LogOf(f, x), t, k) != [] {
        LeftIsLater(start, f, x, t, k);
      } else {
        RunCell(start, f, x, t, k);
        UpdatesUnique(start, f);
        FoundThere(TablesAfter(start, f), Last(es).w);
      }
    }
  }

  /** For any interleaving of updates, with no lock asked for: rolling x back leaves the ids and rows
      of the interleaving without x's writes iff on every id that x wrote, no other transaction wrote
      after x's first write, or the last such write put back what x had found. */
  lemma UnlockedRollbackIff(start: Tables, es: Trace, x: nat)
    requires AllUnique(start) && OnlyUpdates(start, es)
    ensures Recovery.SameCells(UndoAll(TablesAfter(start, es), LogOf(es, x)), TablesAfter(start, Without(es, x))) <==>
            forall t, k :: PutBack(es, x, t, k)
  {
    hide AllUnique, Recovery.Cell, Updates, OnlyUpdates, UndoAll, C.WritesOn, LogOf, TablesAfter, Without, LeftByOthers,
      LaterByOthers;
    var undone, others := UndoAll(TablesAfter(start, es), LogOf(es, x)), TablesAfter(start, Without(es, x));
    forall t, k
      ensures Recovery.Cell(undone, t, k) == Recovery.Cell(others, t, k) <==> PutBack(es, x, t, k)
    {
      UndoneIs(start, es, x, t, k);
      OthersCell(start, es, x, t, k);
      if C.WritesOn(LogOf(es, x), t, k) != [] {
        LeftIsLater(start, es, x, t, k);
      }
    }
  }

  lemma UndoneIs(start: Tables, es: Trace, x: nat, t: string, k: string)
    requires OnlyUpdates(start, es)
    ensures var mine := C.WritesOn(LogOf(es, x), t, k);
      Recovery.Cell(UndoAll(TablesAfter(start, es), LogOf(es, x)), t, k) ==
      if mine == [] then LeftByOthers(start, es, x, t, k) else Some(mine[0].oldRow)
  {
    hide Recovery.Cell, UndoAll, C.WritesOn, LogOf, TablesAfter, OnlyUpdates, LeftByOthers;
    RunCell(start, es, x, t, k);
    forall w | w in LogOf(es, x)
      ensures w.kind == Update && HasId(w.oldRow, w.key)
    {
      assert Updates(w);
    }
    if Recovery.Cell(TablesAfter(start, es), t, k).Some? {
      UndoneCell(TablesAfter(start, es), LogOf(es, x), t, k);
    } else {
      NoRowNoWrite(start, es, x, t, k);
      UndoneNone(TablesAfter(start, es), LogOf(es, x), t, k);
    }
  }

  lemma {:induction false} UndoneNone(tables: Tables, log: seq<WriteRecord>, t: string, k: string)
    requires forall w :: w in log ==> w.kind == Update && HasId(w.oldRow, w.key)
    requires Recovery.Cell(tables, t, k).None?
    ensures Recovery.Cell(UndoAll(tables, log), t, k).None?
    decreases |log|
  {
    hide Recovery.Cell, HasId;
    if log != [] {
      var w := log[|log| - 1];
      assert w in log;
      UpdatedCell(tables, w, w.oldRow, t, k);
      UndoneNone(Undo(tables, w), log[..|log| - 1], t, k);
    }
  }

  lemma {:induction false} NoRowNoWrite(start: Tables, es: Trace, x: nat, t: string, k: string)
    requires OnlyUpdates(start, es) && Recovery.Cell(start, t, k).None?
    ensures C.WritesOn(LogOf(es, x), t, k) == []
    decreases |es|
  {
    hide Recovery.Cell, Updates, Fits, C.WritesOn, UndoAll;
    if es == [] {
      C.NoWritesOn(t, k);
    } else {
      NoRowNoWrite(start, Front(es), x, t, k);
      if Last(es).Write? {
        PresentWritten(start, es, t, k);
        RunCell(start, Front(es), x, t, k);
        C.WritesOnSnoc(LogOf(Front(es), x), Last(es).w, t, k);
      }
      assert LogOf(Front(es), x) + [] == LogOf(Front(es), x);
    }
  }

  /** In the simplest case x and then y write one row: y's write is lost with x's rollback, unless it
      wrote what was there at first. */
  lemma UnlockedWriteIsLost(start: Tables, x: nat, v: WriteRecord, y: nat, w: WriteRecord)
    requires AllUnique(start) && x != y && OnlyUpdates(start, [Write(x, v), Write(y, w)])
    requires v.table == w.table && v.key == w.key
    ensures var es := [Write(x, v), Write(y, w)];
            Recovery.SameCells(UndoAll(TablesAfter(start, es), LogOf(es, x)), TablesAfter(start, Without(es, x))) <==>
            w.newRow == v.oldRow
  {
    hide AllUnique, Recovery.Cell, Updates, OnlyUpdates, UndoAll, C.WritesOn, TablesAfter;
    var es := [Write(x, v), Write(y, w)];
    UnlockedRollbackIff(start, es, x);
    assert Front(es) == [Write(x, v)] && Front(Front(es)) == [];
    assert LogOf(Front(es), x) == [v];
    assert LogOf(es, x) == [v];
    forall t, k
      ensures C.WritesOn([v], t, k) == if v.table == t && v.key == k then [v] else []
    {
      C.WritesOnSnoc([], v, t, k);
      C.NoWritesOn(t, k);
      assert [] + [v] == [v];
    }
    assert LaterByOthers(es, x, v.table, v.key) == Some(w.newRow);
    assert PutBack(es, x, v.table, v.key) <==> w.newRow == v.oldRow;
  }
}
