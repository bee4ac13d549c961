/** Rows that a rollback does not bring back: a deleted row stays away while the writes before the
    delete are undone, under whatever id it had by then. */
module LostRows {
  import opened Options
  import opened Rollbacks
  import opened Rows

  ghost predicate WellLogged(w: WriteRecord) {
    match w.kind
    case Insert => HasId(w.newRow, w.key)
    case Update => ID in w.oldRow && HasId(w.newRow, w.key)
    case Delete => HasId(w.oldRow, w.key)
  }

  /** The ids a write looks for, takes away or leaves behind. */
  predicate Involves(w: WriteRecord, k: string) {
    k == w.key || (w.kind == Update && k == IdOf(w.oldRow))
  }

  lemma FitsWell(tables: Tables, w: WriteRecord)
    requires Fits(tables, w)
    ensures WellLogged(w)
  {
  }

  // ----- how often an id occurs -----

  function IdCount(rows: seq<Row>, k: string): nat {
    if rows == [] then 0 else (if HasId(rows[0], k) then 1 else 0) + IdCount(rows[1..], k)
  }

  lemma {:induction false} CountIsHas(rows: seq<Row>, k: string)
    ensures IdCount(rows, k) > 0 <==> HasRow(rows, k)
  {
    hide HasRow, HasId;
    if rows == [] {
      HasNone(k);
    } else {
      CountIsHas(rows[1..], k);
      HasFirst(rows, k);
    }
  }

  lemma {:induction false} CountUnique(rows: seq<Row>, k: string)
    requires UniqueIds(rows)
    ensures IdCount(rows, k) <= 1
  {
    if rows != [] {
      CountUnique(rows[1..], k);
      if HasId(rows[0], k) {
        forall i | 0 <= i < |rows[1..]|
          ensures !HasId(rows[1..][i], k)
        {
          assert rows[1..][i] == rows[i + 1];
        }
        CountIsHas(rows[1..], k);
      }
    }
  }

  lemma {:induction false} CountConcat(a: seq<Row>, b: seq<Row>, k: string)
    ensures IdCount(a + b, k) == IdCount(a, k) + IdCount(b, k)
  {
    hide HasId;
    if a == [] {
      assert a + b == b;
    } else {
      CountConcat(a[1..], b, k);
      assert (a + b)[0] == a[0] && (a + b)[1..] == a[1..] + b;
    }
  }

  /** An op changes the number of no id but its own. */
  lemma {:induction false} CountOp(rows: seq<Row>, op: RowOp, k: string)
    requires !Touches(op, k)
    ensures IdCount(Do(rows, op), k) == IdCount(rows, k)
    decreases |rows|
  {
    if op.Push? {
      CountConcat(rows, [op.row], k);
      assert [op.row][1..] == [];
    } else if rows != [] {
      CountOp(rows[1..], op, k);
      Head(rows[0], rows[1..], op);
      assert rows == [rows[0]] + rows[1..];
      CountConcat([rows[0]], Do(rows[1..], op), k);
      CountConcat([rows[0]], rows[1..], k);
      if op.Replace? {
        CountConcat([op.row], rows[1..], k);
        CountOne(op.row, k);
      }
      CountOne(rows[0], k);
    }
  }

  lemma CountOne(row: Row, k: string)
    ensures IdCount([row], k) == if HasId(row, k) then 1 else 0
  {
    assert [row][1..] == [];
  }

  lemma {:induction false} CountRemoved(rows: seq<Row>, k: string)
    ensures IdCount(RemoveId(rows, k), k) == 0
  {
    if rows != [] {
      CountRemoved(rows[1..], k);
      if !HasId(rows[0], k) {
        assert RemoveId(rows, k)[1..] == RemoveId(rows[1..], k);
      }
    }
  }

  lemma {:induction false} CountReplaced(rows: seq<Row>, k: string, row: Row)
    requires IdCount(rows, k) > 0 && ID in row
    ensures IdCount(ReplaceId(rows, k, row), row[ID]) > 0
  {
    if HasId(rows[0], k) {
    } else {
      CountReplaced(rows[1..], k, row);
      assert ReplaceId(rows, k, row)[1..] == ReplaceId(rows[1..], k, row);
    }
  }

  // ----- undoing one write where a row is missing -----

  /** What holds of a table just after the write, and still holds when other ids change. */
  ghost predicate Steady(rows: seq<Row>, w: WriteRecord) {
    match w.kind
    case Insert => true
    case Update => IdCount(rows, w.key) <= 1 && (w.key == IdOf(w.oldRow) || IdCount(rows, IdOf(w.oldRow)) == 0)
    case Delete => IdCount(rows, w.key) == 0
  }

  /** The id, before the write, of the row that has id k after it. */
  function TraceOne(k: string, w: WriteRecord): Option<string> {
    match w.kind
    case Insert => if w.key == k then None else Some(k)
    case Update => if w.key == k then Some(IdOf(w.oldRow)) else Some(k)
    case Delete => Some(k)
  }

  function RemoveOpt(rows: seq<Row>, k: Option<string>): seq<Row> {
    if k.None? then rows else RemoveId(rows, k.value)
  }

  lemma CountAbsent(rows: seq<Row>, k: string, row: Row)
    requires IdCount(rows, k) == 0
    ensures RemoveId(rows, k) == rows && ReplaceId(rows, k, row) == rows
  {
    hide HasRow;
    CountIsHas(rows, k);
    RemoveAbsent(rows, k);
    ReplaceAbsent(rows, k, row);
  }

  /** Replacing the only row with an id and removing the replacement is removing the row. */
  lemma {:induction false} ReplaceRemove(rows: seq<Row>, k: string, row: Row, o: string)
    requires HasId(row, o) && IdCount(rows, k) == 1 && (o == k || IdCount(rows, o) == 0)
    ensures RemoveId(ReplaceId(rows, k, row), o) == RemoveId(rows, k)
  {
    if HasId(rows[0], k) {
      CountAbsent(rows[1..], k, row);
      CountAbsent(rows[1..], o, row);
      assert ([row] + rows[1..])[1..] == rows[1..];
    } else {
      ReplaceRemove(rows[1..], k, row, o);
      assert ReplaceId(rows, k, row)[1..] == ReplaceId(rows[1..], k, row);
    }
  }

  lemma RemovesApart(rows: seq<Row>, x: string, k: string)
    ensures RemoveId(RemoveId(rows, k), x) == RemoveId(RemoveId(rows, x), k)
  {
    if x != k {
      Commute(rows, Remove(x), Remove(k));
    }
  }

  lemma ReplaceRemoveApart(rows: seq<Row>, x: string, row: Row, k: string)
    requires x != k && ID in row && row[ID] != k
    ensures ReplaceId(RemoveId(rows, k), x, row) == RemoveId(ReplaceId(rows, x, row), k)
  {
    Commute(rows, Remove(k), Replace(x, row));
  }

  lemma UndoRemoved(rows: seq<Row>, w: WriteRecord, k: string)
    requires WellLogged(w) && Steady(rows, w) && IdCount(rows, k) > 0
    ensures UndoRows(RemoveId(rows, k), w) == RemoveOpt(UndoRows(rows, w), TraceOne(k, w))
    ensures TraceOne(k, w).Some? ==> IdCount(UndoRows(rows, w), TraceOne(k, w).value) > 0
  {
    hide RemoveId, ReplaceId, IdCount;
    match w.kind {
      case Insert =>
        if w.key == k {
          CountRemoved(rows, k);
          CountAbsent(RemoveId(rows, k), k, w.newRow);
        } else {
          RemovesApart(rows, w.key, k);
          CountOp(rows, Remove(w.key), k);
        }
      case Update =>
        if w.key == k {
          CountRemoved(rows, k);
          CountAbsent(RemoveId(rows, k), k, w.oldRow);
          ReplaceRemove(rows, k, w.oldRow, IdOf(w.oldRow));
          CountReplaced(rows, k, w.oldRow);
        } else {
          ReplaceRemoveApart(rows, w.key, w.oldRow, k);
          CountOp(rows, Replace(w.key, w.oldRow), k);
        }
      case Delete =>
        CountAbsent(rows, w.key, w.oldRow);
        CountOp(rows, Remove(k), w.key);
        CountAbsent(RemoveId(rows, k), w.key, w.oldRow);
    }
  }

  lemma SteadyRemoved(rows: seq<Row>, w: WriteRecord, k: string)
    requires Steady(rows, w)
    ensures Steady(RemoveId(rows, k), w)
  {
    hide RemoveId, IdCount;
    CountRemoved(rows, k);
    if w.key != k {
      CountOp(rows, Remove(k), w.key);
    }
    if IdOf(w.oldRow) != k {
      CountOp(rows, Remove(k), IdOf(w.oldRow));
    }
  }

  // ----- undoing a log where a row is missing -----

  /** The log can be undone here, last write first, each in a table as it was just after the write,
      up to rows that others changed and rows that are gone. */
  ghost predicate Undoable(tables: Tables, log: seq<WriteRecord>)
    decreases |log|
  {
    log == [] ||
    (var w := log[|log| - 1];
     && w.table in tables && WellLogged(w) && Steady(tables[w.table], w)
     && Undoable(Undo(tables, w), log[..|log| - 1]))
  }

  /** The id, before the log, of the row that has id k after it. */
  function TraceAll(log: seq<WriteRecord>, t: string, k: Option<string>): Option<string>
    decreases |log|
  {
    if log == [] then k
    else
      var w := log[|log| - 1];
      TraceAll(log[..|log| - 1], t, if k.Some? && w.table == t then TraceOne(k.value, w) else k)
  }

  function DropRow(tables: Tables, t: string, k: Option<string>): Tables
    requires t in tables
  {
    tables[t := RemoveOpt(tables[t], k)]
  }

  ghost predicate Has(tables: Tables, t: string, k: Option<string>)
    requires t in tables
  {
    k.Some? ==> IdCount(tables[t], k.value) > 0
  }

  lemma UndoDrop(tables: Tables, w: WriteRecord, t: string, k: Option<string>)
    requires w.table in tables && t in tables && WellLogged(w) && Steady(tables[w.table], w) && Has(tables, t, k)
    ensures var j := if k.Some? && w.table == t then TraceOne(k.value, w) else k;
      && t in Undo(tables, w) && Has(Undo(tables, w), t, j)
      && Undo(DropRow(tables, t, k), w) == DropRow(Undo(tables, w), t, j)
      && Steady(DropRow(tables, t, k)[w.table], w)
  {
    hide WellLogged, Steady, UndoRows, RemoveId, IdCount, TraceOne;
    if k.Some? && w.table == t {
      UndoRemoved(tables[t], w, k.value);
      SteadyRemoved(tables[t], w, k.value);
    }
  }

  /** Undoing a log from a table without one of its rows gives the same without the row that it
      comes from, if it comes from any. */
  lemma {:induction false} UndoAllDrop(tables: Tables, log: seq<WriteRecord>, t: string, k: Option<string>)
    requires Undoable(tables, log) && t in tables && Has(tables, t, k)
    ensures t in UndoAll(tables, log) && Has(UndoAll(tables, log), t, TraceAll(log, t, k))
    ensures UndoAll(DropRow(tables, t, k), log) == DropRow(UndoAll(tables, log), t, TraceAll(log, t, k))
    ensures Undoable(DropRow(tables, t, k), log)
    decreases |log|
  {
    hide WellLogged, Steady, Undo, DropRow, Has, TraceOne;
    if log != [] {
      var w := log[|log| - 1];
      DropKeys(tables, t, k);
      UndoDrop(tables, w, t, k);
      UndoAllDrop(Undo(tables, w), log[..|log| - 1], t, if k.Some? && w.table == t then TraceOne(k.value, w) else k);
    }
  }

  lemma DropKeys(tables: Tables, t: string, k: Option<string>)
    requires t in tables
    ensures DropRow(tables, t, k).Keys == tables.Keys
  {
  }

  function Opt(k: Option<string>): set<string> {
    if k.Some? then {k.value} else {}
  }

  /** One more missing row at the end is one more at the start, if it comes from any. */
  lemma {:induction false} DeletedMore(log: seq<WriteRecord>, t: string, gone: set<string>, k: Option<string>)
    ensures Deleted(log, t, gone + Opt(k)) == Deleted(log, t, gone) + Opt(TraceAll(log, t, k))
    decreases |log|
  {
    if log != [] {
      var w := log[|log| - 1];
      if w.table == t {
        var j := if k.Some? then TraceOne(k.value, w) else k;
        BackMore(gone, w, k);
        DeletedMore(log[..|log| - 1], t, BackOver(gone, w), j);
      } else {
        DeletedMore(log[..|log| - 1], t, gone, k);
      }
    }
  }

  lemma BackMore(gone: set<string>, w: WriteRecord, k: Option<string>)
    ensures BackOver(gone + Opt(k), w) == BackOver(gone, w) + Opt(if k.Some? then TraceOne(k.value, w) else k)
  {
  }

  // ----- ops on other ids -----

  /** An op on ids that are not missing does the same where rows are missing. */
  lemma {:induction false} LackingPastOp(rows: seq<Row>, op: RowOp, gone: set<string>)
    requires forall k :: k in gone ==> !Touches(op, k)
    ensures Lacking(Do(rows, op), gone) == Do(Lacking(rows, gone), op)
    decreases |rows|
  {
    if op.Push? {
      LackingConcat(rows, [op.row], gone);
      LackingOne(op.row, gone);
      assert ID in op.row && op.row[ID] in gone ==> Touches(op, op.row[ID]);
    } else if rows != [] {
      var row, rest := rows[0], rows[1..];
      LackingPastOp(rest, op, gone);
      Head(row, rest, op);
      Head(row, Lacking(rest, gone), op);
      assert rows == [row] + rest;
      assert [] + Lacking(rest, gone) == Lacking(rest, gone);
      assert [] + Lacking(Do(rest, op), gone) == Lacking(Do(rest, op), gone);
      LackingConcat([row], rest, gone);
      LackingConcat([row], Do(rest, op), gone);
      LackingOne(row, gone);
      assert Touches(op, op.k);
      if op.Replace? {
        LackingConcat([op.row], rest, gone);
        LackingOne(op.row, gone);
        assert ID in op.row && op.row[ID] in gone ==> Touches(op, op.row[ID]);
      }
    }
  }

  lemma LackingOne(row: Row, gone: set<string>)
    ensures Lacking([row], gone) == if ID in row && row[ID] in gone then [] else [row]
  {
    assert [row][1..] == [];
  }

  lemma SteadyOp(rows: seq<Row>, w: WriteRecord, op: RowOp)
    requires Steady(rows, w) && !Touches(op, w.key) && (w.kind == Update ==> !Touches(op, IdOf(w.oldRow)))
    ensures Steady(Do(rows, op), w)
  {
    hide IdCount, Do, Touches;
    CountOp(rows, op, w.key);
    if w.kind == Update {
      CountOp(rows, op, IdOf(w.oldRow));
    }
  }

  /** Just after its own write a log is undoable if it was before. */
  lemma UndoableSnoc(tables: Tables, log: seq<WriteRecord>, w: WriteRecord)
    requires AllUnique(tables) && Fits(tables, w) && Undoable(tables, log)
    ensures Undoable(Apply(tables, w), log + [w])
    ensures Undo(Apply(tables, w), w) ==
            if w.kind == Delete then DropRow(tables, w.table, Some(w.key)) else tables
    ensures w.kind == Delete ==> Has(tables, w.table, Some(w.key))
  {
    hide IdCount, Undoable, ApplyRows, UndoRows, UniqueIds, FitsRows;
    var rows := tables[w.table];
    AfterWrite(rows, w);
    if w.kind == Delete {
      UndoAllDrop(tables, log, w.table, Some(w.key));
    }
    var after := Apply(tables, w);
    assert after[w.table] == ApplyRows(rows, w);
    assert Undo(after, w) == tables[w.table := UndoRows(ApplyRows(rows, w), w)];
    if w.kind == Delete {
      assert Undo(after, w) == DropRow(tables, w.table, Some(w.key));
    } else {
      assert Undo(after, w) == tables;
    }
    UndoableOne(after, log, w);
  }

  lemma UndoableOne(tables: Tables, log: seq<WriteRecord>, w: WriteRecord)
    requires w.table in tables && WellLogged(w) && Steady(tables[w.table], w) && Undoable(Undo(tables, w), log)
    ensures Undoable(tables, log + [w])
  {
    assert (log + [w])[..|log|] == log;
  }

  lemma AfterWrite(rows: seq<Row>, w: WriteRecord)
    requires UniqueIds(rows) && FitsRows(rows, w)
    ensures WellLogged(w) && Steady(ApplyRows(rows, w), w)
    ensures UndoRows(ApplyRows(rows, w), w) == if w.kind == Delete then RemoveId(rows, w.key) else rows
    ensures w.kind == Delete ==> IdCount(rows, w.key) > 0
  {
    hide IdCount, RemoveId, ReplaceId, UniqueIds;
    var after := ApplyRows(rows, w);
    match w.kind {
      case Insert => UndoInverts(rows, w);
      case Update =>
        UndoInverts(rows, w);
        ApplyKeepsUnique(rows, w);
        CountUnique(after, w.key);
        if w.key != IdOf(w.oldRow) {
          OldIdGone(rows, w);
        }
      case Delete =>
        CountRemoved(rows, w.key);
        CountAbsent(after, w.key, w.oldRow);
        CountIsHas(rows, w.key);
        var i :| 0 <= i < |rows| && rows[i] == w.oldRow;
        assert HasRow(rows, w.key);
    }
  }

  lemma OldIdGone(rows: seq<Row>, w: WriteRecord)
    requires UniqueIds(rows) && FitsRows(rows, w) && w.kind == Update && w.key != IdOf(w.oldRow)
    ensures IdCount(ApplyRows(rows, w), IdOf(w.oldRow)) == 0
  {
    var o := IdOf(w.oldRow);
    var i :| 0 <= i < |rows| && rows[i] == w.oldRow;
    ReplaceIs(rows, i, o, w.newRow);
    var after := rows[i := w.newRow];
    forall j | 0 <= j < |after|
      ensures !HasId(after[j], o)
    {
      assert j != i ==> after[j] == rows[j];
    }
    CountIsHas(after, o);
  }

  // ----- what undoing leaves, beside the tables of a run without the log's writes -----

  function DoOn(tables: Tables, s: string, op: RowOp): Tables {
    tables[s := Do(TableOf(tables, s), op)]
  }

  lemma ApplyIsDo(tables: Tables, w: WriteRecord)
    ensures Apply(tables, w) == DoOn(tables, w.table, ApplyOp(w))
    ensures Undo(tables, w) == DoOn(tables, w.table, UndoOp(w))
  {
    hide RemoveId, ReplaceId;
  }

  /** The op works on no id of v's. */
  ghost predicate OpApart(v: WriteRecord, s: string, op: RowOp) {
    WellLogged(v) && (v.table == s ==> forall k :: Involves(v, k) ==> !Touches(op, k))
  }

  ghost predicate AllOpApart(log: seq<WriteRecord>, s: string, op: RowOp) {
    forall v :: v in log ==> OpApart(v, s, op)
  }

  lemma AllOpApartFront(log: seq<WriteRecord>, s: string, op: RowOp)
    requires AllOpApart(log, s, op) && log != []
    ensures AllOpApart(log[..|log| - 1], s, op) && OpApart(log[|log| - 1], s, op)
  {
    hide OpApart;
  }

  lemma UndoPastOp(tables: Tables, v: WriteRecord, s: string, op: RowOp)
    requires OpApart(v, s, op)
    ensures Undo(DoOn(tables, s, op), v) == DoOn(Undo(tables, v), s, op)
  {
    hide Do, RemoveId, ReplaceId;
    ApplyIsDo(DoOn(tables, s, op), v);
    ApplyIsDo(tables, v);
    if v.table == s {
      forall k | Touches(UndoOp(v), k)
        ensures !Touches(op, k)
      {
        assert Involves(v, k);
      }
      Commute(TableOf(tables, s), UndoOp(v), op);
    }
  }

  lemma {:induction false} UndoAllPastOp(tables: Tables, log: seq<WriteRecord>, s: string, op: RowOp)
    requires AllOpApart(log, s, op)
    ensures UndoAll(DoOn(tables, s, op), log) == DoOn(UndoAll(tables, log), s, op)
    decreases |log|
  {
    hide Undo, DoOn, AllOpApart, OpApart;
    if log != [] {
      AllOpApartFront(log, s, op);
      UndoPastOp(tables, log[|log| - 1], s, op);
      UndoAllPastOp(Undo(tables, log[|log| - 1]), log[..|log| - 1], s, op);
    }
  }

  lemma SteadyPastOp(tables: Tables, v: WriteRecord, s: string, op: RowOp)
    requires OpApart(v, s, op) && v.table in tables && s in tables && Steady(tables[v.table], v)
    ensures Steady(DoOn(tables, s, op)[v.table], v)
  {
    hide Do, Steady;
    if v.table == s {
      assert Involves(v, v.key) && (v.kind == Update ==> Involves(v, IdOf(v.oldRow)));
      SteadyOp(tables[s], v, op);
    }
  }

  lemma {:induction false} UndoablePastOp(tables: Tables, log: seq<WriteRecord>, s: string, op: RowOp)
    requires AllOpApart(log, s, op) && Undoable(tables, log) && s in tables
    ensures Undoable(DoOn(tables, s, op), log)
    decreases |log|
  {
    hide Undo, Do, AllOpApart, OpApart, Steady, WellLogged;
    if log != [] {
      var v := log[|log| - 1];
      AllOpApartFront(log, s, op);
      UndoPastOp(tables, v, s, op);
      SteadyPastOp(tables, v, s, op);
      UndoKeys(tables, v);
      UndoablePastOp(Undo(tables, v), log[..|log| - 1], s, op);
    }
  }

  lemma UndoKeys(tables: Tables, v: WriteRecord)
    ensures Undo(tables, v).Keys == tables.Keys + {v.table}
  {
  }

  /** The missing rows are all rows that the log was about. */
  lemma {:induction false} DeletedInvolved(log: seq<WriteRecord>, t: string, gone: set<string>, k: string)
    requires k in Deleted(log, t, gone)
    ensures k in gone || exists v :: v in log && v.table == t && Involves(v, k)
    decreases |log|
  {
    if log != [] {
      var w := log[|log| - 1];
      DeletedInvolved(log[..|log| - 1], t, if w.table == t then BackOver(gone, w) else gone, k);
      assert forall v :: v in log[..|log| - 1] ==> v in log;
      assert w in log;
      if w.table == t && k in BackOver(gone, w) && k !in gone {
        assert Involves(w, k);
      }
    }
  }

  lemma LostUntouched(log: seq<WriteRecord>, s: string, op: RowOp)
    requires AllOpApart(log, s, op)
    ensures forall k :: k in Lost(log, s) ==> !Touches(op, k)
  {
    hide Deleted, Touches;
    forall k | k in Lost(log, s)
      ensures !Touches(op, k)
    {
      DeletedInvolved(log, s, {}, k);
      var v :| v in log && v.table == s && Involves(v, k);
      assert OpApart(v, s, op);
    }
  }

  lemma LessenedPastOp(tables: Tables, log: seq<WriteRecord>, s: string, op: RowOp)
    requires AllOpApart(log, s, op) && s in tables && Present(tables, LostAll(tables, log))
    ensures var after := DoOn(tables, s, op);
      && after.Keys == tables.Keys
      && Lessened(after, LostAll(after, log)) == DoOn(Lessened(tables, LostAll(tables, log)), s, op)
      && Present(after, LostAll(after, log))
  {
    hide Do, Lacking, Lost, AllOpApart, IdsOf;
    LostUntouched(log, s, op);
    LackingPastOp(tables[s], op, Lost(log, s));
    assert IdsOf(tables[s], LostAll(tables, log)[s]);
    StillPresent(tables[s], op, Lost(log, s));
    var after := DoOn(tables, s, op);
    assert after.Keys == tables.Keys;
    assert LostAll(after, log) == LostAll(tables, log);
    assert Lessened(after, LostAll(after, log)) == DoOn(Lessened(tables, LostAll(tables, log)), s, op);
  }

  lemma StillPresent(rows: seq<Row>, op: RowOp, gone: set<string>)
    requires IdsOf(rows, gone) && forall k :: k in gone ==> !Touches(op, k)
    ensures IdsOf(Do(rows, op), gone)
  {
    hide Do, Touches, HasRow;
    forall k | k in gone
      ensures HasRow(Do(rows, op), k)
    {
      CountIsHas(rows, k);
      CountOp(rows, op, k);
      CountIsHas(Do(rows, op), k);
    }
  }

  /** Undoing the log in `tables` leaves `others` less the rows that the log deleted. */
  ghost predicate Leaves(tables: Tables, others: Tables, log: seq<WriteRecord>) {
    && tables.Keys == others.Keys
    && UndoAll(tables, log) == Lessened(others, LostAll(others, log))
    && Present(others, LostAll(others, log))
    && Undoable(tables, log)
  }

  lemma LeavesNone(tables: Tables)
    ensures Leaves(tables, tables, [])
  {
    hide Lacking, IdsOf;
    forall t | t in tables
      ensures Lacking(tables[t], Lost([], t)) == tables[t] && IdsOf(tables[t], Lost([], t))
    {
      LackingNone(tables[t]);
      NoIds(tables[t]);
    }
    assert Lessened(tables, LostAll(tables, [])) == tables;
  }

  lemma LeavesOp(tables: Tables, others: Tables, log: seq<WriteRecord>, s: string, op: RowOp)
    requires Leaves(tables, others, log) && s in tables && AllOpApart(log, s, op)
    ensures Leaves(DoOn(tables, s, op), DoOn(others, s, op), log)
  {
    hide Do, Lessened, Present, Undoable, AllOpApart, UndoAll;
    UndoAllPastOp(tables, log, s, op);
    UndoablePastOp(tables, log, s, op);
    LessenedPastOp(others, log, s, op);
  }

  lemma LostSnoc(log: seq<WriteRecord>, w: WriteRecord, t: string)
    ensures Lost(log + [w], t) ==
            if w.kind == Delete && w.table == t then Lost(log, t) + Opt(TraceAll(log, t, Some(w.key))) else Lost(log, t)
  {
    hide TraceAll;
    assert (log + [w])[..|log|] == log;
    if w.kind == Delete && w.table == t {
      DeletedMore(log, t, {}, Some(w.key));
      assert {} + {w.key} == {} + Opt(Some(w.key));
    } else {
      assert BackOver({}, w) == {} || w.table != t;
    }
  }

  /** The log's own next write. */
  lemma LeavesOwn(tables: Tables, others: Tables, log: seq<WriteRecord>, w: WriteRecord)
    requires AllUnique(tables) && Fits(tables, w) && Leaves(tables, others, log)
    ensures Leaves(Apply(tables, w), others, log + [w])
  {
    hide AllUnique, Fits, Lacking, IdsOf, Undoable, Apply, Undo, UndoAll, TraceAll, DropRow, Has, Lessened, LostAll,
      Present;
    FitsIn(tables, w);
    UndoableSnoc(tables, log, w);
    UndoAllSnoc(Apply(tables, w), log, w);
    LostAllSnoc(others, log, w);
    if w.kind == Delete {
      var t, j := w.table, TraceAll(log, w.table, Some(w.key));
      UndoAllDrop(tables, log, t, Some(w.key));
      LostAllKeys(others, log);
      DropMore(others, LostAll(others, log), t, j);
    }
  }

  lemma LostAllKeys(others: Tables, log: seq<WriteRecord>)
    ensures LostAll(others, log).Keys == others.Keys
  {
    hide Lost;
  }

  lemma LostAllSnoc(others: Tables, log: seq<WriteRecord>, w: WriteRecord)
    requires w.table in others
    ensures w.table in LostAll(others, log)
    ensures LostAll(others, log + [w]) ==
            if w.kind == Delete
            then LostAll(others, log)[w.table := LostAll(others, log)[w.table] + Opt(TraceAll(log, w.table, Some(w.key)))]
            else LostAll(others, log)
  {
    hide Lost, TraceAll, Opt;
    forall t
      ensures Lost(log + [w], t) ==
              if w.kind == Delete && w.table == t then Lost(log, t) + Opt(TraceAll(log, t, Some(w.key))) else Lost(log, t)
    {
      LostSnoc(log, w, t);
    }
  }

  lemma FitsIn(tables: Tables, w: WriteRecord)
    requires Fits(tables, w)
    ensures w.table in tables && Apply(tables, w).Keys == tables.Keys
  {
  }

  lemma UndoAllSnoc(tables: Tables, log: seq<WriteRecord>, w: WriteRecord)
    ensures UndoAll(tables, log + [w]) == UndoAll(Undo(tables, w), log)
  {
    assert (log + [w])[..|log|] == log;
  }

  /** One more lost row in one table. */
  lemma DropMore(others: Tables, gone: map<string, set<string>>, t: string, j: Option<string>)
    requires gone.Keys == others.Keys && t in others && Present(others, gone) && Has(Lessened(others, gone), t, j)
    ensures var more := gone[t := gone[t] + Opt(j)];
      DropRow(Lessened(others, gone), t, j) == Lessened(others, more) && Present(others, more)
  {
    hide Lacking, IdsOf, RemoveOpt, Opt;
    MoreMissing(others[t], gone[t], j);
    var more := gone[t := gone[t] + Opt(j)];
    assert DropRow(Lessened(others, gone), t, j) == Lessened(others, more);
  }

  lemma MoreMissing(rows: seq<Row>, gone: set<string>, j: Option<string>)
    requires IdsOf(rows, gone) && (j.Some? ==> IdCount(Lacking(rows, gone), j.value) > 0)
    ensures RemoveOpt(Lacking(rows, gone), j) == Lacking(rows, gone + Opt(j)) && IdsOf(rows, gone + Opt(j))
  {
    hide Lacking, HasRow, IdCount, RemoveId;
    if j.Some? {
      LackingMore(rows, gone, j.value);
      CountIsHas(Lacking(rows, gone), j.value);
      LackingHas(rows, gone, j.value);
      assert gone + Opt(j) == gone + {j.value};
    } else {
      assert gone + Opt(j) == gone;
    }
  }

  lemma {:induction false} LackingMore(rows: seq<Row>, gone: set<string>, k: string)
    ensures RemoveId(Lacking(rows, gone), k) == Lacking(rows, gone + {k})
  {
    if rows != [] {
      LackingMore(rows[1..], gone, k);
      var head := if ID in rows[0] && rows[0][ID] in gone then [] else [rows[0]];
      assert Lacking(rows, gone) == head + Lacking(rows[1..], gone);
      RemoveConcat(head, Lacking(rows[1..], gone), k);
      assert head != [] ==> head[1..] == [];
    }
  }

  /** It is all restored iff nothing is lost. */
  lemma LeavesAllIff(tables: Tables, others: Tables, log: seq<WriteRecord>)
    requires Leaves(tables, others, log)
    ensures UndoAll(tables, log) == others <==> forall t :: t in others ==> Lost(log, t) == {}
  {
    hide Lacking, IdsOf, Lost, UndoAll, Undoable;
    var lost := LostAll(others, log);
    forall t | t in others
      ensures Lessened(others, lost)[t] == others[t] <==> Lost(log, t) == {}
    {
      LackingAllIff(others[t], lost[t]);
    }
    if forall t :: t in others ==> Lost(log, t) == {} {
      assert Lessened(others, lost) == others;
    }
  }

  /** What is left has unique ids if the tables beside it have. */
  lemma LessenedUnique(tables: Tables, gone: map<string, set<string>>)
    requires AllUnique(tables)
    ensures AllUnique(Lessened(tables, gone))
  {
    hide Lacking, UniqueIds;
    forall t | t in tables
      ensures UniqueIds(Lessened(tables, gone)[t])
    {
      if t in gone {
        LackingUnique(tables[t], gone[t]);
      }
    }
  }

  lemma {:induction false} LackingUnique(rows: seq<Row>, gone: set<string>)
    requires UniqueIds(rows)
    ensures UniqueIds(Lacking(rows, gone))
    ensures forall row :: row in Lacking(rows, gone) ==> row in rows
  {
    if rows != [] {
      LackingUnique(rows[1..], gone);
      assert rows == [rows[0]] + rows[1..];
      forall row | row in Lacking(rows[1..], gone)
        ensures ID in row && row[ID] != rows[0][ID]
      {
        var i :| 0 <= i < |rows[1..]| && rows[1..][i] == row;
        assert rows[i + 1] == row;
      }
    }
  }

  /** A write on ids that are not missing fits where nothing is missing too. */
  lemma FitsWhole(tables: Tables, gone: map<string, set<string>>, w: WriteRecord)
    requires Fits(Lessened(tables, gone), w) && (w.table in gone ==> forall k :: Involves(w, k) ==> k !in gone[w.table])
    ensures Fits(tables, w)
  {
    hide Lacking, HasRow;
    if w.table in gone {
      var rows := tables[w.table];
      assert Involves(w, w.key);
      LackingHas(rows, gone[w.table], w.key);
      LackingMember(rows, gone[w.table], w.oldRow);
    }
  }

  lemma {:induction false} LackingMember(rows: seq<Row>, gone: set<string>, row: Row)
    ensures row in Lacking(rows, gone) ==> row in rows
  {
    if rows != [] {
      LackingMember(rows[1..], gone, row);
      assert rows == [rows[0]] + rows[1..];
    }
  }
}
