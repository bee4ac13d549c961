/** What the log stands for: recovering the log of statements that were executed and committed gives
    the ids and rows of the tables in memory, one transaction after another and interleaved. */
module Durability {
  import C = CrashAtomicity
  import opened Dml
  import opened Expressions
  import I = Isolation
  import opened LostRows
  import opened Options
  import opened Recovery
  import opened Rollbacks
  import opened Rows
  import opened WalCodec

  // ----- one write, on the tables and on the ids -----

  /** The write leaves its row under the id it had. */
  predicate KeepsKey(w: WriteRecord) {
    w.kind == WriteKind.Update ==> w.key == IdOf(w.oldRow)
  }

  ghost predicate AllKeepKeys(log: seq<WriteRecord>) {
    forall w :: w in log ==> KeepsKey(w)
  }

  lemma {:induction false} FindReplace(rows: seq<Row>, x: string, row: Row, k: string)
    requires HasId(row, x)
    ensures Find(ReplaceId(rows, x, row), k) ==
            if x == k then (if Find(rows, k).Some? then Some(row) else None) else Find(rows, k)
  {
    if rows != [] {
      FindReplace(rows[1..], x, row, k);
      var after := ReplaceId(rows, x, row);
      assert after[1..] == if HasId(rows[0], x) then rows[1..] else ReplaceId(rows[1..], x, row);
    }
  }

  lemma {:induction false} FindUnique(rows: seq<Row>, row: Row)
    requires UniqueIds(rows) && row in rows
    ensures ID in row && Find(rows, row[ID]) == Some(row)
  {
    if rows[0] != row {
      var i :| 0 <= i < |rows| && rows[i] == row;
      assert rows[1..][i - 1] == row;
      FindUnique(rows[1..], row);
    }
  }

  lemma FittingFinds(rows: seq<Row>, w: WriteRecord)
    requires UniqueIds(rows) && FitsRows(rows, w) && KeepsKey(w)
    ensures Find(rows, w.key) == if w.kind == WriteKind.Insert then None else Some(w.oldRow)
  {
    hide Find, UniqueIds;
    FindHasRow(rows, w.key);
    if w.kind != WriteKind.Insert {
      FindUnique(rows, w.oldRow);
    }
  }

  function Result(w: WriteRecord): Option<Row> {
    if w.kind == WriteKind.Delete then None else Some(w.newRow)
  }

  lemma ApplyFinds(rows: seq<Row>, w: WriteRecord, k: string)
    requires UniqueIds(rows) && FitsRows(rows, w) && KeepsKey(w)
    ensures Find(ApplyRows(rows, w), k) == if w.key == k then Result(w) else Find(rows, k)
  {
    hide Find, UniqueIds, HasRow, RemoveId, ReplaceId;
    FittingFinds(rows, w);
    match w.kind
    case Insert => FindPush(rows, w.newRow, k);
    case Update => FindReplace(rows, w.key, w.newRow, k);
    case Delete => FindRemove(rows, w.key, k);
  }

  lemma ApplyCell(tables: Tables, w: WriteRecord, t: string, k: string)
    requires AllUnique(tables) && Fits(tables, w) && KeepsKey(w)
    ensures Cell(Apply(tables, w), t, k) == if w.table == t && w.key == k then Result(w) else Cell(tables, t, k)
  {
    hide Find, UniqueIds, FitsRows, ApplyRows, KeepsKey, Result;
    if w.table == t {
      ApplyFinds(tables[t], w, k);
    }
  }

  lemma PerformCell(live: C.Live, w: WriteRecord, t: string, k: string)
    ensures C.Lookup(C.Perform(live, w), t, k) ==
            if w.table == t && w.key == k then Result(w) else C.Lookup(live, t, k)
  {
  }

  /** A write that fits the tables is legal on the ids. */
  lemma FitsLegal(tables: Tables, live: C.Live, w: WriteRecord)
    requires AllUnique(tables) && Fits(tables, w) && KeepsKey(w)
    requires C.Lookup(live, w.table, w.key) == Cell(tables, w.table, w.key)
    ensures C.Legal(live, w)
  {
    hide Find, UniqueIds, HasRow;
    FittingFinds(tables[w.table], w);
  }

  ghost predicate Agree(live: C.Live, tables: Tables) {
    forall t, k :: C.Lookup(live, t, k) == Cell(tables, t, k)
  }

  /** A run of fitting writes does the same to the tables and to the ids. */
  lemma {:induction false} LogAgrees(tables: Tables, live: C.Live, log: seq<WriteRecord>)
    requires AllUnique(tables) && FitsAll(tables, log) && AllKeepKeys(log) && Agree(live, tables)
    ensures C.LegalAll(live, log) && Agree(C.PerformAll(live, log), ApplyAll(tables, log))
    ensures AllUnique(ApplyAll(tables, log))
    decreases |log|
  {
    hide AllUnique, Fits, C.Lookup, Cell, C.Perform, Apply, C.Legal, KeepsKey, Result;
    if log != [] {
      var front, w := log[..|log| - 1], log[|log| - 1];
      LogAgrees(tables, live, front);
      AllStayUnique(tables, log);
      var here, now := ApplyAll(tables, front), C.PerformAll(live, front);
      FitsLegal(here, now, w);
      forall t, k
        ensures C.Lookup(C.Perform(now, w), t, k) == Cell(Apply(here, w), t, k)
      {
        ApplyCell(here, w, t, k);
        PerformCell(now, w, t, k);
      }
    }
  }

  lemma {:induction false} MovedAway(rows: seq<Row>, x: string, row: Row)
    requires UniqueIds(rows) && !HasId(row, x)
    ensures Find(ReplaceId(rows, x, row), x) == None
  {
    if rows != [] {
      var after := ReplaceId(rows, x, row);
      if HasId(rows[0], x) {
        assert after[1..] == rows[1..];
        assert forall i :: 0 <= i < |rows[1..]| ==> !HasId(rows[1..][i], x);
        FindHasRow(rows[1..], x);
      } else {
        MovedAway(rows[1..], x, row);
        assert after[1..] == ReplaceId(rows[1..], x, row);
      }
    }
  }

  /** One write keeps tables and ids in step iff it leaves its row under the id it had: the log of an
      update that changes the id names the new one only, so the row stays under the old one. */
  lemma WriteAgreesIff(tables: Tables, live: C.Live, w: WriteRecord)
    requires AllUnique(tables) && Fits(tables, w) && Agree(live, tables)
    ensures Agree(C.Perform(live, w), Apply(tables, w)) <==> KeepsKey(w)
  {
    hide UniqueIds, Find, C.Perform, Result, C.Lookup;
    var rows := tables[w.table];
    if KeepsKey(w) {
      forall t, k
        ensures C.Lookup(C.Perform(live, w), t, k) == Cell(Apply(tables, w), t, k)
      {
        ApplyCell(tables, w, t, k);
        PerformCell(live, w, t, k);
      }
    } else {
      var x := IdOf(w.oldRow);
      FindUnique(rows, w.oldRow);
      MovedAway(rows, x, w.newRow);
      PerformCell(live, w, w.table, x);
      assert C.Lookup(live, w.table, x) == Cell(tables, w.table, x);
      assert C.Lookup(C.Perform(live, w), w.table, x) != Cell(Apply(tables, w), w.table, x);
    }
  }

  ghost predicate NoRows(tables: Tables) {
    forall t :: t in tables ==> tables[t] == []
  }

  lemma NoRowsAgree(tables: Tables)
    requires NoRows(tables)
    ensures AllUnique(tables) && Agree(map[], tables)
  {
  }

  // ----- transactions one after another -----

  /** A transaction runs its statements, and is committed or rolled back. */
  datatype Transaction = Transaction(txn: nat, changes: seq<Change>, commits: bool)

  predicate AllRunnable(s: seq<Transaction>) {
    forall x, c :: x in s && c in x.changes ==> Runnable(c)
  }

  ghost function TablesAfter(stod: Stod, tables: Tables, s: seq<Transaction>): Tables
    requires AllRunnable(s)
  {
    if s == [] then tables
    else
      var before, x := TablesAfter(stod, tables, s[..|s| - 1]), s[|s| - 1];
      var after := AfterAll(stod, before, x.changes);
      if x.commits then after else UndoAll(after, LoggedAll(stod, before, x.changes))
  }

  ghost function LogAfter(stod: Stod, tables: Tables, s: seq<Transaction>): seq<WriteRecord>
    requires AllRunnable(s) && s != []
  {
    LoggedAll(stod, TablesAfter(stod, tables, s[..|s| - 1]), s[|s| - 1].changes)
  }

  /** Transaction ids are new, and row ids are kept. */
  ghost predicate Orderly(stod: Stod, tables: Tables, s: seq<Transaction>)
    requires AllRunnable(s)
  {
    s == [] ||
    (var front, x := s[..|s| - 1], s[|s| - 1];
     var before, log := TablesAfter(stod, tables, front), LogAfter(stod, tables, s);
     && Orderly(stod, tables, front)
     && (forall y :: y in front ==> y.txn != x.txn)
     && AllKeepIds(stod, before, x.changes) && AllKeepKeys(log))
  }

  /** No transaction that is rolled back has deleted a row of those it found. */
  ghost predicate Lossless(stod: Stod, tables: Tables, s: seq<Transaction>)
    requires AllRunnable(s)
  {
    s == [] ||
    (var front, x := s[..|s| - 1], s[|s| - 1];
     && Lossless(stod, tables, front)
     && (!x.commits ==> forall t :: t in TablesAfter(stod, tables, front) ==> Lost(LogAfter(stod, tables, s), t) == {}))
  }

  /** What the calls of begin, commit and rollback append. */
  ghost predicate Recorded(stod: Stod, tables: Tables, s: seq<Transaction>, h: seq<C.Chunk>)
    requires AllRunnable(s)
  {
    if s == [] then h == []
    else
      var n, x := |h|, s[|s| - 1];
      var log := LogAfter(stod, tables, s);
      && n >= 2 && Recorded(stod, tables, s[..|s| - 1], h[..n - 2])
      && h[n - 2].event == C.Begun(x.txn) && C.Faithful(h[n - 2])
      && h[n - 1].event == (if x.commits then C.Committed(x.txn, log) else C.Aborted(x.txn, log))
      && C.Faithful(h[n - 1])
  }

  ghost predicate KnownEnds(h: seq<C.Chunk>, s: seq<Transaction>) {
    forall c :: c in h && !c.event.Begun? ==> exists x :: x in s && x.txn == c.event.txn
  }

  lemma BegunExtends(h: seq<C.Chunk>, c: C.Chunk)
    requires C.History(h) && C.EndsOnce(h) && C.Faithful(c) && c.event.Begun?
    ensures C.History(h + [c]) && C.EndsOnce(h + [c]) && C.Replay(h + [c]) == C.Replay(h)
  {
    hide C.Faithful, C.Legal, C.Keyed, C.EndsOnce;
    C.EndsOnceMore(h, c);
    assert (h + [c])[..|h|] == h;
  }

  lemma EndExtends(h: seq<C.Chunk>, c: C.Chunk)
    requires C.History(h) && C.EndsOnce(h) && C.Faithful(c) && !c.event.Begun? && !C.Ends(h, c.event.txn)
    requires C.LegalAll(C.Replay(h), c.event.writes)
    ensures C.History(h + [c]) && C.EndsOnce(h + [c])
    ensures C.Replay(h + [c]) == C.PerformAll(C.Replay(h), C.WritesOf(c.event))
  {
    hide C.Faithful, C.Keyed, C.Legal, C.PerformAll, C.Ends, C.EndsOnce;
    C.EndsOnceMore(h, c);
    assert (h + [c])[..|h|] == h;
    C.LegalKeyed(C.Replay(h), c.event.writes);
    C.LegalNone(C.Replay(h));
  }

  /** The rolled back transaction leaves everything as it was, the other one does what it logs. */
  lemma OneTransaction(stod: Stod, before: Tables, x: Transaction, live: C.Live)
    requires forall c :: c in x.changes ==> Runnable(c)
    requires AllUnique(before) && Agree(live, before) && AllKeepIds(stod, before, x.changes)
    requires AllKeepKeys(LoggedAll(stod, before, x.changes))
    requires !x.commits ==> forall t :: t in before ==> Lost(LoggedAll(stod, before, x.changes), t) == {}
    ensures var log, after := LoggedAll(stod, before, x.changes), AfterAll(stod, before, x.changes);
      && C.LegalAll(live, log)
      && (if x.commits then AllUnique(after) && Agree(C.PerformAll(live, log), after) else UndoAll(after, log) == before)
  {
    hide AllUnique, Agree, AllKeepIds, FitsAll, LoggedAll, AfterAll, ApplyAll, AllKeepKeys, Lost, UndoAll, C.LegalAll,
      Lessened;
    StatementsAreRun(stod, before, x.changes);
    LogAgrees(before, live, LoggedAll(stod, before, x.changes));
    SerialRollback(stod, before, x.changes);
  }

  /** Such a run leaves a history in which every id ends once, and the tables hold exactly its
      replay. */
  lemma {:induction false} SessionIsHistory(stod: Stod, tables: Tables, s: seq<Transaction>, h: seq<C.Chunk>)
    requires NoRows(tables) && AllRunnable(s) && Orderly(stod, tables, s) && Lossless(stod, tables, s)
    requires Recorded(stod, tables, s, h)
    ensures C.History(h) && C.EndsOnce(h) && KnownEnds(h, s) && |h| == 2 * |s|
    ensures Agree(C.Replay(h), TablesAfter(stod, tables, s)) && AllUnique(TablesAfter(stod, tables, s))
    decreases |s|
  {
    hide NoRows, AllUnique, Agree, AllKeepIds, LoggedAll, AfterAll, AllKeepKeys, Lost, UndoAll, C.History, C.Faithful,
      C.Replay, C.EndsOnce, C.PerformAll, KnownEnds, C.LegalAll, AllRunnable, Orderly, Lossless, Recorded, TablesAfter, LogAfter;
    if s == [] {
      NoRowsAgree(tables);
      SessionStart(stod, tables, h);
    } else {
      var front, x, n := s[..|s| - 1], s[|s| - 1], |h|;
      LastTransaction(stod, tables, s, h);
      var before, early := TablesAfter(stod, tables, front), h[..n - 2];
      SessionIsHistory(stod, tables, front, early);
      OneTransaction(stod, before, x, C.Replay(early));
      assert h == early + [h[n - 2]] + [h[n - 1]] && s == front + [x];
      BothExtend(early, h[n - 2], h[n - 1], front, x);
      PerformNone(C.Replay(early));
    }
  }

  lemma SessionStart(stod: Stod, tables: Tables, h: seq<C.Chunk>)
    requires AllRunnable([]) && Recorded(stod, tables, [], h)
    ensures h == [] && C.History(h) && C.EndsOnce(h) && C.Replay(h) == map[] && KnownEnds(h, [])
    ensures TablesAfter(stod, tables, []) == tables
  {
  }

  /** What the definitions say of the last transaction. */
  lemma LastTransaction(stod: Stod, tables: Tables, s: seq<Transaction>, h: seq<C.Chunk>)
    requires s != [] && AllRunnable(s) && Orderly(stod, tables, s) && Lossless(stod, tables, s)
    requires Recorded(stod, tables, s, h)
    ensures var front, x, n := s[..|s| - 1], s[|s| - 1], |h|;
      && AllRunnable(front) && (forall c :: c in x.changes ==> Runnable(c))
      && Orderly(stod, tables, front) && Lossless(stod, tables, front) && (forall y :: y in front ==> y.txn != x.txn)
      && n >= 2 && Recorded(stod, tables, front, h[..n - 2])
      && h[n - 2].event == C.Begun(x.txn) && C.Faithful(h[n - 2]) && C.Faithful(h[n - 1])
    ensures var front, x := s[..|s| - 1], s[|s| - 1];
      var before := TablesAfter(stod, tables, front);
      var log, after := LoggedAll(stod, before, x.changes), AfterAll(stod, before, x.changes);
      && AllKeepIds(stod, before, x.changes) && AllKeepKeys(log)
      && (!x.commits ==> forall t :: t in before ==> Lost(log, t) == {})
      && TablesAfter(stod, tables, s) == (if x.commits then after else UndoAll(after, log))
      && h[|h| - 1].event == (if x.commits then C.Committed(x.txn, log) else C.Aborted(x.txn, log))
  {
    hide AllKeepIds, LoggedAll, AfterAll, AllKeepKeys, Lost, UndoAll, C.Faithful;
  }

  /** The two calls of one transaction. */
  lemma BothExtend(h: seq<C.Chunk>, a: C.Chunk, b: C.Chunk, front: seq<Transaction>, x: Transaction)
    requires C.History(h) && C.EndsOnce(h) && KnownEnds(h, front) && forall y :: y in front ==> y.txn != x.txn
    requires C.Faithful(a) && a.event.Begun? && C.Faithful(b) && !b.event.Begun? && b.event.txn == x.txn
    requires C.LegalAll(C.Replay(h), b.event.writes)
    ensures C.History(h + [a] + [b]) && C.EndsOnce(h + [a] + [b]) && KnownEnds(h + [a] + [b], front + [x])
    ensures C.Replay(h + [a] + [b]) == C.PerformAll(C.Replay(h), C.WritesOf(b.event))
  {
    hide C.History, C.Faithful, C.Replay, C.PerformAll, C.LegalAll, C.Ends, C.EndsOnce;
    BegunExtends(h, a);
    NotEnded(h, a, front, x.txn);
    EndExtends(h + [a], b);
    KnownMore(h, a, b, front, x);
  }

  lemma PerformNone(live: C.Live)
    ensures C.PerformAll(live, []) == live
  {
  }

  lemma EmptyHistory()
    ensures C.History([]) && C.EndsOnce([]) && C.Replay([]) == map[]
  {
  }

  lemma NotEnded(h: seq<C.Chunk>, begun: C.Chunk, front: seq<Transaction>, txn: nat)
    requires KnownEnds(h, front) && begun.event.Begun? && forall y :: y in front ==> y.txn != txn
    ensures !C.Ends(h + [begun], txn)
  {
    forall c | c in h + [begun] && !c.event.Begun?
      ensures c.event.txn != txn
    {
      assert c in h;
    }
  }

  lemma KnownMore(h: seq<C.Chunk>, a: C.Chunk, b: C.Chunk, front: seq<Transaction>, x: Transaction)
    requires KnownEnds(h, front) && a.event.Begun? && !b.event.Begun? && b.event.txn == x.txn
    ensures KnownEnds(h + [a] + [b], front + [x])
  {
    forall c | c in h + [a] + [b] && !c.event.Begun?
      ensures exists y :: y in front + [x] && y.txn == c.event.txn
    {
      if c in h {
        var y :| y in front && y.txn == c.event.txn;
        assert y in front + [x];
      } else {
        assert x in front + [x];
      }
    }
  }

  /** The first j calls are those of the first j / 2 transactions, and perhaps one more begin. */
  lemma {:induction false} SessionPrefix(stod: Stod, tables: Tables, s: seq<Transaction>, h: seq<C.Chunk>, m: nat)
    requires AllRunnable(s) && Orderly(stod, tables, s) && Lossless(stod, tables, s) && Recorded(stod, tables, s, h)
    requires m <= |s| && |h| == 2 * |s|
    ensures AllRunnable(s[..m]) && Orderly(stod, tables, s[..m]) && Lossless(stod, tables, s[..m])
    ensures Recorded(stod, tables, s[..m], h[..2 * m])
    ensures m < |s| ==> h[2 * m].event.Begun? && C.Faithful(h[2 * m])
    decreases |s|
  {
    hide AllKeepIds, AllKeepKeys, Lost, C.Faithful, LogAfter, TablesAfter;
    assert s[..|s|] == s && h[..|h|] == h;
    if m < |s| {
      var front := s[..|s| - 1];
      SessionPrefix(stod, tables, front, h[..|h| - 2], m);
      assert front[..m] == s[..m] && h[..|h| - 2][..2 * m] == h[..2 * m];
      assert m < |front| ==> h[..|h| - 2][2 * m] == h[2 * m];
    }
  }

  /** Cut the log of such a run at any byte: recovery gives the ids and rows that the tables had in
      memory after the last transaction whose end is whole, iff what the crash leaves to undo is
      harmless. */
  lemma SessionRecovers(stod: Stod, tables: Tables, s: seq<Transaction>, h: seq<C.Chunk>, n: nat)
    requires NoRows(tables) && AllRunnable(s) && Orderly(stod, tables, s) && Lossless(stod, tables, s)
    requires Recorded(stod, tables, s, h)
    requires AllFit(C.LogOf(h)) && n <= |EncodeAll(C.LogOf(h))|
    ensures var j := C.Durable(h, n);
      && j / 2 <= |s| && AllRunnable(s[..j / 2]) && C.History(h)
      && (SameCells(Recover(map[], ReadAll(EncodeAll(C.LogOf(h))[..n])), TablesAfter(stod, tables, s[..j / 2]))
          <==> C.AllHarmless(C.Replay(h[..j]), C.Unfinished(h, n)))
  {
    hide AllUnique, TablesAfter, C.History, C.Replay, C.Durable, C.LogOf, EncodeAll, ReadAll, Recover, Cell, C.Lookup,
      C.AllHarmless, C.Unfinished, AllFit, Orderly, Lossless, Recorded, C.Faithful, NoRows, C.EndsOnce, C.Separate,
      C.SeparateAt;
    var j := C.Durable(h, n);
    var m := j / 2;
    SessionIsHistory(stod, tables, s, h);
    SessionPrefix(stod, tables, s, h, m);
    SessionIsHistory(stod, tables, s[..m], h[..2 * m]);
    if j % 2 == 1 {
      assert h[..j] == h[..2 * m] + [h[2 * m]];
      BegunExtends(h[..2 * m], h[2 * m]);
    } else {
      assert j == 2 * m;
    }
    C.OnceSeparate(h);
    C.SeparateMeans(h, n);
    C.CrashRecoversIff(h, n);
  }

  // ----- exactly when the tables hold what the commits stand for -----

  /** The ids and rows that the commits stand for. */
  ghost function SessionReplay(stod: Stod, tables: Tables, s: seq<Transaction>): C.Live
    requires AllRunnable(s)
  {
    if s == [] then map[]
    else
      var before := SessionReplay(stod, tables, s[..|s| - 1]);
      if s[|s| - 1].commits then C.PerformAll(before, LogAfter(stod, tables, s)) else before
  }

  /** After every transaction the tables hold exactly that. */
  ghost predicate AgreesThroughout(stod: Stod, tables: Tables, s: seq<Transaction>)
    requires AllRunnable(s)
  {
    && Agree(SessionReplay(stod, tables, s), TablesAfter(stod, tables, s))
    && (s != [] ==> AgreesThroughout(stod, tables, s[..|s| - 1]))
  }

  lemma FindLacking(rows: seq<Row>, gone: set<string>, k: string)
    requires IdsOf(rows, gone) && k in gone
    ensures Find(rows, k).Some? && Find(Lacking(rows, gone), k).None?
  {
    hide Find, Lacking, HasRow;
    FindHasRow(rows, k);
    FindHasRow(Lacking(rows, gone), k);
    LackingHas(rows, gone, k);
  }

  /** A rollback that loses a row takes it from the tables, not from what the commits stand for. */
  lemma LossShows(before: Tables, gone: map<string, set<string>>, t: string, k: string)
    requires Present(before, gone) && t in gone && k in gone[t]
    ensures Cell(before, t, k).Some? && Cell(Lessened(before, gone), t, k).None?
  {
    hide Find, Lacking, IdsOf;
    FindLacking(before[t], gone[t], k);
  }

  lemma {:induction false} SessionAgrees(stod: Stod, tables: Tables, s: seq<Transaction>)
    requires NoRows(tables) && AllRunnable(s) && Orderly(stod, tables, s) && Lossless(stod, tables, s)
    ensures AgreesThroughout(stod, tables, s) && AllUnique(TablesAfter(stod, tables, s))
    decreases |s|
  {
    hide NoRows, AllUnique, Agree, AllKeepIds, LoggedAll, AfterAll, AllKeepKeys, Lost, UndoAll, C.PerformAll, C.LegalAll;
    if s == [] {
      NoRowsAgree(tables);
    } else {
      var front, x := s[..|s| - 1], s[|s| - 1];
      SessionAgrees(stod, tables, front);
      OneTransaction(stod, TablesAfter(stod, tables, front), x, SessionReplay(stod, tables, front));
    }
  }

  /** The tables hold what the commits stand for after every transaction, iff no transaction that was
      rolled back had deleted a row of those it found. */
  lemma {:induction false} SessionAgreesIff(stod: Stod, tables: Tables, s: seq<Transaction>)
    requires NoRows(tables) && AllRunnable(s) && Orderly(stod, tables, s)
    ensures AgreesThroughout(stod, tables, s) <==> Lossless(stod, tables, s)
    decreases |s|
  {
    hide NoRows, Agree, AllKeepIds, LoggedAll, AfterAll, AllKeepKeys, Lost, UndoAll, C.PerformAll, AllUnique;
    if Lossless(stod, tables, s) {
      SessionAgrees(stod, tables, s);
    } else if AgreesThroughout(stod, tables, s) {
      var front := s[..|s| - 1];
      SessionAgreesIff(stod, tables, front);
      SessionLoses(stod, tables, s);
      assert false;
    }
  }

  lemma SessionLoses(stod: Stod, tables: Tables, s: seq<Transaction>)
    requires NoRows(tables) && AllRunnable(s) && Orderly(stod, tables, s) && s != []
    requires Lossless(stod, tables, s[..|s| - 1]) && !Lossless(stod, tables, s)
    ensures !Agree(SessionReplay(stod, tables, s), TablesAfter(stod, tables, s))
  {
    hide NoRows, AllKeepIds, LoggedAll, AfterAll, AllKeepKeys, Lost, UndoAll, AllUnique, Lessened, Cell, C.Lookup;
    var front, x := s[..|s| - 1], s[|s| - 1];
    var before, log := TablesAfter(stod, tables, front), LogAfter(stod, tables, s);
    SessionAgrees(stod, tables, front);
    SerialRollback(stod, before, x.changes);
    StatementsAreRun(stod, before, x.changes);
    ApplyAllUndone(before, log);
    var t :| t in before && Lost(log, t) != {};
    var k :| k in Lost(log, t);
    LossShows(before, LostAll(before, log), t, k);
    assert C.Lookup(SessionReplay(stod, tables, front), t, k) == Cell(before, t, k);
  }

  // ----- transactions that interleave -----

  /** The ids and rows that the commits of a run stand for, in the order of the commits. */
  ghost function ReplayOf(es: I.Trace): C.Live {
    if es == [] then map[]
    else if I.Last(es).Commit? then C.PerformAll(ReplayOf(I.Front(es)), I.LogOf(I.Front(es), I.Last(es).txn))
    else ReplayOf(I.Front(es))
  }

  /** What transaction x has written and not yet committed or taken back. */
  ghost function Open(es: I.Trace, x: nat): seq<WriteRecord> {
    if I.Finished(es, x) then [] else I.LogOf(es, x)
  }

  ghost predicate KeysKept(es: I.Trace) {
    forall e :: e in es && e.Write? ==> KeepsKey(e.w)
  }

  /** No running transaction but x has written the id. */
  ghost predicate OnlyBy(es: I.Trace, x: nat, t: string, k: string) {
    forall y :: y != x ==> C.WritesOn(Open(es, y), t, k) == []
  }

  /** No transaction that was rolled back had deleted a row of those it found. */
  ghost predicate NothingLostIn(es: I.Trace) {
    es == [] || (NothingLostIn(I.Front(es)) && (I.Last(es).Rollback? ==> LosesNothing(I.LogOf(I.Front(es), I.Last(es).txn))))
  }

  ghost predicate LosesNothing(log: seq<WriteRecord>) {
    forall t :: Lost(log, t) == {}
  }

  lemma KeysFront(es: I.Trace)
    requires KeysKept(es) && es != []
    ensures KeysKept(I.Front(es))
    ensures I.Last(es).Write? ==> KeepsKey(I.Last(es).w)
  {
    hide KeepsKey;
    assert es == I.Front(es) + [I.Last(es)];
    assert I.Last(es) in es;
  }

  lemma LookupSame(live: C.Live, other: C.Live, ws: seq<WriteRecord>, t: string, k: string)
    requires C.Lookup(live, t, k) == C.Lookup(other, t, k)
    ensures C.Lookup(C.PerformAll(live, ws), t, k) == C.Lookup(C.PerformAll(other, ws), t, k)
    decreases |ws|
  {
    hide C.Lookup, C.Perform;
    if ws != [] {
      var front, w := ws[..|ws| - 1], ws[|ws| - 1];
      LookupSame(live, other, front, t, k);
      PerformCell(C.PerformAll(live, front), w, t, k);
      PerformCell(C.PerformAll(other, front), w, t, k);
    }
  }

  lemma PerformMore(live: C.Live, ws: seq<WriteRecord>, w: WriteRecord, t: string, k: string)
    ensures C.Lookup(C.PerformAll(live, ws + [w]), t, k) ==
            if w.table == t && w.key == k then Result(w) else C.Lookup(C.PerformAll(live, ws), t, k)
  {
    hide C.Lookup, C.Perform, Result;
    assert (ws + [w])[..|ws|] == ws;
    PerformCell(C.PerformAll(live, ws), w, t, k);
  }

  /** Two running transactions have not written the same id. */
  lemma OneWriter(start: Tables, es: I.Trace, x: nat, y: nat, t: string, k: string)
    requires I.Disciplined(start, es) && x != y && C.WritesOn(Open(es, x), t, k) != []
    ensures C.WritesOn(Open(es, y), t, k) == []
  {
    hide I.Disciplined, C.WritesOn, I.LogOf, I.Finished, WellLogged;
    C.NoWritesOn(t, k);
    if !I.Finished(es, x) && !I.Finished(es, y) && C.WritesOn(Open(es, y), t, k) != [] {
      C.WritesOnAre(Open(es, x), t, k);
      C.WritesOnAre(Open(es, y), t, k);
      var v, w := C.WritesOn(Open(es, x), t, k)[0], C.WritesOn(Open(es, y), t, k)[0];
      assert v in C.WritesOn(Open(es, x), t, k) && w in C.WritesOn(Open(es, y), t, k);
      assert Involves(v, k) && Involves(w, k);
      I.LogsApart(start, es, x, y);
      assert false;
    }
  }

  /** Nor may it write an id that another one has written. */
  lemma NextWriter(start: Tables, es: I.Trace, x: nat, w: WriteRecord)
    requires I.Disciplined(start, es) && I.Covers(I.LocksAfter(es), x, w)
    ensures OnlyBy(es, x, w.table, w.key)
  {
    hide I.Disciplined, C.WritesOn, I.LogOf, I.Finished, WellLogged, I.Covers, I.LocksAfter;
    var t, k := w.table, w.key;
    C.NoWritesOn(t, k);
    forall y | y != x
      ensures C.WritesOn(Open(es, y), t, k) == []
    {
      if !I.Finished(es, y) && C.WritesOn(Open(es, y), t, k) != [] {
        C.WritesOnAre(Open(es, y), t, k);
        var v := C.WritesOn(Open(es, y), t, k)[0];
        assert v in C.WritesOn(Open(es, y), t, k);
        assert Involves(v, k) && Involves(w, k);
        I.WriteApart(start, es, y, x, w);
        assert false;
      }
    }
  }

  /** What one event does to the open writes. */
  lemma OpenStep(es: I.Trace, y: nat)
    requires es != []
    ensures var e, f := I.Last(es), I.Front(es);
      && (e.Ask? ==> Open(es, y) == Open(f, y))
      && (e.Write? && !I.Finished(f, e.txn) ==> Open(es, y) == if y == e.txn then Open(f, y) + [e.w] else Open(f, y))
      && (e.Commit? || e.Rollback? ==> Open(es, y) == if y == e.txn then [] else Open(f, y))
      && (e.Write? && y == e.txn ==> (I.Finished(es, y) <==> I.Finished(f, y)))
  {
    hide I.Finished;
    I.FinishedStep(es, y);
  }

  ghost predicate Shown(start: Tables, es: I.Trace, x: nat, t: string, k: string) {
    Cell(I.TablesAfter(start, es), t, k) == C.Lookup(C.PerformAll(ReplayOf(es), Open(es, x)), t, k)
  }

  lemma ShownWrite(start: Tables, es: I.Trace, x: nat, t: string, k: string)
    requires AllUnique(start) && I.Disciplined(start, es) && KeysKept(es) && es != [] && I.Last(es).Write?
    requires OnlyBy(es, x, t, k)
    requires OnlyBy(I.Front(es), x, t, k) ==> Shown(start, I.Front(es), x, t, k)
    ensures Shown(start, es, x, t, k)
  {
    hide AllUnique, I.Finished, I.Covers, C.Lookup, C.PerformAll, Cell, Apply, Fits, KeysKept, KeepsKey, Result,
      C.WritesOn,
      Open;
    var f, u, w := I.Front(es), I.Last(es).txn, I.Last(es).w;
    KeysFront(es);
    I.StaysUnique(start, f);
    OpenStep(es, x);
    OpenStep(es, u);
    ApplyCell(I.TablesAfter(start, f), w, t, k);
    PerformMore(ReplayOf(f), Open(f, u), w, t, k);
    C.WritesOnSnoc(Open(f, u), w, t, k);
    forall y | y != x
      ensures C.WritesOn(Open(f, y), t, k) == []
    {
      OpenStep(es, y);
      assert C.WritesOn(Open(es, y), t, k) == [];
    }
    if u != x {
      assert C.WritesOn(Open(es, u), t, k) == [];
    }
  }

  lemma ShownCommit(start: Tables, es: I.Trace, x: nat, t: string, k: string)
    requires I.Disciplined(start, es) && es != [] && I.Last(es).Commit? && OnlyBy(es, x, t, k)
    requires forall y :: OnlyBy(I.Front(es), y, t, k) ==> Shown(start, I.Front(es), y, t, k)
    ensures Shown(start, es, x, t, k)
  {
    hide I.Finished, C.Lookup, C.PerformAll, Cell, C.WritesOn, Open;
    var f, u := I.Front(es), I.Last(es).txn;
    OpenStep(es, x);
    assert Open(f, u) == I.LogOf(f, u) by {
      assert !I.Finished(f, u);
      OpenIs(f, u);
    }
    forall y | y != x && y != u
      ensures C.WritesOn(Open(f, y), t, k) == []
    {
      OpenStep(es, y);
      assert C.WritesOn(Open(es, y), t, k) == [];
    }
    var live := ReplayOf(f);
    if x == u {
      assert OnlyBy(f, u, t, k);
      PerformNone(ReplayOf(es));
    } else if C.WritesOn(Open(f, u), t, k) != [] {
      OneWriter(start, f, u, x, t, k);
      assert OnlyBy(f, u, t, k);
      C.NotMentioned(ReplayOf(es), Open(f, x), t, k);
    } else {
      assert OnlyBy(f, x, t, k);
      C.NotMentioned(live, Open(f, u), t, k);
      LookupSame(ReplayOf(es), live, Open(f, x), t, k);
    }
  }

  lemma OpenIs(es: I.Trace, x: nat)
    requires !I.Finished(es, x)
    ensures Open(es, x) == I.LogOf(es, x)
  {
  }

  lemma {:induction false} WithoutReplay(es: I.Trace, u: nat)
    requires !I.Finished(es, u)
    ensures ReplayOf(I.Without(es, u)) == ReplayOf(es) && I.LogOf(I.Without(es, u), u) == []
  {
    hide I.Finished, C.PerformAll;
    if es != [] {
      var f := I.Front(es);
      I.FinishedStep(es, u);
      WithoutReplay(f, u);
      if I.Last(es).Write? && I.Last(es).txn == u {
        assert I.Without(es, u) == I.Without(f, u);
      } else {
        I.WithoutKept(es, u);
        if I.Last(es).Commit? {
          I.WithoutLog(f, u, I.Last(es).txn);
        }
      }
    }
  }

  lemma {:induction false} WithoutIn(es: I.Trace, u: nat)
    ensures forall e :: e in I.Without(es, u) ==> e in es
  {
    if es != [] {
      WithoutIn(I.Front(es), u);
      assert es == I.Front(es) + [I.Last(es)];
    }
  }

  lemma {:induction false} WithoutLosses(es: I.Trace, u: nat)
    requires !I.Finished(es, u) && NothingLostIn(es)
    ensures NothingLostIn(I.Without(es, u))
  {
    hide I.Finished, LosesNothing;
    if es != [] {
      var f := I.Front(es);
      I.FinishedStep(es, u);
      WithoutLosses(f, u);
      if I.Last(es).Write? && I.Last(es).txn == u {
        assert I.Without(es, u) == I.Without(f, u);
      } else {
        I.WithoutKept(es, u);
        if I.Last(es).Rollback? {
          I.WithoutLog(f, u, I.Last(es).txn);
        }
      }
    }
  }

  lemma WithoutKeeps(es: I.Trace, u: nat)
    requires !I.Finished(es, u)
    ensures ReplayOf(I.Without(es, u)) == ReplayOf(es) && I.LogOf(I.Without(es, u), u) == []
    ensures KeysKept(es) ==> KeysKept(I.Without(es, u))
    ensures NothingLostIn(es) ==> NothingLostIn(I.Without(es, u))
  {
    hide I.Finished, I.Without, I.LogOf, ReplayOf, NothingLostIn, KeepsKey;
    WithoutReplay(es, u);
    WithoutIn(es, u);
    if NothingLostIn(es) {
      WithoutLosses(es, u);
    }
  }

  lemma WithoutOpen(es: I.Trace, u: nat, y: nat)
    requires !I.Finished(es, u)
    ensures Open(I.Without(es, u), y) == if y == u then [] else Open(es, y)
  {
    hide I.Finished;
    I.WithoutFinished(es, u, y);
    WithoutKeeps(es, u);
    if y != u {
      I.WithoutLog(es, u, y);
    }
  }

  lemma ShownRollback(start: Tables, es: I.Trace, x: nat, t: string, k: string)
    requires AllUnique(start) && I.Disciplined(start, es) && es != [] && I.Last(es).Rollback? && OnlyBy(es, x, t, k)
    requires !I.Finished(I.Front(es), I.Last(es).txn) && NothingLostIn(es)
    requires var g := I.Without(I.Front(es), I.Last(es).txn); OnlyBy(g, x, t, k) ==> Shown(start, g, x, t, k)
    ensures Shown(start, es, x, t, k)
  {
    hide AllUnique, I.Finished, C.Lookup, C.PerformAll, Cell, C.WritesOn, Open, UndoAll, I.LogOf, I.Without, Lessened, Lost;
    var f, u := I.Front(es), I.Last(es).txn;
    I.RollbackRestores(start, f, u);
    assert LosesNothing(I.LogOf(f, u));
    WithoutKeeps(f, u);
    WithoutOpen(f, u, x);
    OpenStep(es, x);
    forall y | y != x
      ensures C.WritesOn(Open(I.Without(f, u), y), t, k) == []
    {
      WithoutOpen(f, u, y);
      OpenStep(es, y);
      C.NoWritesOn(t, k);
      assert C.WritesOn(Open(es, y), t, k) == [];
    }
  }

  /** In every disciplined run, at any point: the tables in memory show under an id the replay of the
      commits so far, and on top of it what the one running transaction that wrote the id did. */
  lemma {:induction false} InMemory(start: Tables, es: I.Trace, x: nat, t: string, k: string)
    requires NoRows(start) && I.Disciplined(start, es) && KeysKept(es) && NothingLostIn(es) && OnlyBy(es, x, t, k)
    ensures Shown(start, es, x, t, k)
    decreases |es|
  {
    hide NoRows, I.Lawful, OnlyBy, Shown, KeysKept, I.Finished, I.Without, LosesNothing, Lessened;
    NoRowsAgree(start);
    if es == [] {
      ShownNothing(start, es, x, t, k);
    } else {
      var f := I.Front(es);
      KeysFront(es);
      if OnlyBy(f, x, t, k) {
        InMemory(start, f, x, t, k);
      }
      match I.Last(es) {
        case Ask(_, _, _) => ShownAsk(start, es, x, t, k);
        case Write(_, _) => ShownWrite(start, es, x, t, k);
        case Commit(_) =>
          forall y | OnlyBy(f, y, t, k) ensures Shown(start, f, y, t, k) {
            InMemory(start, f, y, t, k);
          }
          ShownCommit(start, es, x, t, k);
        case Rollback(u) =>
          assert !I.Finished(f, u) by { EndsOpen(start, es); }
          I.RollbackRestores(start, f, u);
          I.WithoutFinished(f, u, u);
          WithoutKeeps(f, u);
          if OnlyBy(I.Without(f, u), x, t, k) {
            InMemory(start, I.Without(f, u), x, t, k);
          }
          ShownRollback(start, es, x, t, k);
      }
    }
  }

  lemma EndsOpen(start: Tables, es: I.Trace)
    requires es != [] && I.Disciplined(start, es) && (I.Last(es).Rollback? || I.Last(es).Commit?)
    ensures !I.Finished(I.Front(es), I.Last(es).txn)
  {
  }

  lemma ShownNothing(start: Tables, es: I.Trace, x: nat, t: string, k: string)
    requires NoRows(start) && es == []
    ensures Shown(start, es, x, t, k)
  {
    NoRowsAgree(start);
  }

  lemma ShownAsk(start: Tables, es: I.Trace, x: nat, t: string, k: string)
    requires es != [] && I.Last(es).Ask? && OnlyBy(es, x, t, k)
    requires OnlyBy(I.Front(es), x, t, k) ==> Shown(start, I.Front(es), x, t, k)
    ensures Shown(start, es, x, t, k)
  {
    hide Open, C.WritesOn, I.Finished, C.PerformAll;
    OpenStep(es, x);
    forall y | y != x
      ensures C.WritesOn(Open(I.Front(es), y), t, k) == []
    {
      OpenStep(es, y);
      assert C.WritesOn(Open(es, y), t, k) == [];
    }
  }

  lemma {:induction false} LogKeepsKeys(es: I.Trace, x: nat)
    requires KeysKept(es)
    ensures AllKeepKeys(I.LogOf(es, x))
  {
    hide KeepsKey;
    if es != [] {
      KeysFront(es);
      LogKeepsKeys(I.Front(es), x);
    }
  }

  /** A rollback that loses a row leaves the tables without it, although the commits stand for it. */
  lemma LossHides(start: Tables, es: I.Trace, t: string, k: string)
    requires NoRows(start) && I.Disciplined(start, es) && KeysKept(es) && es != [] && I.Last(es).Rollback?
    requires NothingLostIn(I.Front(es)) && k in Lost(I.LogOf(I.Front(es), I.Last(es).txn), t)
    ensures OnlyBy(es, I.Last(es).txn, t, k) && !Shown(start, es, I.Last(es).txn, t, k)
  {
    hide NoRows, AllUnique, I.Finished, C.Lookup, C.PerformAll, Cell, C.WritesOn, Open, UndoAll, I.LogOf, I.Without, Lessened,
      Lost, KeysKept, NothingLostIn, Undoable, I.Disciplined, Present, KeepsKey, OnlyBy, I.TablesAfter, ReplayOf;
    var f, u := I.Front(es), I.Last(es).txn;
    var log := I.LogOf(f, u);
    NoRowsAgree(start);
    DisciplinedFront(start, es);
    KeysFront(es);
    I.RollbackLeaves(start, f, u);
    LosingWriter(start, es, t, k);
    var g := I.Without(f, u);
    var others := I.TablesAfter(start, g);
    I.KeysStay(start, g);
    I.KeysStay(start, f);
    LossShows(others, LostAll(others, log), t, k);
    WithoutKeeps(f, u);
    InMemory(start, g, u, t, k);
    WithoutOpen(f, u, u);
    OpenStep(es, u);
    RolledBack(start, es);
  }

  lemma RolledBack(start: Tables, es: I.Trace)
    requires es != [] && I.Last(es).Rollback?
    ensures var f, u := I.Front(es), I.Last(es).txn;
      I.TablesAfter(start, es) == UndoAll(I.TablesAfter(start, f), I.LogOf(f, u)) && ReplayOf(es) == ReplayOf(f)
  {
  }

  lemma DisciplinedFront(start: Tables, es: I.Trace)
    requires es != [] && I.Disciplined(start, es) && I.Last(es).Rollback?
    ensures I.Disciplined(start, I.Front(es)) && !I.Finished(I.Front(es), I.Last(es).txn)
  {
  }

  /** Only the transaction that lost the row has written it. */
  lemma LosingWriter(start: Tables, es: I.Trace, t: string, k: string)
    requires I.Disciplined(start, es) && KeysKept(es) && es != [] && I.Last(es).Rollback?
    requires k in Lost(I.LogOf(I.Front(es), I.Last(es).txn), t)
    ensures t in start
    ensures var f, u := I.Front(es), I.Last(es).txn; OnlyBy(es, u, t, k) && OnlyBy(I.Without(f, u), u, t, k)
  {
    hide AllUnique, I.Finished, C.WritesOn, Open, I.LogOf, I.Without, KeysKept, Deleted, I.Disciplined, KeepsKey;
    var f, u := I.Front(es), I.Last(es).txn;
    DisciplinedFront(start, es);
    KeysFront(es);
    LogKeepsKeys(f, u);
    DeletedInvolved(I.LogOf(f, u), t, {}, k);
    var v :| v in I.LogOf(f, u) && v.table == t && Involves(v, k);
    KeyInvolved(v, k);
    I.KeysStay(start, f);
    C.WritesOnAre(I.LogOf(f, u), t, k);
    OpenIs(f, u);
    assert v in C.WritesOn(Open(f, u), t, k);
    forall y | y != u
      ensures C.WritesOn(Open(es, y), t, k) == [] && C.WritesOn(Open(I.Without(f, u), y), t, k) == []
    {
      OneWriter(start, f, u, y, t, k);
      OpenStep(es, y);
      WithoutOpen(f, u, y);
    }
  }

  lemma KeyInvolved(v: WriteRecord, k: string)
    requires KeepsKey(v) && Involves(v, k)
    ensures v.key == k
  {
  }

  ghost predicate ShownAll(start: Tables, es: I.Trace) {
    forall x, t, k :: OnlyBy(es, x, t, k) ==> Shown(start, es, x, t, k)
  }

  ghost predicate ShownThroughout(start: Tables, es: I.Trace) {
    ShownAll(start, es) && (es != [] ==> ShownThroughout(start, I.Front(es)))
  }

  /** The tables show the commits and the open writes at every point of an interleaving, iff no
      transaction that was rolled back had deleted a row of those it found. */
  lemma {:induction false} InMemoryIff(start: Tables, es: I.Trace)
    requires NoRows(start) && I.Disciplined(start, es) && KeysKept(es)
    ensures ShownThroughout(start, es) <==> NothingLostIn(es)
    decreases |es|
  {
    hide NoRows, I.Lawful, OnlyBy, Shown, KeysKept, Lost;
    if es != [] {
      KeysFront(es);
      InMemoryIff(start, I.Front(es));
    }
    if NothingLostIn(es) {
      forall x, t, k | OnlyBy(es, x, t, k)
        ensures Shown(start, es, x, t, k)
      {
        InMemory(start, es, x, t, k);
      }
    } else if NothingLostIn(I.Front(es)) {
      var t :| Lost(I.LogOf(I.Front(es), I.Last(es).txn), t) != {};
      var k :| k in Lost(I.LogOf(I.Front(es), I.Last(es).txn), t);
      LossHides(start, es, t, k);
    }
  }

  /** When no transaction is running, the tables hold exactly the replay of the commits. */
  lemma QuietAgrees(start: Tables, es: I.Trace)
    requires NoRows(start) && I.Disciplined(start, es) && KeysKept(es) && NothingLostIn(es)
    requires forall x :: Open(es, x) == []
    ensures Agree(ReplayOf(es), I.TablesAfter(start, es))
  {
    hide Cell, C.Lookup, I.Disciplined, Open, KeysKept, NoRows, C.WritesOn, NothingLostIn;
    forall t, k
      ensures C.Lookup(ReplayOf(es), t, k) == Cell(I.TablesAfter(start, es), t, k)
    {
      C.NoWritesOn(t, k);
      InMemory(start, es, 0, t, k);
      PerformNone(ReplayOf(es));
    }
  }

  // ----- the log of such a run -----

  lemma {:induction false} LegalElsewhere(live: C.Live, other: C.Live, ws: seq<WriteRecord>)
    requires C.LegalAll(live, ws) && forall w :: w in ws ==> C.Lookup(live, w.table, w.key) == C.Lookup(other, w.table, w.key)
    ensures C.LegalAll(other, ws)
    decreases |ws|
  {
    hide C.Lookup, C.PerformAll;
    if ws != [] {
      var front, w := ws[..|ws| - 1], ws[|ws| - 1];
      LegalElsewhere(live, other, front);
      assert w in ws;
      LookupSame(live, other, front, w.table, w.key);
      LegalByLookup(C.PerformAll(live, front), C.PerformAll(other, front), w);
    }
  }

  lemma LegalByLookup(live: C.Live, other: C.Live, w: WriteRecord)
    requires C.Legal(live, w) && C.Lookup(live, w.table, w.key) == C.Lookup(other, w.table, w.key)
    ensures C.Legal(other, w)
  {
  }

  /** The writes of a running transaction are legal after the commits so far. */
  lemma {:induction false} OpenLegal(start: Tables, es: I.Trace, x: nat)
    requires NoRows(start) && I.Disciplined(start, es) && KeysKept(es) && NothingLostIn(es)
    ensures C.LegalAll(ReplayOf(es), Open(es, x))
    decreases |es|
  {
    hide NoRows, I.Finished, C.Legal, C.PerformAll, Open, KeysKept, KeepsKey, I.Covers, Fits, C.Lookup, C.WritesOn,
      Cell, Shown,
      Apply, AllUnique, UndoAll;
    if es == [] {
      C.LegalNone(ReplayOf(es));
      OpenNothing(es, x);
    } else {
      var f, e := I.Front(es), I.Last(es);
      KeysFront(es);
      OpenLegal(start, f, x);
      OpenStep(es, x);
      if e.Write? && e.txn == x {
        NextLegal(start, f, x, e.w);
        assert (Open(f, x) + [e.w])[..|Open(f, x)|] == Open(f, x);
      } else if e.Commit? && e.txn != x {
        assert !I.Finished(f, e.txn);
        OpenIs(f, e.txn);
        CommitApart(start, f, e.txn, x);
        LegalElsewhere(ReplayOf(f), ReplayOf(es), Open(f, x));
      } else if e.Commit? || e.Rollback? {
        C.LegalNone(ReplayOf(es));
      }
    }
  }

  lemma OpenNothing(es: I.Trace, x: nat)
    requires es == []
    ensures Open(es, x) == []
  {
  }

  lemma NextLegal(start: Tables, f: I.Trace, x: nat, w: WriteRecord)
    requires NoRows(start) && I.Disciplined(start, f) && KeysKept(f) && NothingLostIn(f) && KeepsKey(w)
    requires I.Covers(I.LocksAfter(f), x, w) && Fits(I.TablesAfter(start, f), w)
    ensures C.Legal(C.PerformAll(ReplayOf(f), Open(f, x)), w)
  {
    hide NoRows, I.Disciplined, C.Legal, C.PerformAll, Open, KeysKept, KeepsKey, I.Covers, Fits, C.Lookup, C.WritesOn,
      Cell,
      AllUnique;
    NoRowsAgree(start);
    I.StaysUnique(start, f);
    NextWriter(start, f, x, w);
    InMemory(start, f, x, w.table, w.key);
    FitsLegal(I.TablesAfter(start, f), C.PerformAll(ReplayOf(f), Open(f, x)), w);
  }

  /** A commit changes no id that another running transaction has written. */
  lemma CommitApart(start: Tables, f: I.Trace, u: nat, x: nat)
    requires I.Disciplined(start, f) && u != x
    ensures forall w :: w in Open(f, x) ==>
      C.Lookup(ReplayOf(f), w.table, w.key) == C.Lookup(C.PerformAll(ReplayOf(f), Open(f, u)), w.table, w.key)
  {
    hide I.Disciplined, C.PerformAll, Open, C.Lookup, C.WritesOn;
    forall w | w in Open(f, x)
      ensures C.Lookup(ReplayOf(f), w.table, w.key) == C.Lookup(C.PerformAll(ReplayOf(f), Open(f, u)), w.table, w.key)
    {
      C.WritesOnAre(Open(f, x), w.table, w.key);
      OneWriter(start, f, x, u, w.table, w.key);
      C.NotMentioned(ReplayOf(f), Open(f, u), w.table, w.key);
    }
  }

  /** The calls that append to the log: begins at any time, and the end of each transaction with the
      writes it has made. */
  ghost predicate Appended(es: I.Trace, h: seq<C.Chunk>)
    decreases |es| + |h|
  {
    if h != [] && h[|h| - 1].event.Begun? then C.Faithful(h[|h| - 1]) && Appended(es, h[..|h| - 1])
    else if es == [] then h == []
    else
      var e, f := I.Last(es), I.Front(es);
      if e.Ask? || e.Write? then Appended(f, h)
      else
        && h != [] && C.Faithful(h[|h| - 1]) && Appended(f, h[..|h| - 1])
        && h[|h| - 1].event == (if e.Commit? then C.Committed(e.txn, I.LogOf(f, e.txn)) else C.Aborted(e.txn, I.LogOf(f, e.txn)))
  }

  ghost predicate EndsKnown(es: I.Trace, h: seq<C.Chunk>) {
    forall c :: c in h && !c.event.Begun? ==> I.Finished(es, c.event.txn)
  }

  lemma EndsStill(f: I.Trace, es: I.Trace, h: seq<C.Chunk>)
    requires EndsKnown(f, h) && es != [] && f == I.Front(es)
    ensures EndsKnown(es, h)
  {
    hide I.Finished;
    forall c | c in h && !c.event.Begun?
      ensures I.Finished(es, c.event.txn)
    {
      I.FinishedStep(es, c.event.txn);
    }
  }

  /** The log of a disciplined run is a history in which every id ends once, and its replay is that of
      the run. */
  lemma {:induction false} RunIsHistory(start: Tables, es: I.Trace, h: seq<C.Chunk>)
    requires NoRows(start) && I.Disciplined(start, es) && KeysKept(es) && NothingLostIn(es) && Appended(es, h)
    ensures C.History(h) && C.EndsOnce(h) && C.Replay(h) == ReplayOf(es) && EndsKnown(es, h)
    decreases |es| + |h|
  {
    hide NoRows, I.Lawful, KeysKept, C.Faithful, C.History, C.Replay, I.Finished, C.PerformAll, C.LegalAll, EndsKnown,
      C.EndsOnce, Open;
    if h != [] && h[|h| - 1].event.Begun? {
      var early, c := h[..|h| - 1], h[|h| - 1];
      RunIsHistory(start, es, early);
      BegunExtends(early, c);
      assert h == early + [c];
      KnownWithBegun(es, early, c);
    } else if es == [] {
      EmptyHistory();
      KnownNothing(es, h);
    } else {
      var e, f := I.Last(es), I.Front(es);
      KeysFront(es);
      if e.Ask? || e.Write? {
        RunIsHistory(start, f, h);
        EndsStill(f, es, h);
      } else {
        var early, c := h[..|h| - 1], h[|h| - 1];
        RunIsHistory(start, f, early);
        EndsStill(f, es, early);
        EndsOpen(start, es);
        OpenLegal(start, f, e.txn);
        OpenIs(f, e.txn);
        assert !C.Ends(early, e.txn) by { NotKnown(f, early, e.txn); }
        EndExtends(early, c);
        assert h == early + [c];
        PerformNone(C.Replay(early));
        KnownWithEnd(es, early, c);
      }
    }
  }

  lemma KnownNothing(es: I.Trace, h: seq<C.Chunk>)
    requires h == []
    ensures EndsKnown(es, h)
  {
  }

  lemma KnownWithBegun(es: I.Trace, h: seq<C.Chunk>, c: C.Chunk)
    requires EndsKnown(es, h) && c.event.Begun?
    ensures EndsKnown(es, h + [c])
  {
    hide I.Finished;
  }

  lemma NotKnown(es: I.Trace, h: seq<C.Chunk>, txn: nat)
    requires EndsKnown(es, h) && !I.Finished(es, txn)
    ensures !C.Ends(h, txn)
  {
    hide I.Finished;
  }

  lemma KnownWithEnd(es: I.Trace, h: seq<C.Chunk>, c: C.Chunk)
    requires EndsKnown(es, h) && es != [] && !c.event.Begun?
    requires I.Last(es) == I.Commit(c.event.txn) || I.Last(es) == I.Rollback(c.event.txn)
    ensures EndsKnown(es, h + [c])
  {
    hide I.Finished;
    I.FinishedStep(es, c.event.txn);
  }

  /** Any part of the log, from its start, is the log of a part of the run. */
  lemma {:induction false} LogPrefix(start: Tables, es: I.Trace, h: seq<C.Chunk>, j: nat) returns (m: nat)
    requires I.Disciplined(start, es) && KeysKept(es) && NothingLostIn(es) && Appended(es, h) && j <= |h|
    ensures m <= |es| && I.Disciplined(start, es[..m]) && KeysKept(es[..m]) && NothingLostIn(es[..m]) && Appended(es[..m], h[..j])
    decreases |es| + |h|
  {
    hide I.Lawful, C.Faithful, KeepsKey;
    assert h[..|h|] == h && es[..|es|] == es;
    if j == |h| {
      m := |es|;
    } else {
      var early := h[..|h| - 1];
      assert early[..j] == h[..j];
      if h[|h| - 1].event.Begun? {
        m := LogPrefix(start, es, early, j);
      } else {
        var f := I.Front(es);
        m := LogPrefix(start, f, if I.Last(es).Ask? || I.Last(es).Write? then h else early, j);
        assert f[..m] == es[..m];
      }
    }
  }

  /** Cut the log of any disciplined interleaving at any byte. The whole calls are those of a part of
      the run; and if no transaction is running after that part, recovery gives the ids and rows that
      the tables had in memory then, iff what the crash leaves to undo is harmless. */
  lemma RunRecovers(start: Tables, es: I.Trace, h: seq<C.Chunk>, n: nat) returns (m: nat)
    requires NoRows(start) && I.Disciplined(start, es) && KeysKept(es) && NothingLostIn(es) && Appended(es, h)
    requires AllFit(C.LogOf(h)) && n <= |EncodeAll(C.LogOf(h))|
    ensures var j := C.Durable(h, n);
      && C.History(h) && m <= |es| && Appended(es[..m], h[..j])
      && (C.RecoversAt(h, n) <==> C.AllHarmless(ReplayOf(es[..m]), C.Unfinished(h, n)))
      && ((forall x :: Open(es[..m], x) == []) ==>
            (SameCells(Recover(map[], ReadAll(EncodeAll(C.LogOf(h))[..n])), I.TablesAfter(start, es[..m])) <==>
             C.AllHarmless(ReplayOf(es[..m]), C.Unfinished(h, n))))
  {
    hide NoRows, I.Disciplined, KeysKept, Appended, C.History, C.Replay, C.Durable, C.LogOf, EncodeAll, ReadAll,
      Recover, Cell, C.Lookup, C.AllHarmless, C.Unfinished, AllFit, Open, ReplayOf, I.TablesAfter, C.EndsOnce, C.Separate,
      C.SeparateAt;
    var j := C.Durable(h, n);
    RunIsHistory(start, es, h);
    m := LogPrefix(start, es, h, j);
    RunIsHistory(start, es[..m], h[..j]);
    C.OnceSeparate(h);
    C.SeparateMeans(h, n);
    C.CrashRecoversIff(h, n);
    if forall x :: Open(es[..m], x) == [] {
      QuietAgrees(start, es[..m]);
    }
  }
}
