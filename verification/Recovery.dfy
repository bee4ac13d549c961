/** Crash recovery: redo what committed transactions logged, then undo the rest backwards. */
module Recovery {
  import opened Options
  import opened Rows
  import opened RowText
  import opened WalCodec

  // ----- what one record does to a table -----

  /** row["id"] gives a row without an id an empty one. */
  function WithId(row: Row): (r: Row)
    ensures ID in r
  {
    if ID in row then row else row[ID := ""]
  }

  /** Overwrite the first row with id k, or add the row at the end. */
  function Upsert(rows: seq<Row>, k: string, row: Row): seq<Row> {
    if rows == [] then [row]
    else if WithId(rows[0])[ID] == k then [row] + rows[1..]
    else [WithId(rows[0])] + Upsert(rows[1..], k, row)
  }

  /** Overwrite the first row with id k, if there is one. */
  function Overwrite(rows: seq<Row>, k: string, row: Row): seq<Row> {
    if rows == [] then []
    else if WithId(rows[0])[ID] == k then [row] + rows[1..]
    else [WithId(rows[0])] + Overwrite(rows[1..], k, row)
  }

  /** The rows, with an empty id where there is none: looking up row["id"] puts it there. */
  function Filled(rows: seq<Row>): (r: seq<Row>)
    ensures |r| == |rows|
    ensures forall i :: 0 <= i < |rows| ==> r[i] == if ID in rows[i] then rows[i] else rows[i][ID := ""]
  {
    if rows == [] then [] else [WithId(rows[0])] + Filled(rows[1..])
  }

  /** Both loops go up to the first row with the id, a row without one having the empty id, and fill in
      the ids that are missing on the way; then that row is replaced, and if there is none the upsert
      adds one. */
  lemma {:induction false} LoopsFill(rows: seq<Row>, k: string, row: Row, i: nat)
    requires i <= |rows| && (forall j :: 0 <= j < i ==> IdOf(rows[j]) != k) && (i < |rows| ==> IdOf(rows[i]) == k)
    ensures Upsert(rows, k, row) == Filled(rows[..i]) + [row] + (if i < |rows| then rows[i + 1..] else [])
    ensures Overwrite(rows, k, row) == Filled(rows[..i]) + (if i < |rows| then [row] + rows[i + 1..] else [])
  {
    hide Upsert, Overwrite, Filled, WithId, IdOf;
    if i > 0 {
      LoopsFill(rows[1..], k, row, i - 1);
      LoopsPass(rows, k, row);
      assert rows[..i] == [rows[0]] + rows[1..][..i - 1];
      FilledFirst(rows[0], rows[1..][..i - 1]);
    } else {
      assert rows[..0] == [];
      LoopsMeet(rows, k, row);
    }
  }

  lemma LoopsMeet(rows: seq<Row>, k: string, row: Row)
    requires rows != [] ==> IdOf(rows[0]) == k
    ensures Upsert(rows, k, row) == Filled([]) + [row] + (if rows != [] then rows[1..] else [])
    ensures Overwrite(rows, k, row) == Filled([]) + (if rows != [] then [row] + rows[1..] else [])
  {
  }

  lemma LoopsPass(rows: seq<Row>, k: string, row: Row)
    requires rows != [] && IdOf(rows[0]) != k
    ensures Upsert(rows, k, row) == [WithId(rows[0])] + Upsert(rows[1..], k, row)
    ensures Overwrite(rows, k, row) == [WithId(rows[0])] + Overwrite(rows[1..], k, row)
  {
  }

  lemma FilledFirst(row: Row, rows: seq<Row>)
    ensures Filled([row] + rows) == [WithId(row)] + Filled(rows)
  {
    hide WithId;
    assert ([row] + rows)[1..] == rows;
  }

  /** One round of the redo loop or of the undo loop. */
  datatype Step = Redo(rec: LogRecord) | Undo(rec: LogRecord)

  function StepRows(rows: seq<Row>, s: Step): seq<Row> {
    match s
    case Redo(r) =>
      if r.kind.Insert? then if HasRow(rows, r.key) then rows else rows + [Deserialized(r.newValue)]
      else if r.kind.Update? then Upsert(rows, r.key, Deserialized(r.newValue))
      else if r.kind.Delete? then RemoveId(rows, r.key)
      else rows
    case Undo(r) =>
      if r.kind.Insert? then RemoveId(rows, r.key)
      else if r.kind.Update? || r.kind.Delete? then Overwrite(rows, r.key, Deserialized(r.oldValue))
      else rows
  }

  predicate IsWrite(r: LogRecord) {
    r.kind.Insert? || r.kind.Update? || r.kind.Delete?
  }

  function DoStep(tables: Tables, s: Step): Tables {
    if IsWrite(s.rec) then tables[s.rec.table := StepRows(TableOf(tables, s.rec.table), s)] else tables
  }

  function Play(tables: Tables, steps: seq<Step>): Tables {
    if steps == [] then tables else DoStep(Play(tables, steps[..|steps| - 1]), steps[|steps| - 1])
  }

  // ----- the whole of recovery -----

  function CommittedIn(rs: seq<LogRecord>): set<nat> {
    set r | r in rs && r.kind.Commit? :: r.txnId
  }

  /** The redo loop: forwards over the records of committed transactions. */
  function RedoSteps(rs: seq<LogRecord>, committed: set<nat>): seq<Step> {
    if rs == [] then []
    else
      RedoSteps(rs[..|rs| - 1], committed) +
      (if rs[|rs| - 1].txnId in committed then [Redo(rs[|rs| - 1])] else [])
  }

  /** The undo loop: backwards over all other records, aborted transactions included. */
  function UndoSteps(rs: seq<LogRecord>, committed: set<nat>): seq<Step> {
    if rs == [] then []
    else
      (if rs[|rs| - 1].txnId in committed then [] else [Undo(rs[|rs| - 1])]) +
      UndoSteps(rs[..|rs| - 1], committed)
  }

  lemma StepsSnoc(rs: seq<LogRecord>, r: LogRecord, committed: set<nat>)
    ensures RedoSteps(rs + [r], committed) ==
            RedoSteps(rs, committed) + (if r.txnId in committed then [Redo(r)] else [])
    ensures UndoSteps(rs + [r], committed) ==
            (if r.txnId in committed then [] else [Undo(r)]) + UndoSteps(rs, committed)
  {
    assert (rs + [r])[..|rs|] == rs;
  }

  lemma NoSteps(committed: set<nat>)
    ensures RedoSteps([], committed) == [] && UndoSteps([], committed) == []
  {
  }

  lemma {:induction false} StepsConcat(a: seq<LogRecord>, b: seq<LogRecord>, committed: set<nat>)
    ensures RedoSteps(a + b, committed) == RedoSteps(a, committed) + RedoSteps(b, committed)
    ensures UndoSteps(a + b, committed) == UndoSteps(b, committed) + UndoSteps(a, committed)
    decreases |b|
  {
    hide RedoSteps, UndoSteps;
    if b == [] {
      assert a + b == a;
      NoSteps(committed);
    } else {
      var front, last := b[..|b| - 1], b[|b| - 1];
      StepsConcat(a, front, committed);
      StepsSnoc(a + front, last, committed);
      StepsSnoc(front, last, committed);
      assert b == front + [last] && a + b == (a + front) + [last];
    }
  }

  function Steps(rs: seq<LogRecord>): seq<Step> {
    RedoSteps(rs, CommittedIn(rs)) + UndoSteps(rs, CommittedIn(rs))
  }

  function Recover(tables: Tables, rs: seq<LogRecord>): Tables {
    Play(tables, Steps(rs))
  }

  // ----- storage as a map from ids to rows -----

  function Find(rows: seq<Row>, k: string): Option<Row> {
    if rows == [] then None
    else if HasId(rows[0], k) then Some(rows[0])
    else Find(rows[1..], k)
  }

  function Cell(tables: Tables, t: string, k: string): Option<Row> {
    Find(TableOf(tables, t), k)
  }

  ghost predicate SameCells(a: Tables, b: Tables) {
    forall t, k :: Cell(a, t, k) == Cell(b, t, k)
  }

  ghost predicate HaveIds(rows: seq<Row>) {
    forall row :: row in rows ==> ID in row
  }

  ghost predicate AllHaveIds(tables: Tables) {
    forall t :: t in tables ==> HaveIds(tables[t])
  }

  /** The rows that the record writes carry its key as their id. */
  ghost predicate Sound(s: Step) {
    match s
    case Redo(r) => r.kind.Insert? || r.kind.Update? ==> HasId(Deserialized(r.newValue), r.key)
    case Undo(r) => r.kind.Update? || r.kind.Delete? ==> HasId(Deserialized(r.oldValue), r.key)
  }

  /** What a step does to the one id it is about. */
  function StepCell(c: Option<Row>, s: Step): Option<Row> {
    match s
    case Redo(r) =>
      if r.kind.Insert? then if c.Some? then c else Some(Deserialized(r.newValue))
      else if r.kind.Update? then Some(Deserialized(r.newValue))
      else if r.kind.Delete? then None
      else c
    case Undo(r) =>
      if r.kind.Insert? then None
      else if r.kind.Update? || r.kind.Delete? then if c.Some? then Some(Deserialized(r.oldValue)) else None
      else c
  }

  predicate About(s: Step, t: string, k: string) {
    IsWrite(s.rec) && s.rec.table == t && s.rec.key == k
  }

  function PlayCell(c: Option<Row>, steps: seq<Step>, t: string, k: string): Option<Row> {
    if steps == [] then c
    else
      var before := PlayCell(c, steps[..|steps| - 1], t, k);
      if About(steps[|steps| - 1], t, k) then StepCell(before, steps[|steps| - 1]) else before
  }

  // ----- steps act on ids one by one -----

  lemma {:induction false} FindRemove(rows: seq<Row>, x: string, k: string)
    ensures Find(RemoveId(rows, x), k) == if x == k then None else Find(rows, k)
  {
    if rows != [] {
      FindRemove(rows[1..], x, k);
      if HasId(rows[0], x) {
        assert RemoveId(rows, x) == RemoveId(rows[1..], x);
      } else {
        assert RemoveId(rows, x)[1..] == RemoveId(rows[1..], x);
      }
    }
  }

  lemma {:induction false} FindPush(rows: seq<Row>, row: Row, k: string)
    ensures Find(rows + [row], k) ==
            if Find(rows, k).Some? then Find(rows, k) else if HasId(row, k) then Some(row) else None
  {
    hide HasId;
    if rows == [] {
      assert rows + [row] == [row] && [row][1..] == [];
    } else {
      FindPush(rows[1..], row, k);
      assert (rows + [row])[1..] == rows[1..] + [row];
    }
  }

  lemma {:induction false} FindHasRow(rows: seq<Row>, k: string)
    ensures HasRow(rows, k) <==> Find(rows, k).Some?
  {
    if rows != [] {
      FindHasRow(rows[1..], k);
      if HasRow(rows, k) && !HasId(rows[0], k) {
        var i :| 0 <= i < |rows| && HasId(rows[i], k);
        assert HasId(rows[1..][i - 1], k);
      }
      if HasRow(rows[1..], k) {
        var i :| 0 <= i < |rows[1..]| && HasId(rows[1..][i], k);
        assert HasId(rows[i + 1], k);
      }
    }
  }

  lemma {:induction false} FindUpsert(rows: seq<Row>, x: string, row: Row, k: string)
    requires HaveIds(rows) && HasId(row, x)
    ensures Find(Upsert(rows, x, row), k) == if x == k then Some(row) else Find(rows, k)
    ensures HaveIds(Upsert(rows, x, row))
  {
    if rows != [] {
      assert ID in rows[0];
      FindUpsert(rows[1..], x, row, k);
      var after := Upsert(rows, x, row);
      assert after[1..] == if HasId(rows[0], x) then rows[1..] else Upsert(rows[1..], x, row);
    }
  }

  lemma {:induction false} FindOverwrite(rows: seq<Row>, x: string, row: Row, k: string)
    requires HaveIds(rows) && HasId(row, x)
    ensures Find(Overwrite(rows, x, row), k) ==
            if x == k then (if Find(rows, k).Some? then Some(row) else None) else Find(rows, k)
    ensures HaveIds(Overwrite(rows, x, row))
  {
    if rows != [] {
      assert ID in rows[0];
      FindOverwrite(rows[1..], x, row, k);
      var after := Overwrite(rows, x, row);
      assert after[1..] == if HasId(rows[0], x) then rows[1..] else Overwrite(rows[1..], x, row);
    }
  }

  lemma {:induction false} RemoveHaveIds(rows: seq<Row>, x: string)
    requires HaveIds(rows)
    ensures HaveIds(RemoveId(rows, x))
  {
    if rows != [] {
      RemoveHaveIds(rows[1..], x);
    }
  }

  lemma StepFind(rows: seq<Row>, s: Step, k: string)
    requires HaveIds(rows) && Sound(s) && IsWrite(s.rec)
    ensures HaveIds(StepRows(rows, s))
    ensures Find(StepRows(rows, s), k) == if s.rec.key == k then StepCell(Find(rows, k), s) else Find(rows, k)
  {
    hide Find, RemoveId, Upsert, Overwrite, Deserialized, HasRow;
    var r := s.rec;
    if s.Redo? {
      var new_ := Deserialized(r.newValue);
      if r.kind.Insert? {
        FindHasRow(rows, r.key);
        FindPush(rows, new_, k);
      } else if r.kind.Update? {
        FindUpsert(rows, r.key, new_, k);
      } else {
        FindRemove(rows, r.key, k);
        RemoveHaveIds(rows, r.key);
      }
    } else if r.kind.Insert? {
      FindRemove(rows, r.key, k);
      RemoveHaveIds(rows, r.key);
    } else {
      FindOverwrite(rows, r.key, Deserialized(r.oldValue), k);
    }
  }

  lemma StepIsCell(tables: Tables, s: Step, t: string, k: string)
    requires AllHaveIds(tables) && Sound(s)
    ensures AllHaveIds(DoStep(tables, s))
    ensures Cell(DoStep(tables, s), t, k) ==
            if About(s, t, k) then StepCell(Cell(tables, t, k), s) else Cell(tables, t, k)
  {
    hide Find, StepRows, StepCell, Sound;
    if IsWrite(s.rec) {
      assert HaveIds(TableOf(tables, s.rec.table));
      StepFind(TableOf(tables, s.rec.table), s, k);
    }
  }

  ghost predicate AllSound(steps: seq<Step>) {
    forall s :: s in steps ==> Sound(s)
  }

  lemma {:induction false} PlayIsCell(tables: Tables, steps: seq<Step>, t: string, k: string)
    requires AllHaveIds(tables) && AllSound(steps)
    ensures AllHaveIds(Play(tables, steps))
    ensures Cell(Play(tables, steps), t, k) == PlayCell(Cell(tables, t, k), steps, t, k)
    decreases |steps|
  {
    hide Cell, DoStep, Sound, AllHaveIds, About, StepCell;
    if steps != [] {
      PlayIsCell(tables, steps[..|steps| - 1], t, k);
      StepIsCell(Play(tables, steps[..|steps| - 1]), steps[|steps| - 1], t, k);
    }
  }

  lemma {:induction false} PlayCellConcat(c: Option<Row>, a: seq<Step>, b: seq<Step>, t: string, k: string)
    ensures PlayCell(c, a + b, t, k) == PlayCell(PlayCell(c, a, t, k), b, t, k)
    decreases |b|
  {
    hide About, StepCell;
    if b == [] {
      assert a + b == a;
    } else {
      var front := b[..|b| - 1];
      PlayCellConcat(c, a, front, t, k);
      assert (a + b)[..|a + b| - 1] == a + front;
    }
  }

  // ----- stopping and starting over -----

  /** The step leaves the same thing whatever was there. */
  predicate Pins(s: Step, t: string, k: string) {
    About(s, t, k) && (if s.Redo? then !s.rec.kind.Insert? else s.rec.kind.Insert?)
  }

  predicate AnyPins(steps: seq<Step>, t: string, k: string) {
    exists s :: s in steps && Pins(s, t, k)
  }

  lemma {:induction false} PinnedForgets(steps: seq<Step>, c: Option<Row>, d: Option<Row>, t: string, k: string)
    requires AnyPins(steps, t, k)
    ensures PlayCell(c, steps, t, k) == PlayCell(d, steps, t, k)
    decreases |steps|
  {
    var front := steps[..|steps| - 1];
    if !Pins(steps[|steps| - 1], t, k) {
      PinnedForgets(front, c, d, t, k);
    }
  }

  /** Redoing nothing but inserts keeps a row that is there. */
  lemma {:induction false} RedoKeeps(steps: seq<Step>, c: Option<Row>, t: string, k: string)
    requires !AnyPins(steps, t, k) && (forall s :: s in steps ==> s.Redo?) && c.Some?
    ensures PlayCell(c, steps, t, k) == c
    decreases |steps|
  {
    if steps != [] {
      assert !Pins(steps[|steps| - 1], t, k);
      RedoKeeps(steps[..|steps| - 1], c, t, k);
    }
  }

  /** Undoing nothing but overwrites leaves a missing row missing and a present one present. */
  lemma {:induction false} UndoKeepsPresence(steps: seq<Step>, c: Option<Row>, t: string, k: string)
    requires !AnyPins(steps, t, k) && (forall s :: s in steps ==> s.Undo?)
    ensures PlayCell(c, steps, t, k).Some? <==> c.Some?
    decreases |steps|
  {
    if steps != [] {
      var last := steps[|steps| - 1];
      assert last.Undo? && !Pins(last, t, k);
      UndoKeepsPresence(steps[..|steps| - 1], c, t, k);
      assert About(last, t, k) ==> last.rec.kind.Update? || last.rec.kind.Delete?;
    }
  }

  predicate AnyAbout(steps: seq<Step>, t: string, k: string) {
    exists s :: s in steps && About(s, t, k)
  }

  lemma {:induction false} NoneAbout(steps: seq<Step>, c: Option<Row>, t: string, k: string)
    requires !AnyAbout(steps, t, k)
    ensures PlayCell(c, steps, t, k) == c
    decreases |steps|
  {
    if steps != [] {
      assert steps[|steps| - 1] in steps;
      NoneAbout(steps[..|steps| - 1], c, t, k);
    }
  }

  lemma {:induction false} OverwritesForget(steps: seq<Step>, c: Option<Row>, d: Option<Row>, t: string, k: string)
    requires !AnyPins(steps, t, k) && (forall s :: s in steps ==> s.Undo?)
    requires AnyAbout(steps, t, k) && c.Some? && d.Some?
    ensures PlayCell(c, steps, t, k) == PlayCell(d, steps, t, k)
    decreases |steps|
  {
    var front, last := steps[..|steps| - 1], steps[|steps| - 1];
    assert last.Undo? && !Pins(last, t, k);
    if About(last, t, k) {
      UndoKeepsPresence(front, c, t, k);
      UndoKeepsPresence(front, d, t, k);
      assert last.rec.kind.Update? || last.rec.kind.Delete?;
    } else {
      OverwritesForget(front, c, d, t, k);
    }
  }

  lemma RestartRedo(redo: seq<Step>, m: nat, c: Option<Row>, t: string, k: string)
    requires !AnyPins(redo, t, k) && (forall s :: s in redo ==> s.Redo?) && m <= |redo|
    ensures PlayCell(PlayCell(c, redo[..m], t, k), redo, t, k) == PlayCell(c, redo, t, k)
  {
    hide PlayCell;
    var d := PlayCell(c, redo[..m], t, k);
    assert redo == redo[..m] + redo[m..];
    PlayCellConcat(c, redo[..m], redo[m..], t, k);
    if d.Some? {
      RedoKeeps(redo, d, t, k);
      RedoKeeps(redo[m..], d, t, k);
    } else if c.Some? {
      RedoKeeps(redo[..m], c, t, k);
    }
  }

  lemma RestartUndo(redo: seq<Step>, undo: seq<Step>, m: nat, c: Option<Row>, t: string, k: string)
    requires !AnyPins(redo, t, k) && (forall s :: s in redo ==> s.Redo?)
    requires !AnyPins(undo, t, k) && (forall s :: s in undo ==> s.Undo?) && m <= |undo|
    ensures var d := PlayCell(PlayCell(c, redo, t, k), undo[..m], t, k);
            PlayCell(PlayCell(d, redo, t, k), undo, t, k) == PlayCell(PlayCell(c, redo, t, k), undo, t, k)
  {
    hide PlayCell;
    var e := PlayCell(c, redo, t, k);
    var d := PlayCell(e, undo[..m], t, k);
    UndoKeepsPresence(undo[..m], e, t, k);
    if d.Some? {
      RedoKeeps(redo, d, t, k);
      if AnyAbout(undo, t, k) {
        OverwritesForget(undo, d, e, t, k);
      } else {
        NoneAbout(undo[..m], e, t, k);
      }
    } else if c.Some? {
      RedoKeeps(redo, c, t, k);
    }
  }

  lemma RestartCell(redo: seq<Step>, undo: seq<Step>, m: nat, c: Option<Row>, t: string, k: string)
    requires (forall s :: s in redo ==> s.Redo?) && (forall s :: s in undo ==> s.Undo?) && m <= |redo + undo|
    ensures PlayCell(PlayCell(c, (redo + undo)[..m], t, k), redo + undo, t, k) == PlayCell(c, redo + undo, t, k)
  {
    hide PlayCell;
    var all := redo + undo;
    var d := PlayCell(c, all[..m], t, k);
    if AnyPins(all, t, k) {
      PinnedForgets(all, d, c, t, k);
    } else {
      assert forall s :: s in redo ==> s in all;
      assert forall s :: s in undo ==> s in all;
      PlayCellConcat(c, redo, undo, t, k);
      PlayCellConcat(d, redo, undo, t, k);
      if m <= |redo| {
        assert all[..m] == redo[..m];
        RestartRedo(redo, m, c, t, k);
      } else {
        assert all[..m] == redo + undo[..m - |redo|];
        PlayCellConcat(c, redo, undo[..m - |redo|], t, k);
        RestartUndo(redo, undo, m - |redo|, c, t, k);
      }
    }
  }

  lemma {:induction false} StepKinds(rs: seq<LogRecord>, committed: set<nat>)
    ensures forall s :: s in RedoSteps(rs, committed) ==> s.Redo? && s.rec in rs
    ensures forall s :: s in UndoSteps(rs, committed) ==> s.Undo? && s.rec in rs
  {
    if rs != [] {
      StepKinds(rs[..|rs| - 1], committed);
    }
  }

  /** Every record's rows, old and new, carry its key as their id. */
  ghost predicate KeyedBy(r: LogRecord) {
    Sound(Redo(r)) && Sound(Undo(r))
  }

  /** Recovery may stop after any number of redo and undo rounds and start over: the ids and
      their rows end up as after one full run. */
  lemma Restartable(tables: Tables, rs: seq<LogRecord>, m: nat)
    requires AllHaveIds(tables) && (forall r :: r in rs ==> KeyedBy(r)) && m <= |Steps(rs)|
    ensures SameCells(Recover(Play(tables, Steps(rs)[..m]), rs), Recover(tables, rs))
  {
    hide Sound, Play, PlayCell, Cell, AllHaveIds, RedoSteps, UndoSteps;
    var redo, undo := RedoSteps(rs, CommittedIn(rs)), UndoSteps(rs, CommittedIn(rs));
    StepKinds(rs, CommittedIn(rs));
    forall s | s in redo + undo ensures Sound(s) {
      assert KeyedBy(s.rec);
    }
    var part := (redo + undo)[..m];
    forall t, k ensures Cell(Play(Play(tables, part), redo + undo), t, k) == Cell(Play(tables, redo + undo), t, k) {
      PlayIsCell(tables, part, t, k);
      PlayIsCell(tables, redo + undo, t, k);
      PlayIsCell(Play(tables, part), redo + undo, t, k);
      RestartCell(redo, undo, m, Cell(tables, t, k), t, k);
    }
  }

  /** Recovering twice is recovering once. */
  lemma Idempotent(tables: Tables, rs: seq<LogRecord>)
    requires AllHaveIds(tables) && forall r :: r in rs ==> KeyedBy(r)
    ensures SameCells(Recover(Recover(tables, rs), rs), Recover(tables, rs))
  {
    hide KeyedBy, Play, Cell, AllHaveIds, Steps;
    Restartable(tables, rs, |Steps(rs)|);
    assert Steps(rs)[..|Steps(rs)|] == Steps(rs);
  }

  // ----- what recovery leaves when some transactions did not commit -----

  /** The writes on one id by transactions that have no Commit record, in log order. */
  function Losers(rs: seq<LogRecord>, committed: set<nat>, t: string, k: string): seq<LogRecord> {
    if rs == [] then []
    else
      var last := rs[|rs| - 1];
      Losers(rs[..|rs| - 1], committed, t, k) +
      (if last.txnId !in committed && About(Undo(last), t, k) then [last] else [])
  }

  predicate AnyInsert(rs: seq<LogRecord>) {
    exists r :: r in rs && r.kind.Insert?
  }

  /** What undoing them leaves of the row c that redo left. */
  function Taken(c: Option<Row>, losers: seq<LogRecord>): Option<Row> {
    if losers == [] then c
    else if c.None? || AnyInsert(losers) then None
    else Some(Deserialized(losers[0].oldValue))
  }

  lemma TakenStep(c: Option<Row>, losers: seq<LogRecord>, r: LogRecord)
    requires IsWrite(r)
    ensures Taken(c, losers + [r]) == Taken(StepCell(c, Undo(r)), losers)
  {
    hide Deserialized;
    assert AnyInsert(losers + [r]) <==> AnyInsert(losers) || r.kind.Insert? by {
      assert r in losers + [r];
      assert forall x :: x in losers + [r] <==> x in losers || x == r;
    }
  }

  lemma {:induction false} UndoTakes(rs: seq<LogRecord>, committed: set<nat>, c: Option<Row>, t: string, k: string)
    ensures PlayCell(c, UndoSteps(rs, committed), t, k) == Taken(c, Losers(rs, committed, t, k))
    decreases |rs|
  {
    hide Taken, StepCell, About;
    if rs == [] {
      TakesNothing(c);
    } else {
      var front, last := rs[..|rs| - 1], rs[|rs| - 1];
      if last.txnId in committed {
        UndoTakes(front, committed, c, t, k);
        assert [] + UndoSteps(front, committed) == UndoSteps(front, committed);
      } else {
        var d := if About(Undo(last), t, k) then StepCell(c, Undo(last)) else c;
        UndoTakes(front, committed, d, t, k);
        PlayFirst(c, Undo(last), UndoSteps(front, committed), t, k);
        if About(Undo(last), t, k) {
          AboutWrites(last, t, k);
          TakenStep(c, Losers(front, committed, t, k), last);
        }
      }
      assert Losers(front, committed, t, k) + [] == Losers(front, committed, t, k);
    }
  }

  lemma AboutWrites(r: LogRecord, t: string, k: string)
    requires About(Undo(r), t, k)
    ensures IsWrite(r)
  {
  }

  lemma TakesNothing(c: Option<Row>)
    ensures Taken(c, []) == c
  {
  }

  lemma PlayFirst(c: Option<Row>, s: Step, steps: seq<Step>, t: string, k: string)
    ensures PlayCell(c, [s] + steps, t, k) == PlayCell(if About(s, t, k) then StepCell(c, s) else c, steps, t, k)
  {
    hide About, StepCell;
    PlayCellConcat(c, [s], steps, t, k);
    assert [s][..0] == [];
  }

  /** What recovery leaves under any id, for every log and every storage: the row that the committed
      transactions leave, unless others wrote the id; then nothing if one of them inserted it or
      there is no row, and otherwise what the first of them had found. */
  lemma RecoveredCell(tables: Tables, rs: seq<LogRecord>, t: string, k: string)
    requires AllHaveIds(tables) && forall r :: r in rs ==> KeyedBy(r)
    ensures var done := CommittedIn(rs);
            Cell(Recover(tables, rs), t, k) ==
            Taken(Cell(Play(tables, RedoSteps(rs, done)), t, k), Losers(rs, done, t, k))
  {
    hide Sound, Play, PlayCell, Cell, AllHaveIds, RedoSteps, UndoSteps, Taken;
    var done := CommittedIn(rs);
    var redo, undo := RedoSteps(rs, done), UndoSteps(rs, done);
    StepKinds(rs, done);
    forall s | s in redo + undo ensures Sound(s) {
      assert KeyedBy(s.rec);
    }
    assert forall s :: s in redo ==> s in redo + undo;
    PlayIsCell(tables, redo + undo, t, k);
    PlayIsCell(tables, redo, t, k);
    PlayCellConcat(Cell(tables, t, k), redo, undo, t, k);
    UndoTakes(rs, done, PlayCell(Cell(tables, t, k), redo, t, k), t, k);
  }

  /** Transactions without a Commit record do no harm to the row c that redo left: none of them
      inserted the id, and the first to write it had found that very row. */
  predicate Harmless(c: Option<Row>, losers: seq<LogRecord>) {
    c.None? || losers == [] || (!AnyInsert(losers) && Deserialized(losers[0].oldValue) == c.value)
  }

  /** Recovery leaves exactly what the committed transactions leave, iff the others are harmless on
      every id. */
  lemma RecoverIsRedoIff(tables: Tables, rs: seq<LogRecord>)
    requires AllHaveIds(tables) && forall r :: r in rs ==> KeyedBy(r)
    ensures var done := CommittedIn(rs);
            var redone := Play(tables, RedoSteps(rs, done));
            SameCells(Recover(tables, rs), redone) <==>
            forall t, k :: Harmless(Cell(redone, t, k), Losers(rs, done, t, k))
  {
    hide Cell, AllHaveIds, Play, Deserialized, KeyedBy, RedoSteps, Recover, Losers, CommittedIn;
    var done := CommittedIn(rs);
    var redone := Play(tables, RedoSteps(rs, done));
    forall t, k
      ensures Cell(Recover(tables, rs), t, k) == Cell(redone, t, k) <==>
              Harmless(Cell(redone, t, k), Losers(rs, done, t, k))
    {
      RecoveredCell(tables, rs, t, k);
    }
  }
}
