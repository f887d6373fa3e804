/** One live call per key and nothing more: calls fail, vanish, are retried or given up for good, and later events of
    the key move on regardless. The stored state folds exactly the rows whose write ran, and a row left behind is
    lost exactly when a later one of its key was written. */
module OneCaller {
  import opened GoInts
  import opened Ledger
  import opened Accounting
  import opened ReconcileProtocol
  import opened ExactlyOnce

  predicate IsOneCallerRun(sys: Sys, steps: seq<Step>)
    decreases |steps|
  {
    steps == [] || (Enabled(sys, steps[0]) && OneLive(sys, steps[0]) && IsOneCallerRun(Do(sys, steps[0]), steps[1..]))
  }

  /** The row of the key whose write this step runs. */
  function Wrote(sys: Sys, step: Step, key: Key): seq<Row>
    requires Enabled(sys, step)
  {
    if step.WriteRuns? && sys.calls[step.pid].row.txn.key == key then [sys.calls[step.pid].row] else []
  }

  /** The rows of the key whose writes ran, in the order they ran. */
  function WrittenRows(sys: Sys, steps: seq<Step>, key: Key): seq<Row>
    requires IsRun(sys, steps)
    decreases |steps|
  {
    if steps == [] then [] else Wrote(sys, steps[0], key) + WrittenRows(Do(sys, steps[0]), steps[1..], key)
  }

  // ---- The invariant of one key ----

  predicate CallOk(db: Db, key: Key, h: seq<Row>, call: Call) {
    match call
    case Inserting(txn) => SameKeyAgain(db.rows, txn)
    case Looking(txn) => HasEvent(db.rows, txn.event) && SameKeyAgain(db.rows, txn)
    case Reading(row) => row in db.rows
    case Writing(row, updated) => row in db.rows &&
        (row.txn.key == key ==> AboutToFold(Stored(db, key), h, row, updated))
    case Returned(_) => true
  }

  predicate AboutToFold(s: State, h: seq<Row>, row: Row, updated: State) {
    !Covers(s, row.id) && updated.watermark == Some(row.id) && FoldRows(h + [row]) == Ok(updated)
  }

  /** The stored state of the key folds h, and whoever is about to write folds one more row onto it. */
  predicate KeyFolds(sys: Sys, key: Key, h: seq<Row>) {
    && Explains(h, sys.db.rows, key, Stored(sys.db, key))
    && (forall pid <- sys.calls :: CallOk(sys.db, key, h, sys.calls[pid]))
    && (forall p, q | p in sys.calls && q in sys.calls && p != q :: Apart(sys.calls[p], sys.calls[q]))
  }

  lemma CommitOk(db: Db, key: Key, h: seq<Row>, row: Row, call: Call)
    requires CallOk(db, key, h, call) && (call.Returned? || CallEvent(call) != Some(row.txn.event))
    ensures CallOk(db.(rows := db.rows + [row]), key, h, call)
  {
    hide AboutToFold;
    if !call.Returned? {
      var event := CallEvent(call).value;
      if HasEvent(db.rows, event) { FindEventGrows(db.rows, row, event); }
      if HasEvent(db.rows + [row], event) { EventOrigin(db.rows, row, event); }
    }
  }

  lemma CommitStep(sys: Sys, pid: Pid, id: int64, answered: bool, key: Key, h: seq<Row>)
    requires KeyFolds(sys, key, h) && Enabled(sys, InsertCommits(pid, id, answered))
    ensures KeyFolds(Do(sys, InsertCommits(pid, id, answered)), key, h)
  {
    var row := Row(id, sys.calls[pid].txn);
    var db' := sys.db.(rows := sys.db.rows + [row]);
    hide FoldRows, CallOk;
    forall p <- sys.calls | p != pid ensures CallOk(db', key, h, sys.calls[p]) {
      assert Apart(sys.calls[p], sys.calls[pid]);
      CommitOk(sys.db, key, h, row, sys.calls[p]);
    }
    NewCallOk(db', key, h, row);
  }

  lemma NewCallOk(db: Db, key: Key, h: seq<Row>, row: Row)
    ensures row in db.rows ==> CallOk(db, key, h, Reading(row))
    ensures CallOk(db, key, h, Returned(true)) && CallOk(db, key, h, Returned(false))
  {
  }

  lemma DecideOk(db: Db, key: Key, h: seq<Row>, row: Row)
    requires Explains(h, db.rows, key, Stored(db, key)) && row in db.rows
    ensures CallOk(db, key, h, Decide(row, Stored(db, row.txn.key)))
  {
    hide FoldRows, ApplyTransaction;
    ApplySetsWatermark(Stored(db, row.txn.key), row.id, row.txn);
    FoldRowsSnoc(h, row);
  }

  lemma ReadStep(sys: Sys, pid: Pid, answered: bool, key: Key, h: seq<Row>)
    requires KeyFolds(sys, key, h) && Enabled(sys, Read(pid, answered))
    ensures KeyFolds(Do(sys, Read(pid, answered)), key, h)
  {
    var row := sys.calls[pid].row;
    assert CallOk(sys.db, key, h, sys.calls[pid]) && row in sys.db.rows;
    DecideOk(sys.db, key, h, row);
    DecideKeepsCall(row, Stored(sys.db, row.txn.key));
    NewCallOk(sys.db, key, h, row);
    hide Decide, CallOk, Explains, Stored;
    forall p <- sys.calls | p != pid ensures Apart(sys.calls[p], sys.calls[pid]) &&
        Apart(sys.calls[pid], sys.calls[p]) {
    }
  }

  /** A write of the key's own row extends what its state folds. */
  lemma WriteExplains(rows: seq<Row>, key: Key, s: State, h: seq<Row>, row: Row, updated: State)
    requires Explains(h, rows, key, s) && row in rows && row.txn.key == key && AboutToFold(s, h, row, updated)
    ensures Explains(h + [row], rows, key, updated)
  {
    hide FoldRows;
    FoldWatermark(h);
    forall i | 0 <= i < |h| ensures h[i].id < row.id {
      if i < |h| - 1 { assert h[i].id < h[|h| - 1].id; }
    }
  }

  lemma OtherOk(db: Db, db': Db, key: Key, h: seq<Row>, h': seq<Row>, call: Call)
    requires CallOk(db, key, h, call) && db'.rows == db.rows
    requires CallKey(call) == Some(key) && call.Writing? ==> Stored(db', key) == Stored(db, key) && h' == h
    ensures CallOk(db', key, h', call)
  {
    hide AboutToFold;
  }

  lemma WriteStep(sys: Sys, pid: Pid, answered: bool, key: Key, h: seq<Row>)
    requires KeyFolds(sys, key, h) && Enabled(sys, WriteRuns(pid, answered))
    ensures KeyFolds(Do(sys, WriteRuns(pid, answered)), key, h + Wrote(sys, WriteRuns(pid, answered), key))
  {
    var row, updated, sys' := sys.calls[pid].row, sys.calls[pid].updated, Do(sys, WriteRuns(pid, answered));
    var h' := h + Wrote(sys, WriteRuns(pid, answered), key);
    assert CallOk(sys.db, key, h, Writing(row, updated));
    WriteStored(sys.db, sys'.db, key, h, row, updated);
    assert row.txn.key != key ==> h' == h;
    assert forall p <- sys.calls :: CallOk(sys.db, key, h, sys.calls[p]);
    assert forall p <- sys.calls | p != pid :: Apart(sys.calls[p], sys.calls[pid]);
    hide CallOk, Explains, Stored, Advances, KeyFolds;
    forall p <- sys.calls | p != pid ensures CallOk(sys'.db, key, h', sys.calls[p]) {
      assert Apart(sys.calls[p], sys.calls[pid]);
      OtherOk(sys.db, sys'.db, key, h, h', sys.calls[p]);
    }
    SettledKeeps(sys, sys', pid, answered, key, h, h');
  }

  lemma SettledKeeps(sys: Sys, sys': Sys, pid: Pid, ok: bool, key: Key, h: seq<Row>, h': seq<Row>)
    requires KeyFolds(sys, key, h) && sys'.calls == sys.calls[pid := Returned(ok)]
    requires Explains(h', sys'.db.rows, key, Stored(sys'.db, key))
    requires forall p <- sys.calls | p != pid :: CallOk(sys'.db, key, h', sys.calls[p])
    ensures KeyFolds(sys', key, h')
  {
    NewCallOk(sys'.db, key, h', Row(0, Transaction(0, key, "", 0, 0)));
    hide CallOk, Explains, Stored;
  }

  lemma WriteStored(db: Db, db': Db, key: Key, h: seq<Row>, row: Row, updated: State)
    requires Explains(h, db.rows, key, Stored(db, key)) && CallOk(db, key, h, Writing(row, updated))
    requires db' == db.(states := if Advances(db, row.txn.key, updated) then db.states[row.txn.key := updated]
             else db.states)
    ensures row.txn.key == key ==> Explains(h + [row], db.rows, key, Stored(db', key))
    ensures row.txn.key != key ==> Stored(db', key) == Stored(db, key)
  {
    if row.txn.key == key { WriteExplains(db.rows, key, Stored(db, key), h, row, updated); }
    hide FoldRows, Explains;
  }

  lemma QuietStep(sys: Sys, step: Step, key: Key, h: seq<Row>)
    requires KeyFolds(sys, key, h) && Enabled(sys, step) && OneLive(sys, step)
    requires !step.InsertCommits? && !step.Read? && !step.WriteRuns?
    ensures KeyFolds(Do(sys, step), key, h)
  {
    hide Explains, AboutToFold, UniqueRows;
    if step.InsertDuplicate? || step.Lookup? { assert CallOk(sys.db, key, h, sys.calls[step.pid]); }
  }

  lemma StepFolds(sys: Sys, step: Step, key: Key, h: seq<Row>)
    requires KeyFolds(sys, key, h) && Enabled(sys, step) && OneLive(sys, step)
    ensures KeyFolds(Do(sys, step), key, h + Wrote(sys, step, key))
  {
    hide KeyFolds, Do;
    assert h + [] == h;
    match step
    case InsertCommits(pid, id, answered) => CommitStep(sys, pid, id, answered, key, h);
    case Read(pid, answered) => ReadStep(sys, pid, answered, key, h);
    case WriteRuns(pid, answered) => WriteStep(sys, pid, answered, key, h);
    case _ => QuietStep(sys, step, key, h);
  }

  lemma {:induction false} RunFolds(sys: Sys, steps: seq<Step>, key: Key, h: seq<Row>)
    requires KeyFolds(sys, key, h) && IsOneCallerRun(sys, steps)
    ensures IsRun(sys, steps) && KeyFolds(Exec(sys, steps), key, h + WrittenRows(sys, steps, key))
    decreases |steps|
  {
    hide KeyFolds, Do, Enabled, OneLive;
    if steps == [] {
      assert h + [] == h;
    } else {
      var now := Wrote(sys, steps[0], key);
      StepFolds(sys, steps[0], key, h);
      RunFolds(Do(sys, steps[0]), steps[1..], key, h + now);
      var later := WrittenRows(Do(sys, steps[0]), steps[1..], key);
      assert h + now + later == h + (now + later);
    }
  }

  /** Whatever is given up, the stored state of a key is the fold of exactly the rows whose write ran: in ID order,
      hence each once, and all of them rows of that key. */
  lemma WrittenRowsAreFolded(steps: seq<Step>, key: Key)
    requires IsOneCallerRun(INITIAL, steps)
    ensures IsRun(INITIAL, steps)
    ensures var db := Exec(INITIAL, steps).db; Explains(WrittenRows(INITIAL, steps, key), db.rows, key, Stored(db, key))
  {
    assert KeyFolds(INITIAL, key, []);
    RunFolds(INITIAL, steps, key, []);
    assert [] + WrittenRows(INITIAL, steps, key) == WrittenRows(INITIAL, steps, key);
  }

  // ---- Rows left behind ----

  /** Some continuation under the same rule still writes the row. */
  ghost predicate Recoverable(sys: Sys, r: Row) {
    exists more :: IsOneCallerRun(sys, more) && IsRun(sys, more) && r in WrittenRows(sys, more, r.txn.key)
  }

  /** A row left behind is lost for good as soon as a later row of its key has been written. */
  lemma LaterWriteLoses(steps: seq<Step>, r: Row, later: Row)
    requires IsOneCallerRun(INITIAL, steps) && IsRun(INITIAL, steps)
    requires later in WrittenRows(INITIAL, steps, r.txn.key) && later.id >= r.id
    ensures !Recoverable(Exec(INITIAL, steps), r)
  {
    var key, sys := r.txn.key, Exec(INITIAL, steps);
    var h := WrittenRows(INITIAL, steps, key);
    assert KeyFolds(INITIAL, key, []);
    RunFolds(INITIAL, steps, key, []);
    assert [] + h == h;
    hide KeyFolds, IsOneCallerRun, IsRun, Exec, WrittenRows;
    forall more | IsOneCallerRun(sys, more) && IsRun(sys, more) ensures r !in WrittenRows(sys, more, key) {
      RunFolds(sys, more, key, h);
      NotAfter(Exec(sys, more), key, h, WrittenRows(sys, more, key), r, later);
    }
  }

  lemma NotAfter(sys: Sys, key: Key, h: seq<Row>, more: seq<Row>, r: Row, later: Row)
    requires KeyFolds(sys, key, h + more) && later in h && later.id >= r.id
    ensures r !in more
  {
    hide FoldRows;
    var i :| 0 <= i < |h| && h[i] == later;
    forall j | 0 <= j < |more| ensures more[j] != r {
      assert (h + more)[i].id < (h + more)[|h| + j].id;
    }
  }

  /** While no later row has been written, delivering the event again applies it, if it applies at all. */
  lemma RedeliveryRecovers(sys: Sys, r: Row, h: seq<Row>)
    requires UniqueRows(sys.db.rows) && KeyFolds(sys, r.txn.key, h) && r in sys.db.rows
    requires (forall p <- sys.calls :: sys.calls[p].Returned?) && forall w <- h :: w.id < r.id
    requires ApplyTransaction(Stored(sys.db, r.txn.key), r.id, r.txn).Ok?
    ensures Recoverable(sys, r)
  {
    hide KeyFolds, UniqueRows, ApplyTransaction, FindEvent, Recoverable;
    StillUncovered(sys, r, h);
    FindsRow(sys.db.rows, r);
    var begun := Do(sys, Begin(0, r.txn));
    LookupRecovers(Do(begun, InsertDuplicate(0)), r);
    RecoverableBefore(begun, InsertDuplicate(0), r);
    RecoverableBefore(sys, Begin(0, r.txn), r);
  }

  lemma StillUncovered(sys: Sys, r: Row, h: seq<Row>)
    requires KeyFolds(sys, r.txn.key, h) && forall w <- h :: w.id < r.id
    ensures !Covers(Stored(sys.db, r.txn.key), r.id)
  {
    FoldWatermark(h);
    hide FoldRows;
    if h != [] { assert h[|h| - 1] in h; }
  }

  lemma FindsRow(rows: seq<Row>, r: Row)
    requires UniqueRows(rows) && r in rows
    ensures HasEvent(rows, r.txn.event) && FindEvent(rows, r.txn.event) == r
  {
    assert HasEvent(rows, r.txn.event);
    SameEventSameRow(rows, r, FindEvent(rows, r.txn.event));
  }

  lemma LookupRecovers(sys: Sys, r: Row)
    requires 0 in sys.calls && sys.calls[0] == Looking(r.txn) && HasEvent(sys.db.rows, r.txn.event)
    requires FindEvent(sys.db.rows, r.txn.event) == r && !Covers(Stored(sys.db, r.txn.key), r.id)
    requires ApplyTransaction(Stored(sys.db, r.txn.key), r.id, r.txn).Ok?
    ensures Recoverable(sys, r)
  {
    hide ApplyTransaction, FindEvent, HasEvent, Recoverable;
    var s1 := Do(sys, Lookup(0, true));
    WriteRecovers(Do(s1, Read(0, true)), 0, r);
    RecoverableBefore(s1, Read(0, true), r);
    RecoverableBefore(sys, Lookup(0, true), r);
  }

  lemma WriteRecovers(sys: Sys, pid: Pid, r: Row)
    requires pid in sys.calls && sys.calls[pid].Writing? && sys.calls[pid].row == r
    ensures Recoverable(sys, r)
  {
    var step := WriteRuns(pid, true);
    assert [step][1..] == [];
    assert IsOneCallerRun(sys, [step]) && IsRun(sys, [step]);
    assert Wrote(sys, step, r.txn.key) == [r];
    assert WrittenRows(sys, [step], r.txn.key)[0] == r;
  }

  lemma RecoverableBefore(sys: Sys, step: Step, r: Row)
    requires Enabled(sys, step) && OneLive(sys, step) && Recoverable(Do(sys, step), r)
    ensures Recoverable(sys, r)
  {
    hide Do, Enabled, OneLive;
    var rest :| IsOneCallerRun(Do(sys, step), rest) && IsRun(Do(sys, step), rest) &&
        r in WrittenRows(Do(sys, step), rest, r.txn.key);
    var more := [step] + rest;
    assert more[1..] == rest;
    assert IsOneCallerRun(sys, more) && IsRun(sys, more) && r in WrittenRows(sys, more, r.txn.key);
  }

  /** Of a row left behind by idle callers: it is lost for good exactly when a later row of its key was written,
      provided it would still apply. */
  lemma LostForGoodIff(steps: seq<Step>, r: Row)
    requires IsOneCallerRun(INITIAL, steps) && IsRun(INITIAL, steps)
    requires var sys := Exec(INITIAL, steps);
             && r in sys.db.rows && (forall p <- sys.calls :: sys.calls[p].Returned?)
             && ApplyTransaction(Stored(sys.db, r.txn.key), r.id, r.txn).Ok?
    ensures Recoverable(Exec(INITIAL, steps), r) <==> forall w <- WrittenRows(INITIAL, steps, r.txn.key) :: w.id < r.id
  {
    var sys, h := Exec(INITIAL, steps), WrittenRows(INITIAL, steps, r.txn.key);
    if w :| w in h && w.id >= r.id {
      LaterWriteLoses(steps, r, w);
    } else {
      assert KeyFolds(INITIAL, r.txn.key, []);
      RunFolds(INITIAL, steps, r.txn.key, []);
      assert [] + h == h;
      RunAtMostOnce(INITIAL, steps);
      RedeliveryRecovers(sys, r, h);
    }
  }
}
