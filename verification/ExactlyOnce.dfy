/** Exactly-once reconciliation under one caller per key, and what replay does. */
module ExactlyOnce {
  import opened GoInts
  import opened Ledger
  import opened Accounting
  import opened ReconcileProtocol

  /** The key's rows, in insertion order. */
  function RowsOf(rows: seq<Row>, key: Key): seq<Row> {
    if rows == [] then []
    else
      var front, last := RowsOf(rows[..|rows| - 1], key), rows[|rows| - 1];
      if last.txn.key == key then front + [last] else front
  }

  lemma RowsOfSnoc(rows: seq<Row>, row: Row, key: Key)
    ensures RowsOf(rows + [row], key) == if row.txn.key == key then RowsOf(rows, key) + [row] else RowsOf(rows, key)
  {
    assert (rows + [row])[..|rows|] == rows;
  }

  lemma {:induction false} RowsOfMember(rows: seq<Row>, key: Key, r: Row)
    ensures r in RowsOf(rows, key) <==> r in rows && r.txn.key == key
  {
    if rows != [] {
      RowsOfMember(rows[..|rows| - 1], key, r);
      assert rows == rows[..|rows| - 1] + [rows[|rows| - 1]];
    }
  }

  predicate AllAcked(db: Db, acked: set<EventId>, key: Key) {
    forall r <- RowsOf(db.rows, key) :: r.txn.event in acked
  }

  function CallKey(call: Call): Option<Key> {
    match call
    case Inserting(txn) => Some(txn.key)
    case Looking(txn) => Some(txn.key)
    case Reading(row) => Some(row.txn.key)
    case Writing(row, _) => Some(row.txn.key)
    case Returned(_) => None
  }

  function CallEvent(call: Call): Option<EventId> {
    match call
    case Inserting(txn) => Some(txn.event)
    case Looking(txn) => Some(txn.event)
    case Reading(row) => Some(row.txn.event)
    case Writing(row, _) => Some(row.txn.event)
    case Returned(_) => None
  }

  /** Two live calls on different keys and different events. */
  predicate Apart(a: Call, b: Call) {
    !a.Returned? && !b.Returned? ==> CallKey(a) != CallKey(b) && CallEvent(a) != CallEvent(b)
  }

  /** A record delivered again carries the key it was first stored under. */
  predicate SameKeyAgain(rows: seq<Row>, txn: Transaction) {
    HasEvent(rows, txn.event) ==> FindEvent(rows, txn.event).txn.key == txn.key
  }

  /** A call begins only when its key and its event have no other live call. */
  predicate OneLive(sys: Sys, step: Step) {
    step.Begin? ==>
      (forall p <- sys.calls :: Apart(sys.calls[p], Inserting(step.txn))) && SameKeyAgain(sys.db.rows, step.txn)
  }

  /** One caller per key and, for the key in question: an event new to the ledger begins only when every stored event
      of the key has been acknowledged, and the key's IDs grow. Crashes, lost answers and redeliveries stay
      unrestricted, and other keys may give events up. */
  predicate Polite(sys: Sys, step: Step, key: Key)
    requires Enabled(sys, step)
  {
    && OneLive(sys, step)
    && match step
       case Begin(_, txn) => txn.key == key ==> HasEvent(sys.db.rows, txn.event) || AllAcked(sys.db, sys.acked, key)
       case InsertCommits(pid, id, _) => sys.calls[pid].txn.key == key ==>
           forall r <- RowsOf(sys.db.rows, key) :: r.id < id
       case _ => true
  }

  predicate IsPoliteRun(sys: Sys, steps: seq<Step>, key: Key)
    decreases |steps|
  {
    steps == [] ||
    (Enabled(sys, steps[0]) && Polite(sys, steps[0], key) && IsPoliteRun(Do(sys, steps[0]), steps[1..], key))
  }

  // ---- The invariant of one key ----

  predicate CaughtUp(rows: seq<Row>, s: State) {
    FoldRows(rows) == Ok(s)
  }

  /** The stored state folds every row but the last one, which nobody has been told is done. */
  predicate OneBehind(rows: seq<Row>, s: State, acked: set<EventId>) {
    rows != [] && rows[|rows| - 1].txn.event !in acked && FoldRows(rows[..|rows| - 1]) == Ok(s)
  }

  predicate KeyInv(db: Db, acked: set<EventId>, key: Key) {
    var rows, s := RowsOf(db.rows, key), Stored(db, key);
    && Increasing(rows)
    && (CaughtUp(rows, s) || OneBehind(rows, s, acked))
  }

  predicate LiveInv(db: Db, acked: set<EventId>, key: Key, call: Call) {
    match call
    case Inserting(txn) =>
      SameKeyAgain(db.rows, txn) && (txn.key == key ==> HasEvent(db.rows, txn.event) || AllAcked(db, acked, key))
    case Looking(txn) => HasEvent(db.rows, txn.event) && SameKeyAgain(db.rows, txn)
    case Reading(row) => row in db.rows
    case Writing(row, updated) => row in db.rows && (row.txn.key == key ==> LastMissing(db, acked, row, updated))
    case Returned(_) => true
  }

  /** The row is its key's last, unacknowledged and not yet folded, and folding it gives the fold of all rows. */
  predicate LastMissing(db: Db, acked: set<EventId>, row: Row, updated: State) {
    var rows := RowsOf(db.rows, row.txn.key);
    && rows != [] && row == rows[|rows| - 1]
    && row.txn.event !in acked
    && !Covers(Stored(db, row.txn.key), row.id)
    && updated.watermark == Some(row.id)
    && FoldRows(rows) == Ok(updated)
  }

  predicate Inv(sys: Sys, key: Key) {
    && UniqueRows(sys.db.rows)
    && (forall e <- sys.acked :: HasEvent(sys.db.rows, e))
    && KeyInv(sys.db, sys.acked, key)
    && (forall pid <- sys.calls :: LiveInv(sys.db, sys.acked, key, sys.calls[pid]))
    && (forall p, q | p in sys.calls && q in sys.calls && p != q :: Apart(sys.calls[p], sys.calls[q]))
  }

  lemma AllAckedCaughtUp(db: Db, acked: set<EventId>, key: Key)
    requires KeyInv(db, acked, key) && AllAcked(db, acked, key)
    ensures CaughtUp(RowsOf(db.rows, key), Stored(db, key))
  {
    hide FoldRows;
    var rows := RowsOf(db.rows, key);
    assert rows != [] ==> rows[|rows| - 1] in rows;
  }

  /** Under the invariant a stored state covers a row of its key exactly when it has folded it. */
  lemma CoversFolded(db: Db, acked: set<EventId>, key: Key, i: nat)
    requires KeyInv(db, acked, key) && i < |RowsOf(db.rows, key)|
    ensures var rows, s := RowsOf(db.rows, key), Stored(db, key);
            Covers(s, rows[i].id) <==> CaughtUp(rows, s) || i < |rows| - 1
  {
    hide FoldRows, RowsOf;
    var rows, s := RowsOf(db.rows, key), Stored(db, key);
    var front := rows[..|rows| - 1];
    if CaughtUp(rows, s) { FoldWatermark(rows); }
    else { FoldWatermark(front); }
    assert front != [] ==> front[|front| - 1] == rows[|rows| - 2];
  }

  /** A read either finds its row done, or is about to fold exactly the one row that is missing. */
  lemma DecideLive(db: Db, acked: set<EventId>, key: Key, row: Row)
    requires KeyInv(db, acked, key) && row in db.rows
    ensures LiveInv(db, acked, key, Decide(row, Stored(db, row.txn.key)))
    ensures row.txn.key == key && Decide(row, Stored(db, key)) == Returned(true) ==> MayAck(db, row)
  {
    hide FoldRows, RowsOf, ApplyTransaction;
    if row.txn.key == key {
      var rows, s := RowsOf(db.rows, key), Stored(db, key);
      RowsOfMember(db.rows, key, row);
      var i :| 0 <= i < |rows| && rows[i] == row;
      CoversFolded(db, acked, key, i);
      if !Covers(s, row.id) { LastRowFolds(rows, row, s, acked); }
    }
  }

  /** The key is caught up, or the row is not its last. */
  predicate MayAck(db: Db, row: Row) {
    var rows := RowsOf(db.rows, row.txn.key);
    CaughtUp(rows, Stored(db, row.txn.key)) || (rows != [] && row.id < rows[|rows| - 1].id)
  }

  /** Folding the one missing row gives the fold of all rows. */
  lemma LastRowFolds(rows: seq<Row>, row: Row, s: State, acked: set<EventId>)
    requires OneBehind(rows, s, acked) && rows[|rows| - 1] == row
    ensures ApplyTransaction(s, row.id, row.txn) == FoldRows(rows)
    ensures FoldRows(rows).Ok? ==> FoldRows(rows).state.watermark == Some(row.id)
  {
    hide FoldRows, ApplyTransaction;
    var front := rows[..|rows| - 1];
    FoldRowsSnoc(front, row);
    assert front + [row] == rows;
    ApplySetsWatermark(s, row.id, row.txn);
  }

  // ---- Every polite step keeps it ----

  lemma SameEventSameRow(rows: seq<Row>, a: Row, b: Row)
    requires UniqueRows(rows) && a in rows && b in rows && a.txn.event == b.txn.event
    ensures a == b
  {
    var i :| 0 <= i < |rows| && rows[i] == a;
    var j :| 0 <= j < |rows| && rows[j] == b;
  }

  lemma {:induction false} FindEventGrows(rows: seq<Row>, row: Row, event: EventId)
    requires HasEvent(rows, event)
    ensures HasEvent(rows + [row], event)
    ensures FindEvent(rows + [row], event) == FindEvent(rows, event)
  {
    var i :| 0 <= i < |rows| && rows[i].txn.event == event;
    assert (rows + [row])[i].txn.event == event;
    if rows[0].txn.event != event {
      assert rows[1..][i - 1].txn.event == event;
      FindEventGrows(rows[1..], row, event);
      assert (rows + [row])[1..] == rows[1..] + [row];
    }
  }

  lemma EventOrigin(rows: seq<Row>, row: Row, event: EventId)
    requires HasEvent(rows + [row], event)
    ensures HasEvent(rows, event) || event == row.txn.event
  {
    var i :| 0 <= i < |rows + [row]| && (rows + [row])[i].txn.event == event;
    if i < |rows| { assert rows[i].txn.event == event; }
  }

  /** A new row puts its own key one behind and leaves every other key alone. */
  lemma CommitKey(db: Db, acked: set<EventId>, row: Row, key: Key)
    requires KeyInv(db, acked, key) && row.txn.event !in acked
    requires key == row.txn.key ==> AllAcked(db, acked, key) && forall r <- RowsOf(db.rows, key) :: r.id < row.id
    ensures KeyInv(db.(rows := db.rows + [row]), acked, key)
  {
    RowsOfSnoc(db.rows, row, key);
    hide FoldRows, RowsOf;
    if key == row.txn.key {
      AllAckedCaughtUp(db, acked, key);
      var rows := RowsOf(db.rows, key);
      assert (rows + [row])[..|rows|] == rows;
      assert OneBehind(rows + [row], Stored(db, key), acked);
    }
  }

  lemma CommitLive(db: Db, acked: set<EventId>, key: Key, row: Row, call: Call)
    requires LiveInv(db, acked, key, call)
    requires call.Returned? || (CallKey(call) != Some(row.txn.key) && CallEvent(call) != Some(row.txn.event))
    ensures LiveInv(db.(rows := db.rows + [row]), acked, key, call)
  {
    hide FoldRows;
    if !call.Returned? {
      RowsOfSnoc(db.rows, row, CallKey(call).value);
      if HasEvent(db.rows, CallEvent(call).value) {
        FindEventGrows(db.rows, row, CallEvent(call).value);
      }
      if HasEvent(db.rows + [row], CallEvent(call).value) {
        EventOrigin(db.rows, row, CallEvent(call).value);
      }
    }
  }

  lemma StepCommit(sys: Sys, pid: Pid, id: int64, answered: bool, key: Key)
    requires Inv(sys, key) && Enabled(sys, InsertCommits(pid, id, answered))
    requires Polite(sys, InsertCommits(pid, id, answered), key)
    ensures Inv(Do(sys, InsertCommits(pid, id, answered)), key)
  {
    var row, db := Row(id, sys.calls[pid].txn), sys.db;
    var db' := db.(rows := db.rows + [row]);
    assert LiveInv(db, sys.acked, key, sys.calls[pid]);
    NewRowUnique(db.rows, row);
    CommitKey(db, sys.acked, row, key);
    NewRowLive(db, sys.acked, key, row);
    hide FoldRows, KeyInv, LiveInv, UniqueRows, AllAcked, RowsOf, HasId;
    forall p <- sys.calls | p != pid ensures LiveInv(db', sys.acked, key, sys.calls[p]) {
      assert Apart(sys.calls[p], sys.calls[pid]);
      CommitLive(db, sys.acked, key, row, sys.calls[p]);
    }
    forall e <- sys.acked ensures HasEvent(db'.rows, e) { FindEventGrows(db.rows, row, e); }
  }

  lemma NewRowUnique(rows: seq<Row>, row: Row)
    requires UniqueRows(rows) && !HasEvent(rows, row.txn.event) && !HasId(rows, row.id)
    ensures UniqueRows(rows + [row])
  {
  }

  lemma NewRowLive(db: Db, acked: set<EventId>, key: Key, row: Row)
    ensures LiveInv(db.(rows := db.rows + [row]), acked, key, Reading(row))
    ensures LiveInv(db.(rows := db.rows + [row]), acked, key, Returned(false))
  {
  }

  /** Acknowledging a row of a caught-up key, or one that is not the key's last, keeps every key. */
  lemma AckKey(db: Db, acked: set<EventId>, row: Row, key: Key)
    requires UniqueRows(db.rows) && row in db.rows && KeyInv(db, acked, key) && (key == row.txn.key ==> MayAck(db, row))
    ensures KeyInv(db, acked + {row.txn.event}, key)
  {
    hide FoldRows;
    var rows := RowsOf(db.rows, key);
    if rows != [] {
      var last := rows[|rows| - 1];
      RowsOfMember(db.rows, key, last);
      if last.txn.event == row.txn.event { SameEventSameRow(db.rows, last, row); }
    }
  }

  lemma AckLive(db: Db, acked: set<EventId>, key: Key, event: EventId, call: Call)
    requires LiveInv(db, acked, key, call) && CallEvent(call) != Some(event)
    ensures LiveInv(db, acked + {event}, key, call)
  {
    hide FoldRows;
  }

  lemma StepRead(sys: Sys, pid: Pid, answered: bool, key: Key)
    requires Inv(sys, key) && Enabled(sys, Read(pid, answered))
    ensures Inv(Do(sys, Read(pid, answered)), key)
  {
    var row, db := sys.calls[pid].row, sys.db;
    assert LiveInv(db, sys.acked, key, sys.calls[pid]) && row in db.rows;
    hide FoldRows, RowsOf, KeyInv, LiveInv, Decide, MayAck, Stored;
    DecideLive(db, sys.acked, key, row);
    DecideKeepsCall(row, Stored(db, row.txn.key));
    ReturnedLive(db, sys.acked, key);
    Settles(sys, pid, row, if answered then Decide(row, Stored(db, row.txn.key)) else Returned(false), db, key);
  }

  /** A call that settles on row, on stores whose rows are the same and whose other live calls are kept. */
  lemma Settles(sys: Sys, pid: Pid, row: Row, call: Call, db': Db, key: Key)
    requires Inv(sys, key) && pid in sys.calls && !sys.calls[pid].Returned? && row in sys.db.rows
    requires CallKey(sys.calls[pid]) == Some(row.txn.key) && CallEvent(sys.calls[pid]) == Some(row.txn.event)
    requires call.Returned? || (CallKey(call) == Some(row.txn.key) && CallEvent(call) == Some(row.txn.event))
    requires db'.rows == sys.db.rows && KeyInv(db', sys.acked, key) && LiveInv(db', sys.acked, key, call)
    requires forall p <- sys.calls | p != pid :: LiveInv(db', sys.acked, key, sys.calls[p])
    requires call == Returned(true) && row.txn.key == key ==> MayAck(db', row)
    ensures Inv(Settle(sys, pid, row.txn.event, call).(db := db'), key)
  {
    hide FoldRows, RowsOf, KeyInv, LiveInv, MayAck, UniqueRows;
    var acked := sys.acked;
    assert HasEvent(sys.db.rows, row.txn.event);
    if call == Returned(true) {
      AckKey(db', acked, row, key);
      forall p <- sys.calls | p != pid ensures LiveInv(db', acked + {row.txn.event}, key, sys.calls[p]) {
        assert Apart(sys.calls[p], sys.calls[pid]);
        OtherAcked(db', acked, key, row.txn.event, sys.calls[p]);
      }
      ReturnedLive(db', acked + {row.txn.event}, key);
    }
    forall p <- sys.calls | p != pid ensures Apart(sys.calls[p], call) && Apart(call, sys.calls[p]) {
      assert Apart(sys.calls[p], sys.calls[pid]);
    }
  }

  lemma OtherAcked(db: Db, acked: set<EventId>, key: Key, event: EventId, call: Call)
    requires LiveInv(db, acked, key, call) && (call.Returned? || CallEvent(call) != Some(event))
    ensures LiveInv(db, acked + {event}, key, call)
  {
    if !call.Returned? { AckLive(db, acked, key, event, call); }
  }

  lemma DecideKeepsCall(row: Row, s: State)
    ensures var call := Decide(row, s);
            call.Returned? || (CallKey(call) == Some(row.txn.key) && CallEvent(call) == Some(row.txn.event))
  {
    hide ApplyTransaction;
  }

  lemma ReturnedLive(db: Db, acked: set<EventId>, key: Key)
    ensures LiveInv(db, acked, key, Returned(true)) && LiveInv(db, acked, key, Returned(false))
  {
  }

  /** The stores after row's state was offered to the upsert. */
  function Upserted(db: Db, row: Row, updated: State): Db {
    db.(states := if Advances(db, row.txn.key, updated) then db.states[row.txn.key := updated] else db.states)
  }

  /** Storing the fold of all the key's rows catches the key up; a write of another key leaves it alone. */
  lemma WriteKey(db: Db, acked: set<EventId>, key: Key, row: Row, updated: State)
    requires LiveInv(db, acked, key, Writing(row, updated)) && KeyInv(db, acked, key)
    ensures KeyInv(Upserted(db, row, updated), acked, key)
    ensures row.txn.key == key ==> MayAck(Upserted(db, row, updated), row)
  {
    hide FoldRows, RowsOf;
  }

  lemma WriteLive(db: Db, acked: set<EventId>, key: Key, row: Row, updated: State, call: Call)
    requires LiveInv(db, acked, key, call) && (call.Returned? || CallKey(call) != Some(row.txn.key))
    ensures LiveInv(Upserted(db, row, updated), acked, key, call)
  {
    hide FoldRows, RowsOf;
  }

  lemma StepWrite(sys: Sys, pid: Pid, answered: bool, key: Key)
    requires Inv(sys, key) && Enabled(sys, WriteRuns(pid, answered))
    ensures Inv(Do(sys, WriteRuns(pid, answered)), key)
  {
    var row, updated, db, acked := sys.calls[pid].row, sys.calls[pid].updated, sys.db, sys.acked;
    var db' := Upserted(db, row, updated);
    assert LiveInv(db, acked, key, sys.calls[pid]) && row in db.rows;
    WriteKey(db, acked, key, row, updated);
    ReturnedLive(db', acked, key);
    hide FoldRows, KeyInv, LiveInv, RowsOf, MayAck, UniqueRows, Advances;
    forall p <- sys.calls | p != pid ensures LiveInv(db', acked, key, sys.calls[p]) {
      assert Apart(sys.calls[p], sys.calls[pid]);
      WriteLive(db, acked, key, row, updated, sys.calls[p]);
    }
    Settles(sys, pid, row, Returned(answered), db', key);
  }

  /** The steps that leave both stores and the acknowledgements alone. */
  lemma StepQuiet(sys: Sys, step: Step, key: Key)
    requires Inv(sys, key) && Enabled(sys, step) && Polite(sys, step, key)
    requires !step.InsertCommits? && !step.Read? && !step.WriteRuns?
    ensures Inv(Do(sys, step), key)
  {
    hide FoldRows, RowsOf, KeyInv, AllAcked, UniqueRows, LastMissing;
    if step.Begin? {
      assert LiveInv(sys.db, sys.acked, key, Inserting(step.txn));
      hide LiveInv;
    } else if !step.Vanish? {
      var was, call := sys.calls[step.pid], Do(sys, step).calls[step.pid];
      assert LiveInv(sys.db, sys.acked, key, was);
      assert LiveInv(sys.db, sys.acked, key, call);
      assert call.Returned? || (CallKey(call) == CallKey(was) && CallEvent(call) == CallEvent(was));
      hide LiveInv;
      MovedKeeps(sys, step.pid, call, key);
    }
  }

  /** A call that moves on within its own key and event, or returns, keeps clear of every other. */
  lemma MovedKeeps(sys: Sys, pid: Pid, call: Call, key: Key)
    requires Inv(sys, key) && pid in sys.calls && !sys.calls[pid].Returned? && LiveInv(sys.db, sys.acked, key, call)
    requires call.Returned? || (CallKey(call) == CallKey(sys.calls[pid]) &&
             CallEvent(call) == CallEvent(sys.calls[pid]))
    ensures Inv(Move(sys, pid, call), key)
  {
    hide KeyInv, LiveInv, UniqueRows, CallKey, CallEvent;
  }

  lemma StepExactlyOnce(sys: Sys, step: Step, key: Key)
    requires Inv(sys, key) && Enabled(sys, step) && Polite(sys, step, key)
    ensures Inv(Do(sys, step), key)
  {
    hide Inv, Do, Polite;
    match step
    case InsertCommits(pid, id, answered) => StepCommit(sys, pid, id, answered, key);
    case Read(pid, answered) => StepRead(sys, pid, answered, key);
    case WriteRuns(pid, answered) => StepWrite(sys, pid, answered, key);
    case _ => StepQuiet(sys, step, key);
  }

  lemma {:induction false} RunKeepsInv(sys: Sys, steps: seq<Step>, key: Key)
    requires Inv(sys, key) && IsPoliteRun(sys, steps, key)
    ensures IsRun(sys, steps) && Inv(Exec(sys, steps), key)
    decreases |steps|
  {
    hide Inv, Do, Polite;
    if steps != [] {
      StepExactlyOnce(sys, steps[0], key);
      RunKeepsInv(Do(sys, steps[0]), steps[1..], key);
    }
  }

  /** Exactly once. After any run from empty stores that is polite for the key, whatever happens to other keys, the
      key's rows are in ID order and its state folds all of them, or all but a last one for which no call has
      returned nil; so acknowledging every row means every row is counted, once and in order. */
  lemma RunExactlyOnce(steps: seq<Step>, key: Key)
    requires IsPoliteRun(INITIAL, steps, key)
    ensures IsRun(INITIAL, steps)
    ensures var sys := Exec(INITIAL, steps);
            var rows, s := RowsOf(sys.db.rows, key), Stored(sys.db, key);
            && Increasing(rows)
            && (CaughtUp(rows, s) || OneBehind(rows, s, sys.acked))
            && (AllAcked(sys.db, sys.acked, key) ==> FoldRows(rows) == Ok(s))
  {
    RunKeepsInv(INITIAL, steps, key);
    var sys := Exec(INITIAL, steps);
    if AllAcked(sys.db, sys.acked, key) { AllAckedCaughtUp(sys.db, sys.acked, key); }
  }

  // ---- Replay ----

  /** Every stored row is already covered by its key's state. */
  predicate Complete(db: Db) {
    forall r <- db.rows :: Covers(Stored(db, r.txn.key), r.id)
  }

  /** Acknowledging everything makes the stores complete. */
  lemma AckedIsComplete(sys: Sys)
    requires forall key: Key :: Inv(sys, key) && AllAcked(sys.db, sys.acked, key)
    ensures Complete(sys.db)
  {
    hide FoldRows;
    forall r <- sys.db.rows ensures Covers(Stored(sys.db, r.txn.key), r.id) {
      var key := r.txn.key;
      assert Inv(sys, key);
      AllAckedCaughtUp(sys.db, sys.acked, key);
      RowsOfMember(sys.db.rows, key, r);
      var i :| 0 <= i < |RowsOf(sys.db.rows, key)| && RowsOf(sys.db.rows, key)[i] == r;
      CoversFolded(sys.db, sys.acked, key, i);
    }
  }

  /** A step that delivers nothing the ledger does not already hold. */
  predicate Redelivers(db: Db, step: Step) {
    step.Begin? ==> HasEvent(db.rows, step.txn.event)
  }

  predicate QuietCall(db: Db, call: Call) {
    match call
    case Inserting(txn) => HasEvent(db.rows, txn.event)
    case Looking(txn) => HasEvent(db.rows, txn.event)
    case Reading(row) => row in db.rows
    case Writing(_, _) => false
    case Returned(_) => true
  }

  /** Once every row is covered, replaying stored events in any interleaving, with any failures and any
      number of callers per key, changes neither store. */
  lemma {:induction false} ReplayChangesNothing(sys: Sys, steps: seq<Step>)
    requires Complete(sys.db) && IsRun(sys, steps)
    requires forall pid <- sys.calls :: QuietCall(sys.db, sys.calls[pid])
    requires forall step <- steps :: Redelivers(sys.db, step)
    ensures Exec(sys, steps).db == sys.db
    decreases |steps|
  {
    if steps != [] {
      var sys' := Do(sys, steps[0]);
      ReplayStep(sys, steps[0]);
      ReplayChangesNothing(sys', steps[1..]);
    }
  }

  lemma ReplayStep(sys: Sys, step: Step)
    requires Complete(sys.db) && Enabled(sys, step) && Redelivers(sys.db, step)
    requires forall pid <- sys.calls :: QuietCall(sys.db, sys.calls[pid])
    ensures Do(sys, step).db == sys.db
    ensures forall pid <- Do(sys, step).calls :: QuietCall(sys.db, Do(sys, step).calls[pid])
  {
    hide ApplyTransaction;
  }
}
