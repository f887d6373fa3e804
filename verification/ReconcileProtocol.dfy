/** Reconcile as a protocol over the two stores. Any number of calls interleave; every store operation
    is one atomic step that may succeed, fail before its effect, or take effect and lose its answer;
    a call may vanish at any point and any event may be delivered again. */
module ReconcileProtocol {
  import opened GoInts
  import opened Ledger
  import opened Accounting

  datatype Row = Row(id: int64, txn: Transaction)

  datatype Db = Db(rows: seq<Row>, states: map<Key, State>)

  const EMPTY_DB := Db([], map[])

  type Pid = nat

  /** Where a call stands: the operation it is about to issue, with what it has learnt so far. */
  datatype Call =
    | Inserting(txn: Transaction)
    | Looking(txn: Transaction)
    | Reading(row: Row)
    | Writing(row: Row, updated: State)
    | Returned(ok: bool)

  /** `acked` records the events for which some call has returned nil. */
  datatype Sys = Sys(db: Db, calls: map<Pid, Call>, acked: set<EventId>)

  const INITIAL := Sys(EMPTY_DB, map[], {})

  datatype Step =
    | Begin(pid: Pid, txn: Transaction)
    | InsertFails(pid: Pid)
    | InsertDuplicate(pid: Pid)
    | InsertCommits(pid: Pid, id: int64, answered: bool)
    | Lookup(pid: Pid, answered: bool)
    | Read(pid: Pid, answered: bool)
    | WriteFails(pid: Pid)
    | WriteRuns(pid: Pid, answered: bool)
    | Vanish(pid: Pid)

  predicate HasEvent(rows: seq<Row>, event: EventId) {
    exists i :: 0 <= i < |rows| && rows[i].txn.event == event
  }

  predicate HasId(rows: seq<Row>, id: int64) {
    exists i :: 0 <= i < |rows| && rows[i].id == id
  }

  function FindEvent(rows: seq<Row>, event: EventId): (r: Row)
    requires HasEvent(rows, event)
    ensures r in rows && r.txn.event == event
  {
    if rows[0].txn.event == event then rows[0]
    else
      assert exists i :: 0 <= i < |rows[1..]| && rows[1..][i].txn.event == event by {
        var i :| 0 <= i < |rows| && rows[i].txn.event == event;
        assert rows[1..][i - 1] == rows[i];
      }
      FindEvent(rows[1..], event)
  }

  /** What States.Get yields, with the zero state standing in for a missing row. */
  function Stored(db: Db, key: Key): State {
    if key in db.states then db.states[key] else ZERO_STATE
  }

  predicate Covers(s: State, id: int64) {
    s.watermark.Some? && s.watermark.value >= id
  }

  /** The conflict clause of the upsert. */
  predicate Advances(db: Db, key: Key, s: State) {
    key !in db.states || db.states[key].watermark.None? ||
    (s.watermark.Some? && db.states[key].watermark.value < s.watermark.value)
  }

  /** The local part of a call between reading the state and writing it. */
  function Decide(row: Row, s: State): Call {
    if Covers(s, row.id) then Returned(true)
    else match ApplyTransaction(s, row.id, row.txn)
      case Err => Returned(false)
      case Ok(updated) => Writing(row, updated)
  }

  predicate Enabled(sys: Sys, step: Step) {
    match step
    case Begin(pid, _) => pid !in sys.calls || sys.calls[pid].Returned?
    case InsertFails(pid) => pid in sys.calls && sys.calls[pid].Inserting?
    case InsertDuplicate(pid) =>
      pid in sys.calls && sys.calls[pid].Inserting? && HasEvent(sys.db.rows, sys.calls[pid].txn.event)
    case InsertCommits(pid, id, _) =>
      pid in sys.calls && sys.calls[pid].Inserting? &&
      !HasEvent(sys.db.rows, sys.calls[pid].txn.event) && !HasId(sys.db.rows, id)
    case Lookup(pid, answered) =>
      pid in sys.calls && sys.calls[pid].Looking? && (answered ==> HasEvent(sys.db.rows, sys.calls[pid].txn.event))
    case Read(pid, _) => pid in sys.calls && sys.calls[pid].Reading?
    case WriteFails(pid) => pid in sys.calls && sys.calls[pid].Writing?
    case WriteRuns(pid, _) => pid in sys.calls && sys.calls[pid].Writing?
    case Vanish(pid) => pid in sys.calls
  }

  function Move(sys: Sys, pid: Pid, call: Call): Sys {
    sys.(calls := sys.calls[pid := call])
  }

  function Settle(sys: Sys, pid: Pid, event: EventId, call: Call): Sys {
    Move(sys, pid, call).(acked := if call == Returned(true) then sys.acked + {event} else sys.acked)
  }

  function Do(sys: Sys, step: Step): Sys
    requires Enabled(sys, step)
  {
    match step
    case Begin(pid, txn) => Move(sys, pid, Inserting(txn))
    case InsertFails(pid) => Move(sys, pid, Returned(false))
    case InsertDuplicate(pid) => Move(sys, pid, Looking(sys.calls[pid].txn))
    case InsertCommits(pid, id, answered) =>
      var row := Row(id, sys.calls[pid].txn);
      Move(sys, pid, if answered then Reading(row) else Returned(false)).(db := sys.db.(rows := sys.db.rows + [row]))
    case Lookup(pid, answered) =>
      Move(sys, pid, if answered then Reading(FindEvent(sys.db.rows, sys.calls[pid].txn.event)) else Returned(false))
    case Read(pid, answered) =>
      var row := sys.calls[pid].row;
      Settle(sys, pid, row.txn.event, if answered then Decide(row, Stored(sys.db, row.txn.key)) else Returned(false))
    case WriteFails(pid) => Move(sys, pid, Returned(false))
    case WriteRuns(pid, answered) =>
      var row, updated := sys.calls[pid].row, sys.calls[pid].updated;
      var states := if Advances(sys.db, row.txn.key, updated) then sys.db.states[row.txn.key := updated]
          else sys.db.states;
      Settle(sys, pid, row.txn.event, Returned(answered)).(db := sys.db.(states := states))
    case Vanish(pid) => sys.(calls := sys.calls - {pid})
  }

  /** A run is a list of steps each enabled where it is taken. */
  predicate IsRun(sys: Sys, steps: seq<Step>)
    decreases |steps|
  {
    steps == [] || (Enabled(sys, steps[0]) && IsRun(Do(sys, steps[0]), steps[1..]))
  }

  function Exec(sys: Sys, steps: seq<Step>): Sys
    requires IsRun(sys, steps)
    decreases |steps|
  {
    if steps == [] then sys else Exec(Do(sys, steps[0]), steps[1..])
  }

  // ---- Folds of ledger rows ----

  function FoldRows(h: seq<Row>): Result {
    if h == [] then Ok(ZERO_STATE)
    else match FoldRows(h[..|h| - 1])
      case Err => Err
      case Ok(s) => ApplyTransaction(s, h[|h| - 1].id, h[|h| - 1].txn)
  }

  lemma FoldRowsSnoc(h: seq<Row>, r: Row)
    requires FoldRows(h).Ok?
    ensures FoldRows(h + [r]) == ApplyTransaction(FoldRows(h).state, r.id, r.txn)
  {
    assert (h + [r])[..|h|] == h;
  }

  /** A successful fold carries the last row's ID as its watermark. */
  lemma FoldWatermark(h: seq<Row>)
    requires FoldRows(h).Ok?
    ensures h == [] ==> FoldRows(h).state == ZERO_STATE
    ensures h != [] ==> FoldRows(h).state.watermark == Some(h[|h| - 1].id)
  {
  }

  predicate Increasing(h: seq<Row>) {
    forall i, j | 0 <= i < j < |h| :: h[i].id < h[j].id
  }

  /** s is the fold of the strictly ID-increasing list h of the key's ledger rows. */
  predicate Explains(h: seq<Row>, rows: seq<Row>, key: Key, s: State) {
    && Increasing(h)
    && (forall i | 0 <= i < |h| :: h[i] in rows && h[i].txn.key == key)
    && FoldRows(h) == Ok(s)
  }

  ghost predicate Explained(rows: seq<Row>, key: Key, s: State) {
    exists h :: Explains(h, rows, key, s)
  }

  predicate UniqueRows(rows: seq<Row>) {
    forall i, j | 0 <= i < j < |rows| :: rows[i].id != rows[j].id && rows[i].txn.event != rows[j].txn.event
  }

  lemma ExplainedGrows(rows: seq<Row>, row: Row, key: Key, s: State)
    requires Explained(rows, key, s)
    ensures Explained(rows + [row], key, s)
  {
    var h :| Explains(h, rows, key, s);
    assert Explains(h, rows + [row], key, s);
  }

  /** Folding one more row that the state does not cover extends its history. */
  lemma ExplainedExtends(rows: seq<Row>, row: Row, s: State)
    requires Explained(rows, row.txn.key, s) && row in rows && !Covers(s, row.id)
    ensures match ApplyTransaction(s, row.id, row.txn)
            case Err => true
            case Ok(s') => Explained(rows, row.txn.key, s')
  {
    hide ApplyTransaction, FoldRows;
    var h :| Explains(h, rows, row.txn.key, s);
    FoldWatermark(h);
    FoldRowsSnoc(h, row);
    match ApplyTransaction(s, row.id, row.txn)
    case Err =>
    case Ok(s') =>
      assert Explains(h + [row], rows, row.txn.key, s');
  }

  // ---- At most once, over every interleaving ----

  ghost predicate CallInv(rows: seq<Row>, call: Call) {
    match call
    case Reading(row) => row in rows
    case Writing(row, updated) => row in rows && updated.watermark == Some(row.id) &&
        Explained(rows, row.txn.key, updated)
    case _ => true
  }

  ghost predicate AtMostOnce(sys: Sys) {
    && UniqueRows(sys.db.rows)
    && (forall key <- sys.db.states :: Explained(sys.db.rows, key, sys.db.states[key]))
    && (forall pid <- sys.calls :: CallInv(sys.db.rows, sys.calls[pid]))
  }

  lemma ApplySetsWatermark(s: State, id: int64, txn: Transaction)
    ensures ApplyTransaction(s, id, txn).Ok? ==> ApplyTransaction(s, id, txn).state.watermark == Some(id)
  {
  }

  lemma ZeroExplained(rows: seq<Row>, key: Key)
    ensures Explained(rows, key, ZERO_STATE)
  {
    assert Explains([], rows, key, ZERO_STATE);
  }

  lemma DecideInv(sys: Sys, row: Row)
    requires AtMostOnce(sys) && row in sys.db.rows
    ensures CallInv(sys.db.rows, Decide(row, Stored(sys.db, row.txn.key)))
  {
    hide ApplyTransaction;
    var s := Stored(sys.db, row.txn.key);
    ZeroExplained(sys.db.rows, row.txn.key);
    if !Covers(s, row.id) {
      ExplainedExtends(sys.db.rows, row, s);
      ApplySetsWatermark(s, row.id, row.txn);
    }
  }

  lemma CommitInv(sys: Sys, row: Row)
    requires AtMostOnce(sys) && !HasEvent(sys.db.rows, row.txn.event) && !HasId(sys.db.rows, row.id)
    ensures AtMostOnce(sys.(db := sys.db.(rows := sys.db.rows + [row])))
  {
    hide FoldRows;
    var rows := sys.db.rows;
    forall key <- sys.db.states ensures Explained(rows + [row], key, sys.db.states[key]) {
      ExplainedGrows(rows, row, key, sys.db.states[key]);
    }
    forall pid <- sys.calls ensures CallInv(rows + [row], sys.calls[pid]) {
      var call := sys.calls[pid];
      if call.Writing? { ExplainedGrows(rows, row, call.row.txn.key, call.updated); }
    }
  }

  lemma StepAtMostOnce(sys: Sys, step: Step)
    requires AtMostOnce(sys) && Enabled(sys, step)
    ensures AtMostOnce(Do(sys, step))
  {
    hide ApplyTransaction, FoldRows, Explained;
    match step
    case InsertCommits(pid, id, answered) => CommitInv(sys, Row(id, sys.calls[pid].txn));
    case Read(pid, answered) => DecideInv(sys, sys.calls[pid].row);
    case _ =>
  }

  /** At most once: after any run of any number of calls, every stored state is the fold of a strictly
      ID-increasing list of that key's own ledger rows, ending at its watermark. */
  lemma {:induction false} RunAtMostOnce(sys: Sys, steps: seq<Step>)
    requires AtMostOnce(sys) && IsRun(sys, steps)
    ensures AtMostOnce(Exec(sys, steps))
    decreases |steps|
  {
    if steps != [] {
      StepAtMostOnce(sys, steps[0]);
      RunAtMostOnce(Do(sys, steps[0]), steps[1..]);
    }
  }

  /** A history never holds the same event twice. */
  lemma NoEventTwice(h: seq<Row>, rows: seq<Row>, key: Key, s: State, i: nat, j: nat)
    requires UniqueRows(rows) && Explains(h, rows, key, s) && i < j < |h|
    ensures h[i].txn.event != h[j].txn.event
  {
    var a :| 0 <= a < |rows| && rows[a] == h[i];
    var b :| 0 <= b < |rows| && rows[b] == h[j];
    assert h[i].id < h[j].id;
    assert a < b || b < a;
  }

  /** The order watermarks move in. */
  predicate NotBehind(s: State, s': State) {
    s.watermark.Some? ==> Covers(s', s.watermark.value)
  }

  /** Rows are only appended and watermarks only grow, whatever interleaves. */
  lemma {:induction false} RunIsMonotone(sys: Sys, steps: seq<Step>, key: Key)
    requires AtMostOnce(sys) && IsRun(sys, steps)
    ensures var sys' := Exec(sys, steps);
            sys.db.rows <= sys'.db.rows && NotBehind(Stored(sys.db, key), Stored(sys'.db, key))
    decreases |steps|
  {
    if steps != [] {
      StepAtMostOnce(sys, steps[0]);
      StepIsMonotone(sys, steps[0], key);
      RunIsMonotone(Do(sys, steps[0]), steps[1..], key);
    }
  }

  lemma StepIsMonotone(sys: Sys, step: Step, key: Key)
    requires AtMostOnce(sys) && Enabled(sys, step)
    ensures var sys' := Do(sys, step);
            sys.db.rows <= sys'.db.rows && NotBehind(Stored(sys.db, key), Stored(sys'.db, key))
  {
    hide ApplyTransaction, FoldRows, Explained;
  }
}
