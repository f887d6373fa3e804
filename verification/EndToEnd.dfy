/** The accounting laws of the stored ledger, one call of Reconcile at a time, and attempts one after another: each
    keeps the rule of every key whose events are not given up, and all together fold exactly what they wrote. */
module EndToEnd {
  import opened GoInts
  import opened Ledger
  import opened Accounting
  import opened ReconcileProtocol
  import opened ExactlyOnce
  import opened OneCaller
  import opened Reconciler

  // ---- From ledger rows to trades ----

  function Trades(rows: seq<Row>): Option<seq<Trade>> {
    if rows == [] then Some([])
    else
      var front, last := Trades(rows[..|rows| - 1]), SignedTrade(rows[|rows| - 1].txn);
      if front.Some? && last.Some? then Some(front.value + [last.value]) else None
  }

  /** The accounting never looks at the watermark. */
  lemma WatermarkIsInert(s: State, t: Trade, w: Option<int64>)
    ensures ApplyTrade(s.(watermark := w), t) == match ApplyTrade(s, t)
              case Err => Err
              case Ok(s') => Ok(s'.(watermark := w))
  {
    hide MulAmount, DivAmount;
  }

  /** Folding rows is folding their trades, with the watermark carried along. */
  lemma {:induction false} FoldRowsIsFold(rows: seq<Row>)
    requires FoldRows(rows).Ok?
    ensures Trades(rows).Some? && Fold(ZERO_STATE, Trades(rows).value) == Ok(FoldRows(rows).state.(watermark := None))
    decreases |rows|
  {
    if rows != [] {
      hide ApplyTrade, Fold;
      var front, last := rows[..|rows| - 1], rows[|rows| - 1];
      FoldRowsIsFold(front);
      var s, t := FoldRows(front).state, SignedTrade(last.txn).value;
      WatermarkIsInert(s, t, None);
      FoldSnoc(ZERO_STATE, Trades(front).value, t);
    } else {
      assert Fold(ZERO_STATE, []) == Ok(ZERO_STATE);
    }
  }

  // ---- The ledger's own sums, by side, quantity and price ----

  /** Bought less sold. */
  function LedgerNet(rows: seq<Row>): int {
    if rows == [] then 0
    else
      var txn := rows[|rows| - 1].txn;
      LedgerNet(rows[..|rows| - 1]) + if txn.side == "BUY" then txn.quantity else -(txn.quantity as int)
  }

  /** Paid for what was bought less received for what was sold, scaled twice. */
  function LedgerCash(rows: seq<Row>): int {
    if rows == [] then 0
    else
      var txn := rows[|rows| - 1].txn;
      var value := txn.quantity * txn.price;
      LedgerCash(rows[..|rows| - 1]) + if txn.side == "BUY" then value else -value
  }

  /** What ingestion lets through. */
  predicate Acceptable(txn: Transaction) {
    0 < txn.quantity <= 1_000_000_000_000_000_000 && 0 < txn.price <= 1_000_000_000_000_000_000
  }

  /** The accounting laws of a state against the ledger rows it stands for: its position is what they bought less what
      they sold, reduced to int64; and when no sum of theirs overflows, its realised P&L is the cost of the position
      less the cash paid, within the rounding slack. */
  predicate Lawful(rows: seq<Row>, s: State) {
    && (forall i | 0 <= i < |rows| :: rows[i].txn.side == "BUY" || rows[i].txn.side == "SELL")
    && s.position == Residue64(LedgerNet(rows))
    && Trades(rows).Some? && Fold(ZERO_STATE, Trades(rows).value).Ok?
    && ((forall i | 0 <= i < |rows| :: Acceptable(rows[i].txn)) && RunFits(ZERO_STATE, Trades(rows).value) ==>
          && s.position == LedgerNet(rows)
          && Abs(s.realizedPnL * 100_000_000 - (s.position * s.averageCost - LedgerCash(rows)))
             <= RunSlack(ZERO_STATE, Trades(rows).value))
  }

  lemma {:induction false} NetSnoc(trades: seq<Trade>, t: Trade)
    ensures Net(trades + [t]) == Net(trades) + t.quantity
    ensures Cash(trades + [t]) == Cash(trades) + t.quantity * t.price
    decreases |trades|
  {
    if trades == [] {
      assert trades + [t] == [t];
    } else {
      assert (trades + [t])[1..] == trades[1..] + [t];
      hide Notional;
      assert Notional(t.quantity, t.price) == t.quantity * t.price by { NotionalIs(t.quantity, t.price); }
      NetSnoc(trades[1..], t);
    }
  }

  lemma NotionalIs(a: int, b: int)
    ensures Notional(a, b) == a * b
  {
  }

  /** The trades of the rows, side by side with the ledger's sums. */
  lemma {:induction false} TradesAreTheRows(rows: seq<Row>)
    requires Trades(rows).Some?
    ensures var trades := Trades(rows).value;
            && |trades| == |rows|
            && (forall i | 0 <= i < |rows| :: rows[i].txn.side == "BUY" || rows[i].txn.side == "SELL")
            && Residue64(Net(trades)) == Residue64(LedgerNet(rows))
            && ((forall i | 0 <= i < |rows| :: Acceptable(rows[i].txn)) ==>
                  && (forall i | 0 <= i < |trades| :: Tradable(trades[i]))
                  && Net(trades) == LedgerNet(rows) && Cash(trades) == LedgerCash(rows))
    decreases |rows|
  {
    if rows != [] {
      hide Net, Cash, Residue64;
      var front, txn := rows[..|rows| - 1], rows[|rows| - 1].txn;
      var t, net := SignedTrade(txn).value, if txn.side == "BUY" then txn.quantity as int else -(txn.quantity as int);
      TradesAreTheRows(front);
      NetSnoc(Trades(front).value, t);
      SameResidue(Net(Trades(front).value), LedgerNet(front), net);
      ResidueAbsorbs(net, Net(Trades(front).value));
      if Acceptable(txn) { SignedCash(txn, t); }
    }
  }

  lemma SameResidue(x: int, y: int, d: int)
    requires Residue64(x) == Residue64(y)
    ensures Residue64(x + d) == Residue64(y + d)
  {
    var k := (x - INT64_MIN) / UINT64_MOD - (y - INT64_MIN) / UINT64_MOD;
    assert x == y + k * UINT64_MOD;
    ResidueShift(y + d, k);
  }

  lemma SignedCash(txn: Transaction, t: Trade)
    requires SignedTrade(txn) == Some(t) && Acceptable(txn)
    ensures Tradable(t) && t.quantity == (if txn.side == "BUY" then txn.quantity as int else -(txn.quantity as int))
    ensures t.quantity * t.price == if txn.side == "BUY" then txn.quantity * txn.price else -(txn.quantity * txn.price)
  {
  }

  lemma FoldIsLawful(rows: seq<Row>, s: State)
    requires FoldRows(rows) == Ok(s)
    ensures Lawful(rows, s)
  {
    hide Fold, FoldRows, Trades, RunFits, Net, Cash, RunSlack, Notional, Tradable, LedgerNet, LedgerCash, Acceptable;
    FoldRowsIsFold(rows);
    TradesAreTheRows(rows);
    var trades := Trades(rows).value;
    PositionIsNet(ZERO_STATE, trades);
    if (forall i | 0 <= i < |rows| :: Acceptable(rows[i].txn)) && RunFits(ZERO_STATE, trades) {
      CashConservation(trades);
      NotionalIs(s.position, s.averageCost);
    }
  }

  /** After any run polite for the key, once every row of the key is acknowledged, its state is lawful. */
  lemma LedgerBalances(steps: seq<Step>, key: Key)
    requires IsPoliteRun(INITIAL, steps, key) && IsRun(INITIAL, steps)
    requires var sys := Exec(INITIAL, steps); AllAcked(sys.db, sys.acked, key)
    ensures var sys := Exec(INITIAL, steps); Lawful(RowsOf(sys.db.rows, key), Stored(sys.db, key))
  {
    hide FoldRows, RowsOf, IsPoliteRun, IsRun, Exec, AllAcked, Lawful;
    RunExactlyOnce(steps, key);
    var sys := Exec(INITIAL, steps);
    FoldIsLawful(RowsOf(sys.db.rows, key), Stored(sys.db, key));
  }

  // ---- The sequential consumer is polite ----

  /** One call of Reconcile: the ID an insert would get, and how the stores behave. */
  datatype Try = Try(id: int64, faults: Faults)

  predicate Newest(rows: seq<Row>, id: int64) {
    forall i | 0 <= i < |rows| :: rows[i].id < id
  }

  /** Caller 0 is idle and nobody else is about. */
  predicate Idle(sys: Sys) {
    forall p <- sys.calls :: p == 0 && sys.calls[p].Returned?
  }

  predicate OnlyZero(sys: Sys) { forall p <- sys.calls :: p == 0 }

  /** Every row of the key is acknowledged, except those of pending events. */
  predicate AckedBut(sys: Sys, key: Key, pending: set<EventId>) {
    forall r <- RowsOf(sys.db.rows, key) :: r.txn.event in sys.acked || r.txn.event in pending
  }

  /** What one call for txn works under: it is the only one, any insert gets the newest ID, and only its own event may
      be pending on the key. */
  predicate Alone(sys: Sys, id: int64, txn: Transaction, key: Key, pending: set<EventId>) {
    && Inv(sys, key) && OnlyZero(sys) && CanStep(sys, id) && AckedBut(sys, key, pending)
    && (txn.key == key ==> txn.event in pending)
    && match sys.calls[0]
       case Inserting(t) => t == txn && Newest(sys.db.rows, id)
       case Returned(_) => true
       case call => CallKey(call) == Some(txn.key) && CallEvent(call) == Some(txn.event)
  }

  /** The call's next step is polite and keeps its working conditions. */
  lemma AloneStep(sys: Sys, id: int64, f: Faults, txn: Transaction, key: Key, pending: set<EventId>)
    requires Alone(sys, id, txn, key, pending) && !sys.calls[0].Returned?
    ensures Polite(sys, NextStep(sys, id, f), key) && Alone(Do(sys, NextStep(sys, id, f)), id, txn, key, pending)
    ensures Do(sys, NextStep(sys, id, f)).calls[0] == Returned(true) ==>
            txn.event in Do(sys, NextStep(sys, id, f)).acked
  {
    var step := NextStep(sys, id, f);
    assert Polite(sys, step, key) by {
      hide Inv, AckedBut;
      NewestPolite(sys, id, step, key);
    }
    StepExactlyOnce(sys, step, key);
    assert sys.calls[0].Looking? ==> SameKeyAgain(sys.db.rows, sys.calls[0].txn) by {
      assert LiveInv(sys.db, sys.acked, key, sys.calls[0]);
    }
    hide Inv, Polite, AckedBut;
    StepKeepsCall(sys, step);
    StepKeepsAcked(sys, step, key, pending);
  }

  lemma NewestPolite(sys: Sys, id: int64, step: Step, key: Key)
    requires Enabled(sys, step) && !step.Begin? && (step.InsertCommits? ==> step.id == id && Newest(sys.db.rows, id))
    ensures Polite(sys, step, key)
  {
    forall r <- RowsOf(sys.db.rows, key) ensures r in sys.db.rows { RowsOfMember(sys.db.rows, key, r); }
  }

  /** The lone call stays with its key and event, and acknowledges the event when it returns nil. */
  lemma StepKeepsCall(sys: Sys, step: Step)
    requires Enabled(sys, step) && OnlyZero(sys) && 0 in sys.calls && !sys.calls[0].Returned?
    requires !step.Begin? && !step.Vanish? && (sys.calls[0].Looking? ==> SameKeyAgain(sys.db.rows, sys.calls[0].txn))
    ensures var sys', call := Do(sys, step), Do(sys, step).calls[0];
            && OnlyZero(sys') && 0 in sys'.calls && !call.Inserting?
            && (!call.Returned? ==>
                  CallKey(call) == CallKey(sys.calls[0]) && CallEvent(call) == CallEvent(sys.calls[0]))
            && (call == Returned(true) ==> CallEvent(sys.calls[0]).value in sys'.acked)
  {
    hide ApplyTransaction;
  }

  /** A step adds at most a row of the lone call's own transaction. */
  lemma StepKeepsAcked(sys: Sys, step: Step, key: Key, pending: set<EventId>)
    requires Enabled(sys, step) && OnlyZero(sys) && AckedBut(sys, key, pending)
    requires step.InsertCommits? && sys.calls[0].txn.key == key ==> sys.calls[0].txn.event in pending
    ensures AckedBut(Do(sys, step), key, pending)
  {
    hide ApplyTransaction, RowsOf;
    if step.InsertCommits? { RowsOfSnoc(sys.db.rows, Row(step.id, sys.calls[0].txn), key); }
  }

  lemma NextStepLowers(sys: Sys, id: int64, f: Faults)
    requires CanStep(sys, id) && !sys.calls[0].Returned?
    ensures Rank(Do(sys, NextStep(sys, id, f)).calls[0]) < Rank(sys.calls[0])
  {
    hide ApplyTransaction;
  }

  /** A whole call is a run polite for every key with nothing but its own event pending and, if it returns nil,
      acknowledges its event. */
  lemma {:induction false} SoloPolite(sys: Sys, id: int64, f: Faults, txn: Transaction, key: Key, pending: set<EventId>)
    returns (steps: seq<Step>)
    requires Alone(sys, id, txn, key, pending) && (sys.calls[0] == Returned(true) ==> txn.event in sys.acked)
    ensures IsPoliteRun(sys, steps, key) && IsRun(sys, steps) && Exec(sys, steps) == Solo(sys, id, f)
    ensures var sys' := Solo(sys, id, f);
            && Inv(sys', key) && Idle(sys') && AckedBut(sys', key, pending)
            && (sys'.calls[0] == Returned(true) ==> txn.event in sys'.acked)
    decreases Rank(sys.calls[0])
  {
    hide Inv, Polite, Do, NextStep, AckedBut;
    if sys.calls[0].Returned? {
      steps := [];
    } else {
      var step := NextStep(sys, id, f);
      AloneStep(sys, id, f, txn, key, pending);
      NextStepLowers(sys, id, f);
      hide Alone;
      var rest := SoloPolite(Do(sys, step), id, f, txn, key, pending);
      steps := [step] + rest;
      assert steps[1..] == rest;
    }
  }

  const CLEAN := Faults(Clean, true, true, Clean)

  /** Progress: with no fault, a new event of a settled key is acknowledged exactly when the key's rows with it
      fold, and the state is then that fold; otherwise its row stays stored and unapplied. */
  lemma CleanCallAppliesIff(sys: Sys, txn: Transaction, id: int64)
    requires Inv(sys, txn.key) && Idle(sys) && Newest(sys.db.rows, id) && CanStep(Do(sys, Begin(0, txn)), id)
    requires !HasEvent(sys.db.rows, txn.event) && AllAcked(sys.db, sys.acked, txn.key)
    ensures var sys' := Solo(Do(sys, Begin(0, txn)), id, CLEAN);
            var rows' := RowsOf(sys.db.rows, txn.key) + [Row(id, txn)];
            && sys'.db.rows == sys.db.rows + [Row(id, txn)]
            && (sys'.calls[0] == Returned(true) <==> FoldRows(rows').Ok?)
            && Stored(sys'.db, txn.key) == if FoldRows(rows').Ok? then FoldRows(rows').state
                else Stored(sys.db, txn.key)
  {
    var row, rows, s := Row(id, txn), RowsOf(sys.db.rows, txn.key), Stored(sys.db, txn.key);
    AllAckedCaughtUp(sys.db, sys.acked, txn.key);
    FoldRowsSnoc(rows, row);
    NotYetCovered(rows, sys.db.rows, s, txn.key, id);
    ApplySetsWatermark(s, id, txn);
    CleanInsert(Do(sys, Begin(0, txn)), id);
    hide FoldRows, RowsOf, ApplyTransaction, Inv, AllAcked, Solo, Idle, Newest, HasEvent, CanStep;
  }

  lemma CleanInsert(sys: Sys, id: int64)
    requires CanStep(sys, id) && sys.calls[0].Inserting? && !HasEvent(sys.db.rows, sys.calls[0].txn.event)
    ensures var row := Row(id, sys.calls[0].txn);
            EndsLike(Solo(sys, id, CLEAN), sys.db.(rows := sys.db.rows + [row]), row)
  {
    hide Decide, Advances, EndsLike;
    CleanRead(Do(sys, InsertCommits(0, id, true)), id, Row(id, sys.calls[0].txn));
  }

  /** A clean call that has read `db` for its row returns what it decides, having written what it can. */
  predicate EndsLike(sys: Sys, db: Db, row: Row) {
    && 0 in sys.calls && sys.db.rows == db.rows
    && match Decide(row, Stored(db, row.txn.key))
       case Writing(_, updated) =>
         && sys.calls[0] == Returned(true)
         && sys.db.states == if Advances(db, row.txn.key, updated) then db.states[row.txn.key := updated] else db.states
       case decided => sys.calls[0] == decided && sys.db.states == db.states
  }

  lemma CleanRead(sys: Sys, id: int64, row: Row)
    requires CanStep(sys, id) && sys.calls[0] == Reading(row)
    ensures EndsLike(Solo(sys, id, CLEAN), sys.db, row)
  {
    hide ApplyTransaction, Advances, HasEvent, HasId;
    var next := Do(sys, Read(0, true));
    assert NextStep(sys, id, CLEAN) == Read(0, true);
    if next.calls[0].Writing? {
      var last := Do(next, WriteRuns(0, true));
      assert NextStep(next, id, CLEAN) == WriteRuns(0, true);
      assert Solo(last, id, CLEAN) == last;
    }
  }

  lemma NotYetCovered(rows: seq<Row>, all: seq<Row>, s: State, key: Key, id: int64)
    requires rows == RowsOf(all, key) && FoldRows(rows) == Ok(s) && Newest(all, id)
    ensures !Covers(s, id)
  {
    hide FoldRows, RowsOf;
    FoldWatermark(rows);
    if rows != [] { RowsOfMember(all, key, rows[|rows| - 1]); }
  }

  // ---- One attempt ----

  /** The sequence has a newer ID to hand out and nobody else is about. */
  predicate CanBegin(sys: Sys, t: Try) { Idle(sys) && Newest(sys.db.rows, t.id) }

  /** One attempt: begin the call and let it run its course. */
  predicate CanTry(sys: Sys, txn: Transaction, t: Try) {
    CanBegin(sys, t) && SameKeyAgain(sys.db.rows, txn)
  }

  function Tried(sys: Sys, txn: Transaction, t: Try): (sys': Sys)
    requires CanBegin(sys, t)
    ensures 0 in sys'.calls && sys'.calls[0].Returned?
  {
    NewestIsFresh(sys.db.rows, t.id);
    Solo(Do(sys, Begin(0, txn)), t.id, t.faults)
  }

  lemma NewestIsFresh(rows: seq<Row>, id: int64)
    requires Newest(rows, id)
    ensures !HasId(rows, id)
  {
  }

  /** An attempt keeps a key on which at most its own event is pending, and on nil acknowledges its event. */
  lemma TryKeeps(sys: Sys, txn: Transaction, t: Try, key: Key, pending: set<EventId>)
    requires Inv(sys, key) && CanTry(sys, txn, t) && AckedBut(sys, key, pending)
    requires txn.key == key ==> pending == {txn.event}
    ensures var sys' := Tried(sys, txn, t);
            && Inv(sys', key) && Idle(sys') && AckedBut(sys', key, pending)
            && (sys'.calls[0] == Returned(true) ==> txn.event in sys'.acked)
  {
    NewestIsFresh(sys.db.rows, t.id);
    var begin := Begin(0, txn);
    assert Polite(sys, begin, key) by {
      if txn.key == key && !HasEvent(sys.db.rows, txn.event) { NothingPending(sys, key, txn.event); }
    }
    StepExactlyOnce(sys, begin, key);
    hide Inv, Polite;
    var steps := SoloPolite(Do(sys, begin), t.id, t.faults, txn, key, pending);
  }

  /** An event that is acknowledged, or not even stored, leaves nothing pending. */
  lemma NothingPending(sys: Sys, key: Key, event: EventId)
    requires AckedBut(sys, key, {event}) && (event in sys.acked || !HasEvent(sys.db.rows, event))
    ensures AckedBut(sys, key, {}) && AllAcked(sys.db, sys.acked, key)
  {
    forall r <- RowsOf(sys.db.rows, key) ensures r.txn.event in sys.acked {
      RowsOfMember(sys.db.rows, key, r);
      var i :| 0 <= i < |sys.db.rows| && sys.db.rows[i] == r;
    }
  }

  /** An attempt stores at most its own transaction and leaves its caller idle. */
  lemma TryRows(sys: Sys, txn: Transaction, t: Try)
    requires CanBegin(sys, t)
    ensures var sys' := Tried(sys, txn, t);
            Idle(sys') && (sys'.db.rows == sys.db.rows || sys'.db.rows == sys.db.rows + [Row(t.id, txn)])
  {
    NewestIsFresh(sys.db.rows, t.id);
    SoloRows(Do(sys, Begin(0, txn)), t.id, t.faults);
  }

  lemma {:induction false} SoloRows(sys: Sys, id: int64, f: Faults)
    requires CanStep(sys, id) && OnlyZero(sys)
    ensures var sys', call := Solo(sys, id, f), sys.calls[0];
            && Idle(sys')
            && (sys'.db.rows == sys.db.rows || (call.Inserting? && sys'.db.rows == sys.db.rows + [Row(id, call.txn)]))
    decreases Rank(sys.calls[0])
  {
    hide ApplyTransaction;
    if !sys.calls[0].Returned? {
      NextStepLowers(sys, id, f);
      StepRows(sys, id, f);
      hide Do, NextStep;
      SoloRows(Do(sys, NextStep(sys, id, f)), id, f);
    }
  }

  lemma StepRows(sys: Sys, id: int64, f: Faults)
    requires CanStep(sys, id) && OnlyZero(sys) && !sys.calls[0].Returned?
    ensures var sys', call := Do(sys, NextStep(sys, id, f)), sys.calls[0];
            && OnlyZero(sys') && 0 in sys'.calls && !sys'.calls[0].Inserting?
            && (sys'.db.rows == sys.db.rows || (call.Inserting? && sys'.db.rows == sys.db.rows + [Row(id, call.txn)]))
  {
    hide ApplyTransaction;
  }

  // ---- Attempts one after another ----

  /** One attempt at one record. */
  datatype Visit = Visit(txn: Transaction, attempt: Try)

  /** Attempts one after another: any records in any order, each tried as often as the consumer likes and given up
      when it likes, whatever the attempts returned. */
  predicate Visits(sys: Sys, vs: seq<Visit>)
    decreases |vs|
  {
    vs == [] || (CanTry(sys, vs[0].txn, vs[0].attempt) && Visits(Tried(sys, vs[0].txn, vs[0].attempt), vs[1..]))
  }

  function Visited(sys: Sys, vs: seq<Visit>): Sys
    requires Visits(sys, vs)
    decreases |vs|
  {
    if vs == [] then sys else Visited(Tried(sys, vs[0].txn, vs[0].attempt), vs[1..])
  }

  lemma {:induction false} NoBeginIsOneCaller(sys: Sys, steps: seq<Step>)
    requires IsRun(sys, steps) && forall step <- steps :: !step.Begin?
    ensures IsOneCallerRun(sys, steps)
    decreases |steps|
  {
    hide Do, Enabled;
    if steps != [] { NoBeginIsOneCaller(Do(sys, steps[0]), steps[1..]); }
  }

  lemma {:induction false} OneCallerConcat(sys: Sys, a: seq<Step>, b: seq<Step>)
    requires IsOneCallerRun(sys, a) && IsRun(sys, a) && IsOneCallerRun(Exec(sys, a), b) && IsRun(Exec(sys, a), b)
    ensures IsOneCallerRun(sys, a + b) && IsRun(sys, a + b) && Exec(sys, a + b) == Exec(Exec(sys, a), b)
    decreases |a|
  {
    hide Do, Enabled, OneLive;
    if a == [] {
      assert a + b == b;
    } else {
      assert (a + b)[1..] == a[1..] + b;
      OneCallerConcat(Do(sys, a[0]), a[1..], b);
    }
  }

  lemma TryIsOneCaller(sys: Sys, txn: Transaction, t: Try) returns (steps: seq<Step>)
    requires CanTry(sys, txn, t)
    ensures IsOneCallerRun(sys, steps) && IsRun(sys, steps) && Exec(sys, steps) == Tried(sys, txn, t)
  {
    NewestIsFresh(sys.db.rows, t.id);
    var begin := Begin(0, txn);
    var rest := SoloIsRun(Do(sys, begin), t.id, t.faults);
    NoBeginIsOneCaller(Do(sys, begin), rest);
    assert OneLive(sys, begin);
    steps := [begin] + rest;
    assert steps[1..] == rest;
  }

  lemma {:induction false} VisitsAreOneCaller(sys: Sys, vs: seq<Visit>) returns (steps: seq<Step>)
    requires Visits(sys, vs)
    ensures IsOneCallerRun(sys, steps) && IsRun(sys, steps) && Exec(sys, steps) == Visited(sys, vs)
    decreases |vs|
  {
    if vs == [] {
      steps := [];
    } else {
      var first := TryIsOneCaller(sys, vs[0].txn, vs[0].attempt);
      hide Tried, CanTry;
      var rest := VisitsAreOneCaller(Tried(sys, vs[0].txn, vs[0].attempt), vs[1..]);
      OneCallerConcat(sys, first, rest);
      steps := first + rest;
    }
  }

  lemma {:induction false} VisitsSnoc(sys: Sys, vs: seq<Visit>, v: Visit)
    requires Visits(sys, vs) && CanTry(Visited(sys, vs), v.txn, v.attempt)
    ensures Visits(sys, vs + [v]) && Visited(sys, vs + [v]) == Tried(Visited(sys, vs), v.txn, v.attempt)
    decreases |vs|
  {
    hide Tried, CanBegin, SameKeyAgain;
    if vs == [] {
      assert vs + [v] == [v] && [v][1..] == [];
    } else {
      assert (vs + [v])[1..] == vs[1..] + [v];
      VisitsSnoc(Tried(sys, vs[0].txn, vs[0].attempt), vs[1..], v);
    }
  }

  /** Any attempts at any records, with any redeliveries and store faults and whatever is given up, are a run under
      the one-caller rule: each key's state is the fold, in ID order, of exactly the rows whose write ran, and lawful
      for those rows. */
  lemma AttemptsFoldWhatTheyWrote(vs: seq<Visit>, key: Key) returns (steps: seq<Step>)
    requires Visits(INITIAL, vs)
    ensures IsOneCallerRun(INITIAL, steps) && IsRun(INITIAL, steps) && Exec(INITIAL, steps) == Visited(INITIAL, vs)
    ensures var db, h := Visited(INITIAL, vs).db, WrittenRows(INITIAL, steps, key);
            Explains(h, db.rows, key, Stored(db, key)) && Lawful(h, Stored(db, key))
  {
    steps := VisitsAreOneCaller(INITIAL, vs);
    WrittenRowsAreFolded(steps, key);
    hide FoldRows, Visited, Visits, IsOneCallerRun, IsRun, Exec, WrittenRows, Lawful;
    FoldIsLawful(WrittenRows(INITIAL, steps, key), Stored(Visited(INITIAL, vs).db, key));
  }

  /** One attempt changes the stores exactly as the code's Reconcile does. */
  lemma {:induction false} SoloFrame(a: Sys, b: Sys, id: int64, f: Faults)
    requires CanStep(a, id) && CanStep(b, id) && a.db == b.db && a.calls[0] == b.calls[0]
    ensures Solo(a, id, f).db == Solo(b, id, f).db && Solo(a, id, f).calls[0] == Solo(b, id, f).calls[0]
    decreases Rank(a.calls[0])
  {
    hide ApplyTransaction;
    if !a.calls[0].Returned? { SoloFrame(Do(a, NextStep(a, id, f)), Do(b, NextStep(b, id, f)), id, f); }
  }
}
