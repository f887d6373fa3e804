/** The poll loop against the real reconciler: when its attempts are answered by calls on the stores, the stores after
    any run of the loop fold exactly what it wrote, and the whole ledger of every key it gave nothing of up. */
module ConsumerLoop {
  import opened GoInts
  import opened Ledger
  import opened Accounting
  import opened ReconcileProtocol
  import opened ExactlyOnce
  import opened OneCaller
  import opened EndToEnd
  import opened Consumer

  /** The outside of the stores: the ID the sequence hands out and the faults of each attempt, by the effects so far. */
  type Env = Log -> Try

  /** An attempt for which the sequence has no newer ID fails without effect. */
  function Attempted(sys: Sys, txn: Transaction, t: Try): Sys {
    if CanBegin(sys, t) then Tried(sys, txn, t) else sys
  }

  predicate Succeeds(sys: Sys, txn: Transaction, t: Try) {
    CanBegin(sys, t) && Tried(sys, txn, t).calls[0] == Returned(true)
  }

  /** The stores after the attempts of a log. */
  function StoresAfter(env: Env, log: Log): Sys {
    if log == [] then INITIAL
    else
      var front, e := log[..|log| - 1], log[|log| - 1];
      var sys := StoresAfter(env, front);
      if e.Attempt? && e.rec.txn.Some? then Attempted(sys, e.rec.txn.value, env(front)) else sys
  }

  lemma StoresSnoc(env: Env, log: Log, e: Effect)
    ensures StoresAfter(env, log + [e]) ==
            if e.Attempt? && e.rec.txn.Some? then Attempted(StoresAfter(env, log), e.rec.txn.value, env(log))
            else StoresAfter(env, log)
  {
    assert (log + [e])[..|log|] == log;
  }

  /** Reconcile's answers to the loop are those of the calls on the stores. */
  ghost predicate Backs(env: Env, w: World) {
    forall log: Log, rec: Record | rec.txn.Some? ::
      w.reconciles(log, rec) <==> Succeeds(StoresAfter(env, log), rec.txn.value, env(log))
  }

  /** An event delivered again carries the key it carried first. */
  ghost predicate Keyed(keyOf: EventId -> Key, rec: Record) {
    rec.txn.Some? ==> rec.txn.value.key == keyOf(rec.txn.value.event)
  }

  ghost predicate AllKeyed(keyOf: EventId -> Key, recs: seq<Record>) {
    forall i | 0 <= i < |recs| :: Keyed(keyOf, recs[i])
  }

  ghost predicate RowsKeyed(keyOf: EventId -> Key, rows: seq<Row>) {
    forall i | 0 <= i < |rows| :: rows[i].txn.key == keyOf(rows[i].txn.event)
  }

  lemma KeyedAgain(keyOf: EventId -> Key, rows: seq<Row>, rec: Record)
    requires RowsKeyed(keyOf, rows) && rec.txn.Some? && Keyed(keyOf, rec)
    ensures SameKeyAgain(rows, rec.txn.value)
  {
    if HasEvent(rows, rec.txn.value.event) {
      var r := FindEvent(rows, rec.txn.value.event);
      var i :| 0 <= i < |rows| && rows[i] == r;
    }
  }

  // ---- The loop's attempts are attempts one after another ----

  function VisitsIn(env: Env, log: Log): seq<Visit> {
    if log == [] then []
    else
      var front, e := log[..|log| - 1], log[|log| - 1];
      if e.Attempt? && e.rec.txn.Some? && CanBegin(StoresAfter(env, front), env(front))
      then VisitsIn(env, front) + [Visit(e.rec.txn.value, env(front))]
      else VisitsIn(env, front)
  }

  ghost predicate LogKeyed(keyOf: EventId -> Key, log: Log) {
    forall i | 0 <= i < |log| :: Keyed(keyOf, log[i].rec)
  }

  lemma {:induction false} LoopVisits(env: Env, keyOf: EventId -> Key, log: Log)
    requires LogKeyed(keyOf, log)
    ensures Visits(INITIAL, VisitsIn(env, log)) && Visited(INITIAL, VisitsIn(env, log)) == StoresAfter(env, log)
    ensures RowsKeyed(keyOf, StoresAfter(env, log).db.rows)
    decreases |log|
  {
    if log != [] {
      var front, e := log[..|log| - 1], log[|log| - 1];
      LoopVisits(env, keyOf, front);
      hide Tried, CanBegin, SameKeyAgain, Visits, Visited;
      var sys, t := StoresAfter(env, front), env(front);
      if e.Attempt? && e.rec.txn.Some? && CanBegin(sys, t) {
        KeyedAgain(keyOf, sys.db.rows, e.rec);
        VisitsSnoc(INITIAL, VisitsIn(env, front), Visit(e.rec.txn.value, t));
        TryRows(sys, e.rec.txn.value, t);
      }
    }
  }

  /** Every effect of a handled record is about that record. */
  lemma DoneIsAbout(seg: Log, rec: Record, maxRetries: nat)
    requires Done(seg, rec, maxRetries) || DeadLettered(seg, rec, maxRetries, false)
    ensures forall i | 0 <= i < |seg| :: seg[i].rec == rec
  {
  }

  lemma {:induction false} ConcatKeyed(keyOf: EventId -> Key, segs: seq<Log>, recs: seq<Record>)
    requires |segs| <= |recs| && AllKeyed(keyOf, recs)
    requires forall i, k | 0 <= i < |segs| && 0 <= k < |segs[i]| :: segs[i][k].rec == recs[i]
    ensures LogKeyed(keyOf, Concat(segs))
    decreases |segs|
  {
    if segs != [] {
      var n := |segs| - 1;
      ConcatKeyed(keyOf, segs[..n], recs);
      forall k | 0 <= k < |segs[n]| ensures Keyed(keyOf, segs[n][k].rec) { assert Keyed(keyOf, recs[n]); }
      hide Keyed;
    }
  }

  /** The records a run was handed: those of its completed polls and, when stopped, of the one it stopped in. */
  function Fetched(polls: seq<Poll>, done: nat, stopped: bool): seq<Record>
    requires done <= |polls| && (stopped ==> done < |polls|)
  {
    AllRecords(polls[..done]) + if stopped then Flatten(polls[done].batches) else []
  }

  lemma HandledIsAbout(segs: seq<Log>, polls: seq<Poll>, done: nat, stopped: bool, maxRetries: nat)
    requires Handled(segs, polls, done, stopped, maxRetries)
    ensures |segs| <= |Fetched(polls, done, stopped)|
    ensures forall i, k | 0 <= i < |segs| && 0 <= k < |segs[i]| :: segs[i][k].rec == Fetched(polls, done, stopped)[i]
  {
    var recs := Fetched(polls, done, stopped);
    hide Done, DeadLettered, AllRecords, Flatten;
    assert !stopped ==> recs == AllRecords(polls[..done]);
    forall i | 0 <= i < |segs| ensures forall k | 0 <= k < |segs[i]| :: segs[i][k].rec == recs[i] {
      if stopped && i < |segs| - 1 { assert Done(segs[..|segs| - 1][i], recs[..|segs| - 1][i], maxRetries); }
      DoneIsAbout(segs[i], recs[i], maxRetries);
    }
  }

  /** Every attempt of the loop is answered as the call on the stores at that point returned. */
  lemma AttemptIsTheCall(w: World, env: Env, log: Log, maxRetries: nat, k: nat)
    requires Honest(w, log, maxRetries) && Backs(env, w) && k < |log| && log[k].Attempt?
    ensures log[k].rec.txn.Some?
    ensures log[k].ok <==> Succeeds(StoresAfter(env, log[..k]), log[k].rec.txn.value, env(log[..k]))
  {
    hide Succeeds, StoresAfter;
    assert Answered(w, log[..k], log[k], maxRetries);
  }

  /** The loop folds what it wrote: after any run of it, whatever it gave up, each key's state is the fold, in ID order,
      of exactly the rows whose write ran, and lawful for those rows. */
  lemma LoopFoldsWhatItWrote(env: Env, keyOf: EventId -> Key, polls: seq<Poll>, segs: seq<Log>, done: nat,
      stopped: bool, maxRetries: nat, key: Key) returns (steps: seq<Step>)
    requires Handled(segs, polls, done, stopped, maxRetries) && AllKeyed(keyOf, Fetched(polls, done, stopped))
    ensures IsOneCallerRun(INITIAL, steps) && IsRun(INITIAL, steps)
    ensures Exec(INITIAL, steps) == StoresAfter(env, Concat(segs))
    ensures var db, h := StoresAfter(env, Concat(segs)).db, WrittenRows(INITIAL, steps, key);
            Explains(h, db.rows, key, Stored(db, key)) && Lawful(h, Stored(db, key))
  {
    HandledIsAbout(segs, polls, done, stopped, maxRetries);
    hide Handled, Explains, Lawful, Visits, Visited, StoresAfter, VisitsIn, IsOneCallerRun, IsRun, Exec, WrittenRows,
        Concat;
    ConcatKeyed(keyOf, segs, Fetched(polls, done, stopped));
    LoopVisits(env, keyOf, Concat(segs));
    steps := AttemptsFoldWhatTheyWrote(VisitsIn(env, Concat(segs)), key);
  }

  // ---- Exactly once, for every key nothing of which was given up ----

  /** The stores between records: nothing of the key is pending. */
  ghost predicate Clear(sys: Sys, keyOf: EventId -> Key, key: Key, pending: set<EventId>) {
    Inv(sys, key) && Idle(sys) && RowsKeyed(keyOf, sys.db.rows) && AckedBut(sys, key, pending)
  }

  /** What may be pending on the key while the record is being handled. */
  function PendingFor(rec: Record, key: Key): set<EventId> {
    if rec.txn.Some? && rec.txn.value.key == key then {rec.txn.value.event} else {}
  }

  lemma EffectKeeps(env: Env, keyOf: EventId -> Key, log: Log, e: Effect, key: Key)
    requires Clear(StoresAfter(env, log), keyOf, key, PendingFor(e.rec, key)) && Keyed(keyOf, e.rec)
    ensures Clear(StoresAfter(env, log + [e]), keyOf, key, PendingFor(e.rec, key))
    ensures e.Attempt? && e.rec.txn.Some? && Succeeds(StoresAfter(env, log), e.rec.txn.value, env(log)) ==>
              e.rec.txn.value.event in StoresAfter(env, log + [e]).acked
  {
    StoresSnoc(env, log, e);
    var sys, t := StoresAfter(env, log), env(log);
    if e.Attempt? && e.rec.txn.Some? && CanBegin(sys, t) {
      hide Inv, AckedBut, StoresAfter, Tried, CanBegin, SameKeyAgain;
      KeyedAgain(keyOf, sys.db.rows, e.rec);
      TryKeeps(sys, e.rec.txn.value, t, key, PendingFor(e.rec, key));
      TryRows(sys, e.rec.txn.value, t);
    }
  }

  lemma {:induction false} EffectsKeep(env: Env, keyOf: EventId -> Key, log: Log, seg: Log, rec: Record, key: Key)
    requires Clear(StoresAfter(env, log), keyOf, key, PendingFor(rec, key)) && Keyed(keyOf, rec)
    requires forall i | 0 <= i < |seg| :: seg[i].rec == rec
    ensures Clear(StoresAfter(env, log + seg), keyOf, key, PendingFor(rec, key))
    decreases |seg|
  {
    hide Clear, StoresAfter, Succeeds, PendingFor, Keyed;
    if seg == [] {
      assert log + seg == log;
    } else {
      var front, e := seg[..|seg| - 1], seg[|seg| - 1];
      EffectsKeep(env, keyOf, log, front, rec, key);
      assert log + seg == log + front + [e];
      EffectKeeps(env, keyOf, log + front, e, key);
    }
  }

  /** Handling one record leaves the key clear, and its own event acknowledged, unless it gives a record of that key
      up. */
  lemma SegmentKeeps(w: World, env: Env, keyOf: EventId -> Key, log: Log, seg: Log, rec: Record, maxRetries: nat,
      key: Key)
    requires Backs(env, w) && Honest(w, log + seg, maxRetries) && Keyed(keyOf, rec)
    requires if rec.txn.Some? && rec.txn.value.key == key then Reconciled(seg, rec, maxRetries)
             else Done(seg, rec, maxRetries) || DeadLettered(seg, rec, maxRetries, false)
    requires Clear(StoresAfter(env, log), keyOf, key, {})
    ensures var sys := StoresAfter(env, log + seg);
            && Clear(sys, keyOf, key, {})
            && (rec.txn.Some? && rec.txn.value.key == key ==> rec.txn.value.event in sys.acked)
  {
    DoneIsAbout(seg, rec, maxRetries);
    var sys0 := StoresAfter(env, log);
    assert Clear(sys0, keyOf, key, PendingFor(rec, key)) by { assert AckedBut(sys0, key, {}); }
    if rec.txn.Some? && rec.txn.value.key == key {
      var n :| 0 <= n <= maxRetries && seg == Fails(rec, n) + [Attempt(rec, true)];
      var upTo := log + Fails(rec, n);
      assert log + seg == upTo + [Attempt(rec, true)] && (log + seg)[..|upTo|] == upTo;
      AttemptIsTheCall(w, env, log + seg, maxRetries, |upTo|);
      hide Inv, AckedBut, StoresAfter, Succeeds, Backs, Honest;
      EffectsKeep(env, keyOf, log, Fails(rec, n), rec, key);
      EffectKeeps(env, keyOf, upTo, Attempt(rec, true), key);
      NothingPending(StoresAfter(env, log + seg), key, rec.txn.value.event);
    } else {
      EffectsKeep(env, keyOf, log, seg, rec, key);
    }
  }

  /** No decodable record of the key was handed to the dead-letter topic. */
  ghost predicate NothingGivenUp(log: Log, key: Key) {
    forall i | 0 <= i < |log| :: log[i].DeadLetter? && log[i].rec.txn.Some? ==> log[i].rec.txn.value.key != key
  }

  lemma KeyIsReconciled(log: Log, seg: Log, rec: Record, maxRetries: nat, key: Key)
    requires Done(seg, rec, maxRetries) || DeadLettered(seg, rec, maxRetries, false)
    requires NothingGivenUp(log + seg, key) && rec.txn.Some? && rec.txn.value.key == key
    ensures Reconciled(seg, rec, maxRetries)
  {
    hide Reconciled, DeadLettered, NothingGivenUp;
    if DeadLettered(seg, rec, maxRetries, true) { DeadLetterShows(log, seg, rec, maxRetries, true, key); }
    if DeadLettered(seg, rec, maxRetries, false) { DeadLetterShows(log, seg, rec, maxRetries, false, key); }
  }

  lemma DeadLetterShows(log: Log, seg: Log, rec: Record, maxRetries: nat, ok: bool, key: Key)
    requires DeadLettered(seg, rec, maxRetries, ok) && rec.txn.Some? && rec.txn.value.key == key
    ensures !NothingGivenUp(log + seg, key)
  {
    var last := |log + seg| - 1;
    assert (log + seg)[last].DeadLetter? && (log + seg)[last].rec == rec;
  }

  lemma HonestPrefix(w: World, log: Log, seg: Log, maxRetries: nat, key: Key)
    requires Honest(w, log + seg, maxRetries) && NothingGivenUp(log + seg, key)
    ensures Honest(w, log, maxRetries) && NothingGivenUp(log, key)
  {
    hide Answered;
    forall k | 0 <= k < |log| ensures Answered(w, log[..k], log[k], maxRetries) {
      assert (log + seg)[..k] == log[..k] && (log + seg)[k] == log[k];
    }
    forall k | 0 <= k < |log| ensures log[k] == (log + seg)[k] {
    }
  }

  predicate OfKey(rec: Record, key: Key) { rec.txn.Some? && rec.txn.value.key == key }

  lemma {:induction false} RowsGrow(env: Env, log: Log, seg: Log)
    ensures StoresAfter(env, log).db.rows <= StoresAfter(env, log + seg).db.rows
    decreases |seg|
  {
    hide StoresAfter;
    if seg == [] {
      assert log + seg == log;
    } else {
      var front, e := seg[..|seg| - 1], seg[|seg| - 1];
      RowsGrow(env, log, front);
      assert log + seg == log + front + [e];
      StoresSnoc(env, log + front, e);
      var sys, t := StoresAfter(env, log + front), env(log + front);
      hide Tried, CanBegin;
      if e.Attempt? && e.rec.txn.Some? && CanBegin(sys, t) { TryRows(sys, e.rec.txn.value, t); }
    }
  }

  lemma EventStays(rows: seq<Row>, rows': seq<Row>, event: EventId)
    requires rows <= rows' && HasEvent(rows, event)
    ensures HasEvent(rows', event)
  {
    var i :| 0 <= i < |rows| && rows[i].txn.event == event;
    assert rows'[i] == rows[i];
  }

  /** Every record handled so far that belongs to the key is in the ledger. */
  ghost predicate AllStored(rows: seq<Row>, recs: seq<Record>, n: nat, key: Key)
    requires n <= |recs|
  {
    forall i | 0 <= i < n && OfKey(recs[i], key) :: HasEvent(rows, recs[i].txn.value.event)
  }

  ghost predicate EachHandled(segs: seq<Log>, recs: seq<Record>, maxRetries: nat) {
    |segs| <= |recs| &&
    forall i | 0 <= i < |segs| :: Done(segs[i], recs[i], maxRetries) ||
        DeadLettered(segs[i], recs[i], maxRetries, false)
  }

  lemma {:induction false} SegmentsKeep(w: World, env: Env, keyOf: EventId -> Key, segs: seq<Log>, recs: seq<Record>,
      maxRetries: nat, key: Key)
    requires EachHandled(segs, recs, maxRetries) && AllKeyed(keyOf, recs) && Backs(env, w)
    requires Honest(w, Concat(segs), maxRetries) && NothingGivenUp(Concat(segs), key)
    ensures var sys := StoresAfter(env, Concat(segs));
            Clear(sys, keyOf, key, {}) && AllStored(sys.db.rows, recs, |segs|, key)
    decreases |segs|
  {
    hide Done, DeadLettered, Reconciled, Backs, Honest, NothingGivenUp, StoresAfter, AckedBut;
    if segs == [] {
      EmptyClear(env, keyOf, key);
    } else {
      var n := |segs| - 1;
      var log, seg, rec := Concat(segs[..n]), segs[n], recs[n];
      HonestPrefix(w, log, seg, maxRetries, key);
      SegmentsKeep(w, env, keyOf, segs[..n], recs, maxRetries, key);
      assert Keyed(keyOf, rec);
      if OfKey(rec, key) { KeyIsReconciled(log, seg, rec, maxRetries, key); }
      SegmentKeeps(w, env, keyOf, log, seg, rec, maxRetries, key);
      RowsGrow(env, log, seg);
      var sys, sys' := StoresAfter(env, log), StoresAfter(env, log + seg);
      forall i | 0 <= i <= n && OfKey(recs[i], key) ensures HasEvent(sys'.db.rows, recs[i].txn.value.event) {
        if i < n { EventStays(sys.db.rows, sys'.db.rows, recs[i].txn.value.event); }
      }
    }
  }

  lemma EmptyClear(env: Env, keyOf: EventId -> Key, key: Key)
    ensures Clear(StoresAfter(env, Concat([])), keyOf, key, {})
  {
  }

  /** Every row was brought by a record of the log. */
  lemma {:induction false} RowsComeFromLog(env: Env, log: Log, r: Row)
    requires r in StoresAfter(env, log).db.rows
    ensures exists k :: 0 <= k < |log| && log[k].rec.txn == Some(r.txn)
    decreases |log|
  {
    if log != [] {
      var n := |log| - 1;
      var front, e := log[..n], log[n];
      var sys, t := StoresAfter(env, front), env(front);
      if r in sys.db.rows {
        RowsComeFromLog(env, front, r);
        var k :| 0 <= k < |front| && front[k].rec.txn == Some(r.txn);
        assert log[k].rec.txn == Some(r.txn);
      } else {
        hide Tried, CanBegin;
        TryRows(sys, e.rec.txn.value, t);
        assert log[n].rec.txn == Some(r.txn);
      }
    }
  }

  lemma {:induction false} ConcatIsAbout(segs: seq<Log>, recs: seq<Record>, k: nat) returns (i: nat)
    requires |segs| <= |recs| && k < |Concat(segs)|
    requires forall i, k | 0 <= i < |segs| && 0 <= k < |segs[i]| :: segs[i][k].rec == recs[i]
    ensures i < |segs| && Concat(segs)[k].rec == recs[i]
    decreases |segs|
  {
    var n := |segs| - 1;
    if k < |Concat(segs[..n])| { i := ConcatIsAbout(segs[..n], recs, k); } else { i := n; }
  }

  lemma HandledIsEach(segs: seq<Log>, polls: seq<Poll>, done: nat, stopped: bool, maxRetries: nat)
    requires Handled(segs, polls, done, stopped, maxRetries)
    ensures EachHandled(segs, Fetched(polls, done, stopped), maxRetries)
  {
    var recs := Fetched(polls, done, stopped);
    hide Done, DeadLettered, AllRecords, Flatten;
    assert !stopped ==> recs == AllRecords(polls[..done]);
    if stopped {
      forall i | 0 <= i < |segs| - 1 ensures Done(segs[i], recs[i], maxRetries) {
        assert Done(segs[..|segs| - 1][i], recs[..|segs| - 1][i], maxRetries);
      }
    }
  }

  /** The key's rows in the ledger are one per event of its handled records. */
  ghost predicate OneRowPerEvent(rows: seq<Row>, recs: seq<Record>, n: nat, key: Key)
    requires n <= |recs|
  {
    && UniqueRows(rows)
    && (forall i | 0 <= i < n && OfKey(recs[i], key) :: HasEvent(RowsOf(rows, key), recs[i].txn.value.event))
    && (forall r <- RowsOf(rows, key) :: exists i :: 0 <= i < n && recs[i].txn == Some(r.txn))
  }

  /** Exactly once, of the loop itself: after any run of it, under any store faults, redeliveries and failures of other
      keys, a key none of whose records was given up has one row for each event of its handled records, and its state
      is the fold of all those rows in ID order, and lawful. */
  lemma LoopExactlyOnce(w: World, env: Env, keyOf: EventId -> Key, polls: seq<Poll>, segs: seq<Log>, done: nat,
      stopped: bool, maxRetries: nat, key: Key)
    requires Handled(segs, polls, done, stopped, maxRetries) && AllKeyed(keyOf, Fetched(polls, done, stopped))
    requires Honest(w, Concat(segs), maxRetries) && Backs(env, w) && NothingGivenUp(Concat(segs), key)
    ensures |segs| <= |Fetched(polls, done, stopped)|
    ensures var db := StoresAfter(env, Concat(segs)).db;
            && OneRowPerEvent(db.rows, Fetched(polls, done, stopped), |segs|, key)
            && Increasing(RowsOf(db.rows, key)) && FoldRows(RowsOf(db.rows, key)) == Ok(Stored(db, key))
            && Lawful(RowsOf(db.rows, key), Stored(db, key))
  {
    HandledIsEach(segs, polls, done, stopped, maxRetries);
    HandledIsAbout(segs, polls, done, stopped, maxRetries);
    hide Handled, StoresAfter, Concat, Backs, Honest, NothingGivenUp, FoldRows, RowsOf, Lawful, Fetched;
    var recs := Fetched(polls, done, stopped);
    SegmentsKeep(w, env, keyOf, segs, recs, maxRetries, key);
    var sys := StoresAfter(env, Concat(segs));
    assert AllAcked(sys.db, sys.acked, key);
    AllAckedCaughtUp(sys.db, sys.acked, key);
    FoldIsLawful(RowsOf(sys.db.rows, key), Stored(sys.db, key));
    LedgerIsRecords(env, keyOf, segs, recs, key);
  }

  lemma LedgerIsRecords(env: Env, keyOf: EventId -> Key, segs: seq<Log>, recs: seq<Record>, key: Key)
    requires |segs| <= |recs| && AllKeyed(keyOf, recs)
    requires forall i, k | 0 <= i < |segs| && 0 <= k < |segs[i]| :: segs[i][k].rec == recs[i]
    requires var rows := StoresAfter(env, Concat(segs)).db.rows;
             UniqueRows(rows) && RowsKeyed(keyOf, rows) && AllStored(rows, recs, |segs|, key)
    ensures OneRowPerEvent(StoresAfter(env, Concat(segs)).db.rows, recs, |segs|, key)
  {
    hide StoresAfter, Concat, UniqueRows;
    var rows := StoresAfter(env, Concat(segs)).db.rows;
    forall i | 0 <= i < |segs| && OfKey(recs[i], key) ensures HasEvent(RowsOf(rows, key), recs[i].txn.value.event) {
      assert Keyed(keyOf, recs[i]);
      OwnRow(keyOf, rows, recs[i].txn.value.event, key);
    }
    forall r <- RowsOf(rows, key) ensures exists i :: 0 <= i < |segs| && recs[i].txn == Some(r.txn) {
      RowsOfMember(rows, key, r);
      RowsComeFromLog(env, Concat(segs), r);
      var k :| 0 <= k < |Concat(segs)| && Concat(segs)[k].rec.txn == Some(r.txn);
      var i := ConcatIsAbout(segs, recs, k);
      assert recs[i].txn == Some(r.txn);
    }
  }

  lemma OwnRow(keyOf: EventId -> Key, rows: seq<Row>, event: EventId, key: Key)
    requires RowsKeyed(keyOf, rows) && HasEvent(rows, event) && keyOf(event) == key
    ensures HasEvent(RowsOf(rows, key), event)
  {
    var i :| 0 <= i < |rows| && rows[i].txn.event == event;
    RowsOfMember(rows, key, rows[i]);
    var j :| 0 <= j < |RowsOf(rows, key)| && RowsOf(rows, key)[j] == rows[i];
  }
}
