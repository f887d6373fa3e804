/** Why both halves of the single-caller rule are needed: what two calls of one key do to each other, and what
    moving on from an unacknowledged event does. */
module Overlap {
  import opened GoInts
  import opened Ledger
  import opened Accounting
  import opened ReconcileProtocol
  import opened ExactlyOnce

  lemma RunOfFour(sys: Sys, a: Step, b: Step, c: Step, d: Step, s1: Sys, s2: Sys, s3: Sys, s4: Sys)
    requires Enabled(sys, a) && Do(sys, a) == s1 && Enabled(s1, b) && Do(s1, b) == s2
    requires Enabled(s2, c) && Do(s2, c) == s3 && Enabled(s3, d) && Do(s3, d) == s4
    ensures IsRun(sys, [a, b, c]) && Exec(sys, [a, b, c]) == s3
    ensures IsRun(sys, [a, b, c, d]) && Exec(sys, [a, b, c, d]) == s4
  {
    hide Do, Enabled;
    assert [a, b, c][1..] == [b, c] && [b, c][1..] == [c] && [c][1..] == [];
    assert IsRun(s3, []) && IsRun(s2, [c]) && Exec(s2, [c]) == s3 && IsRun(s1, [b, c]) && Exec(s1, [b, c]) == s3;
    assert [a, b, c, d][1..] == [b, c, d] && [b, c, d][1..] == [c, d] && [c, d][1..] == [d] && [d][1..] == [];
    assert IsRun(s4, []) && Exec(s4, []) == s4;
    assert IsRun(s3, [d]) && Exec(s3, [d]) == s4;
    assert IsRun(s2, [c, d]) && Exec(s2, [c, d]) == s4;
    assert IsRun(s1, [b, c, d]) && Exec(s1, [b, c, d]) == s4;
  }

  lemma {:induction false} RunConcat(sys: Sys, a: seq<Step>, b: seq<Step>)
    requires IsRun(sys, a) && IsRun(Exec(sys, a), b)
    ensures IsRun(sys, a + b) && Exec(sys, a + b) == Exec(Exec(sys, a), b)
    decreases |a|
  {
    hide Do, Enabled;
    if a == [] {
      assert a + b == b;
    } else {
      assert (a + b)[1..] == a[1..] + b;
      RunConcat(Do(sys, a[0]), a[1..], b);
    }
  }

  /** Two callers on one key. Whenever two calls have both stored their rows and neither row is covered,
      reading before either writes loses the earlier trade: both events are acknowledged and the state
      is the old one plus the later row alone. */
  lemma ConcurrentCallersLoseATrade(sys: Sys, p: Pid, q: Pid, r1: Row, r2: Row, u2: State)
    requires p != q && p in sys.calls && q in sys.calls && sys.calls[p] == Reading(r1) && sys.calls[q] == Reading(r2)
    requires r1.txn.key == r2.txn.key && r1.id < r2.id && !Covers(Stored(sys.db, r1.txn.key), r1.id)
    requires ApplyTransaction(Stored(sys.db, r1.txn.key), r1.id, r1.txn).Ok?
    requires ApplyTransaction(Stored(sys.db, r1.txn.key), r2.id, r2.txn) == Ok(u2)
    ensures var steps := [Read(p, true), Read(q, true), WriteRuns(p, true), WriteRuns(q, true)];
            && IsRun(sys, steps)
            && Stored(Exec(sys, steps).db, r1.txn.key) == u2
            && {r1.txn.event, r2.txn.event} <= Exec(sys, steps).acked
  {
    var key, s := r1.txn.key, Stored(sys.db, r1.txn.key);
    var u1 := ApplyTransaction(s, r1.id, r1.txn).state;
    ApplySetsWatermark(s, r1.id, r1.txn);
    ApplySetsWatermark(s, r2.id, r2.txn);
    hide ApplyTransaction;
    var s1 := Move(sys, p, Writing(r1, u1));
    var s2 := Move(s1, q, Writing(r2, u2));
    var s3 := Do(s2, WriteRuns(p, true));
    assert s3.db.states == sys.db.states[key := u1];
    var s4 := Do(s3, WriteRuns(q, true));
    assert s4.db.states == s3.db.states[key := u2];
    RunOfFour(sys, Read(p, true), Read(q, true), WriteRuns(p, true), WriteRuns(q, true), s1, s2, s3, s4);
  }

  /** The other order takes the stale branch: the later row is written first, the earlier call's upsert is refused as
      stale and acknowledged all the same, and its trade is in no state. */
  lemma StaleUpsertLosesATrade(sys: Sys, p: Pid, q: Pid, r1: Row, r2: Row, u1: State, u2: State)
    requires p != q && p in sys.calls && q in sys.calls && sys.calls[p] == Reading(r1) && sys.calls[q] == Reading(r2)
    requires r1.txn.key == r2.txn.key && r1.id < r2.id && !Covers(Stored(sys.db, r1.txn.key), r1.id)
    requires ApplyTransaction(Stored(sys.db, r1.txn.key), r1.id, r1.txn) == Ok(u1)
    requires ApplyTransaction(Stored(sys.db, r1.txn.key), r2.id, r2.txn) == Ok(u2)
    ensures var upTo, steps := [Read(p, true), Read(q, true), WriteRuns(q, true)],
                               [Read(p, true), Read(q, true), WriteRuns(q, true), WriteRuns(p, true)];
            && IsRun(sys, upTo) && p in Exec(sys, upTo).calls && Exec(sys, upTo).calls[p] == Writing(r1, u1)
            && !Advances(Exec(sys, upTo).db, r1.txn.key, u1)
            && IsRun(sys, steps)
            && Stored(Exec(sys, steps).db, r1.txn.key) == u2
            && {r1.txn.event, r2.txn.event} <= Exec(sys, steps).acked
  {
    var key, s := r1.txn.key, Stored(sys.db, r1.txn.key);
    ApplySetsWatermark(s, r1.id, r1.txn);
    ApplySetsWatermark(s, r2.id, r2.txn);
    hide ApplyTransaction;
    var s1 := Move(sys, p, Writing(r1, u1));
    var s2 := Move(s1, q, Writing(r2, u2));
    var s3 := Do(s2, WriteRuns(q, true));
    assert s3.db.states == sys.db.states[key := u2];
    var s4 := Do(s3, WriteRuns(p, true));
    assert s4.db.states == s3.db.states;
    RunOfFour(sys, Read(p, true), Read(q, true), WriteRuns(q, true), WriteRuns(p, true), s1, s2, s3, s4);
  }

  /** Such an overlap is reached from empty stores by any two events of one key. */
  lemma OverlapIsReachable(t1: Transaction, t2: Transaction)
    requires t1.key == t2.key && t1.event != t2.event
    ensures var steps := [Begin(1, t1), InsertCommits(1, 1, true), Begin(2, t2), InsertCommits(2, 2, true)];
            && IsRun(INITIAL, steps)
            && Exec(INITIAL, steps) == Sys(Db([Row(1, t1), Row(2, t2)], map[]),
                map[1 := Reading(Row(1, t1)), 2 := Reading(Row(2, t2))], {})
  {
    var r1, r2, none := Row(1, t1), Row(2, t2), INITIAL.acked;
    RunOfFour(INITIAL, Begin(1, t1), InsertCommits(1, 1, true), Begin(2, t2), InsertCommits(2, 2, true),
              Sys(EMPTY_DB, map[1 := Inserting(t1)], none), Sys(Db([r1], map[]), map[1 := Reading(r1)], none),
              Sys(Db([r1], map[]), map[1 := Reading(r1), 2 := Inserting(t2)], none),
              Sys(Db([r1, r2], map[]), map[1 := Reading(r1), 2 := Reading(r2)], none));
  }

  // ---- Exactly when both trades are kept ----

  /** Two calls p and q of one key for rows r1 and r2, and the states they can compute from s: with r1 alone,
      with r2 alone, and with both. */
  datatype Duel = Duel(p: Pid, q: Pid, r1: Row, r2: Row, s: State, u1: State, u2: State, both: State)
  {
    predicate Valid() {
      && p != q && r1.txn.key == r2.txn.key && r1.id < r2.id && r1.txn.quantity != 0 && !Covers(s, r1.id)
      && ApplyTransaction(s, r1.id, r1.txn) == Ok(u1) && ApplyTransaction(s, r2.id, r2.txn) == Ok(u2)
      && ApplyTransaction(u1, r2.id, r2.txn) == Ok(both)
    }

    predicate Owns(step: Step) {
      step == Read(p, true) || step == Read(q, true) || step == WriteRuns(p, true) || step == WriteRuns(q, true)
    }

    predicate At(sys: Sys, cp: Call, cq: Call, stored: State) {
      && p in sys.calls && sys.calls[p] == cp && q in sys.calls && sys.calls[q] == cq
      && Stored(sys.db, r1.txn.key) == stored
      && (cp == Returned(true) ==> r1.txn.event in sys.acked) && (cq == Returned(true) ==> r2.txn.event in sys.acked)
    }

    /** q has not read and p has not written. */
    predicate Open(sys: Sys) {
      At(sys, Reading(r1), Reading(r2), s) || At(sys, Writing(r1, u1), Reading(r2), s)
    }

    /** p wrote before q read. */
    predicate Kept(sys: Sys) {
      || At(sys, Returned(true), Reading(r2), u1) || At(sys, Returned(true), Writing(r2, both), u1)
      || At(sys, Returned(true), Returned(true), both)
    }

    /** q read before p wrote. */
    predicate Lost(sys: Sys) {
      || At(sys, Reading(r1), Writing(r2, u2), s) || At(sys, Writing(r1, u1), Writing(r2, u2), s)
      || At(sys, Returned(true), Writing(r2, u2), u1) || At(sys, Reading(r1), Returned(true), u2)
      || At(sys, Writing(r1, u1), Returned(true), u2) || At(sys, Returned(true), Returned(true), u2)
    }

    predicate WriteBeforeRead(steps: seq<Step>) {
      exists i, j :: 0 <= i < j < |steps| && steps[i] == WriteRuns(p, true) && steps[j] == Read(q, true)
    }
  }

  lemma DuelWatermarks(d: Duel)
    requires d.Valid()
    ensures d.u1.watermark == Some(d.r1.id) && d.u2.watermark == Some(d.r2.id) && d.both.watermark == Some(d.r2.id)
  {
    ApplySetsWatermark(d.s, d.r1.id, d.r1.txn);
    ApplySetsWatermark(d.s, d.r2.id, d.r2.txn);
    ApplySetsWatermark(d.u1, d.r2.id, d.r2.txn);
    hide ApplyTransaction;
  }

  /** What an answered write of row does: the state moves only if its watermark advances. */
  lemma WriteEffect(sys: Sys, pid: Pid, row: Row, updated: State)
    requires pid in sys.calls && sys.calls[pid] == Writing(row, updated)
    ensures var sys', s := Do(sys, WriteRuns(pid, true)), Stored(sys.db, row.txn.key);
            && sys'.calls == sys.calls[pid := Returned(true)] && sys'.acked == sys.acked + {row.txn.event}
            && Stored(sys'.db, row.txn.key) == if s.watermark.None? ||
                (updated.watermark.Some? && !Covers(s, updated.watermark.value)) then updated else s
  {
  }

  lemma OpenStep(sys: Sys, d: Duel, step: Step)
    requires d.Valid() && d.Open(sys) && Enabled(sys, step) && d.Owns(step)
    ensures match step
            case Read(pid, _) => if pid == d.p then d.Open(Do(sys, step)) else d.Lost(Do(sys, step))
            case _ => step == WriteRuns(d.p, true) && d.Kept(Do(sys, step))
  {
    DuelWatermarks(d);
    hide ApplyTransaction;
  }

  lemma KeptStep(sys: Sys, d: Duel, step: Step)
    requires d.Valid() && d.Kept(sys) && Enabled(sys, step) && d.Owns(step)
    ensures d.Kept(Do(sys, step))
    ensures sys.calls[d.q].Reading? && step != Read(d.q, true) ==> Do(sys, step).calls[d.q].Reading?
  {
    DuelWatermarks(d);
    hide ApplyTransaction;
  }

  lemma LostStep(sys: Sys, d: Duel, step: Step)
    requires d.Valid() && d.Lost(sys) && Enabled(sys, step) && d.Owns(step)
    ensures d.Lost(Do(sys, step)) && step != Read(d.q, true)
  {
    if step == Read(d.p, true) { LostRead(sys, d); }
    else if step == WriteRuns(d.p, true) { LostFirstWrite(sys, d); }
    else if step == WriteRuns(d.q, true) { LostSecondWrite(sys, d); }
    hide ApplyTransaction, Do;
  }

  /** p reads: before q's write it prepares its own, after it it finds its row covered. */
  lemma LostRead(sys: Sys, d: Duel)
    requires d.Valid() && d.Lost(sys) && Enabled(sys, Read(d.p, true))
    ensures d.Lost(Do(sys, Read(d.p, true)))
  {
    DuelWatermarks(d);
    hide ApplyTransaction;
  }

  /** p writes: before q's write it is overwritten later, after it it is stale. */
  lemma LostFirstWrite(sys: Sys, d: Duel)
    requires d.Valid() && d.Lost(sys) && Enabled(sys, WriteRuns(d.p, true))
    ensures d.Lost(Do(sys, WriteRuns(d.p, true)))
  {
    DuelWatermarks(d);
    WriteEffect(sys, d.p, d.r1, d.u1);
    hide ApplyTransaction, Do, Stored;
  }

  lemma LostSecondWrite(sys: Sys, d: Duel)
    requires d.Valid() && d.Lost(sys) && Enabled(sys, WriteRuns(d.q, true))
    ensures d.Lost(Do(sys, WriteRuns(d.q, true)))
  {
    DuelWatermarks(d);
    WriteEffect(sys, d.q, d.r2, d.u2);
    hide ApplyTransaction, Do, Stored;
  }

  lemma {:induction false} KeptRun(sys: Sys, d: Duel, steps: seq<Step>)
    requires d.Valid() && d.Kept(sys) && IsRun(sys, steps) && forall step <- steps :: d.Owns(step)
    ensures d.Kept(Exec(sys, steps))
    ensures sys.calls[d.q].Reading? && Exec(sys, steps).calls[d.q].Returned? ==> Read(d.q, true) in steps
    decreases |steps|
  {
    if steps != [] {
      KeptStep(sys, d, steps[0]);
      hide Duel.Valid, Duel.Owns, Do, Enabled;
      KeptRun(Do(sys, steps[0]), d, steps[1..]);
    }
  }

  lemma {:induction false} LostRun(sys: Sys, d: Duel, steps: seq<Step>)
    requires d.Valid() && d.Lost(sys) && IsRun(sys, steps) && forall step <- steps :: d.Owns(step)
    ensures d.Lost(Exec(sys, steps)) && Read(d.q, true) !in steps
    decreases |steps|
  {
    if steps != [] {
      LostStep(sys, d, steps[0]);
      hide Duel.Valid, Duel.Lost, Do;
      LostRun(Do(sys, steps[0]), d, steps[1..]);
    }
  }

  lemma {:induction false} OpenRun(sys: Sys, d: Duel, steps: seq<Step>)
    requires d.Valid() && d.Open(sys) && IsRun(sys, steps) && forall step <- steps :: d.Owns(step)
    requires var end := Exec(sys, steps); d.q in end.calls && end.calls[d.q].Returned?
    ensures if d.WriteBeforeRead(steps) then d.Kept(Exec(sys, steps)) else d.Lost(Exec(sys, steps))
    decreases |steps|
  {
    if steps != [] {
      OpenStep(sys, d, steps[0]);
      var next, rest := Do(sys, steps[0]), steps[1..];
      if steps[0] == Read(d.p, true) {
        hide Duel.Valid, Duel.Open, Duel.Kept, Duel.Lost, Do;
        OpenRun(next, d, rest);
        Shifted(d, steps);
      } else if steps[0] == Read(d.q, true) {
        hide Duel.Valid, Duel.Open, Duel.Kept, Duel.Lost, Do;
        LostRun(next, d, rest);
      } else {
        assert next.calls[d.q].Reading?;
        hide Duel.Valid, Duel.Open, Duel.Kept, Duel.Lost, Do;
        KeptRun(next, d, rest);
        var j :| 0 <= j < |rest| && rest[j] == Read(d.q, true);
        assert steps[0] == WriteRuns(d.p, true) && steps[j + 1] == Read(d.q, true);
      }
    }
  }

  lemma Shifted(d: Duel, steps: seq<Step>)
    requires steps != [] && steps[0] != WriteRuns(d.p, true)
    ensures d.WriteBeforeRead(steps) <==> d.WriteBeforeRead(steps[1..])
  {
    if d.WriteBeforeRead(steps) {
      var i, j :| 0 <= i < j < |steps| && steps[i] == WriteRuns(d.p, true) && steps[j] == Read(d.q, true);
      assert steps[1..][i - 1] == WriteRuns(d.p, true) && steps[1..][j - 1] == Read(d.q, true);
    }
    if d.WriteBeforeRead(steps[1..]) {
      var i, j :| 0 <= i < j < |steps[1..]| && steps[1..][i] == WriteRuns(d.p, true) &&
          steps[1..][j] == Read(d.q, true);
      assert steps[i + 1] == WriteRuns(d.p, true) && steps[j + 1] == Read(d.q, true);
    }
  }

  /** A trade of non-zero quantity shows in the position. */
  lemma BothDiffers(d: Duel)
    requires d.Valid()
    ensures d.u2 != d.both
  {
    var t1, t2 := SignedTrade(d.r1.txn).value, SignedTrade(d.r2.txn).value;
    TradeMovesPosition(d.s, t1);
    TradeMovesPosition(d.s, t2);
    TradeMovesPosition(d.u1, t2);
    PositionIgnoresWatermark(d, t2);
    hide ApplyTrade;
  }

  lemma PositionIgnoresWatermark(d: Duel, t: Trade)
    requires d.Valid() && SignedTrade(d.r2.txn) == Some(t)
    ensures ApplyTrade(d.u1, t).Ok? && ApplyTrade(d.u1, t).state.position == d.both.position
  {
    hide ApplyTrade;
  }

  /** Over every interleaving of the two calls, each answered and run to its end, both are acknowledged, and both
      trades are in the stored state if and only if the earlier row's call wrote before the later row's call read.
      Otherwise the state holds the later trade alone. */
  lemma BothTradesKeptIff(sys: Sys, d: Duel, steps: seq<Step>)
    requires d.Valid() && d.At(sys, Reading(d.r1), Reading(d.r2), d.s)
    requires IsRun(sys, steps) && forall step <- steps :: d.Owns(step)
    requires var end := Exec(sys, steps);
             d.p in end.calls && d.q in end.calls && end.calls[d.p].Returned? && end.calls[d.q].Returned?
    ensures var end := Exec(sys, steps);
            && (Stored(end.db, d.r1.txn.key) == d.both <==> d.WriteBeforeRead(steps))
            && (Stored(end.db, d.r1.txn.key) == d.u2 <==> !d.WriteBeforeRead(steps))
            && {d.r1.txn.event, d.r2.txn.event} <= end.acked
  {
    hide Duel.Valid, Exec, IsRun, Duel.WriteBeforeRead;
    OpenRun(sys, d, steps);
    BothDiffers(d);
  }

  // ---- Moving on too early ----

  /** Moving on before an event is acknowledged. In any state where an idle caller has left r1 stored but
      uncovered, applying a later event of the key and then delivering r1 again acknowledges r1 with the
      state holding only the later trade. */
  lemma SkippedEventIsLost(sys: Sys, p: Pid, r1: Row, r2: Row, u2: State)
    requires UniqueRows(sys.db.rows) && p in sys.calls && sys.calls[p].Returned? && r1 in sys.db.rows
    requires r1.txn.key == r2.txn.key && r1.id < r2.id && !Covers(Stored(sys.db, r1.txn.key), r1.id)
    requires !HasEvent(sys.db.rows, r2.txn.event) && !HasId(sys.db.rows, r2.id)
    requires ApplyTransaction(Stored(sys.db, r1.txn.key), r2.id, r2.txn) == Ok(u2)
    ensures var apply := [Begin(p, r2.txn), InsertCommits(p, r2.id, true), Read(p, true), WriteRuns(p, true)];
            var again := [Begin(p, r1.txn), InsertDuplicate(p), Lookup(p, true), Read(p, true)];
            && IsRun(sys, apply + again)
            && Stored(Exec(sys, apply + again).db, r1.txn.key) == u2
            && r1.txn.event in Exec(sys, apply + again).acked
  {
    var apply := [Begin(p, r2.txn), InsertCommits(p, r2.id, true), Read(p, true), WriteRuns(p, true)];
    var again := [Begin(p, r1.txn), InsertDuplicate(p), Lookup(p, true), Read(p, true)];
    NextEventApplies(sys, p, r2, u2);
    var mid := Exec(sys, apply);
    ApplySetsWatermark(Stored(sys.db, r1.txn.key), r2.id, r2.txn);
    hide ApplyTransaction, Do, Enabled, IsRun, Exec;
    CoveredRowIsAcked(mid, p, r1);
    RunConcat(sys, apply, again);
  }

  lemma NextEventApplies(sys: Sys, p: Pid, r: Row, u: State)
    requires UniqueRows(sys.db.rows) && p in sys.calls && sys.calls[p].Returned?
    requires !HasEvent(sys.db.rows, r.txn.event) && !HasId(sys.db.rows, r.id)
    requires !Covers(Stored(sys.db, r.txn.key), r.id) &&
             ApplyTransaction(Stored(sys.db, r.txn.key), r.id, r.txn) == Ok(u)
    ensures var apply := [Begin(p, r.txn), InsertCommits(p, r.id, true), Read(p, true), WriteRuns(p, true)];
            && IsRun(sys, apply)
            && var sys' := Exec(sys, apply);
            && sys'.db.rows == sys.db.rows + [r] && UniqueRows(sys'.db.rows) && Stored(sys'.db, r.txn.key) == u
            && p in sys'.calls && sys'.calls[p].Returned?
  {
    ApplySetsWatermark(Stored(sys.db, r.txn.key), r.id, r.txn);
    hide ApplyTransaction;
    var s1 := Move(sys, p, Inserting(r.txn));
    var s2 := Move(sys, p, Reading(r)).(db := sys.db.(rows := sys.db.rows + [r]));
    var s3 := Move(s2, p, Writing(r, u));
    var s4 := Do(s3, WriteRuns(p, true));
    assert s4.db.states == sys.db.states[r.txn.key := u];
    RunOfFour(sys, Begin(p, r.txn), InsertCommits(p, r.id, true), Read(p, true), WriteRuns(p, true), s1, s2, s3, s4);
  }

  lemma CoveredRowIsAcked(sys: Sys, p: Pid, r: Row)
    requires UniqueRows(sys.db.rows) && p in sys.calls && sys.calls[p].Returned? && r in sys.db.rows
    requires Covers(Stored(sys.db, r.txn.key), r.id)
    ensures var again := [Begin(p, r.txn), InsertDuplicate(p), Lookup(p, true), Read(p, true)];
            && IsRun(sys, again) && Exec(sys, again).db == sys.db && r.txn.event in Exec(sys, again).acked
  {
    hide ApplyTransaction;
    assert HasEvent(sys.db.rows, r.txn.event);
    SameEventSameRow(sys.db.rows, r, FindEvent(sys.db.rows, r.txn.event));
    RunOfFour(sys, Begin(p, r.txn), InsertDuplicate(p), Lookup(p, true), Read(p, true),
              Move(sys, p, Inserting(r.txn)), Move(sys, p, Looking(r.txn)), Move(sys, p, Reading(r)),
              Settle(sys, p, r.txn.event, Returned(true)));
  }

  /** Such a state is reached from empty stores by any event whose insert took effect and lost its answer. */
  lemma SkipIsReachable(txn: Transaction)
    ensures var steps := [Begin(0, txn), InsertCommits(0, 1, false)];
            && IsRun(INITIAL, steps)
            && Exec(INITIAL, steps) == Sys(Db([Row(1, txn)], map[]), map[0 := Returned(false)], {})
  {
    var a, b, none := Begin(0, txn), InsertCommits(0, 1, false), INITIAL.acked;
    var s1, s2 := Sys(EMPTY_DB, map[0 := Inserting(txn)], none),
        Sys(Db([Row(1, txn)], map[]), map[0 := Returned(false)], none);
    assert Do(INITIAL, a) == s1 && Enabled(s1, b) && Do(s1, b) == s2;
    hide Do, Enabled;
    assert [b][1..] == [] && IsRun(s2, []) && Exec(s2, []) == s2;
    assert IsRun(s1, [b]) && Exec(s1, [b]) == s2;
    assert [a, b][1..] == [b];
  }
}
