/** The consumer's poll loop: every record of a poll is reconciled or dead-lettered, once and in order, before
    the next poll. The broker, the reconciler and the context answer as functions of all effects so far. */
module Consumer {
  import opened GoInts
  import opened Ledger

  /** A fetched record; `txn` is None when its payload does not decode. */
  datatype Record = Record(partition: int32, offset: int64, txn: Option<Transaction>)

  /** One call to the outside: a reconcile attempt, or a dead-letter publish with its attempt count. */
  datatype Effect = Attempt(rec: Record, ok: bool) | DeadLetter(rec: Record, attempts: nat, ok: bool)

  type Log = seq<Effect>

  datatype World = World(reconciles: (Log, Record) -> bool, publishes: (Log, Record) -> bool, cancelled: Log -> bool)

  datatype Poll = Poll(fetchFailed: bool, batches: seq<seq<Record>>)

  /** The last effect, if any, went well. */
  predicate LastWentWell(log: Log) { log == [] || log[|log| - 1].ok }

  /** The effect is what the outside answered at that point; an attempt after a failure is a retry of the same record
      and not made once cancelled; and a record is given up early only on cancellation. */
  predicate Answered(w: World, log: Log, e: Effect, maxRetries: nat) {
    match e
    case Attempt(rec, ok) =>
      && rec.txn.Some? && ok == w.reconciles(log, rec)
      && (LastWentWell(log) || (log[|log| - 1] == Attempt(rec, false) && !w.cancelled(log)))
    case DeadLetter(rec, attempts, ok) =>
      ok == w.publishes(log, rec) && (rec.txn.None? || attempts == maxRetries + 1 || w.cancelled(log))
  }

  predicate Honest(w: World, log: Log, maxRetries: nat) {
    forall k | 0 <= k < |log| :: Answered(w, log[..k], log[k], maxRetries)
  }

  lemma HonestSnoc(w: World, log: Log, e: Effect, maxRetries: nat)
    requires Honest(w, log, maxRetries) && Answered(w, log, e, maxRetries)
    ensures Honest(w, log + [e], maxRetries)
  {
    hide Answered;
    var log' := log + [e];
    forall k | 0 <= k < |log'| ensures Answered(w, log'[..k], log'[k], maxRetries) {
      assert log'[..k] == log[..k];
    }
    assert log[..|log|] == log;
  }

  function Fails(rec: Record, n: nat): Log {
    seq(n, _ => Attempt(rec, false))
  }

  /** Success on one of the first maxRetries+1 attempts. */
  ghost predicate Reconciled(seg: Log, rec: Record, maxRetries: nat) {
    rec.txn.Some? && exists n: nat :: n <= maxRetries && seg == Fails(rec, n) + [Attempt(rec, true)]
  }

  /** Handed to the dead-letter topic once, after the failed attempts it reports. */
  ghost predicate DeadLettered(seg: Log, rec: Record, maxRetries: nat, ok: bool) {
    if rec.txn.None? then seg == [DeadLetter(rec, 1, ok)]
    else exists n: nat :: 1 <= n <= maxRetries + 1 && seg == Fails(rec, n) + [DeadLetter(rec, n, ok)]
  }

  ghost predicate Done(seg: Log, rec: Record, maxRetries: nat) {
    Reconciled(seg, rec, maxRetries) || DeadLettered(seg, rec, maxRetries, true)
  }

  method ReconcileWithRetry(w: World, log: Log, rec: Record, maxRetries: nat)
      returns (attempts: nat, ok: bool, log': Log)
    requires rec.txn.Some? && Honest(w, log, maxRetries) && LastWentWell(log)
    ensures Honest(w, log', maxRetries)
    ensures 1 <= attempts <= maxRetries + 1
    ensures log' == log + if ok then Fails(rec, attempts - 1) + [Attempt(rec, true)] else Fails(rec, attempts)
    ensures !ok && attempts < maxRetries + 1 ==> w.cancelled(log')
  {
    log' := log;
    var attempt := 1;
    while attempt <= maxRetries + 1
      invariant 1 <= attempt <= maxRetries + 2
      invariant log' == log + Fails(rec, attempt - 1) && Honest(w, log', maxRetries)
      invariant attempt > 1 ==> !w.cancelled(log')
    {
      hide Honest;
      ok := w.reconciles(log', rec);
      HonestSnoc(w, log', Attempt(rec, ok), maxRetries);
      log' := log' + [Attempt(rec, ok)];
      if ok {
        return attempt, true, log';
      }
      assert log' == log + Fails(rec, attempt);
      if w.cancelled(log') {
        return attempt, false, log';
      }
      attempt := attempt + 1;
    }
    return maxRetries + 1, false, log';
  }

  /** The per-record callback. */
  method HandleRecord(w: World, log: Log, rec: Record, maxRetries: nat)
      returns (dlqFailed: bool, log': Log, ghost seg: Log)
    requires Honest(w, log, maxRetries) && LastWentWell(log)
    ensures log' == log + seg && Honest(w, log', maxRetries) && (!dlqFailed ==> LastWentWell(log'))
    ensures if dlqFailed then DeadLettered(seg, rec, maxRetries, false) else Done(seg, rec, maxRetries)
  {
    hide Honest;
    if rec.txn.None? {
      var published := w.publishes(log, rec);
      HonestSnoc(w, log, DeadLetter(rec, 1, published), maxRetries);
      seg := [DeadLetter(rec, 1, published)];
      return !published, log + [DeadLetter(rec, 1, published)], seg;
    }
    var attempts, ok, after := ReconcileWithRetry(w, log, rec, maxRetries);
    if ok {
      seg := Fails(rec, attempts - 1) + [Attempt(rec, true)];
      return false, after, seg;
    }
    var published := w.publishes(after, rec);
    HonestSnoc(w, after, DeadLetter(rec, attempts, published), maxRetries);
    seg := Fails(rec, attempts) + [DeadLetter(rec, attempts, published)];
    assert after + [DeadLetter(rec, attempts, published)] == log + seg;
    return !published, after + [DeadLetter(rec, attempts, published)], seg;
  }

  function Concat(segs: seq<Log>): Log {
    if segs == [] then [] else Concat(segs[..|segs| - 1]) + segs[|segs| - 1]
  }

  function Flatten(batches: seq<seq<Record>>): seq<Record> {
    if batches == [] then [] else Flatten(batches[..|batches| - 1]) + batches[|batches| - 1]
  }

  /** The effects of handling exactly `recs`, one segment each, in order. */
  ghost predicate AllDone(segs: seq<Log>, recs: seq<Record>, maxRetries: nat) {
    |segs| == |recs| && forall i | 0 <= i < |segs| :: Done(segs[i], recs[i], maxRetries)
  }

  /** Handling stopped at the record after `done`, whose dead-letter publish failed. */
  ghost predicate StoppedAt(segs: seq<Log>, recs: seq<Record>, maxRetries: nat) {
    && 1 <= |segs| <= |recs|
    && AllDone(segs[..|segs| - 1], recs[..|segs| - 1], maxRetries)
    && DeadLettered(segs[|segs| - 1], recs[|segs| - 1], maxRetries, false)
  }

  lemma ConcatSnoc(segs: seq<Log>, seg: Log)
    ensures Concat(segs + [seg]) == Concat(segs) + seg
  {
    assert (segs + [seg])[..|segs|] == segs;
  }

  lemma {:induction false} ConcatAppend(a: seq<Log>, b: seq<Log>)
    ensures Concat(a + b) == Concat(a) + Concat(b)
    decreases |b|
  {
    if b == [] {
      assert a + b == a;
    } else {
      var front, last := b[..|b| - 1], b[|b| - 1];
      assert (a + b)[..|a + b| - 1] == a + front && (a + b)[|a + b| - 1] == last;
      ConcatAppend(a, front);
      assert Concat(a) + Concat(front) + last == Concat(a) + (Concat(front) + last);
    }
  }

  lemma StoppedAfter(a: seq<Log>, recs: seq<Record>, b: seq<Log>, more: seq<Record>, rest: seq<Record>, maxRetries: nat)
    requires AllDone(a, recs, maxRetries) && StoppedAt(b, more, maxRetries)
    ensures StoppedAt(a + b, recs + more + rest, maxRetries)
  {
    var n := |a + b| - 1;
    assert (a + b)[..n] == a + b[..|b| - 1];
    assert (recs + more + rest)[..n] == recs + more[..|b| - 1];
  }

  lemma AllDoneAppend(a: seq<Log>, recs: seq<Record>, b: seq<Log>, more: seq<Record>, maxRetries: nat)
    requires AllDone(a, recs, maxRetries) && AllDone(b, more, maxRetries)
    ensures AllDone(a + b, recs + more, maxRetries)
  {
    hide Done;
  }

  lemma NothingDone(maxRetries: nat)
    ensures AllDone([], Flatten([]), maxRetries) && Concat([]) == []
  {
  }

  lemma OneMore(segs: seq<Log>, batch: seq<Record>, i: nat, seg: Log, maxRetries: nat)
    requires i < |batch| && AllDone(segs, batch[..i], maxRetries) && Done(seg, batch[i], maxRetries)
    ensures AllDone(segs + [seg], batch[..i + 1], maxRetries)
  {
    hide Done;
  }

  lemma StopsHere(segs: seq<Log>, batch: seq<Record>, i: nat, seg: Log, maxRetries: nat)
    requires i < |batch| && AllDone(segs, batch[..i], maxRetries) && DeadLettered(seg, batch[i], maxRetries, false)
    ensures StoppedAt(segs + [seg], batch, maxRetries)
  {
    hide Done, DeadLettered;
    assert (segs + [seg])[..i] == segs;
  }

  /** One fetched partition: the callback runs on each record until a dead-letter publish fails. */
  method HandleBatch(w: World, log: Log, batch: seq<Record>, maxRetries: nat)
      returns (dlqFailed: bool, log': Log, ghost segs: seq<Log>)
    requires Honest(w, log, maxRetries) && LastWentWell(log)
    ensures log' == log + Concat(segs) && Honest(w, log', maxRetries) && (!dlqFailed ==> LastWentWell(log'))
    ensures if dlqFailed then StoppedAt(segs, batch, maxRetries) else AllDone(segs, batch, maxRetries)
  {
    hide Done, DeadLettered, Concat, AllDone, StoppedAt, Honest;
    NothingDone(maxRetries);
    log', dlqFailed, segs := log, false, [];
    var i := 0;
    assert batch[..0] == Flatten([]);
    while i < |batch|
      invariant 0 <= i <= |batch| && log' == log + Concat(segs) && Honest(w, log', maxRetries)
      invariant !dlqFailed ==> LastWentWell(log')
      invariant if dlqFailed then StoppedAt(segs, batch, maxRetries) else AllDone(segs, batch[..i], maxRetries)
    {
      if !dlqFailed {
        ghost var seg;
        dlqFailed, log', seg := HandleRecord(w, log', batch[i], maxRetries);
        ConcatSnoc(segs, seg);
        if dlqFailed {
          StopsHere(segs, batch, i, seg, maxRetries);
        } else {
          OneMore(segs, batch, i, seg, maxRetries);
        }
        segs := segs + [seg];
      }
      i := i + 1;
    }
    assert batch[..i] == batch;
  }

  /** One poll's records, partition by partition. */
  method HandlePoll(w: World, log: Log, batches: seq<seq<Record>>, maxRetries: nat)
      returns (dlqFailed: bool, log': Log, ghost segs: seq<Log>)
    requires Honest(w, log, maxRetries) && LastWentWell(log)
    ensures log' == log + Concat(segs) && Honest(w, log', maxRetries) && (!dlqFailed ==> LastWentWell(log'))
    ensures if dlqFailed then StoppedAt(segs, Flatten(batches), maxRetries)
            else AllDone(segs, Flatten(batches), maxRetries)
  {
    hide AllDone, StoppedAt, Concat, Flatten, Honest;
    NothingDone(maxRetries);
    log', dlqFailed, segs := log, false, [];
    var b := 0;
    assert batches[..0] == [];
    while b < |batches|
      invariant 0 <= b <= |batches| && log' == log + Concat(segs) && Honest(w, log', maxRetries)
      invariant !dlqFailed ==> LastWentWell(log')
      invariant if dlqFailed then StoppedAt(segs, Flatten(batches), maxRetries)
                else AllDone(segs, Flatten(batches[..b]), maxRetries)
    {
      ghost var rest := FlattenSplit(batches, b + 1);
      FlattenNext(batches, b);
      if !dlqFailed {
        ghost var more;
        dlqFailed, log', more := HandleBatch(w, log', batches[b], maxRetries);
        ConcatAppend(segs, more);
        if dlqFailed {
          StoppedAfter(segs, Flatten(batches[..b]), more, batches[b], rest, maxRetries);
        } else {
          AllDoneAppend(segs, Flatten(batches[..b]), more, batches[b], maxRetries);
        }
        segs := segs + more;
      }
      b := b + 1;
    }
    assert batches[..b] == batches;
  }

  lemma FlattenNext(batches: seq<seq<Record>>, b: nat)
    requires b < |batches|
    ensures Flatten(batches[..b + 1]) == Flatten(batches[..b]) + batches[b]
  {
    assert batches[..b + 1][..b] == batches[..b];
  }

  lemma {:induction false} FlattenSplit(batches: seq<seq<Record>>, b: nat) returns (rest: seq<Record>)
    requires b <= |batches|
    ensures Flatten(batches) == Flatten(batches[..b]) + rest
    decreases |batches| - b
  {
    if b == |batches| {
      assert batches[..b] == batches;
      rest := [];
    } else {
      rest := FlattenSplit(batches, b + 1);
      FlattenNext(batches, b);
      rest := batches[b] + rest;
    }
  }

  // ---- Conservation ----

  /** The effect settles its record for good. */
  predicate Final(e: Effect) { e.ok }

  /** The records settled by the effects, in order. */
  function Settled(log: Log): seq<Record> {
    if log == [] then []
    else Settled(log[..|log| - 1]) + if Final(log[|log| - 1]) then [log[|log| - 1].rec] else []
  }

  lemma {:induction false} SettledAppend(a: Log, b: Log)
    ensures Settled(a + b) == Settled(a) + Settled(b)
    decreases |b|
  {
    if b == [] {
      assert a + b == a;
    } else {
      assert (a + b)[..|a + b| - 1] == a + b[..|b| - 1];
      SettledAppend(a, b[..|b| - 1]);
    }
  }

  lemma {:induction false} FailsSettleNothing(rec: Record, n: nat)
    ensures Settled(Fails(rec, n)) == []
  {
    if n > 0 {
      assert Fails(rec, n)[..n - 1] == Fails(rec, n - 1);
      FailsSettleNothing(rec, n - 1);
    }
  }

  lemma LastSettles(rec: Record, n: nat, e: Effect)
    requires e.rec == rec
    ensures Settled(Fails(rec, n) + [e]) == if e.ok then [rec] else []
  {
    FailsSettleNothing(rec, n);
    assert (Fails(rec, n) + [e])[..n] == Fails(rec, n);
  }

  /** A handled record is settled by exactly one effect; a failed publish settles nothing. */
  lemma DoneSettlesOnce(seg: Log, rec: Record, maxRetries: nat)
    ensures Done(seg, rec, maxRetries) ==> Settled(seg) == [rec]
    ensures DeadLettered(seg, rec, maxRetries, false) ==> Settled(seg) == []
  {
    assert forall e: Effect :: Fails(rec, 0) + [e] == [e];
    if Reconciled(seg, rec, maxRetries) {
      var n: nat :| n <= maxRetries && seg == Fails(rec, n) + [Attempt(rec, true)];
      LastSettles(rec, n, Attempt(rec, true));
    }
    forall ok | DeadLettered(seg, rec, maxRetries, ok) ensures Settled(seg) == if ok then [rec] else [] {
      if rec.txn.None? {
        LastSettles(rec, 0, DeadLetter(rec, 1, ok));
      } else {
        var n: nat :| 1 <= n <= maxRetries + 1 && seg == Fails(rec, n) + [DeadLetter(rec, n, ok)];
        LastSettles(rec, n, DeadLetter(rec, n, ok));
      }
    }
  }

  lemma {:induction false} AllDoneSettles(segs: seq<Log>, recs: seq<Record>, maxRetries: nat)
    requires AllDone(segs, recs, maxRetries)
    ensures Settled(Concat(segs)) == recs
    decreases |segs|
  {
    hide Done;
    if segs != [] {
      var n := |segs| - 1;
      AllDoneSettles(segs[..n], recs[..n], maxRetries);
      DoneSettlesOnce(segs[n], recs[n], maxRetries);
      SettledAppend(Concat(segs[..n]), segs[n]);
      assert recs == recs[..n] + [recs[n]];
    }
  }

  /** Stopping on a failed publish has settled exactly the records before it, and nothing follows it. */
  lemma StoppedSettles(segs: seq<Log>, recs: seq<Record>, maxRetries: nat)
    requires StoppedAt(segs, recs, maxRetries)
    ensures Settled(Concat(segs)) == recs[..|segs| - 1]
    ensures var log := Concat(segs);
            log != [] && log[|log| - 1].DeadLetter? && !log[|log| - 1].ok && log[|log| - 1].rec == recs[|segs| - 1]
  {
    var n := |segs| - 1;
    AllDoneSettles(segs[..n], recs[..n], maxRetries);
    DoneSettlesOnce(segs[n], recs[n], maxRetries);
    SettledAppend(Concat(segs[..n]), segs[n]);
  }

  datatype Ending = Shutdown | FetchError | DlqError | MorePolls

  function AllRecords(polls: seq<Poll>): seq<Record> {
    if polls == [] then [] else AllRecords(polls[..|polls| - 1]) + Flatten(polls[|polls| - 1].batches)
  }

  lemma SameLength(segs: seq<Log>, recs: seq<Record>, maxRetries: nat)
    requires AllDone(segs, recs, maxRetries)
    ensures |segs| == |recs|
  {
  }

  lemma AllRecordsNext(polls: seq<Poll>, n: nat)
    requires n < |polls|
    ensures AllRecords(polls[..n + 1]) == AllRecords(polls[..n]) + Flatten(polls[n].batches)
  {
    assert polls[..n + 1][..n] == polls[..n];
  }

  /** No poll was begun once cancelled: each was begun on the effects of all records before it. */
  ghost predicate BegunLive(w: World, polls: seq<Poll>, segs: seq<Log>, begun: nat)
    requires begun <= |polls|
  {
    forall i | 0 <= i < begun ::
      var n := |AllRecords(polls[..i])|; n <= |segs| && !w.cancelled(Concat(segs[..n]))
  }

  lemma BegunSnoc(w: World, polls: seq<Poll>, segs: seq<Log>, more: seq<Log>, begun: nat)
    requires begun < |polls| && BegunLive(w, polls, segs, begun)
    requires |segs| == |AllRecords(polls[..begun])| && !w.cancelled(Concat(segs))
    ensures BegunLive(w, polls, segs + more, begun + 1)
  {
    forall i | 0 <= i < begun + 1
      ensures var n := |AllRecords(polls[..i])|; n <= |segs + more| && !w.cancelled(Concat((segs + more)[..n]))
    {
      var n := |AllRecords(polls[..i])|;
      assert n <= |segs| ==> (segs + more)[..n] == segs[..n];
      assert segs[..|segs|] == segs;
    }
  }

  /** How a run ended, after `done` polls were handled in full: cleanly only when cancelled, on the broker's error,
      or on a dead-letter publish that failed inside the next poll. */
  ghost predicate Ended(w: World, polls: seq<Poll>, ending: Ending, log: Log, done: nat, stopped: bool) {
    && done <= |polls| && (forall i | 0 <= i < done :: !polls[i].fetchFailed)
    && (stopped ==> done < |polls| && !polls[done].fetchFailed)
    && match ending
       case Shutdown => w.cancelled(log) && done < |polls|
       case FetchError => !w.cancelled(log) && !stopped && done < |polls| && polls[done].fetchFailed
       case DlqError => !w.cancelled(log) && stopped
       case MorePolls => done == |polls| && !stopped
  }

  /** The records of the completed polls are all handled, one segment each; when stopped, the next poll's records up
      to the one whose dead-letter publish failed are, too. */
  ghost predicate Handled(segs: seq<Log>, polls: seq<Poll>, done: nat, stopped: bool, maxRetries: nat) {
    && done <= |polls| && (stopped ==> done < |polls|)
    && if stopped then StoppedAt(segs, AllRecords(polls[..done]) + Flatten(polls[done].batches), maxRetries)
       else AllDone(segs, AllRecords(polls[..done]), maxRetries)
  }

  /** The poll loop over what the broker returns poll after poll. The effects are one segment per record, in order:
      every record of the `done` polls reconciled or dead-lettered once, within the attempts allowed, and, when a
      dead-letter publish failed, the next poll's records up to that one, with nothing after it. */
  method Run(w: World, polls: seq<Poll>, maxRetries: nat)
    returns (ending: Ending, log: Log, done: nat, ghost segs: seq<Log>, ghost stopped: bool)
    ensures Ended(w, polls, ending, log, done, stopped) && Honest(w, log, maxRetries) && log == Concat(segs)
    ensures Handled(segs, polls, done, stopped, maxRetries)
    ensures BegunLive(w, polls, segs, if stopped then done + 1 else done)
  {
    assert Honest(w, [], maxRetries);
    log, done, segs, stopped := [], 0, [], false;
    Started(w, polls, maxRetries);
    hide Progress, Handled, BegunLive, Concat, Honest, AllRecords, Flatten, AllDone, StoppedAt;
    while done < |polls|
      invariant 0 <= done <= |polls| && !stopped && (forall i | 0 <= i < done :: !polls[i].fetchFailed)
      invariant Honest(w, log, maxRetries) && LastWentWell(log) && log == Concat(segs)
      invariant Progress(w, polls, segs, done, maxRetries)
    {
      SoFar(w, polls, segs, done, maxRetries);
      var poll := polls[done];
      if poll.fetchFailed {
        return if w.cancelled(log) then Shutdown else FetchError, log, done, segs, false;
      }
      if w.cancelled(log) {
        return Shutdown, log, done, segs, false;
      }
      var dlqFailed, log';
      ghost var more;
      dlqFailed, log', more := HandlePoll(w, log, poll.batches, maxRetries);
      ConcatAppend(segs, more);
      if dlqFailed {
        PollStopped(w, polls, segs, more, done, maxRetries);
        return if w.cancelled(log') then Shutdown else DlqError, log', done, segs + more, true;
      }
      PollDone(w, polls, segs, more, done, maxRetries);
      log, done, segs := log', done + 1, segs + more;
    }
    SoFar(w, polls, segs, done, maxRetries);
    return MorePolls, log, done, segs, false;
  }

  /** After `done` polls, each begun live and handled in full. */
  ghost predicate Progress(w: World, polls: seq<Poll>, segs: seq<Log>, done: nat, maxRetries: nat)
    requires done <= |polls|
  {
    AllDone(segs, AllRecords(polls[..done]), maxRetries) && BegunLive(w, polls, segs, done)
  }

  lemma Started(w: World, polls: seq<Poll>, maxRetries: nat)
    ensures Progress(w, polls, [], 0, maxRetries) && Concat([]) == []
  {
  }

  lemma SoFar(w: World, polls: seq<Poll>, segs: seq<Log>, done: nat, maxRetries: nat)
    requires done <= |polls| && Progress(w, polls, segs, done, maxRetries)
    ensures Handled(segs, polls, done, false, maxRetries) && BegunLive(w, polls, segs, done)
  {
    hide AllDone, BegunLive, AllRecords;
  }

  lemma PollDone(w: World, polls: seq<Poll>, segs: seq<Log>, more: seq<Log>, done: nat, maxRetries: nat)
    requires done < |polls| && Progress(w, polls, segs, done, maxRetries) && !w.cancelled(Concat(segs))
    requires AllDone(more, Flatten(polls[done].batches), maxRetries)
    ensures Progress(w, polls, segs + more, done + 1, maxRetries)
  {
    hide AllDone, BegunLive, AllRecords, Flatten, Concat;
    SameLength(segs, AllRecords(polls[..done]), maxRetries);
    BegunSnoc(w, polls, segs, more, done);
    AllDoneAppend(segs, AllRecords(polls[..done]), more, Flatten(polls[done].batches), maxRetries);
    AllRecordsNext(polls, done);
  }

  lemma PollStopped(w: World, polls: seq<Poll>, segs: seq<Log>, more: seq<Log>, done: nat, maxRetries: nat)
    requires done < |polls| && Progress(w, polls, segs, done, maxRetries) && !w.cancelled(Concat(segs))
    requires StoppedAt(more, Flatten(polls[done].batches), maxRetries)
    ensures Handled(segs + more, polls, done, true, maxRetries) && BegunLive(w, polls, segs + more, done + 1)
  {
    hide AllDone, StoppedAt, BegunLive, AllRecords, Flatten, Concat;
    var before, recs := AllRecords(polls[..done]), Flatten(polls[done].batches);
    SameLength(segs, before, maxRetries);
    BegunSnoc(w, polls, segs, more, done);
    StoppedAfter(segs, before, more, recs, [], maxRetries);
    assert before + recs + [] == before + recs;
  }

  /** Conservation over a whole run: the records settled are exactly those of the completed polls, in order, plus
      those before a failed publish, which is then the last effect. */
  lemma RunSettles(segs: seq<Log>, polls: seq<Poll>, done: nat, stopped: bool, maxRetries: nat)
    requires Handled(segs, polls, done, stopped, maxRetries)
    ensures !stopped ==> Settled(Concat(segs)) == AllRecords(polls[..done])
    ensures stopped ==>
              var recs, log := AllRecords(polls[..done]) + Flatten(polls[done].batches), Concat(segs);
              && 1 <= |segs| <= |recs| && Settled(log) == recs[..|segs| - 1]
              && log != [] && log[|log| - 1].DeadLetter? && !log[|log| - 1].ok && log[|log| - 1].rec == recs[|segs| - 1]
  {
    if stopped { StoppedSettles(segs, AllRecords(polls[..done]) + Flatten(polls[done].batches), maxRetries); }
    else { AllDoneSettles(segs, AllRecords(polls[..done]), maxRetries); }
  }
}
