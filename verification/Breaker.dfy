/** The closed / open / half-open circuit breaker, over any interleaving of admissions and outcomes. */
module Breaker {
  import opened GoInts

  datatype Mode = Closed | Open | HalfOpen

  /** A validated configuration: a positive threshold and a positive open timeout. */
  datatype Config = Config(threshold: uint32, openTimeout: int)
  {
    predicate Valid() { threshold > 0 && openTimeout > 0 }
  }

  datatype Machine = Machine(mode: Mode, failures: nat, openedAt: int)

  datatype Verdict = Verdict(allowed: bool, probe: bool)

  function Asked(c: Config, m: Machine, now: int): (Machine, Verdict) {
    match m.mode
    case Closed => (m, Verdict(true, false))
    case HalfOpen => (m, Verdict(false, false))
    case Open =>
      if now - m.openedAt < c.openTimeout then (m, Verdict(false, false))
          else (m.(mode := HalfOpen), Verdict(true, true))
  }

  function Recorded(c: Config, m: Machine, failed: bool, now: int): Machine {
    match m.mode
    case HalfOpen => if failed then Machine(Open, 0, now) else Machine(Closed, 0, m.openedAt)
    case Closed =>
      if !failed then m.(failures := 0)
      else if m.failures + 1 >= c.threshold then Machine(Open, 0, now)
      else m.(failures := m.failures + 1)
    case Open => m
  }

  /** The machine as the object the callers share. */
  class BreakerMachine {
    const config: Config
    var state: Mode
    var consecutiveFailures: nat
    var openedAt: int

    constructor (config: Config)
      requires config.Valid()
      ensures this.config == config && View().mode == Closed && View().failures == 0
    {
      this.config, state, consecutiveFailures, openedAt := config, Closed, 0, 0;
    }

    ghost function View(): Machine
      reads this
    {
      Machine(state, consecutiveFailures, openedAt)
    }

    method Allow(now: int) returns (allowed: bool, probe: bool)
      modifies this
      ensures old(Asked(config, View(), now)) == (View(), Verdict(allowed, probe))
    {
      match state
      case Closed => return true, false;
      case HalfOpen => return false, false;
      case Open =>
        if now - openedAt < config.openTimeout {
          return false, false;
        }
        state := HalfOpen;
        return true, true;
    }

    method Record(failed: bool, now: int)
      modifies this
      ensures View() == old(Recorded(config, View(), failed, now))
    {
      match state
      case HalfOpen =>
        if failed {
          state, openedAt, consecutiveFailures := Open, now, 0;
          return;
        }
        state, consecutiveFailures := Closed, 0;
      case Closed =>
        if failed {
          consecutiveFailures := consecutiveFailures + 1;
          if consecutiveFailures >= config.threshold {
            state, openedAt, consecutiveFailures := Open, now, 0;
          }
          return;
        }
        consecutiveFailures := 0;
      case Open =>
    }
  }

  // ---- Histories ----

  type CallId = nat

  /** A caller asking to go ahead, or an admitted call reporting its outcome. */
  datatype Event = Ask(now: int) | Answer(call: CallId, failed: bool, now: int)

  /** The machine with the calls in flight and the number admitted so far. Calls are named by that number. */
  datatype Sys = Sys(m: Machine, inFlight: set<CallId>, admitted: nat)

  const START := Sys(Machine(Closed, 0, 0), {}, 0)

  function Step(c: Config, s: Sys, e: Event): Sys {
    match e
    case Ask(now) =>
      var (m, v) := Asked(c, s.m, now);
      if v.allowed then Sys(m, s.inFlight + {s.admitted}, s.admitted + 1) else s.(m := m)
    case Answer(call, failed, now) => Sys(Recorded(c, s.m, failed, now), s.inFlight - {call}, s.admitted)
  }

  function Run(c: Config, s: Sys, hist: seq<Event>): Sys {
    if hist == [] then s else Step(c, Run(c, s, hist[..|hist| - 1]), hist[|hist| - 1])
  }

  /** Only calls in flight report. */
  predicate Legal(c: Config, s: Sys, hist: seq<Event>) {
    hist == [] || (var front, e := hist[..|hist| - 1], hist[|hist| - 1];
                   Legal(c, s, front) && (e.Answer? ==> e.call in Run(c, s, front).inFlight))
  }

  // ---- The failure counter ----

  /** Failures reported since the last success. */
  function TrailingFailures(hist: seq<Event>): nat {
    if hist == [] then 0
    else
      var front, e := TrailingFailures(hist[..|hist| - 1]), hist[|hist| - 1];
      if e.Ask? then front else if e.failed then front + 1 else 0
  }

  /** While closed the counter is the trailing run of failures, and it stays below the threshold. */
  lemma {:induction false} CounterIsTrailingRun(c: Config, hist: seq<Event>)
    requires c.Valid()
    ensures var m := Run(c, START, hist).m;
            (m.mode == Closed ==> m.failures == TrailingFailures(hist) < c.threshold) &&
                (m.mode != Closed ==> m.failures == 0)
    decreases |hist|
  {
    if hist != [] { CounterIsTrailingRun(c, hist[..|hist| - 1]); }
  }

  /** A closed machine trips exactly on the failure that brings the trailing run to the threshold. */
  lemma TripsExactlyAtThreshold(c: Config, hist: seq<Event>, e: Event)
    requires c.Valid() && Run(c, START, hist).m.mode == Closed
    ensures var next := Run(c, START, hist + [e]).m;
            && (next.mode == Open <==> TrailingFailures(hist + [e]) == c.threshold && e.Answer?)
            && (next.mode == Open || next.mode == Closed)
            && (next.mode == Open ==> next.openedAt == e.now)
  {
    assert (hist + [e])[..|hist|] == hist;
    CounterIsTrailingRun(c, hist);
  }

  // ---- Open and half-open periods ----

  /** The machine is in `mode` after each of the events i, ..., j-1. */
  predicate Throughout(c: Config, s: Sys, hist: seq<Event>, i: nat, j: nat, mode: Mode)
    requires j <= |hist|
  {
    forall k | i < k <= j :: Run(c, s, hist[..k]).m.mode == mode
  }

  lemma RunPrefix(c: Config, s: Sys, hist: seq<Event>, k: nat)
    requires 0 < k <= |hist|
    ensures Run(c, s, hist[..k]) == Step(c, Run(c, s, hist[..k - 1]), hist[k - 1])
  {
    assert hist[..k][..k - 1] == hist[..k - 1];
  }

  /** An open period admits nobody; it ends, in a probe, exactly with the first call that asks no sooner than the
      timeout after the event that opened it. */
  lemma {:induction false} OpenPeriod(c: Config, s: Sys, hist: seq<Event>, i: nat, j: nat)
    requires i < j <= |hist| && Throughout(c, s, hist, i, j, Open) && Run(c, s, hist[..i]).m.mode != Open
    ensures Run(c, s, hist[..j]).m.openedAt == hist[i].now
    ensures Run(c, s, hist[..j]).admitted == Run(c, s, hist[..i]).admitted
    ensures j < |hist| ==>
              var admits := Run(c, s, hist[..j + 1]).admitted > Run(c, s, hist[..j]).admitted;
              && (admits <==> hist[j].Ask? && hist[j].now - hist[i].now >= c.openTimeout)
              && (admits <==> Run(c, s, hist[..j + 1]).m.mode == HalfOpen)
              && (!admits ==> Run(c, s, hist[..j + 1]).m == Run(c, s, hist[..j]).m)
    decreases j
  {
    RunPrefix(c, s, hist, j);
    if j > i + 1 { OpenPeriod(c, s, hist, i, j - 1); }
    if j < |hist| { RunPrefix(c, s, hist, j + 1); }
  }

  /** A half-open period is entered by one admitted call and admits no other. */
  lemma {:induction false} HalfOpenPeriod(c: Config, s: Sys, hist: seq<Event>, i: nat, j: nat)
    requires i < j <= |hist| && Throughout(c, s, hist, i, j, HalfOpen) && Run(c, s, hist[..i]).m.mode != HalfOpen
    ensures Run(c, s, hist[..j]).admitted == Run(c, s, hist[..i]).admitted + 1
    decreases j
  {
    RunPrefix(c, s, hist, j);
    if j > i + 1 { HalfOpenPeriod(c, s, hist, i, j - 1); }
  }

  /** A closed machine admits everyone; a call is flagged as the probe exactly when it moves open to half-open. */
  lemma AdmissionVerdict(c: Config, m: Machine, now: int)
    ensures var (m', v) := Asked(c, m, now);
            && (v.probe <==> m.mode == Open && m'.mode == HalfOpen)
            && (v.allowed <==> m.mode == Closed || v.probe)
            && (m' == m || v.probe)
  {
  }

  // ---- Who decides a half-open period ----

  predicate InFlightOk(s: Sys) {
    && (forall call <- s.inFlight :: call < s.admitted)
    && (s.m.mode == HalfOpen ==> s.admitted > 0 && s.admitted - 1 in s.inFlight)
  }

  /** While half-open the probe, which is the last admitted call, is still in flight. */
  lemma {:induction false} ProbeInFlight(c: Config, hist: seq<Event>)
    requires Legal(c, START, hist)
    ensures InFlightOk(Run(c, START, hist))
    decreases |hist|
  {
    if hist != [] { ProbeInFlight(c, hist[..|hist| - 1]); }
  }

  /** The event ends the half-open period. */
  predicate Decides(c: Config, s: Sys, e: Event) {
    s.m.mode == HalfOpen && (e.Answer? ==> e.call in s.inFlight) && Step(c, s, e).m.mode != HalfOpen
  }

  /** Success closes a half-open machine, failure re-opens it from that moment. */
  function Decision(m: Machine, e: Event): Machine
    requires e.Answer?
  {
    if e.failed then Machine(Open, 0, e.now) else Machine(Closed, 0, m.openedAt)
  }

  /** Only the probe can end a half-open period exactly when no call admitted earlier is still in flight;
      with a straggler about, its outcome can end it instead. Whoever ends it, their outcome decides how. */
  lemma ProbeAloneDecidesIff(c: Config, hist: seq<Event>)
    requires Legal(c, START, hist) && Run(c, START, hist).m.mode == HalfOpen
    ensures var s := Run(c, START, hist);
            (forall e: Event :: Decides(c, s, e) ==> e.Answer? && e.call == s.admitted - 1) <==>
                s.inFlight == {s.admitted - 1}
    ensures forall e: Event :: var s := Run(c, START, hist);
              Decides(c, s, e) ==> e.Answer? && Step(c, s, e).m == Decision(s.m, e)
  {
    ProbeInFlight(c, hist);
    var s := Run(c, START, hist);
    if s.inFlight != {s.admitted - 1} {
      var straggler :| straggler in s.inFlight && straggler != s.admitted - 1;
      assert Decides(c, s, Answer(straggler, false, 0));
    }
  }

  /** With no straggler the period lasts through every rejected call until the probe reports. */
  lemma {:induction false} UndecidedUntilAnswer(c: Config, s: Sys, hist: seq<Event>)
    requires s.m.mode == HalfOpen && forall e <- hist :: e.Ask?
    ensures Run(c, s, hist) == s
    decreases |hist|
  {
    if hist != [] {
      assert hist[|hist| - 1] in hist;
      UndecidedUntilAnswer(c, s, hist[..|hist| - 1]);
    }
  }

  // ---- Load bound ----

  predicate Monotone(from: int, hist: seq<Event>) {
    (forall i | 0 <= i < |hist| :: from <= hist[i].now) &&
    forall i, j | 0 <= i < j < |hist| :: hist[i].now <= hist[j].now
  }

  predicate OnlyFailures(hist: seq<Event>) {
    forall i | 0 <= i < |hist| :: hist[i].Answer? ==> hist[i].failed
  }

  function Times(n: nat, d: int): int { n * d }

  lemma TimesStep(n: nat, d: int)
    ensures Times(n + 1, d) == Times(n, d) + d && Times(0, d) == 0
  {
  }

  /** The last instant of the history. */
  function Last(from: int, hist: seq<Event>): int {
    if hist == [] then from else hist[|hist| - 1].now
  }

  ghost predicate Paced(c: Config, start: int, count: int, m: Machine, now: int) {
    && count >= 0 && m.mode != Closed && m.openedAt <= now
    && start + Times(count, c.openTimeout) <= (if m.mode == Open then m.openedAt else now)
  }

  lemma PacedStep(c: Config, start: int, s0: Sys, s: Sys, now: int, e: Event)
    requires c.Valid() && Paced(c, start, s.admitted - s0.admitted, s.m, now) && now <= e.now &&
             (e.Answer? ==> e.failed)
    ensures Paced(c, start, Step(c, s, e).admitted - s0.admitted, Step(c, s, e).m, e.now)
  {
    TimesStep(s.admitted - s0.admitted, c.openTimeout);
    hide Times;
  }

  lemma {:induction false} StaysPaced(c: Config, s: Sys, hist: seq<Event>)
    requires c.Valid() && s.m.mode == Open && Monotone(s.m.openedAt, hist) && OnlyFailures(hist)
    ensures Paced(c, s.m.openedAt, Run(c, s, hist).admitted - s.admitted, Run(c, s, hist).m, Last(s.m.openedAt, hist))
    decreases |hist|
  {
    TimesStep(0, c.openTimeout);
    hide Times;
    if hist != [] {
      var front := hist[..|hist| - 1];
      StaysPaced(c, s, front);
      PacedStep(c, s.m.openedAt, s, Run(c, s, front), Last(s.m.openedAt, front), hist[|hist| - 1]);
    }
  }

  /** Load bound: under a monotone clock, while every reported outcome is a failure, at most floor(T/timeout)
      calls reach the dependency in the time T after a trip. */
  lemma LoadBound(c: Config, s: Sys, hist: seq<Event>)
    requires c.Valid() && s.m.mode == Open && Monotone(s.m.openedAt, hist) && OnlyFailures(hist)
    ensures var elapsed := Last(s.m.openedAt, hist) - s.m.openedAt;
            0 <= elapsed && Run(c, s, hist).admitted - s.admitted <= elapsed / c.openTimeout
  {
    StaysPaced(c, s, hist);
    var n := Run(c, s, hist).admitted - s.admitted;
    var elapsed := Last(s.m.openedAt, hist) - s.m.openedAt;
    FloorBound(n, elapsed, c.openTimeout);
  }

  lemma FloorIs(t: nat, d: nat)
    requires d > 0
    ensures t / d >= 0 && t < Times(t / d, d) + d
  {
    DivNat(t, d);
  }

  lemma TimesMonotone(j: nat, k: nat, d: nat)
    requires j <= k
    ensures Times(j, d) <= Times(k, d)
  {
  }

  lemma FloorBound(n: nat, t: int, d: int)
    requires d > 0 && Times(n, d) <= t && 0 <= t
    ensures n <= t / d
  {
    var q := t / d;
    FloorIs(t, d);
    TimesStep(q, d);
    if n > q { TimesMonotone(q + 1, n, d); }
    hide Times;
  }

  // ---- Repository breakers ----

  datatype Sentinel = NotFound | DuplicateEvent | StaleState

  /** What a repository call returns: nil, or an error wrapping some sentinels. */
  datatype Err = Nil | Failure(wraps: set<Sentinel>)

  datatype Operation = Insert | GetByEventID | ListByTenant | Upsert | Get

  /** The expected outcomes each wrapper does not hold against the store. */
  function Ignored(op: Operation): seq<Sentinel> {
    match op
    case Insert => [DuplicateEvent]
    case GetByEventID => [NotFound]
    case ListByTenant => []
    case Upsert => [StaleState]
    case Get => [NotFound]
  }

  /** The business outcomes: a duplicate event for Insert, a missing row for the two lookups, a stale state for Upsert,
      and none for ListByTenant. */
  predicate Expected(op: Operation, err: Err) {
    err.Failure? &&
    ( || (op == Insert && DuplicateEvent in err.wraps)
      || ((op == GetByEventID || op == Get) && NotFound in err.wraps)
      || (op == Upsert && StaleState in err.wraps))
  }

  predicate Matches(err: Err, sentinels: seq<Sentinel>) {
    err.Failure? && exists i | 0 <= i < |sentinels| :: sentinels[i] in err.wraps
  }

  method IgnoredForBreaker(err: Err, sentinels: seq<Sentinel>) returns (r: bool)
    ensures r == Matches(err, sentinels)
  {
    var i := 0;
    while i < |sentinels|
      invariant 0 <= i <= |sentinels|
      invariant forall k | 0 <= k < i :: !(err.Failure? && sentinels[k] in err.wraps)
    {
      if err.Failure? && sentinels[i] in err.wraps {
        return true;
      }
      i := i + 1;
    }
    return false;
  }

  /** Exactly the errors that are not expected of the operation count against the store. */
  predicate CountsAsFailure(op: Operation, err: Err) {
    err.Failure? && !Expected(op, err)
  }

  lemma IgnoredIsExpected(op: Operation, err: Err)
    ensures Matches(err, Ignored(op)) <==> Expected(op, err)
  {
    if Expected(op, err) { assert Ignored(op)[0] in err.wraps; }
  }

  datatype Outcome = FailedFast | Forwarded(err: Err)

  /** A wrapped repository method: ask, forward, report. `result` is what the repository would return. */
  method Guarded(machine: BreakerMachine, op: Operation, result: Err, asked: int, answered: int) returns (r: Outcome)
    modifies machine
    ensures var (m, v) := old(Asked(machine.config, machine.View(), asked));
            && r == (if v.allowed then Forwarded(result) else FailedFast)
            && machine.View() == if v.allowed then Recorded(machine.config, m, CountsAsFailure(op, result), answered)
                else m
  {
    var allowed, probe := machine.Allow(asked);
    if !allowed {
      return FailedFast;
    }
    var ignored := IgnoredForBreaker(result, Ignored(op));
    IgnoredIsExpected(op, result);
    if ignored {
      machine.Record(false, answered);
    } else {
      machine.Record(result.Failure?, answered);
    }
    return Forwarded(result);
  }

  /** Each outcome in the history was reported for some operation and result. */
  predicate Reports(hist: seq<Event>, results: seq<(Operation, Err)>) {
    |results| == |hist| && forall i | 0 <= i < |hist| &&
        hist[i].Answer? :: hist[i].failed == CountsAsFailure(results[i].0, results[i].1)
  }

  /** A repository that returns only nil or the expected business errors never trips its breaker, and every
      call is admitted. */
  lemma {:induction false} BusinessErrorsNeverTrip(c: Config, hist: seq<Event>, results: seq<(Operation, Err)>)
    requires c.Valid() && Reports(hist, results)
    requires forall i | 0 <= i < |results| :: results[i].1.Nil? || Expected(results[i].0, results[i].1)
    ensures Run(c, START, hist).m == START.m
    ensures Run(c, START, hist).admitted == Asks(hist)
    decreases |hist|
  {
    if hist != [] {
      var n := |hist| - 1;
      BusinessErrorsNeverTrip(c, hist[..n], results[..n]);
      assert hist[n].Answer? ==> !hist[n].failed;
    }
  }

  function Asks(hist: seq<Event>): nat {
    if hist == [] then 0 else Asks(hist[..|hist| - 1]) + if hist[|hist| - 1].Ask? then 1 else 0
  }
}
