/** The per-key token bucket over reals, and the sharded limiter as many threads use it. */
module RateLimiter {
  import opened GoInts
  import opened Fnv1a

  datatype Limits = Limits(rate: real, burst: real)
  {
    /** A positive rate and a positive whole burst. */
    predicate Valid() { rate > 0.0 && burst >= 1.0 }
  }

  datatype Bucket = Bucket(tokens: real, lastRefill: real)

  function Min(a: real, b: real): real { if a < b then a else b }

  /** Tokens earned between two instants; negative when the clock ran backwards. */
  function Earned(l: Limits, from: real, to: real): real { (to - from) * l.rate }

  function Refill(l: Limits, b: Bucket, now: real): real {
    Min(l.burst, b.tokens + Earned(l, b.lastRefill, now))
  }

  function Used(l: Limits, b: Bucket, now: real): (Bucket, bool) {
    var tokens := Refill(l, b, now);
    if tokens < 1.0 then (Bucket(tokens, now), false) else (Bucket(tokens - 1.0, now), true)
  }

  /** A key's first request finds no bucket: it creates one with its own token already spent. */
  function Created(l: Limits, now: real): Bucket { Bucket(l.burst - 1.0, now) }

  // ---- One key's requests, in lock order ----

  /** The bucket after requests at `times`. */
  function After(l: Limits, times: seq<real>): Bucket
    requires times != []
  {
    var n := |times| - 1;
    if n == 0 then Created(l, times[0]) else Used(l, After(l, times[..n]), times[n]).0
  }

  /** Whether the last request at `times` is allowed. */
  predicate LastAllowed(l: Limits, times: seq<real>)
    requires times != []
  {
    var n := |times| - 1;
    n == 0 || Used(l, After(l, times[..n]), times[n]).1
  }

  /** The requests from index i on that are allowed. */
  function AllowedFrom(l: Limits, times: seq<real>, i: nat): nat {
    if |times| <= i then 0
    else AllowedFrom(l, times[..|times| - 1], i) + if LastAllowed(l, times) then 1 else 0
  }

  /** The tokens at hand when the last request is decided. */
  function AtHand(l: Limits, times: seq<real>): real
    requires times != []
  {
    var n := |times| - 1;
    if n == 0 then l.burst else Refill(l, After(l, times[..n]), times[n])
  }

  lemma Decided(l: Limits, times: seq<real>)
    requires l.Valid() && times != []
    ensures LastAllowed(l, times) <==> AtHand(l, times) >= 1.0
    ensures var spent := if LastAllowed(l, times) then 1.0 else 0.0;
            After(l, times) == Bucket(AtHand(l, times) - spent, times[|times| - 1])
  {
  }

  lemma EarnedIs(l: Limits, a: real, b: real)
    ensures Earned(l, a, b) == l.rate * (b - a)
  {
  }

  lemma EarnedAdds(l: Limits, a: real, b: real, c: real)
    ensures Earned(l, a, b) + Earned(l, b, c) == Earned(l, a, c)
    ensures Earned(l, a, a) == 0.0
  {
  }

  /** What the window that starts with request i leaves for the last request. */
  function Room(l: Limits, times: seq<real>, i: nat): real
    requires i < |times|
  {
    var n := |times| - 1;
    l.burst + Earned(l, times[i], times[n]) - AllowedFrom(l, times[..n], i) as real
  }

  /** The tokens at hand are the least room over all windows ending at the request. */
  lemma {:induction false} AtHandIsLeastRoom(l: Limits, times: seq<real>) returns (w: nat)
    requires l.Valid() && times != []
    ensures forall i | 0 <= i < |times| :: AtHand(l, times) <= Room(l, times, i)
    ensures w < |times| && AtHand(l, times) == Room(l, times, w)
    decreases |times|
  {
    var n := |times| - 1;
    EarnedAdds(l, times[n], times[n], times[n]);
    if n == 0 {
      w := 0;
    } else {
      var front := times[..n];
      var v := AtHandIsLeastRoom(l, front);
      Decided(l, front);
      hide Earned, After, LastAllowed;
      forall i | 0 <= i < n ensures Room(l, times, i) == Room(l, front, i)
          - (if LastAllowed(l, front) then 1.0 else 0.0) + Earned(l, times[n - 1], times[n]) {
        RoomStep(l, times, i);
      }
      w := if AtHand(l, times) == l.burst then n else v;
    }
  }

  lemma RoomStep(l: Limits, times: seq<real>, i: nat)
    requires i < |times| - 1
    ensures var n := |times| - 1; var front := times[..n];
            Room(l, times, i) == Room(l, front, i)
                - (if LastAllowed(l, front) then 1.0 else 0.0) + Earned(l, times[n - 1], times[n])
  {
    var n := |times| - 1;
    EarnedAdds(l, times[i], times[n - 1], times[n]);
    assert times[..n][..n - 1] == times[..n - 1];
    hide Earned, LastAllowed;
  }

  /** Admitting the last request keeps the window from request i within burst + rate * length. */
  predicate Conforming(l: Limits, times: seq<real>, i: nat)
    requires i < |times|
  {
    AllowedFrom(l, times[..|times| - 1], i) as real + 1.0 <= l.burst + l.rate * (times[|times| - 1] - times[i])
  }

  /** A request is allowed exactly when admitting it keeps every window that ends with it within
      burst + rate * length. No monotone clock is needed. */
  lemma AllowedIffConforming(l: Limits, times: seq<real>)
    requires l.Valid() && times != []
    ensures LastAllowed(l, times) <==> forall i | 0 <= i < |times| :: Conforming(l, times, i)
  {
    var w := AtHandIsLeastRoom(l, times);
    Decided(l, times);
    hide After, LastAllowed, AtHand, Room, Conforming;
    forall i | 0 <= i < |times| ensures Conforming(l, times, i) <==> Room(l, times, i) >= 1.0 {
      ConformingIsRoom(l, times, i);
    }
    assert Conforming(l, times, w) <==> AtHand(l, times) >= 1.0;
  }

  lemma ConformingIsRoom(l: Limits, times: seq<real>, i: nat)
    requires i < |times|
    ensures Conforming(l, times, i) <==> Room(l, times, i) >= 1.0
  {
    EarnedIs(l, times[i], times[|times| - 1]);
    hide Earned, AllowedFrom;
  }

  /** Conformance: for any two requests i <= j of a key with j allowed, the allowed ones from i to j number at
      most burst + rate * (t_j - t_i). */
  lemma Conformance(l: Limits, times: seq<real>, i: nat, j: nat)
    requires l.Valid() && i <= j < |times| && LastAllowed(l, times[..j + 1])
    ensures AllowedFrom(l, times[..j + 1], i) as real <= l.burst + l.rate * (times[j] - times[i])
  {
    hide LastAllowed, AllowedFrom, Conforming;
    var upTo := times[..j + 1];
    AllowedIffConforming(l, upTo);
    assert upTo == times[..j] + [times[j]] && upTo[i] == times[i];
    OneMoreAllowed(l, times[..j], times[j], i);
  }

  lemma OneMoreAllowed(l: Limits, front: seq<real>, now: real, i: nat)
    requires i <= |front| && LastAllowed(l, front + [now]) && Conforming(l, front + [now], i)
    ensures AllowedFrom(l, front + [now], i) as real <= l.burst + l.rate * (now - (front + [now])[i])
  {
    hide LastAllowed, AllowedFrom;
    AllowedSnoc(l, front, now, i);
    assert (front + [now])[..|front|] == front;
  }

  predicate Ordered(times: seq<real>) {
    forall i, j | 0 <= i < j < |times| :: times[i] <= times[j]
  }

  lemma {:induction false} NeverInDebt(l: Limits, times: seq<real>)
    requires l.Valid() && times != [] && Ordered(times)
    ensures After(l, times).tokens >= 0.0 && After(l, times).lastRefill == times[|times| - 1]
    decreases |times|
  {
    var n := |times| - 1;
    if n > 0 {
      NeverInDebt(l, times[..n]);
      Forward(l, times[n - 1], times[n]);
      hide Earned;
    }
  }

  lemma Forward(l: Limits, a: real, b: real)
    requires l.Valid() && a <= b
    ensures Earned(l, a, b) >= 0.0
  {
  }

  /** Under a monotone clock a request at least 1/rate after the previous one is always allowed. */
  lemma SpacedIsAllowed(l: Limits, times: seq<real>)
    requires l.Valid() && Ordered(times) && |times| > 1
    requires times[|times| - 1] - times[|times| - 2] >= 1.0 / l.rate
    ensures LastAllowed(l, times)
  {
    var n := |times| - 1;
    NeverInDebt(l, times[..n]);
    OneToken(l, times[n - 1], times[n]);
    hide Earned;
  }

  lemma OneToken(l: Limits, a: real, b: real)
    requires l.Valid() && b - a >= 1.0 / l.rate
    ensures Earned(l, a, b) >= 1.0
  {
    var gap := b - a - 1.0 / l.rate;
    assert (b - a) * l.rate == gap * l.rate + (1.0 / l.rate) * l.rate;
    assert gap * l.rate >= 0.0;
  }

  // ---- The sharded map under concurrency ----

  const SHARDS: nat := 64

  function Shard(key: string): (i: nat)
    ensures i < SHARDS
  {
    Fnv(key) % 64
  }

  type Tid = nat

  /** A thread between its locked sections: it has seen the bucket, or has seen none. */
  datatype Pc = Found(key: string, now: real) | Missing(key: string, now: real)

  datatype Entry = Entry(key: string, now: real, allowed: bool)

  /** The shards, the threads mid-call, and every decision in the order it was taken. */
  datatype Sys = Sys(shards: seq<map<string, Bucket>>, threads: map<Tid, Pc>, log: seq<Entry>)

  datatype Step = LookUp(tid: Tid, key: string, now: real) | UseBucket(tid: Tid) | LockAndCheck(tid: Tid)

  predicate Enabled(s: Sys, step: Step) {
    match step
    case LookUp(tid, _, _) => tid !in s.threads
    case UseBucket(tid) => tid in s.threads && s.threads[tid].Found? && |s.shards| == SHARDS &&
        s.threads[tid].key in s.shards[Shard(s.threads[tid].key)]
    case LockAndCheck(tid) => tid in s.threads && s.threads[tid].Missing?
  }

  function Do(l: Limits, s: Sys, step: Step): Sys
    requires Enabled(s, step) && |s.shards| == SHARDS
  {
    match step
    case LookUp(tid, key, now) =>
      s.(threads := s.threads[tid := if key in s.shards[Shard(key)] then Found(key, now) else Missing(key, now)])
    case UseBucket(tid) =>
      var Found(key, now) := s.threads[tid];
      var shard := s.shards[Shard(key)];
      var (b, allowed) := Used(l, shard[key], now);
      Sys(s.shards[Shard(key) := shard[key := b]], s.threads - {tid}, s.log + [Entry(key, now, allowed)])
    case LockAndCheck(tid) =>
      var Missing(key, now) := s.threads[tid];
      var shard := s.shards[Shard(key)];
      if key in shard then s.(threads := s.threads[tid := Found(key, now)])
      else
        var shards := s.shards[Shard(key) := shard[key := Created(l, now)]];
        Sys(shards, s.threads - {tid}, s.log + [Entry(key, now, true)])
  }

  /** The instants of one key's decisions. */
  function TimesOf(log: seq<Entry>, key: string): seq<real> {
    if log == [] then []
    else
      var front, e := TimesOf(log[..|log| - 1], key), log[|log| - 1];
      if e.key == key then front + [e.now] else front
  }

  lemma TimesSnoc(log: seq<Entry>, e: Entry, key: string)
    ensures TimesOf(log + [e], key) == if e.key == key then TimesOf(log, key) + [e.now] else TimesOf(log, key)
  {
    assert (log + [e])[..|log|] == log;
  }

  /** One map from key to bucket: what the shards hold for a key is what its own decisions left. */
  predicate KeyInv(l: Limits, shards: seq<map<string, Bucket>>, log: seq<Entry>, key: string)
    requires |shards| == SHARDS
  {
    var times := TimesOf(log, key);
    && (key in shards[Shard(key)] <==> times != [])
    && (times != [] ==> shards[Shard(key)][key] == After(l, times))
  }

  /** Each decision is the one a lone bucket would take on that key's requests so far. */
  ghost predicate LogInv(l: Limits, log: seq<Entry>) {
    forall n | 0 <= n < |log| :: EntryOk(l, log, n)
  }

  predicate EntryOk(l: Limits, log: seq<Entry>, n: nat)
    requires n < |log|
  {
    var times := TimesOf(log[..n + 1], log[n].key);
    times != [] && (log[n].allowed <==> LastAllowed(l, times))
  }

  ghost predicate Inv(l: Limits, s: Sys) {
    && |s.shards| == SHARDS
    && (forall key: string :: KeyInv(l, s.shards, s.log, key))
    && LogInv(l, s.log)
    && (forall tid <- s.threads :: s.threads[tid].Found? ==> TimesOf(s.log, s.threads[tid].key) != [])
  }

  /** A decision on one key extends its own requests and touches no other key. */
  lemma DecideInv(l: Limits, s: Sys, key: string, now: real, b: Bucket, allowed: bool)
    requires Inv(l, s)
    requires var times := TimesOf(s.log, key) + [now]; b == After(l, times) && (allowed <==> LastAllowed(l, times))
    ensures var shards := s.shards[Shard(key) := s.shards[Shard(key)][key := b]];
            var s' := s.(shards := shards, log := s.log + [Entry(key, now, allowed)]);
            Inv(l, s')
  {
    hide After, LastAllowed, Shard;
    var e := Entry(key, now, allowed);
    var log' := s.log + [e];
    var s' := s.(shards := s.shards[Shard(key) := s.shards[Shard(key)][key := b]], log := log');
    forall k: string ensures KeyInv(l, s'.shards, s'.log, k) {
      assert KeyInv(l, s.shards, s.log, k);
      TimesSnoc(s.log, e, k);
    }
    forall n | 0 <= n < |log'| ensures EntryOk(l, log', n) {
      if n < |s.log| {
        assert EntryOk(l, s.log, n);
        assert log'[..n + 1] == s.log[..n + 1];
      } else {
        TimesSnoc(s.log, e, key);
        assert log'[..n + 1] == log';
      }
    }
    forall tid <- s.threads | s.threads[tid].Found? ensures TimesOf(log', s.threads[tid].key) != [] {
      TimesSnoc(s.log, e, s.threads[tid].key);
    }
  }

  lemma StepInv(l: Limits, s: Sys, step: Step)
    requires Inv(l, s) && Enabled(s, step)
    ensures Inv(l, Do(l, s, step))
  {
    hide KeyInv, LogInv, Shard;
    match step
    case LookUp(tid, key, now) => KeyKnown(l, s.shards, s.log, key);
    case UseBucket(tid) =>
      var Found(key, now) := s.threads[tid];
      KeyUsed(l, s.shards, s.log, key, now);
      var (b, allowed) := Used(l, s.shards[Shard(key)][key], now);
      DecideInv(l, s, key, now, b, allowed);
    case LockAndCheck(tid) =>
      var Missing(key, now) := s.threads[tid];
      KeyKnown(l, s.shards, s.log, key);
      if key !in s.shards[Shard(key)] { DecideInv(l, s, key, now, Created(l, now), true); }
  }

  lemma KeyKnown(l: Limits, shards: seq<map<string, Bucket>>, log: seq<Entry>, key: string)
    requires |shards| == SHARDS && KeyInv(l, shards, log, key)
    ensures key in shards[Shard(key)] <==> TimesOf(log, key) != []
  {
  }

  lemma KeyUsed(l: Limits, shards: seq<map<string, Bucket>>, log: seq<Entry>, key: string, now: real)
    requires |shards| == SHARDS && KeyInv(l, shards, log, key) && key in shards[Shard(key)]
    ensures var times := TimesOf(log, key) + [now];
            Used(l, shards[Shard(key)][key], now) == (After(l, times), LastAllowed(l, times))
  {
    var times := TimesOf(log, key);
    assert (times + [now])[..|times|] == times;
  }

  predicate IsRun(l: Limits, s: Sys, steps: seq<Step>)
    decreases |steps|
  {
    |s.shards| == SHARDS && (steps == [] || (Enabled(s, steps[0]) && IsRun(l, Do(l, s, steps[0]), steps[1..])))
  }

  function Exec(l: Limits, s: Sys, steps: seq<Step>): Sys
    requires IsRun(l, s, steps)
    decreases |steps|
  {
    if steps == [] then s else Exec(l, Do(l, s, steps[0]), steps[1..])
  }

  function Empty(): Sys { Sys(seq(SHARDS, _ => map[]), map[], []) }

  lemma {:induction false} RunInv(l: Limits, s: Sys, steps: seq<Step>)
    requires Inv(l, s) && IsRun(l, s, steps)
    ensures Inv(l, Exec(l, s, steps))
    decreases |steps|
  {
    hide Inv, Do;
    if steps != [] {
      StepInv(l, s, steps[0]);
      RunInv(l, Do(l, s, steps[0]), steps[1..]);
    }
  }

  /** Over every interleaving of first and later requests of any keys, the limiter decides as one bucket per key. */
  lemma ShardsBehaveAsOneMap(l: Limits, steps: seq<Step>)
    requires IsRun(l, Empty(), steps)
    ensures var s := Exec(l, Empty(), steps);
            LogInv(l, s.log) && |s.shards| == SHARDS && forall key: string :: KeyInv(l, s.shards, s.log, key)
  {
    assert forall key: string :: KeyInv(l, Empty().shards, [], key);
    RunInv(l, Empty(), steps);
  }

  /** The requests of one key let through from index a of the log on. */
  function GrantedFrom(log: seq<Entry>, key: string, a: nat): nat {
    if |log| <= a then 0
    else
      var front, e := log[..|log| - 1], log[|log| - 1];
      GrantedFrom(front, key, a) + if e.key == key && e.allowed then 1 else 0
  }

  lemma LogPrefix(l: Limits, log: seq<Entry>, n: nat)
    requires LogInv(l, log) && n <= |log|
    ensures LogInv(l, log[..n])
  {
    hide LastAllowed, TimesOf;
    forall k | 0 <= k < n ensures EntryOk(l, log[..n], k) {
      assert EntryOk(l, log, k);
      assert log[..n][..k + 1] == log[..k + 1];
    }
  }

  lemma LastEntryOk(l: Limits, front: seq<Entry>, e: Entry)
    requires LogInv(l, front + [e])
    ensures e.allowed <==> LastAllowed(l, TimesOf(front, e.key) + [e.now])
  {
    var log := front + [e];
    assert EntryOk(l, log, |front|);
    assert log[..|front| + 1] == log;
    TimesSnoc(front, e, e.key);
    hide LastAllowed;
  }

  lemma AllowedSnoc(l: Limits, times: seq<real>, now: real, i: nat)
    requires i <= |times|
    ensures AllowedFrom(l, times, |times|) == 0
    ensures AllowedFrom(l, times + [now], i) ==
            AllowedFrom(l, times, i) + if LastAllowed(l, times + [now]) then 1 else 0
  {
    hide LastAllowed;
    assert (times + [now])[..|times|] == times;
  }

  lemma GrantedSnoc(front: seq<Entry>, e: Entry, key: string, a: nat)
    requires a <= |front|
    ensures GrantedFrom(front + [e], key, a) == GrantedFrom(front, key, a) + if e.key == key && e.allowed then 1 else 0
  {
    assert (front + [e])[..|front|] == front;
  }

  /** So the requests let through from any point of the log on are those a lone bucket allows. */
  lemma {:induction false} GrantedByOneBucket(l: Limits, log: seq<Entry>, key: string, a: nat)
    requires LogInv(l, log) && a <= |log|
    ensures |TimesOf(log[..a], key)| <= |TimesOf(log, key)|
    ensures GrantedFrom(log, key, a) == AllowedFrom(l, TimesOf(log, key), |TimesOf(log[..a], key)|)
    decreases |log|
  {
    hide LastAllowed, GrantedFrom, AllowedFrom, TimesOf, LogInv;
    if a < |log| {
      var n := |log| - 1;
      var front, e := log[..n], log[n];
      assert log == front + [e] && log[..a] == front[..a];
      LogPrefix(l, log, n);
      GrantedByOneBucket(l, front, key, a);
      GrantedSnoc(front, e, key, a);
      TimesSnoc(front, e, key);
      LastEntryOk(l, front, e);
      AllowedSnoc(l, TimesOf(front, key), e.now, |TimesOf(log[..a], key)|);
    } else {
      assert log[..a] == log;
      AllowedSnoc(l, TimesOf(log, key), 0.0, |TimesOf(log, key)|);
      assert GrantedFrom(log, key, a) == 0 by { NothingGranted(log, key); }
    }
  }

  lemma NothingGranted(log: seq<Entry>, key: string)
    ensures GrantedFrom(log, key, |log|) == 0
  {
  }

  /** The decision at index a of the log is the key's next one after those before it. */
  lemma {:induction false} TimeAt(log: seq<Entry>, key: string, a: nat)
    requires a < |log| && log[a].key == key
    ensures var i, times := |TimesOf(log[..a], key)|, TimesOf(log, key);
            i < |times| && times[i] == log[a].now && (a == |log| - 1 ==> i == |times| - 1)
    decreases |log|
  {
    hide TimesOf;
    var n := |log| - 1;
    var front, e := log[..n], log[n];
    assert log == front + [e] && log[..a] == front[..a];
    TimesSnoc(front, e, key);
    if a < n { TimeAt(front, key, a); } else { assert front[..a] == front; }
  }

  /** Conformance of the limiter under concurrency: over every interleaving, between any two decisions of a key, the
      second one a grant, at most burst + rate * (time between them) requests of the key are let through. */
  lemma WindowBound(l: Limits, steps: seq<Step>, a: nat, b: nat)
    requires l.Valid() && IsRun(l, Empty(), steps) && a <= b < |Exec(l, Empty(), steps).log|
    requires var log := Exec(l, Empty(), steps).log; log[a].key == log[b].key && log[b].allowed
    ensures var log := Exec(l, Empty(), steps).log;
            GrantedFrom(log[..b + 1], log[b].key, a) as real <= l.burst + l.rate * (log[b].now - log[a].now)
  {
    ShardsBehaveAsOneMap(l, steps);
    var log := Exec(l, Empty(), steps).log;
    hide IsRun, Exec, LogInv;
    LogPrefix(l, log, b + 1);
    LogWindow(l, log[..b + 1], a);
  }

  lemma LogWindow(l: Limits, log: seq<Entry>, a: nat)
    requires l.Valid() && LogInv(l, log) && a < |log| && log[a].key == log[|log| - 1].key && log[|log| - 1].allowed
    ensures var e := log[|log| - 1]; GrantedFrom(log, e.key, a) as real <= l.burst + l.rate * (e.now - log[a].now)
  {
    hide LastAllowed, Earned, AllowedFrom, GrantedFrom, TimesOf, LogInv;
    var n := |log| - 1;
    var front, e := log[..n], log[n];
    var times, i := TimesOf(log, e.key), |TimesOf(log[..a], e.key)|;
    assert log == front + [e];
    GrantedByOneBucket(l, log, e.key, a);
    TimeAt(log, e.key, a);
    TimesSnoc(front, e, e.key);
    LastEntryOk(l, front, e);
    assert times[..|times|] == times;
    Conformance(l, times, i, |times| - 1);
  }

  // ---- The code's objects ----

  class TokenBucket {
    ghost const owner: string
    var tokens: real
    var lastRefill: real

    constructor (ghost owner: string, tokens: real, lastRefill: real)
      ensures this.owner == owner && View() == Bucket(tokens, lastRefill)
    {
      this.owner, this.tokens, this.lastRefill := owner, tokens, lastRefill;
    }

    ghost function View(): Bucket
      reads this
    {
      Bucket(tokens, lastRefill)
    }

    method Allow(rate: real, burst: real, now: real) returns (ok: bool)
      modifies this
      ensures old(Used(Limits(rate, burst), View(), now)) == (View(), ok)
    {
      var elapsed := now - lastRefill;
      lastRefill := now;
      tokens := Min(burst, tokens + elapsed * rate);
      assert tokens == old(Refill(Limits(rate, burst), View(), now));
      hide Refill;
      if tokens < 1.0 {
        return false;
      }
      tokens := tokens - 1.0;
      return true;
    }
  }

  class Limiter {
    const limits: Limits
    var shards: seq<map<string, TokenBucket>>

    constructor (limits: Limits)
      requires limits.Valid()
      ensures this.limits == limits && Valid() && forall key: string :: BucketOf(key) == None
    {
      this.limits := limits;
      shards := seq(SHARDS, _ => map[]);
    }

    ghost predicate Valid()
      reads this
    {
      |shards| == SHARDS && forall i, k | 0 <= i < SHARDS && k in shards[i] :: i == Shard(k) && shards[i][k].owner == k
    }

    ghost function Buckets(): set<TokenBucket>
      reads this
    {
      set i, k | 0 <= i < |shards| && k in shards[i] :: shards[i][k]
    }

    ghost function BucketOf(key: string): Option<Bucket>
      requires Valid()
      reads this, Buckets()
    {
      if key in shards[Shard(key)] then Some(shards[Shard(key)][key].View()) else None
    }

    /** One uncontended call. */
    method Allow(key: string, now: real) returns (ok: bool)
      requires Valid()
      modifies this, Buckets()
      ensures Valid()
      ensures old(BucketOf(key)).None? ==> ok && BucketOf(key) == Some(Created(limits, now))
      ensures old(BucketOf(key)).Some? ==> var (b, allowed) := Used(limits, old(BucketOf(key)).value, now);
              ok == allowed && BucketOf(key) == Some(b)
      ensures forall other: string | other != key :: BucketOf(other) == old(BucketOf(other))
    {
      var hash := HashBytes(key);
      var index := hash % 64;
      assert index == Shard(key);
      hide Used, Shard, Fnv;
      if key in shards[index] {
        ok := shards[index][key].Allow(limits.rate, limits.burst, now);
        return;
      }
      var bucket := new TokenBucket(key, limits.burst - 1.0, now);
      shards := shards[index := shards[index][key := bucket]];
      return true;
    }
  }
}
