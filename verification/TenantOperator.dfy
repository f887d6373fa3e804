/** The operator's decision table and what its reconcile passes keep, over any signals and any failures. */
module TenantOperator {
  import opened GoInts

  datatype TenantState = Unset | Stable | Scaling | Isolated | Degraded

  /** The parts of the spec the decision reads. */
  datatype Spec = Spec(minReplicas: int32, maxReplicas: int32, lagThreshold: int64, p99ThresholdMs: int32)
  {
    predicate Valid() { 1 <= minReplicas <= maxReplicas }
  }

  datatype Signals = Signals(lag: int64, p99Ms: int32, partitions: int32)

  /** The isolation flag and the status. */
  datatype Tenant = Tenant(dedicated: bool, state: TenantState, replicas: int32)

  datatype Decision = Decision(state: TenantState, replicas: int32, setDedicated: bool)

  function ClampReplicas(value: int32, minimum: int32, maximum: int32): int32 {
    if value < minimum then minimum else if value > maximum then maximum else value
  }

  predicate LagHigh(spec: Spec, sig: Signals) { sig.lag > spec.lagThreshold }

  predicate LatencyHigh(spec: Spec, sig: Signals) { sig.p99Ms > spec.p99ThresholdMs }

  function Classify(spec: Spec, baseline: int32, alreadyIsolated: bool, sig: Signals): Decision {
    var lagHigh, latencyHigh := LagHigh(spec, sig), LatencyHigh(spec, sig);
    if lagHigh && latencyHigh then Decision(Scaling, spec.maxReplicas, false)
    else if lagHigh && baseline < sig.partitions then
      var target := if sig.partitions < spec.maxReplicas then sig.partitions else spec.maxReplicas;
      Decision(Scaling, ClampReplicas(target, spec.minReplicas, spec.maxReplicas), false)
    else if lagHigh then Decision(Isolated, baseline, true)
    else if latencyHigh then Decision(Degraded, baseline, false)
    else Decision(if alreadyIsolated then Isolated else Stable, baseline, false)
  }

  function Baseline(spec: Spec, t: Tenant): int32 {
    if t.replicas < spec.minReplicas then spec.minReplicas else t.replicas
  }

  /** How far a pass gets: it may fail before the flag is stored, after it, or write the status. */
  datatype Reach = BeforeFlag | AfterFlag | Complete

  function Pass(spec: Spec, t: Tenant, sig: Signals, reach: Reach): Tenant {
    var d := Classify(spec, Baseline(spec, t), t.dedicated, sig);
    match reach
    case BeforeFlag => t
    case AfterFlag => t.(dedicated := t.dedicated || d.setDedicated)
    case Complete => Tenant(t.dedicated || d.setDedicated, d.state, d.replicas)
  }

  class TenantObject {
    var dedicated: bool
    var state: TenantState
    var replicas: int32

    constructor (t: Tenant)
      ensures View() == t
    {
      dedicated, state, replicas := t.dedicated, t.state, t.replicas;
    }

    ghost function View(): Tenant
      reads this
    {
      Tenant(dedicated, state, replicas)
    }
  }

  /** One pass over the stored object. */
  method Reconcile(spec: Spec, tenant: TenantObject, sig: Signals, reach: Reach)
    modifies tenant
    ensures tenant.View() == Pass(spec, old(tenant.View()), sig, reach)
  {
    var baseline := tenant.replicas;
    if baseline < spec.minReplicas {
      baseline := spec.minReplicas;
    }
    var decision := Classify(spec, baseline, tenant.dedicated, sig);
    if reach.BeforeFlag? {
      return;
    }
    if decision.setDedicated && !tenant.dedicated {
      tenant.dedicated := true;
    }
    if reach.AfterFlag? {
      return;
    }
    tenant.state := decision.state;
    tenant.replicas := decision.replicas;
  }

  // ---- One pass ----

  /** The decision table by state: what each classification means in terms of the two signals, the parallelism
      headroom and the isolation flag, and what it does to the replicas; and what a pass that fails earlier leaves. */
  lemma DecisionTable(spec: Spec, t: Tenant, sig: Signals)
    requires spec.Valid()
    ensures var t' := Pass(spec, t, sig, Complete);
            var baseline := if t.replicas < spec.minReplicas then spec.minReplicas else t.replicas;
            var lag, latency := sig.lag > spec.lagThreshold, sig.p99Ms > spec.p99ThresholdMs;
            && (t'.state == Degraded <==> !lag && latency)
            && (t'.state == Scaling <==> lag && (latency || baseline < sig.partitions))
            && (t'.state == Stable <==> !lag && !latency && !t.dedicated)
            && (t'.state == Isolated <==>
                  !latency && if lag then baseline >= sig.partitions else t.dedicated)
            && (t'.state != Scaling ==> t'.replicas == baseline)
            && (t'.state == Scaling && latency ==> t'.replicas == spec.maxReplicas)
            && (t'.state == Scaling && !latency ==> IsBestScale(spec, sig, t'.replicas))
            && (t'.dedicated <==> t.dedicated || (lag && t'.state == Isolated))
            && Pass(spec, t, sig, AfterFlag) == t.(dedicated := t'.dedicated)
            && Pass(spec, t, sig, BeforeFlag) == t
  {
  }

  /** The most replicas in bounds that the partitions can keep busy, or the minimum if they cannot. */
  predicate IsBestScale(spec: Spec, sig: Signals, r: int32) {
    && spec.minReplicas <= r <= spec.maxReplicas
    && (r <= sig.partitions || r == spec.minReplicas)
    && (r == spec.maxReplicas || r >= sig.partitions)
  }

  /** A completed pass leaves replicas within the bounds exactly when the count it starts from is not above the
      maximum, or one of the two scaling branches overrides it. */
  lemma BoundsIff(spec: Spec, t: Tenant, sig: Signals)
    requires spec.Valid()
    ensures spec.minReplicas <= Pass(spec, t, sig, Complete).replicas <= spec.maxReplicas <==>
            t.replicas <= spec.maxReplicas ||
                (sig.lag > spec.lagThreshold && (sig.p99Ms > spec.p99ThresholdMs || t.replicas < sig.partitions))
  {
  }

  /** What the isolation flag and the state say about each other. */
  predicate Consistent(t: Tenant) {
    (t.state == Isolated ==> t.dedicated) && (t.state == Stable ==> !t.dedicated)
  }

  /** A pass keeps state and flag consistent exactly unless it fails right after isolating a stable tenant. */
  lemma ConsistentIff(spec: Spec, t: Tenant, sig: Signals, reach: Reach)
    requires Consistent(t)
    ensures Consistent(Pass(spec, t, sig, reach)) <==>
            !(reach.AfterFlag? && t.state == Stable && sig.lag > spec.lagThreshold &&
                sig.p99Ms <= spec.p99ThresholdMs &&
              (t.replicas >= sig.partitions || spec.minReplicas >= sig.partitions))
  {
  }

  // ---- Runs ----

  datatype Round = Round(sig: Signals, reach: Reach)

  function Run(spec: Spec, t: Tenant, rounds: seq<Round>): Tenant {
    if rounds == [] then t
    else var r := rounds[|rounds| - 1]; Pass(spec, Run(spec, t, rounds[..|rounds| - 1]), r.sig, r.reach)
  }

  /** Some pass of the run completed. */
  predicate Settled(rounds: seq<Round>) {
    exists i :: 0 <= i < |rounds| && rounds[i].reach.Complete?
  }

  /** Over any run from at most the maximum, with any signals and failures: replicas never exceed the maximum,
      never decrease, are at least the minimum once a pass has completed, and isolation is never undone; and a
      completed pass leaves state and flag consistent whatever failed before it. */
  lemma {:induction false} RunIsMonotone(spec: Spec, t: Tenant, rounds: seq<Round>)
    requires spec.Valid() && t.replicas <= spec.maxReplicas
    ensures var t' := Run(spec, t, rounds);
            && t.replicas <= t'.replicas <= spec.maxReplicas
            && (Settled(rounds) ==> spec.minReplicas <= t'.replicas)
            && (t.dedicated ==> t'.dedicated)
            && (rounds != [] && rounds[|rounds| - 1].reach.Complete? ==> Consistent(t'))
    decreases |rounds|
  {
    if rounds != [] {
      var front := rounds[..|rounds| - 1];
      RunIsMonotone(spec, t, front);
      if Settled(rounds) && !rounds[|rounds| - 1].reach.Complete? {
        var i :| 0 <= i < |rounds| && rounds[i].reach.Complete?;
        assert front[i].reach.Complete?;
      }
    }
  }

  /** Replicas between any two points of a run are ordered. */
  lemma {:induction false} ReplicasNeverDrop(spec: Spec, t: Tenant, rounds: seq<Round>, i: nat)
    requires spec.Valid() && t.replicas <= spec.maxReplicas && i <= |rounds|
    ensures Run(spec, t, rounds[..i]).replicas <= Run(spec, t, rounds).replicas
    ensures Run(spec, t, rounds[..i]).dedicated ==> Run(spec, t, rounds).dedicated
    decreases |rounds|
  {
    if i < |rounds| {
      var front := rounds[..|rounds| - 1];
      RunIsMonotone(spec, t, front);
      ReplicasNeverDrop(spec, t, front, i);
      assert front[..i] == rounds[..i];
    } else {
      assert rounds[..i] == rounds;
    }
  }

  // ---- Constant signals ----

  function Repeat(spec: Spec, t: Tenant, sig: Signals, n: nat): Tenant {
    if n == 0 then t else Pass(spec, Repeat(spec, t, sig, n - 1), sig, Complete)
  }

  /** Under constant signals the tenant is at its fixed point after two completed passes. */
  lemma {:induction false} SettlesInTwo(spec: Spec, t: Tenant, sig: Signals, n: nat)
    requires spec.Valid() && n >= 2
    ensures Repeat(spec, t, sig, n) == Repeat(spec, t, sig, 2)
  {
    if n > 2 {
      SettlesInTwo(spec, t, sig, n - 1);
      ThirdPassIsIdle(spec, t, sig);
    }
  }

  lemma ThirdPassIsIdle(spec: Spec, t: Tenant, sig: Signals)
    requires spec.Valid()
    ensures Pass(spec, Repeat(spec, t, sig, 2), sig, Complete) == Repeat(spec, t, sig, 2)
  {
    assert Repeat(spec, t, sig, 1) == Pass(spec, Repeat(spec, t, sig, 0), sig, Complete);
    assert Repeat(spec, t, sig, 2) == Pass(spec, Repeat(spec, t, sig, 1), sig, Complete);
  }

  /** One pass is not always enough: scaling to exactly the partition count is followed by isolation. */
  lemma SecondPassCanIsolate()
    ensures var spec, sig, t := Spec(1, 4, 100, 50), Signals(200, 10, 3), Tenant(false, Stable, 1);
            Repeat(spec, t, sig, 1).state == Scaling && Repeat(spec, t, sig, 2) == Tenant(true, Isolated, 3)
  {
    var spec, sig, t := Spec(1, 4, 100, 50), Signals(200, 10, 3), Tenant(false, Stable, 1);
    assert Repeat(spec, t, sig, 0) == t;
    assert Repeat(spec, t, sig, 1) == Tenant(false, Scaling, 3);
  }
}
