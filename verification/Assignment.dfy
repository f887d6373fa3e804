/** Hot reload of a dedicated processor's partitions: add first, then remove, and keep the last good set. */
module Assignment {
  import opened GoInts
  import opened PartitionLists

  type Partitions = set<int32>

  /** What the client consumes, what the consumer recorded, and every set the client has held. */
  datatype St = St(client: Partitions, assignment: Partitions, trail: seq<Partitions>)

  function Adjust(st: St, client: Partitions): St {
    st.(client := client, trail := st.trail + [client])
  }

  function Apply(st: St, target: Partitions): St {
    var added, removed := target - st.assignment, st.assignment - target;
    if added == {} && removed == {} then st
    else
      var grown := if added != {} then Adjust(st, st.client + added) else st;
      var shrunk := if removed != {} then Adjust(grown, grown.client - removed) else grown;
      shrunk.(assignment := target)
  }

  /** This tenant's target, if the mapping loads, has its entry, and the entry is well-formed. */
  ghost function Target(entries: Option<map<string, Entry>>, tenant: string): Option<Partitions> {
    if entries.None? || tenant !in entries.value then None
    else EntrySet(entries.value[tenant].start, entries.value[tenant].count)
  }

  ghost function Reload(st: St, entries: Option<map<string, Entry>>, tenant: string): St {
    match Target(entries, tenant)
    case None => st
    case Some(target) => Apply(st, target)
  }

  // ---- The code's objects ----

  /** First loop of the diff. */
  method NewlyReserved(target: Partitions, assignment: Partitions) returns (added: Partitions)
    ensures added == target - assignment
  {
    added := {};
    var left := target;
    while left != {}
      invariant left <= target && added == (target - left) - assignment
      decreases |left|
    {
      var partition :| partition in left;
      if partition !in assignment {
        added := added + {partition};
      }
      left := left - {partition};
    }
  }

  /** Second loop of the diff. */
  method NoLongerReserved(target: Partitions, assignment: Partitions) returns (removed: seq<int32>)
    ensures IndexSet(removed) == assignment - target
  {
    removed := [];
    var left := assignment;
    while left != {}
      invariant left <= assignment && IndexSet(removed) == (assignment - left) - target
      decreases |left|
    {
      var partition :| partition in left;
      if partition !in target {
        IndexSetSnoc(removed, partition);
        removed := removed + [partition];
      }
      left := left - {partition};
    }
  }

  lemma IndexSetSnoc(s: seq<int32>, p: int32)
    ensures IndexSet(s + [p]) == IndexSet(s) + {p}
  {
  }

  lemma ListEmptyIff(s: seq<int32>)
    ensures |s| == 0 <==> IndexSet(s) == {}
  {
    if |s| > 0 { assert s[0] in IndexSet(s); }
  }

  class Client {
    var partitions: Partitions
    ghost var trail: seq<Partitions>

    constructor (partitions: Partitions)
      ensures this.partitions == partitions && trail == [partitions]
    {
      this.partitions, trail := partitions, [partitions];
    }

    method AddConsumePartitions(added: Partitions)
      modifies this
      ensures partitions == old(partitions) + added && trail == old(trail) + [partitions]
    {
      partitions := partitions + added;
      trail := trail + [partitions];
    }

    method RemoveConsumePartitions(removed: seq<int32>)
      modifies this
      ensures partitions == old(partitions) - IndexSet(removed) && trail == old(trail) + [partitions]
    {
      partitions := partitions - IndexSet(removed);
      trail := trail + [partitions];
    }
  }

  class DedicatedConsumer {
    const client: Client
    var assignment: Partitions

    constructor (client: Client)
      ensures this.client == client && assignment == client.partitions
    {
      this.client, assignment := client, client.partitions;
    }

    ghost function View(): St
      reads this, client
    {
      St(client.partitions, assignment, client.trail)
    }

    /** Diff the target against the record, then change the client. */
    method ApplyAssignment(target: Partitions)
      modifies this, client
      ensures View() == old(Apply(View(), target))
    {
      var added := NewlyReserved(target, assignment);
      var removed := NoLongerReserved(target, assignment);
      ListEmptyIff(removed);
      if |added| == 0 && |removed| == 0 {
        return;
      }
      if |added| > 0 {
        client.AddConsumePartitions(added);
      }
      if |removed| > 0 {
        client.RemoveConsumePartitions(removed);
      }
      assignment := target;
    }

    method ReloadOnce(entries: Option<map<string, Entry>>, tenant: string)
      modifies this, client
      ensures View() == old(Reload(View(), entries, tenant))
    {
      if entries.None? || tenant !in entries.value {
        return;
      }
      var target := PartitionsForEntry(entries.value[tenant].start, entries.value[tenant].count);
      if target.None? {
        return;
      }
      ApplyAssignment(target.value);
    }
  }

  // ---- Any sequence of reloads ----

  ghost function Run(st: St, loads: seq<Option<map<string, Entry>>>, tenant: string): St {
    if loads == [] then st else Reload(Run(st, loads[..|loads| - 1], tenant), loads[|loads| - 1], tenant)
  }

  ghost function LastGood(start: Partitions, loads: seq<Option<map<string, Entry>>>, tenant: string): Partitions {
    if loads == [] then start
    else match Target(loads[|loads| - 1], tenant)
      case Some(target) => target
      case None => LastGood(start, loads[..|loads| - 1], tenant)
  }

  lemma TargetNonEmpty(entries: Option<map<string, Entry>>, tenant: string)
    ensures Target(entries, tenant).Some? ==> Target(entries, tenant).value != {}
  {
    if Target(entries, tenant).Some? {
      ListEmptyIff(Indices(entries.value[tenant].start, entries.value[tenant].count));
    }
  }

  /** Between the old set and the new one the client always holds everything they share, and never nothing. */
  lemma ApplyGapFree(st: St, target: Partitions)
    requires st.client == st.assignment && st.client != {} && target != {}
    ensures var st' := Apply(st, target);
            && st'.client == st'.assignment == target
            && st.trail <= st'.trail
            && (forall k | |st.trail| <= k < |st'.trail| ::
                  st'.trail[k] != {} && st.assignment * target <= st'.trail[k])
  {
    var grown := st.client + (target - st.assignment);
    assert grown - (st.assignment - target) == target;
    assert target - st.assignment == {} ==> st.client == grown;
    assert st.assignment - target == {} ==> grown == target;
  }

  /** The partition is wanted throughout: by the start and by every good target. */
  ghost predicate AlwaysWanted(p: int32, start: Partitions, loads: seq<Option<map<string, Entry>>>, tenant: string) {
    p in start && forall i | 0 <= i < |loads| :: Target(loads[i], tenant).Some? ==> p in Target(loads[i], tenant).value
  }

  /** Gap-free reassignment: over any sequence of good and bad reloads the client holds exactly the last good
      target, at no moment holds nothing, and never lets go of a partition that was wanted throughout. */
  lemma {:induction false} RunGapFree(st: St, loads: seq<Option<map<string, Entry>>>, tenant: string)
    requires st.client == st.assignment && st.client != {}
    requires forall k | 0 <= k < |st.trail| :: st.trail[k] != {} && st.assignment <= st.trail[k]
    ensures var st' := Run(st, loads, tenant);
            && st'.client == st'.assignment == LastGood(st.assignment, loads, tenant) && st'.client != {}
            && st.trail <= st'.trail
            && (forall k | 0 <= k < |st'.trail| :: st'.trail[k] != {})
            && (forall p, k | AlwaysWanted(p, st.assignment, loads, tenant) &&
                0 <= k < |st'.trail| :: p in st'.trail[k])
            && (forall p | AlwaysWanted(p, st.assignment, loads, tenant) :: p in st'.client)
    decreases |loads|
  {
    if loads != [] {
      hide Apply, Target;
      var front, last := loads[..|loads| - 1], loads[|loads| - 1];
      RunGapFree(st, front, tenant);
      var mid := Run(st, front, tenant);
      forall p | AlwaysWanted(p, st.assignment, loads, tenant) ensures AlwaysWanted(p, st.assignment, front, tenant) {
        assert forall i | 0 <= i < |front| :: front[i] == loads[i];
      }
      TargetNonEmpty(last, tenant);
      if Target(last, tenant).Some? { ApplyGapFree(mid, Target(last, tenant).value); }
    }
  }

  /** The last good target is the block of partitions that the tenant's entry names. */
  lemma TargetIsBlock(entries: map<string, Entry>, tenant: string)
    requires tenant in entries
    ensures var e := entries[tenant];
            && (Target(Some(entries), tenant).Some? <==> e.count >= 1)
            && (e.count >= 1 && e.start + e.count - 1 <= INT32_MAX ==>
                  forall p: int32 :: p in Target(Some(entries), tenant).value <==> e.start <= p < e.start + e.count)
    ensures forall other: string | other !in entries :: Target(Some(entries), other).None?
    ensures Target(None, tenant).None?
  {
    var e := entries[tenant];
    if e.count >= 1 && e.start + e.count - 1 <= INT32_MAX {
      var ns := Indices(e.start, e.count);
      forall p: int32 ensures p in IndexSet(ns) <==> e.start <= p < e.start + e.count {
        if e.start <= p < e.start + e.count { assert ns[p - e.start] == p; }
      }
    }
  }

  /** Every reload of a run, good or bad, holds on throughout to all that its old and new sets share: each set the
      client passes through on the way includes them. */
  lemma SharedNeverRemoved(st: St, loads: seq<Option<map<string, Entry>>>, tenant: string, n: nat)
    requires st.client == st.assignment && st.client != {} && n < |loads|
    requires forall k | 0 <= k < |st.trail| :: st.trail[k] != {} && st.assignment <= st.trail[k]
    ensures var before, after := Run(st, loads[..n], tenant), Run(st, loads[..n + 1], tenant);
            && before.trail <= after.trail
            && forall k | |before.trail| <= k < |after.trail| :: before.client * after.client <= after.trail[k]
  {
    RunGapFree(st, loads[..n], tenant);
    assert loads[..n + 1][..n] == loads[..n];
    TargetNonEmpty(loads[n], tenant);
    var before := Run(st, loads[..n], tenant);
    hide Apply, Target, AlwaysWanted;
    if Target(loads[n], tenant).Some? { ApplyGapFree(before, Target(loads[n], tenant).value); }
  }
}
