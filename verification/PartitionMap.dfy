/** The shared tenant-partition map under optimistic concurrency: version-checked update, create if absent,
    and a retry when the create race is lost. Reads come from a cache and may return any earlier version. */
module PartitionMap {
  import opened GoInts
  import opened PartitionLists

  type Mapping = map<string, Entry>

  /** The stored text: absent, not decodable, or the canonical encoding of a mapping. */
  datatype Raw = Blank | Malformed | Encoded(mapping: Mapping)

  datatype ConfigMap = ConfigMap(version: nat, raw: Raw)

  /** A pass publishes its tenant's entry or removes it. */
  datatype Mutation = Ensure(tenant: string, entry: Entry) | Remove(tenant: string)

  function Mutate(mapping: Mapping, mut: Mutation): Mapping {
    match mut
    case Ensure(tenant, entry) => mapping[tenant := entry]
    case Remove(tenant) => mapping - {tenant}
  }

  function Decode(raw: Raw): Option<Mapping> {
    match raw
    case Blank => Some(map[])
    case Malformed => None
    case Encoded(m) => Some(m)
  }

  /** The mapping everyone reads: empty while the object does not exist. */
  function Published(stored: Option<ConfigMap>): Option<Mapping> {
    if stored.None? then Some(map[]) else Decode(stored.value.raw)
  }

  type Pid = nat

  /** A call about to get the object, about to write what it computed, or finished. */
  datatype Call =
    | Getting(mut: Mutation)
    | Writing(mut: Mutation, seen: Option<ConfigMap>, desired: Mapping)
    | Returned(mut: Mutation, ok: bool)

  /** Every version the API server has held, oldest first, absence included. */
  type History = h: seq<Option<ConfigMap>> | h != [] witness [None]

  function Newest(h: History): Option<ConfigMap> { h[|h| - 1] }

  /** The versions, the calls, and the mutations that took effect, in order. */
  datatype Sys = Sys(history: History, calls: map<Pid, Call>, commits: seq<Mutation>)

  datatype Fault = Clean | Before | After

  /** `Get` answers with version `at`. */
  datatype Step =
    | Begin(pid: Pid, mut: Mutation)
    | Get(pid: Pid, answers: bool, at: nat)
    | Write(pid: Pid, fault: Fault)
    | Vanish(pid: Pid)

  predicate Enabled(s: Sys, step: Step) {
    match step
    case Begin(pid, _) => pid !in s.calls || s.calls[pid].Returned?
    case Get(pid, _, at) => pid in s.calls && s.calls[pid].Getting? && at < |s.history|
    case Write(pid, _) => pid in s.calls && s.calls[pid].Writing?
    case Vanish(pid) => pid in s.calls
  }

  /** The local part between the get and the write: decode, mutate, and skip a write that would change nothing. */
  function Decide(seen: Option<ConfigMap>, mut: Mutation): Call {
    match Published(seen)
    case None => Returned(mut, false)
    case Some(mapping) =>
      var desired := Mutate(mapping, mut);
      if seen.None? && desired == map[] then Returned(mut, true)
      else if seen.Some? && seen.value.raw == Encoded(desired) then Returned(mut, true)
      else Writing(mut, seen, desired)
  }

  /** The server accepts a create when there is no object, and an update whose version is current. */
  predicate Accepts(stored: Option<ConfigMap>, seen: Option<ConfigMap>) {
    if seen.None? then stored.None? else stored.Some? && stored.value.version == seen.value.version
  }

  function Revised(stored: Option<ConfigMap>, desired: Mapping): ConfigMap {
    ConfigMap(if stored.None? then 1 else stored.value.version + 1, Encoded(desired))
  }

  function Grown(h: History, desired: Mapping): History {
    h + [Some(Revised(Newest(h), desired))]
  }

  function Do(s: Sys, step: Step): Sys
    requires Enabled(s, step)
  {
    match step
    case Begin(pid, mut) => s.(calls := s.calls[pid := Getting(mut)])
    case Get(pid, answers, at) =>
      var mut := s.calls[pid].mut;
      s.(calls := s.calls[pid := if answers then Decide(s.history[at], mut) else Returned(mut, false)])
    case Write(pid, fault) =>
      var Writing(mut, seen, desired) := s.calls[pid];
      if fault.Before? then s.(calls := s.calls[pid := Returned(mut, false)])
      else if Accepts(Newest(s.history), seen) then
        Sys(Grown(s.history, desired), s.calls[pid := Returned(mut, fault.Clean?)], s.commits + [mut])
      else if seen.None? && fault.Clean? then s.(calls := s.calls[pid := Getting(mut)])
      else s.(calls := s.calls[pid := Returned(mut, false)])
    case Vanish(pid) => s.(calls := s.calls - {pid})
  }

  predicate IsRun(s: Sys, steps: seq<Step>)
    decreases |steps|
  {
    steps == [] || (Enabled(s, steps[0]) && IsRun(Do(s, steps[0]), steps[1..]))
  }

  function Exec(s: Sys, steps: seq<Step>): Sys
    requires IsRun(s, steps)
    decreases |steps|
  {
    if steps == [] then s else Exec(Do(s, steps[0]), steps[1..])
  }

  // ---- No lost updates ----

  function ApplyAll(mapping: Mapping, muts: seq<Mutation>): Mapping {
    if muts == [] then mapping else Mutate(ApplyAll(mapping, muts[..|muts| - 1]), muts[|muts| - 1])
  }

  lemma ApplySnoc(mapping: Mapping, muts: seq<Mutation>, mut: Mutation)
    ensures ApplyAll(mapping, muts + [mut]) == Mutate(ApplyAll(mapping, muts), mut)
  {
    assert (muts + [mut])[..|muts|] == muts;
  }

  /** Once there is an object there always is, and versions only grow. */
  predicate Versioned(h: History) {
    forall i, j | 0 <= i < j < |h| :: Precedes(h[i], h[j])
  }

  predicate Precedes(a: Option<ConfigMap>, b: Option<ConfigMap>) {
    b.Some? && (a.Some? ==> a.value.version < b.value.version)
  }

  /** A write is prepared from a version that was current at some time. */
  predicate CallInv(h: History, call: Call) {
    call.Writing? ==>
      call.seen in h && Published(call.seen).Some? && call.desired == Mutate(Published(call.seen).value, call.mut)
  }

  /** Version i is the initial mapping with the first i committed mutations applied in commit order. */
  predicate VersionInv(h: History, commits: seq<Mutation>, initial: Mapping) {
    |h| == |commits| + 1 && forall i | 0 <= i < |h| :: Published(h[i]) == Some(ApplyAll(initial, commits[..i]))
  }

  predicate Inv(s: Sys, initial: Mapping) {
    && Versioned(s.history) && VersionInv(s.history, s.commits, initial)
    && forall pid <- s.calls :: CallInv(s.history, s.calls[pid])
  }

  /** An accepted write was prepared from the newest version: an older one is refused. */
  lemma AcceptedIsNewest(h: History, seen: Option<ConfigMap>)
    requires Versioned(h) && seen in h && Accepts(Newest(h), seen)
    ensures seen == Newest(h)
  {
    var i :| 0 <= i < |h| && h[i] == seen;
  }

  lemma GrownIsVersioned(h: History, desired: Mapping)
    requires Versioned(h)
    ensures Versioned(Grown(h, desired))
  {
    var h', n := Grown(h, desired), |h| - 1;
    forall i, j | 0 <= i < j < |h'| ensures Precedes(h'[i], h'[j]) {
      if j == n + 1 && i < n { assert Precedes(h[i], h[n]); }
    }
  }

  lemma GrownVersions(h: History, commits: seq<Mutation>, initial: Mapping, mut: Mutation)
    requires Versioned(h) && VersionInv(h, commits, initial) && Published(Newest(h)).Some?
    ensures var h' := Grown(h, Mutate(Published(Newest(h)).value, mut));
            Versioned(h') && VersionInv(h', commits + [mut], initial)
  {
    GrownIsVersioned(h, Mutate(Published(Newest(h)).value, mut));
    hide Mutate, ApplyAll, Versioned;
    var h', commits' := Grown(h, Mutate(Published(Newest(h)).value, mut)), commits + [mut];
    ApplySnoc(initial, commits, mut);
    forall i | 0 <= i < |h'| ensures Published(h'[i]) == Some(ApplyAll(initial, commits'[..i])) {
      assert i <= |commits| ==> commits'[..i] == commits[..i];
      assert commits'[..|commits'|] == commits' && commits[..|commits|] == commits;
    }
  }

  lemma CommitInv(s: Sys, pid: Pid, initial: Mapping, fault: Fault)
    requires Inv(s, initial) && Enabled(s, Write(pid, fault)) && !fault.Before? &&
             Accepts(Newest(s.history), s.calls[pid].seen)
    ensures Inv(Do(s, Write(pid, fault)), initial)
  {
    hide Mutate, Versioned, VersionInv;
    var call := s.calls[pid];
    AcceptedIsNewest(s.history, call.seen);
    GrownVersions(s.history, s.commits, initial, call.mut);
  }

  lemma StepInv(s: Sys, step: Step, initial: Mapping)
    requires Inv(s, initial) && Enabled(s, step)
    ensures Inv(Do(s, step), initial)
    ensures s.commits <= Do(s, step).commits && s.history <= Do(s, step).history
  {
    hide Mutate, Versioned, VersionInv;
    if step.Write? && !step.fault.Before? && Accepts(Newest(s.history), s.calls[step.pid].seen) {
      CommitInv(s, step.pid, initial, step.fault);
    }
  }

  /** Linearisation: after any interleaving of any passes, whatever versions they read, the map holds exactly the
      committed mutations, each applied to what all earlier commits left. */
  lemma {:induction false} NoLostUpdates(s: Sys, steps: seq<Step>, initial: Mapping)
    requires Inv(s, initial) && IsRun(s, steps)
    ensures Inv(Exec(s, steps), initial)
    ensures s.commits <= Exec(s, steps).commits && s.history <= Exec(s, steps).history
    decreases |steps|
  {
    hide Inv, Do, Enabled;
    if steps != [] {
      StepInv(s, steps[0], initial);
      NoLostUpdates(Do(s, steps[0]), steps[1..], initial);
    }
  }

  // ---- What a nil answer is worth ----

  function Lookup(mapping: Mapping, tenant: string): Option<Entry> {
    if tenant in mapping then Some(mapping[tenant]) else None
  }

  /** The mutation asks for this entry of its tenant. */
  function Wanted(mut: Mutation): Option<Entry> {
    match mut
    case Ensure(_, entry) => Some(entry)
    case Remove(_) => None
  }

  /** What the tenant's own last mutation of the list asks for, or `before` if it has none there. */
  function LastAsked(muts: seq<Mutation>, tenant: string, before: Option<Entry>): Option<Entry> {
    if muts == [] then before
    else if muts[|muts| - 1].tenant == tenant then Wanted(muts[|muts| - 1])
    else LastAsked(muts[..|muts| - 1], tenant, before)
  }

  /** A tenant's entry is what its own last commit asked for, whatever the others did. */
  lemma {:induction false} EntryIsLastAsked(initial: Mapping, muts: seq<Mutation>, tenant: string)
    ensures Lookup(ApplyAll(initial, muts), tenant) == LastAsked(muts, tenant, Lookup(initial, tenant))
    decreases |muts|
  {
    if muts != [] { EntryIsLastAsked(initial, muts[..|muts| - 1], tenant); }
  }

  lemma {:induction false} LastAskedSplits(muts: seq<Mutation>, k: nat, tenant: string, before: Option<Entry>)
    requires k <= |muts|
    ensures LastAsked(muts, tenant, before) == LastAsked(muts[k..], tenant, LastAsked(muts[..k], tenant, before))
    decreases |muts|
  {
    if k == |muts| {
      assert muts[..k] == muts;
    } else {
      var front := muts[..|muts| - 1];
      LastAskedSplits(front, k, tenant, before);
      assert front[..k] == muts[..k] && front[k..] == muts[k..][..|muts[k..]| - 1];
    }
  }

  /** The version a call saw or made when it returned nil. */
  function VersionOf(s: Sys, step: Step): nat
    requires step.Get? || step.Write?
  {
    if step.Get? then step.at else |s.history|
  }

  predicate ReturnsNil(s: Sys, step: Step) {
    Enabled(s, step) && (step.Get? || step.Write?) &&
        Do(s, step).calls[step.pid] == Returned(s.calls[step.pid].mut, true)
  }

  /** When a call returns nil, its tenant's entry is as it asked in the version the call saw or made, and the step
      changed no other tenant's entry. */
  lemma NilMeansPublished(s: Sys, step: Step, initial: Mapping, other: string)
    requires Inv(s, initial) && ReturnsNil(s, step)
    ensures var mut, k, h' := s.calls[step.pid].mut, VersionOf(s, step), Do(s, step).history;
            && k < |h'| && Published(h'[k]).Some? && Lookup(Published(h'[k]).value, mut.tenant) == Wanted(mut)
            && Published(Newest(h')).Some? && Published(Newest(s.history)).Some?
            && (other != mut.tenant ==>
                  Lookup(Published(Newest(h')).value, other) == Lookup(Published(Newest(s.history)).value, other))
  {
    hide ApplyAll, Versioned;
    StepInv(s, step, initial);
    if step.Write? {
      assert CallInv(s.history, s.calls[step.pid]);
      AcceptedIsNewest(s.history, s.calls[step.pid].seen);
    }
  }

  /** The entry persists until the same tenant's next mutation: from the step where a call returns nil on, over
      every continuation, its tenant's entry is what the tenant's last commit since the version it saw or made asked
      for, and what the call asked for as long as there is none. */
  lemma EntryPersists(s: Sys, step: Step, steps: seq<Step>, initial: Mapping)
    requires Inv(s, initial) && ReturnsNil(s, step) && IsRun(Do(s, step), steps)
    ensures var mut, k, end := s.calls[step.pid].mut, VersionOf(s, step), Exec(Do(s, step), steps);
            && k <= |end.commits| && Published(Newest(end.history)).Some?
            && Lookup(Published(Newest(end.history)).value, mut.tenant)
                == LastAsked(end.commits[k..], mut.tenant, Wanted(mut))
  {
    var mut, k, end := s.calls[step.pid].mut, VersionOf(s, step), Exec(Do(s, step), steps);
    NilMeansPublished(s, step, initial, mut.tenant);
    StepInv(s, step, initial);
    NoLostUpdates(Do(s, step), steps, initial);
    hide IsRun, Exec, Do, ReturnsNil;
    assert end.history[k] == Do(s, step).history[k];
    EntryFrom(end.history, end.commits, initial, k, mut.tenant);
  }

  lemma EntryFrom(h: History, commits: seq<Mutation>, initial: Mapping, k: nat, tenant: string)
    requires VersionInv(h, commits, initial) && k < |h|
    ensures Published(h[k]).Some? && Published(Newest(h)).Some?
    ensures Lookup(Published(Newest(h)).value, tenant)
            == LastAsked(commits[k..], tenant, Lookup(Published(h[k]).value, tenant))
  {
    hide ApplyAll, LastAsked;
    EntryIsLastAsked(initial, commits, tenant);
    EntryIsLastAsked(initial, commits[..k], tenant);
    LastAskedSplits(commits, k, tenant, Lookup(initial, tenant));
    assert commits[..|commits|] == commits;
  }

  /** The caveat is real: after a tenant's own entry was committed, a removal that reads the version before it
      returns nil and the entry stays. */
  lemma StaleReadSkipsARemoval(tenant: string, entry: Entry)
    ensures var s0 := Sys([None], map[], []);
            var publish := [Begin(0, Ensure(tenant, entry)), Get(0, true, 0), Write(0, Clean)];
            var remove := [Begin(0, Remove(tenant)), Get(0, true, 0)];
            && IsRun(s0, publish) && IsRun(Exec(s0, publish), remove)
            && var end := Exec(Exec(s0, publish), remove);
            && 0 in end.calls && end.calls[0] == Returned(Remove(tenant), true)
            && Published(Newest(end.history)) == Some(map[tenant := entry])
  {
    var s0, want, none: Mapping := Sys([None], map[], []), map[tenant := entry], map[];
    assert Mutate(none, Remove(tenant)) == none;
    assert Mutate(none, Ensure(tenant, entry)) == want && tenant in want;
    var a, b, c := Begin(0, Ensure(tenant, entry)), Get(0, true, 0), Write(0, Clean);
    var s1 := Do(s0, a);
    var s2 := Do(s1, b);
    assert s2.calls[0] == Writing(Ensure(tenant, entry), None, want);
    var s3 := Do(s2, c);
    ThreeSteps(s0, a, b, c);
    var d, e := Begin(0, Remove(tenant)), Get(0, true, 0);
    var s4 := Do(s3, d);
    TwoSteps(s3, d, e);
  }

  lemma TwoSteps(s: Sys, a: Step, b: Step)
    requires Enabled(s, a) && Enabled(Do(s, a), b)
    ensures IsRun(s, [a, b]) && Exec(s, [a, b]) == Do(Do(s, a), b)
  {
    hide Do, Enabled;
    var s1 := Do(s, a);
    var s2 := Do(s1, b);
    assert [a, b][1..] == [b] && [b][1..] == [];
    assert IsRun(s2, []) && Exec(s2, []) == s2;
    assert IsRun(s1, [b]) && Exec(s1, [b]) == s2;
  }

  lemma ThreeSteps(s: Sys, a: Step, b: Step, c: Step)
    requires Enabled(s, a) && Enabled(Do(s, a), b) && Enabled(Do(Do(s, a), b), c)
    ensures IsRun(s, [a, b, c]) && Exec(s, [a, b, c]) == Do(Do(Do(s, a), b), c)
  {
    TwoSteps(Do(s, a), b, c);
    hide Do, Enabled;
    assert [a, b, c][1..] == [b, c];
  }

  /** The object never disappears, so no later create is accepted. */
  lemma {:induction false} ObjectPersists(s: Sys, steps: seq<Step>)
    requires Newest(s.history).Some? && IsRun(s, steps)
    ensures Newest(Exec(s, steps).history).Some? && !Accepts(Newest(Exec(s, steps).history), None)
    decreases |steps|
  {
    if steps != [] { ObjectPersists(Do(s, steps[0]), steps[1..]); }
  }

  /** A call prepares a create exactly when it publishes an entry and its read still shows no object, which only the
      oldest version can. So a call that lost the create race updates on its retry unless its cache is still there. */
  lemma CreatesIff(s: Sys, initial: Mapping, at: nat, mut: Mutation)
    requires Inv(s, initial) && at < |s.history|
    ensures Decide(s.history[at], mut).Writing? && Decide(s.history[at], mut).seen.None? <==>
            at == 0 && s.history[0].None? && mut.Ensure?
  {
    hide ApplyAll;
    assert at > 0 ==> Precedes(s.history[0], s.history[at]);
    var none: Mapping := map[];
    if mut.Ensure? { assert mut.tenant in Mutate(none, mut); } else { assert Mutate(none, mut) == none; }
  }

  /** A call that would change nothing writes nothing: it returns nil from its read. */
  lemma NoOpWritesNothing(seen: Option<ConfigMap>, mut: Mutation)
    requires seen.Some? ==> seen.value.raw.Encoded?
    ensures Decide(seen, mut) == Returned(mut, true) <==>
            Lookup(Published(seen).value, mut.tenant) == Wanted(mut)
  {
    var m := Published(seen).value;
    if Lookup(m, mut.tenant) == Wanted(mut) { assert Mutate(m, mut) == m; }
    else { assert Lookup(Mutate(m, mut), mut.tenant) == Wanted(mut); }
  }

  /** An object whose text is missing is read as an empty mapping and always written; one whose text cannot be read is
      an error and stays. */
  lemma UnusualTexts(version: nat, mut: Mutation)
    ensures var none: Mapping := map[];
            var seen := Some(ConfigMap(version, Blank)); Decide(seen, mut) == Writing(mut, seen, Mutate(none, mut))
    ensures Decide(Some(ConfigMap(version, Malformed)), mut) == Returned(mut, false)
  {
  }

  // ---- One call among rivals ----

  /** One pass through the code: whether and with which version its read answers, which rivals commit before its own
      write arrives, and how that write goes. */
  datatype Round = Round(answers: bool, at: nat, rivals: seq<Mutation>, fault: Fault)

  function ViewIndex(h: History, at: nat): (i: nat)
    ensures i < |h|
  {
    if at < |h| then at else |h| - 1
  }

  /** A rival that reads the newest version and writes at once, if it has anything to write. */
  function WithRival(h: History, mut: Mutation): History {
    match Decide(Newest(h), mut)
    case Writing(_, _, desired) => Grown(h, desired)
    case _ => h
  }

  function WithRivals(h: History, rivals: seq<Mutation>): History {
    if rivals == [] then h else WithRival(WithRivals(h, rivals[..|rivals| - 1]), rivals[|rivals| - 1])
  }

  datatype Outcome = Outcome(history: History, ok: bool, wrote: bool)

  /** The call from its first read on; when the rounds run out its read fails. */
  function Attempted(h: History, mut: Mutation, rounds: seq<Round>): Outcome
    decreases |rounds|
  {
    if rounds == [] || !rounds[0].answers then Outcome(h, false, false)
    else match Decide(h[ViewIndex(h, rounds[0].at)], mut)
      case Writing(_, seen, desired) =>
        var h', fault := WithRivals(h, rounds[0].rivals), rounds[0].fault;
        if fault.Before? then Outcome(h', false, false)
        else if Accepts(Newest(h'), seen) then Outcome(Grown(h', desired), fault.Clean?, true)
        else if seen.None? && fault.Clean? then Attempted(h', mut, rounds[1..])
        else Outcome(h', false, false)
      case decided => Outcome(h, decided.Returned? && decided.ok, false)
  }

  lemma {:induction false} RivalsVersioned(h: History, rivals: seq<Mutation>)
    requires Versioned(h)
    ensures Versioned(WithRivals(h, rivals)) && h <= WithRivals(h, rivals)
    decreases |rivals|
  {
    if rivals != [] {
      hide Versioned;
      var front, last := WithRivals(h, rivals[..|rivals| - 1]), rivals[|rivals| - 1];
      RivalsVersioned(h, rivals[..|rivals| - 1]);
      var call := Decide(Newest(front), last);
      if call.Writing? { GrownIsVersioned(front, call.desired); }
    }
  }

  /** From versions h the call keeps them all; if it writes, it applies its mutation to the newest; and if it returns
      nil without writing, some version held the entry as asked. */
  predicate Safe(h: History, mut: Mutation, o: Outcome) {
    && Versioned(o.history) && h <= o.history
    && (o.wrote ==>
          var n := |o.history|;
          && n >= 2 && Published(o.history[n - 2]).Some?
          && Published(o.history[n - 1]) == Some(Mutate(Published(o.history[n - 2]).value, mut)))
    && (o.ok && !o.wrote ==> exists k :: 0 <= k < |o.history| && AsAsked(o.history[k], mut))
  }

  /** Whatever rivals commit, however stale the reads and however the writes go, the call is safe, and a write is
      reported as an error only if its answer was lost. */
  lemma {:induction false} AttemptIsSafe(h: History, mut: Mutation, rounds: seq<Round>)
    requires Versioned(h)
    ensures Safe(h, mut, Attempted(h, mut, rounds))
    ensures Attempted(h, mut, rounds).wrote && (forall r <- rounds :: !r.fault.After?) ==> Attempted(h, mut, rounds).ok
    decreases |rounds|
  {
    hide Versioned, Safe, WithRivals, Decide, Published, Grown, Accepts;
    if rounds == [] || !rounds[0].answers {
      NothingIsSafe(h, h, mut);
    } else {
      var h', call := WithRivals(h, rounds[0].rivals), Decide(h[ViewIndex(h, rounds[0].at)], mut);
      RivalsVersioned(h, rounds[0].rivals);
      NothingIsSafe(h, h', mut);
      if !call.Writing? {
        ReadIsSafe(h, ViewIndex(h, rounds[0].at), mut);
      } else if Accepts(Newest(h'), call.seen) {
        WriteIsSafe(h, ViewIndex(h, rounds[0].at), h', mut, rounds[0].fault.Clean?);
      } else {
        AttemptIsSafe(h', mut, rounds[1..]);
        SafeFromEarlier(h, h', mut, Attempted(h', mut, rounds[1..]));
      }
    }
  }

  lemma NothingIsSafe(h: History, h': History, mut: Mutation)
    requires Versioned(h') && h <= h'
    ensures Safe(h, mut, Outcome(h', false, false))
  {
  }

  lemma SafeFromEarlier(h: History, h': History, mut: Mutation, o: Outcome)
    requires h <= h' && Safe(h', mut, o)
    ensures Safe(h, mut, o)
  {
    hide Versioned, Published, Mutate, AsAsked;
  }

  lemma ReadIsSafe(h: History, i: nat, mut: Mutation)
    requires Versioned(h) && i < |h| && !Decide(h[i], mut).Writing?
    ensures var call := Decide(h[i], mut); Safe(h, mut, Outcome(h, call.Returned? && call.ok, false))
  {
    var call := Decide(h[i], mut);
    if call.Returned? && call.ok { SkipMeansAsAsked(h[i], mut); }
    hide Versioned, AsAsked, Decide;
  }

  lemma WriteIsSafe(h: History, i: nat, h': History, mut: Mutation, ok: bool)
    requires Versioned(h') && i < |h| && h <= h' && Decide(h[i], mut).Writing? &&
             Accepts(Newest(h'), Decide(h[i], mut).seen)
    ensures Safe(h, mut, Outcome(Grown(h', Decide(h[i], mut).desired), ok, true))
  {
    var call := Decide(h[i], mut);
    assert h'[i] == call.seen;
    AcceptedIsNewest(h', call.seen);
    GrownIsVersioned(h', call.desired);
    hide Versioned, Mutate;
  }

  predicate AsAsked(stored: Option<ConfigMap>, mut: Mutation) {
    Published(stored).Some? && Lookup(Published(stored).value, mut.tenant) == Wanted(mut)
  }

  lemma SkipMeansAsAsked(seen: Option<ConfigMap>, mut: Mutation)
    requires Decide(seen, mut) == Returned(mut, true)
    ensures AsAsked(seen, mut)
  {
    assert Lookup(Mutate(Published(seen).value, mut), mut.tenant) == Wanted(mut);
  }

  lemma {:induction false} RunConcat(s: Sys, a: seq<Step>, b: seq<Step>)
    requires IsRun(s, a) && IsRun(Exec(s, a), b)
    ensures IsRun(s, a + b) && Exec(s, a + b) == Exec(Exec(s, a), b)
    decreases |a|
  {
    hide Do, Enabled;
    if a == [] {
      assert a + b == b;
    } else {
      assert (a + b)[1..] == a[1..] + b;
      RunConcat(Do(s, a[0]), a[1..], b);
    }
  }

  lemma OneStep(s: Sys, a: Step)
    requires Enabled(s, a)
    ensures IsRun(s, [a]) && Exec(s, [a]) == Do(s, a)
  {
    hide Do, Enabled;
    assert [a][1..] == [] && IsRun(Do(s, a), []) && Exec(Do(s, a), []) == Do(s, a);
  }

  /** Caller 1 is free. */
  predicate RivalIdle(s: Sys) { 1 in s.calls ==> s.calls[1].Returned? }

  /** Caller 0 is where it was, caller 1 is free, and commits were only added. */
  predicate OnlyRivals(s: Sys, s': Sys) {
    0 in s.calls && 0 in s'.calls && s'.calls[0] == s.calls[0] && RivalIdle(s') && s.commits <= s'.commits
  }

  /** A rival's read and write are steps of the protocol. */
  lemma RivalIsRun(s: Sys, mut: Mutation) returns (steps: seq<Step>)
    requires 0 in s.calls && RivalIdle(s)
    ensures IsRun(s, steps) && Exec(s, steps).history == WithRival(s.history, mut) && OnlyRivals(s, Exec(s, steps))
  {
    var newest := |s.history| - 1;
    var begin, get, write := Begin(1, mut), Get(1, true, newest), Write(1, Clean);
    var s1 := Do(s, begin);
    var s2 := Do(s1, get);
    assert s2.calls[1] == Decide(Newest(s.history), mut) && s2.history == s.history;
    TwoSteps(s, begin, get);
    if s2.calls[1].Writing? {
      assert s2.calls[1].seen == Newest(s.history);
      OneStep(s2, write);
      hide IsRun, Exec, Decide;
      RunConcat(s, [begin, get], [write]);
      steps := [begin, get] + [write];
    } else {
      steps := [begin, get];
    }
  }

  lemma {:induction false} RivalsAreRun(s: Sys, rivals: seq<Mutation>) returns (steps: seq<Step>)
    requires 0 in s.calls && RivalIdle(s)
    ensures IsRun(s, steps) && Exec(s, steps).history == WithRivals(s.history, rivals) && OnlyRivals(s, Exec(s, steps))
    decreases |rivals|
  {
    hide WithRival, Do, Enabled;
    if rivals == [] {
      steps := [];
    } else {
      var front := RivalsAreRun(s, rivals[..|rivals| - 1]);
      var last := RivalIsRun(Exec(s, front), rivals[|rivals| - 1]);
      RunConcat(s, front, last);
      steps := front + last;
    }
  }

  /** The call stands at s with this outcome ahead: returned with it, or about to read again with its later rounds. */
  predicate Stands(s: Sys, mut: Mutation, o: Outcome, later: seq<Round>) {
    && 0 in s.calls && RivalIdle(s)
    && if s.calls[0].Getting? then s.calls[0] == Getting(mut) && o == Attempted(s.history, mut, later)
       else s.history == o.history && s.calls[0] == Returned(mut, o.ok) &&
            (o.wrote ==> s.commits != [] && s.commits[|s.commits| - 1] == mut)
  }

  /** The call among its rivals is a run of the protocol: the versions it leaves, what it returns and whether it commits
      are those of the protocol's steps. So everything proved of runs holds of it. */
  lemma {:induction false} AttemptIsRun(s: Sys, mut: Mutation, rounds: seq<Round>) returns (steps: seq<Step>)
    requires 0 in s.calls && s.calls[0] == Getting(mut) && RivalIdle(s)
    ensures IsRun(s, steps)
    ensures var end, o := Exec(s, steps), Attempted(s.history, mut, rounds);
            && end.history == o.history && 0 in end.calls && end.calls[0] == Returned(mut, o.ok)
            && s.commits <= end.commits && (o.wrote ==> end.commits != [] && end.commits[|end.commits| - 1] == mut)
    decreases |rounds|
  {
    hide IsRun, Exec, Do, Enabled, Decide, Attempted;
    steps := RoundIsRun(s, mut, rounds);
    var next := Exec(s, steps);
    if next.calls[0].Getting? {
      var rest := AttemptIsRun(next, mut, rounds[1..]);
      RunConcat(s, steps, rest);
      steps := steps + rest;
    }
  }

  lemma RoundIsRun(s: Sys, mut: Mutation, rounds: seq<Round>) returns (steps: seq<Step>)
    requires 0 in s.calls && s.calls[0] == Getting(mut) && RivalIdle(s)
    ensures IsRun(s, steps) && s.commits <= Exec(s, steps).commits
    ensures 0 in Exec(s, steps).calls && (Exec(s, steps).calls[0].Getting? ==> rounds != [])
    ensures Stands(Exec(s, steps), mut, Attempted(s.history, mut, rounds), if rounds == [] then [] else rounds[1..])
  {
    if rounds == [] || !rounds[0].answers {
      steps := [Get(0, false, 0)];
      OneStep(s, steps[0]);
    } else {
      var get, write := Get(0, true, ViewIndex(s.history, rounds[0].at)), Write(0, rounds[0].fault);
      var s1 := Do(s, get);
      if s1.calls[0].Writing? {
        hide IsRun, Exec;
        var rivals := RivalsAreRun(s1, rounds[0].rivals);
        RunThree(s, get, rivals, write);
        steps := [get] + rivals + [write];
        AfterWrite(s, Exec(s1, rivals), mut, rounds);
        hide *;
      } else {
        OneStep(s, get);
        steps := [get];
      }
    }
  }

  lemma RunThree(s: Sys, get: Step, rivals: seq<Step>, write: Step)
    requires Enabled(s, get) && IsRun(Do(s, get), rivals) && Enabled(Exec(Do(s, get), rivals), write)
    ensures IsRun(s, [get] + rivals + [write])
    ensures Exec(s, [get] + rivals + [write]) == Do(Exec(Do(s, get), rivals), write)
  {
    hide Do, Enabled, IsRun, Exec;
    OneStep(s, get);
    OneStep(Exec(Do(s, get), rivals), write);
    RunConcat(s, [get], rivals);
    RunConcat(s, [get] + rivals, [write]);
  }

  /** What the write of a round does, in the protocol and in the call. */
  lemma AfterWrite(s: Sys, s2: Sys, mut: Mutation, rounds: seq<Round>)
    requires rounds != [] && rounds[0].answers && 0 in s2.calls && RivalIdle(s2) && s.commits <= s2.commits
    requires s2.calls[0].Writing? && s2.calls[0] == Decide(s.history[ViewIndex(s.history, rounds[0].at)], mut)
    requires s2.history == WithRivals(s.history, rounds[0].rivals)
    ensures var s3 := Do(s2, Write(0, rounds[0].fault));
            0 in s3.calls && s.commits <= s3.commits && Stands(s3, mut, Attempted(s.history, mut, rounds), rounds[1..])
  {
    hide WithRivals, Mutate, Published;
  }

  // ---- The code's form ----

  datatype CreateResult = Created | AlreadyExists | CreateFailed

  class ApiServer {
    var history: History

    constructor (stored: Option<ConfigMap>)
      ensures history == [stored]
    {
      history := [stored];
    }

    method Create(desired: Mapping, fault: Fault) returns (r: CreateResult)
      modifies this
      ensures var absent := old(Newest(history)).None?;
              && history == (if !fault.Before? && absent then old(Grown(history, desired)) else old(history))
              && r == if !fault.Clean? then CreateFailed else if absent then Created else AlreadyExists
    {
      if fault.Before? {
        return CreateFailed;
      }
      var absent := Newest(history).None?;
      if absent {
        history := Grown(history, desired);
      }
      return if fault.After? then CreateFailed else if absent then Created else AlreadyExists;
    }

    method Update(seen: ConfigMap, desired: Mapping, fault: Fault) returns (ok: bool)
      modifies this
      ensures var current := old(Newest(history)).Some? && old(Newest(history)).value.version == seen.version;
              && history == (if !fault.Before? && current then old(Grown(history, desired)) else old(history))
              && ok == (fault.Clean? && current)
    {
      if fault.Before? {
        return false;
      }
      var current := Newest(history).Some? && Newest(history).value.version == seen.version;
      if current {
        history := Grown(history, desired);
      }
      return fault.Clean? && current;
    }
  }

  /** Read, mutate, write back; retry when the create race is lost. */
  method MutateTenantPartitionMap(server: ApiServer, mut: Mutation, rounds: seq<Round>) returns (ok: bool)
    modifies server
    ensures var o := Attempted(old(server.history), mut, rounds); server.history == o.history && ok == o.ok
    decreases |rounds|
  {
    hide WithRivals;
    if rounds == [] || !rounds[0].answers {
      return false;
    }
    var seen := server.history[ViewIndex(server.history, rounds[0].at)];
    var mapping := Published(seen);
    if mapping.None? {
      return false;
    }
    var desired := Mutate(mapping.value, mut);
    if seen.None? && desired == map[] {
      return true;
    }
    if seen.Some? && seen.value.raw == Encoded(desired) {
      return true;
    }
    server.history := WithRivals(server.history, rounds[0].rivals);
    if seen.None? {
      var created := server.Create(desired, rounds[0].fault);
      if created.AlreadyExists? {
        ok := MutateTenantPartitionMap(server, mut, rounds[1..]);
        return;
      }
      return created.Created?;
    }
    ok := server.Update(seen.value, desired, rounds[0].fault);
  }
}
