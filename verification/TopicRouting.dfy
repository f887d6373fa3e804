/** Routing under hot reload: the shared reservation state is swapped as a whole, and the topic's table is
    rebuilt whenever that state or the partition count is no longer the one it was built from. */
module TopicRouting {
  import opened GoInts
  import opened Reservations
  import opened PartitionTable
  import opened PartitionLists

  // ---- Record keys ----

  function Join(tenant: string, instrument: string): string {
    tenant + ":" + instrument
  }

  function ColonIndex(key: string): (i: nat)
    ensures i <= |key| && (forall k | 0 <= k < i :: key[k] != ':') && (i < |key| ==> key[i] == ':')
  {
    if key == [] || key[0] == ':' then 0 else 1 + ColonIndex(key[1..])
  }

  function Split(key: string): Request {
    var i := ColonIndex(key);
    if i < |key| then Request(key[..i], key[i + 1..]) else Request(key, [])
  }

  /** A key splits back into its parts exactly when the tenant ID holds no colon. */
  lemma SplitJoinIff(tenant: string, instrument: string)
    ensures Split(Join(tenant, instrument)) == Request(tenant, instrument) <==> ':' !in tenant
  {
    var key := Join(tenant, instrument);
    var i := ColonIndex(key);
    assert key[|tenant|] == ':';
    assert forall k | 0 <= k < |tenant| :: key[k] == tenant[k];
    if ':' !in tenant {
      assert i == |tenant|;
      assert key[..i] == tenant && key[i + 1..] == instrument;
    } else {
      var k :| 0 <= k < |tenant| && tenant[k] == ':';
      assert i <= k;
    }
  }

  predicate ValidTenantChar(c: char) { 'a' <= c <= 'z' || '0' <= c <= '9' || c == '-' }

  predicate ValidTenantID(tenant: string) {
    1 <= |tenant| <= 64 && forall i | 0 <= i < |tenant| :: ValidTenantChar(tenant[i])
  }

  /** One to 64 bytes, each a lower-case ASCII letter, a digit or a hyphen by its code. */
  method IsValidTenantID(tenant: string) returns (ok: bool)
    ensures ok <==> ValidTenantID(tenant)
    ensures ok <==> 0 < |tenant| < 65 &&
                    forall i | 0 <= i < |tenant| ::
                      var code := tenant[i] as int; 97 <= code <= 122 || 48 <= code <= 57 || code == 45
  {
    if |tenant| == 0 || |tenant| > 64 {
      return false;
    }
    var i := 0;
    while i < |tenant|
      invariant 0 <= i <= |tenant| && forall k | 0 <= k < i :: ValidTenantChar(tenant[k])
    {
      if !(('a' <= tenant[i] <= 'z') || ('0' <= tenant[i] <= '9')) && tenant[i] != '-' {
        return false;
      }
      i := i + 1;
    }
    return true;
  }

  // ---- Reload ----

  /** What a loaded mapping becomes: its counts, or nothing when some count is below one. */
  function LoadCounts(entries: map<string, Entry>): Option<Config> {
    if forall id <- entries :: entries[id].count >= 1 then Some(map id | id in entries :: entries[id].count) else None
  }

  method Load(entries: map<string, Entry>) returns (r: Option<Config>)
    ensures r == LoadCounts(entries)
    ensures r.Some? <==> forall id <- entries :: entries[id].count >= 1
    ensures r.Some? ==> r.value.Keys == entries.Keys && forall id <- entries :: r.value[id] == entries[id].count
  {
    var reserved: Config := map[];
    var left := entries.Keys;
    while left != {}
      invariant left <= entries.Keys
      invariant reserved.Keys == entries.Keys - left
      invariant forall id <- reserved :: entries[id].count >= 1 && reserved[id] == entries[id].count
      decreases |left|
    {
      var id :| id in left;
      if entries[id].count < 1 {
        return None;
      }
      reserved := reserved[id := entries[id].count];
      left := left - {id};
    }
    assert reserved == map id | id in entries :: entries[id].count;
    return Some(reserved);
  }

  /** The state behind the atomic pointer; `generation` stands for the pointer's identity, which every
      store makes anew even for equal contents. */
  datatype Shared = Shared(generation: nat, reserved: Config, defaultSize: int32)

  datatype Held = Held(state: Shared, table: Table)

  datatype Topic = Topic(shared: Shared, held: Option<Held>)

  /** A poll of the mapping (None when it cannot be loaded), or a record to route. */
  datatype Op = Reload(entries: Option<map<string, Entry>>, defaultSize: int32) | Route(key: string, total: int32)

  ghost function Fresh(s: Shared, total: int32): Table {
    NewTable(s.reserved, s.defaultSize, total)
  }

  /** What a call works with: the held table if it is still current, else one built from the state just loaded. */
  ghost function CurrentHeld(topic: Topic, total: int32): Held {
    if topic.held.Some? && topic.held.value.state.generation == topic.shared.generation &&
        topic.held.value.table.total == total
    then topic.held.value
    else Held(topic.shared, Fresh(topic.shared, total))
  }

  ghost function Current(topic: Topic, total: int32): Table { CurrentHeld(topic, total).table }

  function Reloaded(s: Shared, entries: Option<map<string, Entry>>, defaultSize: int32): Shared {
    if entries.None? then s
    else match LoadCounts(entries.value)
      case None => s
      case Some(reserved) => Shared(s.generation + 1, reserved, defaultSize)
  }

  ghost function Do(topic: Topic, op: Op): Topic {
    match op
    case Reload(entries, d) => topic.(shared := Reloaded(topic.shared, entries, d))
    case Route(key, total) => var h := CurrentHeld(topic, total);
        topic.(held := Some(h.(table := After(h.table, Split(key).tenant))))
  }

  ghost function RoutedTo(topic: Topic, key: string, total: int32): Option<int32> {
    PartitionOf(Current(topic, total), Split(key).tenant, Split(key).instrument)
  }

  ghost function Exec(topic: Topic, ops: seq<Op>): Topic {
    if ops == [] then topic else Do(Exec(topic, ops[..|ops| - 1]), ops[|ops| - 1])
  }

  function Initial(reserved: Config, defaultSize: int32): Topic {
    Topic(Shared(0, reserved, defaultSize), None)
  }

  // ---- The code's objects ----

  class TenantPartitioner {
    var state: Shared

    constructor (reserved: Config, defaultSize: int32)
      ensures state == Shared(0, reserved, defaultSize)
    {
      state := Shared(0, reserved, defaultSize);
    }

    method UpdateReservations(reserved: Config, defaultSize: int32)
      modifies this
      ensures state == Shared(old(state).generation + 1, reserved, defaultSize)
    {
      state := Shared(state.generation + 1, reserved, defaultSize);
    }

    /** One poll: a mapping that cannot be loaded leaves the reservations as they are. */
    method ReloadOnce(entries: Option<map<string, Entry>>, defaultSize: int32)
      modifies this
      ensures state == Reloaded(old(state), entries, defaultSize)
    {
      if entries.None? {
        return;
      }
      var reserved := Load(entries.value);
      if reserved.None? {
        return;
      }
      UpdateReservations(reserved.value, defaultSize);
    }
  }

  class TopicPartitioner {
    const shared: TenantPartitioner
    var state: Shared
    var table: ReservationTable?

    constructor (shared: TenantPartitioner)
      ensures this.shared == shared && View() == Topic(shared.state, None)
    {
      this.shared, this.state, this.table := shared, shared.state, null;
    }

    ghost function View(): Topic
      reads this, shared, table
    {
      Topic(shared.state, if table == null then None else Some(Held(state, table.table)))
    }

    method Partition(key: string, total: int32) returns (p: Option<int32>)
      modifies this, table
      ensures p == old(RoutedTo(View(), key, total))
      ensures View() == old(Do(View(), Route(key, total)))
    {
      hide After, PartitionOf;
      var current := shared.state;
      if table == null || state.generation != current.generation || table.table.total != total {
        state := current;
        table := new ReservationTable(current.reserved, current.defaultSize, total);
      }
      var request := Split(key);
      p := table.PartitionFor(request.tenant, request.instrument);
    }
  }

  // ---- What every interleaving keeps ----

  /** Same explicit blocks and the same pool bounds. */
  ghost predicate SameBuild(t: Table, built: Table) {
    t.explicit == built.explicit && t.total == built.total && t.defaultSize == built.defaultSize &&
    t.poolStart == built.poolStart && t.poolSize == built.poolSize && t.dropped == built.dropped
  }

  ghost predicate Usable(s: Shared, total: int32) {
    Buildable(s.reserved, total) && (total > 1 || s.reserved == map[])
  }

  ghost predicate Inv(topic: Topic) {
    topic.held.Some? ==>
      var h := topic.held.value;
      && h.state.generation <= topic.shared.generation
      && (h.state.generation == topic.shared.generation ==> h.state == topic.shared)
      && SameBuild(h.table, Fresh(h.state, h.table.total))
      && (Usable(h.state, h.table.total) ==> Good(h.table))
  }

  lemma FreshHeld(s: Shared, total: int32)
    ensures var t := Fresh(s, total); SameBuild(t, Fresh(s, t.total)) && (Usable(s, t.total) ==> Good(t))
  {
    var t := Fresh(s, total);
    assert Fresh(s, t.total) == t;
    if Usable(s, t.total) { NewTableGood(s.reserved, s.defaultSize, t.total); }
    hide NewTable, Good, Buildable;
  }

  lemma StepInv(topic: Topic, op: Op)
    requires Inv(topic)
    ensures Inv(Do(topic, op))
  {
    hide NewTable, Good, Buildable, After, Split, LoadCounts;
    match op
    case Reload(_, _) =>
    case Route(key, total) =>
      FreshHeld(topic.shared, total);
      RouteKeeps(Current(topic, total), CurrentHeld(topic, total).state, Split(key).tenant);
  }

  lemma RouteKeeps(t: Table, s: Shared, tenant: string)
    requires SameBuild(t, Fresh(s, t.total)) && (Usable(s, t.total) ==> Good(t))
    ensures var t' := After(t, tenant); SameBuild(t', Fresh(s, t'.total)) && (Usable(s, t'.total) ==> Good(t'))
  {
    if Usable(s, t.total) { StepGood(t, tenant); }
    hide NewTable, Good, Buildable, Offer;
  }

  lemma {:induction false} RunInv(topic: Topic, ops: seq<Op>)
    requires Inv(topic)
    ensures Inv(Exec(topic, ops))
    decreases |ops|
  {
    if ops != [] {
      RunInv(topic, ops[..|ops| - 1]);
      StepInv(Exec(topic, ops[..|ops| - 1]), ops[|ops| - 1]);
    }
  }

  /** A freshly made partitioner, holding no table yet, keeps the invariant for good. */
  lemma RunFromStart(reserved: Config, defaultSize: int32, ops: seq<Op>)
    ensures Inv(Exec(Initial(reserved, defaultSize), ops))
  {
    RunInv(Initial(reserved, defaultSize), ops);
  }

  /** After any interleaving of reloads, resizes and calls, a tenant with an explicit block is routed as by a
      table built afresh from the state just loaded. */
  lemma ExplicitAgreesWithFresh(topic: Topic, ops: seq<Op>, key: string, total: int32)
    requires Inv(topic)
    requires var now := Exec(topic, ops); Split(key).tenant in Fresh(now.shared, total).explicit
    ensures var now := Exec(topic, ops);
            RoutedTo(now, key, total) == PartitionOf(Fresh(now.shared, total), Split(key).tenant, Split(key).instrument)
  {
    RunInv(topic, ops);
    hide NewTable, Hash, Buildable, Good;
  }

  /** A poll that loads: the mapping is there and no count is below one. */
  predicate Loads(op: Op) {
    op.Reload? && op.entries.Some? && forall id <- op.entries.value :: op.entries.value[id].count >= 1
  }

  /** The state in force reserves for each tenant of the mapping its own count, and for nobody else. */
  predicate InForce(s: Shared, op: Op)
    requires Loads(op)
  {
    && s.reserved.Keys == op.entries.value.Keys && s.defaultSize == op.defaultSize
    && forall id <- op.entries.value :: s.reserved[id] == op.entries.value[id].count
  }

  /** Whatever fails to load afterwards, the reservations in force are those of the last mapping that loaded, and the
      initial ones while none has. */
  lemma {:induction false} ReservationsAreLastGood(topic: Topic, ops: seq<Op>, k: nat)
    requires k < |ops| ==> Loads(ops[k])
    requires k <= |ops| && forall j | k < j < |ops| :: !Loads(ops[j])
    ensures k < |ops| ==> InForce(Exec(topic, ops).shared, ops[k])
    ensures (forall j | 0 <= j < |ops| :: !Loads(ops[j])) ==> Exec(topic, ops).shared == topic.shared
    decreases |ops|
  {
    if ops != [] {
      var n := |ops| - 1;
      hide After, CurrentHeld;
      if k == |ops| {
        if !Loads(ops[n]) { ReservationsAreLastGood(topic, ops[..n], n); }
      } else if k < n {
        ReservationsAreLastGood(topic, ops[..n], k);
        assert ops[..n][k] == ops[k];
      }
    }
  }

  // ---- Stability between swaps ----

  /** A stretch of calls with one partition count and no reload between them. */
  function Routes(keys: seq<string>, total: int32): seq<Op> {
    seq(|keys|, i requires 0 <= i < |keys| => Route(keys[i], total))
  }

  function Requests(keys: seq<string>): seq<Request> {
    seq(|keys|, i requires 0 <= i < |keys| => Split(keys[i]))
  }

  lemma {:induction false} StretchTables(topic: Topic, keys: seq<string>, total: int32)
    requires Inv(topic) && total >= 1
    ensures var now := Exec(topic, Routes(keys, total));
            now.shared == topic.shared && Current(now, total) == TableAfter(Current(topic, total), Requests(keys))
    ensures TableAfter(Current(topic, total), Requests(keys)).total == total
    decreases |keys|
  {
    hide NewTable, Offer;
    if keys == [] {
      FreshTotal(topic.shared, total);
    } else {
      var n := |keys| - 1;
      var front := keys[..n];
      assert Routes(keys, total)[..n] == Routes(front, total);
      assert Requests(keys)[..n] == Requests(front);
      StretchTables(topic, front, total);
    }
  }

  lemma FreshTotal(s: Shared, total: int32)
    requires total >= 1
    ensures Fresh(s, total).total == total
  {
  }

  /** Between swaps of the state and of the count every record key keeps one partition. */
  lemma StableBetweenSwaps(topic: Topic, keys: seq<string>, total: int32, i: nat, j: nat)
    requires Inv(topic) && Usable(topic.shared, total) && total >= 1 && i < j < |keys| && keys[i] == keys[j]
    ensures RoutedTo(Exec(topic, Routes(keys[..i], total)), keys[i], total)
            == RoutedTo(Exec(topic, Routes(keys[..j], total)), keys[j], total)
  {
    StretchTables(topic, keys[..i], total);
    StretchTables(topic, keys[..j], total);
    FreshHeld(topic.shared, total);
    FreshTotal(topic.shared, total);
    hide NewTable, Good, Buildable, PartitionOf, Exec;
    var t, calls := Current(topic, total), Requests(keys);
    assert Requests(keys[..i]) == calls[..i] && Requests(keys[..j]) == calls[..j];
    RoutingIsStable(t, calls, i, j);
  }

  /** Through any reloads and resizes, a record goes to its tenant's block of a table built from the state just loaded,
      and there to the partition its instrument's hash picks; a tenant without a block goes to the pool. */
  lemma RoutedByHash(topic: Topic, ops: seq<Op>, key: string, total: int32)
    requires Inv(topic) && total >= 1 && Usable(Exec(topic, ops).shared, total)
    ensures var now, req := Exec(topic, ops), Split(key);
            var t := Fresh(now.shared, total);
            && RoutedTo(now, key, total).Some?
            && (req.tenant in t.explicit ==>
                  var r := t.explicit[req.tenant];
                  r.size >= 1 && RoutedTo(now, key, total).value == r.start + Hash(req.instrument) % r.size)
            && (req.tenant !in t.explicit ==> t.poolStart <= RoutedTo(now, key, total).value < total)
  {
    RunInv(topic, ops);
    var now, req := Exec(topic, ops), Split(key);
    FreshHeld(now.shared, total);
    FreshTotal(now.shared, total);
    var t := Current(now, total);
    hide NewTable, Buildable, Exec, Split, Hash, InRange;
    RangeForWithin(t, req.tenant);
    var from := if req.tenant in t.explicit then 0 else t.poolStart;
    assert RangeFor(t, req.tenant).value.Within(from, t.total) by { ExplicitWithin(t, req.tenant); }
    InRangeIs(RangeFor(t, req.tenant).value, from, t.total, req.instrument);
    ModBelow(Hash(req.instrument), RangeFor(t, req.tenant).value.size);
  }

  lemma ModBelow(h: nat, size: int)
    requires size >= 1
    ensures 0 <= h % size < size
  {
  }

  /** Keys of validated tenants: no other tenant's record ever lands in a reserved block. */
  lemma ValidKeysAreIsolated(topic: Topic, ops: seq<Op>, tenant: string, instrument: string, owner: string,
      total: int32)
    requires Inv(topic) && ValidTenantID(tenant)
    requires var now := Exec(topic, ops);
             Usable(now.shared, total) && total >= 1 && owner in Fresh(now.shared, total).explicit
    ensures var now := Exec(topic, ops);
            var p := RoutedTo(now, Join(tenant, instrument), total);
            p.Some? && (Fresh(now.shared, total).explicit[owner].Has(p.value) <==> tenant == owner)
  {
    assert ':' !in tenant by { assert forall i | 0 <= i < |tenant| :: ValidTenantChar(tenant[i]); }
    SplitJoinIff(tenant, instrument);
    RunInv(topic, ops);
    var now := Exec(topic, ops);
    FreshHeld(now.shared, total);
    FreshTotal(now.shared, total);
    hide NewTable, Good, Buildable, PartitionOf, Exec, Split, Join;
    var t := Current(now, total);
    Isolation(t, [Request(tenant, instrument)], 0, owner);
    assert TableAfter(t, [Request(tenant, instrument)][..0]) == t;
  }
}
