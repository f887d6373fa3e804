/** Routing with one reservation table, over any sequence of calls. */
module PartitionTable {
  import opened GoInts
  import opened TenantOrder
  import opened Fnv1a
  import opened Reservations

  datatype Table = Table(total: int32, defaultSize: int32, explicit: map<string, Range>,
                         poolStart: int32, poolSize: int32, poolNext: int32, pool: map<string, Range>,
                             dropped: seq<string>)

  function Partitions(total: int32): int32 { if total < 1 then 1 else total }

  function Capacity(total: int32): int32 { if Partitions(total) > 1 then Partitions(total) - 1 else Partitions(total) }

  ghost function NewTable(reserved: Config, defaultSize: int32, total: int32): Table {
    var l := Carve(SortedOf(reserved.Keys), reserved, Capacity(total), 0, map[]);
    Table(Partitions(total), if defaultSize < 1 then 1 else defaultSize, l.explicit,
          l.cursor, Wrap32(Partitions(total) - l.cursor), l.cursor, map[], l.dropped)
  }

  /** No `cursor + size` of the build wraps. */
  ghost predicate Buildable(reserved: Config, total: int32) {
    NoWrap(SortedOf(reserved.Keys), reserved, Capacity(total), 0)
  }

  // ---- Routing ----

  /** What is left of the pool for a newcomer, at most the default block. */
  function Offer(t: Table): int32 {
    var remaining := Wrap32(Wrap32(t.poolStart + t.poolSize) - t.poolNext);
    if t.defaultSize > remaining then remaining else t.defaultSize
  }

  /** The tenant's range; None where the code divides by a zero pool size. */
  function RangeFor(t: Table, tenant: string): Option<Range> {
    if tenant in t.explicit then Some(t.explicit[tenant])
    else if tenant in t.pool then Some(t.pool[tenant])
    else if Offer(t) > 0 then Some(Range(t.poolNext, Offer(t)))
    else if t.poolSize == 0 then None
    else Some(Range(Wrap32(t.poolStart + Slot(tenant, t.poolSize)), 1))
  }

  function After(t: Table, tenant: string): Table {
    if tenant in t.explicit || tenant in t.pool || Offer(t) <= 0 then t
    else t.(poolNext := Wrap32(t.poolNext + Offer(t)), pool := t.pool[tenant := Range(t.poolNext, Offer(t))])
  }

  function InRange(r: Range, instrument: string): Option<int32> {
    if r.size == 0 then None else Some(Wrap32(r.start + Slot(instrument, r.size)))
  }

  function PartitionOf(t: Table, tenant: string, instrument: string): Option<int32> {
    match RangeFor(t, tenant)
    case None => None
    case Some(r) => InRange(r, instrument)
  }

  /** The loop over the sorted tenants. */
  method CarveBlocks(tenantIDs: seq<string>, reserved: Config, explicitCapacity: int32)
    returns (explicit: map<string, Range>, cursor: int32, droppedTenants: seq<string>)
    requires forall id <- tenantIDs :: id in reserved
    ensures Layout(explicit, cursor, droppedTenants) == Carve(tenantIDs, reserved, explicitCapacity, 0, map[])
  {
    hide Carve;
    explicit, cursor, droppedTenants := map[], 0, [];
    var index := 0;
    assert tenantIDs[0..] == tenantIDs;
    while index < |tenantIDs|
      invariant 0 <= index <= |tenantIDs|
      invariant forall id <- tenantIDs[index..] :: id in reserved
      invariant Carve(tenantIDs[index..], reserved, explicitCapacity, cursor, explicit)
                == Carve(tenantIDs, reserved, explicitCapacity, 0, map[])
    {
      var tenantID := tenantIDs[index];
      CarveUnfolds(tenantIDs, index, reserved, explicitCapacity, cursor, explicit);
      if cursor >= explicitCapacity {
        droppedTenants := tenantIDs[index..];
        return;
      }
      var size := reserved[tenantID];
      if size < 1 {
        size := 1;
      }
      if Wrap32(cursor + size) > explicitCapacity {
        size := Wrap32(explicitCapacity - cursor);
      }
      explicit := explicit[tenantID := Range(cursor, size)];
      cursor := Wrap32(cursor + size);
      index := index + 1;
    }
    assert tenantIDs[index..] == [];
    CarveEnds(reserved, explicitCapacity, cursor, explicit);
  }

  lemma CarveEnds(reserved: Config, capacity: int32, cursor: int32, explicit: map<string, Range>)
    ensures Carve([], reserved, capacity, cursor, explicit) == Layout(explicit, cursor, [])
  {
  }

  lemma CarveUnfolds(ids: seq<string>, i: nat, reserved: Config, capacity: int32, cursor: int32,
      explicit: map<string, Range>)
    requires i < |ids| && forall id <- ids[i..] :: id in reserved
    ensures ids[i] in reserved && forall id <- ids[i + 1..] :: id in reserved
    ensures Carve(ids[i..], reserved, capacity, cursor, explicit) ==
            if cursor >= capacity then Layout(explicit, cursor, ids[i..])
            else
              var size := Granted(Wanted(reserved, ids[i]), cursor, capacity);
              Carve(ids[i + 1..], reserved, capacity, Wrap32(cursor + size), explicit[ids[i] := Range(cursor, size)])
  {
    assert ids[i..][0] == ids[i] && ids[i..][1..] == ids[i + 1..];
    forall id <- ids[i + 1..] ensures id in ids[i..] { }
  }

  class ReservationTable {
    var table: Table

    constructor (reserved: Config, defaultSize: int32, totalPartitions: int32)
      ensures table == NewTable(reserved, defaultSize, totalPartitions)
    {
      hide Carve;
      var size: int32 := if defaultSize < 1 then 1 else defaultSize;
      var total: int32 := if totalPartitions < 1 then 1 else totalPartitions;
      var explicitCapacity := total;
      if total > 1 {
        explicitCapacity := total - 1;
      }
      var tenantIDs := SortKeys(reserved.Keys);
      SortedUnique(tenantIDs, SortedOf(reserved.Keys), reserved.Keys);
      var explicit, cursor, droppedTenants := CarveBlocks(tenantIDs, reserved, explicitCapacity);
      table := Table(total, size, explicit, cursor, Wrap32(total - cursor), cursor, map[], droppedTenants);
    }

    method PoolRangeFor(tenant: string) returns (r: Option<Range>)
      requires tenant !in table.explicit
      modifies this
      ensures r == old(RangeFor(table, tenant))
      ensures table == old(After(table, tenant))
    {
      if tenant in table.pool {
        return Some(table.pool[tenant]);
      }
      var size := table.defaultSize;
      var remaining := Wrap32(Wrap32(table.poolStart + table.poolSize) - table.poolNext);
      if size > remaining {
        size := remaining;
      }
      if size <= 0 {
        if table.poolSize == 0 {
          return None;
        }
        var h := HashBytes(tenant);
        return Some(Range(Wrap32(table.poolStart + Wrap32(Below(h, Unsigned(table.poolSize)))), 1));
      }
      var rng := Range(table.poolNext, size);
      table := table.(poolNext := Wrap32(table.poolNext + size), pool := table.pool[tenant := rng]);
      return Some(rng);
    }

    method PartitionFor(tenant: string, instrument: string) returns (p: Option<int32>)
      modifies this
      ensures p == old(PartitionOf(table, tenant, instrument))
      ensures table == old(After(table, tenant))
    {
      var rng: Option<Range>;
      if tenant in table.explicit {
        rng := Some(table.explicit[tenant]);
      } else {
        rng := PoolRangeFor(tenant);
      }
      if rng.None? || rng.value.size == 0 {
        return None;
      }
      var h := HashBytes(instrument);
      return Some(Wrap32(rng.value.start + Wrap32(Below(h, Unsigned(rng.value.size)))));
    }
  }

  // ---- What a table keeps ----

  ghost predicate AllDisjoint(ranges: map<string, Range>) {
    forall a, b | a in ranges && b in ranges && a != b :: ranges[a].Disjoint(ranges[b])
  }

  /** The part fixed at construction. */
  ghost predicate Sound(t: Table) {
    && t.defaultSize >= 1 && 0 <= t.poolStart && t.poolSize >= 1 && t.poolStart + t.poolSize == t.total
    && (forall a <- t.explicit :: t.explicit[a].Within(0, t.poolStart))
    && AllDisjoint(t.explicit)
  }

  /** The pool as handed out so far: disjoint blocks packed below poolNext, each newcomer having taken a
      default block or the remainder. */
  ghost predicate PoolSound(t: Table) {
    && t.poolStart <= t.poolNext <= t.total
    && (forall a <- t.pool :: a !in t.explicit && t.pool[a].Within(t.poolStart, t.poolNext))
    && (forall a <- t.pool :: t.pool[a].size == t.defaultSize || t.pool[a].start + t.pool[a].size == t.total)
    && AllDisjoint(t.pool)
    && t.poolNext - t.poolStart == Min(t.poolSize, Blocks(|t.pool|, t.defaultSize))
  }

  ghost predicate Good(t: Table) { Sound(t) && PoolSound(t) }

  /** The partitions that `count` default blocks would take. */
  function Blocks(count: int, size: int): int { count * size }

  function Min(a: int, b: int): int { if a < b then a else b }

  /** A build without wrap: the explicit blocks tile [0, poolStart) in tenant order, within the capacity,
      and the dropped tenants are the rest of that order. */
  lemma TableIsTiled(reserved: Config, defaultSize: int32, total: int32) returns (n: int)
    requires Buildable(reserved, total)
    ensures var t, ids := NewTable(reserved, defaultSize, total), SortedOf(reserved.Keys);
            && 0 <= n <= |ids| && Tiles(ids[..n], t.explicit, 0, t.poolStart) && t.dropped == ids[n..]
            && (forall id :: id in t.explicit <==> id in ids[..n])
            && 0 <= t.poolStart <= Capacity(total) && (n < |ids| ==> t.poolStart == Capacity(total))
  {
    n := CarveTiles(SortedOf(reserved.Keys), reserved, Capacity(total), 0, map[]);
    hide Carve, NoWrap, SortedOf, Tiles;
  }

  lemma {:induction false} TilesOrdered(ids: seq<string>, explicit: map<string, Range>, from: int, to: int, i: nat,
      j: nat)
    requires Tiles(ids, explicit, from, to) && i < j < |ids|
    ensures ids[i] in explicit && ids[j] in explicit
    ensures explicit[ids[i]].start + explicit[ids[i]].size <= explicit[ids[j]].start
    decreases |ids|
  {
    var rest, next := ids[1..], from + explicit[ids[0]].size;
    if i == 0 { TilesWithin(rest, explicit, next, to, j - 1); }
    else { TilesOrdered(rest, explicit, next, to, i - 1, j - 1); }
  }

  /** Where two tenants of the sorted list stand. */
  lemma SortedIndices(ids: seq<string>, a: string, b: string) returns (i: nat, j: nat)
    requires Sorted(ids) && a in ids && b in ids && Less(a, b)
    ensures i < j < |ids| && ids[i] == a && ids[j] == b
  {
    i :| 0 <= i < |ids| && ids[i] == a;
    j :| 0 <= j < |ids| && ids[j] == b;
    LessIsStrict(a);
    if j < i { LessIsTransitive(a, b, a); }
  }

  /** What a wrap-free build gives whom, on a topic of `total` partitions, all but one of which may be reserved. As long
      as that many are not used up, every tenant has the partitions it reserved, at least one. Blocks lie in tenant
      order; the one that is cut short ends at the last reservable partition; tenants left out come after all others. */
  lemma ReservationLaw(reserved: Config, defaultSize: int32, total: int32)
    requires Buildable(reserved, total)
    ensures var t := NewTable(reserved, defaultSize, total);
            var full := if total < 2 then 1 else total - 1;
            && t.total == (if total < 1 then 1 else total) &&
                t.defaultSize == (if defaultSize < 1 then 1 else defaultSize)
            && 0 <= t.poolStart <= full && t.poolSize == t.total - t.poolStart
            && t.poolNext == t.poolStart && t.pool == map[]
            && (forall id <- t.explicit :: id in reserved)
            && (forall id <- reserved | t.poolStart < full :: id in t.explicit)
            && (forall id <- reserved | id in t.explicit ::
                  && 1 <= t.explicit[id].size <= (if reserved[id] < 1 then 1 else reserved[id])
                  && (t.explicit[id].size < reserved[id] ==> t.explicit[id].start + t.explicit[id].size == full))
            && (forall a, b | a in t.explicit && b in t.explicit && Less(a, b) ::
                  t.explicit[a].start + t.explicit[a].size <= t.explicit[b].start)
            && (forall a, b | a in t.explicit && b in reserved && b !in t.explicit :: Less(a, b))
  {
    var n := TableIsTiled(reserved, defaultSize, total);
    var t, ids := NewTable(reserved, defaultSize, total), SortedOf(reserved.Keys);
    hide Carve, NoWrap, SortedOf, Tiles;
    forall id <- reserved | id in t.explicit ensures SizeLaw(t.explicit[id], reserved[id], Capacity(total)) {
      BlockSize(reserved, defaultSize, total, n, id);
    }
    forall a, b | a in t.explicit && b in t.explicit && Less(a, b)
      ensures t.explicit[a].start + t.explicit[a].size <= t.explicit[b].start
    {
      var i, j := SortedIndices(ids[..n], a, b);
      TilesOrdered(ids[..n], t.explicit, 0, t.poolStart, i, j);
    }
    forall a, b | a in t.explicit && b in reserved && b !in t.explicit ensures Less(a, b) {
      KeptComeFirst(ids, n, a, b);
    }
  }

  lemma BlockSize(reserved: Config, defaultSize: int32, total: int32, n: int, id: string)
    requires Buildable(reserved, total) && id in reserved && id in NewTable(reserved, defaultSize, total).explicit
    requires var t, ids := NewTable(reserved, defaultSize, total), SortedOf(reserved.Keys);
             0 <= n <= |ids| && id in ids[..n] && Tiles(ids[..n], t.explicit, 0, t.poolStart)
    ensures SizeLaw(NewTable(reserved, defaultSize, total).explicit[id], reserved[id], Capacity(total))
  {
    var t, ids := NewTable(reserved, defaultSize, total), SortedOf(reserved.Keys);
    CarveSizes(ids, reserved, Capacity(total), 0, map[], id);
    hide Carve, NoWrap, SortedOf;
    var i :| 0 <= i < |ids[..n]| && ids[..n][i] == id;
    TilesWithin(ids[..n], t.explicit, 0, t.poolStart, i);
  }

  predicate SizeLaw(r: Range, wanted: int32, full: int) {
    1 <= r.size <= (if wanted < 1 then 1 else wanted) && (r.size < wanted ==> r.start + r.size == full)
  }

  lemma KeptComeFirst(ids: seq<string>, n: nat, a: string, b: string)
    requires Sorted(ids) && n <= |ids| && a in ids[..n] && b in ids && b !in ids[..n]
    ensures Less(a, b)
  {
    var i :| 0 <= i < n && ids[i] == a;
    assert ids == ids[..n] + ids[n..];
    var j :| 0 <= j < |ids[n..]| && ids[n..][j] == b;
    assert ids[n + j] == b;
  }

  /** A build cannot wrap when no reservation exceeds the int32 range by the size of the topic. */
  lemma BuildableIf(reserved: Config, total: int32)
    requires forall id <- reserved :: reserved[id] + (if total < 1 then 1 else total) <= INT32_MAX
    ensures Buildable(reserved, total)
  {
    SmallNeverWrap(SortedOf(reserved.Keys), reserved, Capacity(total), 0);
  }

  lemma {:induction false} SmallNeverWrap(ids: seq<string>, reserved: Config, capacity: int32, cursor: int32)
    requires (forall id <- ids :: id in reserved && reserved[id] + capacity <= INT32_MAX)
    requires 0 <= cursor <= capacity < INT32_MAX
    ensures NoWrap(ids, reserved, capacity, cursor)
    decreases |ids|
  {
    if ids != [] && cursor < capacity {
      assert ids[0] in ids;
      SmallNeverWrap(ids[1..], reserved, capacity, cursor + Granted(Wanted(reserved, ids[0]), cursor, capacity));
    }
  }

  /** A wrap-free build with a partition to spare for the pool is sound. */
  lemma NewTableGood(reserved: Config, defaultSize: int32, total: int32)
    requires Buildable(reserved, total) && (total > 1 || reserved == map[])
    ensures Good(NewTable(reserved, defaultSize, total)) && NewTable(reserved, defaultSize, total).pool == map[]
  {
    var n := TableIsTiled(reserved, defaultSize, total);
    var t, ids := NewTable(reserved, defaultSize, total), SortedOf(reserved.Keys);
    if reserved == map[] { NothingTiled(ids, t.explicit, t.poolStart, n); }
    hide Carve, NoWrap, SortedOf, Blocks;
    TiledRanges(ids[..n], t.explicit, t.poolStart);
    EmptyPool(t);
  }

  lemma NothingTiled(ids: seq<string>, explicit: map<string, Range>, to: int, n: int)
    requires ListsSorted(ids, {}) && 0 <= n <= |ids| && Tiles(ids[..n], explicit, 0, to)
    ensures to == 0
  {
    if n > 0 { Member(ids, {}, 0); }
  }

  lemma EmptyPool(t: Table)
    requires t.pool == map[] && t.poolNext == t.poolStart <= t.total && t.poolSize >= 1
    ensures PoolSound(t)
  {
    assert Blocks(|t.pool|, t.defaultSize) == 0;
  }

  lemma TiledRanges(ids: seq<string>, explicit: map<string, Range>, to: int)
    requires Tiles(ids, explicit, 0, to) && (forall id :: id in explicit <==> id in ids)
    ensures AllDisjoint(explicit) && (forall a <- explicit :: explicit[a].Within(0, to))
  {
    forall a <- explicit ensures explicit[a].Within(0, to) {
      var i :| 0 <= i < |ids| && ids[i] == a;
      TilesWithin(ids, explicit, 0, to, i);
    }
    forall a, b | a in explicit && b in explicit && a != b ensures explicit[a].Disjoint(explicit[b]) {
      var i :| 0 <= i < |ids| && ids[i] == a;
      var j :| 0 <= j < |ids| && ids[j] == b;
      if i < j { TilesDisjoint(ids, explicit, 0, to, i, j); } else { TilesDisjoint(ids, explicit, 0, to, j, i); }
    }
  }

  /** With a single partition any reservation takes the whole topic: the table is left without a pool, and
      routing anyone else divides by zero. Otherwise a wrap-free table never does. */
  lemma PanicIff(reserved: Config, defaultSize: int32, total: int32, tenant: string)
    requires Buildable(reserved, total)
    ensures var t := NewTable(reserved, defaultSize, total);
            RangeFor(t, tenant).None? <==> total <= 1 && reserved != map[] && tenant !in t.explicit
  {
    var t := NewTable(reserved, defaultSize, total);
    if total > 1 || reserved == map[] {
      NewTableGood(reserved, defaultSize, total);
      hide NewTable;
      RangeForWithin(t, tenant);
    } else {
      var n := TableIsTiled(reserved, defaultSize, total);
      var k :| k in reserved.Keys;
      var ids := SortedOf(reserved.Keys);
      assert k in ids;
      if n == |ids| { TilesWithin(ids[..n], t.explicit, 0, t.poolStart, 0); }
      assert t.poolStart == 1 && t.poolSize == 0 && Offer(t) == 0;
      hide Carve, NoWrap, SortedOf, Slot;
    }
  }

  lemma BlocksStep(k: nat, d: nat)
    ensures Blocks(k + 1, d) == Blocks(k, d) + d && Blocks(0, d) == 0
  {
  }

  lemma OfferIs(t: Table)
    requires Good(t)
    ensures Offer(t) == Min(t.defaultSize, t.total - t.poolNext)
    ensures Offer(t) > 0 <==> Blocks(|t.pool|, t.defaultSize) < t.poolSize
  {
    hide Blocks, AllDisjoint;
  }

  /** The index is the hash of the instrument, reduced to the size of the range. */
  lemma InRangeIs(r: Range, lo: int32, hi: int32, instrument: string)
    requires r.Within(lo, hi)
    ensures InRange(r, instrument) == Some(r.start + Hash(instrument) % r.size)
  {
  }

  /** The index stays inside the range. */
  lemma InRangeHits(r: Range, lo: int32, hi: int32, instrument: string)
    requires r.Within(lo, hi)
    ensures InRange(r, instrument).Some? && r.Has(InRange(r, instrument).value)
  {
    hide Slot;
  }

  lemma RangeForWithin(t: Table, tenant: string)
    requires Good(t)
    ensures RangeFor(t, tenant).Some?
    ensures tenant in t.explicit ==> RangeFor(t, tenant).value == t.explicit[tenant]
    ensures tenant !in t.explicit ==> RangeFor(t, tenant).value.Within(t.poolStart, t.total)
  {
    OfferIs(t);
    hide Slot, AllDisjoint, Blocks;
  }

  lemma StepGood(t: Table, tenant: string)
    requires Good(t)
    ensures Good(After(t, tenant))
  {
    OfferIs(t);
    hide Offer, PoolSound, Blocks;
    if tenant !in t.explicit && tenant !in t.pool && Offer(t) > 0 {
      assert t.poolNext <= t.total by { PoolBounds(t); }
      TakeBlock(t, tenant, Offer(t));
    }
  }

  lemma PoolBounds(t: Table)
    requires PoolSound(t)
    ensures t.poolStart <= t.poolNext <= t.total
  {
  }

  /** A newcomer's block keeps the pool disjoint and its bookkeeping exact. */
  lemma TakeBlock(t: Table, tenant: string, size: int32)
    requires PoolSound(t) && t.poolStart + t.poolSize == t.total
    requires tenant !in t.explicit && tenant !in t.pool && 1 <= size == Min(t.defaultSize, t.total - t.poolNext)
    ensures PoolSound(t.(poolNext := t.poolNext + size, pool := t.pool[tenant := Range(t.poolNext, size)]))
  {
    hide AllDisjoint, Blocks;
    var pool' := t.pool[tenant := Range(t.poolNext, size)];
    BlocksStep(|t.pool|, t.defaultSize);
    OneMoreKey(t.pool, tenant, Range(t.poolNext, size));
    TakenExactly(t.poolNext - t.poolStart, t.poolSize, Blocks(|t.pool|, t.defaultSize), t.defaultSize, size);
    NewBlockDisjoint(t.pool, t.poolStart, t.poolNext, tenant, Range(t.poolNext, size));
  }

  lemma OneMoreKey(pool: map<string, Range>, tenant: string, r: Range)
    requires tenant !in pool
    ensures |pool[tenant := r]| == |pool| + 1
  {
    assert pool[tenant := r].Keys == pool.Keys + {tenant};
  }

  lemma TakenExactly(taken: int, poolSize: int, blocks: int, d: int, size: int)
    requires taken == Min(poolSize, blocks) && size == Min(d, poolSize - taken) && size >= 1
    ensures taken + size == Min(poolSize, blocks + d)
  {
  }

  lemma NewBlockDisjoint(pool: map<string, Range>, lo: int, hi: int32, tenant: string, r: Range)
    requires AllDisjoint(pool) && (forall a <- pool :: pool[a].Within(lo, hi)) && r.start == hi
    ensures AllDisjoint(pool[tenant := r])
  {
  }

  // ---- Any sequence of calls ----

  datatype Request = Request(tenant: string, instrument: string)

  function TableAfter(t: Table, calls: seq<Request>): Table {
    if calls == [] then t else After(TableAfter(t, calls[..|calls| - 1]), calls[|calls| - 1].tenant)
  }

  /** The partition the i-th call is routed to. */
  function Routed(t: Table, calls: seq<Request>, i: nat): Option<int32>
    requires i < |calls|
  {
    PartitionOf(TableAfter(t, calls[..i]), calls[i].tenant, calls[i].instrument)
  }

  lemma {:induction false} RunGood(t: Table, calls: seq<Request>)
    requires Good(t)
    ensures var t' := TableAfter(t, calls);
            Good(t') && t'.explicit == t.explicit && t'.poolStart == t.poolStart && t'.total == t.total &&
                t'.poolSize == t.poolSize && t'.defaultSize == t.defaultSize
    decreases |calls|
  {
    if calls != [] {
      RunGood(t, calls[..|calls| - 1]);
      StepGood(TableAfter(t, calls[..|calls| - 1]), calls[|calls| - 1].tenant);
    }
  }

  /** Isolation: whatever was routed before, a tenant with a reservation lands in its own block and nobody
      else ever lands there. */
  lemma Isolation(t: Table, calls: seq<Request>, i: nat, owner: string)
    requires Good(t) && i < |calls| && owner in t.explicit
    ensures Routed(t, calls, i).Some?
    ensures calls[i].tenant == owner <==> t.explicit[owner].Has(Routed(t, calls, i).value)
  {
    var t' := TableAfter(t, calls[..i]);
    RunGood(t, calls[..i]);
    var tenant, instrument := calls[i].tenant, calls[i].instrument;
    RangeForWithin(t', tenant);
    InRangeHits(RangeFor(t', tenant).value, if tenant in t.explicit then 0 else t.poolStart, t.total, instrument);
  }

  // ---- Stability on one table ----

  /** The tenant's range can no longer change: it is reserved, cached, or the pool is used up. */
  predicate Fixed(t: Table, tenant: string) {
    tenant in t.explicit || tenant in t.pool || Offer(t) <= 0
  }

  lemma FixedAfterCall(t: Table, tenant: string)
    requires Good(t)
    ensures Fixed(After(t, tenant), tenant) && RangeFor(After(t, tenant), tenant) == RangeFor(t, tenant)
  {
    OfferIs(t);
    hide Slot;
  }

  lemma FixedStays(t: Table, tenant: string, other: string)
    requires Good(t) && Fixed(t, tenant)
    ensures Fixed(After(t, other), tenant) && RangeFor(After(t, other), tenant) == RangeFor(t, tenant)
  {
    hide Slot;
  }

  lemma {:induction false} FixedForever(t: Table, tenant: string, calls: seq<Request>)
    requires Good(t) && Fixed(t, tenant)
    ensures Fixed(TableAfter(t, calls), tenant) && RangeFor(TableAfter(t, calls), tenant) == RangeFor(t, tenant)
    decreases |calls|
  {
    if calls != [] {
      RunGood(t, calls[..|calls| - 1]);
      FixedForever(t, tenant, calls[..|calls| - 1]);
      FixedStays(TableAfter(t, calls[..|calls| - 1]), tenant, calls[|calls| - 1].tenant);
    }
  }

  lemma {:induction false} TableAfterSplit(t: Table, calls: seq<Request>, i: nat)
    requires i <= |calls|
    ensures TableAfter(t, calls) == TableAfter(TableAfter(t, calls[..i]), calls[i..])
    decreases |calls|
  {
    if i == |calls| {
      assert calls[..i] == calls;
    } else {
      var n := |calls| - 1;
      assert calls[..n][..i] == calls[..i];
      assert calls[..n][i..] == calls[i..][..n - i];
      assert calls[i..][|calls[i..]| - 1] == calls[n];
      TableAfterSplit(t, calls[..n], i);
    }
  }

  /** The same tenant and instrument are routed to the same partition for the life of a table. */
  lemma RoutingIsStable(t: Table, calls: seq<Request>, i: nat, j: nat)
    requires Good(t) && i < j < |calls| && calls[i] == calls[j]
    ensures Routed(t, calls, i) == Routed(t, calls, j)
  {
    hide RangeFor, After, InRange;
    var before, tenant := TableAfter(t, calls[..i]), calls[i].tenant;
    RunGood(t, calls[..i]);
    StepGood(before, tenant);
    FixedAfterCall(before, tenant);
    var between := calls[i + 1..j];
    FixedForever(After(before, tenant), tenant, between);
    TableAfterSplit(t, calls[..j], i + 1);
    assert calls[..j][..i + 1] == calls[..i + 1] && calls[..j][i + 1..] == between;
    assert calls[..i + 1][..i] == calls[..i];
  }

  /** Which partition a call gets, over any sequence of calls: its tenant's reserved block, else the pool block it
      holds, else the one pool partition its own hash picks; and in there the one the instrument's hash picks. */
  lemma LandsByHash(t: Table, calls: seq<Request>, i: nat)
    requires Good(t) && i < |calls|
    ensures var tenant, final := calls[i].tenant, TableAfter(t, calls);
            var r := if tenant in t.explicit then t.explicit[tenant]
                     else if tenant in final.pool then final.pool[tenant]
                     else Range(t.poolStart + Hash(tenant) % t.poolSize, 1);
            && r.size >= 1 && Routed(t, calls, i) == Some(r.start + Hash(calls[i].instrument) % r.size)
  {
    hide After, InRange, Hash, RangeFor, Good, TableAfter;
    var before, tenant := TableAfter(t, calls[..i]), calls[i].tenant;
    RunGood(t, calls[..i]);
    RunGood(t, calls);
    FinalRange(t, calls, i);
    RangeForWithin(before, tenant);
    var from := if tenant in t.explicit then 0 else t.poolStart;
    assert RangeFor(before, tenant).value.Within(from, t.total) by { ExplicitWithin(before, tenant); }
    InRangeIs(RangeFor(before, tenant).value, from, t.total, calls[i].instrument);
    FixedRange(TableAfter(t, calls), tenant);
  }

  lemma ExplicitWithin(t: Table, tenant: string)
    requires Good(t)
    ensures t.poolStart >= 0 && (tenant in t.explicit ==> t.explicit[tenant].Within(0, t.total))
  {
  }

  /** The range a call finds is the one its tenant has at the end, and it can no longer change. */
  lemma FinalRange(t: Table, calls: seq<Request>, i: nat)
    requires Good(t) && i < |calls|
    ensures var final, tenant := TableAfter(t, calls), calls[i].tenant;
            Fixed(final, tenant) && RangeFor(final, tenant) == RangeFor(TableAfter(t, calls[..i]), tenant)
  {
    hide After, RangeFor, Fixed;
    var before, tenant := TableAfter(t, calls[..i]), calls[i].tenant;
    RunGood(t, calls[..i]);
    StepGood(before, tenant);
    FixedAfterCall(before, tenant);
    FixedForever(After(before, tenant), tenant, calls[i + 1..]);
    TableAfterSplit(t, calls, i + 1);
    assert calls[..i + 1][..i] == calls[..i];
  }

  /** The range of a tenant whose range can no longer change. */
  lemma FixedRange(t: Table, tenant: string)
    requires Good(t) && Fixed(t, tenant)
    ensures RangeFor(t, tenant) ==
            Some(if tenant in t.explicit then t.explicit[tenant]
                 else if tenant in t.pool then t.pool[tenant]
                 else Range(t.poolStart + Hash(tenant) % t.poolSize, 1))
  {
    hide Hash, Blocks, AllDisjoint;
  }

  // ---- No sharing until the pool is used up ----

  function PoolTenants(t: Table, calls: seq<Request>): set<string> {
    set c | c in calls && c.tenant !in t.explicit :: c.tenant
  }

  /** At most ceil(poolSize / defaultSize) distinct unreserved tenants. */
  predicate Roomy(t: Table, count: nat) {
    count == 0 || Blocks(count - 1, t.defaultSize) < t.poolSize
  }

  lemma RoomyIffCeil(t: Table, count: nat)
    requires t.poolSize >= 1 && t.defaultSize >= 1
    ensures Roomy(t, count) <==> count <= (t.poolSize + t.defaultSize - 1) / t.defaultSize
  {
    var d, q := t.defaultSize, (t.poolSize + t.defaultSize - 1) / t.defaultSize;
    CeilBlocks(t.poolSize, d);
    if count > 0 {
      BlocksStep(count - 1, d);
      BlocksStep(q, d);
      if count <= q { BlocksMonotone(count, q, d); } else { BlocksMonotone(q + 1, count, d); }
    }
    hide Blocks;
  }

  lemma CeilBlocks(p: nat, d: nat)
    requires d >= 1
    ensures (p + d - 1) / d >= 0 && p <= Blocks((p + d - 1) / d, d) < p + d
  {
    DivNat(p + d - 1, d);
  }

  lemma BlocksMonotone(j: int, k: int, d: nat)
    requires j <= k
    ensures Blocks(j, d) <= Blocks(k, d)
  {
  }

  lemma RoomyDown(t: Table, small: nat, large: nat)
    requires Roomy(t, large) && small <= large && Good(t)
    ensures Roomy(t, small)
  {
    if small > 0 { BlocksMonotone(small - 1, large - 1, t.defaultSize); }
  }

  /** While there is room, exactly the unreserved tenants seen so far hold a block of their own. */
  lemma {:induction false} AllCached(t: Table, calls: seq<Request>)
    requires Good(t) && t.pool == map[] && Roomy(t, |PoolTenants(t, calls)|)
    ensures TableAfter(t, calls).pool.Keys == PoolTenants(t, calls)
    decreases |calls|
  {
    hide Blocks, After, Sound, PoolSound, PoolTenants, Roomy;
    if calls == [] {
      NoTenants(t);
    } else {
      var front, last := calls[..|calls| - 1], calls[|calls| - 1];
      var seen, seen' := PoolTenants(t, front), PoolTenants(t, calls);
      PoolTenantsSnoc(t, front, last);
      assert calls == front + [last];
      SubsetSize(seen, seen');
      RoomyDown(t, |seen|, |seen'|);
      AllCached(t, front);
      RunGood(t, front);
      if last.tenant !in t.explicit && last.tenant !in seen { RoomFor(t, seen, seen', last.tenant); }
      CacheStep(TableAfter(t, front), last.tenant);
    }
  }

  lemma RoomFor(t: Table, seen: set<string>, seen': set<string>, tenant: string)
    requires tenant !in seen && seen' == seen + {tenant} && Roomy(t, |seen'|)
    ensures Blocks(|seen|, t.defaultSize) < t.poolSize
  {
    hide Blocks;
  }

  lemma NoTenants(t: Table)
    ensures PoolTenants(t, []) == {}
  {
  }

  lemma CacheStep(t: Table, tenant: string)
    requires Good(t) && (tenant in t.explicit || tenant in t.pool || Blocks(|t.pool|, t.defaultSize) < t.poolSize)
    ensures After(t, tenant).pool.Keys == if tenant in t.explicit then t.pool.Keys else t.pool.Keys + {tenant}
  {
    OfferIs(t);
    hide Offer, Good, Blocks;
  }

  lemma PoolTenantsSnoc(t: Table, calls: seq<Request>, last: Request)
    ensures PoolTenants(t, calls + [last]) == if last.tenant in t.explicit then PoolTenants(t, calls)
            else PoolTenants(t, calls) + {last.tenant}
  {
  }

  lemma SubsetSize(a: set<string>, b: set<string>)
    requires a <= b
    ensures |a| <= |b|
  {
    assert b == a + (b - a);
  }

  /** Exclusivity: with no more unreserved tenants than pool blocks, two tenants never share a partition. */
  lemma NoSharing(t: Table, calls: seq<Request>, i: nat, j: nat)
    requires Good(t) && t.pool == map[] && Roomy(t, |PoolTenants(t, calls)|)
    requires i < |calls| && j < |calls| && calls[i].tenant != calls[j].tenant
    ensures Routed(t, calls, i).Some? && Routed(t, calls, j).Some? && Routed(t, calls, i) != Routed(t, calls, j)
  {
    var final := TableAfter(t, calls);
    RunGood(t, calls);
    AllCached(t, calls);
    OwnBlock(t, calls, i);
    OwnBlock(t, calls, j);
    assert calls[i] in calls && calls[j] in calls;
  }

  /** Every call lands in the block its tenant holds at the end. */
  lemma OwnBlock(t: Table, calls: seq<Request>, i: nat)
    requires Good(t) && t.pool == map[] && Roomy(t, |PoolTenants(t, calls)|) && i < |calls|
    ensures var final := TableAfter(t, calls);
            && Routed(t, calls, i).Some?
            && RangeFor(final, calls[i].tenant).Some?
            && RangeFor(final, calls[i].tenant).value.Has(Routed(t, calls, i).value)
  {
    hide After, InRange, Slot;
    var before, tenant := TableAfter(t, calls[..i]), calls[i].tenant;
    RunGood(t, calls[..i]);
    FinalRange(t, calls, i);
    RangeForWithin(before, tenant);
    var from := if tenant in t.explicit then 0 else t.poolStart;
    InRangeHits(RangeFor(before, tenant).value, from, t.total, calls[i].instrument);
  }
}
