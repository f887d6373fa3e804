/** The operator publishes what the publisher's table assigned; the publisher rebuilds from those counts and
    the dedicated processor consumes the published block. The loop is at a fixed point. */
module ClosedLoop {
  import opened GoInts
  import opened TenantOrder
  import opened Reservations
  import opened PartitionTable
  import opened PartitionLists

  /** Counts published from a table: every reserved tenant with the size it was given, and possibly some of
      the dropped tenants with any count. */
  ghost predicate PublishedFrom(t: Table, reserved: Config, published: Config) {
    && t.explicit.Keys <= published.Keys <= reserved.Keys
    && (forall id <- t.explicit :: published[id] == t.explicit[id].size)
  }

  /** The layout gives the kept tenants their target blocks, up to `to`, and drops the rest. */
  ghost predicate Reproduces(l: Layout, kept: seq<string>, rest: seq<string>, target: map<string, Range>,
      before: map<string, Range>, to: int) {
    && l.cursor == to && l.dropped == rest
    && (forall id :: id in l.explicit <==> id in before || id in kept)
    && (forall id <- l.explicit :: id in kept ==> id in target && l.explicit[id] == target[id])
    && (forall id <- l.explicit :: id !in kept ==> l.explicit[id] == before[id])
  }

  lemma ReproducesCons(l: Layout, kept: seq<string>, rest: seq<string>, target: map<string, Range>,
      before: map<string, Range>, to: int)
    requires kept != [] && kept[0] in target
    requires Reproduces(l, kept[1..], rest, target, before[kept[0] := target[kept[0]]], to)
    ensures Reproduces(l, kept, rest, target, before, to)
  {
    assert forall id :: id in kept <==> id == kept[0] || id in kept[1..];
  }

  lemma CarveStep(ids: seq<string>, reserved: Config, capacity: int32, cursor: int32, before: map<string, Range>,
      size: int32)
    requires ids != [] && (forall id <- ids :: id in reserved) && reserved[ids[0]] == size
    requires size >= 1 && 0 <= cursor && cursor + size <= capacity
    ensures NoWrap(ids, reserved, capacity, cursor) <==> NoWrap(ids[1..], reserved, capacity, cursor + size)
    ensures Carve(ids, reserved, capacity, cursor, before)
            == Carve(ids[1..], reserved, capacity, cursor + size, before[ids[0] := Range(cursor, size)])
  {
  }

  lemma CarveNothing(rest: seq<string>, reserved: Config, target: map<string, Range>, capacity: int32, cursor: int32,
      before: map<string, Range>)
    requires (forall id <- rest :: id in reserved) && (rest != [] ==> cursor == capacity)
    ensures NoWrap(rest, reserved, capacity, cursor)
    ensures Reproduces(Carve(rest, reserved, capacity, cursor, before), [], rest, target, before, cursor)
  {
  }

  /** Carving the assigned sizes again reproduces the blocks and drops whatever follows them. */
  lemma {:induction false} CarveAgain(kept: seq<string>, rest: seq<string>, published: Config,
      target: map<string, Range>,
                                      capacity: int32, cursor: int32, to: int, before: map<string, Range>)
    requires Tiles(kept, target, cursor, to) && 0 <= cursor && to <= capacity && (rest != [] ==> to == capacity)
    requires forall id <- kept + rest :: id in published
    requires forall id <- kept :: id in target && published[id] == target[id].size
    ensures NoWrap(kept + rest, published, capacity, cursor)
    ensures Reproduces(Carve(kept + rest, published, capacity, cursor, before), kept, rest, target, before, to)
    decreases |kept|
  {
    hide Reproduces, NoWrap, Carve;
    if kept == [] {
      assert kept + rest == rest;
      CarveNothing(rest, published, target, capacity, cursor, before);
    } else {
      var id, r := kept[0], target[kept[0]];
      TilesWithin(kept, target, cursor, to, 0);
      assert (kept + rest)[1..] == kept[1..] + rest;
      CarveStep(kept + rest, published, capacity, cursor, before, r.size);
      CarveAgain(kept[1..], rest, published, target, capacity, cursor + r.size, to, before[id := r]);
      ReproducesCons(Carve(kept[1..] + rest, published, capacity, cursor + r.size, before[id := r]), kept, rest,
          target, before, to);
    }
  }

  lemma AfterPrefix(ids: seq<string>, n: nat, x: string) returns (k: nat)
    requires n <= |ids| && x in ids && x !in ids[..n]
    ensures n <= k < |ids| && ids[k] == x
  {
    assert ids == ids[..n] + ids[n..];
    var i :| 0 <= i < |ids[n..]| && ids[n..][i] == x;
    k := n + i;
  }

  /** The published tenants in order are the kept ones followed by some of the dropped ones. */
  lemma PublishedOrder(ids: seq<string>, keys: set<string>, n: nat, published: set<string>) returns (rest: seq<string>)
    requires ListsSorted(ids, keys) && n <= |ids| && published <= keys && forall id <- ids[..n] :: id in published
    ensures ids[..n] + rest == SortedOf(published)
    ensures forall id <- rest :: id !in ids[..n]
    ensures rest != [] ==> n < |ids|
  {
    var kept := set id | id in ids[..n];
    rest := SortedOf(published - kept);
    var all := ids[..n] + rest;
    forall i, j | 0 <= i < j < |all| ensures Less(all[i], all[j]) {
      if i < n <= j {
        assert rest[j - n] in rest;
        var k := AfterPrefix(ids, n, rest[j - n]);
      }
    }
    forall id ensures id in all <==> id in published {
      assert id in all <==> id in ids[..n] || id in rest;
    }
    SortedUnique(all, SortedOf(published), published);
    if rest != [] {
      assert rest[0] in rest;
      var k := AfterPrefix(ids, n, rest[0]);
    }
  }

  /** Fixed point: rebuilding from the published sizes gives the same blocks and pool, and drops exactly the
      published tenants that hold none. */
  lemma RebuildIsFixedPoint(reserved: Config, defaultSize: int32, total: int32, published: Config, defaultSize': int32)
    requires Buildable(reserved, total)
    requires PublishedFrom(NewTable(reserved, defaultSize, total), reserved, published)
    ensures Buildable(published, total)
    ensures var t, t' := NewTable(reserved, defaultSize, total), NewTable(published, defaultSize', total);
            && t'.explicit == t.explicit && t'.poolStart == t.poolStart && t'.poolSize == t.poolSize
            && (forall id :: id in t'.dropped <==> id in published && id !in t.explicit)
  {
    var t, ids := NewTable(reserved, defaultSize, total), SortedOf(reserved.Keys);
    var n := TableIsTiled(reserved, defaultSize, total);
    var kept := ids[..n];
    var rest := PublishedOrder(ids, reserved.Keys, n, published.Keys);
    var ids' := SortedOf(published.Keys);
    assert forall id <- ids' :: id in published;
    CarveAgain(kept, rest, published, t.explicit, Capacity(total), 0, t.poolStart, map[]);
    hide Carve, NoWrap, Tiles, SortedOf;
    var t' := NewTable(published, defaultSize', total);
    SameBlocks(t'.explicit, t.explicit, kept);
    forall id ensures id in t'.dropped <==> id in published && id !in t.explicit {
      assert id in ids' <==> id in kept || id in rest;
    }
  }

  lemma SameBlocks(a: map<string, Range>, b: map<string, Range>, kept: seq<string>)
    requires (forall id :: id in a <==> id in kept) && (forall id :: id in b <==> id in kept)
    requires forall id <- a :: id in b && a[id] == b[id]
    ensures a == b
  {
    assert a.Keys == b.Keys;
  }

  /** The set of partitions of a block. */
  ghost function BlockSet(r: Range): set<int32> {
    set p: int32 | r.Has(p)
  }

  lemma BlockIsIndices(r: Range, hi: int32)
    requires r.Within(0, hi)
    ensures IndexSet(Indices(r.start, r.size)) == BlockSet(r)
  {
    var s := Indices(r.start, r.size);
    forall p: int32 ensures p in IndexSet(s) <==> p in BlockSet(r) {
      if p in BlockSet(r) { assert s[p - r.start] == p; }
    }
  }

  /** Closed loop: once start and count are published from a table, the rebuilt table, the processor's set from
      the map, and its set from the printed and re-parsed list all name the tenant's one block. */
  lemma LoopAgrees(reserved: Config, defaultSize: int32, total: int32, published: Config, defaultSize': int32,
      tenant: string)
    requires Buildable(reserved, total) && tenant in NewTable(reserved, defaultSize, total).explicit
    requires PublishedFrom(NewTable(reserved, defaultSize, total), reserved, published)
    ensures var r := NewTable(reserved, defaultSize, total).explicit[tenant];
            && tenant in NewTable(published, defaultSize', total).explicit
            && NewTable(published, defaultSize', total).explicit[tenant] == r
            && EntrySet(r.start, r.size) == Some(BlockSet(r))
            && ParseFields(SplitComma(ListText(r.start, r.size))).Some?
            && IndexSet(ParseFields(SplitComma(ListText(r.start, r.size))).value) == BlockSet(r)
  {
    var t, ids := NewTable(reserved, defaultSize, total), SortedOf(reserved.Keys);
    var n := TableIsTiled(reserved, defaultSize, total);
    RebuildIsFixedPoint(reserved, defaultSize, total, published, defaultSize');
    var i :| 0 <= i < |ids[..n]| && ids[..n][i] == tenant;
    TilesWithin(ids[..n], t.explicit, 0, t.poolStart, i);
    hide NewTable, ParseFields, SplitComma, ListText, Buildable;
    var r := t.explicit[tenant];
    BlockIsIndices(r, t.poolStart);
    ListRoundTrip(r.start, r.size);
  }
}
