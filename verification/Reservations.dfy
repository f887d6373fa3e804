/** The reservation table: explicit blocks carved out first in tenant order, then a pool handed out on
    first sight, then sharing by hash. int32 wrap-around and the modulus by zero are kept. */
module Reservations {
  import opened GoInts
  import opened TenantOrder
  import opened Fnv1a

  datatype Range = Range(start: int32, size: int32)
  {
    predicate Has(p: int) { start <= p < start + size }

    predicate Within(lo: int, hi: int) { size >= 1 && lo <= start && start + size <= hi }

    predicate Disjoint(other: Range) { start + size <= other.start || other.start + other.size <= start }
  }

  type Config = map<string, int32>

  // ---- Hashing ----

  function Hash(data: string): (h: nat)
    ensures h < 0x1_0000_0000
  {
    Fnv(data)
  }

  /** The hash is FNV-1a: the offset basis for no bytes and, for one byte more, exclusive or with
      that byte and multiplication by the prime, in 32 bits. */
  lemma HashIsFnv1a(data: string, c: char)
    ensures Hash("") == 2166136261 && Hash("a") == 0xe40c292c
    ensures Hash(data + [c]) == (Xor(Hash(data), c as int % 256) * 16777619) % 0x1_0000_0000
  {
    KnownHashes();
    FnvSnoc(data, c);
    hide Fnv;
  }

  /** A uint32 conversion of an int32. */
  function Unsigned(x: int32): (u: uint32)
    ensures x >= 0 ==> u == x
    ensures u == 0 <==> x == 0
  {
    if x < 0 then x + UINT32_MOD else x
  }

  /** A hash spread over `size` slots, as an int32. */
  function Slot(data: string, size: int32): (i: int32)
    requires size != 0
    ensures size > 0 ==> 0 <= i < size
  {
    Wrap32(Below(Hash(data), Unsigned(size)))
  }

  /** A positive size takes the hash modulo the size; a size that wrapped below zero, modulo its unsigned value. */
  lemma SlotIs(data: string, size: int32)
    requires size != 0
    ensures size > 0 ==> Slot(data, size) == Hash(data) % size
    ensures size < 0 ==> Slot(data, size) == Wrap32(Hash(data) % (size + 0x1_0000_0000))
  {
    hide Hash;
  }

  function Below(x: nat, m: uint32): (r: uint32)
    requires m > 0
    ensures r < m
  {
    x % m
  }

  // ---- Carving out the explicit blocks ----

  datatype Layout = Layout(explicit: map<string, Range>, cursor: int32, dropped: seq<string>)

  function Wanted(reserved: Config, id: string): int32
    requires id in reserved
  {
    if reserved[id] < 1 then 1 else reserved[id]
  }

  /** The block size given at `cursor`, cut down when the (wrapping) end passes the capacity. */
  function Granted(wanted: int32, cursor: int32, capacity: int32): int32 {
    if Wrap32(cursor + wanted) > capacity then Wrap32(capacity - cursor) else wanted
  }

  function Carve(ids: seq<string>, reserved: Config, capacity: int32, cursor: int32,
      explicit: map<string, Range>): Layout
    requires forall id <- ids :: id in reserved
    decreases |ids|
  {
    if ids == [] then Layout(explicit, cursor, [])
    else if cursor >= capacity then Layout(explicit, cursor, ids)
    else
      var size := Granted(Wanted(reserved, ids[0]), cursor, capacity);
      Carve(ids[1..], reserved, capacity, Wrap32(cursor + size), explicit[ids[0] := Range(cursor, size)])
  }

  /** No tenant the loop reaches pushes `cursor + size` past int32. */
  predicate NoWrap(ids: seq<string>, reserved: Config, capacity: int32, cursor: int32)
    requires forall id <- ids :: id in reserved
    decreases |ids|
  {
    ids == [] || cursor >= capacity ||
    (InInt32(cursor + Wanted(reserved, ids[0])) &&
     NoWrap(ids[1..], reserved, capacity, Wrap32(cursor + Granted(Wanted(reserved, ids[0]), cursor, capacity))))
  }

  /** The tenants own consecutive non-empty blocks that tile [from, to). */
  predicate Tiles(ids: seq<string>, explicit: map<string, Range>, from: int, to: int)
    decreases |ids|
  {
    if ids == [] then from == to
    else
      && ids[0] in explicit && explicit[ids[0]].start == from && explicit[ids[0]].size >= 1
      && Tiles(ids[1..], explicit, from + explicit[ids[0]].size, to)
  }

  lemma {:induction false} TilesWithin(ids: seq<string>, explicit: map<string, Range>, from: int, to: int, i: nat)
    requires Tiles(ids, explicit, from, to) && i < |ids|
    ensures from < to && ids[i] in explicit && explicit[ids[i]].Within(from, to)
    decreases |ids|
  {
    if |ids| > 1 {
      TilesWithin(ids[1..], explicit, from + explicit[ids[0]].size, to, if i > 0 then i - 1 else 0);
    }
  }

  lemma {:induction false} TilesDisjoint(ids: seq<string>, explicit: map<string, Range>, from: int, to: int, i: nat,
      j: nat)
    requires Tiles(ids, explicit, from, to) && i < j < |ids|
    ensures ids[i] in explicit && ids[j] in explicit && explicit[ids[i]].Disjoint(explicit[ids[j]])
    decreases |ids|
  {
    var rest, next := ids[1..], from + explicit[ids[0]].size;
    if i == 0 { TilesWithin(rest, explicit, next, to, j - 1); }
    else { TilesDisjoint(rest, explicit, next, to, i - 1, j - 1); }
  }

  /** The first n tenants own blocks that tile [from, cursor) in order and end by the capacity; the rest
      of the sorted list is dropped, and only because the capacity is used up. */
  ghost predicate Carved(ids: seq<string>, before: map<string, Range>, capacity: int, from: int, l: Layout, n: int) {
    && 0 <= n <= |ids| && l.dropped == ids[n..] && (n < |ids| ==> l.cursor == capacity)
    && from <= l.cursor <= capacity
    && (forall id :: id in l.explicit <==> id in before || id in ids[..n])
    && (forall id <- before :: l.explicit[id] == before[id])
    && Tiles(ids[..n], l.explicit, from, l.cursor)
  }

  lemma CarvedNothing(ids: seq<string>, before: map<string, Range>, capacity: int32, cursor: int32)
    requires cursor <= capacity && (ids != [] ==> cursor == capacity)
    ensures Carved(ids, before, capacity, cursor, Layout(before, cursor, ids), 0)
  {
  }

  lemma CarvedCons(ids: seq<string>, before: map<string, Range>, capacity: int, r: Range, l: Layout, n: int)
    requires ids != [] && ids[0] !in before && r.size >= 1
    requires Carved(ids[1..], before[ids[0] := r], capacity, r.start + r.size, l, n)
    ensures Carved(ids, before, capacity, r.start, l, n + 1)
  {
    var rest := ids[1..];
    assert ids[..n + 1] == [ids[0]] + rest[..n];
    assert ids[..n + 1][1..] == rest[..n];
    assert ids[n + 1..] == rest[n..];
  }

  lemma {:induction false} CarveTiles(ids: seq<string>, reserved: Config, capacity: int32, cursor: int32,
      before: map<string, Range>)
    returns (n: int)
    requires (forall id <- ids :: id in reserved) && Sorted(ids) && NoWrap(ids, reserved, capacity, cursor)
    requires 0 <= cursor <= capacity && (forall id <- ids :: id !in before)
    ensures Carved(ids, before, capacity, cursor, Carve(ids, reserved, capacity, cursor, before), n)
    decreases |ids|
  {
    hide Carved;
    if ids == [] || cursor >= capacity {
      n := 0;
      CarvedNothing(ids, before, capacity, cursor);
    } else {
      var r := Range(cursor, Granted(Wanted(reserved, ids[0]), cursor, capacity));
      SortedHeadFresh(ids);
      n := CarveTiles(ids[1..], reserved, capacity, cursor + r.size, before[ids[0] := r]);
      CarvedCons(ids, before, capacity, r, Carve(ids, reserved, capacity, cursor, before), n);
      n := n + 1;
    }
  }

  /** A tenant that holds a block holds as many partitions as it asked for, or what the capacity had left. */
  lemma {:induction false} CarveSizes(ids: seq<string>, reserved: Config, capacity: int32, cursor: int32,
      before: map<string, Range>, id: string)
    requires (forall id <- ids :: id in reserved) && Sorted(ids) && NoWrap(ids, reserved, capacity, cursor)
    requires 0 <= cursor <= capacity && (forall id <- ids :: id !in before) && id in ids
    ensures var l := Carve(ids, reserved, capacity, cursor, before);
            id in l.explicit ==>
              var r := l.explicit[id];
              if r.start + Wanted(reserved, id) <= capacity then r.size == Wanted(reserved, id)
                  else r.start + r.size == capacity
    decreases |ids|
  {
    if ids != [] && cursor < capacity {
      var r := Range(cursor, Granted(Wanted(reserved, ids[0]), cursor, capacity));
      SortedHeadFresh(ids);
      if id == ids[0] { CarveKeeps(ids[1..], reserved, capacity, cursor + r.size, before[id := r], id); }
      else { CarveSizes(ids[1..], reserved, capacity, cursor + r.size, before[ids[0] := r], id); }
    }
  }

  /** The blocks stay inside the capacity exactly when no `cursor + size` on the way wraps. */
  lemma {:induction false} CarveInBoundsIff(ids: seq<string>, reserved: Config, capacity: int32, cursor: int32,
      explicit: map<string, Range>)
    requires (forall id <- ids :: id in reserved) && Sorted(ids)
    requires 0 <= cursor <= capacity && (forall id <- ids :: id !in explicit)
    ensures NoWrap(ids, reserved, capacity, cursor) <==>
            forall id <- ids :: id in Carve(ids, reserved, capacity, cursor, explicit).explicit ==>
                                  Carve(ids, reserved, capacity, cursor, explicit).explicit[id].Within(0, capacity)
  {
    var l := Carve(ids, reserved, capacity, cursor, explicit);
    if NoWrap(ids, reserved, capacity, cursor) {
      var n := CarveTiles(ids, reserved, capacity, cursor, explicit);
      forall id <- ids | id in l.explicit ensures l.explicit[id].Within(0, capacity) {
        var i :| 0 <= i < |ids[..n]| && ids[..n][i] == id;
        TilesWithin(ids[..n], l.explicit, cursor, l.cursor, i);
      }
    } else {
      var id := WrapEscapes(ids, reserved, capacity, cursor, explicit);
    }
  }

  /** A wrapping sum leaves a block that runs past the capacity. */
  lemma {:induction false} WrapEscapes(ids: seq<string>, reserved: Config, capacity: int32, cursor: int32,
      explicit: map<string, Range>)
    returns (id: string)
    requires (forall id <- ids :: id in reserved) && Sorted(ids) && !NoWrap(ids, reserved, capacity, cursor)
    requires 0 <= cursor <= capacity && (forall id <- ids :: id !in explicit)
    ensures var l := Carve(ids, reserved, capacity, cursor, explicit);
            id in ids && id in l.explicit && !l.explicit[id].Within(0, capacity)
    decreases |ids|
  {
    var wanted := Wanted(reserved, ids[0]);
    var size := Granted(wanted, cursor, capacity);
    var explicit' := explicit[ids[0] := Range(cursor, size)];
    SortedHeadFresh(ids);
    if InInt32(cursor + wanted) {
      id := WrapEscapes(ids[1..], reserved, capacity, cursor + size, explicit');
    } else {
      id := ids[0];
      CarveKeeps(ids[1..], reserved, capacity, Wrap32(cursor + size), explicit', id);
    }
  }

  lemma SortedHeadFresh(ids: seq<string>)
    requires Sorted(ids) && ids != []
    ensures ids[0] !in ids[1..] && Sorted(ids[1..])
  {
    if ids[0] in ids[1..] {
      var i :| 0 <= i < |ids[1..]| && ids[1..][i] == ids[0];
      assert Less(ids[0], ids[i + 1]);
      LessIsStrict(ids[0]);
    }
  }

  lemma {:induction false} CarveKeeps(ids: seq<string>, reserved: Config, capacity: int32, cursor: int32,
      explicit: map<string, Range>, id: string)
    requires (forall id <- ids :: id in reserved) && id in explicit && id !in ids
    ensures var l := Carve(ids, reserved, capacity, cursor, explicit);
            id in l.explicit && l.explicit[id] == explicit[id]
    decreases |ids|
  {
    if ids != [] && cursor < capacity {
      var size := Granted(Wanted(reserved, ids[0]), cursor, capacity);
      CarveKeeps(ids[1..], reserved, capacity, Wrap32(cursor + size), explicit[ids[0] := Range(cursor, size)], id);
    }
  }
}
