/** Tenant IDs in Go's string order, and the sorted list of a set of them. Strings hold bytes. */
module TenantOrder {
  predicate Less(a: string, b: string)
    decreases |a|
  {
    b != [] && (a == [] || a[0] < b[0] || (a[0] == b[0] && Less(a[1..], b[1..])))
  }

  /** String order is byte order at the first index where the two differ, and a proper prefix comes first. */
  lemma {:induction false} LessIff(a: string, b: string)
    ensures Less(a, b) <==> exists i :: DecidesAt(a, b, i)
    decreases |a|
  {
    if a == [] {
      assert b != [] ==> DecidesAt(a, b, 0);
    } else if b != [] && a[0] == b[0] {
      LessIff(a[1..], b[1..]);
      forall i: nat ensures DecidesAt(a, b, i + 1) <==> DecidesAt(a[1..], b[1..], i) { Shifted(a, b, i); }
      assert !DecidesAt(a, b, 0);
      forall i | DecidesAt(a, b, i) ensures DecidesAt(a[1..], b[1..], i - 1) { Shifted(a, b, i - 1); }
      if Less(a, b) {
        var i :| DecidesAt(a[1..], b[1..], i);
        assert DecidesAt(a, b, i + 1);
      }
    } else if b != [] {
      assert a[0] < b[0] ==> DecidesAt(a, b, 0);
    }
  }

  /** The strings agree before i, where a ends or has the smaller byte. */
  predicate DecidesAt(a: string, b: string, i: int) {
    && 0 <= i <= |a| && i < |b|
    && (forall k | 0 <= k < i :: a[k] == b[k])
    && (i == |a| || a[i] < b[i])
  }

  lemma Shifted(a: string, b: string, i: nat)
    requires a != [] && b != [] && a[0] == b[0]
    ensures DecidesAt(a, b, i + 1) <==> DecidesAt(a[1..], b[1..], i)
  {
    if DecidesAt(a, b, i + 1) { assert forall k | 0 <= k < i :: a[1..][k] == a[k + 1] && b[1..][k] == b[k + 1]; }
    if DecidesAt(a[1..], b[1..], i) {
      forall k | 0 <= k < i + 1 ensures a[k] == b[k] {
        if k > 0 { assert a[1..][k - 1] == b[1..][k - 1]; }
      }
    }
  }

  lemma {:induction false} LessIsStrict(a: string)
    ensures !Less(a, a)
    decreases |a|
  {
    if a != [] { LessIsStrict(a[1..]); }
  }

  lemma {:induction false} LessIsTransitive(a: string, b: string, c: string)
    requires Less(a, b) && Less(b, c)
    ensures Less(a, c)
    decreases |a|
  {
    if a != [] && a[0] == b[0] && b[0] == c[0] { LessIsTransitive(a[1..], b[1..], c[1..]); }
  }

  lemma {:induction false} LessIsTotal(a: string, b: string)
    ensures a == b || Less(a, b) || Less(b, a)
    decreases |a|
  {
    if a != [] && b != [] && a[0] == b[0] {
      LessIsTotal(a[1..], b[1..]);
      if a[1..] == b[1..] { assert a == [a[0]] + a[1..] == [b[0]] + b[1..] == b; }
    }
  }

  ghost predicate Sorted(ids: seq<string>) {
    forall i, j | 0 <= i < j < |ids| :: Less(ids[i], ids[j])
  }

  /** ids lists exactly the elements of `keys`, in order. */
  ghost predicate ListsSorted(ids: seq<string>, keys: set<string>) {
    Sorted(ids) && (forall k :: k in ids <==> k in keys)
  }

  lemma HeadIsLeast(ids: seq<string>, keys: set<string>, k: string)
    requires ListsSorted(ids, keys) && ids != [] && k in keys
    ensures k == ids[0] || Less(ids[0], k)
  {
    var i :| 0 <= i < |ids| && ids[i] == k;
  }

  lemma TailLists(ids: seq<string>, keys: set<string>)
    requires ListsSorted(ids, keys) && ids != []
    ensures ids[0] in keys && ListsSorted(ids[1..], keys - {ids[0]})
  {
    var rest := ids[1..];
    forall k ensures k in rest <==> k in keys - {ids[0]} {
      if k in rest {
        var i :| 0 <= i < |rest| && rest[i] == k;
        assert k == ids[i + 1];
        LessIsStrict(k);
      }
      if k in keys - {ids[0]} {
        var i :| 0 <= i < |ids| && ids[i] == k;
        assert rest[i - 1] == k;
      }
    }
  }

  lemma Member(ids: seq<string>, keys: set<string>, i: nat)
    requires ListsSorted(ids, keys) && i < |ids|
    ensures ids[i] in keys
  {
  }

  /** A set has one sorted listing, so the order Go's map iteration produced does not matter. */
  lemma {:induction false} SortedUnique(a: seq<string>, b: seq<string>, keys: set<string>)
    requires ListsSorted(a, keys) && ListsSorted(b, keys)
    ensures a == b
    decreases |a|
  {
    if a != [] { Member(a, keys, 0); }
    if b != [] { Member(b, keys, 0); }
    if a != [] && b != [] {
      TailLists(a, keys);
      TailLists(b, keys);
      HeadIsLeast(a, keys, b[0]);
      HeadIsLeast(b, keys, a[0]);
      if a[0] != b[0] {
        LessIsTransitive(a[0], b[0], a[0]);
        LessIsStrict(a[0]);
      }
      SortedUnique(a[1..], b[1..], keys - {a[0]});
    }
  }

  function InsertSorted(ids: seq<string>, k: string): seq<string> {
    if ids == [] || Less(k, ids[0]) then [k] + ids else [ids[0]] + InsertSorted(ids[1..], k)
  }

  lemma {:induction false} InsertLists(ids: seq<string>, keys: set<string>, k: string)
    requires ListsSorted(ids, keys) && k !in keys
    ensures ListsSorted(InsertSorted(ids, k), keys + {k})
    decreases |ids|
  {
    if ids == [] {
    } else if Less(k, ids[0]) {
      forall j | 0 <= j < |ids| ensures Less(k, ids[j]) {
        if j > 0 { LessIsTransitive(k, ids[0], ids[j]); }
      }
    } else {
      assert ids[0] in ids;
      LessIsTotal(k, ids[0]);
      TailLists(ids, keys);
      var rest := InsertSorted(ids[1..], k);
      InsertLists(ids[1..], keys - {ids[0]}, k);
      forall j | 0 <= j < |rest| ensures Less(ids[0], rest[j]) {
        assert rest[j] in rest;
        if rest[j] != k { HeadIsLeast(ids, keys, rest[j]); }
      }
      assert keys - {ids[0]} + {k} + {ids[0]} == keys + {k};
      assert forall x :: x in [ids[0]] + rest <==> x == ids[0] || x in rest;
    }
  }

  /** Collect the keys, then sort them. */
  method SortKeys(keys: set<string>) returns (ids: seq<string>)
    ensures ListsSorted(ids, keys)
  {
    ids := [];
    var left := keys;
    while left != {}
      invariant left <= keys
      invariant ListsSorted(ids, keys - left)
      decreases |left|
    {
      var k :| k in left;
      InsertLists(ids, keys - left, k);
      assert keys - left + {k} == keys - (left - {k});
      ids := InsertSorted(ids, k);
      left := left - {k};
    }
    assert keys - left == keys;
  }

  lemma {:induction false} SortedExists(keys: set<string>) returns (ids: seq<string>)
    ensures ListsSorted(ids, keys)
    decreases |keys|
  {
    if keys == {} {
      ids := [];
    } else {
      var k :| k in keys;
      var rest := SortedExists(keys - {k});
      InsertLists(rest, keys - {k}, k);
      ids := InsertSorted(rest, k);
      assert keys - {k} + {k} == keys;
    }
  }

  ghost function SortedOf(keys: set<string>): (ids: seq<string>)
    ensures ListsSorted(ids, keys)
  {
    assert exists ids :: ListsSorted(ids, keys) by {
      var ids := SortedExists(keys);
    }
    var ids :| ListsSorted(ids, keys); ids
  }
}
