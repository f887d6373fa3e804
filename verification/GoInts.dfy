/** Go's fixed-width integers over Dafny's unbounded `int`: the ranges, the
    two's-complement wrap-around of an unchecked sum, and the truncating quotient. */
module GoInts {
  const INT32_MAX: int := 0x7fff_ffff
  const INT32_MIN: int := -0x8000_0000
  const UINT32_MOD: int := 0x1_0000_0000
  const INT64_MAX: int := 0x7fff_ffff_ffff_ffff
  const INT64_MIN: int := -0x8000_0000_0000_0000
  const UINT64_MAX: int := 0xffff_ffff_ffff_ffff
  const UINT64_MOD: int := 0x1_0000_0000_0000_0000

  type int32 = x: int | -0x8000_0000 <= x <= 0x7fff_ffff
  type uint32 = x: int | 0 <= x < 0x1_0000_0000
  type int64 = x: int | -0x8000_0000_0000_0000 <= x <= 0x7fff_ffff_ffff_ffff
  type uint64 = x: int | 0 <= x <= 0xffff_ffff_ffff_ffff

  datatype Option<+T> = None | Some(value: T)

  predicate InInt32(x: int) { INT32_MIN <= x <= INT32_MAX }

  predicate InInt64(x: int) { INT64_MIN <= x <= INT64_MAX }

  /** Any sum or difference of int32 values, and any uint32, lies here before it is reduced. */
  type wide32 = x: int | -0x1_0000_0000 <= x < 0x1_0000_0000

  function Wrap32(x: wide32): (r: int32)
    ensures r == x <==> InInt32(x)
  {
    if x > INT32_MAX then x - UINT32_MOD else if x < INT32_MIN then x + UINT32_MOD else x
  }

  /** Wrapping keeps the value modulo 2^32. */
  lemma Wrap32Congruent(x: wide32) returns (k: int)
    ensures Wrap32(x) == x + k * 0x1_0000_0000
  {
    k := if x > INT32_MAX then -1 else if x < INT32_MIN then 1 else 0;
  }

  /** Any sum, difference or negation of int64 values lies here before it is reduced. */
  type wide64 = x: int | -0x1_0000_0000_0000_0000 <= x < 0x1_0000_0000_0000_0000

  function Wrap64(x: wide64): (r: int64)
    ensures r == x <==> InInt64(x)
  {
    if x > INT64_MAX then x - UINT64_MOD else if x < INT64_MIN then x + UINT64_MOD else x
  }

  /** Reduction of any integer to its int64 residue, for sums that were wrapped term by term. */
  function Residue64(x: int): (r: int64) {
    (x - INT64_MIN) % UINT64_MOD + INT64_MIN
  }

  lemma ResidueShift(x: int, k: int)
    ensures Residue64(x + k * UINT64_MOD) == Residue64(x)
  {
    var y := x - INT64_MIN;
    assert y == (y / UINT64_MOD) * UINT64_MOD + y % UINT64_MOD;
    var z := y + k * UINT64_MOD;
    assert z == (z / UINT64_MOD) * UINT64_MOD + z % UINT64_MOD;
    assert (z / UINT64_MOD - y / UINT64_MOD - k) * UINT64_MOD == y % UINT64_MOD - z % UINT64_MOD;
  }

  /** Wrapping a partial sum first changes nothing: the residue of the total is the same. */
  lemma ResidueAbsorbs(x: wide64, y: int)
    ensures Residue64(Wrap64(x) + y) == Residue64(x + y)
    ensures Residue64(x) == Wrap64(x)
  {
    var k := if x > INT64_MAX then -1 else if x < INT64_MIN then 1 else 0;
    assert Wrap64(x) == x + k * UINT64_MOD;
    ResidueShift(x + y, k);
    ResidueShift(x, k);
    assert Wrap64(x) + y == x + y + k * UINT64_MOD;
  }

  lemma ResidueExact(x: int)
    ensures Residue64(x) == x <==> InInt64(x)
  {
  }

  function Abs(x: int): (r: nat)
    ensures r == x || r == -x
  {
    if x < 0 then -x else x
  }

  /** The quotient truncated toward zero, as Go's `/` and `big.Int.Quo` compute it. */
  function Quo(a: int, b: int): int
    requires b != 0
  {
    var q := Abs(a) / Abs(b);
    if (a < 0) == (b < 0) then q else -q
  }

  /** Euclidean division of naturals, with the product as the only nonlinear term. */
  lemma DivNat(n: nat, d: nat)
    requires d > 0
    ensures 0 <= n / d
    ensures (n / d) * d <= n < (n / d) * d + d
  {
    assert n == (n / d) * d + n % d;
  }

  /** A truncated quotient misses the dividend by less than the divisor, from the zero side. */
  lemma QuoBounds(a: int, b: int)
    requires b != 0
    ensures Abs(Quo(a, b) * b - a) < Abs(b)
    ensures Abs(Quo(a, b)) * Abs(b) <= Abs(a) < Abs(Quo(a, b)) * Abs(b) + Abs(b)
    ensures Quo(a, b) == 0 || (Quo(a, b) < 0 <==> (a < 0) != (b < 0))
  {
    var q, d := Abs(a) / Abs(b), Abs(b);
    DivNat(Abs(a), d);
    assert Abs(Quo(a, b)) == q;
    SignedProduct(q, b, (a < 0) == (b < 0));
  }

  lemma SignedProduct(q: int, b: int, same: bool)
    ensures (if same then q else -q) * b == if same == (b < 0) then -(q * Abs(b)) else q * Abs(b)
  {
  }
}
