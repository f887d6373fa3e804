/** The ledger's domain types and its fixed-point multiply and divide. */
module Ledger {
  import opened GoInts

  const AMOUNT_SCALE: int := 100_000_000
  const AMOUNT_FRACTION_DIGITS: int := 8
  const MAX_AMOUNT: int := 1_000_000_000_000_000_000

  type EventId = nat

  /** Reconciled state is kept per tenant and instrument. */
  datatype Key = Key(tenant: string, instrument: string)

  /** A trade as it arrives; the store gives it an ID when it is inserted. */
  datatype Transaction = Transaction(event: EventId, key: Key, side: string, quantity: int64, price: int64)

  datatype State = State(position: int64, averageCost: int64, realizedPnL: int64, watermark: Option<int64>)

  const ZERO_STATE := State(0, 0, 0, None)

  /** The exact value of a quantity at a unit price, scaled twice. */
  function Notional(quantity: int, price: int): int {
    quantity * price
  }

  function MulAmount(a: int64, b: int64): (r: Option<int64>) {
    var product := Quo(Notional(a, b), AMOUNT_SCALE);
    if InInt64(product) then Some(product) else None
  }

  function DivAmount(a: int64, b: int64): (r: Option<int64>) {
    if b == 0 then None
    else
      var quotient := Quo(a * AMOUNT_SCALE, b);
      if InInt64(quotient) then Some(quotient) else None
  }

  /** Rescaling loses less than one unit of the scale and never gains magnitude. */
  lemma MulAmountExactness(a: int64, b: int64)
    ensures MulAmount(a, b).Some? ==>
              var r := MulAmount(a, b).value;
              && Abs(r * AMOUNT_SCALE - Notional(a, b)) < AMOUNT_SCALE
              && Abs(r) * AMOUNT_SCALE <= Abs(Notional(a, b))
              && (r == 0 || (r < 0 <==> Notional(a, b) < 0))
    ensures MulAmount(a, b).None? <==>
            Abs(Notional(a, b)) >= (INT64_MAX + if Notional(a, b) < 0 then 2 else 1) * AMOUNT_SCALE
  {
    QuoBounds(Notional(a, b), AMOUNT_SCALE);
  }

  /** Dividing loses less than one divisor and never gains magnitude. */
  lemma DivAmountExactness(a: int64, b: int64)
    ensures DivAmount(a, b).Some? ==>
              var r := DivAmount(a, b).value;
              && b != 0
              && Abs(Notional(b, r) - a * AMOUNT_SCALE) < Abs(b)
              && Notional(Abs(b), Abs(r)) <= Abs(a) * AMOUNT_SCALE
              && (a == 0 ==> r == 0)
              && (r == 0 || (r < 0 <==> (a < 0) != (b < 0)))
    ensures DivAmount(a, b).None? <==>
            b == 0 || Abs(a) * AMOUNT_SCALE >= Notional(Abs(b), if (a < 0) == (b < 0) then INT64_MAX + 1
                else INT64_MAX + 2)
  {
    if b != 0 {
      QuoFitsIff(a, b);
      QuoBounds(a * AMOUNT_SCALE, b);
      hide Quo;
      var q := Quo(a * AMOUNT_SCALE, b);
      Commutes(q, b);
      Commutes(Abs(q), Abs(b));
    }
  }

  lemma QuoFitsIff(a: int64, b: int64)
    requires b != 0
    ensures InInt64(Quo(a * AMOUNT_SCALE, b)) <==>
            Abs(a) * AMOUNT_SCALE < Notional(Abs(b), if (a < 0) == (b < 0) then INT64_MAX + 1 else INT64_MAX + 2)
  {
    var q := Quo(a * AMOUNT_SCALE, b);
    QuoBounds(a * AMOUNT_SCALE, b);
    hide Quo;
    var limit := if (a < 0) == (b < 0) then INT64_MAX + 1 else INT64_MAX + 2;
    BelowIff(Abs(q), Abs(b), limit, Abs(a) * AMOUNT_SCALE);
  }

  /** A quotient is below a limit exactly when the dividend is below the divisor times that limit. */
  lemma BelowIff(q: nat, d: nat, limit: nat, n: nat)
    requires d > 0 && q * d <= n < q * d + d
    ensures q < limit <==> n < Notional(d, limit)
  {
    if q < limit { Multiples(q + 1, limit, d); } else { Multiples(limit, q, d); }
    Successor(q, d);
    hide Notional;
  }

  lemma Multiples(x: int, y: int, d: nat)
    requires x <= y
    ensures Notional(d, x) <= Notional(d, y)
  {
    assert (y - x) * d >= 0;
  }

  lemma Successor(q: int, d: int)
    ensures Notional(d, q + 1) == q * d + d && Notional(d, q) == q * d
  {
  }

  lemma Commutes(x: int, y: int)
    ensures x * y == Notional(y, x)
  {
  }

  /** A quotient of at most `bound` in exact terms is computed without error. */
  lemma DivAmountInRange(a: int64, b: int64, bound: nat)
    requires b != 0 && bound <= INT64_MAX
    requires Abs(a) * AMOUNT_SCALE <= Notional(Abs(b), bound)
    ensures DivAmount(a, b).Some? && Abs(DivAmount(a, b).value) <= bound
  {
    var q := Quo(a * AMOUNT_SCALE, b);
    QuoBounds(a * AMOUNT_SCALE, b);
    hide Quo;
    BoundedBy(Abs(q), Abs(b), bound);
  }

  lemma BoundedBy(x: nat, n: nat, bound: nat)
    requires n > 0 && x * n <= n * bound
    ensures x <= bound
  {
    assert (bound - x) * n == n * bound - x * n;
  }

  /** One whole unit is neutral for the product, and dividing by itself gives one unit. */
  lemma UnitAmounts(a: int64)
    ensures MulAmount(a, AMOUNT_SCALE) == Some(a)
    ensures a != 0 ==> DivAmount(a, a) == Some(AMOUNT_SCALE)
  {
    QuoBounds(Notional(a, AMOUNT_SCALE), AMOUNT_SCALE);
    hide Quo;
    if a != 0 { QuoOfMultiple(a); }
  }

  lemma QuoOfMultiple(a: int)
    requires a != 0
    ensures Quo(a * AMOUNT_SCALE, a) == AMOUNT_SCALE
  {
    hide Quo, Abs;
    QuoBounds(a * AMOUNT_SCALE, a);
    var q := Quo(a * AMOUNT_SCALE, a);
    Factored(q, a);
    SmallMultiple(q - AMOUNT_SCALE, a);
  }

  lemma Factored(q: int, a: int)
    ensures q * a - a * AMOUNT_SCALE == (q - AMOUNT_SCALE) * a
  {
  }

  lemma SmallMultiple(k: int, a: int)
    requires Abs(k * a) < Abs(a)
    ensures k == 0
  {
  }
}
