/** Weighted-average-cost accounting: one trade folded into a reconciled state, and what a whole
    run of trades keeps. Every unchecked int64 operation of the code is written with `Wrap64`. */
module Accounting {
  import opened GoInts
  import opened Ledger

  datatype Result = Ok(state: State) | Err

  /** A trade by its signed quantity: positive buys, negative sells. */
  datatype Trade = Trade(quantity: int64, price: int64)

  predicate SameDirection(s: State, quantity: int64) {
    s.position == 0 || (s.position > 0) == (quantity > 0)
  }

  function Magnitude(x: int64): int64 {
    if x < 0 then Wrap64(0 - x) else x
  }

  function ApplyTrade(s: State, t: Trade): Result {
    if SameDirection(s, t.quantity) then Extend(s, t) else Oppose(s, t)
  }

  /** Same side, or flat: blend the cost bases. */
  function Extend(s: State, t: Trade): Result {
    var existingCost, addedCost := MulAmount(s.position, s.averageCost), MulAmount(t.quantity, t.price);
    if existingCost.None? || addedCost.None? then Err
    else
      var newPosition := Wrap64(s.position + t.quantity);
      match DivAmount(Wrap64(existingCost.value + addedCost.value), newPosition)
      case Some(averageCost) => Ok(s.(averageCost := averageCost, position := newPosition))
      case None => Err
  }

  function ClosingQuantity(s: State, t: Trade): int64 {
    var p, q := Magnitude(s.position), Magnitude(t.quantity);
    if p < q then p else q
  }

  function PnLPerUnit(s: State, t: Trade): int64 {
    if s.position > 0 then Wrap64(t.price - s.averageCost) else Wrap64(s.averageCost - t.price)
  }

  /** Other side: close, realise, and perhaps flip at a fresh basis. */
  function Oppose(s: State, t: Trade): Result {
    match MulAmount(ClosingQuantity(s, t), PnLPerUnit(s, t))
    case None => Err
    case Some(realized) =>
      var flipQuantity := Wrap64(Magnitude(t.quantity) - ClosingQuantity(s, t));
      var position := Wrap64(s.position + t.quantity);
      var averageCost := if position == 0 then 0 else if flipQuantity > 0 then t.price else s.averageCost;
      Ok(s.(position := position, averageCost := averageCost, realizedPnL := Wrap64(s.realizedPnL + realized)))
  }

  function SignedTrade(txn: Transaction): Option<Trade> {
    if txn.side == "BUY" then Some(Trade(txn.quantity, txn.price))
    else if txn.side == "SELL" then Some(Trade(Wrap64(0 - txn.quantity), txn.price))
    else None
  }

  function ApplyTransaction(s: State, id: int64, txn: Transaction): Result {
    match SignedTrade(txn)
    case None => Err
    case Some(t) =>
      match ApplyTrade(s, t)
      case Err => Err
      case Ok(s') => Ok(s'.(watermark := Some(id)))
  }

  function Fold(s: State, trades: seq<Trade>): Result
    decreases |trades|
  {
    if trades == [] then Ok(s)
    else match ApplyTrade(s, trades[0])
      case Err => Err
      case Ok(s') => Fold(s', trades[1..])
  }

  /** Exact net quantity and exact signed notional, over unbounded integers. */
  function Net(trades: seq<Trade>): int {
    if trades == [] then 0 else trades[0].quantity + Net(trades[1..])
  }

  function Cash(trades: seq<Trade>): int {
    if trades == [] then 0 else Notional(trades[0].quantity, trades[0].price) + Cash(trades[1..])
  }

  /** What ingestion lets through: a non-zero bounded quantity at a positive bounded price. */
  predicate Tradable(t: Trade) {
    t.quantity != 0 && Abs(t.quantity) <= MAX_AMOUNT && 0 < t.price <= MAX_AMOUNT
  }

  predicate SaneState(s: State) {
    0 <= s.averageCost <= MAX_AMOUNT && (s.position == 0 ==> s.averageCost == 0)
  }

  /** The unchecked cost sum of an extending trade fits. */
  predicate CostSumFits(s: State, t: Trade) {
    var e, a := MulAmount(s.position, s.averageCost), MulAmount(t.quantity, t.price);
    e.Some? && a.Some? ==> InInt64(e.value + a.value)
  }

  /** The unchecked P&L sum of an opposing trade fits. */
  predicate PnLSumFits(s: State, t: Trade) {
    match MulAmount(ClosingQuantity(s, t), PnLPerUnit(s, t))
    case Some(realized) => InInt64(s.realizedPnL + realized)
    case None => true
  }

  /** No unchecked operation of an opposing trade does harm. A short of INT64_MIN cannot be negated, so there the
      code prices the wrong quantity, which is harmless only at zero P&L per unit. */
  predicate OpposeFits(s: State, t: Trade) {
    if s.position == INT64_MIN then s.averageCost == t.price else PnLSumFits(s, t)
  }

  /** No unchecked operation of this one trade does harm. */
  predicate StepFits(s: State, t: Trade) {
    if SameDirection(s, t.quantity) then InInt64(s.position + t.quantity) && CostSumFits(s, t)
    else OpposeFits(s, t)
  }

  predicate RunFits(s: State, trades: seq<Trade>)
    decreases |trades|
  {
    trades == [] || (StepFits(s, trades[0]) &&
                     match ApplyTrade(s, trades[0])
                     case Err => true
                     case Ok(s') => RunFits(s', trades[1..]))
  }

  // ---- Position ----

  lemma TradeMovesPosition(s: State, t: Trade)
    requires ApplyTrade(s, t).Ok?
    ensures ApplyTrade(s, t).state.position == Wrap64(s.position + t.quantity)
  {
    hide MulAmount, DivAmount;
  }

  /** With or without overflow, a run ends at the exact net quantity reduced to int64. */
  lemma {:induction false} PositionIsNet(s: State, trades: seq<Trade>)
    requires Fold(s, trades).Ok?
    ensures Fold(s, trades).state.position == Residue64(s.position + Net(trades))
    decreases |trades|
  {
    hide ApplyTrade, Residue64, Wrap64;
    if trades != [] {
      var s' := ApplyTrade(s, trades[0]).state;
      TradeMovesPosition(s, trades[0]);
      PositionIsNet(s', trades[1..]);
      ResidueAbsorbs(s.position + trades[0].quantity, Net(trades[1..]));
    } else {
      ResidueAbsorbs(s.position, 0);
    }
  }

  /** Hence the position is the exact sum of signed quantities exactly when that sum is an int64. */
  lemma PositionExactIff(trades: seq<Trade>)
    requires Fold(ZERO_STATE, trades).Ok?
    ensures Fold(ZERO_STATE, trades).state.position == Net(trades) <==> InInt64(Net(trades))
  {
    PositionIsNet(ZERO_STATE, trades);
    ResidueExact(Net(trades));
  }

  /** A buy adds its quantity, a sell takes it away, both at the transaction's price; any other side is refused; the
      watermark becomes the row's ID. */
  lemma TransactionEffect(s: State, id: int64, txn: Transaction)
    ensures txn.side != "BUY" && txn.side != "SELL" ==> ApplyTransaction(s, id, txn).Err?
    ensures txn.side == "BUY" ==> Booked(ApplyTransaction(s, id, txn), ApplyTrade(s, Trade(txn.quantity, txn.price)),
            id)
    ensures txn.side == "SELL" && txn.quantity != INT64_MIN ==>
              Booked(ApplyTransaction(s, id, txn), ApplyTrade(s, Trade(0 - txn.quantity, txn.price)), id)
    ensures ApplyTransaction(s, id, txn).Ok? ==>
              var s' := ApplyTransaction(s, id, txn).state;
              && s'.watermark == Some(id)
              && s'.position == Residue64(if txn.side == "BUY" then s.position + txn.quantity
                  else s.position - txn.quantity)
  {
    if ApplyTransaction(s, id, txn).Ok? {
      var t := SignedTrade(txn).value;
      TradeMovesPosition(s, t);
      hide ApplyTrade, Residue64;
      ResidueAbsorbs(s.position + t.quantity, 0);
      ResidueAbsorbs(0 - txn.quantity, s.position);
    }
  }

  /** The trade's own result, accepted or refused, with the watermark moved. */
  predicate Booked(r: Result, trade: Result, id: int64) {
    if trade.Err? then r.Err? else r == Ok(trade.state.(watermark := Some(id)))
  }

  /** A product that the checked multiplication accepts. */
  predicate ProductFits(x: int) {
    x < 0x8000_0000_0000_0000 * 100_000_000 && -x < 0x8000_0000_0000_0001 * 100_000_000
  }

  /** Of a sane book and an acceptable trade without an overflowing sum: an extending trade is accepted exactly when the
      cost of the book and of the trade are representable, an opposing one exactly when the P&L of what it closes is. */
  lemma AcceptedIff(s: State, t: Trade)
    requires SaneState(s) && Tradable(t) && StepFits(s, t) && s.position != INT64_MIN
    ensures SameDirection(s, t.quantity) ==>
              (ApplyTrade(s, t).Ok? <==> ProductFits(s.position * s.averageCost) && ProductFits(t.quantity * t.price))
    ensures !SameDirection(s, t.quantity) ==>
              var closed := if Abs(s.position) < Abs(t.quantity) then Abs(s.position) else Abs(t.quantity);
              var perUnit := if s.position > 0 then t.price - s.averageCost else s.averageCost - t.price;
              ApplyTrade(s, t).Ok? <==> ProductFits(closed * perUnit)
  {
    if SameDirection(s, t.quantity) {
      ExtendAverage(s, t);
      ProductIff(s.position, s.averageCost);
      ProductIff(t.quantity, t.price);
    } else {
      ProductIff(ClosingQuantity(s, t), PnLPerUnit(s, t));
    }
    hide MulAmount, DivAmount, Notional, ProductFits;
  }

  lemma ProductIff(a: int64, b: int64)
    ensures MulAmount(a, b).Some? <==> ProductFits(a * b)
  {
    MulAmountExactness(a, b);
    hide MulAmount;
  }

  /** An opposing trade is refused exactly when the rescaled product of the closed quantity leaves int64. */
  lemma OpposeErrsIff(s: State, t: Trade)
    requires !SameDirection(s, t.quantity)
    ensures var balance := Notional(ClosingQuantity(s, t), PnLPerUnit(s, t));
            ApplyTrade(s, t).Err? <==>
            (if balance >= 0 then balance >= (INT64_MAX + 1) * AMOUNT_SCALE
                else -balance >= (INT64_MAX + 2) * AMOUNT_SCALE)
  {
    MulAmountExactness(ClosingQuantity(s, t), PnLPerUnit(s, t));
    hide MulAmount, Notional;
  }

  // ---- Cash conservation ----

  /** How far one trade moves realised P&L away from the change of cost basis less the cash paid,
      all times the scale. Zero in exact arithmetic. */
  function StepError(s: State, t: Trade, s': State): int {
    (s'.realizedPnL - s.realizedPnL) * AMOUNT_SCALE
    - (Notional(s'.position, s'.averageCost) - Notional(s.position, s.averageCost) - Notional(t.quantity, t.price))
  }

  function StepSlack(s: State, t: Trade, s': State): int {
    if SameDirection(s, t.quantity) then 2 * AMOUNT_SCALE + Abs(s'.position) else AMOUNT_SCALE
  }

  /** An extending trade conserves cash within the rounding slack exactly when the cost sum fits,
      even if the position itself wraps. */
  lemma ExtendCashLaw(s: State, t: Trade)
    requires SameDirection(s, t.quantity) && ApplyTrade(s, t).Ok?
    ensures var s' := ApplyTrade(s, t).state;
            Abs(StepError(s, t, s')) < StepSlack(s, t, s') <==> CostSumFits(s, t)
  {
    hide MulAmount, DivAmount, Notional, Wrap64;
    var s' := ApplyTrade(s, t).state;
    var e: int, a: int := MulAmount(s.position, s.averageCost).value, MulAmount(t.quantity, t.price).value;
    assert DivAmount(Wrap64(e + a), s'.position) == Some(s'.averageCost) && s'.realizedPnL == s.realizedPnL;
    hide ApplyTrade;
    var basis, added, basis' :=
      Notional(s.position, s.averageCost), Notional(t.quantity, t.price), Notional(s'.position, s'.averageCost);
    assert StepError(s, t, s') == basis + added - basis';
    MulAmountExactness(s.position, s.averageCost);
    MulAmountExactness(t.quantity, t.price);
    DivAmountExactness(Wrap64(e + a), s'.position);
    ExtendSlack(basis, added, basis', e, a, s'.position);
  }

  lemma ExtendSlack(basis: int, added: int, basis': int, e: int64, a: int64, position': int64)
    requires Abs(e * AMOUNT_SCALE - basis) < AMOUNT_SCALE
    requires Abs(a * AMOUNT_SCALE - added) < AMOUNT_SCALE
    requires Abs(basis' - Wrap64(e + a) * AMOUNT_SCALE) < Abs(position')
    ensures Abs(basis + added - basis') < 2 * AMOUNT_SCALE + Abs(position') <==> InInt64(e + a)
  {
  }

  /** The exact value of a closing trade balances to zero before rounding. */
  lemma OpposeBalances(s: State, t: Trade)
    requires !SameDirection(s, t.quantity) && ApplyTrade(s, t).Ok?
    requires s.position != INT64_MIN && t.quantity != INT64_MIN
    requires InInt64(t.price - s.averageCost) && InInt64(s.averageCost - t.price)
    ensures var s' := ApplyTrade(s, t).state;
            Notional(ClosingQuantity(s, t), PnLPerUnit(s, t))
            == Notional(s'.position, s'.averageCost) - Notional(s.position, s.averageCost)
                - Notional(t.quantity, t.price)
  {
    hide MulAmount;
    var s' := ApplyTrade(s, t).state;
    assert s'.position == s.position + t.quantity;
    CloseOut(s.position, t.quantity, s.averageCost, t.price);
  }

  lemma CloseOut(p: int, q: int, c: int, v: int)
    requires p > 0 > q || p < 0 < q || q == 0
    ensures Abs(q) <= Abs(p) ==> Abs(q) * (if p > 0 then v - c else c - v) == (p + q) * c - p * c - q * v
    ensures Abs(q) >= Abs(p) ==> Abs(p) * (if p > 0 then v - c else c - v) == (p + q) * v - p * c - q * v
  {
  }

  /** An opposing trade conserves cash within one unit of scale exactly when the P&L sum fits or, against a short
      of INT64_MIN, exactly when it trades at the average cost. */
  lemma OpposeCashLaw(s: State, t: Trade)
    requires !SameDirection(s, t.quantity) && ApplyTrade(s, t).Ok? && t.quantity != INT64_MIN
    requires InInt64(t.price - s.averageCost) && InInt64(s.averageCost - t.price)
    ensures var s' := ApplyTrade(s, t).state;
            Abs(StepError(s, t, s')) < StepSlack(s, t, s') <==> OpposeFits(s, t)
  {
    hide MulAmount, Notional;
    var closing, perUnit := ClosingQuantity(s, t), PnLPerUnit(s, t);
    MulAmountExactness(closing, perUnit);
    if s.position == INT64_MIN {
      LargestShortCashLaw(s, t);
    } else {
      OpposeBalances(s, t);
      OpposeSlack(Notional(closing, perUnit), MulAmount(closing, perUnit).value, s.realizedPnL);
    }
  }

  /** Against a short of INT64_MIN the code prices -2^63 units instead of the t.quantity it closes. */
  lemma LargestShortCashLaw(s: State, t: Trade)
    requires s.position == INT64_MIN && t.quantity > 0 && ApplyTrade(s, t).Ok? && InInt64(s.averageCost - t.price)
    ensures var s' := ApplyTrade(s, t).state;
            Abs(StepError(s, t, s')) < AMOUNT_SCALE <==> s.averageCost == t.price
  {
    hide MulAmount;
    var s', perUnit := ApplyTrade(s, t).state, s.averageCost - t.price;
    MulAmountExactness(INT64_MIN, perUnit);
    CoverBalances(INT64_MIN, t.quantity, s.averageCost, t.price);
    var realized := MulAmount(INT64_MIN, perUnit).value;
    CoveredValue(t.quantity, perUnit);
    assert Notional(INT64_MIN, perUnit) == INT64_MIN * perUnit;
    LargestShortError(perUnit, Notional(t.quantity, perUnit), realized, s.realizedPnL);
  }

  lemma CoverBalances(p: int, q: int, c: int, v: int)
    ensures Notional(p + q, c) - Notional(p, c) - Notional(q, v) == Notional(q, c - v)
  {
  }

  lemma LargestShortError(perUnit: int, exact: int, realized: int64, pnl: int64)
    requires Abs(realized * AMOUNT_SCALE - INT64_MIN * perUnit) < AMOUNT_SCALE
    requires Abs(realized) * AMOUNT_SCALE <= Abs(INT64_MIN * perUnit)
    requires if perUnit < 0 then INT64_MAX * perUnit <= exact <= 0 else 0 <= exact <= INT64_MAX * perUnit
    ensures Abs((Wrap64(pnl + realized) - pnl) * AMOUNT_SCALE - exact) < AMOUNT_SCALE <==> perUnit == 0
  {
    assert Abs(perUnit) <= AMOUNT_SCALE;
  }

  lemma CoveredValue(quantity: nat, perUnit: int)
    requires quantity <= INT64_MAX
    ensures var exact := Notional(quantity, perUnit);
            if perUnit < 0 then INT64_MAX * perUnit <= exact <= 0 else 0 <= exact <= INT64_MAX * perUnit
  {
    assert (INT64_MAX - quantity) * perUnit == INT64_MAX * perUnit - quantity * perUnit;
  }

  lemma OpposeSlack(balance: int, realized: int64, pnl: int64)
    requires Abs(realized * AMOUNT_SCALE - balance) < AMOUNT_SCALE
    ensures Abs((Wrap64(pnl + realized) - pnl) * AMOUNT_SCALE - balance) < AMOUNT_SCALE <==> InInt64(pnl + realized)
  {
  }

  /** The rounding slack of a whole run: 2S + |new position| per extending trade, S per opposing one. */
  function RunSlack(s: State, trades: seq<Trade>): int
    requires Fold(s, trades).Ok?
    decreases |trades|
  {
    if trades == [] then 0
    else
      var s' := ApplyTrade(s, trades[0]).state;
      StepSlack(s, trades[0], s') + RunSlack(s', trades[1..])
  }

  function RunError(s: State, trades: seq<Trade>, s': State): int {
    (s'.realizedPnL - s.realizedPnL) * AMOUNT_SCALE
    - (Notional(s'.position, s'.averageCost) - Notional(s.position, s.averageCost) - Cash(trades))
  }

  lemma {:induction false} RunConservesCash(s: State, trades: seq<Trade>)
    requires Fold(s, trades).Ok? && RunFits(s, trades) && SaneState(s)
    requires forall t <- trades :: Tradable(t)
    ensures Abs(RunError(s, trades, Fold(s, trades).state)) <= RunSlack(s, trades)
    ensures SaneState(Fold(s, trades).state)
    decreases |trades|
  {
    if trades != [] {
      var t, rest := trades[0], trades[1..];
      var s' := ApplyTrade(s, t).state;
      AverageCostKept(s, t);
      if SameDirection(s, t.quantity) { ExtendCashLaw(s, t); } else { OpposeCashLaw(s, t); }
      RunConservesCash(s', rest);
      var final := Fold(s, trades).state;
      assert RunError(s, trades, final) == StepError(s, t, s') + RunError(s', rest, final);
    }
  }

  /** The position is the exact net and realised P&L is the open cost basis less the cash paid, within the slack. */
  predicate Balanced(s: State, trades: seq<Trade>)
    requires Fold(ZERO_STATE, trades).Ok?
  {
    && s.position == Net(trades)
    && Abs(s.realizedPnL * AMOUNT_SCALE - (Notional(s.position, s.averageCost) - Cash(trades)))
        <= RunSlack(ZERO_STATE, trades)
  }

  /** Cash conservation from an empty book: realised P&L is the open cost basis less the cash paid. */
  lemma CashConservation(trades: seq<Trade>)
    requires Fold(ZERO_STATE, trades).Ok? && RunFits(ZERO_STATE, trades)
    requires forall t <- trades :: Tradable(t)
    ensures Balanced(Fold(ZERO_STATE, trades).state, trades)
  {
    RunConservesCash(ZERO_STATE, trades);
    PositionIsNet(ZERO_STATE, trades);
    NetFits(ZERO_STATE, trades);
    ResidueExact(Net(trades));
  }

  lemma {:induction false} NetFits(s: State, trades: seq<Trade>)
    requires Fold(s, trades).Ok? && RunFits(s, trades)
    ensures InInt64(s.position + Net(trades))
    decreases |trades|
  {
    if trades != [] {
      NetFits(ApplyTrade(s, trades[0]).state, trades[1..]);
    }
  }

  // ---- Average cost ----

  /** The exact weighted cost of the position an extending trade leaves. */
  function WeightedCost(s: State, t: Trade): int {
    Notional(Abs(s.position), s.averageCost) + Notional(Abs(t.quantity), t.price)
  }

  lemma WeightedCostSigned(s: State, t: Trade)
    requires SaneState(s) && Tradable(t) && SameDirection(s, t.quantity)
    ensures Notional(s.position, s.averageCost) == if t.quantity > 0 then Notional(Abs(s.position), s.averageCost)
            else -(Notional(Abs(s.position), s.averageCost))
    ensures Notional(t.quantity, t.price) == if t.quantity > 0 then Notional(Abs(t.quantity), t.price)
            else -(Notional(Abs(t.quantity), t.price))
    ensures 0 <= Notional(Abs(s.position), s.averageCost) <= Abs(s.position) * MAX_AMOUNT
    ensures 0 < Notional(Abs(t.quantity), t.price) <= Abs(t.quantity) * MAX_AMOUNT
  {
    Monotone(Abs(s.position), s.averageCost, MAX_AMOUNT);
    Monotone(Abs(t.quantity), t.price, MAX_AMOUNT);
    SignedProduct(Abs(t.quantity), t.price, t.quantity > 0);
    SignedProduct(Abs(s.position), s.averageCost, t.quantity > 0);
  }

  lemma Monotone(n: nat, x: nat, y: nat)
    requires x <= y
    ensures 0 <= n * x <= n * y
    ensures n > 0 && x > 0 ==> n * x > 0
  {
  }

  /** The new average never exceeds the exact weighted average and trails it by less than
      2S/|position| + 1; the division cannot fail, so only a checked product can. */
  lemma ExtendAverage(s: State, t: Trade)
    requires SaneState(s) && Tradable(t) && SameDirection(s, t.quantity) && StepFits(s, t)
    ensures ApplyTrade(s, t).Err? <==>
            MulAmount(s.position, s.averageCost).None? || MulAmount(t.quantity, t.price).None?
    ensures ApplyTrade(s, t).Ok? ==>
              var s' := ApplyTrade(s, t).state;
              && 0 <= s'.averageCost <= MAX_AMOUNT
              && Abs(s'.position) == Abs(s.position) + Abs(t.quantity)
              && 0 <= WeightedCost(s, t) - Notional(Abs(s'.position), s'.averageCost)
                  < 2 * AMOUNT_SCALE + Abs(s'.position)
  {
    hide MulAmount, DivAmount, Notional, CostSumFits;
    var m1, m2 := MulAmount(s.position, s.averageCost), MulAmount(t.quantity, t.price);
    if m1.Some? && m2.Some? {
      assert InInt64(m1.value + m2.value) by { CostSumInRange(s, t); }
      ExtendQuotient(s, t, m1.value, m2.value);
    }
  }

  lemma CostSumInRange(s: State, t: Trade)
    requires CostSumFits(s, t) && MulAmount(s.position, s.averageCost).Some? && MulAmount(t.quantity, t.price).Some?
    ensures InInt64(MulAmount(s.position, s.averageCost).value + MulAmount(t.quantity, t.price).value)
  {
    hide MulAmount;
  }

  lemma CostCeiling(p: nat, q: nat, basis: int, added: int)
    requires basis <= p * MAX_AMOUNT && added <= q * MAX_AMOUNT
    ensures basis + added <= Notional(p + q, MAX_AMOUNT)
  {
  }

  /** The two truncated costs of an extending trade, against the exact ones. */
  lemma ExtendCosts(s: State, t: Trade, e: int, a: int)
    requires SaneState(s) && Tradable(t) && SameDirection(s, t.quantity)
    requires MulAmount(s.position, s.averageCost) == Some(e) && MulAmount(t.quantity, t.price) == Some(a)
    ensures var basis, added := Notional(Abs(s.position), s.averageCost), Notional(Abs(t.quantity), t.price);
            && 0 <= basis - Abs(e) * AMOUNT_SCALE < AMOUNT_SCALE && 0 <= added - Abs(a) * AMOUNT_SCALE < AMOUNT_SCALE
            && basis + added <= Notional(Abs(s.position) + Abs(t.quantity), MAX_AMOUNT)
    ensures Abs(e + a) == Abs(e) + Abs(a) && (e + a == 0 || (e + a > 0 <==> t.quantity > 0))
  {
    MulAmountExactness(s.position, s.averageCost);
    MulAmountExactness(t.quantity, t.price);
    WeightedCostSigned(s, t);
    hide MulAmount, Notional;
    var basis, added := Notional(Abs(s.position), s.averageCost), Notional(Abs(t.quantity), t.price);
    TruncatedCosts(basis, added, e, a, t.quantity > 0);
    CostCeiling(Abs(s.position), Abs(t.quantity), basis, added);
  }

  /** The division step on the two truncated costs. */
  lemma ExtendQuotient(s: State, t: Trade, e: int, a: int)
    requires SaneState(s) && Tradable(t) && SameDirection(s, t.quantity) && InInt64(s.position + t.quantity) &&
             InInt64(e + a)
    requires MulAmount(s.position, s.averageCost) == Some(e) && MulAmount(t.quantity, t.price) == Some(a)
    ensures var n := s.position + t.quantity;
            && DivAmount(e + a, n).Some?
            && var q := DivAmount(e + a, n).value;
            0 <= q <= MAX_AMOUNT && 0 <= WeightedCost(s, t) - Notional(Abs(n), q) < 2 * AMOUNT_SCALE + Abs(n)
  {
    ExtendCosts(s, t, e, a);
    hide MulAmount, DivAmount, Notional, SaneState;
    var n := s.position + t.quantity;
    SignedQuotient(e + a, n, MAX_AMOUNT);
    var q := DivAmount(e + a, n).value;
    TrailingAverage(Notional(Abs(s.position), s.averageCost), Notional(Abs(t.quantity), t.price), Abs(e), Abs(a),
                    Notional(Abs(n), q), Abs(n));
  }

  /** Dividing a cost by a position on its own side, both by magnitude. */
  lemma SignedQuotient(cost: int64, n: int64, bound: nat)
    requires n != 0 && bound <= INT64_MAX && Abs(cost) * AMOUNT_SCALE <= Notional(Abs(n), bound)
    requires cost == 0 || (cost > 0 <==> n > 0)
    ensures DivAmount(cost, n).Some?
    ensures var q := DivAmount(cost, n).value;
            0 <= q <= bound && 0 <= Abs(cost) * AMOUNT_SCALE - Notional(Abs(n), q) < Abs(n)
  {
    DivAmountInRange(cost, n, bound);
    DivAmountExactness(cost, n);
    hide DivAmount, Notional;
    SignedNotional(n, DivAmount(cost, n).value);
  }

  lemma TruncatedCosts(basis: int, added: int, e: int, a: int, positive: bool)
    requires Abs(e * AMOUNT_SCALE - (if positive then basis else 0 - basis)) < AMOUNT_SCALE &&
             Abs(e) * AMOUNT_SCALE <= basis
    requires Abs(a * AMOUNT_SCALE - (if positive then added else 0 - added)) < AMOUNT_SCALE &&
             Abs(a) * AMOUNT_SCALE <= added
    requires e == 0 || (e < 0 <==> !positive)
    requires a == 0 || (a < 0 <==> !positive)
    ensures Abs(e + a) == Abs(e) + Abs(a) && Abs(e + a) * AMOUNT_SCALE <= basis + added
    ensures 0 <= basis - Abs(e) * AMOUNT_SCALE < AMOUNT_SCALE && 0 <= added - Abs(a) * AMOUNT_SCALE < AMOUNT_SCALE
  {
  }

  lemma SignedNotional(n: int, q: nat)
    ensures Notional(n, q) == if n > 0 then Notional(Abs(n), q) else -Notional(Abs(n), q)
  {
  }

  lemma TrailingAverage(basis: nat, added: nat, e: nat, a: nat, basis': int, n: nat)
    requires 0 <= basis - e * AMOUNT_SCALE < AMOUNT_SCALE && 0 <= added - a * AMOUNT_SCALE < AMOUNT_SCALE
    requires 0 <= (e + a) * AMOUNT_SCALE - basis' < n
    ensures 0 <= basis + added - basis' < 2 * AMOUNT_SCALE + n
  {
  }

  lemma AverageCostKept(s: State, t: Trade)
    requires SaneState(s) && Tradable(t) && StepFits(s, t) && ApplyTrade(s, t).Ok?
    ensures SaneState(ApplyTrade(s, t).state)
  {
    if SameDirection(s, t.quantity) { ExtendAverage(s, t); }
  }

  // ---- Where the code leaves the exact law ----

  function Repeat(k: nat, quantity: int64): seq<Trade> {
    seq(k, _ => Trade(quantity, AMOUNT_SCALE))
  }

  lemma {:induction false} FoldSnoc(s: State, trades: seq<Trade>, t: Trade)
    requires Fold(s, trades).Ok?
    ensures Fold(s, trades + [t]) == ApplyTrade(Fold(s, trades).state, t)
    decreases |trades|
  {
    if trades == [] {
      assert trades + [t] == [t];
    } else {
      assert (trades + [t])[1..] == trades[1..] + [t];
      FoldSnoc(ApplyTrade(s, trades[0]).state, trades[1..], t);
    }
  }

  /** A book traded only at one whole unit of price. */
  function AtPar(position: int64): State {
    State(position, if position == 0 then 0 else AMOUNT_SCALE, 0, None)
  }

  lemma ParTrade(position: int64, quantity: int64)
    requires SameDirection(AtPar(position), quantity) && Wrap64(position + quantity) != 0
    ensures ApplyTrade(AtPar(position), Trade(quantity, AMOUNT_SCALE)) == Ok(AtPar(Wrap64(position + quantity)))
  {
    assert MulAmount(0, 0) == Some(0);
    UnitAmounts(position);
    UnitAmounts(quantity);
    UnitAmounts(Wrap64(position + quantity));
    hide MulAmount, DivAmount;
  }

  /** Up to nine trades of the largest quantity on one side. */
  lemma {:induction false} NineTrades(k: nat, quantity: int64)
    requires k <= 9 && (quantity == MAX_AMOUNT || quantity == -MAX_AMOUNT)
    ensures InInt64(k * quantity) && Fold(ZERO_STATE, Repeat(k, quantity)) == Ok(AtPar(k * quantity))
  {
    if k > 0 {
      NineTrades(k - 1, quantity);
      assert Repeat(k, quantity) == Repeat(k - 1, quantity) + [Trade(quantity, AMOUNT_SCALE)];
      FoldSnoc(ZERO_STATE, Repeat(k - 1, quantity), Trade(quantity, AMOUNT_SCALE));
      hide Fold, ApplyTrade, Repeat;
      OneMore(k, quantity);
      ParTrade((k - 1) * quantity, quantity);
    }
  }

  lemma OneMore(k: nat, quantity: int64)
    requires 1 <= k <= 9 && (quantity == MAX_AMOUNT || quantity == -MAX_AMOUNT)
    ensures InInt64((k - 1) * quantity) && InInt64(k * quantity) && k * quantity == (k - 1) * quantity + quantity != 0
    ensures SameDirection(AtPar((k - 1) * quantity), quantity)
  {
  }

  /** Ten accepted buys of the largest amount turn a long book short. */
  lemma TenBuysGoShort()
    ensures var buys := Repeat(10, MAX_AMOUNT);
            && (forall t <- buys :: Tradable(t)) && Fold(ZERO_STATE, buys).Ok?
            && Net(buys) > 0 > Fold(ZERO_STATE, buys).state.position
  {
    NineTrades(9, MAX_AMOUNT);
    var t, nine := Trade(MAX_AMOUNT, AMOUNT_SCALE), Repeat(9, MAX_AMOUNT);
    assert Repeat(10, MAX_AMOUNT) == nine + [t];
    FoldSnoc(ZERO_STATE, nine, t);
    ParTrade(9 * MAX_AMOUNT, MAX_AMOUNT);
    RepeatNet(10, MAX_AMOUNT);
  }

  lemma {:induction false} RepeatNet(k: nat, quantity: int64)
    ensures Net(Repeat(k, quantity)) == k * quantity
  {
    if k > 0 {
      assert Repeat(k, quantity)[1..] == Repeat(k - 1, quantity);
      RepeatNet(k - 1, quantity);
    }
  }

  /** Sells that add up to a short of exactly INT64_MIN. */
  function LargestShort(): seq<Trade> {
    Repeat(9, -MAX_AMOUNT) + [Trade(INT64_MIN + 9 * MAX_AMOUNT, AMOUNT_SCALE)]
  }

  lemma LargestShortIsReached()
    ensures Fold(ZERO_STATE, LargestShort()) == Ok(AtPar(INT64_MIN))
  {
    var last := INT64_MIN + 9 * MAX_AMOUNT;
    NineTrades(9, -MAX_AMOUNT);
    FoldSnoc(ZERO_STATE, Repeat(9, -MAX_AMOUNT), Trade(last, AMOUNT_SCALE));
    ParTrade(-9 * MAX_AMOUNT, last);
    hide Fold, ApplyTrade;
  }

  /** Ten accepted sells reach that short, and covering one unit of it at a profit then books a loss. */
  lemma CoveringTheLargestShortMisbooks()
    ensures var run, t := LargestShort(), Trade(1, 1);
            && (forall u <- run :: Tradable(u)) && Fold(ZERO_STATE, run) == Ok(AtPar(INT64_MIN))
            && var s := AtPar(INT64_MIN);
            && Tradable(t) && t.price < s.averageCost && ApplyTrade(s, t).Ok?
            && ApplyTrade(s, t).state.realizedPnL < 0
            && Abs(StepError(s, t, ApplyTrade(s, t).state)) >= StepSlack(s, t, ApplyTrade(s, t).state)
  {
    LargestShortIsReached();
    hide Fold, MulAmount;
    var s, t := AtPar(INT64_MIN), Trade(1, 1);
    MulAmountExactness(INT64_MIN, AMOUNT_SCALE - 1);
    LargestShortCashLaw(s, t);
  }
}
