# Transaction control plane: a verified model

A Dafny 4.11 model of the trading pipeline's core: fixed-point weighted-average-cost accounting, the
idempotent reconcile protocol over two Postgres tables, the decimal parser and printer, the tenant partition
allocator with hot reload, the circuit breaker, the token-bucket limiter, the consumer loop, partition
reassignment, the operator's decision table and the shared partition map.

Every external system is adversarial. A store operation may succeed, fail before its effect, or take effect and
lose its answer; a call may vanish between any two operations; events may be delivered again at any time; clocks,
signals and broker answers are arbitrary inputs. Fixed-width integers are explicit: each unchecked int64 or int32
operation of the code is written with `Wrap64` or `Wrap32`. Strings hold bytes, one per `char`. `float64` is `real`.

Objects that the code updates in place are classes whose methods are proved equal to a function of the old state;
the theorems about whole runs are proved of those functions.

| file | what it holds |
|---|---|
| `GoInts.dfy`, `Ledger.dfy` | integer widths, truncating division, the ledger's types, `MulAmount` and `DivAmount` |
| `Accounting.dfy` | one trade, and what a run of trades conserves |
| `Digits.dfy`, `AmountText.dfy` | decimal digits, `ParseAmount`, `FormatAmount`, the wire amounts |
| `ReconcileProtocol.dfy` | Reconcile as interleaved steps; at most once |
| `ExactlyOnce.dfy` | one caller per key; exactly once; replay |
| `Overlap.dfy`, `OneCaller.dfy` | two calls of one key at once; events given up and left behind |
| `Reconciler.dfy`, `EndToEnd.dfy` | the code's objects; attempts one after another; the accounting laws of the stored ledger |
| `ConsumerLoop.dfy`, `PartitionedConsumers.dfy` | the poll loop against the stores; partitioning as the ground of the one-caller rule |
| `Fnv1a.dfy`, `TenantOrder.dfy`, `Reservations.dfy`, `PartitionTable.dfy` | hashing, tenant order, carving blocks, routing on one table |
| `TopicRouting.dfy`, `PartitionLists.dfy`, `ClosedLoop.dfy` | hot reload, partition lists, the operator/publisher/processor loop |
| `Breaker.dfy`, `RateLimiter.dfy` | circuit breaker, token bucket |
| `Consumer.dfy`, `Assignment.dfy` | poll loop, partition reassignment |
| `TenantOperator.dfy`, `PartitionMap.dfy` | decision table, shared map under optimistic concurrency |

Where the code departs from what its comments say, the code is modelled and the exact boundary is proved:

- `MaxAmount` is said to rule out int64 overflow. Ten accepted buys of the largest amount turn a long book short
  (`TenBuysGoShort`). The position is the exact sum exactly when that sum is an int64 (`PositionExactIff`). An
  extending trade conserves cash exactly when its cost sum fits (`ExtendCashLaw`). An opposing trade conserves it
  exactly when its P&L sum fits or, against a short of the least int64, exactly when it trades at the average cost
  (`OpposeCashLaw`); ten accepted sells reach that short (`CoveringTheLargestShortMisbooks`).
- A stale upsert is said to mean the state "already reflects" the trade. When a later row of the key was written
  between this call's read and its upsert, it does not: the trade is in no state and both calls return nil
  (`StaleUpsertLosesATrade`). Of two calls of one key, both trades are kept exactly when the earlier row is written
  before the later call reads (`BothTradesKeptIff`).
- An event that was dead-lettered after its insert is never applied once a later one of its key has been, although
  its replay returns nil (`SkippedEventIsLost`). For an event that would still apply, that is the exact
  condition (`LostForGoodIff`).
- The parser rejects an exact zero that needs more than 19 digits stripped (`ZeroWithDeepExponentIsRejected`).
- With one partition and any reservation, routing a tenant that got no block divides by zero, whether unreserved or
  dropped (`PanicIff`); explicit blocks stay in bounds exactly when no `cursor + size` wraps (`CarveInBoundsIff`).
- "Only the probe decides" holds exactly when no earlier call is in flight (`ProbeAloneDecidesIff`).
- The operator reads the shared map through a cache. Updates survive that (`NoLostUpdates`), but a pass whose cache
  predates its tenant's own last commit can return nil without its change (`StaleReadSkipsARemoval`), and a retry
  after a lost create creates again while its cache still shows no object (`CreatesIff`).
- Replica bounds and the agreement of state and flag after a pass have their exact conditions (`BoundsIff`,
  `ConsistentIff`).

## Model

| member | source | states |
|---|---|---|
| `Ledger.MulAmountExactness` | internal/ledger/amount.go:178-185 | the rescaled product misses the exact one by less than one scale unit, never gains magnitude or changes sign, and fails exactly when the truncated product leaves int64 |
| `Ledger.DivAmountExactness` | internal/ledger/amount.go:192-202 | the quotient times the divisor misses the dividend by less than the divisor, from the zero side, and the division fails exactly for a zero divisor or a quotient outside int64 |
| `Ledger.DivAmountInRange` | internal/ledger/amount.go:192-202 | a quotient bounded in exact terms is computed without error and within the bound |
| `Accounting.PositionIsNet` | internal/processor/processor.go:136-193 | after any run of trades, overflowing or not, the position is the exact net quantity reduced to int64 |
| `Accounting.PositionExactIff` | internal/processor/processor.go:136-193 | the position equals the exact sum of signed quantities if and only if that sum is an int64 |
| `Accounting.ExtendCashLaw` | internal/processor/processor.go:138-156 | an extending trade conserves cash within 2S + new position if and only if the unchecked cost sum fits |
| `Accounting.OpposeCashLaw` | internal/processor/processor.go:158-192 | a partial close, full close or flip conserves cash within S if and only if the unchecked P&L sum fits or, at a position of the least int64, the price is the average cost |
| `Accounting.RunConservesCash` | internal/processor/processor.go:136-193 | over any non-wrapping run from a sane state the cash error is within the summed slack and the average-cost invariant is kept |
| `Accounting.CashConservation` | internal/processor/processor.go:119-193 | from an empty book, realised P&L times S is position times average cost less the exact cash, within the summed slack, and the position is the exact net |
| `Accounting.ExtendAverage` | internal/processor/processor.go:122-156 | the new average never exceeds the exact weighted average, trails it by less than 2S/position + 1, stays within MaxAmount, and the trade errors only when a checked product overflows |
| `Accounting.AverageCostKept` | internal/processor/processor.go:136-193 | every non-wrapping trade keeps 0 <= average cost <= MaxAmount and a zero average on a flat book |
| `Accounting.TransactionEffect` | internal/processor/processor.go:84-117 | a buy is the trade of its quantity, a sell that of its negated quantity, both at the transaction's price, accepted or refused with that trade; any other side is refused; the watermark becomes the row's ID and the position moves by the quantity |
| `Accounting.AcceptedIff` | internal/processor/processor.go:136-193 | of a sane book without an overflowing sum, an extending trade is accepted if and only if both costs are representable, an opposing one if and only if the P&L of the closed quantity is |
| `Accounting.OpposeErrsIff` | internal/processor/processor.go:158-182 | an opposing trade is refused exactly when the truncated P&L product leaves int64 |
| `Accounting.TenBuysGoShort` | internal/ledger/amount.go:21-25 | ten accepted buys of MaxAmount leave a negative position |
| `Accounting.CoveringTheLargestShortMisbooks` | internal/processor/processor.go:158-182 | ten accepted sells leave a short of the least int64, and covering one unit of it at a profit then books a loss and breaks the cash law |
| `AmountText.MulPow10` | internal/ledger/amount.go:121-136 | for power >= 0 the loop succeeds exactly when base * 10^power fits uint64, and then returns it |
| `AmountText.IsDigits` | internal/ledger/amount.go:106-113 | true exactly for strings of ASCII digits |
| `AmountText.ScaleMagnitude` | internal/ledger/amount.go:76-95 | the shift by a power of ten, up or down, with its error cases |
| `AmountText.ParseMagnitude` | internal/ledger/amount.go:48-95 | the part of the parser after the sign |
| `AmountText.ParseAmount` | internal/ledger/amount.go:33-102 | the stepwise parser computes `Parse` |
| `AmountText.ParseLiteral` | internal/ledger/amount.go:33-102 | every well-formed decimal literal is accepted if and only if it is representable, and then denotes the result exactly |
| `AmountText.AcceptedIsLiteral` | internal/ledger/amount.go:33-102 | only spellings of well-formed literals are accepted |
| `AmountText.ParserExactness` | internal/ledger/amount.go:27-102 | over all strings: acceptance is being a representable literal, and the result is the denoted decimal times 10^8 with no rounding or wrap |
| `AmountText.WholeUnits` | internal/ledger/amount.go:10-25 | a whole number parses to that many units of the accounting scale |
| `Digits.AtoiOfNumber` | internal/ledger/amount.go:52 | an exponent of digits with an optional sign reads as plus or minus their value when that is an int64 |
| `Digits.AtoiAcceptsNumbers` | internal/ledger/amount.go:52 | nothing else is read as an exponent |
| `AmountText.ZeroWithDeepExponentIsRejected` | internal/ledger/amount.go:83-87 | "0e-28" is rejected although zero is representable |
| `AmountText.FormatIsExact` | internal/ledger/amount.go:138-168 | every int64, the least included, prints its exact value with eight fraction digits, a minus exactly when negative and no superfluous leading zero |
| `AmountText.RoundTrip` | internal/ledger/amount.go:141-168 | printing then parsing returns every int64 but the least, which is rejected |
| `AmountText.WireRoundTrip` | internal/ingestion/kafka/publisher.go:289-290 | published amounts decode unchanged if and only if neither is the least int64 |
| `ReconcileProtocol.RunAtMostOnce` | internal/processor/processor.go:41-82 | after any interleaving of any calls, failures and redeliveries, each stored state is the fold of a strictly ID-increasing list of that key's own rows ending at its watermark |
| `ReconcileProtocol.NoEventTwice` | internal/processor/processor.go:29-35 | no such list holds an event twice |
| `ReconcileProtocol.RunIsMonotone` | internal/ledger/storage/reconciled_state_store.go:26-60 | rows are only appended and watermarks only grow, over every interleaving |
| `ExactlyOnce.RunExactlyOnce` | internal/processor/processor.go:37-82 | with one caller per key, and one key whose new events wait for its stored ones to be acknowledged, any run leaves that key's state folding all its rows in ID order, or all but an unacknowledged last one; if all are acknowledged, all are folded; other keys may give events up |
| `ExactlyOnce.AckedIsComplete` | internal/processor/processor.go:61-63 | when every row is acknowledged every row is covered by its key's watermark |
| `ExactlyOnce.ReplayChangesNothing` | internal/processor/kafka/reload.go:156-189 | on covered stores, replaying stored events in any interleaving with any failures changes neither table |
| `Overlap.ConcurrentCallersLoseATrade` | internal/processor/processor.go:53-82 | two uncovered calls of one key that read before either writes, the earlier row written first: both acknowledge, the earlier trade is gone |
| `Overlap.StaleUpsertLosesATrade` | internal/processor/processor.go:70-78 | the same with the later row written first: the earlier call's upsert is stale, it returns nil, and its trade is in no state |
| `Overlap.BothTradesKeptIff` | internal/processor/processor.go:53-82 | over every interleaving of two answered calls of one key both are acknowledged, and both trades are in the state if and only if the earlier row is written before the later call reads; otherwise the later trade alone is |
| `Overlap.OverlapIsReachable` | internal/processor/processor.go:37-53 | that situation is reached from empty tables by any two events of one key |
| `Overlap.SkippedEventIsLost` | internal/processor/kafka/consumer.go:561-568 | an event left behind after its insert is acknowledged without being applied once a later event of its key has been |
| `Overlap.SkipIsReachable` | internal/ledger/storage/transaction_store.go:36-56 | any event whose insert takes effect and loses its answer leaves such a state |
| `OneCaller.WrittenRowsAreFolded` | internal/processor/processor.go:41-82 | with one live call per key and any events given up, a key's state is the fold in ID order of exactly the rows whose write ran, each once |
| `OneCaller.LaterWriteLoses` | internal/processor/processor.go:61-63 | once a row of the key with a later ID has been written, no continuation writes the row left behind |
| `OneCaller.LostForGoodIff` | internal/processor/kafka/consumer.go:561-568 | a row left behind that would still apply can be recovered if and only if no later row of its key has been written |
| `Reconciler.TransactionStore.Insert` | internal/ledger/storage/transaction_store.go:36-56 | the unique-event insert with its duplicate and failure outcomes and its exact effect on the table |
| `Reconciler.TransactionStore.GetByEventID` | internal/ledger/storage/transaction_store.go:59-73 | the row of that event, or nothing |
| `Reconciler.StateStore.Upsert` | internal/ledger/storage/reconciled_state_store.go:36-60 | writes only when there is no state or watermark yet or the new watermark is strictly greater, reports staleness otherwise, under each failure |
| `Reconciler.StateStore.Get` | internal/ledger/storage/reconciled_state_store.go:63-80 | the stored state, not found, or a failure |
| `Reconciler.Reconciler.Reconcile` | internal/processor/processor.go:41-82 | the sequential code changes both stores and returns exactly as a solo run of the protocol does |
| `Reconciler.SoloIsRun` | internal/processor/processor.go:41-82 | such a solo call is one of the protocol's runs |
| `EndToEnd.FoldRowsIsFold` | internal/processor/processor.go:86-103 | folding ledger rows is folding their signed trades with the watermark carried along |
| `EndToEnd.TradesAreTheRows` | internal/processor/processor.go:86-117 | the net and cash of the folded trades are the ledger's own sums by side, quantity and price |
| `EndToEnd.LedgerBalances` | internal/processor/processor.go:41-193 | after any such run with the key fully acknowledged, its position is the quantity bought less the quantity sold reduced to int64, and its realised P&L times 10^8 is position times average cost less the cash, quantity times price with the sign of the side summed over its rows, within the slack |
| `EndToEnd.SoloPolite` | internal/processor/kafka/consumer.go:460-477 | one call by an otherwise idle consumer obeys the rule for every key with at most its own event pending and, on nil, acknowledges its event |
| `EndToEnd.CleanCallAppliesIff` | internal/processor/processor.go:41-82 | progress: without faults a new event of a settled key is acknowledged if and only if the key's rows with it fold, and the state is then that fold; otherwise its row stays stored and unapplied |
| `EndToEnd.TryKeeps` | internal/processor/kafka/consumer.go:460-477 | an attempt keeps a key on which at most its own event is pending, whatever faults it meets, and on nil acknowledges its event |
| `EndToEnd.AttemptsFoldWhatTheyWrote` | internal/processor/kafka/consumer.go:460-477 | any attempts one after another, given up or not, are a one-caller run: each key's state folds exactly the rows whose write ran and obeys the accounting laws of those rows |
| `EndToEnd.SoloFrame` | internal/processor/processor.go:41-82 | an attempt inside the stream changes the stores and returns as a call on those stores alone does |
| `ConsumerLoop.AttemptIsTheCall` | internal/processor/kafka/consumer.go:466-477 | with Reconcile answering as the calls on the stores do, each attempt in the loop's log succeeded exactly when its call on the stores at that point returned nil |
| `ConsumerLoop.LoopFoldsWhatItWrote` | internal/processor/kafka/consumer.go:513-587 | after any run of the poll loop, whatever it gave up, each key's state is the fold in ID order of exactly the rows whose write ran and obeys the accounting laws of those rows |
| `ConsumerLoop.LoopExactlyOnce` | internal/processor/kafka/consumer.go:513-587 | after any run of the poll loop, a key none of whose records was dead-lettered has one row per event of its handled records, and its state is the fold of all of them in ID order, under any store faults, redeliveries and failures of other keys |
| `PartitionedConsumers.OnePartitionPerKey` | internal/ingestion/kafka/partitioner.go:93-115 | between swaps the partition of a published transaction is a function of its key |
| `PartitionedConsumers.PartitioningGivesOneCaller` | internal/processor/processor.go:37-40 | between swaps every interleaving of one sequential consumer per partition, with failures, redeliveries and restarts, obeys the one-caller rule, so each key's state folds exactly the rows whose write ran |
| `Fnv1a.HashBytes` | internal/ingestion/kafka/partitioner.go:302-313 | the loop computes the FNV-1a fold |
| `Reservations.HashIsFnv1a` | internal/ingestion/kafka/partitioner.go:298-313 | the hash is the offset basis for no bytes, the published value for "a", and for any further byte exclusive or with it times the prime modulo 2^32 |
| `TenantOrder.SortKeys` | internal/ingestion/kafka/partitioner.go:198-202 | lists exactly the map's keys in string order |
| `TenantOrder.LessIff` | internal/ingestion/kafka/partitioner.go:198-202 | string order is byte order at the first difference, a proper prefix first |
| `TenantOrder.SortedUnique` | internal/ingestion/kafka/partitioner.go:136-140 | a key set has one sorted listing, so the layout does not depend on map iteration order |
| `Reservations.CarveTiles` | internal/ingestion/kafka/partitioner.go:204-237 | without wrap the kept tenants own non-empty consecutive blocks within the capacity, in sorted order, and the dropped ones are the sorted rest, dropped only at full capacity |
| `Reservations.CarveInBoundsIff` | internal/ingestion/kafka/partitioner.go:219-233 | every block lies within the capacity if and only if no cursor + size on the way wraps int32 |
| `Reservations.CarveSizes` | internal/ingestion/kafka/partitioner.go:209-232 | a carved block has the size asked for, or runs to the end of the capacity |
| `PartitionTable.CarveBlocks` | internal/ingestion/kafka/partitioner.go:204-234 | the loop computes that layout |
| `PartitionTable.ReservationTable.constructor` | internal/ingestion/kafka/partitioner.go:177-250 | builds the table of the configuration, default size and count |
| `PartitionTable.ReservationTable.PoolRangeFor` | internal/ingestion/kafka/partitioner.go:264-296 | cached block, new block or shared fallback, and the new pool state |
| `PartitionTable.ReservationTable.PartitionFor` | internal/ingestion/kafka/partitioner.go:254-260 | the partition of a tenant and instrument, and the new table |
| `PartitionTable.NewTableGood` | internal/ingestion/kafka/partitioner.go:185-250 | a wrap-free build that leaves a pool has disjoint non-empty blocks below a non-empty pool |
| `PartitionTable.ReservationLaw` | internal/ingestion/kafka/partitioner.go:177-250 | in a wrap-free build every tenant has the partitions it reserved, at least one, unless all but one partition of the topic are reserved; then one block may be cut at that point and the tenants after it in order have none; blocks lie in tenant order and the pool is the rest |
| `PartitionTable.BuildableIf` | internal/ingestion/kafka/partitioner.go:219-233 | no build wraps when every reservation plus the partition count fits int32 |
| `GoInts.Wrap32Congruent` | internal/ingestion/kafka/partitioner.go:224-233 | an int32 sum that wraps keeps its value modulo 2^32 |
| `PartitionTable.PanicIff` | internal/ingestion/kafka/partitioner.go:185-196 | a wrap-free table divides by zero exactly for a tenant without a block, unreserved or dropped, on a single partition with some reservation |
| `PartitionTable.Isolation` | internal/ingestion/kafka/partitioner.go:144-149 | over any call sequence a record lands in a reserved block if and only if it is the owner's |
| `PartitionTable.RoutingIsStable` | internal/ingestion/kafka/partitioner.go:252-296 | the same tenant and instrument keep one partition for the life of a table, fallback included |
| `PartitionTable.LandsByHash` | internal/ingestion/kafka/partitioner.go:252-296 | over any call sequence a record goes to its tenant's block, or its pool block, or the pool partition its tenant's hash picks, and there to start + hash(instrument) mod size |
| `Reservations.SlotIs` | internal/ingestion/kafka/partitioner.go:252-296 | a hash is spread modulo a positive size, and modulo the unsigned value of a size that wrapped below zero |
| `PartitionTable.RoomyIffCeil` | internal/ingestion/kafka/partitioner.go:269-272 | the room condition is at most ceil(poolSize / defaultSize) tenants |
| `PartitionTable.NoSharing` | internal/ingestion/kafka/partitioner.go:23-31 | with no more distinct unreserved tenants than that, two tenants never share a partition |
| `TopicRouting.SplitJoinIff` | internal/ingestion/kafka/partitioner.go:117-127 | a key splits back into tenant and instrument if and only if the tenant holds no colon |
| `TopicRouting.Load` | internal/ingestion/kafka/reload.go:52-71 | each entry's own count for its tenant and nobody else, or nothing if any count is below one |
| `TopicRouting.TenantPartitioner.ReloadOnce` | internal/ingestion/kafka/reload.go:118-128 | swaps the state on a good load and keeps it on a bad one |
| `TopicRouting.TenantPartitioner.UpdateReservations` | internal/ingestion/kafka/partitioner.go:66-68 | a new state with a new identity |
| `TopicRouting.TopicPartitioner.Partition` | internal/ingestion/kafka/partitioner.go:103-115 | rebuilds exactly when state identity or count changed, then routes |
| `TopicRouting.ReservationsAreLastGood` | internal/ingestion/kafka/reload.go:73-83 | after any interleaving the state in force has each tenant's count of the last mapping that loaded and its default size, and is the initial one while none has |
| `TopicRouting.RunFromStart` | internal/ingestion/kafka/partitioner.go:66-115 | a freshly made partitioner keeps the invariant the routing theorems start from, over any reloads, resizes and calls |
| `TopicRouting.ExplicitAgreesWithFresh` | internal/ingestion/kafka/partitioner.go:93-115 | after any interleaving of reloads, resizes and calls an explicit tenant is routed as by a table built from the state just loaded |
| `TopicRouting.RoutedByHash` | internal/ingestion/kafka/partitioner.go:93-115 | through any reloads and resizes a reserved tenant's record goes to start + hash(instrument) mod size of its block in a table built from the state just loaded, any other record to the pool |
| `TopicRouting.IsValidTenantID` | internal/api/transaction_handler.go:272-284 | true exactly for one to 64 bytes that are lower-case letters, digits or hyphens by their codes |
| `TopicRouting.StableBetweenSwaps` | internal/ingestion/kafka/partitioner.go:93-115 | between swaps of state and count every key keeps one partition |
| `TopicRouting.ValidKeysAreIsolated` | internal/api/transaction_handler.go:272-284 | after any interleaving, a validated tenant's record lands in a reserved block if and only if the tenant owns it |
| `PartitionLists.PartitionsForEntry` | internal/processor/kafka/reload.go:66-75 | the set of indices of the block, or an error below one |
| `PartitionLists.PartitionListString` | operator/internal/controller/dedicated_pool.go:123-132 | the comma-separated indices |
| `PartitionLists.TrimmedIsBare` | internal/processor/kafka/consumer.go:188-202 | trimming a field leaves no Unicode white space at either end and drops nothing in between |
| `PartitionLists.SpaceIff` | internal/processor/kafka/consumer.go:188-202 | what is trimmed is exactly the UTF-8 encodings of Unicode's white space characters |
| `PartitionLists.ParsePartitionList` | internal/processor/kafka/consumer.go:188-202 | all fields parsed in order, or an error at the first bad one |
| `PartitionLists.FieldIff` | internal/processor/kafka/consumer.go:192-199 | a field is accepted if and only if, trimmed, it is a non-negative signed number within int64, and reads as its value truncated to int32 |
| `PartitionLists.TruncateCongruent` | internal/processor/kafka/consumer.go:199 | the int32 conversion keeps the value modulo 2^32 |
| `PartitionLists.ListRoundTrip` | internal/processor/kafka/consumer.go:186-202 | the printed list parses back to the block exactly when the block is a non-empty range of valid indices, and is rejected otherwise |
| `ClosedLoop.RebuildIsFixedPoint` | internal/ingestion/kafka/partitioner.go:177-250 | rebuilding from published sizes, with any counts for dropped tenants, gives the same blocks and pool and drops exactly the tenants without a block |
| `ClosedLoop.LoopAgrees` | internal/ingestion/kafka/reload.go:17-28 | the rebuilt table, the processor's set from the map and its set from the printed list are the tenant's one block |
| `Breaker.BreakerMachine.Allow` | internal/corebreaker/corebreaker.go:118-138 | the verdict and new state of each mode |
| `Breaker.BreakerMachine.Record` | internal/corebreaker/corebreaker.go:153-179 | the new state of each mode and outcome |
| `Breaker.AdmissionVerdict` | internal/corebreaker/corebreaker.go:114-138 | a call is the probe exactly when it turns open into half-open, is admitted exactly when closed or the probe, and only the probe changes the machine |
| `Breaker.CounterIsTrailingRun` | internal/corebreaker/corebreaker.go:157-178 | while closed the counter is the trailing run of failures and stays below the threshold |
| `Breaker.TripsExactlyAtThreshold` | internal/corebreaker/corebreaker.go:167-178 | a closed machine opens if and only if an outcome brings the trailing run to the threshold |
| `Breaker.OpenPeriod` | internal/corebreaker/corebreaker.go:129-134 | an open period admits nobody and nothing changes the machine, until the next call that comes at least the timeout after the event that opened it, which is admitted as the probe |
| `Breaker.HalfOpenPeriod` | internal/corebreaker/corebreaker.go:125-134 | a half-open period admits exactly one call |
| `Breaker.ProbeAloneDecidesIff` | internal/corebreaker/corebreaker.go:150-166 | only the probe can end a half-open period if and only if no earlier call is in flight; whoever ends it, success closes and failure re-opens from that moment |
| `Breaker.UndecidedUntilAnswer` | internal/corebreaker/corebreaker.go:125-128 | rejected calls leave a half-open machine as it is |
| `Breaker.LoadBound` | internal/corebreaker/corebreaker.go:118-179 | under a monotone clock and only failures, at most floor(T/timeout) calls are admitted in the T after a trip |
| `Breaker.IgnoredForBreaker` | internal/ledger/breaker.go:40-47 | true exactly when the error matches one of the sentinels |
| `Breaker.IgnoredIsExpected` | internal/ledger/breaker.go:79-207 | the errors that do not count are a duplicate event for Insert, a missing row for GetByEventID and Get, a stale state for Upsert and none for ListByTenant |
| `Breaker.Guarded` | internal/ledger/breaker.go:82-134 | a wrapped call fails fast or forwards, and reports only errors that are not expected outcomes |
| `Breaker.BusinessErrorsNeverTrip` | internal/ledger/breaker.go:36-47 | a repository returning only nil or its expected errors never trips and every call is admitted |
| `RateLimiter.TokenBucket.Allow` | internal/api/rate_limiter.go:36-49 | refill, decide and spend |
| `RateLimiter.Limiter.Allow` | internal/api/rate_limiter.go:101-123 | creates or uses the key's own bucket and touches no other key's |
| `RateLimiter.AtHandIsLeastRoom` | internal/api/rate_limiter.go:36-49 | the tokens at hand are the least room over all windows ending at the request |
| `RateLimiter.AllowedIffConforming` | internal/api/rate_limiter.go:36-49 | a request is allowed if and only if admitting it keeps every window from an earlier request t_i to it within burst + rate * (t - t_i) |
| `RateLimiter.Conformance` | internal/api/rate_limiter.go:16-23 | for requests i <= j of a key with j allowed, the allowed ones number at most burst + rate * (t_j - t_i), on any clock |
| `RateLimiter.SpacedIsAllowed` | internal/api/rate_limiter.go:36-49 | on a monotone clock a request at least 1/rate after the previous one is allowed |
| `RateLimiter.ShardsBehaveAsOneMap` | internal/api/rate_limiter.go:93-123 | over every interleaving of the double-checked lookups, shards and decisions are those of one bucket per key |
| `RateLimiter.GrantedByOneBucket` | internal/api/rate_limiter.go:63-72 | from any point of the decision log on, the requests let through for a key are those its lone bucket allows |
| `RateLimiter.WindowBound` | internal/api/rate_limiter.go:16-23 | over every interleaving, between two decisions of a key with the second a grant, at most burst + rate * (time between) requests of the key are let through |
| `Consumer.ReconcileWithRetry` | internal/processor/kafka/consumer.go:466-477 | at most maxRetries+1 attempts, stopping at the first success and at a cancellation, each outcome as answered |
| `Consumer.HandleRecord` | internal/processor/kafka/consumer.go:544-569 | a record is reconciled, dead-lettered once with its attempt count, or its publish failed |
| `Consumer.HandleBatch` | internal/processor/kafka/consumer.go:535-569 | a partition's records are handled in order, none after a failed publish |
| `Consumer.HandlePoll` | internal/processor/kafka/consumer.go:529-576 | the same over the partitions of a poll |
| `Consumer.Run` | internal/processor/kafka/consumer.go:513-587 | the effects are one segment per record in order: each record of the completed polls reconciled within maxRetries+1 attempts or dead-lettered once with its attempt count, and after a failed publish nothing; every effect is what the outside answered, giving up early is only on cancellation, no retry and no poll is begun once cancelled, and each ending has its cause |
| `Consumer.RunSettles` | internal/processor/kafka/consumer.go:479-486 | conservation: the records settled are exactly those of the completed polls, in order, plus those before a failed publish, which is the last effect |
| `Consumer.AllDoneSettles` | internal/processor/kafka/consumer.go:479-486 | handling every record settles every record exactly once, in order |
| `Assignment.DedicatedConsumer.ApplyAssignment` | internal/processor/kafka/reload.go:156-189 | diff, add, then remove, with the client's every intermediate set |
| `Assignment.DedicatedConsumer.ReloadOnce` | internal/processor/kafka/reload.go:122-148 | applies a good entry and ignores a failed, missing or malformed one |
| `Assignment.TargetIsBlock` | internal/processor/kafka/reload.go:66-75 | the target of an entry is the set of partitions from start to start + count, and there is none without a mapping, an entry or a positive count |
| `Assignment.RunGapFree` | internal/processor/kafka/reload.go:150-189 | over any reloads the client holds the last good target, is never empty, and never drops a partition wanted throughout |
| `Assignment.SharedNeverRemoved` | internal/processor/kafka/reload.go:150-189 | over any reloads, every set the client passes through in one of them includes all that its old and new sets share |
| `TenantOperator.Reconcile` | operator/internal/controller/tradingtenant_controller.go:186-258 | the pass's effect on flag and status for each point it may fail at |
| `TenantOperator.DecisionTable` | operator/internal/controller/tradingtenant_controller.go:301-349 | each resulting state, the replicas it comes with and the flag, as a condition on lag, p99 and their thresholds, replicas and partitions; a pass that fails before or after the flag leaves the status as it was |
| `TenantOperator.BoundsIff` | operator/internal/controller/tradingtenant_controller.go:305-359 | a completed pass ends within the bounds if and only if it starts at most at the maximum or a scaling branch overrides |
| `TenantOperator.ConsistentIff` | operator/internal/controller/tradingtenant_controller.go:194-258 | state and flag stay consistent exactly unless the pass fails after isolating a stable tenant |
| `TenantOperator.RunIsMonotone` | operator/internal/controller/tradingtenant_controller.go:186-258 | over any run replicas stay below the maximum, never fall below the start, reach the minimum with the first completed pass, and isolation is never undone |
| `TenantOperator.ReplicasNeverDrop` | operator/internal/controller/tradingtenant_controller.go:186-206 | between any two points of a run replicas do not decrease and the flag is not cleared |
| `TenantOperator.SettlesInTwo` | operator/internal/controller/tradingtenant_controller.go:133-136 | under constant signals state, replicas and flag are constant from the second completed pass on |
| `TenantOperator.SecondPassCanIsolate` | operator/internal/controller/tradingtenant_controller.go:322-336 | one pass is not enough: scaling to the partition count is followed by isolation |
| `PartitionMap.NoLostUpdates` | operator/internal/controller/tenant_partition_map.go:60-129 | over any interleaving and any stale reads each version of the map is the initial one with the mutations committed so far applied in commit order |
| `PartitionMap.EntryIsLastAsked` | operator/internal/controller/tenant_partition_map.go:44-58 | a tenant's entry is what its own last commit asked for, or the initial one, whatever others commit |
| `PartitionMap.NilMeansPublished` | operator/internal/controller/tenant_partition_map.go:99-128 | when a call returns nil its entry is as asked in the version it saw or made, and no other entry was touched |
| `PartitionMap.EntryPersists` | operator/internal/controller/tenant_partition_map.go:44-58 | from the step where a call returns nil on, over every continuation, its tenant's entry is what the tenant's last commit since that version asked for, and what the call asked for while there is none |
| `PartitionMap.StaleReadSkipsARemoval` | operator/internal/controller/tenant_partition_map.go:60-104 | a removal reading a version older than its tenant's published entry returns nil and the entry stays |
| `PartitionMap.NoOpWritesNothing` | operator/internal/controller/tenant_partition_map.go:92-104 | a call returns nil from its read alone if and only if the version read has its entry as asked |
| `PartitionMap.UnusualTexts` | operator/internal/controller/tenant_partition_map.go:79-104 | an object without text is read as empty and always written; one that cannot be decoded is an error |
| `PartitionMap.ObjectPersists` | operator/internal/controller/tenant_partition_map.go:111-119 | the object never disappears, so no later create is accepted |
| `PartitionMap.CreatesIff` | operator/internal/controller/tenant_partition_map.go:66-119 | a call prepares a create exactly when it publishes an entry and its read shows no object, which only the oldest version can |
| `PartitionMap.MutateTenantPartitionMap` | operator/internal/controller/tenant_partition_map.go:66-129 | the code, with stale or failing reads, rivals committing before its write, and writes that fail or lose their answer, leaves the versions and returns as the protocol's call does |
| `PartitionMap.AttemptIsRun` | operator/internal/controller/tenant_partition_map.go:66-129 | that call among its rivals is a run of the protocol with the same versions, answer and commit |
| `PartitionMap.AttemptIsSafe` | operator/internal/controller/tenant_partition_map.go:60-129 | such a call, if it writes, applies its mutation to the newest version; nil without a write means a version held the entry as asked; rivals' versions all stay; a write is reported as an error only if its answer was lost |

## Left out

- cmd/ and operator/cmd/ entry points, environment parsing, HTTP and gRPC servers, authentication: wiring around libraries.
- JSON, UUID and timestamp codecs: the stored map text is modelled by what it decodes to, and a record by whether it decodes.
- Metrics and Prometheus queries: observed signals are arbitrary inputs.
- Deployments, Services and per-tenant ConfigMaps of the dedicated pool: field filling only.
- BackpressureLimiter, configuration validation and single-field validators: each is one comparison; only the tenant
  charset is modelled, because routing depends on it.
- Context deadlines, tickers and goroutine shutdown; the breaker's probe timeout, ForceOpen and SetNow.
- Pool assignments across reloads or between ingestion replicas: the code does not keep them.
- Breaker.Guarded: one method stands for the five wrapped repository methods, which differ only in the errors they ignore.
- RateLimiter.SpacedIsAllowed: over reals; the rounding of float64 is not modelled.
- Assignment.RunGapFree: the offset a partition is consumed from is not modelled; re-reading from the start is covered by replay.
- TopicRouting.TopicPartitioner.Partition: pointer identity of the shared state is a generation number that every store increments.
