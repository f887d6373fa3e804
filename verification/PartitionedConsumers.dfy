/** Why there is one caller per key: between swaps of the reservations and of the partition count every record of a key
    lands on one partition, and each partition has one consumer, which handles one record at a time. */
module PartitionedConsumers {
  import opened GoInts
  import opened Ledger
  import opened Accounting
  import opened ReconcileProtocol
  import opened ExactlyOnce
  import opened OneCaller
  import opened EndToEnd
  import T = TopicRouting

  function WireKey(key: Key): string {
    T.Join(key.tenant, key.instrument)
  }

  function WireKeys(txns: seq<Transaction>): (keys: seq<string>)
    ensures |keys| == |txns| && forall i | 0 <= i < |txns| :: keys[i] == WireKey(txns[i].key)
  {
    seq(|txns|, i requires 0 <= i < |txns| => WireKey(txns[i].key))
  }

  /** The transactions published on a topic between two swaps, in order. */
  datatype Feed = Feed(topic: T.Topic, txns: seq<Transaction>, total: int32)
  {
    /** The topic routes without a fault, and an event published again carries the key it carried first. */
    ghost predicate Valid() {
      && T.Inv(topic) && T.Usable(topic.shared, total) && total >= 1
      && forall i, j | 0 <= i < |txns| && 0 <= j < |txns| &&
          txns[i].event == txns[j].event :: txns[i].key == txns[j].key
    }

    /** The partition the i-th transaction was published to. */
    ghost function Partition(i: nat): Option<int32>
      requires i < |txns|
    {
      T.RoutedTo(T.Exec(topic, T.Routes(WireKeys(txns)[..i], total)), WireKey(txns[i].key), total)
    }

    /** Consumer `pid` reads partition `pid`: it begins a call only for a transaction published there, as often as it
        is delivered. */
    ghost predicate Delivers(step: Step) {
      step.Begin? ==> exists i :: 0 <= i < |txns| && txns[i] == step.txn && Partition(i) == Some(step.pid)
    }

    ghost function PartitionOf(key: Key): Option<int32> {
      if i :| 0 <= i < |txns| && txns[i].key == key then Partition(i) else None
    }

    ghost function KeyOf(event: EventId): Key {
      if i :| 0 <= i < |txns| && txns[i].event == event then txns[i].key else Key("", "")
    }
  }

  /** Routing is a function of the key. */
  lemma OnePartitionPerKey(f: Feed, i: nat)
    requires f.Valid() && i < |f.txns|
    ensures f.Partition(i) == f.PartitionOf(f.txns[i].key) && f.KeyOf(f.txns[i].event) == f.txns[i].key
  {
    hide Feed.Partition, T.Inv, T.Usable;
    forall j | 0 <= j < |f.txns| && f.txns[j].key == f.txns[i].key ensures f.Partition(j) == f.Partition(i) {
      SamePartition(f, i, j);
    }
  }

  lemma SamePartition(f: Feed, i: nat, j: nat)
    requires f.Valid() && i < |f.txns| && j < |f.txns| && f.txns[i].key == f.txns[j].key
    ensures f.Partition(i) == f.Partition(j)
  {
    hide T.Inv, T.Usable, T.RoutedTo, T.Exec, T.Routes;
    var keys := WireKeys(f.txns);
    if i < j { T.StableBetweenSwaps(f.topic, keys, f.total, i, j); }
    if j < i { T.StableBetweenSwaps(f.topic, keys, f.total, j, i); }
  }

  /** Every stored row and every live call has its event's key, and every live call runs at its key's partition. */
  ghost predicate Placed(f: Feed, sys: Sys) {
    && (forall i | 0 <= i < |sys.db.rows| :: sys.db.rows[i].txn.key == f.KeyOf(sys.db.rows[i].txn.event))
    && (forall pid <- sys.calls :: CallPlaced(f, sys.db.rows, pid, sys.calls[pid]))
  }

  ghost predicate CallPlaced(f: Feed, rows: seq<Row>, pid: Pid, call: Call) {
    && (!call.Returned? ==>
          CallKey(call) == Some(f.KeyOf(CallEvent(call).value)) && f.PartitionOf(CallKey(call).value) == Some(pid))
    && (call.Reading? || call.Writing? ==> call.row in rows)
  }

  /** A delivered transaction is at its key's partition. */
  lemma DeliveredIsPlaced(f: Feed, rows: seq<Row>, step: Step)
    requires f.Valid() && f.Delivers(step) && step.Begin?
    ensures CallPlaced(f, rows, step.pid, Inserting(step.txn))
  {
    hide Feed.Valid, Feed.Partition, Feed.PartitionOf, Feed.KeyOf;
    var i :| 0 <= i < |f.txns| && f.txns[i] == step.txn && f.Partition(i) == Some(step.pid);
    OnePartitionPerKey(f, i);
  }

  /** So it never meets a live call of its key or event. */
  lemma PlacedIsOneLive(f: Feed, sys: Sys, step: Step)
    requires Placed(f, sys) && Enabled(sys, step)
    requires step.Begin? ==> CallPlaced(f, sys.db.rows, step.pid, Inserting(step.txn))
    ensures OneLive(sys, step)
  {
    hide Feed.PartitionOf, Feed.KeyOf, SameKeyAgain;
    if step.Begin? {
      forall p <- sys.calls ensures Apart(sys.calls[p], Inserting(step.txn)) {
        assert CallPlaced(f, sys.db.rows, p, sys.calls[p]);
      }
      StoredUnderItsKey(f, sys.db.rows, step.txn);
    }
  }

  lemma StoredUnderItsKey(f: Feed, rows: seq<Row>, txn: Transaction)
    requires (forall i | 0 <= i < |rows| :: rows[i].txn.key == f.KeyOf(rows[i].txn.event)) &&
             txn.key == f.KeyOf(txn.event)
    ensures SameKeyAgain(rows, txn)
  {
    hide Feed.KeyOf;
    if HasEvent(rows, txn.event) {
      var k :| 0 <= k < |rows| && rows[k] == FindEvent(rows, txn.event);
    }
  }

  lemma StepPlaced(f: Feed, sys: Sys, step: Step)
    requires Placed(f, sys) && Enabled(sys, step)
    requires step.Begin? ==> CallPlaced(f, sys.db.rows, step.pid, Inserting(step.txn))
    ensures Placed(f, Do(sys, step))
  {
    hide ApplyTransaction, Feed.PartitionOf, Feed.KeyOf;
    if !step.Begin? { assert CallPlaced(f, sys.db.rows, step.pid, sys.calls[step.pid]); }
    if step.Lookup? && step.answered {
      var rows, event := sys.db.rows, sys.calls[step.pid].txn.event;
      var k :| 0 <= k < |rows| && rows[k] == FindEvent(rows, event);
    }
  }

  lemma {:induction false} PlacedRun(f: Feed, sys: Sys, steps: seq<Step>)
    requires f.Valid() && Placed(f, sys) && IsRun(sys, steps) && forall step <- steps :: f.Delivers(step)
    ensures IsOneCallerRun(sys, steps)
    decreases |steps|
  {
    hide Feed.Valid, Feed.Delivers, Placed, CallPlaced, Do, Enabled, OneLive;
    if steps != [] {
      if steps[0].Begin? { DeliveredIsPlaced(f, sys.db.rows, steps[0]); }
      PlacedIsOneLive(f, sys, steps[0]);
      StepPlaced(f, sys, steps[0]);
      PlacedRun(f, Do(sys, steps[0]), steps[1..]);
    }
  }

  /** Partitioning gives one caller per key: between swaps, every interleaving of the partitions' consumers, with any
      failures, redeliveries and restarts, obeys the one-caller rule; so each key's state is the fold, in ID order, of
      exactly the rows whose write ran, and lawful for those rows. */
  lemma PartitioningGivesOneCaller(f: Feed, steps: seq<Step>, key: Key)
    requires f.Valid() && IsRun(INITIAL, steps) && forall step <- steps :: f.Delivers(step)
    ensures IsOneCallerRun(INITIAL, steps)
    ensures var db, h := Exec(INITIAL, steps).db, WrittenRows(INITIAL, steps, key);
            Explains(h, db.rows, key, Stored(db, key)) && Lawful(h, Stored(db, key))
  {
    PlacedRun(f, INITIAL, steps);
    WrittenRowsAreFolded(steps, key);
    hide FoldRows, IsOneCallerRun, IsRun, Exec, WrittenRows, Lawful;
    FoldIsLawful(WrittenRows(INITIAL, steps, key), Stored(Exec(INITIAL, steps).db, key));
  }
}
