/** Reconcile and its two stores in the form of the code: objects updated in place. One uninterrupted
    call is shown to be a run of the protocol's steps, so everything proved of runs holds of it. */
module Reconciler {
  import opened GoInts
  import opened Ledger
  import opened Accounting
  import opened ReconcileProtocol

  /** How a write to a store goes: cleanly, failing before its effect, or losing its answer after it. */
  datatype Fault = Clean | Before | After

  datatype Faults = Faults(insert: Fault, lookupAnswers: bool, readAnswers: bool, write: Fault)

  datatype InsertResult = Inserted(row: Row) | DuplicateEvent | InsertFailed

  datatype GetResult = Found(state: State) | NotFound | GetFailed

  datatype UpsertResult = Written | Stale | UpsertFailed

  class TransactionStore {
    var rows: seq<Row>

    constructor ()
      ensures rows == []
    {
      rows := [];
    }

    /** The unique index on the event ID; `id` is the value the sequence hands out. */
    method Insert(txn: Transaction, id: int64, fault: Fault) returns (r: InsertResult)
      requires !HasId(rows, id)
      modifies this
      ensures fault.Before? ==> r == InsertFailed
      ensures !fault.Before? && HasEvent(old(rows), txn.event) ==>
              r == if fault.Clean? then DuplicateEvent else InsertFailed
      ensures !fault.Before? && !HasEvent(old(rows), txn.event) ==>
              r == if fault.Clean? then Inserted(Row(id, txn)) else InsertFailed
      ensures rows == if !fault.Before? && !HasEvent(old(rows), txn.event) then old(rows) + [Row(id, txn)]
              else old(rows)
    {
      if fault.Before? {
        return InsertFailed;
      }
      if HasEvent(rows, txn.event) {
        return if fault.Clean? then DuplicateEvent else InsertFailed;
      }
      rows := rows + [Row(id, txn)];
      return if fault.Clean? then Inserted(Row(id, txn)) else InsertFailed;
    }

    method GetByEventID(event: EventId, answers: bool) returns (r: Option<Row>)
      ensures r.Some? <==> answers && HasEvent(rows, event)
      ensures r.Some? ==> r.value == FindEvent(rows, event)
    {
      if !answers || !HasEvent(rows, event) {
        return None;
      }
      return Some(FindEvent(rows, event));
    }
  }

  class StateStore {
    var states: map<Key, State>

    constructor ()
      ensures states == map[]
    {
      states := map[];
    }

    method Get(key: Key, answers: bool) returns (r: GetResult)
      ensures r == if !answers then GetFailed else if key in states then Found(states[key]) else NotFound
    {
      if !answers {
        return GetFailed;
      }
      return if key in states then Found(states[key]) else NotFound;
    }

    /** Replaces the row only when the watermark advances; otherwise reports the update as stale. */
    method Upsert(key: Key, state: State, fault: Fault) returns (r: UpsertResult)
      modifies this
      ensures var advances := || key !in old(states) || old(states)[key].watermark.None?
                              || (state.watermark.Some? && old(states)[key].watermark.value < state.watermark.value);
              && states == (if !fault.Before? && advances then old(states)[key := state] else old(states))
              && r == if !fault.Clean? then UpsertFailed else if advances then Written else Stale
    {
      if fault.Before? {
        return UpsertFailed;
      }
      var advances := Advances(Db([], states), key, state);
      if advances {
        states := states[key := state];
      }
      return if fault.After? then UpsertFailed else if advances then Written else Stale;
    }
  }

  // ---- One call without interference, in the protocol's terms ----

  predicate CanStep(sys: Sys, id: int64) {
    && 0 in sys.calls
    && (sys.calls[0].Inserting? ==> !HasId(sys.db.rows, id))
    && (sys.calls[0].Looking? ==> HasEvent(sys.db.rows, sys.calls[0].txn.event))
  }

  function NextStep(sys: Sys, id: int64, f: Faults): (step: Step)
    requires CanStep(sys, id) && !sys.calls[0].Returned?
    ensures Enabled(sys, step) && CanStep(Do(sys, step), id)
  {
    match sys.calls[0]
    case Inserting(txn) =>
      if f.insert.Before? then InsertFails(0)
      else if HasEvent(sys.db.rows, txn.event) then (if f.insert.Clean? then InsertDuplicate(0) else InsertFails(0))
      else InsertCommits(0, id, f.insert.Clean?)
    case Looking(txn) => Lookup(0, f.lookupAnswers)
    case Reading(row) => Read(0, f.readAnswers)
    case Writing(row, updated) => if f.write.Before? then WriteFails(0) else WriteRuns(0, f.write.Clean?)
  }

  function Rank(call: Call): nat {
    match call
    case Inserting(_) => 4
    case Looking(_) => 3
    case Reading(_) => 2
    case Writing(_, _) => 1
    case Returned(_) => 0
  }

  function Solo(sys: Sys, id: int64, f: Faults): (sys': Sys)
    requires CanStep(sys, id)
    ensures 0 in sys'.calls && sys'.calls[0].Returned?
    decreases Rank(sys.calls[0])
  {
    if sys.calls[0].Returned? then sys else Solo(Do(sys, NextStep(sys, id, f)), id, f)
  }

  /** The uninterrupted call is one of the protocol's runs. */
  lemma {:induction false} SoloIsRun(sys: Sys, id: int64, f: Faults) returns (steps: seq<Step>)
    requires CanStep(sys, id)
    ensures IsRun(sys, steps) && Exec(sys, steps) == Solo(sys, id, f)
    ensures forall step <- steps :: !step.Begin?
    decreases Rank(sys.calls[0])
  {
    if sys.calls[0].Returned? {
      steps := [];
    } else {
      var step := NextStep(sys, id, f);
      var rest := SoloIsRun(Do(sys, step), id, f);
      steps := [step] + rest;
      assert steps[1..] == rest;
    }
  }

  lemma SoloUnfolds(sys: Sys, id: int64, f: Faults)
    requires CanStep(sys, id)
    ensures Solo(sys, id, f) == if sys.calls[0].Returned? then sys else Solo(Do(sys, NextStep(sys, id, f)), id, f)
  {
  }

  function Started(db: Db, txn: Transaction): Sys {
    Sys(db, map[0 := Inserting(txn)], {})
  }

  class Reconciler {
    const transactions: TransactionStore
    const states: StateStore

    constructor (transactions: TransactionStore, states: StateStore)
      ensures this.transactions == transactions && this.states == states
    {
      this.transactions, this.states := transactions, states;
    }

    ghost function Stores(): Db
      reads this, transactions, states
    {
      Db(transactions.rows, states.states)
    }

    /** Insert or look up, read, compare, fold, write back. */
    method Reconcile(txn: Transaction, id: int64, f: Faults) returns (ok: bool)
      requires !HasId(transactions.rows, id)
      modifies transactions, states
      ensures CanStep(Started(old(Stores()), txn), id)
      ensures Solo(Started(old(Stores()), txn), id, f).db == Stores()
      ensures Solo(Started(old(Stores()), txn), id, f).calls[0] == Returned(ok)
    {
      hide ApplyTransaction, FindEvent, HasEvent, HasId, Solo;
      ghost var sys := Started(Stores(), txn);
      SoloUnfolds(sys, id, f);
      var result := transactions.Insert(txn, id, f.insert);
      sys := Do(sys, NextStep(sys, id, f));
      SoloUnfolds(sys, id, f);
      if result.InsertFailed? {
        return false;
      }
      var inserted: Row;
      if result.DuplicateEvent? {
        var found := transactions.GetByEventID(txn.event, f.lookupAnswers);
        sys := Do(sys, NextStep(sys, id, f));
        SoloUnfolds(sys, id, f);
        if found.None? {
          return false;
        }
        inserted := found.value;
      } else {
        inserted := result.row;
      }
      assert sys.calls[0] == Reading(inserted) && sys.db == Stores();

      var got := states.Get(inserted.txn.key, f.readAnswers);
      sys := Do(sys, NextStep(sys, id, f));
      SoloUnfolds(sys, id, f);
      if got.GetFailed? {
        return false;
      }
      var state := if got.Found? then got.state else ZERO_STATE;
      if state.watermark.Some? && state.watermark.value >= inserted.id {
        return true;
      }
      var updated := ApplyTransaction(state, inserted.id, inserted.txn);
      if updated.Err? {
        return false;
      }
      assert sys.calls[0] == Writing(inserted, updated.state) && sys.db == Stores();

      var written := states.Upsert(inserted.txn.key, updated.state, f.write);
      sys := Do(sys, NextStep(sys, id, f));
      SoloUnfolds(sys, id, f);
      return !written.UpsertFailed?;
    }
  }
}
