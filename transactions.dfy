/**
 * The unit of work: saves the context's staged changes and brackets a request in a
 * database transaction. A transaction is modelled as the snapshot of the table taken when
 * it began; rolling back restores that snapshot, committing keeps the current table.
 */
module Transactions {
  import opened Results
  import opened Entities
  import opened Store

  /** A transaction: the table as it was at begin, and whether it is still pending. */
  datatype Transaction = Transaction(snapshot: seq<User>, open: bool)

  /** What the unit of work did, in order (a trace for stating the bracket discipline). */
  datatype Event = TxBegun | ChangesSaved | TxCommitted | TxRolledBack

  /**
   * A bracketed run: one begin, then any number of saves, then exactly one commit or
   * rollback, and nothing after it.
   */
  ghost predicate Bracketed(events: seq<Event>) {
    && 2 <= |events|
    && events[0] == TxBegun
    && events[|events| - 1] in {TxCommitted, TxRolledBack}
    && forall i :: 0 < i < |events| - 1 ==> events[i] == ChangesSaved
  }

  /** The outcome of constructing a unit of work: the object, or the argument error thrown. */
  datatype Construction = Constructed(uow: UnitOfWork) | ArgumentNull(paramName: string)

  /** `new UnitOfWork(dbContext)`: a null context is rejected with an argument error. */
  method New(ctx: DbContext?) returns (r: Construction)
    requires ctx != null ==> ctx.Valid()
    ensures ctx == null <==> r.ArgumentNull?
    ensures r.ArgumentNull? ==> r.paramName == "dbContext"
    ensures r.Constructed? ==>
      && fresh(r.uow) && r.uow.ctx == ctx && r.uow.Valid()
      && !r.uow.disposed && r.uow.transaction.None? && r.uow.log == []
  {
    if ctx == null {
      r := ArgumentNull("dbContext");
    } else {
      var uow := new UnitOfWork(ctx);
      r := Constructed(uow);
    }
  }

  class UnitOfWork {
    const ctx: DbContext
    var disposed: bool
    var transaction: Option<Transaction>
    ghost var log: seq<Event>

    /** A transaction is open: begun and neither committed nor rolled back. */
    predicate Open()
      reads this
    {
      transaction.Some? && transaction.value.open
    }

    /** The table invariant holds now, and held for the snapshot an open transaction restores. */
    ghost predicate Valid()
      reads this, ctx
    {
      && ctx.Valid()
      && (Open() ==> ValidTable(transaction.value.snapshot, ctx.identity))
    }

    constructor (ctx: DbContext)
      requires ctx.Valid()
      ensures this.ctx == ctx && Valid()
      ensures !disposed && transaction.None? && log == []
    {
      this.ctx := ctx;
      disposed := false;
      transaction := None;
      log := [];
    }

    /**
     * `Commit`: saves the staged changes and returns the number of affected rows together
     * with the keys generated for inserted rows (which the ORM writes back into the
     * entities). A failed save is the exception it throws; the table is then unchanged.
     */
    method Commit(fault: Option<string>) returns (r: SaveResult)
      requires Valid()
      modifies ctx`rows, ctx`pending, ctx`identity, this`log
      ensures Valid() && ctx.identity >= old(ctx.identity)
      ensures log == old(log) + [ChangesSaved]
      ensures var f := Flush(old(ctx.rows), old(ctx.pending), old(ctx.identity));
        if fault.None? && f.Flushed? then
          && r == Saved(f.count, f.keys) && r.count == |old(ctx.pending)|
          && ctx.rows == f.rows && ctx.identity == f.identity && ctx.pending == []
        else
          && r == Failed(if fault.Some? then fault.value else f.message)
          && ctx.rows == old(ctx.rows) && ctx.identity == old(ctx.identity)
          && ctx.pending == old(ctx.pending)
    {
      FlushPreservesValid(ctx.rows, ctx.pending, ctx.identity);
      r := ctx.SaveChanges(fault);
      log := log + [ChangesSaved];
    }

    /** `Rollback`: does nothing; neither the table nor the staged changes change. */
    method Rollback()
      ensures unchanged(this) && unchanged(ctx)
    {
    }

    /** `Dispose`: disposes the context the first time only, and marks the unit disposed. */
    method Dispose()
      modifies this`disposed, ctx`disposals
      ensures disposed
      ensures ctx.disposals == old(ctx.disposals) + (if old(disposed) then 0 else 1)
    {
      if !disposed {
        ctx.Dispose();
        disposed := true;
      }
    }

    /** `BeginTransactionAsync`: opens a transaction over the table as it is now. */
    method BeginTransaction()
      requires Valid() && !Open()
      modifies this`transaction, this`log
      ensures Valid() && Open()
      ensures transaction == Some(Transaction(ctx.rows, true))
      ensures log == old(log) + [TxBegun]
    {
      transaction := Some(Transaction(ctx.rows, true));
      log := log + [TxBegun];
    }

    /**
     * `CommitTransactionAsync`: makes the open transaction's work permanent and finishes it.
     * Without an open transaction it does nothing. The transaction is not cleared.
     */
    method CommitTransaction()
      requires Valid()
      modifies this`transaction, this`log
      ensures Valid() && !Open()
      ensures old(Open()) ==>
        && transaction == Some(old(transaction.value).(open := false))
        && log == old(log) + [TxCommitted]
      ensures !old(Open()) ==> transaction == old(transaction) && log == old(log)
    {
      if Open() {
        transaction := Some(transaction.value.(open := false));
        log := log + [TxCommitted];
      }
    }

    /**
     * `RollbackTransactionAsync`: restores the table to the open transaction's snapshot,
     * undoing every save since begin, and finishes the transaction. Without an open
     * transaction it does nothing. The identity counter is not rolled back, and the
     * staged changes stay staged.
     */
    method RollbackTransaction()
      requires Valid()
      modifies ctx`rows, this`transaction, this`log
      ensures Valid() && !Open()
      ensures old(Open()) ==>
        && ctx.rows == old(transaction.value.snapshot)
        && transaction == Some(old(transaction.value).(open := false))
        && log == old(log) + [TxRolledBack]
      ensures !old(Open()) ==>
        ctx.rows == old(ctx.rows) && transaction == old(transaction) && log == old(log)
    {
      if Open() {
        ctx.rows := transaction.value.snapshot;
        transaction := Some(transaction.value.(open := false));
        log := log + [TxRolledBack];
      }
    }
  }

  /** Disposing twice disposes the context once. */
  method DisposeTwice(uow: UnitOfWork)
    modifies uow`disposed, uow.ctx`disposals
    ensures uow.disposed
    ensures uow.ctx.disposals == old(uow.ctx.disposals) + (if old(uow.disposed) then 0 else 1)
  {
    uow.Dispose();
    uow.Dispose();
  }

  /**
   * Begin, save, roll back: the rollback undoes the rows the save wrote, so the table is
   * the one the transaction began with, whatever the save did; the transaction stays set.
   */
  method SaveThenRollback(uow: UnitOfWork, fault: Option<string>) returns (saved: SaveResult)
    requires uow.Valid() && !uow.Open()
    modifies uow.ctx`rows, uow.ctx`pending, uow.ctx`identity, uow`transaction, uow`log
    ensures uow.Valid() && !uow.Open() && uow.transaction.Some?
    ensures uow.ctx.rows == old(uow.ctx.rows)
    ensures uow.log == old(uow.log) + [TxBegun, ChangesSaved, TxRolledBack]
    ensures Bracketed(uow.log[|old(uow.log)|..])
  {
    uow.BeginTransaction();
    saved := uow.Commit(fault);
    uow.RollbackTransaction();
    AppendRun(old(uow.log), [TxBegun, ChangesSaved, TxRolledBack]);
  }

  /** The runs a handler appends: the earlier log stays in front and the run is bracketed. */
  lemma AppendRun(log: seq<Event>, run: seq<Event>)
    requires || run == [TxBegun, TxCommitted]
             || run == [TxBegun, ChangesSaved, TxCommitted]
             || run == [TxBegun, ChangesSaved, TxRolledBack]
    ensures (log + run)[..|log|] == log && (log + run)[|log|..] == run
    ensures Bracketed(run)
  {
  }
}
