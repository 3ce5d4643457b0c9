/**
 * Deleting a user: inside a transaction, look the user up by key; a missing key is a soft
 * failure, otherwise the row is removed and the removal saved. The payload is `true` on
 * every path that does not throw, including the missing key.
 */
module DeleteUserCommand {
  import opened Results
  import opened Entities
  import opened Store
  import opened Repository
  import opened Transactions
  import opened Messages

  /** The request: the key of the user to delete. */
  datatype Command = Command(id: int)

  /** The rows without the one whose key is `id`, in the same order. */
  function Without(rows: seq<User>, id: int): (r: seq<User>)
    ensures FindIndex(rows, id) < 0 ==> r == rows
    ensures 0 <= FindIndex(rows, id) ==> |r| == |rows| - 1
    ensures forall i :: 0 <= i < |r| ==> r[i] == rows[if i < FindIndex(rows, id) || FindIndex(rows, id) < 0 then i else i + 1]
  {
    var k := FindIndex(rows, id);
    if k < 0 then rows else rows[..k] + rows[k + 1..]
  }

  /**
   * The delete branch of the handler, inside the open transaction: stage the removal of
   * the stored row and save. A failed save is the exception that branch throws.
   */
  method Remove(uow: UnitOfWork, repo: UserRepository, entity: User, storage: Option<string>)
    returns (thrown: Option<string>)
    requires uow.Valid() && repo.ctx == uow.ctx && uow.ctx.pending == [] && uow.Open()
    requires GetById(uow.ctx.rows, entity.id) == Some(entity)
    modifies uow.ctx`rows, uow.ctx`pending, uow.ctx`identity, uow`log
    ensures uow.Valid() && uow.log == old(uow.log) + [ChangesSaved]
    ensures uow.ctx.identity == old(uow.ctx.identity)
    ensures thrown == storage
    ensures storage.Some? ==> uow.ctx.rows == old(uow.ctx.rows) && uow.ctx.pending == [Deleted(entity)]
    ensures storage.None? ==>
      && uow.ctx.rows == Without(old(uow.ctx.rows), entity.id) && uow.ctx.pending == []
      && GetById(uow.ctx.rows, entity.id).None?
  {
    repo.DeleteAsync(entity);
    DeletedIsGone(uow.ctx.rows, uow.ctx.identity, entity);
    var saved := uow.Commit(storage);
    thrown := if saved.Failed? then Some(saved.message) else None;
  }

  /**
   * `DeleteUserCommandHandler.Handle`. `storage` is the store's answer to the save.
   * A missing key reports "User not found." and changes nothing; otherwise exactly that
   * row is removed, unless the save throws, in which case the transaction is rolled back
   * and the result fails with the message.
   */
  method Handle(uow: UnitOfWork, repo: UserRepository, request: Command, storage: Option<string>)
    returns (r: Result<bool>)
    requires uow.Valid() && repo.ctx == uow.ctx && uow.ctx.pending == [] && !uow.Open()
    modifies uow.ctx`rows, uow.ctx`pending, uow.ctx`identity, uow`transaction, uow`log
    ensures uow.Valid() && !uow.Open() && uow.transaction.Some?
    ensures uow.ctx.identity == old(uow.ctx.identity)
    ensures |old(uow.log)| <= |uow.log| && uow.log[..|old(uow.log)|] == old(uow.log)
    ensures Bracketed(uow.log[|old(uow.log)|..])
    ensures var rows := old(uow.ctx.rows);
      var found := GetById(rows, request.id);
      if found.None? then
        && r == Success(Some(true), NotFound)
        && uow.ctx.rows == rows && uow.ctx.pending == []
        && uow.log == old(uow.log) + [TxBegun, TxCommitted]
      else if storage.Some? then
        && r == Fail(storage.value)
        && uow.ctx.rows == rows && uow.ctx.pending == [Deleted(found.value)]
        && uow.log == old(uow.log) + [TxBegun, ChangesSaved, TxRolledBack]
      else
        && r == Success(Some(true), "")
        && uow.ctx.rows == Without(rows, request.id) && uow.ctx.pending == []
        && GetById(uow.ctx.rows, request.id).None?
        && uow.log == old(uow.log) + [TxBegun, ChangesSaved, TxCommitted]
    ensures r.succeeded ==> r.data == Some(true)
  {
    var msg := "";
    var thrown: Option<string> := None;
    uow.BeginTransaction();
    var entity := GetById(uow.ctx.rows, request.id);
    if entity.None? {
      msg := NotFound;
    }
    if msg == "" {
      thrown := Remove(uow, repo, entity.value, storage);
    }
    if thrown.Some? {
      uow.RollbackTransaction();
      r := Fail(thrown.value);
      assert uow.log == old(uow.log) + [TxBegun, ChangesSaved, TxRolledBack];
      AppendRun(old(uow.log), [TxBegun, ChangesSaved, TxRolledBack]);
    } else {
      uow.CommitTransaction();
      r := Success(Some(true), msg);
      ghost var run := if msg == "" then [TxBegun, ChangesSaved, TxCommitted] else [TxBegun, TxCommitted];
      assert uow.log == old(uow.log) + run;
      AppendRun(old(uow.log), run);
    }
  }

  /**
   * Deleting the same key twice: the second call finds nothing, reports "User not found."
   * and leaves the table as the first call left it.
   */
  method DeleteTwice(uow: UnitOfWork, repo: UserRepository, request: Command)
    returns (first: Result<bool>, second: Result<bool>)
    requires uow.Valid() && repo.ctx == uow.ctx && uow.ctx.pending == [] && !uow.Open()
    modifies uow.ctx`rows, uow.ctx`pending, uow.ctx`identity, uow`transaction, uow`log
    ensures first == Success(Some(true), if GetById(old(uow.ctx.rows), request.id).None? then NotFound else "")
    ensures second == Success(Some(true), NotFound)
    ensures uow.ctx.rows == Without(old(uow.ctx.rows), request.id)
  {
    first := Handle(uow, repo, request, None);
    ghost var afterFirst := uow.ctx.rows;
    second := Handle(uow, repo, request, None);
    assert uow.ctx.rows == afterFirst;
  }
}
