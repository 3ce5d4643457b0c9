/**
 * Creating a user: inside a transaction, reject an email that is already stored, otherwise
 * stage the insert, save it, and return the stored user with its generated key.
 */
module CreateUserCommand {
  import opened Results
  import opened Entities
  import opened Store
  import opened Repository
  import opened Transactions
  import opened Messages

  /** The request: a user without a key. */
  datatype Command = Command(name: string, email: string, age: int)

  /** The mapper's copy of a request into a new entity; the key keeps its default, 0. */
  function NewEntity(request: Command): User {
    User(0, request.name, request.email, request.age)
  }

  /** Appending a user whose email is not stored keeps emails unique. */
  lemma AppendKeepsEmailsDistinct(rows: seq<User>, u: User)
    requires EmailsDistinct(rows) && !EmailTaken(rows, u.email)
    ensures EmailsDistinct(rows + [u])
  {
    var rows' := rows + [u];
    forall i, j | 0 <= i < j < |rows'| ensures rows'[i].email != rows'[j].email {
      assert rows'[i] == rows[i];
      if j < |rows| {
        assert rows'[j] == rows[j];
      }
    }
  }

  /**
   * The insert branch of the handler, inside the open transaction: stage the new entity,
   * save, and read back the key the store generated. A failed save, or a key of 0, is the
   * exception that branch throws.
   */
  method Insert(uow: UnitOfWork, repo: UserRepository, request: Command, storage: Option<string>)
    returns (thrown: Option<string>, result: Option<UserModel>)
    requires uow.Valid() && repo.ctx == uow.ctx && uow.ctx.pending == [] && uow.Open()
    modifies uow.ctx`rows, uow.ctx`pending, uow.ctx`identity, uow`log
    ensures uow.Valid() && uow.log == old(uow.log) + [ChangesSaved]
    ensures var rows, identity := old(uow.ctx.rows), old(uow.ctx.identity);
      var created := User(identity, request.name, request.email, request.age);
      if storage.Some? then
        && thrown == storage
        && uow.ctx.rows == rows && uow.ctx.identity == identity
        && uow.ctx.pending == [Added(NewEntity(request))]
      else
        && uow.ctx.rows == rows + [created] && uow.ctx.identity == identity + 1
        && uow.ctx.pending == []
        && (identity == 0 ==> thrown == Some(DatabaseError))
        && (identity != 0 ==> thrown.None? && result == Some(ToModel(created)))
  {
    result := None;
    var entity := repo.AddAsync(NewEntity(request));
    AddedIsRetrievable(uow.ctx.rows, uow.ctx.identity, entity);
    var saved := uow.Commit(storage);
    if saved.Failed? {
      thrown := Some(saved.message);
    } else {
      var key := saved.keys[|saved.keys| - 1];
      if key == 0 {
        thrown := Some(DatabaseError);
      } else {
        thrown := None;
        result := Some(ToModel(entity.(id := key)));
      }
    }
  }

  /**
   * `CreateUserCommandHandler.Handle`. `storage` is the store's answer to the save (a
   * failure message, or none). Paths, in the order the handler tries them:
   * the email is taken (a soft failure, nothing stored); the save throws (rolled back,
   * failed with its message); the generated key is 0 (rolled back, "Database Error");
   * otherwise the user is appended with the next identity value as its key.
   */
  method Handle(uow: UnitOfWork, repo: UserRepository, request: Command, storage: Option<string>)
    returns (r: Result<UserModel>)
    requires uow.Valid() && repo.ctx == uow.ctx && uow.ctx.pending == [] && !uow.Open()
    modifies uow.ctx`rows, uow.ctx`pending, uow.ctx`identity, uow`transaction, uow`log
    ensures uow.Valid() && !uow.Open() && uow.transaction.Some?
    ensures |old(uow.log)| <= |uow.log| && uow.log[..|old(uow.log)|] == old(uow.log)
    ensures Bracketed(uow.log[|old(uow.log)|..])
    ensures var rows, identity := old(uow.ctx.rows), old(uow.ctx.identity);
      if EmailTaken(rows, request.email) then
        && r == Success(None, AlreadyExists(request.email))
        && uow.ctx.rows == rows && uow.ctx.identity == identity && uow.ctx.pending == []
        && uow.log == old(uow.log) + [TxBegun, TxCommitted]
      else if storage.Some? then
        && r == Fail(storage.value)
        && uow.ctx.rows == rows && uow.ctx.identity == identity
        && uow.ctx.pending == [Added(NewEntity(request))]
        && uow.log == old(uow.log) + [TxBegun, ChangesSaved, TxRolledBack]
      else if identity == 0 then
        && r == Fail(DatabaseError)
        && uow.ctx.rows == rows && uow.ctx.identity == 1 && uow.ctx.pending == []
        && uow.log == old(uow.log) + [TxBegun, ChangesSaved, TxRolledBack]
      else
        var created := User(identity, request.name, request.email, request.age);
        && r == Success(Some(ToModel(created)), "")
        && uow.ctx.rows == rows + [created] && uow.ctx.identity == identity + 1
        && uow.ctx.pending == []
        && uow.log == old(uow.log) + [TxBegun, ChangesSaved, TxCommitted]
    ensures EmailsDistinct(old(uow.ctx.rows)) ==> EmailsDistinct(uow.ctx.rows)
  {
    var result: Option<UserModel> := None;
    var msg := "";
    var thrown: Option<string> := None;
    uow.BeginTransaction();
    var exist := Any(uow.ctx.rows, (p: User) => p.email == request.email);
    assert exist <==> EmailTaken(uow.ctx.rows, request.email);
    if exist {
      msg := AlreadyExists(request.email);
    } else {
      thrown, result := Insert(uow, repo, request, storage);
    }
    if thrown.Some? {
      uow.RollbackTransaction();
      r := Fail(thrown.value);
      assert uow.log == old(uow.log) + [TxBegun, ChangesSaved, TxRolledBack];
      AppendRun(old(uow.log), [TxBegun, ChangesSaved, TxRolledBack]);
    } else {
      uow.CommitTransaction();
      r := Success(result, msg);
      ghost var run := if msg == "" then [TxBegun, ChangesSaved, TxCommitted] else [TxBegun, TxCommitted];
      assert uow.log == old(uow.log) + run;
      AppendRun(old(uow.log), run);
    }
    if !exist && storage.None? && old(uow.ctx.identity) != 0 && EmailsDistinct(old(uow.ctx.rows)) {
      AppendKeepsEmailsDistinct(old(uow.ctx.rows), User(old(uow.ctx.identity), request.name, request.email, request.age));
    }
  }
}
