/**
 * Updating a user: inside a transaction, look the user up by key, reject a missing key, an
 * email held by another user and an update that changes nothing, in that order; otherwise
 * overwrite the row's fields, save, and return the updated user.
 */
module UpdateUserCommand {
  import opened Results
  import opened Entities
  import opened Store
  import opened Repository
  import opened Transactions
  import opened Messages

  /** The request: the key of the user to update and its new field values. */
  datatype Command = Command(id: int, name: string, email: string, age: int)

  /** The mapper's copy of the request onto the fetched entity: all four fields. */
  function Updated(request: Command): User {
    User(request.id, request.name, request.email, request.age)
  }

  /** The request as a model, as the comparison service sees it. */
  function AsModel(request: Command): UserModel {
    UserModel(request.id, request.name, request.email, request.age)
  }

  /** Some user other than the one with key `id` has the email. */
  ghost predicate EmailTakenByOther(rows: seq<User>, id: int, email: string) {
    exists i :: 0 <= i < |rows| && rows[i].id != id && rows[i].email == email
  }

  /** The rows after the update of the user with key `id`: that row replaced, every other row as it was. */
  ghost predicate OnlyRowReplaced(before: seq<User>, after: seq<User>, id: int, u: User) {
    && |after| == |before|
    && forall i :: 0 <= i < |before| ==> after[i] == if before[i].id == id then u else before[i]
  }

  /** Replacing one row by a user whose email no other row has keeps emails unique. */
  lemma ReplaceKeepsEmailsDistinct(rows: seq<User>, k: nat, u: User)
    requires EmailsDistinct(rows) && k < |rows|
    requires forall j :: 0 <= j < |rows| && j != k ==> rows[j].email != u.email
    ensures EmailsDistinct(rows[k := u])
  {
    var rows' := rows[k := u];
    forall i, j | 0 <= i < j < |rows'| ensures rows'[i].email != rows'[j].email {
      if i != k && j != k {
        assert rows'[i] == rows[i] && rows'[j] == rows[j];
      }
    }
  }

  /** In a table with unique keys, replacing the row at the position of key `u.id` replaces exactly the rows with that key. */
  lemma ReplaceAtKey(rows: seq<User>, k: nat, u: User)
    requires IdsDistinct(rows) && k < |rows| && rows[k].id == u.id
    ensures OnlyRowReplaced(rows, rows[k := u], u.id, u)
  {
  }

  /**
   * The overwrite branch of the handler, inside the open transaction: stage the modified
   * entity, save, and check the key. A failed save, or a key of 0, is the exception that
   * branch throws.
   */
  method Overwrite(uow: UnitOfWork, repo: UserRepository, request: Command, k: nat, storage: Option<string>)
    returns (thrown: Option<string>, result: Option<UserModel>)
    requires uow.Valid() && repo.ctx == uow.ctx && uow.ctx.pending == [] && uow.Open()
    requires k < |uow.ctx.rows| && uow.ctx.rows[k].id == request.id
    requires !EmailTakenByOther(uow.ctx.rows, request.id, request.email)
    modifies uow.ctx`rows, uow.ctx`pending, uow.ctx`identity, uow`log
    ensures uow.Valid() && uow.log == old(uow.log) + [ChangesSaved]
    ensures uow.ctx.identity == old(uow.ctx.identity)
    ensures var rows := old(uow.ctx.rows);
      if storage.Some? then
        && thrown == storage
        && uow.ctx.rows == rows && uow.ctx.pending == [Modified(Updated(request))]
      else
        && uow.ctx.rows == rows[k := Updated(request)] && uow.ctx.pending == []
        && OnlyRowReplaced(rows, uow.ctx.rows, request.id, Updated(request))
        && (EmailsDistinct(rows) ==> EmailsDistinct(uow.ctx.rows))
        && (request.id == 0 ==> thrown == Some(DatabaseError))
        && (request.id != 0 ==> thrown.None? && result == Some(ToModel(Updated(request))))
  {
    result := None;
    var entity := Updated(request);
    repo.UpdateAsync(entity);
    UpdatedIsRetrievable(uow.ctx.rows, uow.ctx.identity, entity, k);
    ReplaceAtKey(uow.ctx.rows, k, entity);
    if EmailsDistinct(uow.ctx.rows) {
      ReplaceKeepsEmailsDistinct(uow.ctx.rows, k, entity);
    }
    var saved := uow.Commit(storage);
    if saved.Failed? {
      thrown := Some(saved.message);
    } else if entity.id == 0 {
      thrown := Some(DatabaseError);
    } else {
      thrown := None;
      result := Some(ToModel(entity));
    }
  }

  /**
   * The checks the handler makes before writing, in order; the first that applies gives
   * the message reported, and none applying gives the empty message.
   */
  ghost function Verdict(rows: seq<User>, request: Command): string {
    var found := GetById(rows, request.id);
    if found.None? then NotFound
    else if EmailTakenByOther(rows, request.id, request.email) then AlreadyExists(request.email)
    else if found.value == Updated(request) then NoChange
    else ""
  }

  /** The handler's checks, as it runs them: a lookup, an email query, then the comparison service. */
  method Check(rows: seq<User>, request: Command) returns (msg: string)
    requires IdsDistinct(rows)
    ensures msg == Verdict(rows, request)
  {
    msg := "";
    var entity := GetById(rows, request.id);
    if entity.None? {
      msg := NotFound;
    } else {
      var exist := Any(rows, (p: User) => p.id != request.id && p.email == request.email);
      assert exist <==> EmailTakenByOther(rows, request.id, request.email);
      if exist {
        msg := AlreadyExists(request.email);
      } else if Compare(ToModel(entity.value), AsModel(request)) {
        msg := NoChange;
      }
    }
  }

  /**
   * An update that passed the checks, once written, cannot be repeated: sending the same
   * request to the updated table is rejected as changing nothing.
   */
  lemma RepeatedUpdateIsNoChange(rows: seq<User>, request: Command)
    requires IdsDistinct(rows) && Verdict(rows, request) == ""
    ensures var k := FindIndex(rows, request.id);
      0 <= k && Verdict(rows[k := Updated(request)], request) == NoChange
  {
    var k := FindIndex(rows, request.id);
    var rows' := rows[k := Updated(request)];
    assert 0 <= k < |rows| && rows[k].id == request.id;
    assert IdsDistinct(rows') by {
      forall i, j | 0 <= i < j < |rows'| ensures rows'[i].id != rows'[j].id {
        assert rows'[i].id == rows[i].id && rows'[j].id == rows[j].id;
      }
    }
    FindIndexOfUniqueKey(rows', request.id, k);
  }

  /**
   * The write path of the handler, once the checks have passed: overwrite the row and
   * finish the open transaction, committing it or, when the branch throws, rolling it back.
   */
  method Write(uow: UnitOfWork, repo: UserRepository, request: Command, storage: Option<string>)
    returns (r: Result<UserModel>)
    requires uow.Valid() && repo.ctx == uow.ctx && uow.ctx.pending == [] && uow.Open()
    requires uow.transaction.value.snapshot == uow.ctx.rows && GetById(uow.ctx.rows, request.id).Some?
    requires !EmailTakenByOther(uow.ctx.rows, request.id, request.email)
    modifies uow.ctx`rows, uow.ctx`pending, uow.ctx`identity, uow`transaction, uow`log
    ensures uow.Valid() && !uow.Open() && uow.transaction.Some?
    ensures uow.ctx.identity == old(uow.ctx.identity)
    ensures var rows := old(uow.ctx.rows);
      if storage.Some? then
        && r == Fail(storage.value)
        && uow.ctx.rows == rows && uow.ctx.pending == [Modified(Updated(request))]
        && uow.log == old(uow.log) + [ChangesSaved, TxRolledBack]
      else if request.id == 0 then
        && r == Fail(DatabaseError)
        && uow.ctx.rows == rows && uow.ctx.pending == []
        && uow.log == old(uow.log) + [ChangesSaved, TxRolledBack]
      else
        && r == Success(Some(ToModel(Updated(request))), "")
        && OnlyRowReplaced(rows, uow.ctx.rows, request.id, Updated(request))
        && uow.ctx.pending == []
        && uow.log == old(uow.log) + [ChangesSaved, TxCommitted]
    ensures EmailsDistinct(old(uow.ctx.rows)) ==> EmailsDistinct(uow.ctx.rows)
  {
    var k := FindIndex(uow.ctx.rows, request.id);
    var thrown, result := Overwrite(uow, repo, request, k, storage);
    if thrown.Some? {
      uow.RollbackTransaction();
      r := Fail(thrown.value);
      assert uow.log == old(uow.log) + [ChangesSaved, TxRolledBack];
    } else {
      uow.CommitTransaction();
      r := Success(result, "");
      assert uow.log == old(uow.log) + [ChangesSaved, TxCommitted];
    }
  }

  /**
   * `UpdateUserCommandHandler.Handle`. `storage` is the store's answer to the save. The
   * checks run in order and the first that applies sets the one message reported: the key
   * is missing; another user has the email (keeping one's own email is allowed); the new
   * values equal the stored ones. Each is a soft failure that leaves the table unchanged.
   * Otherwise only the row with the request's key changes, and on a failed save, or a
   * key of 0, the transaction is rolled back and the result fails with the message.
   */
  method Handle(uow: UnitOfWork, repo: UserRepository, request: Command, storage: Option<string>)
    returns (r: Result<UserModel>)
    requires uow.Valid() && repo.ctx == uow.ctx && uow.ctx.pending == [] && !uow.Open()
    modifies uow.ctx`rows, uow.ctx`pending, uow.ctx`identity, uow`transaction, uow`log
    ensures uow.Valid() && !uow.Open() && uow.transaction.Some?
    ensures uow.ctx.identity == old(uow.ctx.identity)
    ensures |old(uow.log)| <= |uow.log| && uow.log[..|old(uow.log)|] == old(uow.log)
    ensures Bracketed(uow.log[|old(uow.log)|..])
    ensures var rows := old(uow.ctx.rows);
      var found := GetById(rows, request.id);
      if found.None? then
        && r == Success(None, NotFound)
        && uow.ctx.rows == rows && uow.ctx.pending == []
        && uow.log == old(uow.log) + [TxBegun, TxCommitted]
      else if EmailTakenByOther(rows, request.id, request.email) then
        && r == Success(None, AlreadyExists(request.email))
        && uow.ctx.rows == rows && uow.ctx.pending == []
        && uow.log == old(uow.log) + [TxBegun, TxCommitted]
      else if found.value == Updated(request) then
        && r == Success(None, NoChange)
        && uow.ctx.rows == rows && uow.ctx.pending == []
        && uow.log == old(uow.log) + [TxBegun, TxCommitted]
      else if storage.Some? then
        && r == Fail(storage.value)
        && uow.ctx.rows == rows && uow.ctx.pending == [Modified(Updated(request))]
        && uow.log == old(uow.log) + [TxBegun, ChangesSaved, TxRolledBack]
      else if request.id == 0 then
        && r == Fail(DatabaseError)
        && uow.ctx.rows == rows && uow.ctx.pending == []
        && uow.log == old(uow.log) + [TxBegun, ChangesSaved, TxRolledBack]
      else
        && r == Success(Some(ToModel(Updated(request))), "")
        && OnlyRowReplaced(rows, uow.ctx.rows, request.id, Updated(request))
        && uow.ctx.pending == []
        && uow.log == old(uow.log) + [TxBegun, ChangesSaved, TxCommitted]
    ensures EmailsDistinct(old(uow.ctx.rows)) ==> EmailsDistinct(uow.ctx.rows)
  {
    uow.BeginTransaction();
    var msg := Check(uow.ctx.rows, request);
    if msg != "" {
      uow.CommitTransaction();
      r := Success(None, msg);
      assert uow.log == old(uow.log) + [TxBegun, TxCommitted];
      AppendRun(old(uow.log), [TxBegun, TxCommitted]);
    } else {
      r := Write(uow, repo, request, storage);
      ghost var run := [TxBegun, ChangesSaved, if r.succeeded then TxCommitted else TxRolledBack];
      assert uow.log == old(uow.log) + run;
      AppendRun(old(uow.log), run);
    }
  }
}
