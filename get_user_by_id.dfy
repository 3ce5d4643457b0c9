/** Reading one user by key. The query opens no transaction and changes nothing. */
module GetUserByIdQuery {
  import opened Results
  import opened Entities
  import opened Store
  import opened Repository
  import opened Messages
  import DeleteUserCommand

  /**
   * `GetUserByIdQueryHandler.Handle`. `fault` is the store's answer to the read: a
   * message means the read throws, and the result fails with it. A missing key is a soft
   * failure, "User not found."; a stored key gives that user's fields and no message.
   */
  function Handle(rows: seq<User>, id: int, fault: Option<string>): (r: Result<UserModel>)
    ensures fault.Some? ==> r == Fail(fault.value)
    ensures fault.None? ==> r.succeeded
    ensures fault.None? && (forall i :: 0 <= i < |rows| ==> rows[i].id != id) ==>
      r.data.None? && r.message == NotFound
    ensures fault.None? && IdsDistinct(rows) ==>
      forall i :: 0 <= i < |rows| && rows[i].id == id ==> r.data == Some(ToModel(rows[i])) && r.message == ""
  {
    if fault.Some? then
      Fail(fault.value)
    else
      var entity := GetById(rows, id);
      if entity.None? then Success(None, NotFound) else Success(Some(ToModel(entity.value)), "")
  }

  /** A user appended with the next identity value as its key is found with the same fields. */
  lemma CreatedIsFound(rows: seq<User>, identity: int, name: string, email: string, age: int)
    requires ValidTable(rows, identity)
    ensures Handle(rows + [User(identity, name, email, age)], identity, None)
      == Success(Some(UserModel(identity, name, email, age)), "")
  {
    AddedIsRetrievable(rows, identity, User(0, name, email, age));
  }

  /** Once the row with a key is removed, reading that key reports "User not found.". */
  lemma DeletedIsNotFound(rows: seq<User>, id: int)
    requires IdsDistinct(rows)
    ensures Handle(DeleteUserCommand.Without(rows, id), id, None) == Success(None, NotFound)
  {
    var k := FindIndex(rows, id);
    var rest := DeleteUserCommand.Without(rows, id);
    forall i | 0 <= i < |rest| ensures rest[i].id != id {
      var j := if i < k || k < 0 then i else i + 1;
      assert rest[i] == rows[j];
    }
  }
}
