/**
 * The user API. Each endpoint sends a request to its handler and turns the result into a
 * response: a failed result always becomes an error carrying its message; on the
 * endpoints that read or write one user, a successful result that carries a message (a
 * soft failure) becomes an error too. An error is modelled as the exception thrown.
 */
module UserController {
  import opened Results
  import opened Entities
  import opened Store
  import opened Repository
  import opened Transactions
  import opened Messages
  import opened Grouping
  import opened Ranking
  import CreateUserCommand
  import DeleteUserCommand
  import GetUserByIdQuery
  import GetAllUserQuery
  import GetGroupAgeQuery
  import GetGroupHostQuery
  import Email

  /** The check of the list and group endpoints: only a failed result is an error. */
  function Lenient<T>(r: Result<T>): (o: Outcome<Option<T>>)
    ensures o.Threw? <==> !r.succeeded
    ensures o.Threw? ==> o.message == r.message
    ensures o.Returned? ==> o.value == r.data
  {
    if !r.succeeded then Threw(r.message) else Returned(r.data)
  }

  /** The check of the single-user endpoints: a failed result or a non-empty message is an error. */
  function Strict<T>(r: Result<T>): (o: Outcome<Option<T>>)
    ensures o.Threw? <==> !r.succeeded || r.message != ""
    ensures o.Threw? ==> o.message == r.message
    ensures o.Returned? ==> o.value == r.data
  {
    if !r.succeeded then Threw(r.message)
    else if r.message != "" then Threw(r.message)
    else Returned(r.data)
  }

  /**
   * The two checks differ exactly on soft failures: the strict one rejects them, the
   * lenient one passes their data through; on everything else they agree.
   */
  lemma StrictAndLenientDifferOnSoftFailures<T>(r: Result<T>)
    ensures Strict(r) != Lenient(r) <==> IsSoftFailure(r)
    ensures IsSoftFailure(r) ==> Strict(r) == Threw(r.message) && Lenient(r) == Returned(r.data)
  {
  }

  /** `GetAllAsync(test, top)`: the users, stored or generated; only a failed query is an error. */
  function GetAllAsync(rows: seq<User>, test: bool, top: Int32, faker: nat -> GetAllUserQuery.FakePerson, fault: Option<string>)
    : (r: Outcome<Option<seq<UserModel>>>)
    ensures test && top < 0 ==> r == Threw(GetAllUserQuery.ArgumentOutOfRangeMessage)
    ensures test && 0 <= top ==> r.Returned? && r.value.Some? && |r.value.value| == top
    ensures !test && fault.Some? ==> r == Threw(fault.value)
    ensures !test && fault.None? ==> r == Returned(Some(GetAllUserQuery.ToModels(rows)))
  {
    Lenient(GetAllUserQuery.Handle(rows, GetAllUserQuery.Query(test, top), faker, fault))
  }

  /**
   * `GetAsync(id)`: the user with that key; a missing key ("User not found.") and a failed
   * read are errors.
   */
  function GetAsync(rows: seq<User>, id: int, fault: Option<string>): (r: Outcome<Option<UserModel>>)
    ensures fault.Some? ==> r == Threw(fault.value)
    ensures fault.None? && GetById(rows, id).None? ==> r == Threw(NotFound)
    ensures fault.None? && IdsDistinct(rows) ==>
      forall i :: 0 <= i < |rows| && rows[i].id == id ==> r == Returned(Some(ToModel(rows[i])))
  {
    Strict(GetUserByIdQuery.Handle(rows, id, fault))
  }

  /** After a successful create, reading the returned key gives back the fields sent. */
  lemma CreatedUserCanBeRead(rows: seq<User>, identity: int, model: UserModel)
    requires ValidTable(rows, identity)
    ensures GetAsync(rows + [User(identity, model.name, model.email, model.age)], identity, None)
      == Returned(Some(UserModel(identity, model.name, model.email, model.age)))
  {
    GetUserByIdQuery.CreatedIsFound(rows, identity, model.name, model.email, model.age);
  }

  /** After a successful delete, reading the deleted key is an error: "User not found.". */
  lemma DeletedUserCannotBeRead(rows: seq<User>, id: int)
    requires IdsDistinct(rows)
    ensures GetAsync(DeleteUserCommand.Without(rows, id), id, None) == Threw(NotFound)
  {
    GetUserByIdQuery.DeletedIsNotFound(rows, id);
  }

  /**
   * What creating a user from `model` does to a table `rows0` with identity counter
   * `identity0`: the outcome `r` and the new table and counter. The model's key plays
   * no part: the create command has no key.
   */
  ghost predicate CreateEffect(rows0: seq<User>, identity0: int, model: UserModel, storage: Option<string>,
                               r: Outcome<Option<UserModel>>, rows: seq<User>, identity: int)
  {
    if EmailTaken(rows0, model.email) then
      r == Threw(AlreadyExists(model.email)) && rows == rows0 && identity == identity0
    else if storage.Some? then
      r == Threw(storage.value) && rows == rows0 && identity == identity0
    else if identity0 == 0 then
      r == Threw(DatabaseError) && rows == rows0 && identity == 1
    else
      var created := User(identity0, model.name, model.email, model.age);
      r == Returned(Some(ToModel(created))) && rows == rows0 + [created] && identity == identity0 + 1
  }

  /** Whether creating a user from `model` on table `rows` with counter `identity` is an error. */
  ghost predicate CreateFails(rows: seq<User>, identity: int, model: UserModel, storage: Option<string>)
  {
    EmailTaken(rows, model.email) || storage.Some? || identity == 0
  }

  /** The message of the error that a failing create throws. */
  ghost function CreateError(rows: seq<User>, identity: int, model: UserModel, storage: Option<string>): string
    requires CreateFails(rows, identity, model, storage)
  {
    if EmailTaken(rows, model.email) then AlreadyExists(model.email)
    else if storage.Some? then storage.value
    else DatabaseError
  }

  /** `CreateUserAsync(model)`: sends a create command built from the model and applies the strict check. */
  method CreateUserAsync(uow: UnitOfWork, repo: UserRepository, model: UserModel, storage: Option<string>)
    returns (r: Outcome<Option<UserModel>>)
    requires uow.Valid() && repo.ctx == uow.ctx && uow.ctx.pending == [] && !uow.Open()
    modifies uow.ctx`rows, uow.ctx`pending, uow.ctx`identity, uow`transaction, uow`log
    ensures uow.Valid() && !uow.Open()
    ensures CreateEffect(old(uow.ctx.rows), old(uow.ctx.identity), model, storage, r, uow.ctx.rows, uow.ctx.identity)
    ensures r.Returned? ==> uow.ctx.pending == []
  {
    var command := CreateUserCommand.Command(model.name, model.email, model.age);
    var response := CreateUserCommand.Handle(uow, repo, command, storage);
    r := Strict(response);
  }

  /** `PostAsync(model)`: creates a user; the same steps as the create helper. */
  method PostAsync(uow: UnitOfWork, repo: UserRepository, model: UserModel, storage: Option<string>)
    returns (r: Outcome<Option<UserModel>>)
    requires uow.Valid() && repo.ctx == uow.ctx && uow.ctx.pending == [] && !uow.Open()
    modifies uow.ctx`rows, uow.ctx`pending, uow.ctx`identity, uow`transaction, uow`log
    ensures uow.Valid() && !uow.Open()
    ensures CreateEffect(old(uow.ctx.rows), old(uow.ctx.identity), model, storage, r, uow.ctx.rows, uow.ctx.identity)
  {
    r := CreateUserAsync(uow, repo, model, storage);
  }

  /**
   * `PutAsync(model)`: despite its verb, creates a user through the create helper; it
   * never updates, so every stored row keeps its values and the model's key is ignored.
   */
  method PutAsync(uow: UnitOfWork, repo: UserRepository, model: UserModel, storage: Option<string>)
    returns (r: Outcome<Option<UserModel>>)
    requires uow.Valid() && repo.ctx == uow.ctx && uow.ctx.pending == [] && !uow.Open()
    modifies uow.ctx`rows, uow.ctx`pending, uow.ctx`identity, uow`transaction, uow`log
    ensures uow.Valid() && !uow.Open()
    ensures CreateEffect(old(uow.ctx.rows), old(uow.ctx.identity), model, storage, r, uow.ctx.rows, uow.ctx.identity)
    ensures |old(uow.ctx.rows)| <= |uow.ctx.rows| && uow.ctx.rows[..|old(uow.ctx.rows)|] == old(uow.ctx.rows)
  {
    r := CreateUserAsync(uow, repo, model, storage);
  }

  /** `DeleteAsync(id)`: deletes the user; a missing key and a failed save are errors. */
  method DeleteAsync(uow: UnitOfWork, repo: UserRepository, id: int, storage: Option<string>)
    returns (r: Outcome<Option<bool>>)
    requires uow.Valid() && repo.ctx == uow.ctx && uow.ctx.pending == [] && !uow.Open()
    modifies uow.ctx`rows, uow.ctx`pending, uow.ctx`identity, uow`transaction, uow`log
    ensures uow.Valid() && !uow.Open()
    ensures var rows := old(uow.ctx.rows);
      if GetById(rows, id).None? then r == Threw(NotFound) && uow.ctx.rows == rows
      else if storage.Some? then r == Threw(storage.value) && uow.ctx.rows == rows
      else r == Returned(Some(true)) && uow.ctx.rows == DeleteUserCommand.Without(rows, id)
  {
    var response := DeleteUserCommand.Handle(uow, repo, DeleteUserCommand.Command(id), storage);
    r := Strict(response);
  }

  /** `GetGroupAgeAsync()`: the users grouped by age; only a failed query is an error. */
  function GetGroupAgeAsync(rows: seq<User>, draw: nat -> Draw, fault: Option<string>)
    : (r: Outcome<seq<GetGroupAgeQuery.GroupAgeModel>>)
    ensures fault.Some? <==> r.Threw?
    ensures r.Threw? ==> r.message == fault.value
    ensures r.Returned? ==>
      && Describes(Tallies(r.value), GetGroupAgeQuery.RowAges(rows))
      && Total(Tallies(r.value)) == |rows|
  {
    var response := GetGroupAgeQuery.Handle(rows, draw, fault);
    if !response.succeeded then Threw(response.message) else Returned(response.data.value)
  }

  /**
   * `GetGroupAgeTopAsync(top)`: the `top` largest age groups, largest first, ties in list
   * order; an error when the groups cannot be listed.
   */
  function GetGroupAgeTopAsync(rows: seq<User>, draw: nat -> Draw, fault: Option<string>, top: Int32)
    : (r: Outcome<seq<GetGroupAgeQuery.GroupAgeModel>>)
    ensures r.Threw? <==> GetGroupAgeAsync(rows, draw, fault).Threw?
    ensures r.Returned? ==>
      var all := GetGroupAgeAsync(rows, draw, fault).value;
      && |r.value| == (if top <= 0 then 0 else if top < |all| then top else |all|)
      && NonIncreasing(r.value)
      && multiset(r.value) <= multiset(all)
  {
    var list := GetGroupAgeAsync(rows, draw, fault);
    if list.Threw? then Threw(list.message) else Returned(Top(list.value, top))
  }

  /** `GetGroupHostAsync()`: the users grouped by email host; only a failed query is an error. */
  function GetGroupHostAsync(rows: seq<User>, draw: nat -> Draw, fault: Option<string>)
    : (r: Outcome<seq<GetGroupHostQuery.GroupHostModel>>)
    ensures r.Threw? <==> fault.Some? || !GetGroupHostQuery.AllEmailsParse(rows)
    ensures fault.Some? ==> r == Threw(fault.value)
    ensures fault.None? && !GetGroupHostQuery.AllEmailsParse(rows) ==> r == Threw(Email.FormatMessage)
    ensures r.Returned? && GetGroupHostQuery.AllEmailsParse(rows) ==>
      && Describes(Tallies(r.value), GetGroupHostQuery.RowHosts(rows))
      && Total(Tallies(r.value)) == |rows|
  {
    var response := GetGroupHostQuery.Handle(rows, draw, fault);
    if !response.succeeded then Threw(response.message) else Returned(response.data.value)
  }

  /**
   * `GetGroupHostTopAsync(top)`: the `top` largest host groups, largest first, ties in list
   * order; an error when the groups cannot be listed.
   */
  function GetGroupHostTopAsync(rows: seq<User>, draw: nat -> Draw, fault: Option<string>, top: Int32)
    : (r: Outcome<seq<GetGroupHostQuery.GroupHostModel>>)
    ensures r.Threw? <==> GetGroupHostAsync(rows, draw, fault).Threw?
    ensures r.Returned? ==>
      var all := GetGroupHostAsync(rows, draw, fault).value;
      && |r.value| == (if top <= 0 then 0 else if top < |all| then top else |all|)
      && NonIncreasing(r.value)
      && multiset(r.value) <= multiset(all)
  {
    var list := GetGroupHostAsync(rows, draw, fault);
    if list.Threw? then Threw(list.message) else Returned(Top(list.value, top))
  }

  /** The users that creating the first `n` generated people stores, keys counting up from `identity`. */
  function Samples(identity: int, faker: nat -> GetAllUserQuery.FakePerson, n: nat): (users: seq<User>)
    ensures |users| == n
    ensures forall j :: 0 <= j < n ==>
      var m := GetAllUserQuery.FakeUser(faker(j));
      users[j] == User(identity + j, m.name, m.email, m.age)
  {
    seq(n, j requires 0 <= j < n =>
      var m := GetAllUserQuery.FakeUser(faker(j));
      User(identity + j, m.name, m.email, m.age))
  }

  /**
   * Whether creating the `j`-th generated person fails, once the `j` before it were
   * created on `rows0` with counter `identity0`.
   */
  ghost predicate SampleFails(rows0: seq<User>, identity0: int, faker: nat -> GetAllUserQuery.FakePerson,
                              storage: nat -> Option<string>, j: nat)
  {
    CreateFails(rows0 + Samples(identity0, faker, j), identity0 + j, GetAllUserQuery.FakeUser(faker(j)), storage(j))
  }

  /** The message of the error that creating the `j`-th generated person throws. */
  ghost function SampleError(rows0: seq<User>, identity0: int, faker: nat -> GetAllUserQuery.FakePerson,
                             storage: nat -> Option<string>, j: nat): string
    requires SampleFails(rows0, identity0, faker, storage, j)
  {
    CreateError(rows0 + Samples(identity0, faker, j), identity0 + j, GetAllUserQuery.FakeUser(faker(j)), storage(j))
  }

  /**
   * `CreateUsersTestAsync(top)`: generates `top` sample users and creates them one by one,
   * in order, stopping at the first error. `storage(i)` is the store's answer to the i-th
   * save. `created` is the number of users created: the table gains exactly those, with
   * consecutive keys. The call returns exactly when no sample's create fails, and then
   * holds one model per sample; otherwise it throws the error of the first failing create.
   */
  method CreateUsersTestAsync(uow: UnitOfWork, repo: UserRepository, top: Int32,
                              faker: nat -> GetAllUserQuery.FakePerson, storage: nat -> Option<string>)
    returns (r: Outcome<seq<UserModel>>, ghost created: nat)
    requires uow.Valid() && repo.ctx == uow.ctx && uow.ctx.pending == [] && !uow.Open()
    modifies uow.ctx`rows, uow.ctx`pending, uow.ctx`identity, uow`transaction, uow`log
    ensures top < 0 ==> r == Threw(GetAllUserQuery.ArgumentOutOfRangeMessage) && created == 0
    ensures created <= if top < 0 then 0 else top
    ensures uow.ctx.rows == old(uow.ctx.rows) + Samples(old(uow.ctx.identity), faker, created)
    ensures r.Returned? ==>
      && created == top && |r.value| == top
      && forall j :: 0 <= j < top ==> r.value[j] == ToModel(Samples(old(uow.ctx.identity), faker, top)[j])
    ensures forall j :: 0 <= j < created ==> !SampleFails(old(uow.ctx.rows), old(uow.ctx.identity), faker, storage, j)
    ensures 0 <= top && r.Threw? ==>
      && created < top
      && SampleFails(old(uow.ctx.rows), old(uow.ctx.identity), faker, storage, created)
      && r.message == SampleError(old(uow.ctx.rows), old(uow.ctx.identity), faker, storage, created)
    ensures 0 <= top ==>
      (r.Returned? <==> forall j :: 0 <= j < top ==> !SampleFails(old(uow.ctx.rows), old(uow.ctx.identity), faker, storage, j))
  {
    var rows0, identity0 := uow.ctx.rows, uow.ctx.identity;
    created := 0;
    var users := GetAllAsync(uow.ctx.rows, true, top, faker, None);
    if users.Threw? {
      r := Threw(users.message);
      assert Samples(identity0, faker, 0) == [];
      return;
    }
    var samples := users.value.value;
    var list: seq<UserModel> := [];
    var i := 0;
    while i < |samples|
      invariant 0 <= i <= |samples| == top
      invariant uow.Valid() && !uow.Open() && uow.ctx.pending == []
      invariant uow.ctx.identity == identity0 + i
      invariant uow.ctx.rows == rows0 + Samples(identity0, faker, i)
      invariant |list| == i
      invariant forall j :: 0 <= j < i ==> list[j] == ToModel(Samples(identity0, faker, i)[j])
      invariant forall j :: 0 <= j < i ==> !SampleFails(rows0, identity0, faker, storage, j)
    {
      assert samples[i] == GetAllUserQuery.FakeUser(faker(i));
      var result := CreateUserAsync(uow, repo, samples[i], storage(i));
      if result.Threw? {
        assert SampleFails(rows0, identity0, faker, storage, i);
        r := Threw(result.message);
        created := i;
        return;
      }
      assert !SampleFails(rows0, identity0, faker, storage, i);
      assert Samples(identity0, faker, i + 1) == Samples(identity0, faker, i) + [Samples(identity0, faker, i + 1)[i]];
      list := list + [result.value.value];
      i := i + 1;
    }
    r := Returned(list);
    created := i;
  }
}
