/**
 * Listing users: either every stored user, or a number of generated sample users. The
 * query changes nothing.
 */
module GetAllUserQuery {
  import opened Results
  import opened Entities
  import opened Repository

  /** The request: whether to generate sample users, and how many. */
  datatype Query = Query(faker: bool, top: Int32)

  /** The age range the sample generator draws from, both ends included. */
  type FakeAge = x: int | 18 <= x <= 60 witness 18

  /**
   * One generated sample person: a first and a last name, an email derived from them by
   * the generator, and an age.
   */
  datatype FakePerson = FakePerson(firstName: string, lastName: string, email: string, age: FakeAge)

  /** The message thrown when a negative number of sample users is requested. */
  const ArgumentOutOfRangeMessage: string :=
    "Specified argument was out of the range of valid values. (Parameter 'count')"

  /** A generator for the store branch, which never consults it. */
  const NoSamples: nat -> FakePerson := _ => FakePerson("", "", "", 18)

  /** The model built from a generated person: the full name, the email, the age; the key stays 0. */
  function FakeUser(p: FakePerson): UserModel {
    UserModel(0, p.firstName + " " + p.lastName, p.email, p.age)
  }

  /** The mapper's copy of a list of entities: one model per entity, in order. */
  function ToModels(rows: seq<User>): (models: seq<UserModel>)
    ensures |models| == |rows|
    ensures forall i :: 0 <= i < |rows| ==> models[i] == ToModel(rows[i])
  {
    if rows == [] then [] else [ToModel(rows[0])] + ToModels(rows[1..])
  }

  /**
   * `GetAllUserQueryHandler.Handle`. `faker(i)` is the generator's i-th person, which the
   * model cannot see; `fault` is the store's answer to the read. The sample branch yields
   * exactly `top` users, all aged 18 to 60, and throws for a negative count; the store
   * branch yields one model per stored row, in store order, with identical fields.
   */
  function Handle(rows: seq<User>, query: Query, faker: nat -> FakePerson, fault: Option<string>)
    : (r: Result<seq<UserModel>>)
    ensures query.faker && query.top < 0 ==> r == Fail(ArgumentOutOfRangeMessage)
    ensures query.faker && 0 <= query.top ==>
      && r.succeeded && r.message == "" && r.data.Some? && |r.data.value| == query.top
      && forall i :: 0 <= i < query.top ==> r.data.value[i] == FakeUser(faker(i)) && 18 <= r.data.value[i].age <= 60
    ensures !query.faker && fault.Some? ==> r == Fail(fault.value)
    ensures !query.faker && fault.None? ==>
      && r.succeeded && r.message == "" && r.data.Some? && |r.data.value| == |rows|
      && forall i :: 0 <= i < |rows| ==> r.data.value[i] == ToModel(rows[i])
  {
    if query.faker then
      if query.top < 0 then Fail(ArgumentOutOfRangeMessage)
      else Success(Some(seq(query.top, i requires 0 <= i => FakeUser(faker(i)))), "")
    else if fault.Some? then
      Fail(fault.value)
    else
      Success(Some(ToModels(GetAll(rows))), "")
  }
}
