/** Counting users by age, over the full user list. */
module GetGroupAgeQuery {
  import opened Results
  import opened Entities
  import opened Grouping
  import GetAllUserQuery

  /** A group of users of one age: the age, how many users have it, a colour label. */
  type GroupAgeModel = Group<int>

  /** The ages of the users, in list order. */
  function Ages(users: seq<UserModel>): (ages: seq<int>)
    ensures |ages| == |users|
    ensures forall i :: 0 <= i < |users| ==> ages[i] == users[i].age
  {
    seq(|users|, i requires 0 <= i < |users| => users[i].age)
  }

  /** The ages of the stored rows, in store order: the ages of the listed models. */
  function RowAges(rows: seq<User>): (ages: seq<int>)
    ensures |ages| == |rows|
    ensures forall i :: 0 <= i < |rows| ==> ages[i] == rows[i].age
  {
    Ages(GetAllUserQuery.ToModels(rows))
  }

  /**
   * `GetGroupAgeQueryHandler.Handle`: lists the users through the list query (store
   * branch) and groups them by age; a failed listing fails with its message. `draw(i)` is
   * the i-th value of the random source that colours the groups.
   */
  function Handle(rows: seq<User>, draw: nat -> Draw, fault: Option<string>): (r: Result<seq<GroupAgeModel>>)
    ensures fault.Some? ==> r == Fail(fault.value)
    ensures fault.None? ==>
      && r.succeeded && r.message == "" && r.data.Some?
      && Describes(Tallies(r.data.value), RowAges(rows))
      && InFirstOccurrenceOrder(Tallies(r.data.value), RowAges(rows))
      && Total(Tallies(r.data.value)) == |rows|
      && forall i :: 0 <= i < |r.data.value| ==> r.data.value[i].count >= 1 && r.data.value[i].color == Color(draw(i))
  {
    var response := GetAllUserQuery.Handle(rows, GetAllUserQuery.Query(false, 0), GetAllUserQuery.NoSamples, fault);
    if response.succeeded then
      assert Ages(response.data.value) == RowAges(rows);
      Success(Some(GroupBy(Ages(response.data.value), draw)), "")
    else
      Fail(response.message)
  }
}
