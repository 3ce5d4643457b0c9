/** Counting users by the host part of their email address, over the full user list. */
module GetGroupHostQuery {
  import opened Results
  import opened Entities
  import opened Email
  import opened Grouping
  import GetAllUserQuery

  /** A group of users whose emails share a host: the host, how many, a colour label. */
  type GroupHostModel = Group<string>

  /**
   * The hosts of the users' emails, in list order, or the format exception of the first
   * email that cannot be parsed.
   */
  function Hosts(users: seq<UserModel>): (r: Outcome<seq<string>>)
    ensures r.Threw? <==> exists i :: 0 <= i < |users| && !IsEmailAddress(users[i].email)
    ensures r.Threw? ==> r.message == FormatMessage
    ensures r.Returned? ==> |r.value| == |users|
    ensures r.Returned? ==> forall i :: 0 <= i < |users| ==> Host(users[i].email) == Returned(r.value[i])
  {
    if users == [] then Returned([])
    else
      var first := Host(users[0].email);
      if first.Threw? then Threw(first.message)
      else
        var rest := Hosts(users[1..]);
        assert forall i :: 1 <= i < |users| ==> users[1..][i - 1] == users[i];
        if rest.Threw? then rest else Returned([first.value] + rest.value)
  }

  /** Every stored email is a well-formed address. */
  ghost predicate AllEmailsParse(rows: seq<User>) {
    forall i :: 0 <= i < |rows| ==> IsEmailAddress(rows[i].email)
  }

  /** The hosts of the stored rows, in store order, for a table whose emails all parse. */
  function RowHosts(rows: seq<User>): (hosts: seq<string>)
    requires AllEmailsParse(rows)
    ensures |hosts| == |rows|
    ensures forall i :: 0 <= i < |rows| ==> Host(rows[i].email) == Returned(hosts[i])
  {
    seq(|rows|, i requires 0 <= i < |rows| && AllEmailsParse(rows) => Host(rows[i].email).value)
  }

  /**
   * `GetGroupHostQueryHandler.Handle`: lists the users through the list query (store
   * branch) and groups them by email host. A failed listing, or an email that cannot be
   * parsed, fails the whole result with the message.
   */
  function Handle(rows: seq<User>, draw: nat -> Draw, fault: Option<string>): (r: Result<seq<GroupHostModel>>)
    ensures fault.Some? ==> r == Fail(fault.value)
    ensures fault.None? && !AllEmailsParse(rows) ==> r == Fail(FormatMessage)
    ensures fault.None? && AllEmailsParse(rows) ==>
      && r.succeeded && r.message == "" && r.data.Some?
      && Describes(Tallies(r.data.value), RowHosts(rows))
      && InFirstOccurrenceOrder(Tallies(r.data.value), RowHosts(rows))
      && Total(Tallies(r.data.value)) == |rows|
      && forall i :: 0 <= i < |r.data.value| ==> r.data.value[i].count >= 1 && r.data.value[i].color == Color(draw(i))
  {
    var response := GetAllUserQuery.Handle(rows, GetAllUserQuery.Query(false, 0), GetAllUserQuery.NoSamples, fault);
    if !response.succeeded then
      Fail(response.message)
    else
      var users := response.data.value;
      assert forall i :: 0 <= i < |rows| ==> users[i].email == rows[i].email;
      var hosts := Hosts(users);
      if hosts.Threw? then
        Fail(hosts.message)
      else
        assert hosts.value == RowHosts(rows);
        Success(Some(GroupBy(hosts.value, draw)), "")
  }
}
