/**
 * The database context the repository and the unit of work share: the Users table, the
 * changes staged against it and not yet saved, and the identity column that generates
 * keys for inserted rows. Saving applies the staged changes in order, all or nothing.
 */
module Store {
  import opened Results
  import opened Entities

  /** A change staged by the repository and applied when the context saves. */
  datatype Change =
    | Added(entity: User)     // insert; the store generates the key when it is 0
    | Modified(entity: User)  // overwrite the row with the entity's key
    | Deleted(entity: User)   // remove the row with the entity's key

  /** The state of a save in progress, or the error that aborts it. */
  datatype Flushed =
    | Flushed(rows: seq<User>, identity: int, count: nat, keys: seq<int>)
    | Conflict(message: string)

  /** What saving returns: the affected-row count and the generated keys, or the error thrown. */
  datatype SaveResult = Saved(count: nat, keys: seq<int>) | Failed(message: string)

  /** The ORM's message when an update or delete finds no row with the entity's key. */
  const ConcurrencyMessage: string :=
    "The database operation was expected to affect 1 row(s), but actually affected 0 row(s); data may have been modified or deleted since entities were loaded. See https://go.microsoft.com/fwlink/?LinkId=527962 for information on understanding and handling optimistic concurrency exceptions."

  /** The ORM's message when the database rejects an insert, here a key that is already stored. */
  const UpdateErrorMessage: string :=
    "An error occurred while saving the entity changes. See the inner exception for details."

  /** The position of the first row whose key is `id`, or -1 when there is none. */
  function FindIndex(rows: seq<User>, id: int): (i: int)
    ensures -1 <= i < |rows|
    ensures 0 <= i ==> rows[i].id == id && forall j :: 0 <= j < i ==> rows[j].id != id
    ensures i == -1 ==> forall j :: 0 <= j < |rows| ==> rows[j].id != id
  {
    if rows == [] then -1
    else if rows[0].id == id then 0
    else
      var k := FindIndex(rows[1..], id);
      if k == -1 then -1 else k + 1
  }

  /**
   * Applies one staged change. An insert whose key is 0 (the default) takes the next
   * identity value as its key. An insert with a preset key keeps it, moves the identity
   * counter past it, and is rejected when a row already has that key. `keys` collects the
   * keys of the inserted rows.
   */
  function Step(f: Flushed, c: Change): Flushed {
    match f
    case Conflict(_) => f
    case Flushed(rows, identity, count, keys) =>
      match c
      case Added(u) =>
        if u.id == 0 then
          Flushed(rows + [u.(id := identity)], identity + 1, count + 1, keys + [identity])
        else if 0 <= FindIndex(rows, u.id) then
          Conflict(UpdateErrorMessage)
        else
          Flushed(rows + [u], if u.id < identity then identity else u.id + 1, count + 1, keys + [u.id])
      case Modified(u) =>
        var i := FindIndex(rows, u.id);
        if i < 0 then Conflict(ConcurrencyMessage) else Flushed(rows[i := u], identity, count + 1, keys)
      case Deleted(u) =>
        var i := FindIndex(rows, u.id);
        if i < 0 then Conflict(ConcurrencyMessage) else Flushed(rows[..i] + rows[i + 1..], identity, count + 1, keys)
  }

  /** Applies the staged changes in the order they were staged. */
  function Flush(rows: seq<User>, pending: seq<Change>, identity: int): Flushed
    decreases |pending|
  {
    if pending == [] then Flushed(rows, identity, 0, [])
    else Step(Flush(rows, pending[..|pending| - 1], identity), pending[|pending| - 1])
  }

  /**
   * Appending a row whose key no stored row has keeps keys unique; every key stays below a
   * counter that does not go back and that the new key is below.
   */
  lemma AppendFreshKeepsValid(rows: seq<User>, identity: int, v: User, identity': int)
    requires ValidTable(rows, identity) && identity <= identity' && v.id < identity'
    requires forall j :: 0 <= j < |rows| ==> rows[j].id != v.id
    ensures ValidTable(rows + [v], identity')
  {
    var rows' := rows + [v];
    forall i, j | 0 <= i < j < |rows'| ensures rows'[i].id != rows'[j].id {
      assert rows'[i] == rows[i];
      if j < |rows| {
        assert rows'[j] == rows[j];
      }
    }
    forall i | 0 <= i < |rows'| ensures rows'[i].id < identity' {
      if i < |rows| {
        assert rows'[i] == rows[i];
      }
    }
  }

  /** Appending a row keyed by the identity counter keeps keys unique and below the advanced counter. */
  lemma AppendKeepsValid(rows: seq<User>, identity: int, u: User)
    requires ValidTable(rows, identity)
    ensures ValidTable(rows + [u.(id := identity)], identity + 1)
  {
    AppendFreshKeepsValid(rows, identity, u.(id := identity), identity + 1);
  }

  /** Removing a row keeps the table invariant. */
  lemma RemoveKeepsValid(rows: seq<User>, identity: int, i: nat)
    requires ValidTable(rows, identity) && i < |rows|
    ensures ValidTable(rows[..i] + rows[i + 1..], identity)
  {
    var rows' := rows[..i] + rows[i + 1..];
    forall a | 0 <= a < |rows'| ensures rows'[a] == rows[if a < i then a else a + 1] {}
  }

  /** Overwriting a row by a user with the same key keeps the table invariant. */
  lemma ReplaceKeepsValid(rows: seq<User>, identity: int, i: nat, u: User)
    requires ValidTable(rows, identity) && i < |rows| && rows[i].id == u.id
    ensures ValidTable(rows[i := u], identity)
  {
    var rows' := rows[i := u];
    forall a | 0 <= a < |rows'| ensures rows'[a].id == rows[a].id {}
  }

  /** The result of applying one change to a table whose invariant holds. */
  ghost predicate StepKeepsValid(f: Flushed, g: Flushed) {
    f.Flushed? ==> g.Flushed? ==>
      && ValidTable(g.rows, g.identity)
      && g.identity >= f.identity
      && g.count == f.count + 1
  }

  lemma StepAddedKeepsValid(f: Flushed, u: User)
    requires f.Flushed? && ValidTable(f.rows, f.identity)
    ensures StepKeepsValid(f, Step(f, Added(u)))
  {
    var rows, identity := f.rows, f.identity;
    if u.id == 0 {
      AppendKeepsValid(rows, identity, u);
      assert Step(f, Added(u)) == Flushed(rows + [u.(id := identity)], identity + 1, f.count + 1, f.keys + [identity]);
    } else if FindIndex(rows, u.id) < 0 {
      var identity' := if u.id < identity then identity else u.id + 1;
      AppendFreshKeepsValid(rows, identity, u, identity');
      assert Step(f, Added(u)) == Flushed(rows + [u], identity', f.count + 1, f.keys + [u.id]);
    }
  }

  lemma StepModifiedKeepsValid(f: Flushed, u: User)
    requires f.Flushed? && ValidTable(f.rows, f.identity)
    ensures StepKeepsValid(f, Step(f, Modified(u)))
  {
    var i := FindIndex(f.rows, u.id);
    if 0 <= i {
      ReplaceKeepsValid(f.rows, f.identity, i, u);
      assert Step(f, Modified(u)) == Flushed(f.rows[i := u], f.identity, f.count + 1, f.keys);
    }
  }

  lemma StepDeletedKeepsValid(f: Flushed, u: User)
    requires f.Flushed? && ValidTable(f.rows, f.identity)
    ensures StepKeepsValid(f, Step(f, Deleted(u)))
  {
    var i := FindIndex(f.rows, u.id);
    if 0 <= i {
      RemoveKeepsValid(f.rows, f.identity, i);
      assert Step(f, Deleted(u)) == Flushed(f.rows[..i] + f.rows[i + 1..], f.identity, f.count + 1, f.keys);
    }
  }

  /** One staged change keeps the table invariant and never lowers the identity counter. */
  lemma StepPreservesValid(f: Flushed, c: Change)
    requires f.Flushed? && ValidTable(f.rows, f.identity)
    ensures StepKeepsValid(f, Step(f, c))
  {
    match c
    case Added(u) => StepAddedKeepsValid(f, u);
    case Modified(u) => StepModifiedKeepsValid(f, u);
    case Deleted(u) => StepDeletedKeepsValid(f, u);
  }

  /**
   * Saving a valid table yields a valid table: keys stay unique and below the identity
   * counter, the counter never goes back, and every staged change is counted once.
   */
  lemma {:induction false} FlushPreservesValid(rows: seq<User>, pending: seq<Change>, identity: int)
    requires ValidTable(rows, identity)
    ensures Flush(rows, pending, identity).Flushed? ==>
      && ValidTable(Flush(rows, pending, identity).rows, Flush(rows, pending, identity).identity)
      && Flush(rows, pending, identity).identity >= identity
      && Flush(rows, pending, identity).count == |pending|
    decreases |pending|
  {
    if pending != [] {
      var prefix := pending[..|pending| - 1];
      FlushPreservesValid(rows, prefix, identity);
      var f := Flush(rows, prefix, identity);
      if f.Flushed? {
        StepPreservesValid(f, pending[|pending| - 1]);
      }
    }
  }

  /** The context: the table, the staged changes, the identity counter, how often it was disposed. */
  class DbContext {
    var rows: seq<User>
    var pending: seq<Change>
    var identity: int
    var disposals: nat

    ghost predicate Valid()
      reads this
    {
      ValidTable(rows, identity)
    }

    constructor (rows: seq<User>, identity: int)
      requires ValidTable(rows, identity)
      ensures Valid()
      ensures this.rows == rows && this.identity == identity && pending == [] && disposals == 0
    {
      this.rows := rows;
      this.identity := identity;
      pending := [];
      disposals := 0;
    }

    /**
     * Saves the staged changes. `fault` is the storage engine's answer, which the model
     * cannot see: `Some(m)` means the save throws with message `m`. A failed save changes
     * nothing in the table and leaves the changes staged.
     */
    method SaveChanges(fault: Option<string>) returns (r: SaveResult)
      requires Valid()
      modifies this`rows, this`pending, this`identity
      ensures Valid() && identity >= old(identity)
      ensures var f := Flush(old(rows), old(pending), old(identity));
        if fault.None? && f.Flushed? then
          && r == Saved(f.count, f.keys)
          && rows == f.rows && identity == f.identity && pending == []
        else
          && r == Failed(if fault.Some? then fault.value else f.message)
          && rows == old(rows) && identity == old(identity) && pending == old(pending)
    {
      var f := Flush(rows, pending, identity);
      FlushPreservesValid(rows, pending, identity);
      if fault.Some? {
        r := Failed(fault.value);
      } else if f.Conflict? {
        r := Failed(f.message);
      } else {
        rows, identity, pending := f.rows, f.identity, [];
        r := Saved(f.count, f.keys);
      }
    }

    /** Releases the context. */
    method Dispose()
      modifies this`disposals
      ensures disposals == old(disposals) + 1
    {
      disposals := disposals + 1;
    }
  }
}
