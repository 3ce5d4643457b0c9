/**
 * The generic repository, instantiated for users. Reads are queries over the table as it
 * is stored; writes only stage changes on the shared context, which the unit of work saves.
 */
module Repository {
  import opened Results
  import opened Entities
  import opened Store
  import opened Linq

  /** A C# `int`. */
  type Int32 = x: int | -0x8000_0000 <= x < 0x8000_0000

  /** Two's-complement wrap-around of unchecked `int` arithmetic. */
  function Wrap32(x: int): (r: Int32)
    ensures -0x8000_0000 <= x < 0x8000_0000 ==> r == x
  {
    (x + 0x8000_0000) % 0x1_0000_0000 - 0x8000_0000
  }

  /** The thrown message when an array is indexed past its end. */
  const IndexOutOfRangeMessage: string := "Index was outside the bounds of the array."

  /** A product with a factor of at least one is at least the other, positive factor. */
  lemma ProductAtLeast(d: int, m: int)
    requires 1 <= d && 0 < m
    ensures m <= d * m
  {
    NonNegativeProduct(d - 1, m);
    Distribute(d - 1, 1, m);
  }

  /** The remainder of `q * m + r` by `m` is `r` when `0 <= r < m`. */
  lemma ModUnique(n: int, m: int, q: int, r: int)
    requires 0 < m && n == q * m + r && 0 <= r < m
    ensures n % m == r
  {
    var q0, r0 := n / m, n % m;
    assert q0 * m + r0 == q * m + r;
    Distribute(q0 - q, q, m);
    assert (q0 - q) * m == r - r0;
    if q0 - q >= 1 {
      ProductAtLeast(q0 - q, m);
    } else if q - q0 >= 1 {
      ProductAtLeast(q - q0, m);
      Distribute(q - q0, q0 - q, m);
    }
  }

  /** Euclidean remainder is unchanged by adding a multiple of the divisor. */
  lemma ModShift(a: int, k: int, m: int)
    requires 0 < m
    ensures (a + k * m) % m == a % m
  {
    var q, r := a / m, a % m;
    Distribute(q, k, m);
    ModUnique(a + k * m, m, q + k, r);
  }

  /** Wrapping is unchanged by adding a multiple of 2^32. */
  lemma WrapShift(x: int, k: int)
    ensures Wrap32(x + k * 0x1_0000_0000) == Wrap32(x)
  {
    assert x + k * 0x1_0000_0000 + 0x8000_0000 == (x + 0x8000_0000) + k * 0x1_0000_0000;
    ModShift(x + 0x8000_0000, k, 0x1_0000_0000);
  }

  /**
   * The number of rows a page skips: `(pageNumber - 1) * pageSize`, each operation in 32-bit
   * arithmetic. The result is the exact product wrapped once, which is the exact product
   * whenever that fits in an `int`.
   */
  function PageOffset(pageNumber: Int32, pageSize: Int32): (offset: Int32)
    ensures offset == Wrap32((pageNumber - 1) * pageSize)
    ensures 1 <= pageNumber && 0 <= pageSize && (pageNumber - 1) * pageSize < 0x8000_0000 ==>
      offset == (pageNumber - 1) * pageSize
  {
    var first := Wrap32(pageNumber - 1);
    var k := if pageNumber == -0x8000_0000 then 1 else 0;
    assert first == pageNumber - 1 + k * 0x1_0000_0000;
    assert first * pageSize == (pageNumber - 1) * pageSize + (k * pageSize) * 0x1_0000_0000 by {
      Distribute(pageNumber - 1, k * 0x1_0000_0000, pageSize);
    }
    WrapShift((pageNumber - 1) * pageSize, k * pageSize);
    assert 1 <= pageNumber && 0 <= pageSize ==> 0 <= (pageNumber - 1) * pageSize by {
      if 1 <= pageNumber && 0 <= pageSize {
        NonNegativeProduct(pageNumber - 1, pageSize);
      }
    }
    Wrap32(first * pageSize)
  }

  lemma Distribute(a: int, b: int, c: int)
    ensures (a + b) * c == a * c + b * c
  {}

  lemma NonNegativeProduct(a: nat, b: nat)
    ensures 0 <= a * b
  {}

  /**
   * `GetPagedResponseAsync`: skips `(pageNumber - 1) * pageSize` rows (computed in 32-bit
   * arithmetic) and returns at most `pageSize` of the rest, in store order.
   */
  function GetPagedResponse(rows: seq<User>, pageNumber: Int32, pageSize: Int32): (r: seq<User>)
    ensures |r| <= if pageSize < 0 then 0 else pageSize
    ensures var offset := PageOffset(pageNumber, pageSize);
      0 <= offset && 0 <= pageSize ==>
      && |r| == (if offset >= |rows| then 0 else if |rows| - offset < pageSize then |rows| - offset else pageSize)
      && forall i :: 0 <= i < |r| ==> r[i] == rows[offset + i]
  {
    Take(Skip(rows, PageOffset(pageNumber, pageSize)), pageSize)
  }

  /** Every row sits on exactly the page and at the position that integer division says. */
  lemma RowOnPage(rows: seq<User>, i: nat, pageSize: Int32)
    requires 1 <= pageSize && i < |rows| < 0x8000_0000
    ensures i / pageSize + 1 < 0x8000_0000
    ensures i % pageSize < |GetPagedResponse(rows, i / pageSize + 1, pageSize)|
    ensures GetPagedResponse(rows, i / pageSize + 1, pageSize)[i % pageSize] == rows[i]
  {
    var q, m := i / pageSize, i % pageSize;
    DivisionFacts(i, pageSize);
    assert (q + 1 - 1) * pageSize == q * pageSize;
    assert PageOffset(q + 1, pageSize) == q * pageSize;
    assert q * pageSize + m < |rows|;
  }

  lemma DivisionFacts(i: nat, d: int)
    requires 1 <= d
    ensures 0 <= i / d <= i && 0 <= i % d < d && (i / d) * d + i % d == i
  {
    var q := i / d;
    assert q * d + i % d == i;
    assert 0 <= q;
    assert q * d >= q * 1 by { MonotoneProduct(q, 1, d); }
  }

  lemma MonotoneProduct(q: nat, a: int, b: int)
    requires a <= b
    ensures q * a <= q * b
  {}

  /** `GetAllAsync()`: every stored row, in store order. */
  function GetAll(rows: seq<User>): seq<User> {
    rows
  }

  /** `GetAllAsync()` returns what the filtered overload returns for a condition every row meets. */
  lemma {:induction false} GetAllIsUnfiltered(rows: seq<User>, includes: Option<seq<string>>)
    ensures GetAllWhere(rows, _ => true, includes) == GetAll(rows)
    decreases |rows|
  {
    if rows != [] {
      var init := rows[..|rows| - 1];
      GetAllIsUnfiltered(init, includes);
      assert rows == init + [rows[|rows| - 1]];
    }
  }

  /**
   * `GetAllAsync(includes)`: the first include is read without a guard, so an empty
   * include list throws; otherwise every row (users have no related data to load).
   */
  function GetAllIncluding(rows: seq<User>, includes: seq<string>): (r: Outcome<seq<User>>)
    ensures r.Threw? <==> includes == []
    ensures r.Threw? ==> r.message == IndexOutOfRangeMessage
    ensures r.Returned? ==> r.value == rows
  {
    if |includes| == 0 then Threw(IndexOutOfRangeMessage) else Returned(GetAll(rows))
  }

  /** `GetAllAsync(where, includes)`: the rows that satisfy `where`; null or empty includes are fine. */
  function GetAllWhere(rows: seq<User>, where: User -> bool, includes: Option<seq<string>>): (r: seq<User>)
    ensures forall u :: u in r <==> u in rows && where(u)
    ensures |r| == |Matching(rows, where)|
  {
    WhereCountsMatches(rows, where);
    Where(rows, where)
  }

  /** `GetFirstOrDefaultAsync(where)`: the first row in store order that satisfies `where`, or null. */
  function GetFirstOrDefault(rows: seq<User>, where: User -> bool): (r: Option<User>)
    ensures r.None? <==> forall i :: 0 <= i < |rows| ==> !where(rows[i])
    ensures r.Some? ==> exists i :: (0 <= i < |rows| && rows[i] == r.value && where(rows[i]) &&
      forall j :: 0 <= j < i ==> !where(rows[j]))
  {
    if rows == [] then None
    else if where(rows[0]) then Some(rows[0])
    else
      var r := GetFirstOrDefault(rows[1..], where);
      assert forall j :: 0 <= j < |rows| - 1 ==> rows[1..][j] == rows[j + 1];
      r
  }

  /** `GetByIdAsync(id)`: the row whose key is `id`, or null; a missing key never throws. */
  function GetById(rows: seq<User>, id: int): (r: Option<User>)
    ensures r.None? <==> forall i :: 0 <= i < |rows| ==> rows[i].id != id
    ensures r.Some? ==> r.value.id == id && r.value in rows
    ensures r.Some? && IdsDistinct(rows) ==> forall i :: 0 <= i < |rows| && rows[i].id == id ==> rows[i] == r.value
  {
    var i := FindIndex(rows, id);
    if i < 0 then None else Some(rows[i])
  }

  /** `AnyAsync(where)`: whether some stored row satisfies `where`. */
  function Any(rows: seq<User>, where: User -> bool): (r: bool)
    ensures r <==> exists i :: 0 <= i < |rows| && where(rows[i])
  {
    if rows == [] then false
    else if where(rows[0]) then true
    else
      assert forall j :: 0 <= j < |rows| - 1 ==> rows[1..][j] == rows[j + 1];
      Any(rows[1..], where)
  }

  /** `CountAsync(where)`: the number of stored rows that satisfy `where`. */
  function Count(rows: seq<User>, where: User -> bool): (n: nat)
    ensures n == |Matching(rows, where)|
    ensures n == 0 <==> !Any(rows, where)
    ensures n == |rows| <==> forall i :: 0 <= i < |rows| ==> where(rows[i])
  {
    WhereCountsMatches(rows, where);
    var matches := Where(rows, where);
    if |matches| == 0 then
      0
    else
      assert matches[0] in matches;
      |matches|
  }

  /**
   * Staging then saving an insert. With key 0 the entity is stored with the next identity
   * value as its key. A preset key is kept, and the save is rejected when a row already
   * has it. Either way the inserted entity is retrievable by its key with its fields
   * intact, and no other row changes.
   */
  lemma AddedIsRetrievable(rows: seq<User>, identity: int, u: User)
    requires ValidTable(rows, identity)
    ensures var f := Flush(rows, [Added(u)], identity);
      u.id == 0 ==>
        && f.Flushed? && f.keys == [identity] && f.count == 1
        && f.rows == rows + [u.(id := identity)]
        && GetById(f.rows, identity) == Some(u.(id := identity))
    ensures var f := Flush(rows, [Added(u)], identity);
      u.id != 0 ==>
        && (f.Flushed? <==> GetById(rows, u.id).None?)
        && (f.Conflict? ==> f.message == UpdateErrorMessage)
        && (f.Flushed? ==>
              && f.keys == [u.id] && f.count == 1
              && f.rows == rows + [u]
              && GetById(f.rows, u.id) == Some(u))
  {
    var f := Flush(rows, [Added(u)], identity);
    assert [Added(u)][..0] == [];
    assert f == Step(Flush(rows, [], identity), Added(u));
    var v := if u.id == 0 then u.(id := identity) else u;
    var rows' := rows + [v];
    if u.id == 0 || FindIndex(rows, u.id) < 0 {
      assert f.rows == rows';
      assert rows'[|rows|].id == v.id;
      assert forall j :: 0 <= j < |rows| ==> rows'[j].id != v.id;
      FindIndexOfUniqueKey(rows', v.id, |rows|);
    }
  }

  /** In a table whose only row with key `id` is at `k`, the lookup finds position `k`. */
  lemma {:induction false} FindIndexOfUniqueKey(rows: seq<User>, id: int, k: nat)
    requires k < |rows| && rows[k].id == id
    requires forall j :: 0 <= j < |rows| && j != k ==> rows[j].id != id
    ensures FindIndex(rows, id) == k
  {
    if k > 0 {
      assert rows[0].id != id;
      forall j | 0 <= j < |rows| - 1 && j != k - 1 ensures rows[1..][j].id != id {
        assert rows[1..][j] == rows[j + 1];
      }
      FindIndexOfUniqueKey(rows[1..], id, k - 1);
    }
  }

  /**
   * Staging then saving an update of a stored key: that row takes the entity's values,
   * every other row is unchanged, and a lookup by the key returns the entity.
   */
  lemma UpdatedIsRetrievable(rows: seq<User>, identity: int, u: User, k: nat)
    requires ValidTable(rows, identity) && k < |rows| && rows[k].id == u.id
    ensures var f := Flush(rows, [Modified(u)], identity);
      && f.Flushed? && f.count == 1 && f.identity == identity
      && f.rows == rows[k := u]
      && GetById(f.rows, u.id) == Some(u)
  {
    assert [Modified(u)][..0] == [];
    assert Flush(rows, [Modified(u)], identity) == Step(Flush(rows, [], identity), Modified(u));
    FindIndexOfUniqueKey(rows, u.id, k);
    FindIndexOfUniqueKey(rows[k := u], u.id, k);
  }

  /**
   * Staging then saving a delete succeeds exactly when the key is stored; it removes
   * that one row, and a lookup by the key then finds nothing.
   */
  lemma DeletedIsGone(rows: seq<User>, identity: int, u: User)
    requires ValidTable(rows, identity)
    ensures var f := Flush(rows, [Deleted(u)], identity);
      && (f.Flushed? <==> GetById(rows, u.id).Some?)
      && (f.Flushed? ==>
            && f.count == 1 && f.identity == identity
            && f.rows == rows[..FindIndex(rows, u.id)] + rows[FindIndex(rows, u.id) + 1..]
            && GetById(f.rows, u.id).None?)
  {
    assert [Deleted(u)][..0] == [];
    assert Flush(rows, [Deleted(u)], identity) == Step(Flushed(rows, identity, 0, []), Deleted(u));
    var k := FindIndex(rows, u.id);
    if 0 <= k {
      RemovedKeyIsGone(rows, k);
    }
  }

  /** With unique keys, removing the row at `k` leaves no row with its key. */
  lemma RemovedKeyIsGone(rows: seq<User>, k: nat)
    requires IdsDistinct(rows) && k < |rows|
    ensures var rest := rows[..k] + rows[k + 1..];
      forall a :: 0 <= a < |rest| ==> rest[a].id != rows[k].id
  {
    var rest := rows[..k] + rows[k + 1..];
    forall a | 0 <= a < |rest| ensures rest[a].id != rows[k].id {
      var b := if a < k then a else a + 1;
      assert rest[a] == rows[b] && b != k;
    }
  }

  /** The repository over the shared context: its write operations stage changes. */
  class UserRepository {
    const ctx: DbContext

    constructor (ctx: DbContext)
      ensures this.ctx == ctx
    {
      this.ctx := ctx;
    }

    /** `AddAsync(entity)`: stages an insert and returns the very entity passed in. */
    method AddAsync(entity: User) returns (r: User)
      modifies ctx`pending
      ensures r == entity
      ensures ctx.pending == old(ctx.pending) + [Added(entity)]
    {
      ctx.pending := ctx.pending + [Added(entity)];
      r := entity;
    }

    /** `AddAsync(entities)`: stages one insert per entity, in order, and returns the list. */
    method AddRangeAsync(entities: seq<User>) returns (r: seq<User>)
      modifies ctx`pending
      ensures r == entities
      ensures ctx.pending == old(ctx.pending) + seq(|entities|, i requires 0 <= i < |entities| => Added(entities[i]))
    {
      ctx.pending := ctx.pending + seq(|entities|, i requires 0 <= i < |entities| => Added(entities[i]));
      r := entities;
    }

    /** `UpdateAsync(entity)`: stages an overwrite of the row with the entity's key. */
    method UpdateAsync(entity: User)
      modifies ctx`pending
      ensures ctx.pending == old(ctx.pending) + [Modified(entity)]
    {
      ctx.pending := ctx.pending + [Modified(entity)];
    }

    /** `UpdateAsync(entities)`: updates each entity in turn. */
    method UpdateRangeAsync(entities: seq<User>)
      modifies ctx`pending
      ensures ctx.pending == old(ctx.pending) + seq(|entities|, i requires 0 <= i < |entities| => Modified(entities[i]))
    {
      var i := 0;
      while i < |entities|
        invariant 0 <= i <= |entities|
        invariant ctx.pending == old(ctx.pending) + seq(i, j requires 0 <= j < i => Modified(entities[j]))
      {
        UpdateAsync(entities[i]);
        i := i + 1;
      }
    }

    /** `DeleteAsync(entity)`: stages the removal of the row with the entity's key. */
    method DeleteAsync(entity: User)
      modifies ctx`pending
      ensures ctx.pending == old(ctx.pending) + [Deleted(entity)]
    {
      ctx.pending := ctx.pending + [Deleted(entity)];
    }

    /** `DeleteAsync(entities)`: stages one removal per entity, in order. */
    method DeleteRangeAsync(entities: seq<User>)
      modifies ctx`pending
      ensures ctx.pending == old(ctx.pending) + seq(|entities|, i requires 0 <= i < |entities| => Deleted(entities[i]))
    {
      ctx.pending := ctx.pending + seq(|entities|, i requires 0 <= i < |entities| => Deleted(entities[i]));
    }
  }
}
