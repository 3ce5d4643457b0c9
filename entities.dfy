/**
 * The user entity (a row of the Users table), its API-facing shape, the field copy the
 * object mapper performs from entity to model, and the field-wise comparison used to detect
 * no-op updates.
 */
module Entities {

  /** A row of the Users table. `id` is the primary key, generated by the store on insert. */
  datatype User = User(id: int, name: string, email: string, age: int)

  /** The API-facing user shape; the same four fields. */
  datatype UserModel = UserModel(id: int, name: string, email: string, age: int)

  /** The mapper's copy from an entity to a model. */
  function ToModel(u: User): UserModel {
    UserModel(u.id, u.name, u.email, u.age)
  }

  /**
   * The comparison service: true exactly when the two models agree on every field
   * (a deep comparison, not reference equality), that is, when they are the same value.
   */
  predicate Compare(a: UserModel, b: UserModel): (same: bool)
    ensures same <==> a == b
  {
    a.id == b.id && a.name == b.name && a.email == b.email && a.age == b.age
  }

  /** No two rows share a primary key. */
  ghost predicate IdsDistinct(rows: seq<User>) {
    forall i, j :: 0 <= i < j < |rows| ==> rows[i].id != rows[j].id
  }

  /** No two rows share an email address. */
  ghost predicate EmailsDistinct(rows: seq<User>) {
    forall i, j :: 0 <= i < j < |rows| ==> rows[i].email != rows[j].email
  }

  /** True when some row has the given email. */
  ghost predicate EmailTaken(rows: seq<User>, email: string) {
    exists i :: 0 <= i < |rows| && rows[i].email == email
  }

  /**
   * The table invariant: keys are unique and every key is below `identity`, the next
   * value the identity column will hand out, so that a generated key is always fresh.
   */
  ghost predicate ValidTable(rows: seq<User>, identity: int) {
    IdsDistinct(rows) && forall i :: 0 <= i < |rows| ==> rows[i].id < identity
  }
}
