# User management: repository, unit of work, handlers and API rules

This project models the user-management core of a layered CRUD web application and proves properties of that model.

The Users table sits behind a generic repository. Its writes only stage changes on a shared database context, and the unit of work saves them and brackets each request in a transaction. On top of these, command and query handlers implement:

- create, update, delete, get-by-id and get-all;
- group-by-age and group-by-email-host counts.

A controller turns handler results into responses or errors. The user model declares field validation rules.

The database is a value: the table is a `seq<User>` in store order, the staged changes are a `seq<Change>`, and an identity counter generates keys on insert. A transaction is the snapshot of the table taken when it begins. The context and the unit of work are classes whose methods update these fields in place. The handlers are methods over them, and every read is a function of the stored rows.

Modules, one per source component:

- `Entities`, `Results`, `Messages`: the user row and model, the result envelope, and the handlers' messages.
- `Store`: the database context. It covers the staged changes, how a save applies them (`Flush`), and the table invariant (unique keys below the identity counter).
- `Linq`, `Repository`: the repository's queries and its staging writes.
- `Transactions`: the unit of work.
- `CreateUserCommand`, `UpdateUserCommand`, `DeleteUserCommand`, `GetUserByIdQuery`, `GetAllUserQuery`: the handlers.
- `Grouping`, `Email`, `GetGroupAgeQuery`, `GetGroupHostQuery`: the two aggregations, with the colour label and host extraction.
- `Ranking`, `UserController`: the top-N ordering and the controller's endpoints.
- `UserModelRules`: field validation and `NameAge`.

Some things the model cannot see are parameters:

- `storage` (or `fault`) is the storage engine's answer: `Some(message)` means the save or read throws with that message.
- `faker(i)` is the i-th person the sample generator produces.
- `draw(i)` is the i-th value the random colour source returns.

Where the design text and the code disagree, the model follows the code. In particular, `PostAsync` and `PutAsync` always send a create command. Neither ever routes a body with a positive id to the update handler, and the body's id is dropped.

## Model

| member | source | states |
|---|---|---|
| `Repository.PageOffset` | App.Infrastructure/Repositories/RepositoryAsync.cs:41 | the rows a page skips are `(pageNumber - 1) * pageSize` wrapped to a 32-bit `int`, as the two `int` operations compute it for every input; that is the exact product for a page number of at least 1 whenever the product fits |
| `Repository.GetPagedResponse` | App.Infrastructure/Repositories/RepositoryAsync.cs:37-46 | at most `pageSize` rows; for a non-negative offset, exactly the stored rows from index `offset` onward, at most `pageSize` of them, in store order |
| `Repository.RowOnPage` | App.Infrastructure/Repositories/RepositoryAsync.cs:37-46 | every stored row appears on page `i / pageSize + 1`, at position `i % pageSize` |
| `Repository.GetAllIsUnfiltered` | App.Infrastructure/Repositories/RepositoryAsync.cs:52-56 | the plain list returns every stored row in store order: what the filtered overload returns for a condition every row meets |
| `Repository.GetAllIncluding` | App.Infrastructure/Repositories/RepositoryAsync.cs:63-72 | the includes-only overload throws an index error exactly when the include list is empty (it reads `includes[0]` unguarded); otherwise it returns every row |
| `Repository.GetAllWhere` | App.Infrastructure/Repositories/RepositoryAsync.cs:80-94 | returns exactly the stored rows satisfying the condition, one per matching row; null or empty includes are accepted |
| `Repository.GetFirstOrDefault` | App.Infrastructure/Repositories/RepositoryAsync.cs:101-105 | null exactly when no row satisfies the condition; otherwise the first such row in store order |
| `Repository.GetById` | App.Infrastructure/Repositories/RepositoryAsync.cs:112-116 | null exactly when no row has the key (never an error); otherwise a stored row with that key, the only one when keys are unique |
| `Repository.Any` | App.Infrastructure/Repositories/RepositoryAsync.cs:177-180 | true if and only if some stored row satisfies the condition |
| `Repository.Count` | App.Infrastructure/Repositories/RepositoryAsync.cs:462-466 | the number of stored rows satisfying the condition; 0 exactly when none does, all rows exactly when all do |
| `Repository.UserRepository.AddAsync` | App.Infrastructure/Repositories/RepositoryAsync.cs:187-191 | stages one insert of the entity and returns the very entity passed in |
| `Repository.UserRepository.AddRangeAsync` | App.Infrastructure/Repositories/RepositoryAsync.cs:198-202 | stages one insert per entity, in order, and returns the list |
| `Repository.UserRepository.UpdateAsync` | App.Infrastructure/Repositories/RepositoryAsync.cs:209-214 | stages one overwrite of the row with the entity's key; nothing is saved |
| `Repository.UserRepository.UpdateRangeAsync` | App.Infrastructure/Repositories/RepositoryAsync.cs:221-227 | applies the single update to every entity in order: one staged overwrite per entity |
| `Repository.UserRepository.DeleteAsync` | App.Infrastructure/Repositories/RepositoryAsync.cs:234-238 | stages the removal of the row with the entity's key |
| `Repository.UserRepository.DeleteRangeAsync` | App.Infrastructure/Repositories/RepositoryAsync.cs:245-249 | stages one removal per entity, in order |
| `Repository.AddedIsRetrievable` | App.Infrastructure/Repositories/RepositoryAsync.cs:187-191 | saving a staged insert of an entity with key 0 affects one row and appends the entity with the next identity value as its key; an entity with a preset key is inserted with that key exactly when no stored row has it, and otherwise the save fails with the update error; a lookup by the key returns the entity with identical fields |
| `Repository.UpdatedIsRetrievable` | App.Infrastructure/Repositories/RepositoryAsync.cs:209-214 | saving a staged update of a stored key affects one row; that row takes the entity's values, every other row is unchanged, and a lookup by the key returns the entity |
| `Repository.DeletedIsGone` | App.Infrastructure/Repositories/RepositoryAsync.cs:234-238 | saving a staged delete succeeds exactly when the key is stored; it removes exactly that row, and a lookup by the key then returns null |
| `Linq.WhereCountsMatches` | App.Infrastructure/Repositories/RepositoryAsync.cs:464-465 | filtering keeps exactly one element per matching position |
| `Store.AppendKeepsValid` | App.Infrastructure/DbContexts/ApplicationDbContext.cs:62-63 | a row inserted with the generated key keeps keys unique and below the advanced identity counter |
| `Store.FlushPreservesValid` | App.Infrastructure/Repositories/UnitOfWork.cs:30-33 | a save that succeeds keeps the table invariant, never lowers the identity counter, and counts every staged change once |
| `Store.DbContext.SaveChanges` | App.Infrastructure/Repositories/UnitOfWork.cs:32 | a successful save applies the staged changes in order and clears them; a failed one leaves the table, the counter and the staged changes untouched and reports the message |
| `Transactions.New` | App.Infrastructure/Repositories/UnitOfWork.cs:20-23 | a null context is rejected with an argument error naming `dbContext`; otherwise a fresh unit with no transaction that is not disposed |
| `Transactions.UnitOfWork.Commit` | App.Infrastructure/Repositories/UnitOfWork.cs:30-33 | saves the staged changes and returns the affected-row count, equal to the number of staged changes; a failed save changes nothing |
| `Transactions.UnitOfWork.Rollback` | App.Infrastructure/Repositories/UnitOfWork.cs:38-41 | a no-op: neither the unit nor the context changes |
| `Transactions.UnitOfWork.Dispose` | App.Infrastructure/Repositories/UnitOfWork.cs:46-66 | disposes the context only when not yet disposed, and the unit is disposed afterwards |
| `Transactions.DisposeTwice` | App.Infrastructure/Repositories/UnitOfWork.cs:56-66 | disposing twice disposes the context at most once |
| `Store.DbContext.Dispose` | App.Infrastructure/Repositories/UnitOfWork.cs:62 | the context records exactly one more disposal |
| `Transactions.UnitOfWork.BeginTransaction` | App.Infrastructure/Repositories/UnitOfWork.cs:72-75 | opens a transaction whose snapshot is the current table |
| `Transactions.UnitOfWork.CommitTransaction` | App.Infrastructure/Repositories/UnitOfWork.cs:81-88 | finishes an open transaction and keeps the table; without one it does nothing; the transaction field stays set |
| `Transactions.UnitOfWork.RollbackTransaction` | App.Infrastructure/Repositories/UnitOfWork.cs:94-101 | restores the table to the snapshot taken at begin; without an open transaction it does nothing; the transaction field stays set |
| `Transactions.SaveThenRollback` | App.Infrastructure/Repositories/UnitOfWork.cs:72-101 | begin, save, roll back leaves the table as at begin, including the rows the save wrote in between |
| `Entities.Compare` | App.UnitTest/Shared/CompareObjectTests.cs:8-45 | the comparison service reports two models equal exactly when they are the same value: a model equals itself, and two models differing in any field differ |
| `Messages.AlreadyExists` | App.Application/Features/Commands/CreateUserCommand.cs:79 | the duplicate-email message is `Email ` + the email + ` already exists.` |
| `CreateUserCommand.AppendKeepsEmailsDistinct` | App.Application/Features/Commands/CreateUserCommand.cs:76-87 | adding a user whose email no stored row has keeps emails pairwise distinct |
| `CreateUserCommand.Insert` | App.Application/Features/Commands/CreateUserCommand.cs:83-91 | stages and saves the new entity; a failed save leaves the table unchanged; a generated key of 0 throws "Database Error"; otherwise the model of the stored row with its new key |
| `CreateUserCommand.Handle` | App.Application/Features/Commands/CreateUserCommand.cs:67-104 | taken email: soft failure "Email e already exists.", no row added; failed save or key 0: rolled back, failed with the message; otherwise exactly one row with the request's fields and a fresh non-zero key is appended and returned with an empty message; every path is one bracketed run; email uniqueness is preserved |
| `UpdateUserCommand.ReplaceKeepsEmailsDistinct` | App.Application/Features/Commands/UpdateUserCommand.cs:84-102 | replacing a row by a user whose email no other row has keeps emails pairwise distinct |
| `UpdateUserCommand.ReplaceAtKey` | App.Application/Features/Commands/UpdateUserCommand.cs:98-104 | with unique keys, replacing the row at the key's position replaces exactly the rows with that key |
| `UpdateUserCommand.Check` | App.Application/Features/Commands/UpdateUserCommand.cs:76-96 | the checks run in order (missing key, then email held by another user, then no change), and the first that applies gives the one message reported |
| `UpdateUserCommand.RepeatedUpdateIsNoChange` | App.Application/Features/Commands/UpdateUserCommand.cs:76-100 | once an update that passed the checks is written, sending the same request again is rejected with "Must update records." |
| `UpdateUserCommand.Overwrite` | App.Application/Features/Commands/UpdateUserCommand.cs:98-112 | stages and saves the overwrite; on success only the row with the key changes, keys stay as they were and email uniqueness is kept |
| `UpdateUserCommand.Write` | App.Application/Features/Commands/UpdateUserCommand.cs:98-123 | the write path commits on success and rolls back with a failed result on a failed save or a key of 0 |
| `UpdateUserCommand.Handle` | App.Application/Features/Commands/UpdateUserCommand.cs:67-124 | "User not found.", "Email e already exists." (not for one's own email) and "Must update records." are soft failures with no payload that leave the table unchanged; otherwise only the row with the request's key takes the request's values and is returned with an empty message; a failed save is rolled back and fails with its message; one bracketed run; email uniqueness preserved |
| `DeleteUserCommand.Without` | App.Application/Features/Commands/DeleteUserCommand.cs:65-70 | the table without the row with the key, others in order; the table itself when the key is absent |
| `DeleteUserCommand.Remove` | App.Application/Features/Commands/DeleteUserCommand.cs:65-70 | stages and saves the removal; on success the row is gone and a lookup by its key returns null |
| `DeleteUserCommand.Handle` | App.Application/Features/Commands/DeleteUserCommand.cs:50-82 | missing key: "User not found.", table unchanged; otherwise exactly that row is removed and every other row kept; data is `true` on both non-exception paths; a failed save is rolled back and fails with its message; one bracketed run |
| `DeleteUserCommand.DeleteTwice` | App.Application/Features/Commands/DeleteUserCommand.cs:58-70 | a second delete of the same key reports "User not found." and leaves the table as the first delete left it |
| `GetUserByIdQuery.Handle` | App.Application/Features/Queries/GetUserByIdQuery.cs:52-77 | a stored key gives that row's fields and no message; an absent key gives no data and "User not found." with success; a failed read fails with its message; a pure function of the rows, so nothing changes |
| `GetUserByIdQuery.CreatedIsFound` | App.FunctionalTest/Controllers/UserControllerTests.cs:89-95 | after a create appends a user with the next identity value, reading that key returns the same name, email and age |
| `GetUserByIdQuery.DeletedIsNotFound` | App.FunctionalTest/Controllers/UserControllerTests.cs:152-173 | after the row with a key is removed, reading that key reports "User not found." |
| `GetAllUserQuery.ToModels` | App.Application/Features/Queries/GetAllUserQuery.cs:46-47 | one model per stored row, in store order, with identical fields |
| `GetAllUserQuery.Handle` | App.Application/Features/Queries/GetAllUserQuery.cs:30-57 | sample branch: exactly `Top` users, all aged 18 to 60, or an argument error for a negative count; store branch: one model per stored row in order; a failed read fails with its message; the store is never changed |
| `Email.IsEmailAddressMeansOneAt` | App.Domain/DTOs/UserModel.cs:29 | the email rule accepts exactly the strings with a single '@' that is neither first nor last |
| `Email.Host` | App.Application/Features/Utils/GetGroupHostQuery.cs:49 | the host is the non-empty text after the '@' of a well-formed address; an address that cannot be parsed throws the format error |
| `Grouping.GroupCountsDescribes` | App.Application/Features/Utils/GetGroupAgeQuery.cs:48-51 | one group per distinct key, keys pairwise distinct, each count the number of elements with its key |
| `Grouping.TotalIsLength` | App.Application/Features/Utils/GetGroupAgeQuery.cs:48-51 | the counts add up to the number of elements |
| `Grouping.GroupsInFirstOccurrenceOrder` | App.Application/Features/Utils/GetGroupAgeQuery.cs:48 | groups appear in the order in which their keys first occur |
| `Grouping.DescribedCountsArePositive` | App.Application/Features/Utils/GetGroupAgeQuery.cs:51 | every group counts at least one element |
| `Grouping.Color` | App.Application/Features/Utils/GetGroupAgeQuery.cs:52 | the colour label is '#' followed by six upper-case hexadecimal digits |
| `Grouping.ColorRoundTrip` | App.Application/Features/Utils/GetGroupAgeQuery.cs:52 | the six digits read back as the value drawn |
| `Grouping.GroupBy` | App.Application/Features/Utils/GetGroupAgeQuery.cs:48-53 | the groups describe the keys exactly, in first-occurrence order, with counts that are positive and sum to the length, each coloured by its own draw |
| `GetGroupAgeQuery.Handle` | App.Application/Features/Utils/GetGroupAgeQuery.cs:38-67 | the stored users grouped by age as above; a failed listing fails with its message |
| `GetGroupHostQuery.Hosts` | App.Application/Features/Utils/GetGroupHostQuery.cs:49 | the hosts of all emails in order, or the format error exactly when some email cannot be parsed |
| `GetGroupHostQuery.Handle` | App.Application/Features/Utils/GetGroupHostQuery.cs:39-68 | the stored users grouped by email host as above; a failed listing or an email that cannot be parsed fails the whole result with the message |
| `Ranking.InsertKeepsOrder` | App.Api/Controllers/UserController.cs:125 | inserting into a list sorted by decreasing count keeps it sorted |
| `Ranking.SortByCount` | App.Api/Controllers/UserController.cs:125 | the descending sort is a permutation of its input with non-increasing counts |
| `Ranking.SortIsStable` | App.Api/Controllers/UserController.cs:125 | the sort is stable: for each count, groups keep their input order |
| `Ranking.Top` | App.Api/Controllers/UserController.cs:124-125 | the top-N has length min(max(top, 0), groups), non-increasing counts, and is a sub-multiset of the groups |
| `Ranking.TopKeepsLargest` | App.Api/Controllers/UserController.cs:124-125 | no group left out has a larger count than a group kept |
| `Ranking.TopKeepsTiesInOrder` | App.Api/Controllers/UserController.cs:146-147 | the kept groups of each count are the first groups of that count in input order |
| `UserController.Lenient` | App.Api/Controllers/UserController.cs:36-41 | list and group endpoints: an error exactly when the result failed, carrying its message |
| `UserController.Strict` | App.Api/Controllers/UserController.cs:49-58 | single-user endpoints: an error exactly when the result failed or carries a message |
| `UserController.StrictAndLenientDifferOnSoftFailures` | App.Api/Controllers/UserController.cs:36-58 | the two rules differ exactly on soft failures |
| `UserController.GetAllAsync` | App.Api/Controllers/UserController.cs:32-42 | the stored users, or `top` generated users; only a failed query is an error |
| `UserController.GetAsync` | App.Api/Controllers/UserController.cs:44-59 | a stored key gives its user; a missing key ("User not found.") and a failed read are errors |
| `UserController.CreatedUserCanBeRead` | App.FunctionalTest/Controllers/UserControllerTests.cs:89-95 | after a create, reading the returned key gives back the name, email and age sent |
| `UserController.DeletedUserCannotBeRead` | App.FunctionalTest/Controllers/UserControllerTests.cs:171-173 | after a delete, reading the deleted key is an error |
| `UserController.CreateUserAsync` | App.Api/Controllers/UserController.cs:150-164 | sends a create command built from the model (its key ignored); a taken email, a failed save or a key of 0 is an error; otherwise the created user |
| `UserController.PostAsync` | App.Api/Controllers/UserController.cs:61-77 | creates a user with the same outcomes as the create helper |
| `UserController.PutAsync` | App.Api/Controllers/UserController.cs:79-86 | dispatches a create, never an update: every stored row keeps its values |
| `UserController.DeleteAsync` | App.Api/Controllers/UserController.cs:88-104 | a missing key and a failed save are errors; otherwise the row is removed and `true` returned |
| `UserController.GetGroupAgeAsync` | App.Api/Controllers/UserController.cs:106-118 | the age groups describe the users' ages and their counts sum to the number of users; an error only for a failed listing |
| `UserController.GetGroupAgeTopAsync` | App.Api/Controllers/UserController.cs:120-126 | the top-N of the age groups: length min(max(top, 0), groups), non-increasing counts, a sub-multiset of the groups |
| `UserController.GetGroupHostAsync` | App.Api/Controllers/UserController.cs:128-140 | the host groups describe the users' hosts; an error for a failed listing or an email that cannot be parsed |
| `UserController.GetGroupHostTopAsync` | App.Api/Controllers/UserController.cs:142-148 | the top-N of the host groups, as for ages |
| `UserController.CreateUsersTestAsync` | App.Api/Controllers/UserController.cs:13-28 | creates the generated users one by one in order, stopping at the first error; the table gains exactly the users created, with consecutive keys; for a non-negative count it returns exactly when no sample's create fails (taken email, failed save or key 0), with one model per sample, and otherwise throws the error of the first failing sample |
| `UserModelRules.NameErrors` | App.Domain/DTOs/UserModel.cs:21-22 | no name error exactly when the length is in [3, 50] |
| `UserModelRules.EmailErrors` | App.Domain/DTOs/UserModel.cs:29-31 | no email error exactly when the address is well formed and at least 5 long; each failing rule reports one error |
| `UserModelRules.AgeErrors` | App.Domain/DTOs/UserModel.cs:38 | no age error exactly when the age is in [18, 60] |
| `UserModelRules.ValidationErrors` | App.Domain/DTOs/UserModel.cs:14-39 | the errors are the name, email and age errors, in that order |
| `UserModelRules.NoErrorsIffValid` | App.SharedDatabase/DTOs/UserData.cs:9-13 | a model meeting all three constraints, and only such a model, yields zero validation errors |
| `UserModelRules.OverlongNameIsTheOnlyError` | App.SharedDatabase/DTOs/UserData.cs:15-21 | an over-long name with a valid email and age yields exactly one error |
| `UserModelRules.NameAndEmailErrors` | App.SharedDatabase/DTOs/UserData.cs:23-30 | an over-long name and an email without '@' give two errors, or three when the email is shorter than 5 |
| `UserModelRules.AgeErrorComesLast` | App.SharedDatabase/DTOs/UserData.cs:32-40 | an out-of-range age adds exactly one error, at the end |
| `UserModelRules.DecimalRoundTrip` | App.Domain/DTOs/UserModel.cs:44 | the decimal text of an age reads back as the age |
| `UserModelRules.NameAge` | App.Domain/DTOs/UserModel.cs:44 | `NameAge` is the name, then " - ", then the age in decimal |

## Left out

- Entity Framework internals are not modelled: the change tracker's entity states, `Include`/`ThenInclude`, explicit reference and collection loading, `SetState`, the reflection-based primary-key lookup, and `GetReferenceByIdAsync`/`GetCollectionByIdAsync`. The user entity has no navigation properties, so includes load nothing.
- A lookup by key is a search of the stored rows. The change tracker's identity map is not modelled, so a lookup never returns an entity that is tracked but not yet saved.
- Real transactions, isolation and connections are not modelled. A transaction is a snapshot of the table that a rollback restores.
- Transactions.UnitOfWork.RollbackTransaction: does not roll back the identity counter, following SQL Server identity semantics, and leaves staged changes staged.
- Transactions.UnitOfWork.CommitTransaction: committing or rolling back a transaction that is already finished is a no-op here. The underlying library would reject a disposed transaction, but no handler path ever does this.
- The handlers require an empty set of staged changes and no open transaction on entry. This models the request-scoped context each request gets.
- Only two things throw in the handlers: the save, with the `storage` message, and the handler's own "Database Error" key check. Queries take a `fault` parameter for a failed read. Other exceptions, cancellation and logging are not modelled.
- The mediator's dispatch is a direct call to the handler. The object mapper is a field copy. The comparison service is field-wise equality of the two models.
- EmailTaken, UpdateUserCommand.EmailTakenByOther: emails are compared exactly, character by character, as the SQLite and in-memory providers of the test suites do. SQL Server, the production provider, compares under its collation, which by default ignores case and trailing spaces; with `a@x.com` stored, the program rejects `A@x.com` as already existing while the model creates it.
- ValidName, ValidEmail: lengths count Unicode scalar values, while the length attributes count UTF-16 code units; a name with a character outside the Basic Multilingual Plane counts one shorter here than in the program (`a` followed by U+1F600 is 2 long here, 3 there).
- The `[EmailAddress]` rule and `MailAddress.Host` are library code. They are modelled as "exactly one '@', neither first nor last" and "the text after the '@'". Quoted local parts, display names and other forms these accept or reject are not modelled.
- The sample generator is a function `faker` whose ages lie in [18, 60]. Its name and email generation is not modelled.
- The random colour source is a function `draw` of values in [0, 0x1000000).
- `Repository.GetPagedResponse`: the storage engine's behaviour for a negative offset or a negative page size, which arise only from 32-bit overflow, a page number below 1 or a negative size argument, is left as the `Skip`/`Take` semantics on lists (a negative count takes nothing).
- `Store.Step`: an insert with a preset non-zero key follows the SQLite provider the integration tests run against: the key is kept and the identity counter moves past it. SQL Server, the production provider, rejects an explicit value for an identity column unless identity insert is switched on; that refusal is not modelled.
- `Transactions.UnitOfWork.BeginTransaction`: requires that no transaction is open. The source would start a second transaction on the same connection, which the provider rejects; no handler path does this.
- Asynchrony, HTTP routing and status codes, dependency injection, configuration, the mobile and web clients, and the test harness plumbing are not modelled.
