# User management: domain and application core in Dafny

This project models the domain and application layers of a small
user-management service: the `Email` value object, the `User` entity,
the SQL-backed user repository seen as an in-memory `users` table, the
domain service, the create-user use case, the application service and
its transfer objects.

The source's form is kept:

- The pure code becomes functions and lemmas: the email validator, the
  name checks, the transfer objects and the domain service's queries.
- The code that changes state becomes classes:
  - `User`, whose `ChangeName` and `ChangeEmail` assign its fields in place;
  - `UserRepository`, whose `Save` appends or overwrites rows and writes
    the new id back into the caller's `User` object;
  - the use case and the application service, which drive these two.

Each state-changing method is proved against a specification function
over the table's rows (`SaveRows`, `CreateError`/`CreatedRow`,
`UpdateError`/`Updated`, `RemoveAt`). The lemmas beside each function
prove what the service promises: the table invariant is kept, the check
order is right, and a saved user is found again.

The table is a `seq<Row>` in rowid order. Its invariant is:

- every row holds an address `Email` accepts and a name `User` accepts;
- ids strictly increase;
- no two rows share an email. This is the unique index of the email
  column.

A new row gets SQLite's rowid: one more than the largest id present, or
1 in an empty table. SQLite is the default database. A save that would
break the unique index fails with `DuplicateEmailRow`, which models the
database's integrity error, and changes nothing.

`datetime.now()` is a `Clock` object whose `Now` returns strictly
increasing readings. Every operation that stamps a time takes the clock
as state. Python exceptions are `Result`/`Outcome` values carrying an
`Error` variant, one per message the source raises.

The create-user use case sends no mail: `execute` validates, checks
availability, builds the entity and saves. The welcome mail is sent by
the HTTP handler after `create_user` returns
(src/interfaces/api/user_api.py:37-38), and that handler is not part of
this model.

## Model

| member | source | states |
|---|---|---|
| EmailValue.Create | src/domain/value_objects/email.py:14-25 | The empty string fails with `EmailRequired`. Any other string the pattern rejects fails with `EmailInvalidFormat`, whatever its length; `re.match` with `$` also accepts one final newline. A matching string longer than 254 fails with `EmailTooLong`. A string is accepted exactly when all three checks pass, and the value keeps the string unchanged. |
| EmailValue.SplitAddress | src/domain/value_objects/email.py:20-21 | Splitting at the first `@` and the last `.` succeeds exactly when some split matches the pattern, and the split it returns matches. |
| EmailValue.PatternMatches | src/domain/value_objects/email.py:20-21 | The computed match agrees with the reference definition of `re.match` with this pattern. |
| EmailValue.SplitIsFirstAtLastDot | src/domain/value_objects/email.py:20 | Any split that matches the pattern sits at the first `@` and at the last `.`. |
| EmailValue.SplitIsUnique | src/domain/value_objects/email.py:20 | A string matches the pattern in at most one way. |
| EmailValue.ValidEmailShape | src/domain/value_objects/email.py:16-25 | Every accepted address has 1 to 254 characters and exactly one `@`, which follows a non-empty local part. |
| EmailValue.ToString | src/domain/value_objects/email.py:27-28 | `str(email)`: carries no contract of its own; `StrRoundTrip` states that it returns the accepted string. |
| EmailValue.Equals | src/domain/value_objects/email.py:30-33 | `email == other`: carries no contract of its own; `EqualsIffSameValue` and `NeverEqualsNonEmail` state when it holds. |
| EmailValue.Hash | src/domain/value_objects/email.py:35-36 | `hash(email)`: carries no contract of its own; `EqualEmailsHashEqually` states that equal Emails hash equally. |
| EmailValue.StrRoundTrip | src/domain/value_objects/email.py:27-28 | `str(Email(s)) == Email(s).value == s` for every accepted s. |
| EmailValue.EqualsIffSameValue | src/domain/value_objects/email.py:30-33 | Two Emails are equal exactly when their values are equal. |
| EmailValue.NeverEqualsNonEmail | src/domain/value_objects/email.py:30-33 | An Email never equals an object that is not an Email, the string it holds included. |
| EmailValue.EqualEmailsHashEqually | src/domain/value_objects/email.py:35-36 | Equal Emails hash equally, whatever the string hash. |
| EmailValue.AcceptsTestAddress | src/tests/unit/test_email_value_object.py:11-14 | "test@example.com" is accepted and kept as given. |
| EmailValue.RejectsTestAddressesWithoutLocalPart | src/tests/unit/test_email_value_object.py:21-34 | "invalid-email", "test.example.com" and "@example.com" fail with `EmailInvalidFormat`. |
| EmailValue.RejectsTestAddressesWithIncompleteDomain | src/tests/unit/test_email_value_object.py:21-34 | "test@", "test@example." and "test@.com" fail with `EmailInvalidFormat`. |
| EmailValue.RejectsLongTestAddress | src/tests/unit/test_email_value_object.py:36-41 | 250 'a's followed by "@example.com" passes the format check and fails with `EmailTooLong`. |
| UserEntity.LStrip | src/domain/models/user.py:22 | The result is the suffix of s left after removing its leading whitespace: everything removed is whitespace, and the result is empty exactly when s is all whitespace or otherwise starts with a non-whitespace character. |
| UserEntity.RStrip | src/domain/models/user.py:22 | The result is the prefix of s left after removing its trailing whitespace: everything removed is whitespace, and the result is empty exactly when s is all whitespace or otherwise ends with a non-whitespace character. |
| UserEntity.Strip | src/domain/models/user.py:22 | `name.strip()` is a slice of the name between a whitespace prefix and a whitespace suffix (whitespace in the sense of `str.isspace`). It is empty exactly when the name is all whitespace, and otherwise starts and ends with a non-whitespace character. |
| UserEntity.CheckName | src/domain/models/user.py:20-26 | `NameRequired` exactly for an empty or all-whitespace name. `NameTooLong` exactly for a non-blank name of more than 100 characters, counted before stripping. Pass exactly for a name that satisfies the entity's name invariant. |
| UserEntity.CheckNameTestExamples | src/tests/unit/test_user_entity.py:32-59 | The tests' names: "" is required and 101 characters are too long. Two examples of this model's own, not of the tests: a name of spaces and tabs is required, and a name with one letter between spaces passes. |
| UserEntity.UserRecord.IsActive | src/domain/models/user.py:44-47 | Every user is active. |
| UserEntity.User.New | src/domain/models/user.py:20-26 | Construction fails with the name check's error. Otherwise it yields a fresh entity holding exactly the given fields, which satisfies the invariant. |
| UserEntity.User.ChangeName | src/domain/models/user.py:28-37 | The outcome is the name check's. On failure nothing changes, the clock included. On success the name is exactly the argument (not stripped), `updated_at` is a new, later clock reading, and id, email and `created_at` are kept. The invariant holds afterwards. |
| UserEntity.User.ChangeEmail | src/domain/models/user.py:39-42 | Always succeeds. Sets the email, stamps a later clock reading, and keeps id, name and `created_at`. |
| Clock.Clock.Now | src/domain/models/user.py:37 | Each reading is strictly later than the previous one. |
| UserDtos.UpdateDefaultsAreAbsent | src/application/dtos/user_dto.py:16-20 | Both update fields default to absent. |
| UserDtos.FromDomain | src/application/dtos/user_dto.py:32-41 | `from_domain`: carries no contract of its own; `FromDomainReportsInput` states what it copies. |
| UserDtos.FromDomainReportsInput | src/application/dtos/user_dto.py:32-41 | The response copies id, name, `created_at` and `updated_at`. For any accepted string, the email field is exactly the string the entity was built from. |
| Repository.ToEntity | src/infrastructure/repositories/user_repository_impl.py:78-86 | The entity has the row's id and the row's email as its string. A valid row gives a valid entity. |
| Repository.IndexOfId | src/infrastructure/repositories/user_repository_impl.py:44 | `.first()` of the id filter: the first row with the id, or none exactly when no row has it. |
| Repository.IndexOfEmail | src/infrastructure/repositories/user_repository_impl.py:52 | `.first()` of the email filter: the first row with exactly that email string, or none exactly when no row has it. |
| Repository.CountEmail | src/infrastructure/repositories/user_repository_impl.py:75 | The count of rows with an email is at most the number of rows; `CountEmailMatchesIndex` relates it to the first-match lookup. |
| Repository.CountEmailMatchesIndex | src/infrastructure/repositories/user_repository_impl.py:73-76 | The count of rows with an email is positive exactly when a first such row exists. |
| Repository.MaxId | src/infrastructure/repositories/user_repository_impl.py:29-30 | The largest id in the table, or 0 for an empty table. |
| Repository.NextId | src/infrastructure/repositories/user_repository_impl.py:29-30 | The id flush assigns is positive and larger than every stored id. |
| Repository.NextIdFollowsLast | src/infrastructure/repositories/user_repository_impl.py:29-30 | On a table in id order, the next id is the last row's id plus one. |
| Repository.NoClashIff | src/infrastructure/db/models.py:17 | With unique emails, "the first row with this email belongs to this id" means "every row with this email belongs to this id". |
| Repository.SaveRows | src/infrastructure/repositories/user_repository_impl.py:18-40 | A successful save of a new user appends exactly one row and leaves the others as they were. A successful save of a stored user keeps the number of rows and every row with another id. `SaveFailsIff` states when it fails, and `SaveKeepsInvariant` and `SaveThenFind` state what it stores. |
| Repository.InsertKeepsInvariant | src/infrastructure/repositories/user_repository_impl.py:20-30 | Appending a valid new user whose email no row holds keeps the table invariant. |
| Repository.OverwriteKeepsInvariant | src/infrastructure/repositories/user_repository_impl.py:31-37 | Overwriting a row with a valid user whose email no other row holds keeps the table invariant. |
| Repository.SaveKeepsInvariant | src/infrastructure/repositories/user_repository_impl.py:18-40 | Every save that succeeds keeps the table invariant. |
| Repository.SaveFailsIff | src/infrastructure/repositories/user_repository_impl.py:18-40 | A save fails exactly when another row holds the email. For a new user that is any row; for a stored user it is a row with a different id. |
| Repository.AppendedEmailIsFound | src/infrastructure/repositories/user_repository_impl.py:50-56 | A row appended with an email no row holds is the one `find_by_email` finds. |
| Repository.SaveThenFind | src/infrastructure/repositories/user_repository_impl.py:18-48 | After a successful save, `find_by_id` of the saved id returns the saved entity with its id. A new user is returned exactly. For a stored user every field but `created_at` is the saved entity's, and `created_at` is the one the row held before the save. |
| Repository.RecordById | src/infrastructure/repositories/user_repository_impl.py:42-48 | Some exactly when a row has the id, and the entity carries that id. |
| Repository.RecordByEmail | src/infrastructure/repositories/user_repository_impl.py:50-56 | Some exactly when a row holds that email string, and the entity's email is that string. |
| Repository.Records | src/infrastructure/repositories/user_repository_impl.py:58-61 | One entity per row, in scan order. |
| Repository.RemoveAt | src/infrastructure/repositories/user_repository_impl.py:69 | The table minus exactly one row, with the others in order. |
| Repository.RemoveKeepsInvariant | src/infrastructure/repositories/user_repository_impl.py:63-71 | Deleting a row keeps the table invariant. |
| Repository.RemoveForgetsId | src/infrastructure/repositories/user_repository_impl.py:63-71 | After a delete no row has the deleted id. |
| Repository.RemoveKeepsOthers | src/infrastructure/repositories/user_repository_impl.py:63-71 | After a delete every other user is found by id as before. |
| Repository.UniqueIdIndex | src/infrastructure/repositories/user_repository_impl.py:44 | With unique ids, the lookup of a stored id finds that row. |
| Repository.UniqueEmailIndex | src/infrastructure/repositories/user_repository_impl.py:52 | With unique emails, the lookup of a stored email finds that row. |
| Repository.UserRepository.Save | src/infrastructure/repositories/user_repository_impl.py:18-40 | The table becomes `SaveRows` of the old table and entity. A new user gets the next id written into the same object, which is returned. A stored user's row is overwritten. An unknown id changes nothing. A duplicate email is an error that changes nothing. The invariant is kept. |
| Repository.UserRepository.FindById | src/infrastructure/repositories/user_repository_impl.py:42-48 | Null when no row has the id. Otherwise a fresh, valid entity equal to the stored row, so editing it does not touch the table. |
| Repository.UserRepository.FindByEmail | src/infrastructure/repositories/user_repository_impl.py:50-56 | Null when no row has the email. Otherwise a fresh, valid entity equal to the row that holds it. |
| Repository.UserRepository.FindAll | src/infrastructure/repositories/user_repository_impl.py:58-61 | One fresh, distinct, valid entity per row, in scan order. |
| Repository.UserRepository.Delete | src/infrastructure/repositories/user_repository_impl.py:63-71 | True exactly when a row had the id. Then exactly that row is removed; otherwise nothing changes. Afterwards no row has the id, and the invariant is kept. |
| Repository.UserRepository.ExistsByEmail | src/infrastructure/repositories/user_repository_impl.py:73-76 | True exactly when some row holds the email string. |
| Repository.UserRepository.ExistsIffFound | src/infrastructure/repositories/user_repository_impl.py:73-76 | `exists_by_email` is true exactly when `find_by_email` finds a user. |
| Repository.Load | src/infrastructure/repositories/user_repository_impl.py:78-86 | A fresh, valid entity equal to the row. |
| UserDomainService.IsEmailAvailable | src/domain/services/user_service.py:17-20 | Available exactly when no row holds the address. |
| UserDomainService.CanChangeEmail | src/domain/services/user_service.py:22-29 | Allowed exactly when the address is the user's own or no row holds it. |
| UserDomainService.CanChangeIffNoClash | src/domain/services/user_service.py:22-29 | For a stored user, the change is allowed exactly when every row holding the address is the user's own. That is exactly when the following save cannot hit the unique index. |
| UserDomainService.Filter | src/domain/services/user_service.py:40-43 | The comprehension keeps exactly the users the condition accepts, in order, as a subsequence, and keeps every copy of a kept user: each user occurs as often in the result as in the input if kept, and not at all otherwise. |
| UserDomainService.FilterKeepsAll | src/domain/services/user_service.py:34 | A condition every user meets filters nothing out. |
| UserDomainService.ActiveUsersCount | src/domain/services/user_service.py:31-35 | The active count is at most the number of stored users; `ActiveCountIsUserCount` states that it equals it. |
| UserDomainService.ActiveCountIsUserCount | src/domain/services/user_service.py:31-35 | The active count equals the number of stored users. |
| UserDomainService.UsersByDomain | src/domain/services/user_service.py:37-43 | The result is an order-preserving subsequence of `find_all`. |
| UserDomainService.EndsWithDomainIff | src/domain/services/user_service.py:42 | On an accepted address, ending with "@" + domain means the part after the `@` is the domain. |
| UserDomainService.UsersByDomainMembership | src/domain/services/user_service.py:37-43 | A stored user is listed exactly when the part of its address after the `@` is the domain. |
| UserDomainService.WithDomainTestExample | src/tests/unit/test_user_service.py:94-105 | Of users at example.com, test.com and example.com, the first and the third are listed, in that order. |
| CreateUser.CreateSucceedsIff | src/application/use_cases/create_user.py:20-37 | Creation passes its checks exactly when the address is accepted, no row holds it, and the name is accepted. |
| CreateUser.CreatedRowIsSaved | src/application/use_cases/create_user.py:29-40 | The entity a creation builds is valid, and saving it appends exactly the created row. |
| CreateUser.CreatedUserIsFound | src/application/use_cases/create_user.py:26-40 | After a creation the invariant holds. The new user is found by its id and by its address, so the address is no longer available. |
| CreateUser.CreateUserUseCase.Execute | src/application/use_cases/create_user.py:20-43 | The first failing check gives the error, in the order format, availability, name, and nothing is saved. On success exactly one row is appended. It holds the next id, the given email and name, and one fresh clock reading as both `created_at` and `updated_at`, and its response is returned. |
| UserApplication.Responses | src/application/services/user_app_service.py:83 | One response per user, in order. |
| UserApplication.SliceBound | src/application/services/user_app_service.py:80 | A Python slice bound normalised to the list: it lies within the list, and a bound already inside is unchanged. |
| UserApplication.PySlice | src/application/services/user_app_service.py:80 | A Python slice is never longer than the list. |
| UserApplication.PySliceNonNegative | src/application/services/user_app_service.py:80 | For 0 <= start <= stop the slice holds the items from start up to stop, cut at the list's end. |
| UserApplication.Page | src/application/services/user_app_service.py:77-80 | A page is never longer than the list; `PageContents` states which items it holds. |
| UserApplication.PageContents | src/application/services/user_app_service.py:77-80 | For page >= 1 and per_page >= 1 the page holds min(per_page, max(0, total - start)) items, starting at (page - 1) * per_page. |
| UserApplication.GetUsersPage | src/application/services/user_app_service.py:71-89 | `get_users` lists the responses of exactly that segment of the stored users. |
| UserApplication.GetUsersTestExample | src/tests/integration/test_user_app_service.py:186-210 | With five users and pages of three, page 1 holds 3 users with a total of 5, and page 2 holds 2 users. |
| UserApplication.GetUsersPageZeroIsEmpty | src/interfaces/api/user_api.py:105-108 | Without the front end's guard, page 0 would be the empty slice. |
| UserApplication.AcceptedUpdateSaves | src/application/services/user_app_service.py:63-64 | An update that passes its checks saves without an integrity error. The save overwrites exactly the user's row and keeps the invariant. |
| UserApplication.SameEmailUpdateAccepted | src/application/services/user_app_service.py:57-61 | Updating a user to the address they already have is never refused as taken. |
| UserApplication.UserAppService.CreateUser | src/application/services/user_app_service.py:27-29 | Same outcome and table as the use case's `execute`. |
| UserApplication.UserAppService.GetUserById | src/application/services/user_app_service.py:31-36 | None exactly when no user has the id; otherwise the response carries that id. |
| UserApplication.UserAppService.GetUserByEmail | src/application/services/user_app_service.py:38-44 | A malformed address is the Email error, not None. A valid one gives None exactly when no user holds it, and otherwise the response carries that address. |
| UserApplication.UserAppService.UpdateUser | src/application/services/user_app_service.py:46-65 | An absent id gives None and changes nothing. A failing check, in the order name, address format, address taken, gives its error and leaves the table unchanged. Otherwise the given name and address replace the stored ones and id and `created_at` stay. The single save overwrites only that row, with a strictly later `updated_at` when a field was given. |
| UserApplication.UserAppService.ApplyChanges | src/application/services/user_app_service.py:52-61 | The edits on the loaded copy fail exactly when the update's checks do, with the same error. Otherwise the copy equals the updated row. |
| UserApplication.UserAppService.ApplyEmail | src/application/services/user_app_service.py:57-61 | A malformed address or one held by another user is refused and changes nothing. Otherwise the copy takes the address with a later `updated_at`. |
| UserApplication.UserAppService.DeleteUser | src/application/services/user_app_service.py:67-69 | True exactly when a user had the id, and then exactly that row is removed. Afterwards `get_user_by_id` of the id is None. |
| UserApplication.UserAppService.GetUsers | src/application/services/user_app_service.py:71-89 | The total count is the number of stored users. Page and per_page are echoed back, and the page is never longer than the table. |
| UserApplication.UserAppService.GetActiveUsersCount | src/application/services/user_app_service.py:91-93 | The count equals the number of stored users. |
| UserApplication.UserAppService.GetUsersByDomain | src/application/services/user_app_service.py:95-98 | Every response is that of a stored user whose address ends with "@" + domain, and every stored user whose address ends with "@" + domain has its response in the list. The order is that of `UsersByDomain`, a subsequence of the scan order. |
| UserApplication.DomainResponsesMatch | src/application/services/user_app_service.py:95-98 | Each converted response of the domain filter is that of a stored user whose address ends with "@" + domain. |
| UserApplication.DomainResponsesComplete | src/application/services/user_app_service.py:95-98 | Each stored user whose address ends with "@" + domain has its response among the converted results. |
| UserApplication.ResponsesCover | src/application/services/user_app_service.py:98 | Every user of a list has its `from_domain` response in the converted list. |

## Left out

- HTTP routing and the command-line interface are not part of this model. Only the API's page guard is used, to state which `get_users` calls are meaningful. `get_users` itself is modelled with Python's slice semantics for every page and page size.
- The mail service is left out: it does network I/O and its failures are only printed. The welcome mail after a creation is sent by the HTTP handler (src/interfaces/api/user_api.py:37-38), not by `execute`, so no modelled operation sends mail.
- Session and engine setup, configuration, the server launcher, and the dead `app/` router and use case are left out, because they are I/O or wiring.
- SQLAlchemy's flush and commit are modelled only by their effect on the table. `save` appends or overwrites rows; there are no transactions and no rollbacks.
- The ORM's `onupdate` default for `updated_at` is not modelled. Every overwrite the service performs carries a changed `updated_at`, so the default never applies there.
- The `String(254)` and `String(100)` column lengths are not modelled. SQLite does not enforce them, and the entity already bounds both fields.
- Concurrency is not modelled. The check-then-save race between `is_email_available` and `save` does not exist in a sequential model; the unique index is modelled by `DuplicateEmailRow`.
- Wall-clock time is modelled as a monotonic `Clock` counter, not as real dates.
- The Japanese error messages are modelled as `Error` variants, one per message.
- EmailValue.Hash: Python salts string hashes per process, so the string hash is a parameter. Unequal Emails hashing differently is not claimed.
- UserDtos.FromDomain: the response's `id` is `Option<int>` because an unsaved entity has none. Its contract is stated through `FromDomainReportsInput`.
- UserEntity.User.ChangeEmail requires an accepted address. In the source its argument is an `Email` object, which cannot exist otherwise.
- The abstract repository interface adds no behaviour; `UserRepository` is the in-memory table that implements it.
