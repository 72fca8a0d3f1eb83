# User management of the API, modelled in Dafny

This project models the user-management domain of the NestJS API (`apps/api`) as pure
functions over immutable values, and proves properties of them:

- the four value objects `Email`, `UserName`, `UserId` and `UserRole`, each a string
  check that either accepts (and normalises) its input or reports the error the
  constructor throws;
- the `User` aggregate: its factory, its setters, equality by id and the persistence
  round trip;
- the in-memory `MockUserRepository` that the users module wires in: a `Store` record
  holding the id→user map, the insertion order `findAll` slices, and the email→id index.
  An invariant ties the index to the map;
- the `UserDomainService` rules: email uniqueness with self-exclusion, the two error-list
  validations, the manage permission and the user counts;
- the five use cases of `UserApplicationService`. Each is a transition of the store that
  either answers with a `UserResponseDto` projection or fails with `NotFound`,
  `Conflict` or `Invalid`. A failure leaves the store unchanged;
- the base domain event, the `UserUpdated` event and the description and dispatch rule of
  its handler;
- the older array-backed `UsersService` with numeric ids.

Exceptions become `Result` values and `null` becomes `Option`. The clock (`now`), the
generated UUID and the random event-id suffix are parameters. Logging becomes returned
strings.

Two modelling decisions:

- Conflict detection compares exact strings, as the code does. The repository's index
  lookup and the `updateUser` comparison never fold case, although `Email.equals` does.
  `UserApplicationService.CaseVariantIsNoConflict` states this.
- The repository is modelled with value semantics, which is the corrected behaviour.
  In the running program `findById` hands out the stored object itself and
  `updateUser` changes it in place. Because of that, `update` compares the object with
  itself and never re-keys the email index. `MockUserRepository.UpdateAliased` models
  that as-written behaviour, and "## Findings" records it. The use cases are built on
  the corrected `MockUserRepository.Update`.

## Model

| member | source | states |
|---|---|---|
| Emails.Create | apps/api/src/users/domain/value-objects/email.value-object.ts:4-22 | accepted iff non-blank, matching `local@domain.tld` with no whitespace or extra `@`, and at most 254 long; the value is kept verbatim; each error is reported exactly when the earlier checks pass and its own check fails |
| Emails.ShapeMatchesPattern | apps/api/src/users/domain/value-objects/email.value-object.ts:14-15 | the linear check used by `Create` accepts exactly the strings the regular expression `^[^\s@]+@[^\s@]+\.[^\s@]+$` matches |
| Emails.EmptyRejected | apps/api/src/users/domain/value-objects/email.value-object.ts:10-12 | "" is refused as empty |
| Emails.NoAtRejected | apps/api/src/users/domain/value-objects/email.value-object.ts:14-17 | "not-an-email" is refused for its format |
| Emails.NoDotRejected | apps/api/src/users/domain/value-objects/email.value-object.ts:14-17 | "a@b", with no dot after the `@`, is refused for its format |
| Emails.AcceptedAt | apps/api/src/users/domain/value-objects/email.value-object.ts:9-22 | a string with one `@` after a non-empty local part, a dot strictly inside the domain, no whitespace, and length at most 254 is accepted unchanged |
| Emails.DottedAddressAccepted | apps/api/src/users/domain/value-objects/email.value-object.ts:14-21 | `local@domain.tld` built from non-empty parts without whitespace, `@` or `.` is accepted when it fits in 254 characters |
| Emails.EqualsIsEquivalence | apps/api/src/users/domain/value-objects/email.value-object.ts:28-30 | `equals` is reflexive, symmetric and transitive |
| Emails.EqualsWeakerThanIdentity | apps/api/src/users/domain/value-objects/email.value-object.ts:28-30 | identical addresses are equal, and two different strings can still be equal |
| Emails.UpperKeepsValid | apps/api/src/users/domain/value-objects/email.value-object.ts:9-22 | upper-casing an accepted address gives an accepted address |
| Emails.EqualsIgnoresCase | apps/api/src/users/domain/value-objects/email.value-object.ts:28-30 | an accepted address equals its upper-cased form, which is accepted too |
| UserNames.Create | apps/api/src/users/domain/value-objects/user-name.value-object.ts:4-27 | the input is trimmed; it is accepted iff the trimmed length is in 2..100 and every character is a letter, whitespace, `-` or `'`; blank input is reported as empty before the length checks; each error is reported exactly in its own case |
| UserNames.AcceptedIsTrimmed | apps/api/src/users/domain/value-objects/user-name.value-object.ts:5 | an accepted name has no leading or trailing whitespace and is itself valid |
| UserNames.CreateIdempotent | apps/api/src/users/domain/value-objects/user-name.value-object.ts:5-27 | creating a name from an accepted name's value gives the same name |
| UserNames.EqualsIsCaseSensitive | apps/api/src/users/domain/value-objects/user-name.value-object.ts:33-35 | "Ann" and "ann" are both accepted and are not equal |
| UserIds.Create | apps/api/src/users/domain/value-objects/user-id.value-object.ts:6-15 | a supplied value is kept verbatim, the generated one is used when nothing is supplied, and a blank value is refused |
| UserIds.EqualsIsEquivalence | apps/api/src/users/domain/value-objects/user-id.value-object.ts:21-23 | exact equality of ids is reflexive, symmetric and transitive |
| UserRoles.Parse | apps/api/src/users/domain/value-objects/user-role.value-object.ts:1-18 | only "USER" and "ADMIN" are accepted, and any other string is refused with the message naming it |
| UserRoles.ParseName | apps/api/src/users/domain/value-objects/user-role.value-object.ts:20-22 | every role parses back from its string value |
| UserRoles.FromOptional | apps/api/src/users/domain/entities/user.entity.ts:86 | an absent or empty role means USER; any other role string is parsed |
| UserRoles.ExactlyOneRole | apps/api/src/users/domain/value-objects/user-role.value-object.ts:24-30 | `isAdmin` holds iff the tag is ADMIN, `isUser` iff it is USER, and exactly one of them holds |
| UserRoles.EqualsIsTagEquality | apps/api/src/users/domain/value-objects/user-role.value-object.ts:32-34 | roles are equal iff their tags are |
| Users.Create | apps/api/src/users/domain/entities/user.entity.ts:74-90 | succeeds iff the id, email, name and role are all accepted; the result is valid, has both timestamps equal to the clock, and keeps the email verbatim and the name trimmed; it uses the supplied or the generated id, and stores the given role, or USER when none or an empty one is given |
| Users.CreateErrorOrder | apps/api/src/users/domain/entities/user.entity.ts:82-86 | the first failing check (id, email, name, role) determines the error |
| Users.CreateDefaultsRole | apps/api/src/users/domain/entities/user.entity.ts:80-89 | without a role the user is a USER, not an admin, created and updated at the clock |
| Users.Reconstitute | apps/api/src/users/domain/entities/user.entity.ts:92-108 | succeeds iff the stored id is non-blank and the email and name are accepted; the result is valid and keeps the stored timestamps |
| Users.PersistenceRoundTrip | apps/api/src/users/domain/entities/user.entity.ts:92-127 | reconstituting a valid user's persisted record gives back the same user, which `equals` the original |
| Users.ReconstituteThenPersist | apps/api/src/users/domain/entities/user.entity.ts:92-127 | persisting a reconstituted record gives back the record with its name trimmed |
| Users.EqualsIsIdentity | apps/api/src/users/domain/entities/user.entity.ts:69-71 | users are equal iff their ids are, whatever their other fields |
| Users.UpdateName | apps/api/src/users/domain/entities/user.entity.ts:46-49 | replaces the name and sets `updatedAt` to the clock; every other field is unchanged and validity is kept |
| Users.UpdateEmail | apps/api/src/users/domain/entities/user.entity.ts:51-54 | replaces the email and sets `updatedAt` to the clock; every other field is unchanged and validity is kept |
| Users.UpdateRole | apps/api/src/users/domain/entities/user.entity.ts:56-59 | replaces the role and sets `updatedAt` to the clock; every other field is unchanged and validity is kept |
| Users.SettersKeepIdentity | apps/api/src/users/domain/entities/user.entity.ts:46-59 | after any setter the user still `equals` the original and keeps its creation time, and with a later clock each setter moves `updatedAt` forward |
| MockUserRepository.EmptyStoreInv | apps/api/src/users/infrastructure/repositories/mock-user.repository.ts:12-13 | the empty map and empty index satisfy the invariant |
| MockUserRepository.EmailsDistinct | apps/api/src/users/infrastructure/repositories/mock-user.repository.ts:13 | under the invariant no two stored users share an email string |
| MockUserRepository.Put | apps/api/src/users/infrastructure/repositories/mock-user.repository.ts:48 | `Map.set`: a new key is appended to the order, and an existing key keeps its place |
| MockUserRepository.SaveThenFind | apps/api/src/users/infrastructure/repositories/mock-user.repository.ts:47-50 | after `save` the user is found by id, and also by email when its id is non-empty; other users and other index entries are untouched |
| MockUserRepository.SavePreservesInv | apps/api/src/users/infrastructure/repositories/mock-user.repository.ts:47-50 | saving under a fresh id and a fresh email keeps the invariant and adds one user at the end of the order |
| MockUserRepository.SaveKeepsOrder | apps/api/src/users/infrastructure/repositories/mock-user.repository.ts:48 | saving under a new id appends it to the key order, which still lists exactly the stored ids |
| MockUserRepository.SaveKeepsIndex | apps/api/src/users/infrastructure/repositories/mock-user.repository.ts:47-50 | saving under a fresh id and a fresh email keeps every user under its own id and the index both complete and sound |
| MockUserRepository.SaveKeys | apps/api/src/users/infrastructure/repositories/mock-user.repository.ts:47-50 | saving adds the id to the map's keys and the email to the index's keys |
| MockUserRepository.SaveKeepsValid | apps/api/src/users/infrastructure/repositories/mock-user.repository.ts:47-50 | saving a valid user keeps every stored user valid |
| MockUserRepository.FindById | apps/api/src/users/infrastructure/repositories/mock-user.repository.ts:53-55 | finds a user iff the id is a key, and then the user stored under it |
| MockUserRepository.FindByEmail | apps/api/src/users/infrastructure/repositories/mock-user.repository.ts:57-61 | a found user is the one the exact email string's index entry points to |
| MockUserRepository.FindByEmailExact | apps/api/src/users/infrastructure/repositories/mock-user.repository.ts:57-61 | under the invariant a user is found iff a stored user holds that exact string, and it is that user |
| MockUserRepository.FindAll | apps/api/src/users/infrastructure/repositories/mock-user.repository.ts:63-80 | the users of the order from `(page-1)*limit`, at most `limit` of them, with `total` the count, page and limit echoed, and `totalPages` the ceiling of total/limit |
| MockUserRepository.Window | apps/api/src/users/infrastructure/repositories/mock-user.repository.ts:67-69 | `slice(start, start + limit)`: the elements from `start`, at most `limit` of them, and none past the end |
| MockUserRepository.FirstPage | apps/api/src/users/infrastructure/repositories/mock-user.repository.ts:63-80 | page 1 holds the first `limit` users in insertion order |
| MockUserRepository.FindAllSecondPageExample | apps/api/src/users/infrastructure/repositories/mock-user.repository.ts:63-80 | with 15 users, page 2 of limit 10 holds 5 users and there are 2 pages |
| MockUserRepository.TotalIsUserCount | apps/api/src/users/infrastructure/repositories/mock-user.repository.ts:64-65 | under the invariant the total is the number of stored users |
| MockUserRepository.Update | apps/api/src/users/infrastructure/repositories/mock-user.repository.ts:82-96 | an unknown id throws and leaves the store unchanged; otherwise the call returns the user |
| MockUserRepository.UpdateEffect | apps/api/src/users/infrastructure/repositories/mock-user.repository.ts:87-94 | the user is replaced in place; when the email changed, the old entry leaves the index and the new one points to the user; every other index entry is unchanged |
| MockUserRepository.UpdatePreservesInv | apps/api/src/users/infrastructure/repositories/mock-user.repository.ts:82-96 | updating with an email that is free or already the user's own keeps the invariant |
| MockUserRepository.UpdateKeepsValid | apps/api/src/users/infrastructure/repositories/mock-user.repository.ts:82-96 | updating with a valid user keeps every stored user valid |
| MockUserRepository.UpdateAliased | apps/api/src/users/infrastructure/repositories/mock-user.repository.ts:82-96 | with the stored object already changed by the caller, `update` never touches the index |
| MockUserRepository.AliasedUpdateLosesEmail | apps/api/src/users/infrastructure/repositories/mock-user.repository.ts:87-92 | as written, moving a user to a fresh email breaks the invariant: the new email is not found, and the old one still finds the user |
| MockUserRepository.UpdateRekeysEmail | apps/api/src/users/infrastructure/repositories/mock-user.repository.ts:87-92 | with value semantics the user is found under the new email and not under the old one, and the invariant holds |
| MockUserRepository.Remove | apps/api/src/users/infrastructure/repositories/mock-user.repository.ts:102 | `Map.delete` on the key order: the other keys stay, in order, and a distinct order loses one element |
| MockUserRepository.Delete | apps/api/src/users/infrastructure/repositories/mock-user.repository.ts:98-105 | removes the user and its email entry and nothing else; an absent id changes nothing |
| MockUserRepository.DeletePreservesInv | apps/api/src/users/infrastructure/repositories/mock-user.repository.ts:98-105 | deleting keeps the invariant; a present user is no longer found, and the count drops by one |
| MockUserRepository.DeleteKeepsValid | apps/api/src/users/infrastructure/repositories/mock-user.repository.ts:98-105 | deleting keeps every remaining user valid |
| MockUserRepository.Exists | apps/api/src/users/infrastructure/repositories/mock-user.repository.ts:107-109 | true iff `findById` finds the user |
| MockUserRepository.ExistsByEmail | apps/api/src/users/infrastructure/repositories/mock-user.repository.ts:111-113 | true iff the exact email string is in the index |
| MockUserRepository.ExistsByEmailAgrees | apps/api/src/users/infrastructure/repositories/mock-user.repository.ts:111-113 | under the invariant `existsByEmail` agrees with `findByEmail` |
| MockUserRepository.InitialStoreFacts | apps/api/src/users/infrastructure/repositories/mock-user.repository.ts:20-45 | with three distinct non-blank generated ids the seed data is built: three valid users in order, a consistent index, and only the first one ADMIN |
| MockUserRepository.SeedFacts | apps/api/src/users/infrastructure/repositories/mock-user.repository.ts:39-44 | three valid users with distinct ids and emails, only the first ADMIN, give a consistent store of three with one administrator |
| MockUserRepository.InitialIsSeed | apps/api/src/users/infrastructure/repositories/mock-user.repository.ts:20-45 | with non-blank ids all three seed users are created valid, and the seed store holds them |
| MockUserRepository.SeedStoreInv | apps/api/src/users/infrastructure/repositories/mock-user.repository.ts:39-44 | three users with distinct non-empty ids and distinct emails make a consistent store |
| MockUserRepository.SeedStoreValid | apps/api/src/users/infrastructure/repositories/mock-user.repository.ts:39-44 | three valid seed users make a store of valid users |
| MockUserRepository.SeedStoreIsSaves | apps/api/src/users/infrastructure/repositories/mock-user.repository.ts:39-44 | setting the three users and then their index entries gives the same store as three `save` calls |
| MockUserRepository.SeedAdmin | apps/api/src/users/infrastructure/repositories/mock-user.repository.ts:21-25 | the seed admin is created with its literal email and name and role ADMIN |
| MockUserRepository.SeedRegular | apps/api/src/users/infrastructure/repositories/mock-user.repository.ts:27-31 | the seed regular user is created with its literal email and name and role USER |
| MockUserRepository.SeedDzikri | apps/api/src/users/infrastructure/repositories/mock-user.repository.ts:33-37 | the third seed user is created with its literal email and name and role USER |
| Numbers.CeilDiv | apps/api/src/users/infrastructure/repositories/mock-user.repository.ts:66 | `Math.ceil(total / limit)`: the least page count whose pages hold every item, and zero exactly for no items |
| Numbers.CeilDivUnique | apps/api/src/users/infrastructure/repositories/mock-user.repository.ts:66 | any page count meeting the two bounds equals `CeilDiv` |
| Text.Trim | apps/api/src/users/domain/value-objects/user-name.value-object.ts:5 | `trim` keeps a slice of the input whose ends are not whitespace, dropping only whitespace |
| Text.TrimIdempotent | apps/api/src/users/domain/value-objects/user-name.value-object.ts:5 | trimming twice is trimming once |
| Text.LowerOfUpper | apps/api/src/users/domain/value-objects/email.value-object.ts:29 | lower-casing the upper-cased string equals lower-casing the string |
| Text.DecimalRoundTrip | apps/api/src/users/domain/events/base/domain-event.interface.ts:29 | reading the decimal rendering of a number back yields the number |
| Text.JoinEmptyIff | apps/api/src/users/application/event-handlers/user-updated.handler.ts:59 | joining non-empty parts is empty iff there are no parts |
| UserDomainService.IsEmailUnique | apps/api/src/users/domain/services/user-domain.service.ts:23-36 | true when nobody is found for the email; otherwise true iff the exclusion is non-empty and is the holder's id |
| UserDomainService.IsEmailUniqueIff | apps/api/src/users/domain/services/user-domain.service.ts:23-36 | under the invariant unique iff every stored holder of that exact string is the excluded user |
| UserDomainService.UniqueWithoutExclusion | apps/api/src/users/domain/services/user-domain.service.ts:23-36 | without an exclusion unique iff no stored user holds the string |
| UserDomainService.EmailErrors | apps/api/src/users/domain/services/user-domain.service.ts:51-60 | a refused address gives the format error, an accepted but taken one the in-use error, otherwise none |
| UserDomainService.NameErrors | apps/api/src/users/domain/services/user-domain.service.ts:62-66 | a refused name gives the name error, an accepted one none |
| UserDomainService.ValidateUserCreation | apps/api/src/users/domain/services/user-domain.service.ts:42-72 | `isValid` iff there are no errors, and there are at most two |
| UserDomainService.CreationErrors | apps/api/src/users/domain/services/user-domain.service.ts:49-71 | valid iff the address is accepted and free and the name is accepted; each message appears exactly in its case; the name error comes last |
| UserDomainService.CreationValidIff | apps/api/src/users/domain/services/user-domain.service.ts:42-72 | under the invariant valid iff email and name are accepted and no stored user holds that exact address |
| UserDomainService.ValidateUserUpdate | apps/api/src/users/domain/services/user-domain.service.ts:78-113 | `isValid` iff there are no errors, there are at most two, and with neither field supplied the update is valid |
| UserDomainService.UpdateErrors | apps/api/src/users/domain/services/user-domain.service.ts:86-112 | each message appears exactly when its field is supplied and fails; the uniqueness check excludes the user being updated |
| UserDomainService.OwnEmailNotInUse | apps/api/src/users/domain/services/user-domain.service.ts:88-95 | a user's own current address is never reported as in use |
| UserDomainService.CanManageUser | apps/api/src/users/domain/services/user-domain.service.ts:119-134 | true for oneself with no lookup; otherwise a blank manager id throws, and the answer is whether the manager is stored and ADMIN |
| UserDomainService.CanManageStoredUser | apps/api/src/users/domain/services/user-domain.service.ts:119-134 | in a consistent store of valid users a stored manager always gets an answer: oneself, or being ADMIN; for another target it is the manager entity's `canManageUsers` |
| UserDomainService.CountAdmins | apps/api/src/users/domain/services/user-domain.service.ts:152-154 | the number of administrators is at most the number of users |
| UserDomainService.CalculateUserStatistics | apps/api/src/users/domain/services/user-domain.service.ts:140-165 | total is min(stored, 1000), admins plus regular users is the total, and the percentage is 0 for no users and lies in 0..100 |
| UserDomainService.Percentage | apps/api/src/users/domain/services/user-domain.service.ts:156-157 | a part of a positive whole as a percentage lies in 0..100, and is 0 for no part and 100 for all of it |
| UserDomainService.CountAdminsIsCardinality | apps/api/src/users/domain/services/user-domain.service.ts:152-154 | counting administrators along distinct ids counts the set of administrator ids |
| UserDomainService.StatisticsCountAdmins | apps/api/src/users/domain/services/user-domain.service.ts:146-155 | with at most 1000 users the statistics count every user, and the administrators counted are exactly the stored ADMIN users |
| UserDomainService.FirstPageIsAll | apps/api/src/users/domain/services/user-domain.service.ts:146-150 | with at most 1000 users, the first page of limit 1000 holds every user in order |
| UserDomainService.AdminsInOrder | apps/api/src/users/domain/services/user-domain.service.ts:152-154 | the administrators along the key order are exactly the stored ADMIN users |
| UserDomainService.InitialStatistics | apps/api/src/users/domain/services/user-domain.service.ts:146-155 | the seed data counts three users, one of them an administrator and two regular |
| UserDomainService.StatisticsOfOneAdmin | apps/api/src/users/domain/services/user-domain.service.ts:140-165 | three consistent users with exactly one administrator give 3 users, 1 admin and 2 regular users |
| UserApplicationService.ResponseDeterminesUser | apps/api/src/users/application/services/user-application.service.ts:127-136 | two users have the same response iff they are the same user |
| UserApplicationService.CreateUser | apps/api/src/users/application/services/user-application.service.ts:31-49 | a refused address fails before any lookup; an exact-string match in the index is a conflict; every failure leaves the store unchanged |
| UserApplicationService.CreateUserStores | apps/api/src/users/application/services/user-application.service.ts:41-48 | success stores one new user under the generated id, with the requested address, the trimmed name, both timestamps at the clock, and the given role, or USER without one; the response mirrors it |
| UserApplicationService.CreateUserSucceedsIff | apps/api/src/users/application/services/user-application.service.ts:31-49 | under the invariant success iff the user can be built and no stored user holds that exact address |
| UserApplicationService.CreateUserPreservesInv | apps/api/src/users/application/services/user-application.service.ts:31-49 | with a fresh generated id the store stays consistent and valid, and success appends exactly one user |
| UserApplicationService.CaseVariantIsNoConflict | apps/api/src/users/application/services/user-application.service.ts:33-38 | an address that `Email.equals` a stored one but differs from every stored string is no conflict |
| UserApplicationService.FindAllUsers | apps/api/src/users/application/services/user-application.service.ts:51-63 | the repository's page for the defaulted page and limit, projected in order, with its metadata unchanged |
| UserApplicationService.FindAllUsersDefaults | apps/api/src/users/application/services/user-application.service.ts:54-57 | absent or zero page and limit mean page 1 of 10: the first ten users in order |
| UserApplicationService.FindUserById | apps/api/src/users/application/services/user-application.service.ts:65-74 | answers iff the id is non-blank and stored, with that user's projection; an unknown id is not found; a blank one is refused |
| UserApplicationService.ApplyEmail | apps/api/src/users/application/services/user-application.service.ts:88-97 | an absent, empty or unchanged address is skipped; a changed one succeeds iff it is accepted and no user with an id other than the requested one holds it exactly, an invalid one is refused with its email error, and a success sets it |
| UserApplicationService.ApplyName | apps/api/src/users/application/services/user-application.service.ts:100-103 | an absent or empty name is skipped; a supplied one succeeds iff accepted, and the trimmed name is set |
| UserApplicationService.ApplyRole | apps/api/src/users/application/services/user-application.service.ts:106-109 | an absent or empty role is skipped; a supplied one succeeds iff it is USER or ADMIN |
| UserApplicationService.UpdateUser | apps/api/src/users/application/services/user-application.service.ts:76-113 | any failure leaves the store unchanged; an unknown id is not found; a blank one is refused |
| UserApplicationService.ChangedEffect | apps/api/src/users/application/services/user-application.service.ts:88-109 | the changed user keeps id and creation time; every supplied field is replaced (the name trimmed) and the rest kept; `updatedAt` moves to the clock exactly when a step applied |
| UserApplicationService.UpdateUserStores | apps/api/src/users/application/services/user-application.service.ts:76-113 | success replaces exactly the user under the id by its changed form, keeps the order, and answers with it |
| UserApplicationService.UpdateUserSteps | apps/api/src/users/application/services/user-application.service.ts:76-113 | a successful update had a non-blank, stored id and successful steps, and it is the repository `update` of the changed user answered with its response |
| UserApplicationService.UpdateUserOnStored | apps/api/src/users/application/services/user-application.service.ts:76-113 | for a stored user with a non-blank id, `updateUser` fails with the error of the first failing step and succeeds when every step does |
| UserApplicationService.ConflictOnlyFromEmail | apps/api/src/users/application/services/user-application.service.ts:88-109 | the update conflicts iff its email step does; the name and role steps only refuse values |
| UserApplicationService.EmailStepConflict | apps/api/src/users/application/services/user-application.service.ts:88-94 | a new, accepted email conflicts iff the index finds a user whose id is not the requested one |
| UserApplicationService.ChangedKeepsIndex | apps/api/src/users/application/services/user-application.service.ts:88-97 | the changed user keeps its non-empty id, and its email is either free in the index or already its own |
| UserApplicationService.UpdateUserConflictIff | apps/api/src/users/application/services/user-application.service.ts:88-94 | for a new, accepted address the update conflicts iff another stored user holds that exact string |
| UserApplicationService.CurrentEmailIsNoConflict | apps/api/src/users/application/services/user-application.service.ts:88 | passing the current address skips the check, so no conflict arises |
| UserApplicationService.UpdateUserPreservesInv | apps/api/src/users/application/services/user-application.service.ts:76-113 | the store stays consistent and every user valid |
| UserApplicationService.DeleteUser | apps/api/src/users/application/services/user-application.service.ts:115-125 | succeeds iff the id is non-blank and stored, removing exactly that user and answering "User deleted successfully"; an unknown id is not found and changes nothing |
| UserApplicationService.DeleteUserPreservesInv | apps/api/src/users/application/services/user-application.service.ts:115-125 | the store stays consistent and valid; after a success the user is not found and the count drops by one |
| DomainEvents.NewEvent | apps/api/src/users/domain/events/base/domain-event.interface.ts:16-26 | the id is built from its own clock reading and the random suffix; type and aggregate are stored as given, the time of occurrence is a second clock reading, and the version is 1 unless one is passed |
| DomainEvents.EventId | apps/api/src/users/domain/events/base/domain-event.interface.ts:28-30 | the id is the decimal clock, a dash, then the suffix |
| DomainEvents.EventIdEncodesClock | apps/api/src/users/domain/events/base/domain-event.interface.ts:28-30 | the part of an event id before its first dash is all digits and reads back as the clock; the rest is the suffix |
| DomainEvents.EventIdsDifferAcrossTime | apps/api/src/users/domain/events/base/domain-event.interface.ts:28-30 | ids built at different clock readings never coincide |
| DomainEvents.NewUserUpdated | apps/api/src/users/domain/events/user-updated.event.ts:12-30 | a version-1 "UserUpdated" event for the given aggregate, with the base id built from the clock and suffix, whose pairs are copied verbatim, absent ones staying absent |
| UserUpdatedHandler.Entry | apps/api/src/users/application/event-handlers/user-updated.handler.ts:47-57 | every entry is non-empty |
| UserUpdatedHandler.DescribedFields | apps/api/src/users/application/event-handlers/user-updated.handler.ts:47-57 | a field is listed iff its new value is present and truthy and differs from the previous one |
| UserUpdatedHandler.DescriptionEmptyIff | apps/api/src/users/application/event-handlers/user-updated.handler.ts:44-60 | the description is empty iff no field changed |
| UserUpdatedHandler.SingleChangeDescription | apps/api/src/users/application/event-handlers/user-updated.handler.ts:44-60 | with one change the description is that field's `field: previous → new` entry alone |
| UserUpdatedHandler.DescriptionOrder | apps/api/src/users/application/event-handlers/user-updated.handler.ts:47-57 | the description lists fields in the order email, name, role |
| UserUpdatedHandler.ReactedFields | apps/api/src/users/application/event-handlers/user-updated.handler.ts:19-41 | `handle` reacts to a field iff it changed |
| UserUpdatedHandler.Handle | apps/api/src/users/application/event-handlers/user-updated.handler.ts:8-42 | one reaction per reacted field, in that order, each built from the event |
| UserUpdatedHandler.SameCount | apps/api/src/users/application/event-handlers/user-updated.handler.ts:8-60 | `handle` reacts to as many fields as the description lists |
| UserUpdatedHandler.HandleMatchesDescription | apps/api/src/users/application/event-handlers/user-updated.handler.ts:8-41 | `handle` reacts exactly to the described fields, once each, in the order email, role, name, each reaction naming the aggregate |
| UserUpdatedHandler.ReactionOrder | apps/api/src/users/application/event-handlers/user-updated.handler.ts:19-41 | the reactions follow the order email, role, name |
| UserUpdatedHandler.ReactionFields | apps/api/src/users/application/event-handlers/user-updated.handler.ts:19-41 | each reaction is about the corresponding reacted field and names the event's aggregate |
| UsersService.Initial | apps/api/src/users/users.service.ts:11-28 | two users with ids 1 and 2, the first ADMIN and the second USER |
| UsersService.Create | apps/api/src/users/users.service.ts:30-40 | appends one user with id length + 1, the given email and name, USER unless a role is given, and `createdAt` and `updatedAt` from their own clock readings; earlier users are unchanged |
| UsersService.FindIndex | apps/api/src/users/users.service.ts:70-71 | the first position holding the id, or none exactly when no user has it |
| UsersService.FindOne | apps/api/src/users/users.service.ts:58-64 | fails with NotFound iff no user has the id; otherwise returns the first user in the list with that id |
| UsersService.Update | apps/api/src/users/users.service.ts:66-82 | fails with NotFound iff no user has the id |
| UsersService.Merge | apps/api/src/users/users.service.ts:75-79 | supplied fields overwrite, the rest are kept, id and creation time stay, and `updatedAt` is the clock |
| UsersService.UpdateInPlace | apps/api/src/users/users.service.ts:70-81 | success keeps the length and every other position, and puts the merged user at the first match |
| UsersService.Remove | apps/api/src/users/users.service.ts:84-92 | fails with NotFound iff no user has the id; otherwise one user fewer and "User deleted successfully" |
| UsersService.RemoveSplices | apps/api/src/users/users.service.ts:85-90 | removing drops exactly the first match: earlier users stay in place, later ones move down by one, and the multiset loses only that user |
| UsersService.IdsRepeatAfterRemove | apps/api/src/users/users.service.ts:30-92 | after removing user 1 from the initial list, the next created user gets id 2, which the list already holds |
| UsersService.Slice | apps/api/src/users/users.service.ts:45 | `slice(skip, skip + limit)` clamped to the list: its length and the elements from `skip` on |
| UsersService.FindAll | apps/api/src/users/users.service.ts:42-56 | page and limit default to 1 and 10 only when left out; total is the length; `totalPages` is the ceiling of total/limit, and not a finite number for limit 0; without `skip` the page is empty |

## Left out

- Asynchrony: every call is one sequential transition. The check-then-write race between two concurrent `createUser` calls is not modelled.
- Clocks and randomness: `new Date()`, `Date.now()`, `uuidv4()` and `Math.random()` are parameters. Dates are integer milliseconds, and the event-id suffix is any string. Where one call reads the clock twice (`UsersService.create`, the base event constructor), each reading is its own parameter. Nothing relates two readings, for example that the later one is not smaller.
- MockUserRepository.InitialStore: the three seed users share one clock value, while the source reads the clock once per `User.create`. No property here depends on the seed timestamps.
- Unicode: `\s`, `trim` and `toLowerCase` are ASCII approximations (six whitespace characters, ASCII letters). Lengths count characters, not UTF-16 code units.
- Emails.Create: the 254 limit is counted in characters, which differs from JavaScript's `length` only for characters outside the Basic Multilingual Plane.
- UserDomainService.CalculateUserStatistics: `adminPercentage` is left unrounded. `Math.round(x * 100) / 100` is floating point.
- JavaScript object aliasing in the mock repository: the model uses value semantics (see Findings). As written, a failing name or role step in `updateUser` after an email change would also leave the stored object half changed. With value semantics the store is unchanged.
- Numbers that are negative, fractional or `NaN` in page, limit and skip. The model takes natural numbers.
- The `toString` methods, which return the stored value.
- The Prisma repository, `PrismaService` and the database package. They are thin wrappers over an ORM whose source is not in view. The Prisma repository's `mapToUserRoleEnum` maps unknown role strings to USER.
- The `UserCreated` and `UserDeleted` events and their handlers. They only copy fields and log.
- Controllers, presentation DTO validation decorators, module wiring, `main.ts` and the web front end: routing, framework and UI configuration.
- UsersService.FindAll: `skip` comes from a `PaginationDto` under `common/dto`, which is not part of this model, so it is a parameter. An absent `skip` yields an empty page, because `slice(undefined, NaN)` is empty.
- UsersService.Create: the DTO is spread after the id, so an `id` property in the request body would replace the generated id. The model takes only email, name and role.
- UsersService.Update: a DTO property that is present but `undefined` would overwrite the field with `undefined` in the spread. The model treats such a property as absent. `UpdateUserDto` of this service is not part of this model; it is taken to carry optional email, name and role.
- Users.Reconstitute: the stored role is typed, so the `UserRole.create` check on it cannot fail in the model.
- The repository interface is not modelled on its own; `MockUserRepository` implements it.

## Findings

| source | as written | input that shows it | evidently intended | confidence | as-written member | corrected member |
|---|---|---|---|---|---|---|
| apps/api/src/users/infrastructure/repositories/mock-user.repository.ts:87-92 | `findById` returns the stored object (line 54) and `updateUser` changes its email in place (user-application.service.ts:96). When `update` then compares the stored email with the new one, both come from the same object, so the index is never re-keyed | a stored user with email `a@x.io` is updated to `b@x.io`, which nobody holds: afterwards `findByEmail(b@x.io)` finds nobody, and `findByEmail(a@x.io)` finds the user, who no longer holds that address | the old index entry is removed and the new address maps to the user | not executed | MockUserRepository.AliasedUpdateLosesEmail | MockUserRepository.UpdateRekeysEmail |
