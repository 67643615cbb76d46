# User record service — a Dafny model

This project models the user record service of `ru.lisa`. The service keeps user records: a store-assigned
id, a name, an email, an age and a creation time. It offers create, read, update and delete over a store of
such records, and it keeps every email held by at most one record. The service exists in two variants:

- `UserService` works over the `UserDao` store. It checks the email format when it validates a record. It
  also offers a lookup by email and a record count.
- `UserServiceImpl` works over the `UserRepository` store. It does not check the email format. After a
  successful create or delete it hands a `CREATED` or `DELETED` event, carrying the email, to the event
  producer.

The model has eight modules:

- `Wrappers`: `Option` for Java's `null`, and `Result` and `Outcome` for a value or an
  `IllegalArgumentException`.
- `Text`: `String.trim` and `String.contains` as functions on `seq<char>`. `Trim` is proved to be the only
  string that satisfies an independent description of trimming (`TrimOfUnique`).
- `Validation`: both `validateUserData` variants and `isValidEmail`. Each validator's contract says, for
  every possible verdict, exactly when it is returned, so the order of the checks is part of the contract.
- `Records`: the user record, the service errors and the events.
- `Store`: the store as a class. It holds a `map<int, User>` and the next id to assign. It also holds a
  ghost log of every call made on it; the services' unit tests check these calls with Mockito's `verify`,
  and the log lets the contracts state the same facts. In the model `findAll` lists rows in increasing id
  order, and `findByEmail` returns the first row in that order holding the email.
- `Operations`: pure specification functions. For each state-changing operation they give the result,
  the rows afterwards and the store calls made. The lemmas about these functions state what the services
  promise.
- `DaoService` (`UserService`) and `RepositoryService` (`UserServiceImpl`): the two services as classes.
  Every state-changing method is proved to follow its specification function exactly. Every method keeps
  two invariants: the store is well formed, and emails are unique. `UserServiceImpl` also keeps a ghost
  sequence of its calls of the event producer's `send`. Each entry records the (kind, email) passed, and
  the number of store calls made before the send, so the contracts fix where each send falls among the
  store calls.

Points where the two services differ, or where the code may surprise a reader:

- Only `UserServiceImpl.deleteUser` looks the record up before deleting it. `UserService.deleteUser`
  returns the store's own delete answer directly.
- `UserServiceImpl.deleteUser` ignores what the repository's `deleteById` does. It answers true whenever
  the lookup found the record.
- Only `UserService` checks the email format.
- `UserService.getUserByEmail` looks up the trimmed email. `createUser` stores the email untrimmed, and
  checks it for uniqueness untrimmed.

## Model

| member | source | states |
|---|---|---|
| `Text.TrimStart` | src/main/java/ru/lisa/service/UserService.java:149 | the result is a suffix of the input; every character dropped is at most U+0020; the result does not start with such a character |
| `Text.TrimEnd` | src/main/java/ru/lisa/service/UserService.java:149 | the result is a prefix of the input; every character dropped is at most U+0020; the result does not end with such a character |
| `Text.Trim` | src/main/java/ru/lisa/service/UserService.java:149-158 | `trim` keeps a slice `s[i..j]`: everything outside the slice is at most U+0020, and the slice neither starts nor ends with such a character; the result is empty iff every character is at most U+0020 |
| `Text.TrimOfUnique` | src/main/java/ru/lisa/service/UserService.java:149-158 | any string meeting that description of `trim` equals `Trim(s)`, so the description determines the result |
| `Text.Contains` | src/main/java/ru/lisa/service/UserService.java:175 | `contains` is true iff `sub` occurs in `s` as a contiguous slice at some position |
| `Text.ContainsChar` | src/main/java/ru/lisa/service/UserService.java:175 | containing a one-character string is the same as containing that character |
| `Validation.IsValidEmail` | src/main/java/ru/lisa/service/UserService.java:171-176 | true iff the email is non-null and contains both '@' and '.' |
| `Validation.ValidateUserData` | src/main/java/ru/lisa/service/UserService.java:148-169 | for each of the seven verdicts, the exact inputs that give it: null or blank name first; then trimmed name over 100; then null or blank email; then a missing '@' or '.'; then null age; then age outside 0..150; otherwise accepted |
| `Validation.ValidateUserDataLenient` | src/main/java/ru/lisa/service/UserServiceImpl.java:109-125 | the same checks in the same order, without the format check; it never gives `EmailMalformed`, and it accepts iff name, email presence and age are acceptable |
| `Validation.AcceptedFieldsPresent` | src/main/java/ru/lisa/service/UserService.java:148-169 | an accepted record has a name, an email and an age |
| `Validation.ValidatorsAgreeOffFormat` | src/main/java/ru/lisa/service/UserServiceImpl.java:109-125 | whenever the strict validator does not reject the format, both validators give the same verdict |
| `Validation.LenientAcceptsEmailWithoutAt` | src/main/java/ru/lisa/service/UserServiceImpl.java:116-121 | an otherwise valid record whose email has no '@' is accepted by the lenient validator and rejected as malformed by the strict one |
| `Validation.NameLengthBoundary` | src/main/java/ru/lisa/service/UserService.java:152-154 | a trimmed name of exactly 100 characters is accepted, and one of 101 is rejected as too long |
| `Store.UniqueAfterInsert` | src/main/java/ru/lisa/service/UserService.java:31-38 | adding a record whose email no record holds keeps emails unique |
| `Store.UniqueAfterReplace` | src/main/java/ru/lisa/service/UserService.java:90-102 | replacing a record keeps emails unique if the new email is the record's own or is held by no record |
| `Store.UniqueAfterRemove` | src/main/java/ru/lisa/service/UserService.java:113 | removing a record keeps emails unique |
| `Store.ScanFrom` | src/main/java/ru/lisa/dao/UserDao.java:13 | the scan of an id range holds only stored rows from that range, in strictly increasing id order, and every stored row in the range |
| `Store.ScanSize` | src/main/java/ru/lisa/dao/UserDao.java:13 | the scan holds exactly as many records as there are stored ids in its range (proved by induction over the range) |
| `Store.FirstWithEmail` | src/main/java/ru/lisa/dao/UserDao.java:12 | a found user is in the list and holds the email, and no earlier user in the list holds it; nothing is found only when no user in the list holds it |
| `Store.UserStore.All` | src/main/java/ru/lisa/dao/UserDao.java:13 | `findAll` lists each stored row exactly once: as many entries as rows, a user is listed iff it is the row stored under its id, and no id repeats |
| `Store.UserStore.WithEmail` | src/main/java/ru/lisa/dao/UserDao.java:12 | a row is found iff some row holds the email, and the row found is stored under its id and holds the email |
| `Store.UserStore.WithEmailIsTheHolder` | src/main/java/ru/lisa/dao/UserDaoImpl.java:53-68 | when emails are unique, the row found is the one row holding the email |
| `Store.UserStore.FindById` | src/test/java/ru/lisa/dao/UserDaoImplTest.java:146-149 | the row with the id, or nothing when no row has it; one lookup is logged |
| `Store.UserStore.FindByEmail` | src/main/java/ru/lisa/dao/UserDao.java:12 | a row is returned iff some row holds the email; the row returned is stored under its id and holds the email; one email lookup is logged |
| `Store.UserStore.FindAll` | src/main/java/ru/lisa/dao/UserDao.java:13 | returns `All()`; one list call is logged |
| `Store.UserStore.Save` | src/main/java/ru/lisa/dao/UserDao.java:10 | assigns the next id, which is positive and was not in use; adds exactly that row with the given fields; advances the id counter |
| `Store.UserStore.Update` | src/main/java/ru/lisa/dao/UserDaoImpl.java:86-103 | replaces the row stored under the user's id by the user; reports whether that row existed |
| `Store.UserStore.Delete` | src/main/java/ru/lisa/dao/UserDaoImpl.java:106-132 | true iff the row existed; afterwards it is absent and every other row is unchanged |
| `Store.SaveThenFind` | src/test/java/ru/lisa/dao/UserDaoImplTest.java:90-99 | a saved record gets a positive id and reads back by that id with exactly the fields it was saved with |
| `Store.DeleteThenFind` | src/test/java/ru/lisa/dao/UserDaoImplTest.java:203-207 | delete answers whether the row was there; afterwards a lookup finds nothing and a second delete answers false |
| `Operations.CreateStep` | src/main/java/ru/lisa/service/UserService.java:26-42 | create succeeds iff the verdict accepts and no record holds the email; a failure leaves the rows unchanged; a rejected verdict makes no store call |
| `Operations.InsertStep` | src/main/java/ru/lisa/service/UserService.java:31-41 | the store phase succeeds iff no record holds the email; otherwise it fails with `DuplicateEmail` and changes nothing; on success the keys become the old keys plus `nextId`, whose record holds the email; the first store call is always the email lookup |
| `Operations.UpdateStep` | src/main/java/ru/lisa/service/UserService.java:72-104 | update never adds or removes a key; a failure leaves the rows unchanged; a bad id or a rejected field makes no store call |
| `Operations.ReplaceStep` | src/main/java/ru/lisa/service/UserService.java:82-102 | the store phase of update succeeds iff the record exists and its email is unchanged or held by no record; on success the record holds the new email; keys never change; the first store call is the lookup by id |
| `Operations.DeleteStep` | src/main/java/ru/lisa/service/UserService.java:106-122 | delete fails iff the id is bad; it answers true iff the id is acceptable and present; it never adds a key, and after a delete that does not fail the id is absent; its only error is `InvalidId` |
| `Operations.DeleteCheckedStep` | src/main/java/ru/lisa/service/UserServiceImpl.java:88-107 | delete fails iff the id is bad; it answers true iff the id is acceptable and present; the rows lose exactly that id when it answers true and are unchanged otherwise; with an acceptable id the first store call is the lookup; its only error is `InvalidId` |
| `Operations.CreateRejectsInvalidFields` | src/main/java/ru/lisa/service/UserService.java:29 | a rejected field fails create with the validator's error; no store call is made and no row changes |
| `Operations.CreateRejectsHeldEmail` | src/main/java/ru/lisa/service/UserService.java:31-35 | if the email is already held, create fails with `DuplicateEmail`; its only store call is the one email lookup, so there is no save; no row changes |
| `Operations.CreateAddsOneRecord` | src/main/java/ru/lisa/service/UserService.java:37-41 | a successful create returns a fresh positive id; the rows gain exactly that key, which holds the given name, email and age; every old row is unchanged |
| `Operations.CreateKeepsEmailsUnique` | src/main/java/ru/lisa/service/UserService.java:29-41 | create never makes two records share an email |
| `Operations.UpdateFailureChangesNothing` | src/main/java/ru/lisa/service/UserService.java:76-96 | update fails iff the id is bad, a field is invalid, the id is absent, or the changed email is held; each failure has its own error in that order: `InvalidId` iff the id is bad, the validator's error when the id is good and a field is not, `NotFound` iff id and fields are good and no record has the id, `DuplicateEmail` iff the record exists and its changed email is held by a record; a failure changes no row and writes nothing |
| `Operations.UpdateChangesOnlyThreeFields` | src/main/java/ru/lisa/service/UserService.java:98-102 | a successful update keeps the same keys; it sets name, email and age of that record; it keeps the record's id and creation time; every other record is unchanged |
| `Operations.UpdateSameEmailSkipsLookup` | src/main/java/ru/lisa/service/UserServiceImpl.java:74-84 | when the email is unchanged, update succeeds and its only store calls are the lookup by id and the write of the record with the new name and age |
| `Operations.UpdateKeepsEmailsUnique` | src/main/java/ru/lisa/service/UserService.java:90-102 | update never makes two records share an email |
| `Operations.DeleteReportsPresence` | src/main/java/ru/lisa/service/UserService.java:109-121 | with an acceptable id, delete answers whether the record was present; afterwards it is absent and the other rows stay |
| `Operations.DeleteVariantsAgree` | src/main/java/ru/lisa/service/UserServiceImpl.java:88-107 | the lookup-first delete of `UserServiceImpl` gives the same answer and leaves the same rows as the delete of `UserService` |
| `Operations.DeleteTwiceAnswersFalse` | src/main/java/ru/lisa/service/UserServiceImpl.java:94-98 | a second delete of the same id answers false, after only a lookup, and changes nothing |
| `Operations.DeleteKeepsEmailsUnique` | src/main/java/ru/lisa/service/UserService.java:106-122 | delete never makes two records share an email |
| `DaoService.UserService.constructor` | src/main/java/ru/lisa/service/UserService.java:17-20 | the service is built over a store that is well formed and has unique emails |
| `DaoService.UserService.CreateUser` | src/main/java/ru/lisa/service/UserService.java:26-42 | result, rows and store calls are those of `CreateStep` with the strict validator; the invariants hold afterwards |
| `DaoService.UserService.InsertIfEmailFree` | src/main/java/ru/lisa/service/UserService.java:31-41 | result, rows and store calls are those of `InsertStep`; the invariants hold afterwards |
| `DaoService.UserService.GetUserById` | src/main/java/ru/lisa/service/UserService.java:44-61 | a null or non-positive id fails and makes no store call; otherwise the result is the store's row for the id, unchanged, after one lookup |
| `DaoService.UserService.GetAllUsers` | src/main/java/ru/lisa/service/UserService.java:63-70 | every stored record exactly once, after one list call |
| `DaoService.UserService.UpdateUser` | src/main/java/ru/lisa/service/UserService.java:72-104 | result, rows and store calls are those of `UpdateStep` with the strict validator; the invariants and the id counter are kept |
| `DaoService.UserService.ReplaceFields` | src/main/java/ru/lisa/service/UserService.java:82-102 | result, rows and store calls are those of `ReplaceStep`; the invariants and the id counter are kept |
| `DaoService.UserService.DeleteUser` | src/main/java/ru/lisa/service/UserService.java:106-122 | result, rows and store calls are those of `DeleteStep`; the invariants and the id counter are kept |
| `DaoService.UserService.GetUserByEmail` | src/main/java/ru/lisa/service/UserService.java:124-136 | a null or blank email fails as empty and a malformed one fails as malformed, both without a store call; otherwise a record is returned iff one holds the trimmed email, and that record is stored and holds it |
| `DaoService.UserService.GetUsersCount` | src/main/java/ru/lisa/service/UserService.java:138-146 | the count is the length of `findAll`'s list, which is the number of stored records |
| `RepositoryService.PublishedAsWritten` | src/main/java/ru/lisa/kafka/UserEventProducerImpl.java:21-24 | the producer as written publishes the email with kind `DELETED`, whatever kind it is given |
| `RepositoryService.CreationPublishedAsDeletion` | src/main/java/ru/lisa/kafka/UserEventProducerImpl.java:23 | as written, a creation and a deletion of the same email publish the same message, and it is not `CREATED` |
| `RepositoryService.Published` | src/main/java/ru/lisa/kafka/UserEventProducerImpl.java:21-24 | the message that is evidently intended carries the kind and the email it is given |
| `RepositoryService.PublishedDeterminesEvent` | src/main/java/ru/lisa/kafka/UserEventProducerImpl.java:22-23 | two intended messages are equal iff they were sent with the same kind and the same email |
| `RepositoryService.CreateEvents` | src/main/java/ru/lisa/service/UserServiceImpl.java:34-37 | create makes at most one send; a send has kind `CREATED`, carries the given email, comes from an accepted verdict, and is stamped with the given store-call count |
| `RepositoryService.DeleteEvents` | src/main/java/ru/lisa/service/UserServiceImpl.java:100-103 | delete makes at most one send; a send has kind `DELETED`, carries the email of the record stored under the acceptable id, and is stamped with the given store-call count |
| `RepositoryService.CreateEventIffCreated` | src/main/java/ru/lisa/service/UserServiceImpl.java:29-40 | create sends an event iff it succeeds, and then exactly one `CREATED` event with the new record's email; it is sent after the operation's last store call, which is the save of that record |
| `RepositoryService.DeleteEventIffRemoved` | src/main/java/ru/lisa/service/UserServiceImpl.java:94-106 | delete sends an event iff it answers true, and then exactly one `DELETED` event with the email the record had; the record is gone afterwards; the event is sent after the operation's last store call, which is the removal |
| `RepositoryService.DeleteTwiceAnnouncesOnce` | src/main/java/ru/lisa/service/UserServiceImpl.java:94-98 | a second delete of the same id sends no event |
| `RepositoryService.PublishedIsWhatWasSent` | src/main/java/ru/lisa/kafka/UserEventProducerImpl.java:22-23 | the intended producer publishes exactly the (kind, email) that was sent; the producer as written publishes something else for a creation |
| `RepositoryService.UserServiceImpl.constructor` | src/main/java/ru/lisa/service/UserServiceImpl.java:21-22 | the service starts over a well-formed store with unique emails, and no event has been sent |
| `RepositoryService.UserServiceImpl.CreateUser` | src/main/java/ru/lisa/service/UserServiceImpl.java:24-41 | result, rows and store calls are those of `CreateStep` with the lenient validator; the sends are exactly `CreateEvents`, after the operation's store calls; the invariants hold afterwards |
| `RepositoryService.UserServiceImpl.InsertAndAnnounce` | src/main/java/ru/lisa/service/UserServiceImpl.java:29-40 | result, rows and store calls are those of `InsertStep`; the sends are `CreateEvents` stamped with the final store-call count, so the one `CREATED` send comes after the save, and happens only when the save did |
| `RepositoryService.UserServiceImpl.GetUserById` | src/main/java/ru/lisa/service/UserServiceImpl.java:43-51 | a null or non-positive id fails and never queries the store; otherwise the result is the store's row for the id, after one lookup |
| `RepositoryService.UserServiceImpl.GetAllUsers` | src/main/java/ru/lisa/service/UserServiceImpl.java:53-59 | every stored record exactly once, after one list call |
| `RepositoryService.UserServiceImpl.UpdateUser` | src/main/java/ru/lisa/service/UserServiceImpl.java:61-86 | result, rows and store calls are those of `UpdateStep` with the lenient validator; the invariants and the id counter are kept; no event is sent |
| `RepositoryService.UserServiceImpl.SaveLoadedRecord` | src/main/java/ru/lisa/service/UserServiceImpl.java:68-84 | result, rows and store calls are those of `ReplaceStep`; the loaded record with new name, email and age is saved back |
| `RepositoryService.UserServiceImpl.DeleteUser` | src/main/java/ru/lisa/service/UserServiceImpl.java:88-107 | result, rows and store calls are those of `DeleteCheckedStep`; the sends are exactly `DeleteEvents`, after the operation's store calls; the invariants and the id counter are kept |
| `RepositoryService.UserServiceImpl.RemoveAndAnnounce` | src/main/java/ru/lisa/service/UserServiceImpl.java:94-106 | result, rows and store calls are those of `DeleteCheckedStep`: an absent record answers false after the lookup and sends nothing; a present one is removed, then its email is sent as `DELETED`, and the answer is true |
| `RepositoryService.UserServiceImpl.Announce` | src/main/java/ru/lisa/service/UserServiceImpl.java:37 | one call of the producer's `send`: exactly one entry is appended, carrying the kind and email passed and the number of store calls made at the point of the call |

## Left out

- Hibernate sessions, Spring Data, transactions and rollback are left out. The store is an abstract map, and a
  store call cannot fail, so the `RuntimeException` each `UserDaoImpl` method raises on a database error is
  not modelled.
- `Store.UserStore.WithEmail` returns the first holder in id order. When two rows hold the email, Hibernate's
  `uniqueResult` would throw instead. Both services keep emails unique, so that case never arises in the
  model.
- The Kafka send, the topic name and the JSON encoding of an event are left out. The model records only the
  (kind, email) each send carries, and where the send falls among the store calls.
- The order of `findAll`'s list is left open by the source: the query `FROM User` in `UserDaoImpl.findAll`
  has no `ORDER BY`. The model chooses increasing id order. `findByEmail` returns the first holder in that
  order, and that choice matters only when two rows share an email, which the services never allow.
- Logging is left out.
- `LocalDateTime.now()` is left out. The creation time is a parameter `now` of create.
- Concurrency is left out, including the race between two creates that both pass the email check before
  either writes. Every operation runs alone.
- Java `Long` and `Integer` overflow are left out: ids and ages are unbounded integers.
- `String.length` counts UTF-16 code units; the model counts characters.
- Identity and aliasing of the loaded entity in `updateUser` are left out. The service copies the loaded
  record with new fields and writes the copy back, which gives the same stored result.
- `Store.UserStore.Update`: when no row has the user's id, this returns false and changes nothing.
  Hibernate's `merge` would insert the row instead. Both services call it only after finding the row.
- The no-argument `UserService()` constructor builds a `UserDaoImpl` from a global session factory, and is
  left out. `close()` only logs, and is left out.
- `src/main/java/ru/lisa/entity/User.java` declares fields (id, name, level) that the services do not use.
  The record here has the fields the services use: id, name, email, age and creation time.
- A scenario that creates a record through the service and reads it back is not a separate method.
  `Operations.CreateAddsOneRecord` states it for the service's specification, and `Store.SaveThenFind`
  states it for the store.

## Findings

| source | as written | input that shows it | evidently intended | confidence | as-written member | corrected member |
|---|---|---|---|---|---|---|
| src/main/java/ru/lisa/kafka/UserEventProducerImpl.java:23 | the published event always has kind `DELETED`; the `eventType` argument is ignored | `send(CREATED, "a@b.c")` after a successful `createUser` publishes a `DELETED` event for `a@b.c` | publish the kind it was given together with the email | high; not executed | `RepositoryService.CreationPublishedAsDeletion` | `RepositoryService.PublishedDeterminesEvent` |
