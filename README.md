# Users REST service — Dafny model

This project models the core of a small CRUD REST service for a `User`
resource backed by a MongoDB `users` collection: the user service, which
enforces two domain rules (a user must exist; an update's body id must equal
its path id) on top of the store, and the HTTP controller, which hands each
request to the service and maps the outcome to a status and a body.

- `wrappers.dfy` — `Option`, for absent ids and store lookups.
- `entity.dfy` — the `User` document (`id: Option<string>`, `name`), with
  field-wise equality (Dafny datatype equality, as Lombok's `equals`), and
  the name-only constructor.
- `repository.dfy` — what the service relies on from the Spring Data
  repository: the collection as a `map<string, User>` from id to document
  (every document carries its key as its id, `Keyed`), find-by-id, save of a
  document with an id (upsert), delete by entity, and the existence of a free
  key for the store to generate.
- `service.dfy` — class `UserService` whose `users` field is the collection
  and whose ghost `writes` field records, in order, the `save`/`delete` calls
  issued to the store. `getUser` is a function of the table; `addUser`,
  `updateUser` and `deleteUser` are methods that state exactly how the table
  changes, which error they raise, and in which order the checks run;
  `getUsers` lists every stored user once.
- `controller.dfy` — the two exception handlers (fixed 404 and 400 replies),
  the outcome-to-response mapping `Respond`, and class `UserController` with
  the five route handlers, stated end to end against the service's state.
- `session.dfy` — a sample session through the controller (get, get of a
  missing id, create, update, mismatching update, delete, get after delete)
  that asserts each reply from the contracts alone.

Creating a user does not discard a supplied id: `addUser` passes the body to
`save` unchanged, so a create whose body carries an id is upserted under that
id rather than given a fresh one, and a create with the id `""` keeps `""`;
only a generated id is non-empty (`Service.UserService.AddUser`).

## Model

| member | source | states |
|---|---|---|
| `Entity.NamedUser` | src/main/java/andrei/demo/users/entity/User.java:29-31 | the name-only constructor sets the name and leaves the id absent |
| `Repository.FindById` | src/main/java/andrei/demo/users/repository/UserRepository.java:11 | find-by-id yields a user exactly when the id is stored, that stored document, whose id is the looked-up id |
| `Repository.Upsert` | src/main/java/andrei/demo/users/repository/UserRepository.java:11 | save of a document with an id stores it under that id, adds that key only, leaves every other document untouched and keeps every document keyed by its id |
| `Repository.Remove` | src/main/java/andrei/demo/users/repository/UserRepository.java:11 | delete of an entity removes exactly the key of its id (nothing when it has none), changes no other document and keeps keys and ids agreeing |
| `Repository.KeyLengthBound` | src/main/java/andrei/demo/users/repository/UserRepository.java:11 | some length exceeds every key of the collection (proof by induction over the key set) |
| `Repository.FreshKeyExists` | src/main/java/andrei/demo/users/repository/UserRepository.java:11 | a non-empty key not in use always exists, so an id can be generated on insert |
| `Service.UserService.constructor` | src/main/java/andrei/demo/users/service/UserService.java:18-21 | the service starts over a given collection and has issued no writes |
| `Service.UserService.GetUser` | src/main/java/andrei/demo/users/service/UserService.java:23-25 | returns the stored user, carrying the requested id, exactly when the id is stored; fails with UserDoesNotExist exactly when it is not; never raises the mismatch |
| `Service.UserService.AddUser` | src/main/java/andrei/demo/users/service/UserService.java:27-29 | no existence or id check; save is called once with the body as given; a body with an id is stored and returned as is, one without gets a fresh non-empty key; the table gains or replaces exactly that entry, and getUser of the returned id gives back the returned user |
| `Service.UserService.UpdateUser` | src/main/java/andrei/demo/users/service/UserService.java:31-36 | a body id other than the path id fails with UserIdMismatch whatever the table holds, with no write and nothing changed; a matching id that is absent fails with UserDoesNotExist, nothing changed; otherwise the body replaces the entry wholesale, is saved once and returned, and every other entry is untouched |
| `Service.UserService.DeleteUser` | src/main/java/andrei/demo/users/service/UserService.java:38-42 | an absent id fails with UserDoesNotExist, nothing changed; a present id returns the pre-deletion user, deletes that entity once and removes exactly that key; afterwards getUser of the id fails with UserDoesNotExist |
| `Service.UserService.GetUsers` | src/main/java/andrei/demo/users/service/UserService.java:44-46 | returns every stored user exactly once and nothing else, as many as the table holds, without changing it |
| `Service.AsWrittenRejectsEqualIds` | src/main/java/andrei/demo/users/service/UserService.java:32 | two distinct String objects with the same characters fail the reference check as written, though the intended check accepts them |
| `Service.IdsMismatchByContents` | src/main/java/andrei/demo/users/service/UserService.java:32 | the intended id check fails exactly when the body has no id or an id with other characters, whatever the objects (given that one object holds one string); on the very same object both checks pass |
| `Service.AsWrittenRejectsEveryValueMismatch` | src/main/java/andrei/demo/users/service/UserService.java:32 | when one object holds one string, the reference check as written rejects every body id the value check rejects (it rejects more, as AsWrittenRejectsEqualIds shows) |
| `Controller.HandleUserDoesNotExist` | src/main/java/andrei/demo/users/controller/UserController.java:34-37 | UserDoesNotExist becomes 404 with the body "User does not exist!" |
| `Controller.HandleUserIdMismatch` | src/main/java/andrei/demo/users/controller/UserController.java:39-42 | UserIdMismatch becomes 400 with the body "User id and pathId do not match!" |
| `Controller.Respond` | src/main/java/andrei/demo/users/controller/UserController.java:34-67 | the status is 200, 400 or 404 and nothing else; 200 exactly on success, with the user as body; 404 exactly on UserDoesNotExist and 400 exactly on UserIdMismatch, with the handlers' fixed replies |
| `Controller.RespondInjective` | src/main/java/andrei/demo/users/controller/UserController.java:34-67 | distinct outcomes never get the same reply |
| `Controller.ErrorReplyDependsOnKindOnly` | src/main/java/andrei/demo/users/controller/UserController.java:34-42 | an error reply is a plain message fixed by the error kind alone, one of the two constants, and two error replies agree exactly when the kinds do |
| `Controller.UserController.constructor` | src/main/java/andrei/demo/users/controller/UserController.java:29-32 | the controller delegates to the given service |
| `Controller.UserController.GetAllUsers` | src/main/java/andrei/demo/users/controller/UserController.java:44-47 | GET /users/ is always 200 with the list of every stored user |
| `Controller.UserController.GetUser` | src/main/java/andrei/demo/users/controller/UserController.java:49-52 | GET /users/{id} is the reply to getUser of the path id: 200 with the stored user, or 404 "User does not exist!" |
| `Controller.UserController.AddUser` | src/main/java/andrei/demo/users/controller/UserController.java:54-57 | POST /users/ is always 200 (not 201) with the saved user, which keeps the body's name and the body's id if it had one, and the table gains or replaces that entry |
| `Controller.UserController.UpdateUser` | src/main/java/andrei/demo/users/controller/UserController.java:59-62 | PUT /users/{id} is 400 with the mismatch message and no change when the body id differs from the path id, 404 with no change when the id is absent, and otherwise 200 with the body, which replaces the entry |
| `Controller.UserController.DeleteUser` | src/main/java/andrei/demo/users/controller/UserController.java:64-67 | DELETE /users/{id} replies as getUser of the path id did before the call (200 echoing the deleted user, or 404) and removes exactly that key |

## Left out

- Spring Boot bootstrap (`UsersApplication`), dependency injection and routing annotations: framework plumbing; the constructors take the collection and the service explicitly.
- `findByName` of the repository: declared but never called by the service or any route.
- JSON (de)serialisation: bodies are the `User` values themselves; `UserJson`, `UserListJson` and `Text` stand for the serialised forms.
- Mongo internals: persistence, durability and the actual id generator. The generator is modelled only as the choice of some non-empty key not in use; that this holds of the store is an assumption, not something the source guarantees.
- Store failures and the framework's default 500 reply: they are not coded in the service or controller.
- Concurrency: each operation is modelled as one atomic step, so the read-then-write races of update and delete under concurrent requests are not represented.
- Service.UserService.GetUsers: promises no order of the listed users, because the order is the store's; two calls with no write between them therefore return the same users, not provably in the same order.
- Service.UserService.GetUser: its store lookup is not recorded in the `writes` trace, which records writes only; reads leave the table unchanged by construction.

## Findings

| source | as written | input that shows it | evidently intended | confidence | as-written member | corrected member |
|---|---|---|---|---|---|---|
| src/main/java/andrei/demo/users/service/UserService.java:32 | `user.getId() != userId` compares `String` references | PUT /users/A with body `{"id":"A","name":"Dan"}`: the path id and the deserialised body id are two distinct objects holding "A", so the update is rejected with 400 | compare the ids by value, rejecting only a missing or different id | high, not executed | `Service.AsWrittenRejectsEqualIds` (over `Service.MismatchAsWritten`) | `Service.IdsMismatchByContents` (over `Service.IdsMismatch`, used by `Service.UserService.UpdateUser`) |
