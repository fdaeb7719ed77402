# User record lifecycle of the chat backend, in Dafny

This project models the account-management slice of the chat backend: the user
repository over the "users" document collection, and the four HTTP handlers that
create, update, delete and look up a user by nickname.

- `Domain` (`domain.dfy`): the `User` record (nickname, password, gender, phone number,
  interests) and the mandatory-field validation the create and update handlers share.
- `Repository` (`repository.dfy`): the collection as the sequence of its documents in
  natural order, held in the field `docs` of the class `UserRepository`. Each operation
  acts on the first document whose nickname matches. `GetUserByNickName` is stated with
  `HasNickname` and `ZeroUser`, `CreateUser` by appending to the old sequence, `DeleteUser`
  with `RemoveFirst` and `UpdateUser` with `SetFirst` (both locate the match with
  `FirstMatch`), and the lemmas say what each write
  does to the natural-key invariant `AtMostOnePerNickname`.
- `Routes` (`routes.dfy`): the handlers as methods of a class `UserRoutes` that holds
  the repository. Each returns the HTTP status code; Get also returns the body. Each
  mutating handler preserves `Valid()`: at most one document per nickname and every
  document with its mandatory fields non-empty. Three client methods (`CreateThenGet`,
  `UpdateTwice`, `DeleteTwice`) run one account through the four handlers.
- `Wrappers` (`wrappers.dfy`): an `Option` type.

Outcomes of the store are tagged values (`Found`, `NotFound`, `StoreError`, ...), where the
code compares error message texts. A backend failure of a store call is an input flag of
that call (`backendFails`, and in the handlers `lookupFails`, `insertFails`,
`updateFails`). A failing call writes nothing.

Three behaviours of the code that the model keeps:
- A lookup hit yields the zero-valued record. `GetUserByNickName` returns a local record
  that is never decoded from the found document. So GET after a create answers 200 with an
  all-empty body, not the created record. `CreateThenGet` shows this.
- A create whose nickname is taken answers 400 (bad request).
- Resubmitting an unchanged record to update answers 500. The driver reports zero modified
  documents, and the repository turns that into an error.

## Model

The record itself is the datatype `Domain.User`, with the five fields of the Go struct
at application/domain/user.go:3-9. `Domain.ZeroUser` is the never-decoded local record at
application/repository/userRepository.go:24. `Domain.MissingMandatory` is the guard at
infra/webserver/routes/setupRoutes.go:33 and 65. These are definitions used inside the
contracts below, and have no row.

| member | source | states |
|---|---|---|
| `Repository.FirstMatch` | application/repository/userRepository.go:22-31 | the position the nickname filter selects: it is absent exactly when no document has the nickname; otherwise it is a matching document with no matching document before it |
| `Repository.RemoveFirst` | application/repository/userRepository.go:41-45 | DeleteOne with a nickname filter: the collection is unchanged when nothing matches; otherwise exactly the first matching document is gone (one fewer document, the multiset loses that document), and the others keep their order |
| `Repository.SetFirst` | application/repository/userRepository.go:47-60 | UpdateOne with a `$set` of all five fields: no document moves or changes its nickname; nothing changes when nothing matches; otherwise the first match becomes the argument and every other document is unchanged |
| `Repository.InsertAbsentKeepsUnique` | infra/webserver/routes/setupRoutes.go:38-54 | inserting a user whose nickname is absent keeps at most one document per nickname |
| `Repository.InsertPresentBreaksUnique` | application/repository/userRepository.go:36-39 | the insert has no uniqueness check: inserting a nickname already stored leaves two matching documents, and lookups still select the older one |
| `Repository.RemoveKeepsUnique` | application/repository/userRepository.go:41-45 | a delete keeps at most one document per nickname |
| `Repository.RemoveUniqueClearsNickname` | infra/webserver/routes/setupRoutes.go:116-130 | with a unique natural key, after deleting a nickname no document has it, so a second delete finds nothing |
| `Repository.SetFirstKeepsUnique` | application/repository/userRepository.go:47-60 | an update keeps at most one document per nickname, because the filter key is the nickname |
| `Repository.UserRepository.constructor` | application/repository/userRepository.go:16-20 | the repository starts over the given contents of the "users" collection |
| `Repository.UserRepository.GetUserByNickName` | application/repository/userRepository.go:22-34 | never changes the collection; a store error exactly when the backend fails; otherwise not-found exactly when no document has the nickname; a hit always carries the zero-valued record |
| `Repository.UserRepository.CreateUser` | application/repository/userRepository.go:36-39 | appends exactly the argument, with no uniqueness check; an error exactly when the backend fails, and then nothing is written |
| `Repository.UserRepository.DeleteUser` | application/repository/userRepository.go:41-45 | a store error writes nothing; otherwise DeletedCount is 0 or 1, it is 0 exactly when no document matched, and the collection loses exactly the first match |
| `Repository.UserRepository.UpdateUser` | application/repository/userRepository.go:47-67 | the first document matching the argument's nickname becomes the argument, and nothing else changes; zero modified documents is an error, both when nothing matched (matched count 0) and when the match already held these values (matched count 1) |
| `Routes.UserRoutes.constructor` | infra/webserver/routes/setupRoutes.go:23 | the handlers are closed over the given repository |
| `Routes.UserRoutes.Create` | infra/webserver/routes/setupRoutes.go:26-55 | 400 with no write on a decode failure or an empty gender, nickname or password; 500 with no write when the lookup fails; 400 with no write when the nickname is stored; 500 with no write when the insert fails; else 201 and the collection grows by exactly the input; keeps `Valid()` |
| `Routes.UserRoutes.Update` | infra/webserver/routes/setupRoutes.go:57-106 | 400 with no write on a decode failure or a missing mandatory field; 500 on a lookup error and 404 on an absent nickname, neither writing; on a hit the written record is the input, interests included (an empty list clears them); 500 when the write fails or modifies nothing; 200 when the first match changed to the input; keeps `Valid()` |
| `Routes.UserRoutes.Delete` | infra/webserver/routes/setupRoutes.go:108-131 | 400 with no write on an empty nickname; 500 with no write on a store error; otherwise the first match is removed, with 200 exactly when there was one and 404 otherwise; after a 200 on a valid collection the nickname is gone; keeps `Valid()` |
| `Routes.UserRoutes.GetByNickName` | infra/webserver/routes/setupRoutes.go:133-160 | never changes the collection; 400 on an empty nickname, 500 on a store error and 404 on an absent nickname, all with no body; 200 with the zero-valued record as body on a hit |
| `Routes.CreateThenGet` | infra/webserver/routes/setupRoutes.go:26-160 | on an empty collection: create answers 201, get answers 200 with the zero-valued body, a second create of the same nickname answers 400, and the collection holds exactly the one created record |
| `Routes.UpdateTwice` | infra/webserver/routes/setupRoutes.go:57-106 | with the account stored: an update that changes password and interests answers 200 and stores exactly the input; the same update again answers 500 |
| `Routes.DeleteTwice` | infra/webserver/routes/setupRoutes.go:108-160 | with the account stored once: delete answers 200, get then answers 404, a second delete answers 404, and the collection is empty |

## Left out

- Process bootstrap in `cmd/chat/main.go` (configuration loading, the HTTP server, the
  memory-statistics goroutine, `bToMb`): I/O and concurrency, with no business logic.
- Router wiring (`SetupRoutes`, the `Mount` calls, the websocket and room route groups):
  pure wiring, and the other route groups are not part of this model.
- JSON decoding and encoding: the handlers take the decoded record (or the query
  parameter) and a decode-failure flag. Marshalling a `User` cannot fail, so the Get body
  is the record itself.
- The MongoDB driver: `bson` filters, contexts and the connection are replaced by the
  sequence of documents. Backend failures are input flags, and a failed call writes
  nothing.
- `Repository.UserRepository.UpdateUser`: when the driver call itself fails, the code reads
  the modified count of a nil result and panics. The model reports an update error instead,
  which the Update handler answers with 500.
- `Domain.User`: Go distinguishes a nil interests slice (stored as null) from an empty one
  (stored as an empty array). The model has one empty sequence. So a create without
  interests followed by an identical update counts as "no changes" here, where the real
  store sees null replaced by an empty array.
- Concurrency: the race between Create's lookup and its insert under concurrent requests is
  out of scope. Requests are served one at a time.
- Response message texts, headers and the logging of the update error are left out.
