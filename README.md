# Book catalog: record lifecycle model

This project models the record lifecycle of a small library service. The
service keeps book records keyed by ISBN and serves five operations over
HTTP: create (`POST /api/books/{isbn}`), list (`GET /api/books`), find (a
lookup by ISBN), update (`PUT /api/books/{isbn}`) and delete
(`DELETE /api/books/{isbn}`). Each refusal has its own status code and
message.

The repository's server code is not part of this model. Only its test
suite, `server_test.go`, is. The rules below come from that suite. Where
the suite shows only one instance of a rule, the general rule is inferred,
and the list says so:

- Create refuses an ISBN that contains a non-digit (406). The suite shows
  one such ISBN, `123321123321a`; refusing every ISBN that is not exactly
  thirteen digits is inferred. It refuses a payload that sets CreateTime
  (403). The suite only sets CreateTime; refusing a payload that sets only
  UpdateTime is inferred from the message "Not allowed to change CreateTime
  or UpdateTime". It refuses an ISBN that is already stored (409). The
  suite checks only the status and the message; that the stored record is
  left as it was is inferred.
- Find yields the stored record, or the zero Book when the ISBN is absent.
- List yields every stored record once.
- Update refuses an absent ISBN (404). It refuses a body whose ISBN
  differs from the path's (403), and that check comes before the cooldown.
  It refuses an update less than ten seconds after the record's last
  update (425). The cooldown runs from the last update only, so the first
  update after a create is accepted at once.
- Delete removes a stored record (200). It refuses an absent ISBN (404).

Files:

- `books.dfy` (module `Books`): the Book record, the ISBN format rule and
  the test suite's comparisons (`assertEqualBook`, `assertEqualBooks`,
  `assertDeletedBook`) as predicates.
- `lifecycle.dfy` (module `Lifecycle`): each operation as a pure step from
  the catalog before it to an outcome and the catalog after it. It also
  holds the status codes and messages, the lemmas for each rule above, and
  two invariants proved over any sequence of requests.
- `server.dfy` (module `Server`): the class `Library`, whose `books` map
  the five methods update in place. Each method's postcondition ties it
  to its step. The file ends with the four test functions replayed on a
  fresh `Library`.

Time is a parameter `now` in whole seconds, always positive. A stored
record's `updateTime` of 0 means "never updated". In a payload, 0 means
"not set by the caller".

Choices made where the test suite is silent:

- ISBN format: exactly thirteen ASCII digits. The tests only show a
  thirteen-character ISBN ending in a letter being refused. The ISBN-13
  checksum is not applied: `1233211233215` is accepted although its check
  digit would be 2.
- Create check order: ISBN format, then timestamps, then duplicate.
- Update refuses a payload that sets a timestamp (403, same message as
  create). That check comes after the ISBN check and before the cooldown.
  No test sends such an update.
- Update applies no ISBN format check of its own. An update addressed to
  a malformed ISBN therefore answers 404, never 406, because no record is
  ever stored under such an ISBN (`UpdateMalformedIsbnNotFound`).
- Create keys the record by the body's ISBN. Every test sends the same
  ISBN in the path and in the body.
- On create the record gets `createTime = now` and keeps `updateTime = 0`.
  A design in which create also set `updateTime` would make the first
  update 425, but the test at `server_test.go:424-450` expects 200.

## Model

| member | source | states |
|---|---|---|
| `Books.SameBookIsEquivalence` | server_test.go:58-65 | the test's book equality is reflexive, symmetric and transitive |
| `Books.IsValidIsbn` | server_test.go:190-216 | the ISBN format rule, exactly thirteen ASCII digits; a well-formed ISBN is never the zero Book's empty ISBN |
| `Books.SameBook` | server_test.go:58-65 | the test's book equality: two books are equal exactly when they differ at most in their two timestamps |
| `Books.SameBooksAsWritten` | server_test.go:67-77 | the list check as the helper's loop runs it: it passes exactly when `got` is no longer than `wanted` and equals, book by book, the prefix of `wanted` of its own length |
| `Books.IsDeleted` | server_test.go:50-56 | the deleted check, a lookup yielding the zero Book; a book it accepts has no well-formed ISBN |
| `Books.ValidIsbnIsNotDeleted` | server_test.go:50-56 | a book with a well-formed ISBN is never the zero Book, so the deleted check cannot mistake a stored record for an absent one |
| `Books.TestIsbns` | server_test.go:190-216 | `123321123321a` fails the ISBN rule; the thirteen-digit ISBNs the tests use pass it |
| `Books.SameBooksIsEquivalence` | server_test.go:67-77 | the corrected list comparison is reflexive, symmetric and transitive, and it holds exactly when the helper's loop passes in both directions |
| `Books.SameBooksAsWrittenAcceptsEmpty` | server_test.go:67-77 | the helper's loop accepts an empty list against any non-empty list, and the reverse fails, while the corrected comparison refuses it |
| `Lifecycle.StatusCode` | server_test.go:158-540 | the status of each failure: 406, 403, 409, 404, 403, 425 and 404, all client errors |
| `Lifecycle.Message` | server_test.go:158-540 | the exact body of each failure, never empty |
| `Lifecycle.FailuresReportedDistinctly` | server_test.go:158-540 | status code and message together tell every failure apart |
| `Lifecycle.CreateStep` | server_test.go:109-216 | create succeeds exactly when the ISBN is well-formed, the timestamps are unset and the ISBN is new; it then adds one record equal to the payload, created at `now` and never updated, and changes no other record; a refusal changes nothing |
| `Lifecycle.CreateThenFind` | server_test.go:109-135 | after a successful create, find yields a book equal to the payload, created at `now` and never updated |
| `Lifecycle.CreateDuplicateConflicts` | server_test.go:137-161 | a valid create of a stored ISBN is refused with the conflict, whatever its other fields, and the stored record is kept |
| `Lifecycle.CreateTwiceConflicts` | server_test.go:137-161 | right after a successful create, another create of that ISBN conflicts and the first title and publisher remain |
| `Lifecycle.CreateRefusesTimestamps` | server_test.go:163-188 | a payload with either timestamp set is refused and stores nothing; with a well-formed ISBN the refusal is the timestamps one |
| `Lifecycle.CreateRefusesMalformedIsbn` | server_test.go:190-216 | an ISBN that is not thirteen digits is refused as not acceptable before any other check, and nothing is stored |
| `Lifecycle.Lookup` | server_test.go:50-56 | find yields the stored record or the zero Book; in a well-formed catalog, the zero Book exactly when the ISBN is absent, and otherwise a record carrying the ISBN asked for |
| `Lifecycle.DeleteStep` | server_test.go:365-396 | delete succeeds exactly when the ISBN is stored, removes that record only, and otherwise reports not found and changes nothing |
| `Lifecycle.DeleteTwice` | server_test.go:365-396 | deleting a stored ISBN twice answers success, then not found, and find yields the zero Book after each |
| `Lifecycle.InCooldown` | server_test.go:509-541 | a record is cooling down only if it was updated, and only before ten seconds have passed since that update |
| `Lifecycle.UpdateStep` | server_test.go:424-541 | update checks absence, then a changed ISBN, then set timestamps, then cooldown, and succeeds exactly when all four pass; a refusal changes nothing; a success stores the payload's title, author and publisher, keeps ISBN and createTime, sets updateTime to `now` and touches no other record |
| `Lifecycle.UpdateMalformedIsbnNotFound` | server_test.go:456-481 | in a well-formed catalog, an update addressed to a malformed ISBN answers not found and changes nothing |
| `Lifecycle.FirstUpdateAfterCreate` | server_test.go:404-450 | the first update after a create is accepted whenever it comes, and it answers the payload |
| `Lifecycle.UpdateCooldown` | server_test.go:509-541 | after an update accepted at `t1`, a well-formed update at `t2` is refused as too early exactly when `t2 - t1 < 10`, and is accepted exactly when `t2 >= t1 + 10` |
| `Lifecycle.IsbnCheckPrecedesCooldown` | server_test.go:483-507 | after an accepted update at `t1`, a body with another ISBN at `t2` is refused as a changed ISBN and the record stays as it was, even when `t2` falls inside the cooldown |
| `Lifecycle.IsbnsOfOccurs` | server_test.go:269-285 | an ISBN is among those of a listing exactly when some element carries it |
| `Lifecycle.IsbnsOfDistinct` | server_test.go:269-285 | a listing without repeated ISBNs has as many elements as distinct ISBNs |
| `Lifecycle.ListingSize` | server_test.go:269-285 | a listing of the catalog has exactly one element per stored record |
| `Lifecycle.ApplyKeepsWellformed` | server_test.go:137-161 | one request keeps every record under its own well-formed ISBN with a creation time |
| `Lifecycle.ReplayKeepsWellformed` | server_test.go:137-216 | any sequence of requests keeps every record under its own well-formed ISBN, so one ISBN names at most one record |
| `Lifecycle.ApplyKeepsTimesWithin` | server_test.go:163-188 | one request, at a time no earlier than the stored times, keeps each record's update time at or after its creation time |
| `Lifecycle.ReplayKeepsTimesWithin` | server_test.go:163-188 | for requests in chronological order, every record's update time stays at or after its creation time, and no stored time is later than the last request |
| `Server.Library.constructor` | server_test.go:79-90 | a fresh library holds no books |
| `Server.Library.Create` | server_test.go:125-126 | the create handler keeps the catalog well-formed and answers and updates the catalog as the create step does |
| `Server.Library.Find` | server_test.go:50-56 | the lookup yields the stored record or the zero Book, and the zero Book exactly when the ISBN is absent |
| `Server.Library.List` | server_test.go:269-285 | the listing holds each stored record, under its own ISBN, exactly once, and its length is the number of stored records |
| `Server.Library.Update` | server_test.go:439-440 | the update handler keeps the catalog well-formed and answers and updates the catalog as the update step does |
| `Server.Library.Delete` | server_test.go:368-369 | the delete handler keeps the catalog well-formed and answers and updates the catalog as the delete step does |
| `Server.CreateScenario` | server_test.go:105-217 | the create test's four requests on a fresh library answer 200 with an equal stored book, then 409, 403 and 406 with their exact messages; the conflict leaves the first title and publisher |
| `Server.ListScenario` | server_test.go:219-285 | after the list test's two creates, the listing has two elements, holds both books and nothing else |
| `Server.DeleteScenario` | server_test.go:322-398 | deleting a created book succeeds and it is gone; deleting a never-created book answers 404 with its message |
| `Server.UpdateScenario` | server_test.go:400-542 | for request times that never go backwards, the update test's requests answer 200 with the payload, 404, then 403, each with its exact message; the last spamming update is accepted exactly when the first spamming update came 5 to 10 seconds after the accepted update, and otherwise answers 425 |

## Findings

| source | as written | input that shows it | evidently intended | confidence | as-written member | corrected member |
|---|---|---|---|---|---|---|
| server_test.go:67-77 | `assertEqualBooks` loops over the indices of `got` only. | `got` = `[]`, `wanted` = the stored books: the loop runs zero times and reports no error. | The two lists have the same length and are equal at every index. | not executed; high that the loop accepts it, medium that a stricter check was meant | `Books.SameBooksAsWrittenAcceptsEmpty` | `Books.SameBooksIsEquivalence` |

## Left out

- HTTP transport: requests, the response recorder, routing and the
  `application/json` content type every response carries. The model
  starts from typed requests and returns typed outcomes. `StatusCode` and
  `Message` give the status and body of each failure.
- JSON encoding and decoding of books.
- The SQLite database, its schema and the temporary file. The catalog is
  the `books` map of `Library`.
- The real clock and `time.Sleep`. Each request carries its time as `now`.
- Parallel tests, and races between concurrent requests on one ISBN.
  Requests are served one at a time.
- The commented-out single-book GET tests, which assert nothing. Find is
  the lookup the deleted check uses.
- List order. `Library.List` promises no order. The list test compares
  two listings index by index, so it relies on the store listing in the
  same order both times. The model does not capture that.
- Storage failures, which no test reaches.
- The server-side functions whose code is not part of this model. Their
  behaviour is inferred from the tests only.
- `Author` is a plain value. In the service it is a pointer that may be
  nil, and the zero Book has a nil author. The model's zero Book has
  empty author names instead.
