# Library circulation engine — a Dafny model

This project models the circulation core of a library web application's backend:

- the BorrowRecord document's fine computation (`calculateFine`) and its pre-save hook;
- the borrow ledger: the lazy refresh that turns a past-due loan "overdue" and recomputes its fine on every read, plus issuing, returning, the record listings and the statistics;
- the borrow-request broker: pending → approved / rejected, where approval takes a copy;
- the reservation broker: active → fulfilled / cancelled, only for books with no copy left.

Timestamps are integer milliseconds (`Common.Time`), and the clock is an explicit `now` argument of every action.

The database is one object, `Store.Library`, with these fields:

- `books`: a map from book id to `copiesAvailable`;
- `users`: the set of existing user ids;
- `records`, `requests`, `reservations`: sequences of datatype values, where a document's id is its index.

Each controller action is a method in `BorrowLedger`, `RequestBroker` or `ReservationBroker` that takes the library. A handler loads a document, updates its fields and saves it. The methods do the same with a local value, which they write back into the library. Every failure is a `Result` error: NotFound, Unavailable, Conflict, AlreadyReturned, NotNeeded or Internal.

Each action keeps `Library.Valid()`. Under it:

- no copy counter is negative;
- every record's fine is non-negative;
- a record has a return date exactly when it is "returned";
- a "borrowed" record owes nothing;
- a returned record's fine is fixed by its due and return dates;
- each (user, book) pair has at most one active borrow, at most one pending request and at most one active reservation.

Terminal documents are never changed again. The predicates `ReturnedKept`, `DecidedKept` and `ClosedKept` state this, and every action that writes a collection ensures the matching predicate.

Behaviour of the code worth knowing:

- **Issuing runs the pre-save hook.** `issueBook` saves the new document through the pre-save hook, so a record issued with a due date already past is stored at once as "overdue", with the fine owed so far (`Fines.IssuedRecord`).
- **Approving a request for a deleted book.** `approveRequest` dereferences the missing populated book, throws and answers "Server error". The model returns `Err(Internal)`.
- **Refresh does not always recompute the fine.** `updateRecordStatusAndFine` recomputes the fine only on its two branches. An "overdue" record whose due date is not past keeps its stored fine (`BorrowLedger.Refreshed`).
- **Statistics read the clock twice.** `getStats` refreshes with one `new Date()` and counts with another. A loan that falls due between the two reads is counted both as "borrowed" and as overdue (`BorrowLedger.StatsSecondClockOvercount`).

## Model

| member | source | states |
|---|---|---|
| `Fines.NewRecord` | backend/controllers/borrowController.js:104-110 | a new document carries the given user, book, due date, issuer and notes, is borrowed now, is "borrowed" with fine 0 and no return date, and is consistent and on loan |
| `Fines.DaysLate` | backend/models/BorrowRecord.js:56-59 | days late is 0 exactly when the instant is not after the due date; otherwise it is the ceiling of the elapsed milliseconds over one day (a started day counts in full) |
| `Fines.FineAt` | backend/models/BorrowRecord.js:56-60 | the fine at an instant is non-negative, and zero exactly when the instant is not after the due date |
| `Fines.DaysLateMonotone` | backend/models/BorrowRecord.js:62-65 | days late never decrease as the instant moves later |
| `Fines.CalculateFine` | backend/models/BorrowRecord.js:54-69 | returned with a date: fine from due to return date; overdue: fine from due date to now; borrowed, or returned without a date: 0; never negative; positive exactly when the relevant date is after the due date |
| `Fines.CalculateFineMonotone` | backend/models/BorrowRecord.js:61-66 | the fine never decreases as `now` grows, and only an overdue record's fine depends on `now` |
| `Fines.HookStatus` | backend/models/BorrowRecord.js:73-75 | "borrowed" becomes "overdue" exactly when `now > dueDate`; "overdue" and "returned" are never changed |
| `Fines.PreSaved` | backend/models/BorrowRecord.js:72-78 | after the hook the status is the derived one, the fine equals `calculateFine` of the updated record and is non-negative, and no other field changes |
| `Fines.PreSavedIdempotent` | backend/models/BorrowRecord.js:72-78 | running the hook twice at the same instant gives the same document as running it once |
| `Fines.IssuedRecord` | backend/models/BorrowRecord.js:15-35 | a new record (defaults "borrowed", fine 0, no return date, borrowedDate = now) is saved as "borrowed" with fine 0 if not yet due, and as "overdue" with fine ≥ 1 if its due date has passed |
| `Fines.PreSavedConsistent` | backend/models/BorrowRecord.js:72-78 | saving a record whose return date is set exactly when it is returned yields a consistent record |
| `Store.Library.constructor` | backend/models/Book.js:9 | a catalog whose copy counters are all ≥ 0 and an empty history satisfy the circulation invariant |
| `Store.Library.SaveRecord` | backend/models/BorrowRecord.js:72-78 | `save()` writes the document as the pre-save hook leaves it, at its id or appended, and touches no other collection |
| `Store.FindOne` | backend/controllers/borrowController.js:94-98 | `findOne` yields the position of the first document the filter accepts, and nothing exactly when no document is accepted |
| `Store.HasActiveBorrow` | backend/controllers/borrowController.js:94-98 | the duplicate-loan lookup succeeds exactly when some record of that user and book is "borrowed" or "overdue" |
| `Store.HasPendingRequest` | backend/controllers/borrowRequestController.js:15-19 | the duplicate-request lookup succeeds exactly when some request of that user and book is "pending" |
| `Store.HasActiveReservation` | backend/controllers/reservationController.js:17-21 | the duplicate-reservation lookup succeeds exactly when some reservation of that user and book is "active" |
| `BorrowLedger.Refreshed` | backend/controllers/borrowController.js:8-45 | refresh rules: not returned and past due → "overdue" with the fine at `now`; not returned and not past due → unchanged; returned with a date → fine fixed by the return date; only status and fine ever change |
| `BorrowLedger.RefreshIdempotent` | backend/controllers/borrowController.js:9-42 | refreshing a refreshed record at the same instant changes nothing |
| `BorrowLedger.RefreshFrozenAfterReturn` | backend/controllers/borrowController.js:28-38 | a returned record's refresh does not depend on the clock, and a consistent returned record is left as it is |
| `BorrowLedger.RefreshLaterSupersedes` | backend/controllers/borrowController.js:12-26 | for a past-due loan, refreshing at t1 and then at t2 ≥ t1 equals refreshing at t2, and the fine does not decrease |
| `BorrowLedger.RefreshSaveIsStable` | backend/controllers/borrowController.js:40-42 | when the refresh changed something and saves it, the pre-save hook changes nothing further |
| `BorrowLedger.RefreshKeepsConsistent` | backend/controllers/borrowController.js:8-45 | refresh keeps a record consistent, on the same user and book, and active exactly when it was |
| `BorrowLedger.RefreshRecord` | backend/controllers/borrowController.js:8-45 | the stored record becomes its refresh; `hasChanges` is true exactly when something changed (and only then is it saved); the invariant holds; nothing else changes |
| `BorrowLedger.EffectivelyOverdue` | backend/controllers/borrowController.js:154-158 | the `$or` query (stored "overdue", or "borrowed" with `dueDate < now`) selects only loans, and exactly the records the refresh leaves "overdue" |
| `BorrowLedger.Matches` | backend/controllers/borrowController.js:49-65 | a user filter selects only that user's records and no filter selects everything; the overdue query selects exactly what the refresh makes "overdue"; the stats query exactly what the refresh does not leave "borrowed" |
| `BorrowLedger.RefreshedMatchesSound` | backend/controllers/borrowController.js:66-71 | every listed record is the refresh of a stored record that the query selects |
| `BorrowLedger.RefreshedMatchesComplete` | backend/controllers/borrowController.js:66-71 | every stored record the query selects appears in the listing, refreshed |
| `BorrowLedger.RefreshedMatchesCount` | backend/controllers/borrowController.js:154-166 | the overdue query lists exactly as many records as are effectively overdue |
| `BorrowLedger.RefreshMatchingKeepsReturned` | backend/controllers/borrowController.js:28-38 | refreshing the selected records of a consistent collection leaves every returned record exactly as it was |
| `BorrowLedger.RefreshQuery` | backend/controllers/borrowController.js:66-71 | every selected record is refreshed in the store and returned in collection order; returned records stay unchanged; the invariant holds |
| `BorrowLedger.GetAllRecords` | backend/controllers/borrowController.js:60-76 | lists exactly the refreshed records matching the status/user filter on their stored status; a user filter lists only that user's records |
| `BorrowLedger.StatusFilterPrecedesRefresh` | backend/controllers/borrowController.js:62-71 | a "borrowed" filter selects a past-due record that the refresh then reports as "overdue" |
| `BorrowLedger.GetMyHistory` | backend/controllers/borrowController.js:47-58 | lists every record of the user, refreshed, and no one else's |
| `BorrowLedger.OverdueFilterKeepsAll` | backend/controllers/borrowController.js:164-167 | after the refresh every overdue candidate is "overdue", so the final status filter drops nothing |
| `BorrowLedger.KeepOverdue` | backend/controllers/borrowController.js:167 | the final filter keeps exactly the "overdue" documents of the listing and nothing else |
| `BorrowLedger.GetOverdue` | backend/controllers/borrowController.js:152-171 | lists only "overdue" records; each comes from an effectively overdue stored record, none is missing, and the count is the number of such records |
| `BorrowLedger.CountStatus` | backend/controllers/borrowController.js:184-195 | a status count is at most the number of records, and zero exactly when no record has that status |
| `BorrowLedger.CountEffectivelyOverdue` | backend/controllers/borrowController.js:187-192 | the `$or` count lies between the stored "overdue" count and that plus the "borrowed" count, reaching the upper bound exactly when every "borrowed" record is past due |
| `BorrowLedger.StatusCountsPartition` | backend/controllers/borrowController.js:184-195 | the borrowed, overdue and returned counts add up to the number of records |
| `BorrowLedger.SumFines` | backend/controllers/borrowController.js:196-204 | with no negative fine, the aggregated fine total is not negative |
| `BorrowLedger.StatsOf` | backend/controllers/borrowController.js:184-198 | on any collection the borrowed, stored-overdue and returned counts sum to the number of records; the overdue total is at least the stored "overdue" count and at most that plus the borrowed total; the fine total is ≥ 0 when no fine is negative |
| `BorrowLedger.OverdueCountWithoutLateBorrowed` | backend/controllers/borrowController.js:187-192 | when no "borrowed" record is past due, the overdue count equals the number of stored "overdue" records |
| `BorrowLedger.StatsOverdueAfterRefresh` | backend/controllers/borrowController.js:175-192 | after the stats refresh, the overdue total counts only "overdue" records and equals the number of records that were effectively overdue before it |
| `BorrowLedger.StatsSecondClockOvercount` | backend/controllers/borrowController.js:175-192 | with the counts taken at a later instant than the refresh, a loan due in between is counted as borrowed and as overdue, so the totals sum to 2 for one record |
| `BorrowLedger.GetStats` | backend/controllers/borrowController.js:173-210 | after the refresh, the totals are the counts of borrowed, effectively overdue and returned records and the fine sum; overdue equals the number of "overdue" records and what `getOverdue` lists; the three counts partition the records; total fines ≥ 0 |
| `BorrowLedger.IssueBook` | backend/controllers/borrowController.js:78-123 | NotFound if user or book is absent; Unavailable if copies ≤ 0; Conflict if the user already has a borrowed/overdue record of the book; each failure changes nothing; success appends exactly one record (the new document through the hook) and takes one copy of that book only |
| `BorrowLedger.ReturnBook` | backend/controllers/borrowController.js:125-150 | NotFound if the record is absent; AlreadyReturned if it is returned; failures change nothing; success sets "returned", stamps returnedDate = now, fixes the fine from due to return date, and puts one copy back only if the book still exists |
| `RequestBroker.CreateRequest` | backend/controllers/borrowRequestController.js:6-31 | Unavailable if the book is absent or has no copy; Conflict if the user already has a pending request for it; success appends one pending request and changes no copy counter |
| `RequestBroker.ApproveRequest` | backend/controllers/borrowRequestController.js:47-71 | NotFound if the request is absent or not pending; Internal if its book was deleted; Unavailable (request stays pending) if no copy is left; success sets "approved", the time and the admin and takes exactly one copy |
| `RequestBroker.RejectRequest` | backend/controllers/borrowRequestController.js:74-90 | NotFound unless the request is pending; success sets "rejected", the time and the admin; no copy counter moves |
| `ReservationBroker.CreateReservation` | backend/controllers/reservationController.js:5-35 | NotFound if the book is absent; NotNeeded if it has copies; Conflict if the user already has an active reservation for it; success (only at 0 copies) appends one active reservation and changes no copy counter |
| `ReservationBroker.FulfillReservation` | backend/controllers/reservationController.js:63-78 | NotFound unless the reservation is active; success sets "fulfilled" and its time; no copy counter moves |
| `ReservationBroker.CancelReservation` | backend/controllers/reservationController.js:81-96 | NotFound unless the reservation is active; success sets "cancelled" and its time |
| `Scenarios.IssueThenReturn` | backend/controllers/borrowController.js:104-142 | a successful issue followed by a return of that record succeeds and leaves every copy counter as it was |
| `Scenarios.RefreshTwice` | backend/controllers/borrowController.js:9-42 | a second refresh of a record at the same instant reports no change, so it does not save |
| `Scenarios.OverdueFineScenario` | backend/controllers/borrowController.js:12-26 | a one-copy book issued for 7 days: fine 0 and 0 copies at issue; 10 days later "overdue" with fine 3; returned then: fine 3 and 1 copy |
| `Scenarios.RequestScenario` | backend/controllers/borrowRequestController.js:15-66 | a second pending request by the same user is a Conflict; approval of the first takes the two-copy book to 1 copy |
| `Scenarios.ReservationScenario` | backend/controllers/reservationController.js:64-89 | after a reservation is cancelled, fulfilling it is refused with NotFound |

## Left out

- Concurrency. Every action is atomic and sequential. The check-then-write race on `copiesAvailable` between concurrent issues or approvals is not modelled, and neither is the parallel refresh of `Promise.all`: records are refreshed one after another.
- Query plumbing. `populate`, `sort` and the "most recent first" or "by due date" orders are not modelled; listings come back in collection order. `countDocuments` and `aggregate` are functions over the record sequence.
- Arithmetic. The source divides milliseconds by a day in floating point and applies `Math.ceil`. The model uses exact integer ceiling division. The two agree for any realistic date difference, since the quotient of two integers below 2^53 never rounds onto an integer.
- Invalid dates (an unparsable date gives `NaN`) are not modelled.
- Instants within a handler. A handler reads `new Date()` several times; the model uses one `now` per action. In `getStats` the refresh and the later counting therefore see the same instant.
- GetStats: its ensures that the borrowed, overdue and returned totals sum to the number of records holds only because the refresh and the counts use the same `now`. The source reads the clock again for the overdue count (borrowController.js line 190), and then a loan that falls due between the two reads is counted twice (`StatsSecondClockOvercount`); the partition is a property of the model, not of the program.
- Clock direction. Later actions are not required to use later instants. `RefreshLaterSupersedes` states what a forward-moving clock gives.
- `getAllRecords` status strings. A status string outside the three statuses (it matches nothing) is not modelled: the filter is an optional `RecordStatus`.
- Failures. Database failures, and the partial writes they could leave (record saved, book not), are not modelled. The one modelled "Server error" is the approval of a request whose book was deleted.
- Callers are trusted. Authentication, roles, route validation and the express-validator checks are not modelled. The issuing staff member and the approving admin are parameters. No ownership check happens on cancel, as in the source.
- `listRequests`, `myRequests`, `listReservations` and `myReservations` are not modelled. They are plain retrievals that change nothing, and their only logic is `populate` and sort order.
- Documents are trimmed to what the core uses. Book title/author/ISBN/category, user profiles and the `createdAt`/`updatedAt` timestamps are not modelled. Book deletion happens elsewhere (bookController is not part of this model), but the actions handle a missing book as the source does.
- Output shapes. JSON bodies and HTTP status codes become `Result` values.
