/**
 * Clients of the circulation actions: what a caller can conclude from their
 * contracts alone, on a fresh library and across consecutive actions.
 */
module Scenarios {
  import opened Common
  import opened Fines
  import opened Store
  import BorrowLedger
  import RequestBroker
  import ReservationBroker

  /**
   * Issuing a copy and returning it, at any two instants, leaves every copy
   * counter as it was. When the issue is refused nothing is returned.
   */
  method IssueThenReturn(lib: Library, user: UserId, book: BookId, dueDate: Time, issuedBy: UserId,
                         notes: string, issuedAt: Time, returnedAt: Time)
    returns (issued: Result<nat>, returned: Option<Result<BorrowRecord>>)
    requires lib.Valid()
    modifies lib
    ensures lib.Valid()
    ensures issued.Ok? ==>
              returned.Some? && returned.value.Ok? && returned.value.value.status == Returned && lib.books == old(lib.books)
    ensures issued.Err? ==> returned.None? && unchanged(lib)
  {
    issued := BorrowLedger.IssueBook(lib, user, book, dueDate, issuedBy, notes, issuedAt);
    if issued.Err? {
      return issued, None;
    }
    var back := BorrowLedger.ReturnBook(lib, issued.value, returnedAt);
    returned := Some(back);
  }

  /** Refreshing the same record twice at one instant: the second pass finds nothing to change and saves nothing. */
  method RefreshTwice(lib: Library, id: nat, now: Time) returns (firstChanged: bool, secondChanged: bool)
    requires lib.Valid() && id < |lib.records|
    modifies lib
    ensures lib.Valid()
    ensures !secondChanged
    ensures lib.records == old(lib.records)[id := BorrowLedger.Refreshed(old(lib.records[id]), now)]
  {
    var rec;
    rec, firstChanged := BorrowLedger.RefreshRecord(lib, id, now);
    BorrowLedger.RefreshIdempotent(old(lib.records[id]), now);
    rec, secondChanged := BorrowLedger.RefreshRecord(lib, id, now);
  }

  /**
   * A one-copy book is issued for seven days; ten days later the record reads
   * "overdue" with a fine of 3; returning it then keeps the fine at 3 and puts
   * the copy back.
   */
  method OverdueFineScenario(start: Time)
    returns (fineAtIssue: int, copiesOnLoan: int, statusLater: RecordStatus, fineLater: int,
             fineReturned: int, copiesReturned: int)
    ensures fineAtIssue == 0 && copiesOnLoan == 0
    ensures statusLater == Overdue && fineLater == 3
    ensures fineReturned == 3 && copiesReturned == 1
  {
    var lib := new Library(map[1 := 1], {7});
    var issued := BorrowLedger.IssueBook(lib, 7, 1, start + 7 * MS_PER_DAY, 9, "", start);
    assert issued == Ok(0);
    fineAtIssue := lib.records[0].fine;
    copiesOnLoan := lib.books[1];
    var later := start + 10 * MS_PER_DAY;
    var rec, _ := BorrowLedger.RefreshRecord(lib, 0, later);
    statusLater, fineLater := rec.status, rec.fine;
    var returned := BorrowLedger.ReturnBook(lib, 0, later);
    fineReturned := returned.value.fine;
    copiesReturned := lib.books[1];
  }

  /**
   * On a two-copy book, a second pending request by the same user is refused;
   * approving the first takes one copy.
   */
  method RequestScenario(now: Time) returns (second: Result<nat>, approved: Result<BorrowRequest>, copiesLeft: int)
    ensures second == Err(Conflict)
    ensures approved.Ok? && approved.value.status == Approved && approved.value.admin == Some(2)
    ensures copiesLeft == 1
  {
    var lib := new Library(map[1 := 2], {7});
    var first := RequestBroker.CreateRequest(lib, 7, 1, "", now);
    assert first == Ok(0);
    second := RequestBroker.CreateRequest(lib, 7, 1, "", now);
    approved := RequestBroker.ApproveRequest(lib, 0, 2, now);
    copiesLeft := lib.books[1];
  }

  /** A reservation on an out-of-stock book is cancelled; fulfilling it afterwards is refused. */
  method ReservationScenario(now: Time) returns (cancelled: Result<Reservation>, fulfilled: Result<Reservation>)
    ensures cancelled.Ok? && cancelled.value.status == Cancelled
    ensures fulfilled == Err(NotFound)
  {
    var lib := new Library(map[1 := 0], {7});
    var created := ReservationBroker.CreateReservation(lib, 7, 1, now);
    assert created == Ok(0);
    cancelled := ReservationBroker.CancelReservation(lib, 0, now);
    fulfilled := ReservationBroker.FulfillReservation(lib, 0, now);
  }
}
