/**
 * The borrow-request broker: a user asks for a book that has copies, an admin
 * approves (taking a copy) or rejects. A request is "pending" until decided and
 * is never touched again afterwards.
 */
module RequestBroker {
  import opened Common
  import opened Store

  /**
   * `createRequest`: refuses a missing book or one without copies, and a second
   * pending request of the same user for the same book; otherwise records a
   * pending request and leaves every copy counter alone.
   */
  method CreateRequest(lib: Library, user: UserId, book: BookId, notes: string, now: Time)
    returns (res: Result<nat>)
    requires lib.Valid()
    modifies lib
    ensures lib.Valid()
    ensures res == Err(Unavailable) <==> book !in old(lib.books) || old(lib.books)[book] < 1
    ensures res == Err(Conflict) <==>
              book in old(lib.books) && old(lib.books)[book] >= 1 && HasPendingRequest(old(lib.requests), user, book)
    ensures res.Ok? <==>
              book in old(lib.books) && old(lib.books)[book] >= 1 && !HasPendingRequest(old(lib.requests), user, book)
    ensures res.Err? ==> unchanged(lib)
    ensures DecidedKept(old(lib.requests), lib.requests)
    ensures res.Ok? ==>
              && res.value == |old(lib.requests)|
              && lib.requests == old(lib.requests) + [BorrowRequest(user, book, Pending, now, None, None, None, notes)]
              && lib.books == old(lib.books) && lib.users == old(lib.users)
              && lib.records == old(lib.records) && lib.reservations == old(lib.reservations)
  {
    if book !in lib.books || lib.books[book] < 1 {
      return Err(Unavailable);
    }
    if HasPendingRequest(lib.requests, user, book) {
      return Err(Conflict);
    }
    var request := BorrowRequest(user, book, Pending, now, None, None, None, notes);
    res := Ok(|lib.requests|);
    lib.requests := lib.requests + [request];
  }

  /**
   * `approveRequest`: only a pending request can be approved, and only while its
   * book still has a copy; approval stamps the time and the admin and takes one
   * copy. A request whose book has been deleted makes the handler throw.
   */
  method ApproveRequest(lib: Library, id: nat, admin: UserId, now: Time) returns (res: Result<BorrowRequest>)
    requires lib.Valid()
    modifies lib
    ensures lib.Valid()
    ensures res == Err(NotFound) <==> id >= |old(lib.requests)| || old(lib.requests[id]).status != Pending
    ensures res == Err(Internal) <==>
              id < |old(lib.requests)| && old(lib.requests[id]).status == Pending &&
              old(lib.requests[id]).book !in old(lib.books)
    ensures res == Err(Unavailable) <==>
              id < |old(lib.requests)| && old(lib.requests[id]).status == Pending &&
              old(lib.requests[id]).book in old(lib.books) && old(lib.books)[old(lib.requests[id]).book] < 1
    ensures res.Ok? <==>
              id < |old(lib.requests)| && old(lib.requests[id]).status == Pending &&
              old(lib.requests[id]).book in old(lib.books) && old(lib.books)[old(lib.requests[id]).book] >= 1
    ensures res.Err? ==> unchanged(lib)
    ensures res.Ok? ==>
              var q := old(lib.requests[id]);
              && q.status == Pending && q.book in old(lib.books) && old(lib.books)[q.book] >= 1
              && res.value == q.(status := Approved, approvedAt := Some(now), admin := Some(admin))
              && lib.requests == old(lib.requests)[id := res.value]
              && lib.books == old(lib.books)[q.book := old(lib.books)[q.book] - 1]
              && lib.users == old(lib.users)
              && lib.records == old(lib.records) && lib.reservations == old(lib.reservations)
    ensures DecidedKept(old(lib.requests), lib.requests)
  {
    if id >= |lib.requests| || lib.requests[id].status != Pending {
      return Err(NotFound);
    }
    var request := lib.requests[id];
    if request.book !in lib.books {
      return Err(Internal);
    }
    if lib.books[request.book] < 1 {
      return Err(Unavailable);
    }
    request := request.(status := Approved);
    request := request.(approvedAt := Some(now));
    request := request.(admin := Some(admin));
    lib.requests := lib.requests[id := request];
    lib.books := lib.books[request.book := lib.books[request.book] - 1];
    res := Ok(request);
  }

  /** `rejectRequest`: only a pending request can be rejected; no copy counter moves. */
  method RejectRequest(lib: Library, id: nat, admin: UserId, now: Time) returns (res: Result<BorrowRequest>)
    requires lib.Valid()
    modifies lib
    ensures lib.Valid()
    ensures res == Err(NotFound) <==> id >= |old(lib.requests)| || old(lib.requests[id]).status != Pending
    ensures res.Ok? <==> id < |old(lib.requests)| && old(lib.requests[id]).status == Pending
    ensures res.Err? ==> unchanged(lib)
    ensures res.Ok? ==>
              && res.value == old(lib.requests[id]).(status := Rejected, rejectedAt := Some(now), admin := Some(admin))
              && lib.requests == old(lib.requests)[id := res.value]
              && lib.books == old(lib.books) && lib.users == old(lib.users)
              && lib.records == old(lib.records) && lib.reservations == old(lib.reservations)
    ensures DecidedKept(old(lib.requests), lib.requests)
  {
    if id >= |lib.requests| || lib.requests[id].status != Pending {
      return Err(NotFound);
    }
    var request := lib.requests[id];
    request := request.(status := Rejected);
    request := request.(rejectedAt := Some(now));
    request := request.(admin := Some(admin));
    lib.requests := lib.requests[id := request];
    res := Ok(request);
  }
}
