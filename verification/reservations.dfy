/**
 * The reservation broker: a user reserves a book that has no copy left; the
 * reservation is "active" until an admin fulfils it or it is cancelled, and is
 * never touched again afterwards. Fulfilment only marks the reservation: the
 * copy is handed out by issuing the book.
 */
module ReservationBroker {
  import opened Common
  import opened Store

  /**
   * `createReservation`: refuses a missing book, a book that still has copies,
   * and a second active reservation of the same user for the same book; otherwise
   * records an active reservation and leaves every copy counter alone.
   */
  method CreateReservation(lib: Library, user: UserId, book: BookId, now: Time) returns (res: Result<nat>)
    requires lib.Valid()
    modifies lib
    ensures lib.Valid()
    ensures res == Err(NotFound) <==> book !in old(lib.books)
    ensures res == Err(NotNeeded) <==> book in old(lib.books) && old(lib.books)[book] > 0
    ensures res == Err(Conflict) <==>
              book in old(lib.books) && old(lib.books)[book] <= 0 && HasActiveReservation(old(lib.reservations), user, book)
    ensures res.Ok? <==>
              book in old(lib.books) && old(lib.books)[book] == 0 && !HasActiveReservation(old(lib.reservations), user, book)
    ensures res.Err? ==> unchanged(lib)
    ensures ClosedKept(old(lib.reservations), lib.reservations)
    ensures res.Ok? ==>
              && res.value == |old(lib.reservations)|
              && lib.reservations == old(lib.reservations) + [Reservation(user, book, Active, now, None, None)]
              && lib.books == old(lib.books) && lib.users == old(lib.users)
              && lib.records == old(lib.records) && lib.requests == old(lib.requests)
  {
    if book !in lib.books {
      return Err(NotFound);
    }
    if lib.books[book] > 0 {
      return Err(NotNeeded);
    }
    if HasActiveReservation(lib.reservations, user, book) {
      return Err(Conflict);
    }
    var reservation := Reservation(user, book, Active, now, None, None);
    res := Ok(|lib.reservations|);
    lib.reservations := lib.reservations + [reservation];
  }

  /** `fulfillReservation`: only an active reservation can be fulfilled; no copy counter moves. */
  method FulfillReservation(lib: Library, id: nat, now: Time) returns (res: Result<Reservation>)
    requires lib.Valid()
    modifies lib
    ensures lib.Valid()
    ensures res == Err(NotFound) <==> id >= |old(lib.reservations)| || old(lib.reservations[id]).status != Active
    ensures res.Ok? <==> id < |old(lib.reservations)| && old(lib.reservations[id]).status == Active
    ensures res.Err? ==> unchanged(lib)
    ensures res.Ok? ==>
              && res.value == old(lib.reservations[id]).(status := Fulfilled, fulfilledAt := Some(now))
              && lib.reservations == old(lib.reservations)[id := res.value]
              && lib.books == old(lib.books) && lib.users == old(lib.users)
              && lib.records == old(lib.records) && lib.requests == old(lib.requests)
    ensures ClosedKept(old(lib.reservations), lib.reservations)
  {
    if id >= |lib.reservations| || lib.reservations[id].status != Active {
      return Err(NotFound);
    }
    var reservation := lib.reservations[id];
    reservation := reservation.(status := Fulfilled);
    reservation := reservation.(fulfilledAt := Some(now));
    lib.reservations := lib.reservations[id := reservation];
    res := Ok(reservation);
  }

  /** `cancelReservation`: only an active reservation can be cancelled; no copy counter moves. */
  method CancelReservation(lib: Library, id: nat, now: Time) returns (res: Result<Reservation>)
    requires lib.Valid()
    modifies lib
    ensures lib.Valid()
    ensures res == Err(NotFound) <==> id >= |old(lib.reservations)| || old(lib.reservations[id]).status != Active
    ensures res.Ok? <==> id < |old(lib.reservations)| && old(lib.reservations[id]).status == Active
    ensures res.Err? ==> unchanged(lib)
    ensures res.Ok? ==>
              && res.value == old(lib.reservations[id]).(status := Cancelled, cancelledAt := Some(now))
              && lib.reservations == old(lib.reservations)[id := res.value]
              && lib.books == old(lib.books) && lib.users == old(lib.users)
              && lib.records == old(lib.records) && lib.requests == old(lib.requests)
    ensures ClosedKept(old(lib.reservations), lib.reservations)
  {
    if id >= |lib.reservations| || lib.reservations[id].status != Active {
      return Err(NotFound);
    }
    var reservation := lib.reservations[id];
    reservation := reservation.(status := Cancelled);
    reservation := reservation.(cancelledAt := Some(now));
    lib.reservations := lib.reservations[id := reservation];
    res := Ok(reservation);
  }
}
