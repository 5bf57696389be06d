/** Identifiers, timestamps and the typed outcome every circulation action returns. */
module Common {

  /** A JavaScript `Date` as integer milliseconds since the epoch. */
  type Time = int

  /** Document identities of the User and Book collections. */
  type UserId = nat
  type BookId = nat

  datatype Option<T> = None | Some(value: T)

  /** The failures the controllers answer with (a 4xx status and a message, or a 500). */
  datatype Error =
    | NotFound         // the referenced user, book, record, request or reservation is absent (or already processed)
    | Unavailable      // no copy can be handed out
    | Conflict         // a duplicate active borrow, pending request or active reservation exists
    | AlreadyReturned  // the borrow record is already closed
    | NotNeeded        // a reservation was asked for a book that still has copies
    | Internal         // the handler threw and answered "Server error"

  datatype Result<T> = Ok(value: T) | Err(error: Error)
}
