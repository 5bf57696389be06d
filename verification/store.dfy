/**
 * The persistent collections the controllers read and write: books with their
 * copy counters, users, borrow records, borrow requests and reservations. A
 * document's id is its position in its collection; nothing in the circulation
 * core deletes a record, request or reservation, so a new document is appended.
 */
module Store {
  import opened Common
  import opened Fines

  datatype RequestStatus = Pending | Approved | Rejected

  datatype BorrowRequest = BorrowRequest(
    user: UserId,
    book: BookId,
    status: RequestStatus,
    requestedAt: Time,
    approvedAt: Option<Time>,
    rejectedAt: Option<Time>,
    admin: Option<UserId>,
    notes: string)

  datatype ReservationStatus = Active | Fulfilled | Cancelled

  datatype Reservation = Reservation(
    user: UserId,
    book: BookId,
    status: ReservationStatus,
    reservedAt: Time,
    fulfilledAt: Option<Time>,
    cancelledAt: Option<Time>)

  /**
   * `Model.findOne(filter)`: the position of the first document the filter
   * accepts, scanning the collection in order, or None when no document does.
   */
  function FindOne<T>(docs: seq<T>, accepts: T -> bool): (found: Option<nat>)
    ensures found.Some? ==>
              && found.value < |docs| && accepts(docs[found.value])
              && forall j :: 0 <= j < found.value ==> !accepts(docs[j])
    ensures found.None? ==> forall j :: 0 <= j < |docs| ==> !accepts(docs[j])
    decreases |docs|
  {
    if docs == [] then None
    else if accepts(docs[0]) then Some(0)
    else
      match FindOne(docs[1..], accepts)
      case None => None
      case Some(k) => Some(k + 1)
  }

  /** `BorrowRecord.findOne({user, book, status: {$in: ["borrowed", "overdue"]}})` finds a document. */
  predicate HasActiveBorrow(records: seq<BorrowRecord>, user: UserId, book: BookId): (found: bool)
    ensures found <==>
              exists i :: 0 <= i < |records| && records[i].user == user && records[i].book == book && OnLoan(records[i])
  {
    FindOne(records, (r: BorrowRecord) => r.user == user && r.book == book && OnLoan(r)).Some?
  }

  /** `BorrowRequest.findOne({user, book, status: "pending"})` finds a document. */
  predicate HasPendingRequest(requests: seq<BorrowRequest>, user: UserId, book: BookId): (found: bool)
    ensures found <==>
              exists i :: 0 <= i < |requests| && requests[i].user == user && requests[i].book == book && requests[i].status == Pending
  {
    FindOne(requests, (q: BorrowRequest) => q.user == user && q.book == book && q.status == Pending).Some?
  }

  /** `Reservation.findOne({user, book, status: "active"})` finds a document. */
  predicate HasActiveReservation(reservations: seq<Reservation>, user: UserId, book: BookId): (found: bool)
    ensures found <==>
              exists i :: 0 <= i < |reservations| && reservations[i].user == user && reservations[i].book == book && reservations[i].status == Active
  {
    FindOne(reservations, (v: Reservation) => v.user == user && v.book == book && v.status == Active).Some?
  }

  /** Returned records are kept, unchanged, by a step from `before` to `after`. */
  ghost predicate ReturnedKept(before: seq<BorrowRecord>, after: seq<BorrowRecord>) {
    |before| <= |after| &&
    forall i :: 0 <= i < |before| && before[i].status == Returned ==> after[i] == before[i]
  }

  /** Approved and rejected requests are kept, unchanged. */
  ghost predicate DecidedKept(before: seq<BorrowRequest>, after: seq<BorrowRequest>) {
    |before| <= |after| &&
    forall i :: 0 <= i < |before| && before[i].status != Pending ==> after[i] == before[i]
  }

  /** Fulfilled and cancelled reservations are kept, unchanged. */
  ghost predicate ClosedKept(before: seq<Reservation>, after: seq<Reservation>) {
    |before| <= |after| &&
    forall i :: 0 <= i < |before| && before[i].status != Active ==> after[i] == before[i]
  }

  class Library {
    var books: map<BookId, int>
    var users: set<UserId>
    var records: seq<BorrowRecord>
    var requests: seq<BorrowRequest>
    var reservations: seq<Reservation>

    /**
     * The circulation invariant: no copy counter is negative, every record is
     * consistent, and each (user, book) pair has at most one active borrow, at
     * most one pending request and at most one active reservation.
     */
    ghost predicate Valid()
      reads this
    {
      && (forall b :: b in books ==> books[b] >= 0)
      && (forall i :: 0 <= i < |records| ==> Consistent(records[i]))
      && (forall i, j :: 0 <= i < j < |records| && OnLoan(records[i]) && OnLoan(records[j]) ==>
            records[i].user != records[j].user || records[i].book != records[j].book)
      && (forall i, j :: 0 <= i < j < |requests| && requests[i].status == Pending && requests[j].status == Pending ==>
            requests[i].user != requests[j].user || requests[i].book != requests[j].book)
      && (forall i, j :: 0 <= i < j < |reservations| && reservations[i].status == Active && reservations[j].status == Active ==>
            reservations[i].user != reservations[j].user || reservations[i].book != reservations[j].book)
    }

    /** A catalog and user base with no circulation history yet; the schema demands `copiesAvailable >= 0`. */
    constructor (books: map<BookId, int>, users: set<UserId>)
      requires forall b :: b in books ==> books[b] >= 0
      ensures Valid()
      ensures this.books == books && this.users == users
      ensures records == [] && requests == [] && reservations == []
    {
      this.books := books;
      this.users := users;
      records := [];
      requests := [];
      reservations := [];
    }

    /**
     * `borrowRecord.save()`: the pre-save hook moves a "borrowed" document past
     * its due date to "overdue" and recomputes its fine, then the document is
     * written at `id` (appended when `id` is new).
     */
    method SaveRecord(id: nat, doc: BorrowRecord, now: Time)
      requires id <= |records|
      modifies this
      ensures records == if id == |old(records)| then old(records) + [PreSaved(doc, now)]
                         else old(records)[id := PreSaved(doc, now)]
      ensures books == old(books) && users == old(users)
      ensures requests == old(requests) && reservations == old(reservations)
    {
      var saved := doc;
      if saved.status == Borrowed && now > saved.dueDate {
        saved := saved.(status := Overdue);
      }
      saved := saved.(fine := CalculateFine(saved, now));
      if id == |records| {
        records := records + [saved];
      } else {
        records := records[id := saved];
      }
    }
  }
}
