/**
 * The BorrowRecord document: its status enumeration and defaults, the fine it
 * derives from its dates (`calculateFine`), and the status/fine update its
 * pre-save hook applies on every save.
 */
module Fines {
  import opened Common

  /** Length of a day in milliseconds. */
  const MS_PER_DAY: int := 1000 * 60 * 60 * 24

  /** One currency unit per day late. */
  const FINE_PER_DAY: int := 1

  datatype RecordStatus = Borrowed | Overdue | Returned

  datatype BorrowRecord = BorrowRecord(
    user: UserId,
    book: BookId,
    borrowedDate: Time,
    dueDate: Time,
    returnedDate: Option<Time>,
    status: RecordStatus,
    fine: int,
    issuedBy: UserId,
    notes: string)

  /** A loan that still holds a copy: "borrowed" or "overdue". */
  predicate OnLoan(r: BorrowRecord) {
    r.status == Borrowed || r.status == Overdue
  }

  /** A freshly constructed document: schema defaults for status, fine and returnedDate. */
  function NewRecord(user: UserId, book: BookId, dueDate: Time, issuedBy: UserId, notes: string, now: Time): (r: BorrowRecord)
    ensures r.user == user && r.book == book && r.dueDate == dueDate && r.issuedBy == issuedBy && r.notes == notes
    ensures r.borrowedDate == now && r.status == Borrowed && r.fine == 0 && r.returnedDate.None?
    ensures Consistent(r) && OnLoan(r)
  {
    BorrowRecord(user, book, now, dueDate, None, Borrowed, 0, issuedBy, notes)
  }

  /** Whole days late at instant `at`: a started day counts as a full one, never negative. */
  function DaysLate(dueDate: Time, at: Time): (days: nat)
    ensures days == 0 <==> at <= dueDate
    ensures at > dueDate ==> (days - 1) * MS_PER_DAY < at - dueDate <= days * MS_PER_DAY
  {
    var late := at - dueDate;
    var q := (late + MS_PER_DAY - 1) / MS_PER_DAY;
    assert q * MS_PER_DAY <= late + MS_PER_DAY - 1 < q * MS_PER_DAY + MS_PER_DAY;
    if q > 0 then q else 0
  }

  /** The fine owed for a loan due at `dueDate` and measured at `at`. */
  function FineAt(dueDate: Time, at: Time): (fine: int)
    ensures fine >= 0
    ensures fine == 0 <==> at <= dueDate
  {
    DaysLate(dueDate, at) * FINE_PER_DAY
  }

  /** Days late never decrease as the measuring instant moves later. */
  lemma DaysLateMonotone(dueDate: Time, a1: Time, a2: Time)
    requires a1 <= a2
    ensures DaysLate(dueDate, a1) <= DaysLate(dueDate, a2)
  {
  }

  /**
   * `calculateFine`: a returned record with a return date is fined for the days
   * between due and return; an overdue one for the days between due and now;
   * anything else owes nothing.
   */
  function CalculateFine(r: BorrowRecord, now: Time): (fine: int)
    ensures fine >= 0
    ensures r.status == Returned && r.returnedDate.Some? ==> fine == FineAt(r.dueDate, r.returnedDate.value)
    ensures r.status == Overdue ==> fine == FineAt(r.dueDate, now)
    ensures r.status == Borrowed || (r.status == Returned && r.returnedDate.None?) ==> fine == 0
    ensures fine > 0 <==>
      (r.status == Returned && r.returnedDate.Some? && r.returnedDate.value > r.dueDate) ||
      (r.status == Overdue && now > r.dueDate)
  {
    if r.status == Returned && r.returnedDate.Some? then
      FineAt(r.dueDate, r.returnedDate.value)
    else if r.status == Overdue then
      FineAt(r.dueDate, now)
    else
      0
  }

  /** The fine of an overdue record grows with the clock; a returned record's does not depend on it. */
  lemma CalculateFineMonotone(r: BorrowRecord, now1: Time, now2: Time)
    requires now1 <= now2
    ensures CalculateFine(r, now1) <= CalculateFine(r, now2)
    ensures r.status != Overdue ==> CalculateFine(r, now1) == CalculateFine(r, now2)
  {
  }

  /** Status the pre-save hook assigns: "borrowed" past its due date becomes "overdue". */
  function HookStatus(status: RecordStatus, dueDate: Time, now: Time): (s: RecordStatus)
    ensures status == Borrowed ==> (s == Overdue <==> now > dueDate) && (s == Borrowed <==> now <= dueDate)
    ensures status != Borrowed ==> s == status
  {
    if status == Borrowed && now > dueDate then Overdue else status
  }

  /** The document as the pre-save hook leaves it: status derived, fine recomputed, nothing else touched. */
  function PreSaved(r: BorrowRecord, now: Time): (saved: BorrowRecord)
    ensures saved == r.(status := saved.status, fine := saved.fine)
    ensures saved.status == HookStatus(r.status, r.dueDate, now)
    ensures saved.fine == CalculateFine(saved, now) && saved.fine >= 0
  {
    var s := HookStatus(r.status, r.dueDate, now);
    r.(status := s, fine := CalculateFine(r.(status := s), now))
  }

  /** Saving twice at the same instant is the same as saving once. */
  lemma PreSavedIdempotent(r: BorrowRecord, now: Time)
    ensures PreSaved(PreSaved(r, now), now) == PreSaved(r, now)
  {
  }

  /**
   * What issuing stores: the defaults pass through the hook, so a due date not yet
   * reached gives "borrowed" with fine 0 and a due date already past gives
   * "overdue" with the fine owed so far.
   */
  lemma IssuedRecord(user: UserId, book: BookId, dueDate: Time, issuedBy: UserId, notes: string, now: Time)
    ensures var saved := PreSaved(NewRecord(user, book, dueDate, issuedBy, notes, now), now);
      && saved.user == user && saved.book == book && saved.dueDate == dueDate
      && saved.borrowedDate == now && saved.returnedDate == None && OnLoan(saved)
      && (now <= dueDate ==> saved.status == Borrowed && saved.fine == 0)
      && (now > dueDate ==> saved.status == Overdue && saved.fine == FineAt(dueDate, now) && saved.fine >= 1)
  {
  }

  /**
   * The facts every stored record satisfies: the fine is never negative, a return
   * date is set exactly when the record is returned, a "borrowed" record owes
   * nothing, and a returned record's fine is the one fixed by its return date.
   */
  predicate Consistent(r: BorrowRecord) {
    && r.fine >= 0
    && (r.status == Returned <==> r.returnedDate.Some?)
    && (r.status == Borrowed ==> r.fine == 0)
    && (r.status == Returned ==> r.fine == FineAt(r.dueDate, r.returnedDate.value))
  }

  /** Saving keeps a record consistent as long as it was not returned without a return date. */
  lemma PreSavedConsistent(r: BorrowRecord, now: Time)
    requires r.status == Returned <==> r.returnedDate.Some?
    ensures Consistent(PreSaved(r, now))
  {
  }
}
