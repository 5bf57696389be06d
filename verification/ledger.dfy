/**
 * The borrow ledger: the lazy overdue/fine refresh applied to every record that
 * is read, issuing and returning books against the copy counters, and the
 * listing and statistics queries.
 */
module BorrowLedger {
  import opened Common
  import opened Fines
  import opened Store

  // ---------------------------------------------------------------------------
  // Refresh of one record
  // ---------------------------------------------------------------------------

  /**
   * `updateRecordStatusAndFine` on a stored document: a record that is not
   * returned and whose due date has passed becomes "overdue" with the fine owed
   * now; a returned record gets the fine fixed by its return date; nothing
   * else changes.
   */
  function Refreshed(r: BorrowRecord, now: Time): (r': BorrowRecord)
    ensures r' == r.(status := r'.status, fine := r'.fine)
    ensures r.status != Returned && now > r.dueDate ==> r'.status == Overdue && r'.fine == FineAt(r.dueDate, now)
    ensures r.status != Returned && now <= r.dueDate ==> r' == r
    ensures r.status == Returned && r.returnedDate.Some? ==>
              r'.status == Returned && r'.fine == FineAt(r.dueDate, r.returnedDate.value)
    ensures r.status == Returned && r.returnedDate.None? ==> r' == r
  {
    if r.status != Returned && now > r.dueDate then
      r.(status := Overdue, fine := FineAt(r.dueDate, now))
    else if r.status == Returned && r.returnedDate.Some? then
      r.(fine := FineAt(r.dueDate, r.returnedDate.value))
    else
      r
  }

  /** A second refresh at the same instant finds nothing to change, so it does not save. */
  lemma RefreshIdempotent(r: BorrowRecord, now: Time)
    ensures Refreshed(Refreshed(r, now), now) == Refreshed(r, now)
  {
  }

  /** Once returned, the refreshed fine depends on the due and return dates only, never on the clock. */
  lemma RefreshFrozenAfterReturn(r: BorrowRecord, now1: Time, now2: Time)
    requires r.status == Returned
    ensures Refreshed(r, now1) == Refreshed(r, now2)
    ensures Consistent(r) ==> Refreshed(r, now1) == r
  {
  }

  /**
   * While a loan is past due, a later refresh overrides an earlier one and its
   * fine is at least as large.
   */
  lemma RefreshLaterSupersedes(r: BorrowRecord, now1: Time, now2: Time)
    requires r.status != Returned && r.dueDate < now1 <= now2
    ensures Refreshed(Refreshed(r, now1), now2) == Refreshed(r, now2)
    ensures Refreshed(r, now1).fine <= Refreshed(r, now2).fine
  {
  }

  /** When a refresh changes a record and saves it, the pre-save hook leaves the refreshed values as they are. */
  lemma RefreshSaveIsStable(r: BorrowRecord, now: Time)
    requires Refreshed(r, now) != r
    ensures PreSaved(Refreshed(r, now), now) == Refreshed(r, now)
  {
  }

  /** A refresh keeps a record consistent, on the same loan, and on loan exactly when it was. */
  lemma RefreshKeepsConsistent(r: BorrowRecord, now: Time)
    requires Consistent(r)
    ensures Consistent(Refreshed(r, now))
    ensures Refreshed(r, now).user == r.user && Refreshed(r, now).book == r.book
    ensures OnLoan(Refreshed(r, now)) == OnLoan(r)
  {
  }

  /**
   * `updateRecordStatusAndFine(records[id])`: updates status and fine in place,
   * tracking whether anything changed, and saves (running the pre-save hook) only then.
   */
  method RefreshRecord(lib: Library, id: nat, now: Time) returns (rec: BorrowRecord, hasChanges: bool)
    requires lib.Valid() && id < |lib.records|
    modifies lib
    ensures lib.Valid()
    ensures rec == Refreshed(old(lib.records[id]), now)
    ensures hasChanges <==> rec != old(lib.records[id])
    ensures lib.records == old(lib.records)[id := rec]
    ensures lib.books == old(lib.books) && lib.users == old(lib.users)
    ensures lib.requests == old(lib.requests) && lib.reservations == old(lib.reservations)
  {
    rec := lib.records[id];
    hasChanges := false;
    if rec.status != Returned && now > rec.dueDate {
      if rec.status != Overdue {
        rec := rec.(status := Overdue);
        hasChanges := true;
      }
      var newFine := DaysLate(rec.dueDate, now) * FINE_PER_DAY;
      if rec.fine != newFine {
        rec := rec.(fine := newFine);
        hasChanges := true;
      }
    }
    if rec.status == Returned && rec.returnedDate.Some? {
      var newFine := DaysLate(rec.dueDate, rec.returnedDate.value) * FINE_PER_DAY;
      if rec.fine != newFine {
        rec := rec.(fine := newFine);
        hasChanges := true;
      }
    }
    ghost var before := old(lib.records[id]);
    assert rec == Refreshed(before, now);
    RefreshKeepsConsistent(before, now);
    if hasChanges {
      RefreshSaveIsStable(before, now);
      lib.SaveRecord(id, rec, now);
    }
    assert lib.records == old(lib.records)[id := rec];
  }

  // ---------------------------------------------------------------------------
  // Queries: find, then refresh every document found
  // ---------------------------------------------------------------------------

  /** The three `BorrowRecord.find` queries of the ledger. */
  datatype Query =
    | Filter(status: Option<RecordStatus>, user: Option<UserId>)  // getAllRecords, getMyHistory
    | OverdueCandidates                                            // getOverdue
    | StatsCandidates                                              // getStats

  /** Stored "overdue", or stored "borrowed" with the due date before now. */
  predicate EffectivelyOverdue(r: BorrowRecord, now: Time): (b: bool)
    ensures b ==> OnLoan(r)
    ensures b <==> Refreshed(r, now).status == Overdue
  {
    r.status == Overdue || (r.status == Borrowed && r.dueDate < now)
  }

  /** Whether a query selects a document, judged on its STORED status. */
  predicate Matches(q: Query, r: BorrowRecord, now: Time): (b: bool)
    ensures q.Filter? && q.user.Some? && b ==> r.user == q.user.value
    ensures q == Filter(None, None) ==> b
    ensures q == OverdueCandidates ==> (b <==> Refreshed(r, now).status == Overdue)
    ensures q == StatsCandidates ==> (b <==> Refreshed(r, now).status != Borrowed)
  {
    match q
    case Filter(status, user) =>
      (status.None? || r.status == status.value) && (user.None? || r.user == user.value)
    case OverdueCandidates => EffectivelyOverdue(r, now)
    case StatsCandidates => EffectivelyOverdue(r, now) || r.status == Returned
  }

  function RefreshIf(q: Query, r: BorrowRecord, now: Time): BorrowRecord {
    if Matches(q, r, now) then Refreshed(r, now) else r
  }

  /** The collection after every document the query selects has been refreshed. */
  function RefreshMatching(recs: seq<BorrowRecord>, q: Query, now: Time): seq<BorrowRecord> {
    seq(|recs|, i requires 0 <= i < |recs| => RefreshIf(q, recs[i], now))
  }

  /** The refreshed documents the query selects, in collection order. */
  function RefreshedMatches(recs: seq<BorrowRecord>, q: Query, now: Time): seq<BorrowRecord>
    decreases |recs|
  {
    if recs == [] then []
    else
      var last := recs[|recs| - 1];
      RefreshedMatches(recs[..|recs| - 1], q, now) + (if Matches(q, last, now) then [Refreshed(last, now)] else [])
  }

  /** Every listed document is the refresh of a stored document the query selects. */
  lemma {:induction false} RefreshedMatchesSound(recs: seq<BorrowRecord>, q: Query, now: Time, r: BorrowRecord)
    requires r in RefreshedMatches(recs, q, now)
    ensures exists i :: 0 <= i < |recs| && Matches(q, recs[i], now) && r == Refreshed(recs[i], now)
    decreases |recs|
  {
    var n := |recs| - 1;
    var prefix := recs[..n];
    if r in RefreshedMatches(prefix, q, now) {
      RefreshedMatchesSound(prefix, q, now, r);
      var i :| 0 <= i < |prefix| && Matches(q, prefix[i], now) && r == Refreshed(prefix[i], now);
      assert recs[i] == prefix[i];
    } else {
      assert Matches(q, recs[n], now) && r == Refreshed(recs[n], now);
    }
  }

  /** Every stored document the query selects is listed, refreshed. */
  lemma {:induction false} RefreshedMatchesComplete(recs: seq<BorrowRecord>, q: Query, now: Time, i: nat)
    requires i < |recs| && Matches(q, recs[i], now)
    ensures Refreshed(recs[i], now) in RefreshedMatches(recs, q, now)
    decreases |recs|
  {
    var n := |recs| - 1;
    if i < n {
      RefreshedMatchesComplete(recs[..n], q, now, i);
    }
  }

  /** The listing holds exactly as many documents as the query selects. */
  lemma {:induction false} RefreshedMatchesCount(recs: seq<BorrowRecord>, now: Time)
    ensures |RefreshedMatches(recs, OverdueCandidates, now)| == CountEffectivelyOverdue(recs, now)
    decreases |recs|
  {
    if recs != [] {
      RefreshedMatchesCount(recs[..|recs| - 1], now);
    }
  }

  /** Extending the scanned prefix by one document extends the listing by its refresh, when selected. */
  lemma RefreshedMatchesStep(recs: seq<BorrowRecord>, q: Query, now: Time, i: nat)
    requires i < |recs|
    ensures RefreshedMatches(recs[..i + 1], q, now) ==
              RefreshedMatches(recs[..i], q, now) + (if Matches(q, recs[i], now) then [Refreshed(recs[i], now)] else [])
  {
    assert recs[..i + 1][..i] == recs[..i];
  }

  /** Refreshing the selected documents leaves every returned record as it was. */
  lemma RefreshMatchingKeepsReturned(recs: seq<BorrowRecord>, q: Query, now: Time)
    requires forall i :: 0 <= i < |recs| ==> Consistent(recs[i])
    ensures ReturnedKept(recs, RefreshMatching(recs, q, now))
  {
    forall k | 0 <= k < |recs| && recs[k].status == Returned
      ensures RefreshMatching(recs, q, now)[k] == recs[k]
    {
      RefreshFrozenAfterReturn(recs[k], now, now);
    }
  }

  /**
   * Refreshes, in place, every document the query selects and returns them.
   * This is the `find(...)` followed by `Promise.all(records.map(updateRecordStatusAndFine))`
   * of the ledger's read handlers, done one document after another.
   */
  method RefreshQuery(lib: Library, q: Query, now: Time) returns (found: seq<BorrowRecord>)
    requires lib.Valid()
    modifies lib
    ensures lib.Valid()
    ensures lib.records == RefreshMatching(old(lib.records), q, now)
    ensures found == RefreshedMatches(old(lib.records), q, now)
    ensures ReturnedKept(old(lib.records), lib.records)
    ensures lib.books == old(lib.books) && lib.users == old(lib.users)
    ensures lib.requests == old(lib.requests) && lib.reservations == old(lib.reservations)
  {
    ghost var recs := lib.records;
    found := [];
    var i := 0;
    while i < |lib.records|
      invariant 0 <= i <= |recs| == |lib.records|
      invariant lib.Valid()
      invariant forall k :: 0 <= k < i ==> lib.records[k] == RefreshIf(q, recs[k], now)
      invariant forall k :: i <= k < |recs| ==> lib.records[k] == recs[k]
      invariant found == RefreshedMatches(recs[..i], q, now)
      invariant lib.books == old(lib.books) && lib.users == old(lib.users)
      invariant lib.requests == old(lib.requests) && lib.reservations == old(lib.reservations)
    {
      RefreshedMatchesStep(recs, q, now, i);
      if Matches(q, lib.records[i], now) {
        var rec, _ := RefreshRecord(lib, i, now);
        found := found + [rec];
      }
      i := i + 1;
    }
    assert recs[..i] == recs;
    assert lib.records == RefreshMatching(recs, q, now);
    RefreshMatchingKeepsReturned(recs, q, now);
  }

  /**
   * `getAllRecords`: the records matching the optional status and user filters,
   * each refreshed. The filter is applied to the stored status, before the refresh.
   */
  method GetAllRecords(lib: Library, status: Option<RecordStatus>, user: Option<UserId>, now: Time)
    returns (found: seq<BorrowRecord>)
    requires lib.Valid()
    modifies lib
    ensures lib.Valid()
    ensures found == RefreshedMatches(old(lib.records), Filter(status, user), now)
    ensures lib.records == RefreshMatching(old(lib.records), Filter(status, user), now)
    ensures forall r :: r in found ==> user.None? || r.user == user.value
    ensures forall i :: 0 <= i < |old(lib.records)| && Matches(Filter(status, user), old(lib.records[i]), now) ==>
              Refreshed(old(lib.records[i]), now) in found
    ensures ReturnedKept(old(lib.records), lib.records)
    ensures lib.books == old(lib.books) && lib.users == old(lib.users)
    ensures lib.requests == old(lib.requests) && lib.reservations == old(lib.reservations)
  {
    ghost var recs := lib.records;
    found := RefreshQuery(lib, Filter(status, user), now);
    forall r | r in found ensures user.None? || r.user == user.value {
      RefreshedMatchesSound(recs, Filter(status, user), now, r);
    }
    forall i | 0 <= i < |recs| && Matches(Filter(status, user), recs[i], now)
      ensures Refreshed(recs[i], now) in found
    {
      RefreshedMatchesComplete(recs, Filter(status, user), now, i);
    }
  }

  /** The filter sees the stored status: a "borrowed" filter lists a record the refresh has just made "overdue". */
  lemma StatusFilterPrecedesRefresh(r: BorrowRecord, now: Time)
    requires r.status == Borrowed && r.dueDate < now
    ensures Matches(Filter(Some(Borrowed), None), r, now)
    ensures Refreshed(r, now).status == Overdue
  {
  }

  /** `getMyHistory`: every record of the user, refreshed, and no one else's. */
  method GetMyHistory(lib: Library, user: UserId, now: Time) returns (found: seq<BorrowRecord>)
    requires lib.Valid()
    modifies lib
    ensures lib.Valid()
    ensures found == RefreshedMatches(old(lib.records), Filter(None, Some(user)), now)
    ensures forall r :: r in found ==> r.user == user
    ensures forall i :: 0 <= i < |old(lib.records)| && old(lib.records[i]).user == user ==>
              Refreshed(old(lib.records[i]), now) in found
    ensures ReturnedKept(old(lib.records), lib.records)
    ensures lib.books == old(lib.books) && lib.users == old(lib.users)
    ensures lib.requests == old(lib.requests) && lib.reservations == old(lib.reservations)
  {
    found := GetAllRecords(lib, None, Some(user), now);
  }

  /** `.filter((r) => r.status === "overdue")`. */
  function KeepOverdue(rs: seq<BorrowRecord>): (kept: seq<BorrowRecord>)
    ensures |kept| <= |rs|
    ensures forall r :: r in kept ==> r in rs && r.status == Overdue
    ensures forall r :: r in rs && r.status == Overdue ==> r in kept
    decreases |rs|
  {
    if rs == [] then []
    else KeepOverdue(rs[..|rs| - 1]) + (if rs[|rs| - 1].status == Overdue then [rs[|rs| - 1]] else [])
  }

  /** After the refresh every candidate of the overdue query is "overdue", so the final filter drops nothing. */
  lemma {:induction false} OverdueFilterKeepsAll(recs: seq<BorrowRecord>, now: Time)
    ensures KeepOverdue(RefreshedMatches(recs, OverdueCandidates, now)) == RefreshedMatches(recs, OverdueCandidates, now)
    ensures forall r :: r in RefreshedMatches(recs, OverdueCandidates, now) ==> r.status == Overdue
    decreases |recs|
  {
    if recs != [] {
      var n := |recs| - 1;
      var prefix := RefreshedMatches(recs[..n], OverdueCandidates, now);
      OverdueFilterKeepsAll(recs[..n], now);
      var tail := if Matches(OverdueCandidates, recs[n], now) then [Refreshed(recs[n], now)] else [];
      assert RefreshedMatches(recs, OverdueCandidates, now) == prefix + tail;
      KeepOverdueAppend(prefix, tail);
    }
  }

  lemma {:induction false} KeepOverdueAppend(a: seq<BorrowRecord>, b: seq<BorrowRecord>)
    requires |b| <= 1
    ensures KeepOverdue(a + b) == KeepOverdue(a) + KeepOverdue(b)
  {
    if b != [] {
      assert (a + b)[..|a + b| - 1] == a;
      assert b[..0] == [];
    } else {
      assert a + b == a;
    }
  }

  /**
   * `getOverdue`: every effectively overdue record, refreshed; each listed one is
   * "overdue" and none is left out.
   */
  method GetOverdue(lib: Library, now: Time) returns (overdue: seq<BorrowRecord>)
    requires lib.Valid()
    modifies lib
    ensures lib.Valid()
    ensures overdue == RefreshedMatches(old(lib.records), OverdueCandidates, now)
    ensures lib.records == RefreshMatching(old(lib.records), OverdueCandidates, now)
    ensures forall r :: r in overdue ==> r.status == Overdue
    ensures forall r :: r in overdue ==>
              (exists i :: 0 <= i < |old(lib.records)| &&
                 EffectivelyOverdue(old(lib.records[i]), now) && r == Refreshed(old(lib.records[i]), now))
    ensures forall i :: 0 <= i < |old(lib.records)| && EffectivelyOverdue(old(lib.records[i]), now) ==>
              Refreshed(old(lib.records[i]), now) in overdue
    ensures |overdue| == CountEffectivelyOverdue(old(lib.records), now)
    ensures ReturnedKept(old(lib.records), lib.records)
    ensures lib.books == old(lib.books) && lib.users == old(lib.users)
    ensures lib.requests == old(lib.requests) && lib.reservations == old(lib.reservations)
  {
    ghost var recs := lib.records;
    var found := RefreshQuery(lib, OverdueCandidates, now);
    overdue := KeepOverdue(found);
    OverdueFilterKeepsAll(recs, now);
    RefreshedMatchesCount(recs, now);
    forall r | r in overdue
      ensures exists i :: 0 <= i < |recs| && EffectivelyOverdue(recs[i], now) && r == Refreshed(recs[i], now)
    {
      RefreshedMatchesSound(recs, OverdueCandidates, now, r);
    }
    forall i | 0 <= i < |recs| && EffectivelyOverdue(recs[i], now)
      ensures Refreshed(recs[i], now) in overdue
    {
      RefreshedMatchesComplete(recs, OverdueCandidates, now, i);
    }
  }

  // ---------------------------------------------------------------------------
  // Statistics
  // ---------------------------------------------------------------------------

  datatype Stats = Stats(totalBorrowed: nat, totalOverdue: nat, totalReturned: nat, totalFines: int)

  function CountStatus(recs: seq<BorrowRecord>, s: RecordStatus): (n: nat)
    ensures n <= |recs|
    ensures n == 0 <==> forall i :: 0 <= i < |recs| ==> recs[i].status != s
    decreases |recs|
  {
    if recs == [] then 0
    else CountStatus(recs[..|recs| - 1], s) + (if recs[|recs| - 1].status == s then 1 else 0)
  }

  function CountEffectivelyOverdue(recs: seq<BorrowRecord>, now: Time): (n: nat)
    ensures CountStatus(recs, Overdue) <= n <= CountStatus(recs, Overdue) + CountStatus(recs, Borrowed)
    ensures n == CountStatus(recs, Overdue) + CountStatus(recs, Borrowed) <==>
              forall i :: 0 <= i < |recs| && recs[i].status == Borrowed ==> recs[i].dueDate < now
    decreases |recs|
  {
    if recs == [] then 0
    else CountEffectivelyOverdue(recs[..|recs| - 1], now) + (if EffectivelyOverdue(recs[|recs| - 1], now) then 1 else 0)
  }

  function SumFines(recs: seq<BorrowRecord>): (total: int)
    ensures (forall i :: 0 <= i < |recs| ==> recs[i].fine >= 0) ==> total >= 0
    decreases |recs|
  {
    if recs == [] then 0 else SumFines(recs[..|recs| - 1]) + recs[|recs| - 1].fine
  }

  /** The four `countDocuments` / `aggregate` answers over the collection. */
  function StatsOf(recs: seq<BorrowRecord>, now: Time): (st: Stats)
    ensures st.totalBorrowed + CountStatus(recs, Overdue) + st.totalReturned == |recs|
    ensures CountStatus(recs, Overdue) <= st.totalOverdue <= CountStatus(recs, Overdue) + st.totalBorrowed
    ensures (forall i :: 0 <= i < |recs| ==> recs[i].fine >= 0) ==> st.totalFines >= 0
  {
    StatusCountsPartition(recs);
    Stats(CountStatus(recs, Borrowed), CountEffectivelyOverdue(recs, now), CountStatus(recs, Returned), SumFines(recs))
  }

  /** Every record is exactly one of "borrowed", "overdue" or "returned". */
  lemma {:induction false} StatusCountsPartition(recs: seq<BorrowRecord>)
    ensures CountStatus(recs, Borrowed) + CountStatus(recs, Overdue) + CountStatus(recs, Returned) == |recs|
    decreases |recs|
  {
    if recs != [] {
      StatusCountsPartition(recs[..|recs| - 1]);
    }
  }

  /** When no "borrowed" record is past due, the overdue count is the count of stored "overdue". */
  lemma {:induction false} OverdueCountWithoutLateBorrowed(recs: seq<BorrowRecord>, now: Time)
    requires forall i :: 0 <= i < |recs| ==> !(recs[i].status == Borrowed && recs[i].dueDate < now)
    ensures CountEffectivelyOverdue(recs, now) == CountStatus(recs, Overdue)
    decreases |recs|
  {
    if recs != [] {
      OverdueCountWithoutLateBorrowed(recs[..|recs| - 1], now);
    }
  }

  /** Two collections that agree, position by position, on being effectively overdue have equal counts. */
  lemma {:induction false} OverdueCountPointwise(a: seq<BorrowRecord>, b: seq<BorrowRecord>, now: Time)
    requires |a| == |b|
    requires forall i :: 0 <= i < |a| ==> EffectivelyOverdue(a[i], now) == EffectivelyOverdue(b[i], now)
    ensures CountEffectivelyOverdue(a, now) == CountEffectivelyOverdue(b, now)
    decreases |a|
  {
    if a != [] {
      OverdueCountPointwise(a[..|a| - 1], b[..|b| - 1], now);
    }
  }

  /**
   * The statistics' overdue total after their refresh: it counts the records stored
   * "overdue", no "borrowed" one is counted, and it equals the number of records
   * that were effectively overdue before the refresh (what `getOverdue` lists).
   */
  lemma StatsOverdueAfterRefresh(recs: seq<BorrowRecord>, now: Time)
    ensures var after := RefreshMatching(recs, StatsCandidates, now);
      && CountEffectivelyOverdue(after, now) == CountStatus(after, Overdue)
      && CountEffectivelyOverdue(after, now) == CountEffectivelyOverdue(recs, now)
  {
    var after := RefreshMatching(recs, StatsCandidates, now);
    OverdueCountWithoutLateBorrowed(after, now);
    OverdueCountPointwise(after, recs, now);
  }

  /**
   * The clock read twice: a loan due at `t`, refreshed at `t` (not yet past due,
   * so left "borrowed") and counted at `t + 1`, is counted once as "borrowed" and
   * once as overdue, so the three totals exceed the number of records.
   */
  lemma StatsSecondClockOvercount(t: Time)
    ensures var r := BorrowRecord(0, 0, t - 1, t, None, Borrowed, 0, 0, "");
      var st := StatsOf(RefreshMatching([r], StatsCandidates, t), t + 1);
      st.totalBorrowed == 1 && st.totalOverdue == 1 && st.totalBorrowed + st.totalOverdue + st.totalReturned == 2
  {
    var r := BorrowRecord(0, 0, t - 1, t, None, Borrowed, 0, 0, "");
    var after := RefreshMatching([r], StatsCandidates, t);
    assert after == [r];
    assert after[..0] == [];
  }

  /**
   * `getStats`: refreshes the overdue candidates and the returned records, then
   * counts "borrowed", effectively overdue and "returned" records and sums all fines.
   */
  method GetStats(lib: Library, now: Time) returns (stats: Stats)
    requires lib.Valid()
    modifies lib
    ensures lib.Valid()
    ensures lib.records == RefreshMatching(old(lib.records), StatsCandidates, now)
    ensures stats == StatsOf(lib.records, now)
    ensures stats.totalOverdue == CountStatus(lib.records, Overdue)
    ensures stats.totalOverdue == CountEffectivelyOverdue(old(lib.records), now)
    ensures stats.totalBorrowed + stats.totalOverdue + stats.totalReturned == |lib.records|
    ensures stats.totalFines >= 0
    ensures ReturnedKept(old(lib.records), lib.records)
    ensures lib.books == old(lib.books) && lib.users == old(lib.users)
    ensures lib.requests == old(lib.requests) && lib.reservations == old(lib.reservations)
  {
    ghost var recs := lib.records;
    var _ := RefreshQuery(lib, StatsCandidates, now);
    stats := StatsOf(lib.records, now);
    StatsOverdueAfterRefresh(recs, now);
    StatusCountsPartition(lib.records);
  }

  // ---------------------------------------------------------------------------
  // Issue and return
  // ---------------------------------------------------------------------------

  /**
   * `issueBook`: checks the user, the book, a free copy and that the user does not
   * already hold this book; then saves a new record (through the pre-save hook) and
   * takes one copy off the shelf.
   */
  method IssueBook(lib: Library, user: UserId, book: BookId, dueDate: Time, issuedBy: UserId, notes: string, now: Time)
    returns (res: Result<nat>)
    requires lib.Valid()
    modifies lib
    ensures lib.Valid()
    ensures res == Err(NotFound) <==> user !in old(lib.users) || book !in old(lib.books)
    ensures res == Err(Unavailable) <==>
              user in old(lib.users) && book in old(lib.books) && old(lib.books)[book] <= 0
    ensures res == Err(Conflict) <==>
              user in old(lib.users) && book in old(lib.books) && old(lib.books)[book] > 0 &&
              HasActiveBorrow(old(lib.records), user, book)
    ensures res.Ok? <==>
              user in old(lib.users) && book in old(lib.books) && old(lib.books)[book] > 0 &&
              !HasActiveBorrow(old(lib.records), user, book)
    ensures res.Err? ==> unchanged(lib)
    ensures ReturnedKept(old(lib.records), lib.records)
    ensures res.Ok? ==>
              && res.value == |old(lib.records)|
              && lib.records == old(lib.records) + [PreSaved(NewRecord(user, book, dueDate, issuedBy, notes, now), now)]
              && lib.books == old(lib.books)[book := old(lib.books)[book] - 1]
              && lib.users == old(lib.users)
              && lib.requests == old(lib.requests) && lib.reservations == old(lib.reservations)
  {
    if user !in lib.users {
      return Err(NotFound);
    }
    if book !in lib.books {
      return Err(NotFound);
    }
    if lib.books[book] <= 0 {
      return Err(Unavailable);
    }
    if HasActiveBorrow(lib.records, user, book) {
      return Err(Conflict);
    }
    var doc := NewRecord(user, book, dueDate, issuedBy, notes, now);
    var id := |lib.records|;
    IssuedRecord(user, book, dueDate, issuedBy, notes, now);
    PreSavedConsistent(doc, now);
    lib.SaveRecord(id, doc, now);
    lib.books := lib.books[book := lib.books[book] - 1];
    res := Ok(id);
  }

  /**
   * `returnBook`: closes an open record, stamping the return date and the fine
   * it fixes, and puts the copy back when the book still exists.
   */
  method ReturnBook(lib: Library, id: nat, now: Time) returns (res: Result<BorrowRecord>)
    requires lib.Valid()
    modifies lib
    ensures lib.Valid()
    ensures res == Err(NotFound) <==> id >= |old(lib.records)|
    ensures res == Err(AlreadyReturned) <==> id < |old(lib.records)| && old(lib.records[id]).status == Returned
    ensures res.Ok? <==> id < |old(lib.records)| && old(lib.records[id]).status != Returned
    ensures res.Err? ==> unchanged(lib)
    ensures res.Ok? ==>
              var r := old(lib.records[id]);
              && res.value == r.(status := Returned, returnedDate := Some(now), fine := FineAt(r.dueDate, now))
              && lib.records == old(lib.records)[id := res.value]
              && lib.books == (if r.book in old(lib.books) then old(lib.books)[r.book := old(lib.books)[r.book] + 1]
                               else old(lib.books))
              && lib.users == old(lib.users)
              && lib.requests == old(lib.requests) && lib.reservations == old(lib.reservations)
    ensures ReturnedKept(old(lib.records), lib.records)
  {
    if id >= |lib.records| {
      return Err(NotFound);
    }
    var doc := lib.records[id];
    if doc.status == Returned {
      return Err(AlreadyReturned);
    }
    doc := doc.(status := Returned);
    doc := doc.(returnedDate := Some(now));
    doc := doc.(fine := CalculateFine(doc, now));
    lib.SaveRecord(id, doc, now);
    res := Ok(lib.records[id]);
    if doc.book in lib.books {
      lib.books := lib.books[doc.book := lib.books[doc.book] + 1];
    }
  }
}
