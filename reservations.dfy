/** Reservations of books that are out on loan
    (backend/controllers/reservationController.js): creating one at the desk,
    cancelling it, marking it fulfilled, and the sort and page arguments of
    the reservation list. */
module Reservations {
  import opened Common
  import opened Schema
  import opened Ledger
  import opened Store
  import opened Messages

  /** A reservation lapses thirty days after it is made. */
  const ReservationDays: int := 30

  const ErrBookOnShelf := Failure(BadRequest, "Book is currently available. Please issue it directly.")
  const ErrAlreadyReserved := Failure(BadRequest, "You already have a pending reservation for this book")
  const ErrAlreadyBorrowed := Failure(BadRequest, "You already have this book issued")
  const ErrReservationNotFound := Failure(NotFound, "Reservation not found")
  const ErrNotCancellable := Failure(BadRequest, "Only pending or available reservations can be cancelled")
  const ErrNotFulfillable := Failure(BadRequest, "Reservation is not available for fulfillment")
  const ErrFulfillFailed := Failure(ServerError, "Failed to fulfill reservation")
  const ErrBookGone := Failure(BadRequest, "Book is no longer available")

  /** `WHERE member_id = :m AND book_id = :b AND status = 'PENDING'` finds a row. */
  predicate HasPendingReservation(resv: map<int, Reservation>, m: int, b: int)
  {
    exists id :: id in resv && resv[id].memberId == m && resv[id].bookId == b && resv[id].status == ReservationPending
  }

  /** The book-side checks both create handlers run after the member check:
      the book exists, has no copy on the shelf, is not already reserved by
      the member and is not already on loan to the member. */
  function BookChecks(books: map<int, Book>, resv: map<int, Reservation>, txs: map<int, Transaction>,
                      m: int, b: int): (f: Option<Failure>)
    ensures f == Some(ErrBookNotFound) <==> b !in books
    ensures f == Some(ErrBookOnShelf) <==> b in books && books[b].availableCopies > 0
    ensures f == Some(ErrAlreadyReserved) <==>
      b in books && books[b].availableCopies <= 0 && HasPendingReservation(resv, m, b)
    ensures f == Some(ErrAlreadyBorrowed) <==>
      b in books && books[b].availableCopies <= 0 && !HasPendingReservation(resv, m, b) && HasOpenLoan(txs, m, b)
    ensures f.None? <==>
      b in books && books[b].availableCopies <= 0 && !HasPendingReservation(resv, m, b) && !HasOpenLoan(txs, m, b)
  {
    if b !in books then Some(ErrBookNotFound)
    else if books[b].availableCopies > 0 then Some(ErrBookOnShelf)
    else if HasPendingReservation(resv, m, b) then Some(ErrAlreadyReserved)
    else if HasOpenLoan(txs, m, b) then Some(ErrAlreadyBorrowed)
    else None
  }

  /** createReservation's checks: a missing member and an inactive one are
      answered differently, then the book-side checks. */
  function CreateGuard(members: map<int, Member>, books: map<int, Book>, resv: map<int, Reservation>,
                       txs: map<int, Transaction>, m: int, b: int): (f: Option<Failure>)
    ensures f == Some(ErrMemberNotFound) <==> m !in members
    ensures f == Some(ErrMemberInactive) <==> m in members && members[m].status != Active
    ensures m in members && members[m].status == Active ==> f == BookChecks(books, resv, txs, m, b)
  {
    if m !in members then Some(ErrMemberNotFound)
    else if members[m].status != Active then Some(ErrMemberInactive)
    else BookChecks(books, resv, txs, m, b)
  }

  /** The row both create handlers insert; status and reservation date are
      column defaults. */
  function NewReservation(m: int, b: int, now: int): Reservation
  {
    Reservation(m, b, ReservationPending, now, now + ReservationDays * DAY)
  }

  /** Inserts `r` under a fresh identity; shared by both create handlers. */
  method InsertReservation(db: Database, r: Reservation) returns (id: int)
    requires db.Valid()
    modifies db`reservations, db`nextId
    ensures db.Valid()
    ensures id == old(db.nextId) && id !in old(db.reservations)
    ensures db.reservations == old(db.reservations)[id := r] && db.nextId == old(db.nextId) + 1
  {
    id := db.NewId();
    db.reservations := db.reservations[id := r];
  }

  /** createReservation (desk): on success the new reservation's id. */
  method CreateReservation(db: Database, m: int, b: int, now: int) returns (r: Result<int>)
    requires db.Valid()
    modifies db`reservations, db`nextId
    ensures db.Valid()
    ensures CreateGuard(old(db.members), old(db.books), old(db.reservations), old(db.transactions), m, b).Some? ==>
      r == Err(CreateGuard(old(db.members), old(db.books), old(db.reservations), old(db.transactions), m, b).value)
      && unchanged(db)
    ensures CreateGuard(old(db.members), old(db.books), old(db.reservations), old(db.transactions), m, b).None? ==>
      && r == Ok(old(db.nextId)) && r.value !in old(db.reservations)
      && db.reservations == old(db.reservations)[r.value := NewReservation(m, b, now)]
      && db.reservations[r.value].expiryDate - now == ReservationDays * DAY
      && db.nextId == old(db.nextId) + 1
  {
    var f := CreateGuard(db.members, db.books, db.reservations, db.transactions, m, b);
    if f.Some? {
      return Err(f.value);
    }
    var id := InsertReservation(db, NewReservation(m, b, now));
    r := Ok(id);
  }

  /** cancelReservation's checks: the reservation exists and is still
      PENDING or AVAILABLE. */
  function CancelGuard(resv: map<int, Reservation>, id: int): (f: Option<Failure>)
    ensures f == Some(ErrReservationNotFound) <==> id !in resv
    ensures f == Some(ErrNotCancellable) <==> id in resv && (resv[id].status.Fulfilled? || resv[id].status.Cancelled?)
    ensures f.None? <==> id in resv && (resv[id].status.ReservationPending? || resv[id].status.ReservationAvailable?)
  {
    if id !in resv then Some(ErrReservationNotFound)
    else if resv[id].status != ReservationPending && resv[id].status != ReservationAvailable then Some(ErrNotCancellable)
    else None
  }

  /** `UPDATE reservations SET status = 'CANCELLED'`; shared by both cancel handlers. */
  method MarkCancelled(db: Database, id: int)
    requires db.Valid() && id in db.reservations
    modifies db`reservations
    ensures db.Valid()
    ensures db.reservations == old(db.reservations)[id := old(db.reservations)[id].(status := Cancelled)]
  {
    db.reservations := db.reservations[id := db.reservations[id].(status := Cancelled)];
  }

  /** cancelReservation (desk). Cancelling twice is refused. */
  method CancelReservation(db: Database, id: int) returns (r: Result<()>)
    requires db.Valid()
    modifies db`reservations
    ensures db.Valid()
    ensures CancelGuard(old(db.reservations), id).Some? ==>
      r == Err(CancelGuard(old(db.reservations), id).value) && unchanged(db)
    ensures CancelGuard(old(db.reservations), id).None? ==>
      r == Ok(()) && db.reservations == old(db.reservations)[id := old(db.reservations)[id].(status := Cancelled)]
    ensures r.Ok? ==> CancelGuard(db.reservations, id) == Some(ErrNotCancellable)
  {
    var f := CancelGuard(db.reservations, id);
    if f.Some? {
      return Err(f.value);
    }
    MarkCancelled(db, id);
    r := Ok(());
  }

  /** fulfillReservation's checks. A reservation whose book row is gone makes
      the handler read a field of `undefined`, which is answered as a server
      error. */
  function FulfillGuard(resv: map<int, Reservation>, books: map<int, Book>, id: int): (f: Option<Failure>)
    ensures f == Some(ErrReservationNotFound) <==> id !in resv
    ensures f == Some(ErrNotFulfillable) <==> id in resv && resv[id].status != ReservationAvailable
    ensures f == Some(ErrFulfillFailed) <==>
      id in resv && resv[id].status == ReservationAvailable && resv[id].bookId !in books
    ensures f == Some(ErrBookGone) <==>
      id in resv && resv[id].status == ReservationAvailable && resv[id].bookId in books
      && books[resv[id].bookId].availableCopies <= 0
    ensures f.None? <==>
      id in resv && resv[id].status == ReservationAvailable && resv[id].bookId in books
      && books[resv[id].bookId].availableCopies > 0
  {
    if id !in resv then Some(ErrReservationNotFound)
    else if resv[id].status != ReservationAvailable then Some(ErrNotFulfillable)
    else if resv[id].bookId !in books then Some(ErrFulfillFailed)
    else if books[resv[id].bookId].availableCopies <= 0 then Some(ErrBookGone)
    else None
  }

  /** fulfillReservation: only the reservation's status changes; the copy is
      taken later, when the book is issued. */
  method FulfillReservation(db: Database, id: int) returns (r: Result<()>)
    requires db.Valid()
    modifies db`reservations
    ensures db.Valid()
    ensures FulfillGuard(old(db.reservations), db.books, id).Some? ==>
      r == Err(FulfillGuard(old(db.reservations), db.books, id).value) && unchanged(db)
    ensures FulfillGuard(old(db.reservations), db.books, id).None? ==>
      r == Ok(()) && db.reservations == old(db.reservations)[id := old(db.reservations)[id].(status := Fulfilled)]
    ensures r.Ok? ==> FulfillGuard(db.reservations, db.books, id) == Some(ErrNotFulfillable)
  {
    var f := FulfillGuard(db.reservations, db.books, id);
    if f.Some? {
      return Err(f.value);
    }
    db.reservations := db.reservations[id := db.reservations[id].(status := Fulfilled)];
    r := Ok(());
  }

  /** The columns getReservations lets a caller sort by. */
  const SortColumns: seq<string> := ["reservation_id", "reservation_date", "status", "expiry_date", "created_at"]

  /** The upper-case spellings of the five sortable columns. */
  lemma UpperSortColumns()
    ensures Upper(SortColumns[0]) == "RESERVATION_ID"
    ensures Upper(SortColumns[1]) == "RESERVATION_DATE"
    ensures Upper(SortColumns[2]) == "STATUS"
    ensures Upper(SortColumns[3]) == "EXPIRY_DATE"
    ensures Upper(SortColumns[4]) == "CREATED_AT"
  {
  }

  /** `allowedSortColumns.includes(sortBy.toLowerCase()) ? sortBy.toUpperCase() : 'RESERVATION_ID'`:
      whatever the caller sends, the ORDER BY names one of the five columns. */
  function SafeSortBy(sortBy: string): (column: string)
    ensures column in ["RESERVATION_ID", "RESERVATION_DATE", "STATUS", "EXPIRY_DATE", "CREATED_AT"]
    ensures Lower(sortBy) in SortColumns ==> column == Upper(sortBy)
    ensures Lower(sortBy) !in SortColumns ==> column == "RESERVATION_ID"
  {
    if Lower(sortBy) in SortColumns then
      UpperOfLower(sortBy);
      UpperSortColumns();
      Upper(sortBy)
    else "RESERVATION_ID"
  }

  /** `sortOrder.toUpperCase() === 'ASC' ? 'ASC' : 'DESC'`. */
  function SafeSortOrder(sortOrder: string): (order: string)
    ensures order == "ASC" || order == "DESC"
    ensures order == "ASC" <==> Upper(sortOrder) == "ASC"
  {
    if Upper(sortOrder) == "ASC" then "ASC" else "DESC"
  }

  /** The order test ignores case: every spelling of "asc" sorts ascending. */
  lemma {:induction false} SortOrderIgnoresCase(sortOrder: string)
    requires Lower(sortOrder) == "asc"
    ensures SafeSortOrder(sortOrder) == "ASC"
  {
    UpperOfLower(sortOrder);
  }
}
