/** The circulation desk (backend/controllers/transactionController.js):
    issuing, returning and renewing loans, settling a fine by hand, and the
    overdue list. */
module Transactions {
  import opened Common
  import opened Schema
  import opened Ledger
  import opened FineRules
  import Query
  import opened Store
  import opened Messages

  /** Default loan period and default renewal, in days. */
  const LoanDays: int := 14
  /** Renewal is refused once the pair has this many open loans. */
  const MaxRenewals: int := 2

  const ErrInvalidIds := Failure(BadRequest, "Invalid member ID or book ID")
  const ErrBookUnavailable := Failure(BadRequest, "Book is not available")
  const ErrNoCopies := Failure(BadRequest, "No copies available")
  const ErrAlreadyIssued := Failure(BadRequest, "Member already has this book issued")
  const ErrTransactionNotFound := Failure(NotFound, "Transaction not found")
  const ErrNotIssued := Failure(BadRequest, "Book is not currently issued")
  const ErrNotRenewable := Failure(BadRequest, "Only issued or overdue books can be renewed")
  const ErrRenewalLimit := Failure(BadRequest, "Maximum renewal limit reached for this book")
  const ErrFineNotFound := Failure(NotFound, "Fine not found")

  /** Everything issueBook checks before writing. */
  predicate CanIssue(members: map<int, Member>, books: map<int, Book>, txs: map<int, Transaction>, m: int, b: int)
  {
    && m in members && members[m].status == Active
    && b in books && books[b].status == BookAvailable && books[b].availableCopies > 0
    && !HasIssuedLoan(txs, m, b)
  }

  /** issueBook's checks in source order; the first that fails is answered.
      `memberId` / `bookId` are None when parseInt gave NaN. */
  function IssueGuard(members: map<int, Member>, books: map<int, Book>, txs: map<int, Transaction>,
                      memberId: Option<int>, bookId: Option<int>): (f: Option<Failure>)
    ensures f == Some(ErrInvalidIds) <==> memberId.None? || bookId.None?
    ensures f == Some(ErrMemberNotFound) <==> memberId.Some? && bookId.Some? && memberId.value !in members
    ensures f == Some(ErrMemberInactive) <==>
      memberId.Some? && bookId.Some? && memberId.value in members && members[memberId.value].status != Active
    ensures f == Some(ErrBookNotFound) <==>
      memberId.Some? && bookId.Some? && memberId.value in members && members[memberId.value].status == Active
      && bookId.value !in books
    ensures f == Some(ErrBookUnavailable) <==>
      memberId.Some? && bookId.Some? && memberId.value in members && members[memberId.value].status == Active
      && bookId.value in books && books[bookId.value].status != BookAvailable
    ensures f == Some(ErrNoCopies) <==>
      memberId.Some? && bookId.Some? && memberId.value in members && members[memberId.value].status == Active
      && bookId.value in books && books[bookId.value].status == BookAvailable && books[bookId.value].availableCopies <= 0
    ensures f == Some(ErrAlreadyIssued) <==>
      memberId.Some? && bookId.Some? && memberId.value in members && members[memberId.value].status == Active
      && bookId.value in books && books[bookId.value].status == BookAvailable && books[bookId.value].availableCopies > 0
      && HasIssuedLoan(txs, memberId.value, bookId.value)
    ensures f.None? <==> memberId.Some? && bookId.Some? && CanIssue(members, books, txs, memberId.value, bookId.value)
  {
    if memberId.None? || bookId.None? then Some(ErrInvalidIds)
    else
      var m, b := memberId.value, bookId.value;
      if m !in members then Some(ErrMemberNotFound)
      else if members[m].status != Active then Some(ErrMemberInactive)
      else if b !in books then Some(ErrBookNotFound)
      else if books[b].status != BookAvailable then Some(ErrBookUnavailable)
      else if books[b].availableCopies <= 0 then Some(ErrNoCopies)
      else if HasIssuedLoan(txs, m, b) then Some(ErrAlreadyIssued)
      else None
  }

  /** The due date of a new loan: the one supplied, else fourteen days on. */
  function IssueDueDate(requested: Option<int>, now: int): (due: int)
    ensures requested.Some? ==> due == requested.value
    ensures requested.None? ==> due - now == LoanDays * DAY
  {
    if requested.Some? then requested.value else now + LoanDays * DAY
  }

  /** The row issueBook inserts; issue date, fine and status are column defaults. */
  function NewLoan(m: int, b: int, due: int, now: int): Transaction
  {
    Transaction(m, b, now, due, None, 0, Issued)
  }

  /** issueBook: on success the new loan's id. */
  method IssueBook(db: Database, memberId: Option<int>, bookId: Option<int>, dueDate: Option<int>, now: int)
    returns (r: Result<int>)
    requires db.Valid()
    modifies db`transactions, db`books, db`nextId
    ensures db.Valid()
    ensures IssueGuard(old(db.members), old(db.books), old(db.transactions), memberId, bookId).Some? ==>
      r == Err(IssueGuard(old(db.members), old(db.books), old(db.transactions), memberId, bookId).value)
      && unchanged(db)
    ensures IssueGuard(old(db.members), old(db.books), old(db.transactions), memberId, bookId).None? ==>
      && r == Ok(old(db.nextId))
      && r.value !in old(db.transactions)
      && db.transactions == old(db.transactions)[r.value := NewLoan(memberId.value, bookId.value, IssueDueDate(dueDate, now), now)]
      && db.books == TakeCopy(old(db.books), bookId.value)
      && db.nextId == old(db.nextId) + 1
    ensures old(db.LoanInvariant()) ==> db.LoanInvariant()
  {
    var f := IssueGuard(db.members, db.books, db.transactions, memberId, bookId);
    if f.Some? {
      return Err(f.value);
    }
    var m, b := memberId.value, bookId.value;
    var due := IssueDueDate(dueDate, now);
    var id := db.NewId();
    ghost var books0, txs0 := db.books, db.transactions;
    db.transactions := db.transactions[id := NewLoan(m, b, due, now)];
    db.books := TakeCopy(db.books, b);
    if StockInvariant(books0, txs0) {
      IssueKeepsStock(books0, txs0, id, NewLoan(m, b, due, now));
    }
    r := Ok(id);
  }

  /** returnBook's checks: the loan exists and still holds a copy. */
  function ReturnGuard(txs: map<int, Transaction>, id: int): (f: Option<Failure>)
    ensures f == Some(ErrTransactionNotFound) <==> id !in txs
    ensures f == Some(ErrNotIssued) <==> id in txs && !IsOpen(txs[id].status)
    ensures f.None? <==> id in txs && IsOpen(txs[id].status)
  {
    if id !in txs then Some(ErrTransactionNotFound)
    else if !IsOpen(txs[id].status) then Some(ErrNotIssued)
    else None
  }

  /** The loan row after a return at `now`. */
  function Closed(t: Transaction, now: int): Transaction
  {
    t.(returnDate := Some(now), fineAmount := LateFine(t.dueDate, now), status := Returned)
  }

  /** The fine_history row a late return inserts; status and date are column defaults. */
  function LateReturnFine(txId: int, t: Transaction, now: int): Fine
  {
    Fine(txId, t.memberId, LateFine(t.dueDate, now), "Late return", Pending, now, None, None, None, None, None)
  }

  /** returnBook: on success the fine charged. */
  method ReturnBook(db: Database, id: int, now: int) returns (r: Result<int>)
    requires db.Valid()
    modifies db`transactions, db`books, db`fines, db`nextId
    ensures db.Valid()
    ensures ReturnGuard(old(db.transactions), id).Some? ==>
      r == Err(ReturnGuard(old(db.transactions), id).value) && unchanged(db)
    ensures ReturnGuard(old(db.transactions), id).None? ==>
      var t := old(db.transactions)[id];
      && r == Ok(LateFine(t.dueDate, now))
      && db.transactions == old(db.transactions)[id := Closed(t, now)]
      && db.books == PutBackCopy(old(db.books), t.bookId)
      && (r.value > 0 ==> db.fines == old(db.fines)[old(db.nextId) := LateReturnFine(id, t, now)]
                          && old(db.nextId) !in old(db.fines) && db.nextId == old(db.nextId) + 1)
      && (r.value == 0 ==> db.fines == old(db.fines) && db.nextId == old(db.nextId))
    // Returning the same loan a second time is refused.
    ensures r.Ok? ==> ReturnGuard(db.transactions, id) == Some(ErrNotIssued)
    ensures old(db.LoanInvariant()) ==> db.LoanInvariant()
  {
    var f := ReturnGuard(db.transactions, id);
    if f.Some? {
      return Err(f.value);
    }
    var t := db.transactions[id];
    var fine := LateFine(t.dueDate, now);
    ghost var books0, txs0 := db.books, db.transactions;
    db.transactions := db.transactions[id := Closed(t, now)];
    db.books := PutBackCopy(db.books, t.bookId);
    if StockInvariant(books0, txs0) {
      ReturnKeepsStock(books0, txs0, id, Closed(t, now));
    }
    if fine > 0 {
      var fineId := db.NewId();
      db.fines := db.fines[fineId := LateReturnFine(id, t, now)];
    }
    r := Ok(fine);
  }

  /** renewBook's checks; the cap counts the pair's open loans, this one included. */
  function RenewGuard(txs: map<int, Transaction>, id: int): (f: Option<Failure>)
    ensures f == Some(ErrTransactionNotFound) <==> id !in txs
    ensures f == Some(ErrNotRenewable) <==> id in txs && !IsOpen(txs[id].status)
    ensures f == Some(ErrRenewalLimit) <==>
      id in txs && IsOpen(txs[id].status) && |PairLoans(txs, txs[id].memberId, txs[id].bookId)| >= MaxRenewals
    ensures f.None? <==>
      id in txs && IsOpen(txs[id].status) && |PairLoans(txs, txs[id].memberId, txs[id].bookId)| < MaxRenewals
  {
    if id !in txs then Some(ErrTransactionNotFound)
    else if !IsOpen(txs[id].status) then Some(ErrNotRenewable)
    else if |PairLoans(txs, txs[id].memberId, txs[id].bookId)| >= MaxRenewals then Some(ErrRenewalLimit)
    else None
  }

  /** The loan after a renewal by `days` days, judged against the clock. */
  function Renewed(t: Transaction, days: int, now: int): (t': Transaction)
    ensures t'.dueDate - t.dueDate == days * DAY
    ensures t'.status == Overdue <==> t'.dueDate < now
    ensures IsOpen(t'.status)
    ensures t' == t.(dueDate := t'.dueDate, status := t'.status)
  {
    var due := t.dueDate + days * DAY;
    t.(dueDate := due, status := if due < now then Overdue else Issued)
  }

  /** `extension_days = 14` applies only when the field is absent. */
  function ExtensionDays(requested: Option<int>): (days: int)
    ensures requested.Some? ==> days == requested.value
    ensures requested.None? ==> days == LoanDays
  {
    if requested.Some? then requested.value else LoanDays
  }

  /** renewBook: on success the new due date. Only the loan row changes. */
  method RenewBook(db: Database, id: int, extension: Option<int>, now: int) returns (r: Result<int>)
    requires db.Valid()
    modifies db`transactions
    ensures db.Valid()
    ensures RenewGuard(old(db.transactions), id).Some? ==>
      r == Err(RenewGuard(old(db.transactions), id).value) && unchanged(db)
    ensures RenewGuard(old(db.transactions), id).None? ==>
      var t' := Renewed(old(db.transactions)[id], ExtensionDays(extension), now);
      && r == Ok(t'.dueDate)
      && db.transactions == old(db.transactions)[id := t']
    ensures old(db.LoanInvariant()) ==> db.LoanInvariant()
  {
    var f := RenewGuard(db.transactions, id);
    if f.Some? {
      return Err(f.value);
    }
    var t := db.transactions[id];
    var t' := Renewed(t, ExtensionDays(extension), now);
    ghost var txs0 := db.transactions;
    db.transactions := db.transactions[id := t'];
    if StockInvariant(db.books, txs0) {
      RenewKeepsStock(db.books, txs0, id, t');
    }
    r := Ok(t'.dueDate);
  }

  /** As the loan itself is open, the renewal cap is reached exactly when the
      same member holds another open loan of the same book. */
  lemma {:induction false} RenewalCapMeansSecondLoan(txs: map<int, Transaction>, id: int)
    requires id in txs && IsOpen(txs[id].status)
    ensures RenewGuard(txs, id) == Some(ErrRenewalLimit) <==>
      exists j :: j in txs && j != id && txs[j].memberId == txs[id].memberId
        && txs[j].bookId == txs[id].bookId && IsOpen(txs[j].status)
  {
    var pair := PairLoans(txs, txs[id].memberId, txs[id].bookId);
    assert id in pair;
    if exists j :: j in txs && j != id && txs[j].memberId == txs[id].memberId
        && txs[j].bookId == txs[id].bookId && IsOpen(txs[j].status) {
      var j :| j in txs && j != id && txs[j].memberId == txs[id].memberId
        && txs[j].bookId == txs[id].bookId && IsOpen(txs[j].status);
      assert j in pair;
      AtLeastTwo(pair, id, j);
    } else {
      assert pair == {id};
    }
  }

  /** A renewal never changes the count it is judged by, so a loan that may
      be renewed once may be renewed again: there is no limit on renewals of
      a single loan. */
  lemma {:induction false} RenewalsUnlimited(txs: map<int, Transaction>, id: int, days: int, now: int)
    requires RenewGuard(txs, id).None?
    ensures RenewGuard(txs[id := Renewed(txs[id], days, now)], id).None?
  {
    var t, t' := txs[id], Renewed(txs[id], days, now);
    var txs' := txs[id := t'];
    assert PairLoans(txs', t.memberId, t.bookId) == PairLoans(txs, t.memberId, t.bookId) by {
      assert forall j :: j in txs' && j != id ==> txs'[j] == txs[j];
    }
  }

  /** The duplicate check sees ISSUED only: a member whose loan of the book
      is OVERDUE may borrow a second copy. */
  lemma {:induction false} IssueBesideOverdueLoan(members: map<int, Member>, books: map<int, Book>,
                                                  txs: map<int, Transaction>, m: int, b: int)
    requires m in members && members[m].status == Active
    requires b in books && books[b].status == BookAvailable && books[b].availableCopies > 0
    requires forall j :: j in txs && txs[j].memberId == m && txs[j].bookId == b ==> txs[j].status == Overdue
    ensures IssueGuard(members, books, txs, Some(m), Some(b)) == None
  {
  }

  /** payFine (admin): only a PAID fine is refused; PENDING and WAIVED are settled. */
  function PayFineGuard(fines: map<int, Fine>, id: int): (f: Option<Failure>)
    ensures f == Some(ErrFineNotFound) <==> id !in fines
    ensures f == Some(ErrFineAlreadyPaid) <==> id in fines && fines[id].status == Paid
    ensures f.None? <==> id in fines && (fines[id].status.Pending? || fines[id].status.Waived?)
  {
    if id !in fines then Some(ErrFineNotFound)
    else if fines[id].status == Paid then Some(ErrFineAlreadyPaid)
    else None
  }

  method PayFine(db: Database, id: int, now: int) returns (r: Result<()>)
    requires db.Valid()
    modifies db`fines
    ensures db.Valid()
    ensures PayFineGuard(old(db.fines), id).Some? ==>
      r == Err(PayFineGuard(old(db.fines), id).value) && unchanged(db)
    ensures PayFineGuard(old(db.fines), id).None? ==>
      r == Ok(()) && db.fines == old(db.fines)[id := old(db.fines)[id].(status := Paid, paidDate := Some(now))]
    // A second payment of the same fine is refused.
    ensures r.Ok? ==> PayFineGuard(db.fines, id) == Some(ErrFineAlreadyPaid)
  {
    var f := PayFineGuard(db.fines, id);
    if f.Some? {
      return Err(f.value);
    }
    db.fines := db.fines[id := db.fines[id].(status := Paid, paidDate := Some(now))];
    r := Ok(());
  }

  /** `WHERE t.status = 'ISSUED' AND t.due_date < SYSDATE`, for a loan whose
      member and book rows still exist (the query joins both). */
  predicate IsOverdueIssued(members: map<int, Member>, books: map<int, Book>, t: Transaction, now: int)
  {
    t.memberId in members && t.bookId in books && t.status == Issued && t.dueDate < now
  }

  /** getOverdueBooks: every ISSUED loan past due exactly once, nothing else,
      earliest due date first. Loans already marked OVERDUE are not listed. */
  function OverdueBooks(members: map<int, Member>, books: map<int, Book>, txs: map<int, Transaction>,
                        idBound: int, now: int): (rows: seq<(int, Transaction)>)
    ensures forall x :: x in rows ==> x.0 in txs && txs[x.0] == x.1 && IsOverdueIssued(members, books, x.1, now)
    ensures forall id :: id in txs && 1 <= id < idBound && IsOverdueIssued(members, books, txs[id], now) ==>
      multiset(rows)[(id, txs[id])] == 1
    ensures forall i, j :: 0 <= i < j < |rows| ==> rows[i].1.dueDate <= rows[j].1.dueDate
  {
    Query.Listing(txs, (t: Transaction) => IsOverdueIssued(members, books, t, now), 1, idBound,
                  (t: Transaction) => t.dueDate)
  }
}
