/** Facts about the transactions table as a whole: which loans are open, the
    counts the controllers query, and the stock invariants that tie each
    book's available_copies to its open loans. */
module Ledger {
  import opened Common
  import opened Schema
  import Query

  /** Open loans of one book: `WHERE book_id = :id AND status IN ('ISSUED', 'OVERDUE')`. */
  function BookLoans(txs: map<int, Transaction>, bookId: int): set<int>
  {
    set id | id in txs && txs[id].bookId == bookId && IsOpen(txs[id].status)
  }

  /** Open loans of one member. */
  function MemberLoans(txs: map<int, Transaction>, memberId: int): set<int>
  {
    set id | id in txs && txs[id].memberId == memberId && IsOpen(txs[id].status)
  }

  /** Open loans of one (member, book) pair. */
  function PairLoans(txs: map<int, Transaction>, memberId: int, bookId: int): set<int>
  {
    set id | id in txs && txs[id].memberId == memberId && txs[id].bookId == bookId && IsOpen(txs[id].status)
  }

  /** Some loan of the pair has status exactly ISSUED (OVERDUE is not looked at). */
  predicate HasIssuedLoan(txs: map<int, Transaction>, memberId: int, bookId: int)
  {
    exists id :: id in txs && txs[id].memberId == memberId && txs[id].bookId == bookId && txs[id].status == Issued
  }

  /** Some loan of the pair is ISSUED or OVERDUE. */
  predicate HasOpenLoan(txs: map<int, Transaction>, memberId: int, bookId: int)
  {
    exists id :: id in txs && txs[id].memberId == memberId && txs[id].bookId == bookId && IsOpen(txs[id].status)
  }

  /** `UPDATE books SET available_copies = available_copies - 1 WHERE book_id = :id`. */
  function TakeCopy(books: map<int, Book>, bookId: int): (r: map<int, Book>)
    ensures r.Keys == books.Keys
    ensures forall b :: b in books && b != bookId ==> r[b] == books[b]
    ensures bookId in books ==> r[bookId] == books[bookId].(availableCopies := books[bookId].availableCopies - 1)
  {
    if bookId in books then books[bookId := books[bookId].(availableCopies := books[bookId].availableCopies - 1)]
    else books
  }

  /** `UPDATE books SET available_copies = available_copies + 1 WHERE book_id = :id`. */
  function PutBackCopy(books: map<int, Book>, bookId: int): (r: map<int, Book>)
    ensures r.Keys == books.Keys
    ensures forall b :: b in books && b != bookId ==> r[b] == books[b]
    ensures bookId in books ==> r[bookId] == books[bookId].(availableCopies := books[bookId].availableCopies + 1)
  {
    if bookId in books then books[bookId := books[bookId].(availableCopies := books[bookId].availableCopies + 1)]
    else books
  }

  /** Every book's available copies are its total copies less its open loans. */
  ghost predicate Conserved(books: map<int, Book>, txs: map<int, Transaction>)
  {
    forall b :: b in books ==> books[b].availableCopies == books[b].totalCopies - |BookLoans(txs, b)|
  }

  ghost predicate CopiesInRange(books: map<int, Book>)
  {
    forall b :: b in books ==> 0 <= books[b].availableCopies <= books[b].totalCopies
  }

  /** No member holds two ISSUED loans of the same book. */
  ghost predicate NoDuplicateIssued(txs: map<int, Transaction>)
  {
    forall i, j :: i in txs && j in txs && i != j && txs[i].status == Issued && txs[j].status == Issued ==>
      txs[i].memberId != txs[j].memberId || txs[i].bookId != txs[j].bookId
  }

  ghost predicate StockInvariant(books: map<int, Book>, txs: map<int, Transaction>)
  {
    Conserved(books, txs) && CopiesInRange(books) && NoDuplicateIssued(txs)
  }

  /** Writing row `t` at `id` changes the open loans of book `b` by at most
      that one identity. */
  lemma BookLoansAfterWrite(txs: map<int, Transaction>, id: int, t: Transaction, b: int)
    ensures BookLoans(txs[id := t], b) ==
      (BookLoans(txs, b) - {id}) + (if t.bookId == b && IsOpen(t.status) then {id} else {})
  {
  }

  /** Inserting a fresh open loan of `b` adds one to its count; inserting any
      other fresh row leaves the count alone. */
  lemma {:induction false} CountAfterInsert(txs: map<int, Transaction>, id: int, t: Transaction, b: int)
    requires id !in txs
    ensures |BookLoans(txs[id := t], b)| == |BookLoans(txs, b)| + (if t.bookId == b && IsOpen(t.status) then 1 else 0)
  {
    BookLoansAfterWrite(txs, id, t, b);
    assert id !in BookLoans(txs, b);
    assert BookLoans(txs, b) - {id} == BookLoans(txs, b);
  }

  /** Closing an open loan takes one off its book's count. */
  lemma {:induction false} CountAfterClose(txs: map<int, Transaction>, id: int, t: Transaction, b: int)
    requires id in txs && IsOpen(txs[id].status) && !IsOpen(t.status)
    ensures |BookLoans(txs[id := t], b)| == |BookLoans(txs, b)| - (if txs[id].bookId == b then 1 else 0)
  {
    BookLoansAfterWrite(txs, id, t, b);
    if txs[id].bookId == b {
      assert id in BookLoans(txs, b);
    } else {
      assert id !in BookLoans(txs, b);
      assert BookLoans(txs, b) - {id} == BookLoans(txs, b);
    }
  }

  /** Rewriting an open loan as an open loan of the same book keeps every count. */
  lemma {:induction false} CountAfterRenew(txs: map<int, Transaction>, id: int, t: Transaction, b: int)
    requires id in txs && IsOpen(txs[id].status) && IsOpen(t.status) && t.bookId == txs[id].bookId
    ensures BookLoans(txs[id := t], b) == BookLoans(txs, b)
  {
    BookLoansAfterWrite(txs, id, t, b);
  }

  /** Two distinct members of a set make it at least two large. */
  lemma AtLeastTwo(s: set<int>, i: int, j: int)
    requires i in s && j in s && i != j
    ensures |s| >= 2
  {
    assert {i, j} <= s;
    assert |{i, j}| == 2;
    assert s == (s - {i, j}) + {i, j};
  }

  /** Issuing: insert a fresh ISSUED loan of a book that has a copy on the
      shelf, when the pair holds no ISSUED loan, and take that copy. */
  lemma {:induction false} IssueKeepsStock(books: map<int, Book>, txs: map<int, Transaction>, id: int, t: Transaction)
    requires StockInvariant(books, txs)
    requires id !in txs && t.status == Issued
    requires t.bookId in books && books[t.bookId].availableCopies > 0
    requires !HasIssuedLoan(txs, t.memberId, t.bookId)
    ensures StockInvariant(TakeCopy(books, t.bookId), txs[id := t])
  {
    var books', txs' := TakeCopy(books, t.bookId), txs[id := t];
    forall b | b in books'
      ensures books'[b].availableCopies == books'[b].totalCopies - |BookLoans(txs', b)|
    {
      CountAfterInsert(txs, id, t, b);
    }
    forall i, j | i in txs' && j in txs' && i != j && txs'[i].status == Issued && txs'[j].status == Issued
      ensures txs'[i].memberId != txs'[j].memberId || txs'[i].bookId != txs'[j].bookId
    {
      if i == id {
        assert j in txs;
      } else if j == id {
        assert i in txs;
      }
    }
  }

  /** Returning: close an open loan and put its copy back. */
  lemma {:induction false} ReturnKeepsStock(books: map<int, Book>, txs: map<int, Transaction>, id: int, t: Transaction)
    requires StockInvariant(books, txs)
    requires id in txs && IsOpen(txs[id].status)
    requires t.status == Returned && t.bookId == txs[id].bookId
    ensures StockInvariant(PutBackCopy(books, t.bookId), txs[id := t])
  {
    var books', txs' := PutBackCopy(books, t.bookId), txs[id := t];
    forall b | b in books'
      ensures books'[b].availableCopies == books'[b].totalCopies - |BookLoans(txs', b)|
      ensures 0 <= books'[b].availableCopies <= books'[b].totalCopies
    {
      CountAfterClose(txs, id, t, b);
      if b == t.bookId {
        assert id in BookLoans(txs, b);
      }
    }
  }

  /** Renewing: rewrite an open loan as ISSUED or OVERDUE with a new due
      date, when no other open loan of the pair exists. */
  lemma {:induction false} RenewKeepsStock(books: map<int, Book>, txs: map<int, Transaction>, id: int, t: Transaction)
    requires StockInvariant(books, txs)
    requires id in txs && IsOpen(txs[id].status) && IsOpen(t.status)
    requires t.bookId == txs[id].bookId && t.memberId == txs[id].memberId
    requires |PairLoans(txs, t.memberId, t.bookId)| < 2
    ensures StockInvariant(books, txs[id := t])
  {
    var txs' := txs[id := t];
    forall b | b in books
      ensures books[b].availableCopies == books[b].totalCopies - |BookLoans(txs', b)|
    {
      CountAfterRenew(txs, id, t, b);
    }
    forall i, j | i in txs' && j in txs' && i != j && txs'[i].status == Issued && txs'[j].status == Issued
      ensures txs'[i].memberId != txs'[j].memberId || txs'[i].bookId != txs'[j].bookId
    {
      var other := if i == id then j else i;
      if other != id && (i == id || j == id) && txs[other].memberId == t.memberId && txs[other].bookId == t.bookId {
        assert id in PairLoans(txs, t.memberId, t.bookId);
        assert other in PairLoans(txs, t.memberId, t.bookId);
        AtLeastTwo(PairLoans(txs, t.memberId, t.bookId), id, other);
      }
    }
  }

  /** An open loan of member `m` whose book row still exists (the borrowed-books
      queries join books). */
  predicate IsBorrowedBy(books: map<int, Book>, t: Transaction, m: int)
  {
    t.memberId == m && IsOpen(t.status) && t.bookId in books
  }

  /** `WHERE t.member_id = :id AND t.status IN ('ISSUED', 'OVERDUE') ORDER BY
      t.issue_date DESC`: each of the member's open loans exactly once,
      nothing else, newest issue first. */
  function BorrowedBooks(books: map<int, Book>, txs: map<int, Transaction>, m: int, idBound: int)
    : (rows: seq<(int, Transaction)>)
    ensures forall x :: x in rows ==> x.0 in txs && txs[x.0] == x.1 && IsBorrowedBy(books, x.1, m)
    ensures forall id :: id in txs && 1 <= id < idBound && IsBorrowedBy(books, txs[id], m) ==>
      multiset(rows)[(id, txs[id])] == 1
    ensures forall i, j :: 0 <= i < j < |rows| ==> rows[i].1.issueDate >= rows[j].1.issueDate
  {
    Query.Listing(txs, (t: Transaction) => IsBorrowedBy(books, t, m), 1, idBound, (t: Transaction) => -t.issueDate)
  }
}
