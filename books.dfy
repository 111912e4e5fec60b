/** The catalogue endpoints (backend/controllers/bookController.js):
    creating, updating and deleting a book, and the keyword search. */
module Books {
  import opened Common
  import opened Schema
  import opened Ledger
  import Query
  import opened Store
  import opened Messages

  const ErrIsbnTaken := Failure(BadRequest, "Book with this ISBN already exists")
  const ErrBookHasLoans := Failure(BadRequest, "Cannot delete book with active transactions")

  /** The request body of createBook and updateBook; "" and 0 stand for an
      absent field, None for an absent status. */
  datatype BookInput = BookInput(
    isbn: string,
    title: string,
    author: string,
    category: string,
    totalCopies: int,
    availableCopies: int,
    status: Option<BookStatus>)

  /** `WHERE isbn = :isbn`; an empty ISBN never matches. */
  predicate HasIsbn(b: Book, isbn: string)
  {
    isbn != "" && b.isbn == Some(isbn)
  }

  predicate IsbnUsed(books: map<int, Book>, isbn: string)
  {
    exists id :: id in books && HasIsbn(books[id], isbn)
  }

  /** `... WHERE isbn = :isbn AND book_id != :id`. */
  predicate IsbnUsedByOther(books: map<int, Book>, isbn: string, self: int)
  {
    exists id :: id in books && id != self && HasIsbn(books[id], isbn)
  }

  /** No two books share a (non-NULL) ISBN. */
  ghost predicate IsbnsUnique(books: map<int, Book>)
  {
    forall i, j :: i in books && j in books && i != j && books[i].isbn.Some? ==> books[i].isbn != books[j].isbn
  }

  /** The row createBook inserts: `total_copies || 1` copies, all of them on
      the shelf; the status comes from the column default. */
  function NewBook(input: BookInput): (b: Book)
    ensures b.title == input.title && b.author == input.author
    ensures b.isbn == Nullable(input.isbn) && b.category == Nullable(input.category)
    ensures input.totalCopies != 0 ==> b.totalCopies == input.totalCopies
    ensures input.totalCopies == 0 ==> b.totalCopies == 1
    ensures b.availableCopies == b.totalCopies && b.status == BookAvailable
  {
    var total := OrElse(input.totalCopies, 1);
    Book(Nullable(input.isbn), input.title, input.author, Nullable(input.category), total, total, BookAvailable)
  }

  /** createBook: refused when the ISBN is taken; otherwise the new book's id.
      The stock invariant survives whenever the copy count is not negative,
      because no loan can name a book number not yet handed out. */
  method CreateBook(db: Database, input: BookInput) returns (r: Result<int>)
    requires db.Valid()
    modifies db`books, db`nextId
    ensures db.Valid()
    ensures IsbnUsed(old(db.books), input.isbn) ==> r == Err(ErrIsbnTaken) && unchanged(db)
    ensures !IsbnUsed(old(db.books), input.isbn) ==>
      && r == Ok(old(db.nextId)) && r.value !in old(db.books)
      && db.books == old(db.books)[r.value := NewBook(input)]
      && db.nextId == old(db.nextId) + 1
    ensures IsbnsUnique(old(db.books)) ==> IsbnsUnique(db.books)
    ensures old(db.LoanInvariant()) && input.totalCopies >= 0 ==> db.LoanInvariant()
  {
    if exists id :: id in db.books && HasIsbn(db.books[id], input.isbn) {
      return Err(ErrIsbnTaken);
    }
    assert forall k :: k in db.transactions ==> db.transactions[k].bookId < db.nextId;
    var id := db.NewId();
    var b := NewBook(input);
    NewBookKeepsIsbnsUnique(db.books, id, b, input.isbn);
    if db.LoanInvariant() && input.totalCopies >= 0 {
      NewBookKeepsStock(db.books, db.transactions, id, b);
    }
    db.books := db.books[id := b];
    r := Ok(id);
  }

  /** A book whose ISBN is unused does not break ISBN uniqueness. */
  lemma NewBookKeepsIsbnsUnique(books: map<int, Book>, id: int, b: Book, isbn: string)
    requires id !in books && b.isbn == Nullable(isbn) && !IsbnUsed(books, isbn)
    ensures IsbnsUnique(books) ==> IsbnsUnique(books[id := b])
  {
    assert forall k :: k in books && books[k].isbn.Some? ==> books[k].isbn != b.isbn;
    if IsbnsUnique(books) {
      var after := books[id := b];
      forall i, j | i in after && j in after && i != j && after[i].isbn.Some?
        ensures after[i].isbn != after[j].isbn
      {
        if i != id && j != id {
          assert after[i] == books[i] && after[j] == books[j];
        }
      }
    }
  }

  /** A new book with every copy on the shelf, under a number no loan uses,
      keeps the stock invariant. */
  lemma NewBookKeepsStock(books: map<int, Book>, txs: map<int, Transaction>, id: int, b: Book)
    requires StockInvariant(books, txs)
    requires forall k :: k in txs ==> txs[k].bookId != id
    requires b.availableCopies == b.totalCopies >= 0
    ensures StockInvariant(books[id := b], txs)
  {
    assert forall k :: k !in BookLoans(txs, id);
    assert BookLoans(txs, id) == {};
    var after := books[id := b];
    forall k | k in after
      ensures after[k].availableCopies == after[k].totalCopies - |BookLoans(txs, k)|
      ensures 0 <= after[k].availableCopies <= after[k].totalCopies
    {
      if k != id {
        assert after[k] == books[k];
      }
    }
  }

  /** updateBook's checks: the book exists, then (only when an ISBN is sent)
      no other book has it. */
  function UpdateGuard(books: map<int, Book>, id: int, isbn: string): (f: Option<Failure>)
    ensures f == Some(ErrBookNotFound) <==> id !in books
    ensures f == Some(ErrIsbnTaken) <==> id in books && IsbnUsedByOther(books, isbn, id)
    ensures f.None? <==> id in books && !IsbnUsedByOther(books, isbn, id)
  {
    if id !in books then Some(ErrBookNotFound)
    else if isbn != "" && IsbnUsedByOther(books, isbn, id) then Some(ErrIsbnTaken)
    else None
  }

  /** The row as updateBook leaves it: `total_copies || 1` copies and
      `available_copies || total_copies || 1` on the shelf, with no look at
      the open loans; an absent status becomes AVAILABLE. */
  function UpdatedBook(b: Book, input: BookInput): (r: Book)
    ensures r.isbn == Nullable(input.isbn) && r.category == Nullable(input.category)
    ensures r.title == input.title && r.author == input.author
    ensures r.totalCopies == (if input.totalCopies != 0 then input.totalCopies else 1)
    ensures input.availableCopies != 0 ==> r.availableCopies == input.availableCopies
    ensures input.availableCopies == 0 ==> r.availableCopies == r.totalCopies
    ensures input.status.Some? ==> r.status == input.status.value
    ensures input.status.None? ==> r.status == BookAvailable
  {
    Book(Nullable(input.isbn), input.title, input.author, Nullable(input.category),
         OrElse(input.totalCopies, 1), OrElse(input.availableCopies, OrElse(input.totalCopies, 1)),
         if input.status.Some? then input.status.value else BookAvailable)
  }

  /** updateBook. */
  method UpdateBook(db: Database, id: int, input: BookInput) returns (r: Result<()>)
    requires db.Valid()
    modifies db`books
    ensures db.Valid()
    ensures UpdateGuard(old(db.books), id, input.isbn).Some? ==>
      r == Err(UpdateGuard(old(db.books), id, input.isbn).value) && unchanged(db)
    ensures UpdateGuard(old(db.books), id, input.isbn).None? ==>
      r == Ok(()) && db.books == old(db.books)[id := UpdatedBook(old(db.books)[id], input)]
    ensures IsbnsUnique(old(db.books)) ==> IsbnsUnique(db.books)
  {
    var f := UpdateGuard(db.books, id, input.isbn);
    if f.Some? {
      return Err(f.value);
    }
    db.books := db.books[id := UpdatedBook(db.books[id], input)];
    r := Ok(());
  }

  /** An update keeps the stock invariant exactly when the counts it writes
      agree with the book's open loans and stay in range. */
  lemma {:induction false} UpdateStockIff(books: map<int, Book>, txs: map<int, Transaction>, id: int, input: BookInput)
    requires StockInvariant(books, txs) && id in books
    ensures var nb := UpdatedBook(books[id], input);
      StockInvariant(books[id := nb], txs) <==>
        nb.availableCopies == nb.totalCopies - |BookLoans(txs, id)| && 0 <= nb.availableCopies <= nb.totalCopies
  {
    var nb := UpdatedBook(books[id], input);
    var after := books[id := nb];
    if nb.availableCopies == nb.totalCopies - |BookLoans(txs, id)| && 0 <= nb.availableCopies <= nb.totalCopies {
      forall b | b in after
        ensures after[b].availableCopies == after[b].totalCopies - |BookLoans(txs, b)|
        ensures 0 <= after[b].availableCopies <= after[b].totalCopies
      {
        if b != id {
          assert after[b] == books[b];
        }
      }
    } else {
      assert after[id] == nb;
    }
  }

  /** Leaving available_copies out while copies are on loan puts every copy
      back on the shelf and breaks the stock invariant. */
  lemma {:induction false} AbsentAvailableBreaksStock(books: map<int, Book>, txs: map<int, Transaction>, id: int,
                                                      input: BookInput)
    requires StockInvariant(books, txs) && id in books
    requires BookLoans(txs, id) != {} && input.availableCopies == 0
    ensures !StockInvariant(books[id := UpdatedBook(books[id], input)], txs)
  {
    UpdateStockIff(books, txs, id, input);
    assert |BookLoans(txs, id)| > 0;
  }

  /** deleteBook's checks: the book exists and has no ISSUED or OVERDUE loan. */
  function DeleteGuard(books: map<int, Book>, txs: map<int, Transaction>, id: int): (f: Option<Failure>)
    ensures f == Some(ErrBookNotFound) <==> id !in books
    ensures f == Some(ErrBookHasLoans) <==> id in books && BookLoans(txs, id) != {}
    ensures f.None? <==> id in books && BookLoans(txs, id) == {}
  {
    if id !in books then Some(ErrBookNotFound)
    else if BookLoans(txs, id) != {} then Some(ErrBookHasLoans)
    else None
  }

  /** deleteBook: the book row goes and the stock invariant survives. */
  method DeleteBook(db: Database, id: int) returns (r: Result<()>)
    requires db.Valid()
    modifies db`books
    ensures db.Valid()
    ensures DeleteGuard(old(db.books), db.transactions, id).Some? ==>
      r == Err(DeleteGuard(old(db.books), db.transactions, id).value) && unchanged(db)
    ensures DeleteGuard(old(db.books), db.transactions, id).None? ==>
      r == Ok(()) && db.books == old(db.books) - {id}
    ensures old(db.LoanInvariant()) ==> db.LoanInvariant()
  {
    var f := DeleteGuard(db.books, db.transactions, id);
    if f.Some? {
      return Err(f.value);
    }
    db.books := db.books - {id};
    r := Ok(());
  }

  /** The `type` argument of searchBooks; anything but the four column
      names (including its default 'all') searches every column. */
  datatype SearchType = ByTitle | ByAuthor | ByIsbn | ByCategory | ByAny

  function ParseSearchType(t: string): (st: SearchType)
    ensures st.ByTitle? <==> t == "title"
    ensures st.ByAuthor? <==> t == "author"
    ensures st.ByIsbn? <==> t == "isbn"
    ensures st.ByCategory? <==> t == "category"
  {
    if t == "title" then ByTitle
    else if t == "author" then ByAuthor
    else if t == "isbn" then ByIsbn
    else if t == "category" then ByCategory
    else ByAny
  }

  /** `LOWER(col) LIKE LOWER('%q%')`; a NULL column matches nothing. */
  predicate LikeIgnoringCase(col: Option<string>, q: string)
  {
    col.Some? && Contains(Lower(col.value), Lower(q))
  }

  /** `isbn LIKE '%q%'`: the ISBN test keeps case; a NULL ISBN matches nothing. */
  predicate IsbnContains(isbn: Option<string>, q: string)
  {
    isbn.Some? && Contains(isbn.value, q)
  }

  /** The WHERE clause of each search type. */
  predicate Matches(b: Book, q: string, st: SearchType)
  {
    match st
    case ByTitle => LikeIgnoringCase(Some(b.title), q)
    case ByAuthor => LikeIgnoringCase(Some(b.author), q)
    case ByIsbn => IsbnContains(b.isbn, q)
    case ByCategory => LikeIgnoringCase(b.category, q)
    case ByAny =>
      LikeIgnoringCase(Some(b.title), q) || LikeIgnoringCase(Some(b.author), q)
      || LikeIgnoringCase(b.category, q) || IsbnContains(b.isbn, q)
  }

  /** searchBooks: exactly the books the chosen WHERE clause keeps. */
  function SearchBooks(books: map<int, Book>, idBound: int, query: string, searchType: string)
    : (rows: seq<(int, Book)>)
    ensures forall x :: x in rows ==> x.0 in books && books[x.0] == x.1 && Matches(x.1, query, ParseSearchType(searchType))
    ensures forall id :: id in books && 1 <= id < idBound && Matches(books[id], query, ParseSearchType(searchType)) ==>
      (id, books[id]) in rows
    ensures forall a, b :: 0 <= a < b < |rows| ==> rows[a].0 < rows[b].0
  {
    var st := ParseSearchType(searchType);
    var rows := Query.SelectRows(books, (b: Book) => Matches(b, query, st), 1, idBound);
    assert forall k :: 0 <= k < |rows| ==> Matches(rows[k].1, query, st);
    rows
  }

  /** A hit of a single-column search is also a hit of the all-columns search. */
  lemma {:induction false} ColumnHitIsAnyHit(b: Book, q: string, st: SearchType)
    requires Matches(b, q, st)
    ensures Matches(b, q, ByAny)
  {
    match st
    case ByTitle =>
    case ByAuthor =>
    case ByIsbn =>
    case ByCategory =>
    case ByAny =>
  }

  /** The title, author and category searches ignore the case of the query. */
  lemma {:induction false} SearchIgnoresCase(b: Book, q: string, st: SearchType)
    requires st.ByTitle? || st.ByAuthor? || st.ByCategory?
    ensures Matches(b, Upper(q), st) == Matches(b, q, st)
    ensures Matches(b, Lower(q), st) == Matches(b, q, st)
  {
    LowerOfUpper(q);
    LowerOfLower(q);
  }

  /** An empty query (`LIKE '%%'`) finds every book by title. */
  lemma {:induction false} EmptyQueryFindsAll(b: Book, st: SearchType)
    requires st.ByTitle? || st.ByAny?
    ensures Matches(b, "", st)
  {
    assert OccursAt(Lower(b.title), "", 0);
  }
}
