/** The library database: the five tables every controller reads and writes,
    and the identity generator that numbers new rows. */
module Store {
  import opened Common
  import opened Schema
  import Ledger

  class Database {
    var books: map<int, Book>
    var members: map<int, Member>
    var transactions: map<int, Transaction>
    var fines: map<int, Fine>
    var reservations: map<int, Reservation>
    /** The next identity value; every row's key was handed out before it. */
    var nextId: int

    /** Row keys come from the identity generator, and a loan names a book
        number that was handed out, so a new book starts with no loans. */
    ghost predicate Valid()
      reads this
    {
      && nextId >= 1
      && (forall k :: k in books ==> 1 <= k < nextId)
      && (forall k :: k in members ==> 1 <= k < nextId)
      && (forall k :: k in transactions ==> 1 <= k < nextId)
      && (forall k :: k in fines ==> 1 <= k < nextId)
      && (forall k :: k in reservations ==> 1 <= k < nextId)
      && (forall k :: k in transactions ==> transactions[k].bookId < nextId)
    }

    /** Shelf stock agrees with the open loans (see Ledger.StockInvariant). */
    ghost predicate LoanInvariant()
      reads this
    {
      Ledger.StockInvariant(books, transactions)
    }

    constructor ()
      ensures Valid() && LoanInvariant()
      ensures books == map[] && members == map[] && transactions == map[]
      ensures fines == map[] && reservations == map[]
    {
      books, members, transactions, fines, reservations := map[], map[], map[], map[], map[];
      nextId := 1;
    }

    /** `RETURNING <id> INTO :id`: a value no table uses yet. */
    method NewId() returns (id: int)
      requires Valid()
      modifies this`nextId
      ensures id == old(nextId) && nextId == id + 1 && id >= 1
      ensures id !in books && id !in members && id !in transactions && id !in fines && id !in reservations
      ensures Valid()
    {
      id := nextId;
      nextId := nextId + 1;
    }
  }
}
