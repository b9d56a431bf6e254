/**
 * The handlers of main.go over an in-memory copy of the two tables. Each
 * method issues the statements of its handler in order, one atomic step each;
 * deleting a book removes its history first.
 */
module Server {
  import opened Store

  class Library {
    var books: map<int, Book>
    var history: seq<Loan>
    var nextBookId: int
    var nextLoanId: int
    var clock: int

    /** The tables and generators as one value. */
    function Tables(): Db
      reads this
    {
      Db(books, history, nextBookId, nextLoanId, clock)
    }

    ghost predicate Valid()
      reads this
    {
      Store.Valid(Tables())
    }

    constructor ()
      ensures Valid() && Tables() == Empty
    {
      books, history := map[], [];
      nextBookId, nextLoanId, clock := 1, 1, 0;
    }

    /** POST /api/book. */
    method Borrow(id: int, borrower: string) returns (outcome: Outcome)
      requires Valid()
      modifies this
      ensures Valid()
      ensures Step(Tables(), outcome) == Store.Borrow(old(Tables()), id, borrower)
      ensures outcome == Done ==> books[id].stock == old(books[id].stock) - 1 >= 0
      ensures outcome != Done ==> Tables() == old(Tables())
    {
      // the guarded decrement: only a present book with stock above zero
      var rowsAffected := 0;
      if id in books && books[id].stock > 0 {
        books := books[id := books[id].(stock := books[id].stock - 1)];
        rowsAffected := 1;
      }
      if rowsAffected == 0 {
        return Failed(OutOfStockOrNotFound);
      }
      // the history insert of an open record
      history := history + [Loan(nextLoanId, id, borrower, clock, Dipinjam)];
      nextLoanId, clock := nextLoanId + 1, clock + 1;
      outcome := Done;
      ApplyPreservesValid(Cascade, old(Tables()), BorrowRequest(id, borrower));
    }

    /** POST /api/return. */
    method Return(id: int) returns (outcome: Outcome)
      requires Valid()
      modifies this
      ensures Valid()
      ensures Step(Tables(), outcome) == Store.Return(old(Tables()), id)
      ensures outcome == Done ==> books[id].stock == old(books[id].stock) + 1
      ensures outcome != Done ==> Tables() == old(Tables())
    {
      // the unguarded increment
      var rowsAffected := 0;
      if id in books {
        books := books[id := books[id].(stock := books[id].stock + 1)];
        rowsAffected := 1;
      }
      if rowsAffected == 0 {
        return Failed(BookNotFound);
      }
      // the close of the oldest open record, if any
      history := CloseOldestOpen(history, id);
      outcome := Done;
      ApplyPreservesValid(Cascade, old(Tables()), ReturnRequest(id));
    }

    /** POST /api/books: returns the id the insert assigned. */
    method CreateBook(title: string, author: string, stock: int) returns (id: int)
      requires Valid()
      modifies this
      ensures Valid()
      ensures Tables() == Store.Create(old(Tables()), title, author, stock).db
      ensures id !in old(books) && books == old(books)[id := Book(title, author, stock)]
    {
      // the book insert, answering with the serial id it took
      id := nextBookId;
      books := books[id := Book(title, author, stock)];
      nextBookId := nextBookId + 1;
      ApplyPreservesValid(Cascade, old(Tables()), CreateRequest(title, author, stock));
    }

    /** POST /api/book/update. */
    method UpdateBook(id: int, title: string, author: string, stock: int) returns (outcome: Outcome)
      requires Valid()
      modifies this
      ensures Valid()
      ensures Step(Tables(), outcome) == Store.Update(old(Tables()), id, title, author, stock)
    {
      // the overwrite of title, author and stock
      if id in books {
        books := books[id := Book(title, author, stock)];
      }
      outcome := Done;
      ApplyPreservesValid(Cascade, old(Tables()), UpdateRequest(id, title, author, stock));
    }

    /** POST /api/book/delete: history first, then the book. */
    method DeleteBook(id: int) returns (outcome: Outcome)
      requires Valid()
      modifies this
      ensures Valid()
      ensures Step(Tables(), outcome) == Store.Delete(Cascade, old(Tables()), id)
      ensures id !in books && forall x :: x in history ==> x.bookId != id
    {
      // the deletion of the book's history
      history := LoansNotOf(history, id);
      // the deletion of the book
      books := books - {id};
      outcome := Done;
      ApplyPreservesValid(Cascade, old(Tables()), DeleteRequest(id));
    }

    /** GET /api/books. */
    method ListBooks() returns (rows: seq<BookRow>)
      ensures |rows| == |books|
      ensures forall r :: r in rows <==> r.id in books && r == RowOf(r.id, books[r.id])
      ensures forall i, j :: 0 <= i < j < |rows| ==> rows[i].id > rows[j].id
    {
      rows := SelectBooks(books);
    }

    /** GET /api/history. */
    method ListHistory() returns (rows: seq<HistoryRow>)
      requires Valid()
      ensures rows == HistoryListing(books, history)
      ensures |rows| == |history| && NewestFirst(rows)
    {
      rows := SelectHistory(books, history);
      HistoryListingComplete(books, history);
      HistoryListingDescending(books, history);
    }
  }
}
