/**
 * The pure decisions of the React page (frontend/src/App.jsx): whether a book
 * shows as on loan, the search filter, the guards in front of the add/update
 * and borrow requests, and the enabling of the two buttons on each book.
 * The page works on the rows the two listing endpoints return.
 */
module Frontend {
  import opened Store

  // ---------------------------------------------------------------------------
  // isBorrowed
  // ---------------------------------------------------------------------------

  /** `histories.some(h => h.id_buku === id_buku && h.status === 'Dipinjam')`. */
  function IsBorrowed(histories: seq<HistoryRow>, id: int): (r: bool)
    ensures r <==> exists i :: 0 <= i < |histories| && histories[i].bookId == id && histories[i].status == Dipinjam
  {
    if histories == [] then false
    else
      var found := histories[0].bookId == id && histories[0].status == Dipinjam;
      assert forall i :: 1 <= i < |histories| ==> histories[i] == histories[1..][i - 1];
      found || IsBorrowed(histories[1..], id)
  }

  /** On a freshly fetched history, a book shows as borrowed exactly when the
      store holds an open record for it. */
  lemma IsBorrowedMatchesStore(db: Db, id: int)
    requires Valid(db)
    ensures IsBorrowed(HistoryListing(db.books, db.history), id) <==> id in db.books && OpenCount(db.history, id) > 0
  {
    HistoryListingShowsOpenLoans(db.books, db.history, id);
  }

  // ---------------------------------------------------------------------------
  // filteredBooks
  // ---------------------------------------------------------------------------

  /** `toLowerCase` on the ASCII letters; other characters are kept. */
  function LowerChar(c: char): char
  {
    if 'A' <= c <= 'Z' then (c as int - 'A' as int + 'a' as int) as char else c
  }

  function Lower(s: string): (r: string)
    ensures |r| == |s| && forall i :: 0 <= i < |s| ==> r[i] == LowerChar(s[i])
  {
    if s == [] then [] else [LowerChar(s[0])] + Lower(s[1..])
  }

  predicate OccursAt(s: string, t: string, k: int)
  {
    0 <= k && k + |t| <= |s| && s[k..k + |t|] == t
  }

  /** `t` occurs somewhere in `s`. */
  ghost predicate Occurs(s: string, t: string)
  {
    exists k :: OccursAt(s, t, k)
  }

  /** `s.includes(t)`. */
  function Includes(s: string, t: string): (r: bool)
    ensures r <==> Occurs(s, t)
  {
    if |t| > |s| then
      assert forall k :: !OccursAt(s, t, k);
      false
    else if s[..|t|] == t then
      assert OccursAt(s, t, 0);
      true
    else
      var r := Includes(s[1..], t);
      assert forall k :: OccursAt(s[1..], t, k) ==> OccursAt(s, t, k + 1) by {
        forall k | OccursAt(s[1..], t, k) ensures OccursAt(s, t, k + 1) {
          assert s[1..][k..k + |t|] == s[k + 1..k + 1 + |t|];
        }
      }
      assert forall k :: OccursAt(s, t, k) ==> k >= 1 && OccursAt(s[1..], t, k - 1) by {
        forall k | OccursAt(s, t, k) ensures k >= 1 && OccursAt(s[1..], t, k - 1) {
          if k == 0 {
            assert false;
          }
          assert s[1..][k - 1..k - 1 + |t|] == s[k..k + |t|];
        }
      }
      r
  }

  /** The search predicate: lower-cased title or author contains the lower-cased term. */
  function Matches(book: BookRow, term: string): (r: bool)
    ensures r <==> Occurs(Lower(book.title), Lower(term)) || Occurs(Lower(book.author), Lower(term))
    ensures term == "" ==> r
  {
    assert term == "" ==> Lower(term) == [] && OccursAt(Lower(book.title), Lower(term), 0);
    Includes(Lower(book.title), Lower(term)) || Includes(Lower(book.author), Lower(term))
  }

  /** `books.filter(...)`. */
  function FilteredBooks(books: seq<BookRow>, term: string): (r: seq<BookRow>)
    ensures |r| <= |books|
    ensures forall b :: b in r <==> b in books && Matches(b, term)
  {
    if books == [] then []
    else
      var rest := FilteredBooks(books[1..], term);
      assert forall b :: b in books <==> b == books[0] || b in books[1..];
      if Matches(books[0], term) then [books[0]] + rest else rest
  }

  /** `xs` is `ys` with some elements left out, the rest kept in order. */
  predicate SubsequenceOf(xs: seq<BookRow>, ys: seq<BookRow>)
    decreases |ys|
  {
    if xs == [] then true
    else if ys == [] then false
    else if xs[0] == ys[0] then SubsequenceOf(xs[1..], ys[1..])
    else SubsequenceOf(xs, ys[1..])
  }

  /** The filter keeps the order of the catalogue. */
  lemma {:induction false} FilteredIsSubsequence(books: seq<BookRow>, term: string)
    ensures SubsequenceOf(FilteredBooks(books, term), books)
  {
    if books != [] {
      FilteredIsSubsequence(books[1..], term);
      var rest := FilteredBooks(books[1..], term);
      if !Matches(books[0], term) && rest != [] {
        assert rest[0] in rest;
        assert rest[0] != books[0];
      }
    }
  }

  /** An empty search term shows the whole catalogue. */
  lemma {:induction false} EmptyTermShowsAll(books: seq<BookRow>)
    ensures FilteredBooks(books, "") == books
  {
    if books != [] {
      assert OccursAt(Lower(books[0].title), "", 0);
      EmptyTermShowsAll(books[1..]);
    }
  }

  /** Lower-casing twice changes nothing. */
  lemma LowerIdempotent(s: string)
    ensures Lower(Lower(s)) == Lower(s)
  {
  }

  /** The filter ignores the case of the term. */
  lemma MatchIgnoresCase(book: BookRow, term: string)
    ensures Matches(book, Lower(term)) == Matches(book, term)
  {
    LowerIdempotent(term);
  }

  // ---------------------------------------------------------------------------
  // Guards in front of the requests
  // ---------------------------------------------------------------------------

  /** handleAddOrUpdateBook: nothing is sent when the title or author is empty or
      the stock is below 1; otherwise an update of `editing` or a create. */
  function SubmitBookForm(title: string, author: string, stock: int, editing: Option<int>): (r: Option<Request>)
    ensures r.Some? <==> title != "" && author != "" && stock >= 1
    ensures r.Some? && editing.Some? ==> r.value == UpdateRequest(editing.value, title, author, stock)
    ensures r.Some? && editing.None? ==> r.value == CreateRequest(title, author, stock)
  {
    if title == "" || author == "" || stock < 1 then None
    else match editing
      case Some(id) => Some(UpdateRequest(id, title, author, stock))
      case None => Some(CreateRequest(title, author, stock))
  }

  /** Whatever the form sends cannot make a stock negative on the server. */
  lemma FormKeepsStockNonNegative(policy: DeletePolicy, db: Db, title: string, author: string,
                                  stock: int, editing: Option<int>)
    requires NonNegativeStock(db)
    requires SubmitBookForm(title, author, stock, editing).Some?
    ensures NonNegativeStock(Apply(policy, db, SubmitBookForm(title, author, stock, editing).value).db)
  {
    ApplyKeepsStockNonNegative(policy, db, SubmitBookForm(title, author, stock, editing).value);
  }

  /** handleBooking: `answer` is what the prompt returned (`None` when cancelled);
      a borrow is sent only for a non-empty name. */
  function BookingRequest(id: int, answer: Option<string>): (r: Option<Request>)
    ensures r.Some? <==> answer.Some? && answer.value != ""
    ensures r.Some? ==> r.value == BorrowRequest(id, answer.value)
  {
    match answer
    case Some(name) => if name == "" then None else Some(BorrowRequest(id, name))
    case None => None
  }

  // ---------------------------------------------------------------------------
  // Buttons
  // ---------------------------------------------------------------------------

  /** `disabled={book.stock === 0}` on "Pinjam". */
  function BorrowDisabled(book: BookRow): (r: bool)
    ensures r ==> BorrowLabel(book) == "Kosong"
    ensures book.stock > 0 ==> !r
  {
    book.stock == 0
  }

  /** `{book.stock > 0 ? "Pinjam" : "Kosong"}`. */
  function BorrowLabel(book: BookRow): (r: string)
    ensures r == "Pinjam" || r == "Kosong"
    ensures r == "Pinjam" <==> book.stock > 0
  {
    if book.stock > 0 then "Pinjam" else "Kosong"
  }

  /** `disabled={!isBorrowed(book.id_buku)}` on "Kembalikan". */
  function ReturnDisabled(histories: seq<HistoryRow>, book: BookRow): (r: bool)
    ensures r <==> forall i :: 0 <= i < |histories| ==>
      !(histories[i].bookId == book.id && histories[i].status == Dipinjam)
  {
    !IsBorrowed(histories, book.id)
  }

  /** With a non-negative stock the borrow button is disabled exactly when it
      reads "Kosong"; a negative stock leaves it enabled under "Kosong". */
  lemma BorrowButtonAgreesWithLabel(book: BookRow)
    ensures book.stock >= 0 ==> (BorrowDisabled(book) <==> BorrowLabel(book) == "Kosong")
    ensures book.stock < 0 ==> !BorrowDisabled(book) && BorrowLabel(book) == "Kosong"
  {
  }

  /** For a listed book with non-negative stock, the borrow button is enabled
      exactly when the server would accept the borrow. */
  lemma BorrowButtonMatchesServer(db: Db, book: BookRow, borrower: string)
    requires NonNegativeStock(db)
    requires book.id in db.books && book == RowOf(book.id, db.books[book.id])
    ensures !BorrowDisabled(book) <==> Borrow(db, book.id, borrower).outcome == Done
  {
  }

  /** On a fresh history the return button is enabled exactly when the book has
      an open loan, and then the server's return keeps every balance; it is the
      button, not the server, that keeps a return of a book not on loan away. */
  lemma ReturnButtonGuardsServer(db: Db, book: BookRow)
    requires Valid(db)
    requires book.id in db.books
    ensures var enabled := !ReturnDisabled(HistoryListing(db.books, db.history), book);
      && (enabled <==> OpenCount(db.history, book.id) > 0)
      && (enabled ==> forall k :: k in db.books ==> Balance(Return(db, book.id).db, k) == Balance(db, k))
  {
    IsBorrowedMatchesStore(db, book.id);
    forall k | k in db.books
      ensures OpenCount(db.history, book.id) > 0 ==> Balance(Return(db, book.id).db, k) == Balance(db, k)
    {
      if OpenCount(db.history, book.id) > 0 {
        ReturnKeepsBalanceWhenOnLoan(db, book.id, k);
      }
    }
  }
}
