/**
 * The lending store behind both Go servers: the `books` and `borrow_history`
 * tables, the transitions their HTTP handlers perform on them, and the two
 * listing queries. Every SQL statement is one atomic step; the handler-level
 * transitions below compose those steps in the order the handlers issue them.
 */
module Store {

  datatype Option<T> = None | Some(value: T)

  /** A row of `books` (judul, author, stock), keyed by `id_buku` in `Db.books`. */
  datatype Book = Book(title: string, author: string, stock: int)

  /** The only two values the handlers ever write into `borrow_history.status`. */
  datatype Status = Dipinjam | Dikembalikan

  /** A row of `borrow_history`; `borrowDate` is the abstract insertion time. */
  datatype Loan = Loan(id: int, bookId: int, borrower: string, borrowDate: int, status: Status)

  /** A row of the catalogue listing, as the Go `Book` struct carries it. */
  datatype BookRow = BookRow(id: int, title: string, author: string, stock: int)

  /** A row of the history listing, as the Go `History` struct carries it. */
  datatype HistoryRow = HistoryRow(id: int, bookId: int, title: string, borrower: string,
                                   borrowDate: int, status: Status)

  /** Both tables, the next values of their serial id columns, and the clock
      standing in for the default of `borrow_date`. */
  datatype Db = Db(books: map<int, Book>, history: seq<Loan>,
                   nextBookId: int, nextLoanId: int, clock: int)

  /** Why a handler answered with an error. */
  datatype Failure =
    | OutOfStockOrNotFound   // borrow: the guarded UPDATE touched no row
    | BookNotFound           // return: the UPDATE touched no row
    | ForeignKeyViolation    // delete without cascade: history still refers to the book

  datatype Outcome = Done | Failed(reason: Failure)

  datatype Step = Step(db: Db, outcome: Outcome)

  /** main.go deletes the book's history before the book; backend/main.go does not. */
  datatype DeletePolicy = Cascade | Restrict

  /** A request as the HTTP layer hands it to the store. */
  datatype Request =
    | BorrowRequest(id: int, borrower: string)
    | ReturnRequest(id: int)
    | CreateRequest(title: string, author: string, stock: int)
    | UpdateRequest(id: int, title: string, author: string, stock: int)
    | DeleteRequest(id: int)

  // ---------------------------------------------------------------------------
  // Invariants and observations
  // ---------------------------------------------------------------------------

  /** The freshly created database: both serial columns start at 1. */
  const Empty := Db(map[], [], 1, 1, 0)

  /** Serial ids and insertion times grow with the position in `borrow_history`. */
  predicate Chronological(h: seq<Loan>)
  {
    forall i, j :: 0 <= i < j < |h| ==> h[i].id < h[j].id && h[i].borrowDate < h[j].borrowDate
  }

  /** A history record was issued by the generators of `db` and refers to a present book. */
  predicate LoanFits(db: Db, x: Loan)
  {
    1 <= x.id < db.nextLoanId && x.borrowDate < db.clock && x.bookId in db.books
  }

  /** What every handler keeps: ids come from the serial generators, the clock is
      ahead of every record, and the foreign key from history to books holds. */
  predicate Valid(db: Db)
  {
    && 1 <= db.nextBookId && 1 <= db.nextLoanId
    && (forall k :: k in db.books ==> 1 <= k < db.nextBookId)
    && (forall i :: 0 <= i < |db.history| ==> LoanFits(db, db.history[i]))
    && Chronological(db.history)
  }

  predicate NonNegativeStock(db: Db)
  {
    forall k :: k in db.books ==> db.books[k].stock >= 0
  }

  predicate IsOpenFor(x: Loan, id: int)
  {
    x.bookId == id && x.status == Dipinjam
  }

  function Tally(x: Loan, id: int): nat
  {
    if IsOpenFor(x, id) then 1 else 0
  }

  /** The number of 'Dipinjam' records of book `id`. */
  function OpenCount(h: seq<Loan>, id: int): (n: nat)
    ensures n <= |h|
    ensures n == 0 <==> forall i :: 0 <= i < |h| ==> !IsOpenFor(h[i], id)
  {
    if h == [] then 0
    else
      var n := Tally(h[0], id) + OpenCount(h[1..], id);
      assert forall i :: 1 <= i < |h| ==> h[i] == h[1..][i - 1];
      n
  }

  /** Stock on the shelf plus copies on loan: what a borrow or a return should conserve. */
  function Balance(db: Db, id: int): int
    requires id in db.books
  {
    db.books[id].stock + OpenCount(db.history, id)
  }

  /** `i` is the open record of book `id` with the strictly earliest borrow date. */
  predicate IsOldestOpen(h: seq<Loan>, id: int, i: int)
  {
    && 0 <= i < |h| && IsOpenFor(h[i], id)
    && forall j :: 0 <= j < |h| && j != i && IsOpenFor(h[j], id) ==> h[i].borrowDate < h[j].borrowDate
  }

  // ---------------------------------------------------------------------------
  // Statements
  // ---------------------------------------------------------------------------

  /** The subquery `SELECT id FROM borrow_history WHERE id_buku = $1 AND
      status = 'Dipinjam' ORDER BY borrow_date ASC LIMIT 1`, as a position. */
  function OldestOpen(h: seq<Loan>, id: int): (r: Option<nat>)
    ensures r.None? <==> forall j :: 0 <= j < |h| ==> !IsOpenFor(h[j], id)
    ensures r.Some? ==> r.value < |h| && IsOpenFor(h[r.value], id)
    ensures r.Some? ==> forall j :: 0 <= j < |h| && IsOpenFor(h[j], id) ==>
                          h[r.value].borrowDate <= h[j].borrowDate
  {
    if h == [] then None
    else
      var rest := OldestOpen(h[1..], id);
      assert forall j :: 1 <= j < |h| ==> h[j] == h[1..][j - 1];
      if IsOpenFor(h[0], id) && (rest.None? || h[0].borrowDate <= h[1..][rest.value].borrowDate) then Some(0)
      else if rest.None? then None
      else Some(1 + rest.value)
  }

  /** `UPDATE borrow_history SET status = 'Dikembalikan' WHERE id = (<OldestOpen>)`.
      Loan ids are unique (Chronological), so the update hits that one row. */
  function CloseOldestOpen(h: seq<Loan>, id: int): (r: seq<Loan>)
    ensures |r| == |h|
    ensures forall i :: 0 <= i < |h| ==>
      r[i].id == h[i].id && r[i].bookId == h[i].bookId && r[i].borrower == h[i].borrower
      && r[i].borrowDate == h[i].borrowDate
    ensures forall i :: 0 <= i < |h| && r[i] != h[i] ==> IsOpenFor(h[i], id) && r[i].status == Dikembalikan
    ensures (forall i :: 0 <= i < |h| ==> !IsOpenFor(h[i], id)) ==> r == h
  {
    match OldestOpen(h, id)
    case None => h
    case Some(i) => h[i := h[i].(status := Dikembalikan)]
  }

  /** `DELETE FROM borrow_history WHERE id_buku = $1`. */
  function LoansNotOf(h: seq<Loan>, id: int): (r: seq<Loan>)
    ensures forall x :: x in r <==> x in h && x.bookId != id
  {
    if h == [] then []
    else
      var rest := LoansNotOf(h[1..], id);
      assert forall x :: x in h[1..] ==> x in h;
      if h[0].bookId == id then rest else [h[0]] + rest
  }

  predicate HasLoans(h: seq<Loan>, id: int)
  {
    exists i :: 0 <= i < |h| && h[i].bookId == id
  }

  // ---------------------------------------------------------------------------
  // Handlers
  // ---------------------------------------------------------------------------

  /** POST /api/book: `UPDATE books SET stock = stock - 1 WHERE id_buku = $1 AND
      stock > 0`; no row touched is an error, otherwise the open record is inserted. */
  function Borrow(db: Db, id: int, borrower: string): (r: Step)
    ensures r.outcome == Done <==> id in db.books && db.books[id].stock > 0
    ensures r.outcome != Done ==> r.outcome == Failed(OutOfStockOrNotFound) && r.db == db
    ensures r.outcome == Done ==> r.db.books.Keys == db.books.Keys && r.db.books[id].stock == db.books[id].stock - 1 >= 0
    ensures r.outcome == Done ==> |r.db.history| == |db.history| + 1 && IsOpenFor(r.db.history[|db.history|], id)
  {
    if id in db.books && db.books[id].stock > 0 then
      var b := db.books[id];
      var loan := Loan(db.nextLoanId, id, borrower, db.clock, Dipinjam);
      Step(db.(books := db.books[id := b.(stock := b.stock - 1)],
               history := db.history + [loan],
               nextLoanId := db.nextLoanId + 1,
               clock := db.clock + 1),
           Done)
    else
      Step(db, Failed(OutOfStockOrNotFound))
  }

  /** POST /api/return: `UPDATE books SET stock = stock + 1 WHERE id_buku = $1`;
      no row touched is an error, otherwise the oldest open record is closed. */
  function Return(db: Db, id: int): (r: Step)
    ensures r.outcome == Done <==> id in db.books
    ensures r.outcome != Done ==> r.outcome == Failed(BookNotFound) && r.db == db
    ensures r.outcome == Done ==> r.db.books.Keys == db.books.Keys && r.db.books[id].stock == db.books[id].stock + 1
    ensures |r.db.history| == |db.history|
  {
    if id in db.books then
      var b := db.books[id];
      Step(db.(books := db.books[id := b.(stock := b.stock + 1)],
               history := CloseOldestOpen(db.history, id)),
           Done)
    else
      Step(db, Failed(BookNotFound))
  }

  /** POST /api/books: `INSERT INTO books ... RETURNING id_buku`; the new id is
      the old `nextBookId`. */
  function Create(db: Db, title: string, author: string, stock: int): (r: Step)
    ensures r.outcome == Done && r.db.history == db.history
    ensures r.db.books.Keys == db.books.Keys + {db.nextBookId}
    ensures r.db.books[db.nextBookId] == Book(title, author, stock)
  {
    Step(db.(books := db.books[db.nextBookId := Book(title, author, stock)],
             nextBookId := db.nextBookId + 1),
         Done)
  }

  /** POST /api/book/update: `UPDATE books SET judul, author, stock WHERE id_buku = $4`. */
  function Update(db: Db, id: int, title: string, author: string, stock: int): (r: Step)
    ensures r.outcome == Done && r.db.history == db.history
    ensures r.db.books.Keys == db.books.Keys
    ensures id in db.books ==> r.db.books[id] == Book(title, author, stock)
  {
    Step(db.(books := if id in db.books then db.books[id := Book(title, author, stock)] else db.books),
         Done)
  }

  /** POST /api/book/delete under either policy. */
  function Delete(policy: DeletePolicy, db: Db, id: int): (r: Step)
    ensures r.outcome == Done ==> id !in r.db.books && r.db.books.Keys == db.books.Keys - {id}
    ensures r.outcome != Done ==> policy == Restrict && r.outcome == Failed(ForeignKeyViolation) && r.db == db
    ensures policy == Cascade ==> r.outcome == Done && forall i :: 0 <= i < |r.db.history| ==> r.db.history[i].bookId != id
  {
    match policy
    case Cascade =>
      Step(db.(history := LoansNotOf(db.history, id), books := db.books - {id}), Done)
    case Restrict =>
      if id in db.books && HasLoans(db.history, id) then Step(db, Failed(ForeignKeyViolation))
      else Step(db.(books := db.books - {id}), Done)
  }

  function Apply(policy: DeletePolicy, db: Db, req: Request): Step
  {
    match req
    case BorrowRequest(id, borrower) => Borrow(db, id, borrower)
    case ReturnRequest(id) => Return(db, id)
    case CreateRequest(title, author, stock) => Create(db, title, author, stock)
    case UpdateRequest(id, title, author, stock) => Update(db, id, title, author, stock)
    case DeleteRequest(id) => Delete(policy, db, id)
  }

  /** The requests served one after another. */
  function Run(policy: DeletePolicy, db: Db, reqs: seq<Request>): Db
    decreases |reqs|
  {
    if reqs == [] then db else Run(policy, Apply(policy, db, reqs[0]).db, reqs[1..])
  }

  /** The stock a request writes into a row is not negative. */
  predicate WritesNonNegativeStock(req: Request)
  {
    match req
    case CreateRequest(_, _, stock) => stock >= 0
    case UpdateRequest(_, _, _, stock) => stock >= 0
    case _ => true
  }

  // ---------------------------------------------------------------------------
  // Queries
  // ---------------------------------------------------------------------------

  function RowOf(id: int, b: Book): BookRow
  {
    BookRow(id, b.title, b.author, b.stock)
  }

  function JoinRow(x: Loan, b: Book): HistoryRow
  {
    HistoryRow(x.id, x.bookId, b.title, x.borrower, x.borrowDate, x.status)
  }

  /** A non-empty set of ids has a largest element. */
  lemma {:induction false} MaxKey(s: set<int>) returns (m: int)
    requires s != {}
    ensures m in s && forall k :: k in s ==> k <= m
    decreases |s|
  {
    if forall y :: y !in s { assert false; }
    var x :| x in s;
    var rest := s - {x};
    if rest == {} {
      m := x;
      forall k | k in s ensures k <= m { assert k == x || k in rest; }
    } else {
      var r := MaxKey(rest);
      m := if x < r then r else x;
      forall k | k in s ensures k <= m { assert k == x || k in rest; }
    }
  }

  /** `SELECT id_buku, judul, author, stock FROM books ORDER BY id_buku DESC`
      and the loop that appends each scanned row (main.go:63-78). */
  method SelectBooks(books: map<int, Book>) returns (rows: seq<BookRow>)
    ensures |rows| == |books|
    ensures forall r :: r in rows <==> r.id in books && r == RowOf(r.id, books[r.id])
    ensures forall k :: k in books ==> RowOf(k, books[k]) in rows
    ensures forall i, j :: 0 <= i < j < |rows| ==> rows[i].id > rows[j].id
  {
    rows := [];
    var pending := books.Keys;
    while pending != {}
      invariant pending <= books.Keys
      invariant |rows| + |pending| == |books|
      invariant forall r :: r in rows <==> r.id in books && r.id !in pending && r == RowOf(r.id, books[r.id])
      invariant forall i, k :: 0 <= i < |rows| && k in pending ==> rows[i].id > k
      invariant forall i, j :: 0 <= i < j < |rows| ==> rows[i].id > rows[j].id
      decreases |pending|
    {
      // the lemma's witness shows the `:|` below has a value to pick
      ghost var top := MaxKey(pending);
      var k :| k in pending && forall j :: j in pending ==> j <= k;
      rows := rows + [RowOf(k, books[k])];
      pending := pending - {k};
    }
  }

  /** The result of `SELECT ... FROM borrow_history h JOIN books b ON h.id_buku =
      b.id_buku ORDER BY h.id DESC`: records whose book is present, last inserted first. */
  function HistoryListing(books: map<int, Book>, h: seq<Loan>): (r: seq<HistoryRow>)
    ensures |r| <= |h|
    ensures forall i :: 0 <= i < |r| ==> r[i].bookId in books && r[i].title == books[r[i].bookId].title
  {
    if h == [] then []
    else
      var x := h[|h| - 1];
      var front := if x.bookId in books then [JoinRow(x, books[x.bookId])] else [];
      var rest := HistoryListing(books, h[..|h| - 1]);
      assert forall i :: |front| <= i < |front + rest| ==> (front + rest)[i] == rest[i - |front|];
      front + rest
  }

  /** The history query and the loop that appends each scanned row (main.go:256-277). */
  method SelectHistory(books: map<int, Book>, h: seq<Loan>) returns (rows: seq<HistoryRow>)
    ensures rows == HistoryListing(books, h)
  {
    rows := [];
    var i := |h|;
    assert h[..i] == h;
    while i > 0
      invariant 0 <= i <= |h|
      invariant HistoryListing(books, h) == rows + HistoryListing(books, h[..i])
    {
      var x := h[i - 1];
      assert h[..i][..i - 1] == h[..i - 1];
      if x.bookId in books {
        rows := rows + [JoinRow(x, books[x.bookId])];
      }
      i := i - 1;
    }
    assert h[..0] == [];
  }

  // ---------------------------------------------------------------------------
  // Lemmas: counting open loans
  // ---------------------------------------------------------------------------

  lemma {:induction false} OpenCountAppend(h: seq<Loan>, x: Loan, id: int)
    ensures OpenCount(h + [x], id) == OpenCount(h, id) + Tally(x, id)
  {
    if h != [] {
      assert (h + [x])[1..] == h[1..] + [x];
      OpenCountAppend(h[1..], x, id);
    }
  }

  lemma {:induction false} OpenCountUpdate(h: seq<Loan>, i: int, y: Loan, id: int)
    requires 0 <= i < |h|
    ensures OpenCount(h[i := y], id) == OpenCount(h, id) - Tally(h[i], id) + Tally(y, id)
  {
    if i == 0 {
      assert h[i := y][1..] == h[1..];
    } else {
      assert h[i := y][1..] == h[1..][i - 1 := y];
      OpenCountUpdate(h[1..], i - 1, y, id);
    }
  }

  lemma ConsChronological(a: Loan, r: seq<Loan>)
    requires Chronological(r)
    requires forall x :: x in r ==> a.id < x.id && a.borrowDate < x.borrowDate
    ensures Chronological([a] + r)
  {
    var s := [a] + r;
    forall i, j | 0 <= i < j < |s|
      ensures s[i].id < s[j].id && s[i].borrowDate < s[j].borrowDate
    {
      assert s[j] == r[j - 1] && r[j - 1] in r;
      if i > 0 {
        assert s[i] == r[i - 1];
      }
    }
  }

  /** The cascade keeps the surviving records in their order of insertion. */
  lemma {:induction false} LoansNotOfKeepsOrder(h: seq<Loan>, id: int)
    requires Chronological(h)
    ensures Chronological(LoansNotOf(h, id))
  {
    if h != [] {
      var t := h[1..];
      assert Chronological(t);
      LoansNotOfKeepsOrder(t, id);
      var rest := LoansNotOf(t, id);
      if h[0].bookId != id {
        forall x | x in rest ensures h[0].id < x.id && h[0].borrowDate < x.borrowDate {
          assert x in t;
          var k :| 0 <= k < |t| && t[k] == x;
          assert h[k + 1] == x;
        }
        ConsChronological(h[0], rest);
      }
    }
  }

  // ---------------------------------------------------------------------------
  // Lemmas: borrow
  // ---------------------------------------------------------------------------

  /** Borrow succeeds exactly when the book exists with stock above zero; then that
      stock drops by one, no other book changes, and exactly one open record
      (book, borrower) is appended; otherwise nothing changes. */
  lemma BorrowSemantics(db: Db, id: int, borrower: string)
    ensures var r := Borrow(db, id, borrower);
      && (r.outcome == Done <==> id in db.books && db.books[id].stock > 0)
      && (r.outcome != Done ==> r.outcome == Failed(OutOfStockOrNotFound) && r.db == db)
      && (r.outcome == Done ==>
            && r.db.books.Keys == db.books.Keys
            && r.db.books[id].stock == db.books[id].stock - 1
            && r.db.books[id].title == db.books[id].title
            && r.db.books[id].author == db.books[id].author
            && (forall k :: k in db.books && k != id ==> r.db.books[k] == db.books[k])
            && |r.db.history| == |db.history| + 1
            && r.db.history[..|db.history|] == db.history
            && var x := r.db.history[|db.history|];
               x.bookId == id && x.borrower == borrower && x.status == Dipinjam)
  {
    var r := Borrow(db, id, borrower);
    if r.outcome == Done {
      assert r.db.history[..|db.history|] == db.history;
    }
  }

  /** A successful borrow moves one copy from the shelf to an open loan: the
      balance of every book is unchanged. */
  lemma BorrowKeepsBalance(db: Db, id: int, borrower: string, k: int)
    requires k in db.books
    ensures var r := Borrow(db, id, borrower);
      k in r.db.books && Balance(r.db, k) == Balance(db, k)
      && (r.outcome == Done && k == id ==> OpenCount(r.db.history, id) == OpenCount(db.history, id) + 1)
  {
    var r := Borrow(db, id, borrower);
    if r.outcome == Done {
      OpenCountAppend(db.history, Loan(db.nextLoanId, id, borrower, db.clock, Dipinjam), k);
    }
  }

  /** Serialised borrows of the last copy: the first succeeds, the second is
      refused and changes nothing. */
  lemma LastCopyLentOnce(db: Db, id: int, first: string, second: string)
    requires id in db.books && db.books[id].stock == 1
    ensures var r1 := Borrow(db, id, first);
      var r2 := Borrow(r1.db, id, second);
      r1.outcome == Done && r1.db.books[id].stock == 0
      && r2.outcome == Failed(OutOfStockOrNotFound) && r2.db == r1.db
  {
  }

  // ---------------------------------------------------------------------------
  // Lemmas: return
  // ---------------------------------------------------------------------------

  /** Under distinct borrow dates the subquery's pick is the unique oldest open record. */
  lemma {:induction false} OldestOpenIsUnique(h: seq<Loan>, id: int)
    requires Chronological(h)
    requires OldestOpen(h, id).Some?
    ensures IsOldestOpen(h, id, OldestOpen(h, id).value)
    ensures forall j :: IsOldestOpen(h, id, j) ==> j == OldestOpen(h, id).value
  {
    var i := OldestOpen(h, id).value;
    forall j | 0 <= j < |h| && j != i && IsOpenFor(h[j], id)
      ensures h[i].borrowDate < h[j].borrowDate
    {
      if i < j {
        assert h[i].borrowDate < h[j].borrowDate;
      } else {
        assert false;
      }
    }
  }

  /** Return fails only for an unknown book and then changes nothing; otherwise the
      stock rises by one, no other book changes, the record count stays, and the
      one record altered is the oldest open record of that book, set to
      'Dikembalikan'. With no open record the history is untouched. */
  lemma ReturnClosesOldestOpenLoan(db: Db, id: int)
    requires Chronological(db.history)
    ensures var r := Return(db, id); var h, h' := db.history, r.db.history;
      && (r.outcome == Done <==> id in db.books)
      && (r.outcome != Done ==> r.outcome == Failed(BookNotFound) && r.db == db)
      && (r.outcome == Done ==>
            && r.db.books.Keys == db.books.Keys
            && r.db.books[id] == db.books[id].(stock := db.books[id].stock + 1)
            && (forall k :: k in db.books && k != id ==> r.db.books[k] == db.books[k])
            && (OpenCount(h, id) == 0 ==> h' == h)
            && (OpenCount(h, id) > 0 ==>
                  exists i :: IsOldestOpen(h, id, i) && h' == h[i := h[i].(status := Dikembalikan)]))
  {
    var r := Return(db, id);
    var h := db.history;
    if r.outcome == Done && OpenCount(h, id) > 0 {
      var i := OldestOpen(h, id).value;
      OldestOpenIsUnique(h, id);
      assert IsOldestOpen(h, id, i) && r.db.history == h[i := h[i].(status := Dikembalikan)];
    }
  }

  /** Return of a book that has an open loan moves one copy back: balances are kept. */
  lemma ReturnKeepsBalanceWhenOnLoan(db: Db, id: int, k: int)
    requires k in db.books
    requires id in db.books ==> OpenCount(db.history, id) > 0
    ensures var r := Return(db, id);
      k in r.db.books && Balance(r.db, k) == Balance(db, k)
  {
    var h := db.history;
    match OldestOpen(h, id)
    case None =>
    case Some(i) =>
      OpenCountUpdate(h, i, h[i].(status := Dikembalikan), k);
  }

  /** The quirk of the handler: returning a book that is not on loan still
      succeeds and adds a copy, leaving the history as it was, so the balance
      grows by one. */
  lemma ReturnWithoutLoanStillIncrements(db: Db, id: int)
    requires id in db.books && OpenCount(db.history, id) == 0
    ensures var r := Return(db, id);
      && r.outcome == Done
      && r.db.books[id].stock == db.books[id].stock + 1
      && r.db.history == db.history
      && Balance(r.db, id) == Balance(db, id) + 1
  {
  }

  /** Borrow then return on a book with no other open loan restores every book and
      leaves exactly the record the borrow created, now 'Dikembalikan'. */
  lemma BorrowThenReturn(db: Db, id: int, borrower: string)
    requires id in db.books && db.books[id].stock > 0
    requires OpenCount(db.history, id) == 0
    ensures var r1 := Borrow(db, id, borrower);
      var r2 := Return(r1.db, id);
      && r1.outcome == Done && r2.outcome == Done
      && r2.db.books == db.books
      && r2.db.history == db.history + [Loan(db.nextLoanId, id, borrower, db.clock, Dikembalikan)]
  {
    var r1 := Borrow(db, id, borrower);
    var h := r1.db.history;
    var n := |db.history|;
    assert IsOpenFor(h[n], id);
    assert forall j :: 0 <= j < n ==> h[j] == db.history[j];
    assert OldestOpen(h, id) == Some(n);
  }

  // ---------------------------------------------------------------------------
  // Lemmas: catalogue operations
  // ---------------------------------------------------------------------------

  /** Create assigns an id no present book has, adds exactly that book, and leaves
      the others and the history alone. */
  lemma CreateAssignsFreshId(db: Db, title: string, author: string, stock: int)
    requires Valid(db)
    ensures var r := Create(db, title, author, stock);
      && db.nextBookId !in db.books
      && r.outcome == Done
      && r.db.books.Keys == db.books.Keys + {db.nextBookId}
      && r.db.books[db.nextBookId] == Book(title, author, stock)
      && (forall k :: k in db.books ==> r.db.books[k] == db.books[k])
      && r.db.history == db.history
  {
  }

  /** Update overwrites the three fields of the given book only and is a silent
      success for an unknown id. */
  lemma UpdateOverwritesOnly(db: Db, id: int, title: string, author: string, stock: int)
    ensures var r := Update(db, id, title, author, stock);
      && r.outcome == Done
      && r.db.books.Keys == db.books.Keys
      && (id in db.books ==> r.db.books[id] == Book(title, author, stock))
      && (forall k :: k in db.books && k != id ==> r.db.books[k] == db.books[k])
      && (id !in db.books ==> r.db == db)
      && r.db.history == db.history
  {
  }

  /** Cascading delete (main.go) always reports success, removes the book and every
      history record of it, and keeps every other book and record. */
  lemma DeleteCascades(db: Db, id: int)
    ensures var r := Delete(Cascade, db, id);
      && r.outcome == Done
      && r.db.books.Keys == db.books.Keys - {id}
      && (forall k :: k in r.db.books ==> r.db.books[k] == db.books[k])
      && (forall x :: x in r.db.history <==> x in db.history && x.bookId != id)
      && (id !in db.books && !HasLoans(db.history, id) ==> r.db.books == db.books)
  {
  }

  /** Delete without cascade (backend/main.go) is rejected, with no change, exactly
      when the book is present and history refers to it; otherwise it removes that
      book only and never touches the history. */
  lemma DeleteRestricts(db: Db, id: int)
    ensures var r := Delete(Restrict, db, id);
      && (r.outcome != Done <==> id in db.books && HasLoans(db.history, id))
      && (r.outcome != Done ==> r.outcome == Failed(ForeignKeyViolation) && r.db == db)
      && (r.outcome == Done ==> r.db.books.Keys == db.books.Keys - {id})
      && (forall k :: k in r.db.books ==> r.db.books[k] == db.books[k])
      && r.db.history == db.history
  {
  }

  /** backend/main.go ignores a body that does not decode and runs the statement
      with Go's zero value: id 0 matches no book, so nothing changes. */
  lemma ZeroRequestIsHarmless(db: Db)
    requires Valid(db)
    ensures Delete(Restrict, db, 0) == Step(db, Done)
    ensures Update(db, 0, "", "", 0) == Step(db, Done)
  {
    assert 0 !in db.books;
    assert db.books - {0} == db.books;
  }

  // ---------------------------------------------------------------------------
  // Lemmas: invariants over every request
  // ---------------------------------------------------------------------------

  /** A failed request changes nothing. */
  lemma FailureChangesNothing(policy: DeletePolicy, db: Db, req: Request)
    ensures Apply(policy, db, req).outcome.Failed? ==> Apply(policy, db, req).db == db
  {
  }

  /** A borrow keeps the invariant: the new record takes the next serial id and
      the current clock, and refers to the book it was lent from. */
  lemma BorrowPreservesValid(db: Db, id: int, borrower: string)
    requires Valid(db)
    ensures Valid(Borrow(db, id, borrower).db)
  {
    var r := Borrow(db, id, borrower).db;
    if id in db.books && db.books[id].stock > 0 {
      assert forall i :: 0 <= i < |db.history| ==> r.history[i] == db.history[i];
    }
  }

  /** A return keeps the invariant: it changes only the status of one record. */
  lemma ReturnPreservesValid(db: Db, id: int)
    requires Valid(db)
    ensures Valid(Return(db, id).db)
  {
    var r := Return(db, id).db;
    if id in db.books && OldestOpen(db.history, id).Some? {
      assert forall j :: 0 <= j < |db.history| ==>
        r.history[j].id == db.history[j].id && r.history[j].bookId == db.history[j].bookId
        && r.history[j].borrowDate == db.history[j].borrowDate;
    }
  }

  /** A delete keeps the invariant under either policy: the cascade takes the
      book's records with it, and the plain delete goes ahead only when there are none. */
  lemma DeletePreservesValid(policy: DeletePolicy, db: Db, id: int)
    requires Valid(db)
    ensures Valid(Delete(policy, db, id).db)
  {
    var r := Delete(policy, db, id).db;
    if policy == Cascade {
      LoansNotOfKeepsOrder(db.history, id);
      forall i | 0 <= i < |r.history| ensures LoanFits(r, r.history[i]) {
        assert r.history[i] in db.history;
      }
    } else if !(id in db.books && HasLoans(db.history, id)) {
      forall i | 0 <= i < |r.history| ensures LoanFits(r, r.history[i]) {
        assert r.history[i].bookId != id;
      }
    }
  }

  /** Every request keeps the invariant. */
  lemma ApplyPreservesValid(policy: DeletePolicy, db: Db, req: Request)
    requires Valid(db)
    ensures Valid(Apply(policy, db, req).db)
  {
    match req
    case BorrowRequest(id, borrower) => BorrowPreservesValid(db, id, borrower);
    case ReturnRequest(id) => ReturnPreservesValid(db, id);
    case CreateRequest(_, _, _) =>
    case UpdateRequest(_, _, _, _) =>
    case DeleteRequest(id) => DeletePreservesValid(policy, db, id);
  }

  /** Any sequence of requests keeps the store valid. */
  lemma {:induction false} RunPreservesValid(policy: DeletePolicy, db: Db, reqs: seq<Request>)
    requires Valid(db)
    ensures Valid(Run(policy, db, reqs))
    decreases |reqs|
  {
    if reqs != [] {
      ApplyPreservesValid(policy, db, reqs[0]);
      RunPreservesValid(policy, Apply(policy, db, reqs[0]).db, reqs[1..]);
    }
  }

  lemma ApplyKeepsStockNonNegative(policy: DeletePolicy, db: Db, req: Request)
    requires NonNegativeStock(db) && WritesNonNegativeStock(req)
    ensures NonNegativeStock(Apply(policy, db, req).db)
  {
  }

  /** Stock never goes negative: borrows and returns in any order, and catalogue
      writes that store a non-negative stock, keep every stock at or above zero. */
  lemma {:induction false} StockNeverNegative(policy: DeletePolicy, db: Db, reqs: seq<Request>)
    requires NonNegativeStock(db)
    requires forall i :: 0 <= i < |reqs| ==> WritesNonNegativeStock(reqs[i])
    ensures NonNegativeStock(Run(policy, db, reqs))
    decreases |reqs|
  {
    if reqs != [] {
      ApplyKeepsStockNonNegative(policy, db, reqs[0]);
      StockNeverNegative(policy, Apply(policy, db, reqs[0]).db, reqs[1..]);
    }
  }

  // ---------------------------------------------------------------------------
  // Lemmas: the history listing
  // ---------------------------------------------------------------------------

  /** Record ids strictly decrease down the rows. */
  predicate NewestFirst(rows: seq<HistoryRow>)
  {
    forall i, j :: 0 <= i < j < |rows| ==> rows[i].id > rows[j].id
  }

  /** Some row shows book `id` as 'Dipinjam'. */
  predicate ListsOpenLoan(rows: seq<HistoryRow>, id: int)
  {
    exists i :: 0 <= i < |rows| && rows[i].bookId == id && rows[i].status == Dipinjam
  }

  /** The history record a listing row was read from. */
  function LoanOf(r: HistoryRow): Loan
  {
    Loan(r.id, r.bookId, r.borrower, r.borrowDate, r.status)
  }

  /** The listing holds exactly the records whose book is present, each joined
      with the current title of its book. */
  lemma {:induction false} HistoryListingMembers(books: map<int, Book>, h: seq<Loan>)
    ensures forall r :: r in HistoryListing(books, h) <==>
      LoanOf(r) in h && r.bookId in books && r == JoinRow(LoanOf(r), books[r.bookId])
    decreases |h|
  {
    if h != [] {
      var init, x := h[..|h| - 1], h[|h| - 1];
      HistoryListingMembers(books, init);
      assert h == init + [x];
      var front := if x.bookId in books then [JoinRow(x, books[x.bookId])] else [];
      var rest := HistoryListing(books, init);
      assert HistoryListing(books, h) == front + rest;
      forall r ensures r in front + rest <==>
        LoanOf(r) in h && r.bookId in books && r == JoinRow(LoanOf(r), books[r.bookId])
      {
        assert LoanOf(r) in h <==> LoanOf(r) in init || LoanOf(r) == x;
        if r in front {
          assert LoanOf(r) == x;
        }
      }
    }
  }

  /** A row with an id above every id of a newest-first listing can go in front. */
  lemma ConsNewestFirst(a: HistoryRow, rest: seq<HistoryRow>)
    requires NewestFirst(rest)
    requires forall r :: r in rest ==> r.id < a.id
    ensures NewestFirst([a] + rest)
  {
    var rows := [a] + rest;
    forall i, j | 0 <= i < j < |rows| ensures rows[i].id > rows[j].id {
      assert rows[j] == rest[j - 1] && rows[j] in rest;
      if i > 0 {
        assert rows[i] == rest[i - 1];
      }
    }
  }

  /** Rows come newest first: record ids strictly decrease down the listing. */
  lemma {:induction false} HistoryListingDescending(books: map<int, Book>, h: seq<Loan>)
    requires Chronological(h)
    ensures NewestFirst(HistoryListing(books, h))
    decreases |h|
  {
    if h != [] {
      var init, x := h[..|h| - 1], h[|h| - 1];
      assert Chronological(init);
      HistoryListingDescending(books, init);
      var rest := HistoryListing(books, init);
      if x.bookId in books {
        HistoryListingMembers(books, init);
        forall r | r in rest ensures r.id < x.id {
          var k :| 0 <= k < |init| && init[k] == LoanOf(r);
          assert init[k] == h[k];
        }
        ConsNewestFirst(JoinRow(x, books[x.bookId]), rest);
      }
    }
  }

  /** When the foreign key holds, the inner join drops nothing. */
  lemma {:induction false} HistoryListingComplete(books: map<int, Book>, h: seq<Loan>)
    requires forall i :: 0 <= i < |h| ==> h[i].bookId in books
    ensures |HistoryListing(books, h)| == |h|
    decreases |h|
  {
    if h != [] {
      HistoryListingComplete(books, h[..|h| - 1]);
    }
  }

  /** A row of the listing is open for a book exactly when the store holds an
      open record for that present book. */
  lemma {:induction false} HistoryListingShowsOpenLoans(books: map<int, Book>, h: seq<Loan>, id: int)
    ensures ListsOpenLoan(HistoryListing(books, h), id) <==> id in books && OpenCount(h, id) > 0
  {
    var rows := HistoryListing(books, h);
    HistoryListingMembers(books, h);
    if ListsOpenLoan(rows, id) {
      var i :| 0 <= i < |rows| && rows[i].bookId == id && rows[i].status == Dipinjam;
      assert rows[i] in rows;
      var j :| 0 <= j < |h| && h[j] == LoanOf(rows[i]);
      assert IsOpenFor(h[j], id);
      assert id in books && OpenCount(h, id) > 0;
    }
    if id in books && OpenCount(h, id) > 0 {
      var j :| 0 <= j < |h| && IsOpenFor(h[j], id);
      var r := JoinRow(h[j], books[id]);
      assert LoanOf(r) == h[j];
      assert r in rows;
      var i :| 0 <= i < |rows| && rows[i] == r;
      assert rows[i].bookId == id && rows[i].status == Dipinjam;
    }
  }
}
