# Toko Buku Suka Maju — lending core in Dafny

The system is a small book-lending shop. It has a catalogue of books with a stock count (`books`) and a log of loans (`borrow_history`). A loan record is 'Dipinjam' while it is open and 'Dikembalikan' once the book is back.

There are two Go servers over the same PostgreSQL tables:

- `main.go`, the deployed one.
- `backend/main.go`, an earlier local one.

Both expose the same endpoints:

- borrow (`/api/book`);
- return (`/api/return`);
- list and create books (`/api/books`);
- update and delete a book (`/api/book/update`, `/api/book/delete`);
- list the history (`/api/history`).

A React page (`frontend/src/App.jsx`) lists, filters and edits the catalogue, and enables the borrow and return buttons from the two listings.

The project has four modules:

- `store.dfy`, module `Store`:
  - The two tables as one value `Db`, with the serial id generators and a clock standing for the `borrow_date` default.
  - One function per handler, giving the tables after its SQL statements. Each statement is one atomic step.
  - The two listing queries, with the scan loops that build the answer as methods.
  - The invariant `Valid`: ids come from the generators, records appear in id and date order, and the foreign key from history to books holds.
  - Lemmas for what the handlers promise.
  - Both servers issue the same SQL except for delete. The difference is a `DeletePolicy`: `Cascade` for main.go, `Restrict` for backend/main.go.
- `server.dfy`, module `Server`: a `Library` class for main.go. Its fields are the tables. Each handler is a method that updates them statement by statement and is proved equal to the `Store` transition; every method keeps `Valid`.
- `backend.dfy`, module `Backend`: the same class for backend/main.go. Two differences:
  - Delete issues only the `books` deletion, which the foreign key refuses while history refers to the book.
  - Update and delete ignore a body that does not decode and go on with Go's zero value.
- `frontend.dfy`, module `Frontend`: the pure decisions of the page, and lemmas that tie them to the server.
  - `isBorrowed`, the search filter, and the guards before the create/update and borrow requests.
  - The `disabled` conditions of the two buttons.

Four behaviours of the code are worth stating outright, because a reader might expect otherwise:

- Creating a book does not check for duplicate titles.
- Returning a book that has no open loan succeeds: it adds one to the stock and leaves the history alone (`Store.ReturnWithoutLoanStillIncrements`). Only the page's disabled button keeps this from happening (`Frontend.ReturnButtonGuardsServer`).
- The two writes of borrow and return are not wrapped in a transaction. In the model every statement succeeds, so no partial state arises.
- The server accepts any borrower name. Only the page refuses an empty one.

The foreign key from `borrow_history.id_buku` to `books` is not in the repository. It is inferred from the comments at main.go:194-195 and main.go:210, which give it as the reason for deleting history first.

## Model

| member | source | states |
|---|---|---|
| Store.OpenCount | main.go:184 | the number of open records of a book is at most the history length, and is zero exactly when no record of that book is 'Dipinjam' |
| Store.CloseOldestOpen | main.go:179-188 | closing keeps the history's length and every record's id, book, borrower and date; a record that changes was open for that book and becomes 'Dikembalikan'; with no open record the history is unchanged |
| Store.OldestOpen | main.go:182-186 | the subquery picks nothing exactly when the book has no open record; otherwise it picks an open record of that book whose borrow date is not later than any other open record of it |
| Store.LoansNotOf | main.go:211 | after deleting the book's history, a record remains exactly when it was there and belongs to another book |
| Store.SelectBooks | main.go:63-78 | the catalogue listing holds one row per book, contains exactly the rows of present books with their stored fields, and is in strictly descending id order |
| Store.SelectHistory | main.go:256-277 | the scan loop builds exactly the join of history with books, newest record first |
| Store.Borrow | main.go:122-146 | the borrow handler succeeds exactly when the book is present with stock above zero; on success the book's stock drops by one and stays non-negative, and one more record, open for that book, is appended; otherwise it fails with "out of stock or not found" and changes nothing |
| Store.Return | main.go:164-188 | the return handler succeeds exactly when the book is present, and then adds one to its stock; otherwise it fails with "not found" and changes nothing; the history never changes length |
| Store.Create | main.go:90-93 | the insert adds exactly the book under the old serial value, with the given fields, and leaves the history alone |
| Store.Update | main.go:235-238 | the update always reports success, keeps the set of books and the history, and stores the given fields under a present id |
| Store.Delete | main.go:210-213 | after a successful delete the book is gone and no other book is removed; only the non-cascading policy can fail, with a foreign-key violation and no change; the cascading one always succeeds and leaves no record of the book |
| Store.BorrowSemantics | main.go:122-146 | borrow succeeds exactly when the book exists with stock above zero; then its stock drops by one, other books are unchanged, and one open record (book, borrower) is appended after the old history; otherwise it fails with "out of stock or not found" and nothing changes |
| Store.BorrowKeepsBalance | main.go:122-140 | a borrow keeps stock plus open loans of every book, and a successful one adds one open loan |
| Store.LastCopyLentOnce | main.go:122-135 | of two borrows of the last copy in sequence, the first succeeds and the second is refused and changes nothing |
| Store.OldestOpenIsUnique | main.go:179-186 | under the history invariant, the subquery's pick is the unique open record with the strictly earliest borrow date |
| Store.ReturnClosesOldestOpenLoan | main.go:164-188 | return fails, changing nothing, exactly for an unknown book; otherwise it adds one to the stock, changes no other book, and changes exactly one record, the oldest open record of the book, to 'Dikembalikan', or no record when none is open |
| Store.ReturnKeepsBalanceWhenOnLoan | main.go:164-188 | a return of a book that has an open loan keeps stock plus open loans of every book |
| Store.ReturnWithoutLoanStillIncrements | main.go:164-188 | a return of a present book with no open loan still succeeds, adds one to the stock and leaves the history alone, so its balance grows by one |
| Store.BorrowThenReturn | main.go:122-188 | borrow then return on a book with no other open loan restores every stock and leaves exactly the new record, closed |
| Store.CreateAssignsFreshId | main.go:90-93 | create inserts the book under an id no present book has, keeps every other book and leaves the history alone |
| Store.UpdateOverwritesOnly | main.go:235-238 | update replaces title, author and stock of the given book only, and is a success with no change for an unknown id |
| Store.DeleteCascades | main.go:210-213 | the cascading delete always succeeds, removes the book and every record of it, and keeps every other book and record |
| Store.DeleteRestricts | backend/main.go:191-197 | the plain delete is refused, with no change, exactly when the book is present and history refers to it; otherwise it removes only that book; it never touches the history |
| Store.ZeroRequestIsHarmless | backend/main.go:188-217 | a delete or update run with Go's zero value (id 0) changes nothing |
| Store.FailureChangesNothing | main.go:131-135 | a request that fails leaves both tables and the generators as they were |
| Store.BorrowPreservesValid | main.go:122-140 | a borrow keeps the serial ids, record order and foreign key invariant |
| Store.ReturnPreservesValid | main.go:164-188 | a return keeps that invariant |
| Store.DeletePreservesValid | main.go:210-213 | a delete keeps that invariant under either policy: the cascade removes the book's records, and the plain delete goes ahead only when none exist |
| Store.ApplyPreservesValid | main.go:122-238 | every request under either delete policy keeps the serial ids, record order and foreign key invariant |
| Store.RunPreservesValid | main.go:122-238 | any sequence of requests keeps that invariant |
| Store.ApplyKeepsStockNonNegative | main.go:123 | the guarded decrement never takes a stock below zero, so a request that writes no negative stock keeps every stock non-negative |
| Store.StockNeverNegative | main.go:122-238 | any sequence of such requests keeps every stock non-negative |
| Store.HistoryListing | main.go:256-261 | the join is never longer than the history, and every row refers to a present book and carries that book's current title |
| Store.HistoryListingMembers | main.go:256-261 | a row is in the history listing exactly when its record is in the history, its book is present, and its title is that book's title |
| Store.HistoryListingDescending | main.go:260 | the history listing is in strictly descending record id order |
| Store.HistoryListingComplete | main.go:257-259 | when every record refers to a present book, the join drops no record |
| Store.HistoryListingShowsOpenLoans | main.go:256-261 | the listing shows an open record of a book exactly when the book is present and has an open loan |
| Server.Library.Borrow | main.go:107-147 | the method's new tables and outcome are those of `Store.Borrow`; on success the stock dropped by one and stayed non-negative; on failure nothing changed; the invariant is kept |
| Server.Library.Return | main.go:150-191 | the new tables and outcome are those of `Store.Return`; on success the stock rose by one; on failure nothing changed |
| Server.Library.CreateBook | main.go:83-103 | the returned id was not in use, and the catalogue is the old one plus that book |
| Server.Library.UpdateBook | main.go:223-245 | the new tables are those of `Store.Update` |
| Server.Library.DeleteBook | main.go:196-220 | the new tables are those of the cascading delete; afterwards neither the book nor any record of it remains |
| Server.Library.ListBooks | main.go:62-81 | one row per book, exactly the present books, in descending id order |
| Server.Library.ListHistory | main.go:250-279 | the rows are the join, one per record, newest first |
| Backend.Library.Borrow | backend/main.go:91-130 | as main.go: the tables and outcome of `Store.Borrow` |
| Backend.Library.Return | backend/main.go:132-175 | as main.go: the tables and outcome of `Store.Return` |
| Backend.Library.CreateBook | backend/main.go:70-88 | the returned id was not in use, and the catalogue is the old one plus that book |
| Backend.Library.UpdateBook | backend/main.go:202-224 | the tables of `Store.Update` for the decoded book, or for the zero book when the body did not decode, in which case nothing changes |
| Backend.Library.DeleteBook | backend/main.go:177-200 | the tables and outcome of the plain delete; the history never changes; an undecodable body deletes nothing and reports success |
| Backend.Library.ListBooks | backend/main.go:49-67 | one row per book, exactly the present books, in descending id order |
| Backend.Library.ListHistory | backend/main.go:226-253 | the rows are the join, one per record, newest first |
| Frontend.IsBorrowed | frontend/src/App.jsx:176-178 | true exactly when some history row of that book has status 'Dipinjam' |
| Frontend.IsBorrowedMatchesStore | frontend/src/App.jsx:176-178 | on a freshly fetched history, a book shows as borrowed exactly when it is present and has an open loan in the store |
| Frontend.Lower | frontend/src/App.jsx:181-182 | lower-casing keeps the length and maps every character through the ASCII lower-case map |
| Frontend.Includes | frontend/src/App.jsx:181-182 | `includes` holds exactly when the term occurs at some position of the text |
| Frontend.Matches | frontend/src/App.jsx:181-182 | a book matches exactly when the lower-cased term occurs in its lower-cased title or in its lower-cased author; every book matches the empty term |
| Frontend.FilteredBooks | frontend/src/App.jsx:180-183 | the filter keeps a book exactly when it was listed and its lower-cased title or author contains the lower-cased term, and never lengthens the list |
| Frontend.FilteredIsSubsequence | frontend/src/App.jsx:180-183 | the filtered list keeps the catalogue's order |
| Frontend.EmptyTermShowsAll | frontend/src/App.jsx:180-183 | an empty search term shows the whole catalogue |
| Frontend.LowerIdempotent | frontend/src/App.jsx:181-182 | lower-casing twice is lower-casing once |
| Frontend.MatchIgnoresCase | frontend/src/App.jsx:180-183 | searching for a term or its lower-cased form selects the same books |
| Frontend.SubmitBookForm | frontend/src/App.jsx:35-89 | a request is sent exactly when title and author are non-empty and the stock is at least 1; it is an update of the edited book in edit mode and a create otherwise, carrying the form's fields |
| Frontend.FormKeepsStockNonNegative | frontend/src/App.jsx:38-41 | whatever the form sends keeps every stock on the server non-negative |
| Frontend.BookingRequest | frontend/src/App.jsx:124-135 | a borrow is sent exactly when the prompt returned a non-empty name, and carries that book and name |
| Frontend.BorrowDisabled | frontend/src/App.jsx:274 | a disabled borrow button always reads "Kosong", and a book with stock above zero never has it disabled |
| Frontend.BorrowLabel | frontend/src/App.jsx:277 | the label is "Pinjam" or "Kosong", and "Pinjam" exactly when the stock is above zero |
| Frontend.ReturnDisabled | frontend/src/App.jsx:267 | the return button is disabled exactly when no history row of that book is 'Dipinjam' |
| Frontend.BorrowButtonAgreesWithLabel | frontend/src/App.jsx:274-277 | with a non-negative stock the borrow button is disabled exactly when it reads "Kosong"; a negative stock leaves it enabled under "Kosong" |
| Frontend.BorrowButtonMatchesServer | frontend/src/App.jsx:274 | for a listed book with non-negative stock, the borrow button is enabled exactly when the server's borrow would succeed |
| Frontend.ReturnButtonGuardsServer | frontend/src/App.jsx:265-267 | on a fresh history the return button is enabled exactly when the book has an open loan, and a return then keeps every balance |

## Left out

- HTTP is not modelled: routing, CORS headers, the OPTIONS preflight, the method checks (405) and status codes. The model starts from the decoded request and ends at the outcome.
- JSON decoding is not modelled. main.go answers 400 to a body that does not decode; backend/main.go's update and delete run on the zero value, and that case is modelled. A body that decodes only partly, leaving some fields at zero, is not.
- Database faults are not modelled (connection, `db.Exec` and `rows.Scan` errors and the 500 answers). Every statement succeeds; the one refusal the store makes is the foreign-key rejection in backend/main.go's delete, which follows from the state.
- Concurrency between requests is left out. Requests are served one after another (`Store.Run`), so the guarded decrement in borrow is not shown to be atomic under interleaving.
- `borrow_date` is an abstract integer clock that ticks on each insert, not a timestamp.
- Frontend.Lower: lower-cases ASCII letters only, where JavaScript's `toLowerCase` maps all of Unicode.
- Frontend.SubmitBookForm: takes the stock as an integer. The string held by the input, JavaScript's `<` coercion of it and `parseInt` are not modelled.
- Integer widths are not modelled: ids and stock are unbounded, where the Go `int` and the PostgreSQL columns have fixed widths.
- The React rendering, `fetch`, alerts, `confirm` before delete, the edit-form state (`startEdit`, `resetForm`) and the page switch are not modelled.
