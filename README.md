# Library management backend — a Dafny model

This project models the request handlers of a small library-catalog server
(`backend/app.js`): an Express application over a MySQL store. Readers and
administrators log in, list books with their borrow status, borrow, return
and purchase books; administrators also create, update and delete books and
read a report of outstanding loans.

The model keeps the handlers' own shape:

- `records.dfy` (module `Records`): the rows of `admins`/`readers`, `books`,
  `borrowed_books` and `purchased_books`, the session record
  (`loggedIn`, `userId`, `username`, `isAdmin`) and the responses with their
  status codes and messages, word for word.
- `auth.dfy` (module `Auth`): the `isLoggedIn` and `isAdmin` gates as pure
  functions over a session, and the login decision: the table chosen by
  `userType`, the first row with the username, and the credential check
  "bcrypt comparison OR plain-text equality". The bcrypt comparison is the
  function parameter `hashMatches`, about which nothing is assumed.
- `ledger.dfy` (module `Ledger`): the loan ledger. The queries of the borrow
  and return handlers (`OpenLoans`, `FindOwnOpen`, `CloseById`) and the one
  invariant of the system, at most one open loan per book
  (`AtMostOneOpen`), with the lemmas that a borrow after a failed check and
  a return both keep it.
- `catalog.dfy` (module `Catalog`): lookup, update and delete by id on `books`.
- `views.dfy` (module `Views`): the two joins computed at read time — the
  book listing with `status` and `borrowedBy`, and the outstanding-loans report.
- `server.dfy` (module `Server`): class `LibraryServer`, whose fields are the
  tables, the session store (cookie token to session record) and the
  auto-increment counters. There is one method per route handler. Each
  method runs its gate first, then the handler's reads and writes in the
  order the handler issues them. `Valid()` holds the ledger invariant and the
  key properties of the ids, and every handler preserves it.
- `scenarios.dfy` (module `Scenarios`): clients that chain handlers and are
  proved from the handlers' contracts alone. `BorrowTwice` borrows one book
  twice in a row. `DeleteTwice` deletes one id twice. `LoginRoles` logs in
  with the same credentials as admin and as reader. `CreateBorrowConflict`
  creates a book, has one reader borrow it and a second reader be refused.
  `ReturnThenReport` continues with a refused return by the second reader,
  the return by the first and the report. `LoanBeforeBook` borrows an id
  that no book has yet.

Behaviour of the code that the model keeps on purpose:

- Borrow does not check that the book exists. A loan taken on an id that no
  book has yet makes a book created later under that id list as borrowed
  (`Scenarios.LoanBeforeBook`).
- Admins pass `isLoggedIn`, so they can borrow, return and purchase. Their
  loans carry the admin's id as `reader_id`.
- The listing and the report join `borrowed_books.reader_id` against
  `readers` only, and `admins` and `readers` are separate tables whose ids
  can overlap. So an admin's loan shows no `borrowedBy` in the listing and is
  left out of the report, unless a reader has the same id; then both name
  that reader.
- The return matches the caller's open loan on `reader_id` alone, so reader
  k can return a book that admin k borrowed (`Scenarios.SharedIdReturn`).
- Any `userType` other than `"admin"` reads the `readers` table.
- Login accepts the stored password verbatim as well as a bcrypt match.
- Update of a missing id is a no-op answered with 404. Delete answers 204
  whether or not the id exists.

Login takes the first row the username query returns
(`Auth.FirstByUsername`). The reader routes are guarded by `isLoggedIn`,
which admins pass.

## Model

| member | source | states |
|---|---|---|
| `Auth.CheckLoggedIn` | backend/app.js:33-39 | the handler runs iff `session.loggedIn`; otherwise the answer is 401 "Unauthorized" |
| `Auth.CheckAdmin` | backend/app.js:42-48 | the handler runs iff `loggedIn && isAdmin`; otherwise the answer is 403 "Forbidden" |
| `Auth.AccountTable` | backend/app.js:57-58 | definition: `admins` for user type "admin", `readers` for any other; `Auth.Authenticate` and `Server.LibraryServer.Login` state login through it |
| `Auth.AdminPassesLoggedIn` | backend/app.js:33-48 | passing the admin gate implies passing the logged-in gate |
| `Auth.FirstByUsername` | backend/app.js:57-63 | `rows[0]` of the username query: none iff no row has the username, else the first row that has it |
| `Auth.PasswordAccepted` | backend/app.js:64-66 | definition: bcrypt match OR plain equality with the stored password; `Auth.Authenticate` states acceptance through it |
| `Auth.Authenticate` | backend/app.js:57-66 | login is accepted iff the first row with that username exists and its stored password is accepted by bcrypt or by plain equality; the account is that row |
| `Auth.RedirectPath` | backend/app.js:72 | the redirect is `/admin.html` exactly for user type "admin" |
| `Server.LibraryServer.SessionOf` | backend/app.js:25-30 | a client with no session record is not logged in |
| `Server.LibraryServer.Login` | backend/app.js:53-79 | on acceptance the client's session becomes logged in with the row's id and username and `isAdmin == (userType == "admin")`, answer 200 with the redirect; otherwise 401 "Invalid credentials" and no session changes; no table changes |
| `Server.LibraryServer.Logout` | backend/app.js:87-95 | the client's session record is removed, so the client is anonymous again; nothing else changes |
| `Server.LibraryServer.ReaderBooks` | backend/app.js:99-121 | 401 unless logged in; otherwise 200 with the listing; reads only |
| `Server.LibraryServer.AdminBooks` | backend/app.js:196-218 | 403 unless logged in as admin; otherwise 200 with the same listing; reads only |
| `Server.LibraryServer.Borrow` | backend/app.js:123-149 | 401 and no change when not logged in; 400 "already borrowed" and ledger unchanged when the book has an open loan; otherwise exactly one open loan (fresh id, book, session user) is appended; other tables untouched; ledger invariant kept |
| `Server.LibraryServer.Return` | backend/app.js:151-175 | 400 "You have not borrowed this book." and ledger unchanged iff the caller has no open loan on the book (even if another reader has); otherwise exactly one of the caller's open loans on the book is closed and every other record is left as it was; invariant kept |
| `Server.LibraryServer.Purchase` | backend/app.js:177-193 | when logged in, always 200 and exactly one purchase record appended; `books` and `borrowed_books` never touched |
| `Server.LibraryServer.CreateBook` | backend/app.js:220-233 | admin only; the new row has an id no book had, equals the inputs, is appended, and is the 201 body |
| `Server.LibraryServer.UpdateBook` | backend/app.js:235-253 | admin only; if the id exists its title, author and cover are overwritten and the new row is returned; otherwise 404 and the catalog is unchanged |
| `Server.LibraryServer.DeleteBook` | backend/app.js:255-264 | admin only; the id's rows are removed (nothing else) and the answer is 204 whether or not the id existed |
| `Server.LibraryServer.BorrowedReport` | backend/app.js:266-284 | 403 unless admin; otherwise 200 with the outstanding-loans report; reads only |
| `Ledger.OpenLoans` | backend/app.js:129-132 | the borrow check's result holds exactly the ledger's open records for the book |
| `Ledger.OpenLoansEmptyIff` | backend/app.js:129-136 | the borrow check finds nothing iff the book has no open loan |
| `Ledger.OpenLoansAtMostOne` | backend/app.js:129-142 | under the invariant the borrow check finds at most one record |
| `Ledger.FindOwnOpen` | backend/app.js:156-163 | none iff the caller has no open loan on the book; otherwise the id of one such record |
| `Ledger.CloseById` | backend/app.js:165-168 | the update keeps every record's id, book and reader, and a record is open afterwards iff it was open and has another id |
| `Ledger.CloseByIdAt` | backend/app.js:165-168 | with ledger ids a key, closing by the found id closes that record only |
| `Ledger.BorrowKeepsValid` | backend/app.js:129-142 | appending an open loan after a check that found none keeps at most one open loan per book and the ids increasing |
| `Ledger.CloseKeepsValid` | backend/app.js:165-168 | closing records keeps the invariant and the ids |
| `Ledger.BorrowedBookStaysOpen` | backend/app.js:129-142 | after a borrow the next borrow check for the book finds a record |
| `Ledger.ReturnLeavesNoOpenLoan` | backend/app.js:156-168 | under the invariant, after the return the book has no open loan |
| `Catalog.FindBook` | backend/app.js:243-244 | the by-id read-back finds nothing iff no row has the id, else a row with that id |
| `Catalog.UpdateRows` | backend/app.js:239-242 | every row with the id gets the new title, author and cover; every row keeps its id and every row with another id is unchanged |
| `Catalog.DeleteRows` | backend/app.js:258 | after the delete a row is present iff it was present and has another id |
| `Catalog.UpdateThenFind` | backend/app.js:239-248 | reading back after the update gives the new values iff the id existed, else nothing |
| `Catalog.UpdateMissingIsNoOp` | backend/app.js:239-242 | updating a missing id leaves the table unchanged |
| `Catalog.UpdateKeepsIds` | backend/app.js:239-242 | the update changes no id, so the book ids stay increasing and below the next id |
| `Catalog.DeleteIdempotent` | backend/app.js:258-259 | deleting twice leaves the table as deleting once |
| `Catalog.DeleteMissingIsNoOp` | backend/app.js:258-259 | deleting a missing id leaves the table unchanged |
| `Catalog.DeleteKeepsIncreasing` | backend/app.js:258 | deleting keeps the book ids increasing, so they stay a key |
| `Views.LookupUsername` | backend/app.js:111-114 | the reader join gives nothing iff no reader has the id, else that reader's username |
| `Views.Listing` | backend/app.js:101-115 | definition of the listing query, with `RowsForBook` and `BorrowedRows`; its properties are `Views.RowsForBookDescribe`, `Views.ListingSound` and `Views.ListingOnePerBook` |
| `Views.RowsForBookDescribe` | backend/app.js:101-115 | each book yields one row per open loan (one `available` row if none); each row is `borrowed` iff an open loan exists, and row i names the reader of the i-th open loan |
| `Views.ListingSound` | backend/app.js:101-115 | every listing row describes a catalog book: its columns, the borrowed-iff-open status and the borrower |
| `Views.ListingOnePerBook` | backend/app.js:101-115 | under the ledger invariant the listing has exactly one row per book, in catalog order, each describing its book |
| `Views.OpenLoanUnique` | backend/app.js:113 | under the ledger invariant a book's open loan is unique, so `borrowedBy` is determined |
| `Views.ReportRow` | backend/app.js:268-278 | a ledger record is reported iff it is open and its book and reader rows exist; the row carries the book id, the book's title and the reader's username |
| `Views.Outstanding` | backend/app.js:266-284 | every report row comes from a reportable open loan and every reportable loan's row is present, no more rows than the ledger has; one row per loan under the ledger invariant is `Views.OutstandingDistinct` |
| `Views.OutstandingOnlyOpen` | backend/app.js:268-278 | a book in the report has an open loan |
| `Views.OutstandingDistinct` | backend/app.js:268-278 | under the ledger invariant no two report rows name the same book, so each reportable open loan is reported once |
| `Scenarios.BorrowTwice` | backend/app.js:129-144 | two borrows of an available book in a row give success then 400, with exactly one open record |
| `Scenarios.CreateBorrowConflict` | backend/app.js:123-144 | after an admin creates a book (201), a reader's borrow succeeds, a second reader's borrow is refused with 400, and the first reader holds an open loan on it |
| `Scenarios.ReturnThenReport` | backend/app.js:151-175 | while one reader holds the book another reader's return is refused; the holder's return succeeds and the outstanding report then has no row for the book |
| `Scenarios.SharedIdReturn` | backend/app.js:123-168 | an admin borrows an available book and the reader with the same id returns it: success both times, and the book has no open loan afterwards |
| `Scenarios.DeleteTwice` | backend/app.js:255-259 | two deletes of one id both answer 204 and leave the catalog as one delete does |
| `Scenarios.LoginRoles` | backend/app.js:53-73 | the same username and password log in as admin through `admins` and as non-admin through `readers` (the reader table's first matching row), and a wrong password answers 401 |
| `Scenarios.LoanBeforeBook` | backend/app.js:123-144 | a borrow of the next book id, then a create: the new book's single listing row is `borrowed` |

## Left out

- Express routing, body parsing, static files and `app.listen`: HTTP plumbing with no logic.
- The MySQL pool and its configuration. The tables are in-memory sequences with the relational meaning of the queries shown.
- Concurrency. Every handler is one atomic step. The race between the borrow check and the insert, which can create two open loans when two requests interleave, is therefore not represented, and the invariant is proved for sequential requests only.
- bcrypt. Its comparison is the parameter `hashMatches`.
- Timestamps. `created_at`, `borrow_date`, `purchase_date` and `return_date` carry no values; "return_date IS NULL" is the `open` flag.
- Store failures, the 500 answers and console logging: foreign failures with no logic.
- Failure of the session store's `destroy` callback. Logout always succeeds.
- Saving of uninitialised sessions. A client with no session record reads as not logged in, and nothing is stored for it.
- Path parameters and body fields are typed values (ids are natural numbers, texts are strings). The coercion of path strings by the store and missing body fields (rejected by the driver, answered 500) are not modelled.
- Username comparison in the login query is exact string equality. The store's collation (case folding, trailing-space folding) is not modelled.
- Row order of the queries is the store's choice. The model returns catalog order and ledger order.
- Account ids of `admins` and `readers` are assumed to be their primary key. The joins on them are modelled as lookups of the first row with the id, which equal the SQL joins under that key.
- `Views.Outstanding`: report rows carry no `borrow_date`, because timestamps are not modelled.
- `Server.LibraryServer.CreateBook`: the returned row carries no `created_at`, because timestamps are not modelled.
- `Server.LibraryServer.UpdateBook`: the returned row carries no `created_at`, because timestamps are not modelled.
