/**
 * The library server: the tables it changes in place, the session store
 * and one method per route handler. Each handler is one atomic step; the
 * gate in front of it (`isLoggedIn` or `isAdmin`) is its first statement.
 */
module Server {
  import opened Records
  import Auth
  import Ledger
  import Catalog
  import Views

  class LibraryServer {
    var books: seq<Book>
    var loans: seq<Loan>
    var purchases: seq<Purchase>
    /** The account tables are read, never written. */
    const admins: seq<Account>
    const readers: seq<Account>
    /** The session store: cookie token to session record. */
    var sessions: map<Token, Session>
    /** The next auto-increment id of `books`, `borrowed_books` and `purchased_books`. */
    var nextBookId: Id
    var nextLoanId: Id
    var nextPurchaseId: Id

    ghost predicate Valid()
      reads this
    {
      && Catalog.CatalogValid(books, nextBookId)
      && Ledger.LedgerValid(loans, nextLoanId)
      && PurchasesValid(purchases, nextPurchaseId)
    }

    static ghost predicate PurchasesValid(purchases: seq<Purchase>, nextId: Id)
    {
      forall i :: 0 <= i < |purchases| ==> purchases[i].id < nextId
    }

    /** The session a request with this cookie sees; a token with no record reads as a fresh session. */
    function SessionOf(token: Token): (s: Session)
      reads this
      ensures token !in sessions ==> !s.loggedIn
    {
      if token in sessions then sessions[token] else Anonymous
    }

    /** The listing as the two book routes return it. */
    function BookListing(): seq<BookRow>
      reads this
    {
      Views.Listing(books, loans, readers)
    }

    constructor (admins: seq<Account>, readers: seq<Account>)
      ensures Valid()
      ensures this.admins == admins && this.readers == readers
      ensures books == [] && loans == [] && purchases == [] && sessions == map[]
    {
      this.admins := admins;
      this.readers := readers;
      books, loans, purchases := [], [], [];
      sessions := map[];
      nextBookId, nextLoanId, nextPurchaseId := 1, 1, 1;
    }

    /** `POST /login` */
    method Login(token: Token, username: string, password: string, userType: string,
                 hashMatches: (string, string) -> bool) returns (resp: Response)
      requires Valid()
      modifies this
      ensures Valid()
      ensures books == old(books) && loans == old(loans) && purchases == old(purchases)
      ensures nextBookId == old(nextBookId) && nextLoanId == old(nextLoanId) && nextPurchaseId == old(nextPurchaseId)
      ensures
        var user := Auth.Authenticate(Auth.AccountTable(userType, admins, readers), username, password, hashMatches);
        && (user.Some? ==>
              && sessions == old(sessions)[token := Session(true, user.value.id, user.value.username, userType == "admin")]
              && resp == Response(200, Redirect(Auth.RedirectPath(userType, user.value.username))))
        && (user.None? ==> sessions == old(sessions) && resp == InvalidCredentials)
    {
      var rows := Auth.AccountTable(userType, admins, readers);
      var found := Auth.FirstByUsername(rows, username);
      if found.None? {
        return InvalidCredentials;
      }
      var user := found.value;
      var passwordMatch := hashMatches(password, user.password);
      if passwordMatch || password == user.password {
        var s := SessionOf(token);
        s := s.(loggedIn := true);
        s := s.(userId := user.id);
        s := s.(username := user.username);
        s := s.(isAdmin := userType == "admin");
        sessions := sessions[token := s];
        resp := Response(200, Redirect(Auth.RedirectPath(userType, user.username)));
      } else {
        resp := InvalidCredentials;
      }
    }

    /** `POST /logout`: the session record is destroyed. */
    method Logout(token: Token) returns (resp: Response)
      requires Valid()
      modifies this
      ensures Valid()
      ensures books == old(books) && loans == old(loans) && purchases == old(purchases)
      ensures nextBookId == old(nextBookId) && nextLoanId == old(nextLoanId) && nextPurchaseId == old(nextPurchaseId)
      ensures sessions == old(sessions) - {token}
      ensures SessionOf(token) == Anonymous
      ensures resp == LoggedOut
    {
      sessions := sessions - {token};
      resp := LoggedOut;
    }

    /** `GET /api/reader/books` */
    method ReaderBooks(token: Token) returns (resp: Response)
      ensures !SessionOf(token).loggedIn ==> resp == Unauthorized
      ensures SessionOf(token).loggedIn ==> resp == Response(200, BookRows(BookListing()))
    {
      var gate := Auth.CheckLoggedIn(SessionOf(token));
      if gate.Some? {
        return gate.value;
      }
      resp := Response(200, BookRows(Views.Listing(books, loans, readers)));
    }

    /** `GET /api/books` */
    method AdminBooks(token: Token) returns (resp: Response)
      ensures !(SessionOf(token).loggedIn && SessionOf(token).isAdmin) ==> resp == Forbidden
      ensures SessionOf(token).loggedIn && SessionOf(token).isAdmin ==> resp == Response(200, BookRows(BookListing()))
    {
      var gate := Auth.CheckAdmin(SessionOf(token));
      if gate.Some? {
        return gate.value;
      }
      resp := Response(200, BookRows(Views.Listing(books, loans, readers)));
    }

    /** `POST /api/reader/borrow/:bookId`: check for an open loan, then append one. */
    method Borrow(token: Token, bookId: Id) returns (resp: Response)
      requires Valid()
      modifies this
      ensures Valid()
      ensures books == old(books) && purchases == old(purchases) && sessions == old(sessions)
      ensures nextBookId == old(nextBookId) && nextPurchaseId == old(nextPurchaseId)
      ensures !old(SessionOf(token)).loggedIn ==> resp == Unauthorized && loans == old(loans)
      ensures old(SessionOf(token)).loggedIn && Ledger.HasOpenLoan(old(loans), bookId) ==>
        resp == AlreadyBorrowed && loans == old(loans)
      ensures old(SessionOf(token)).loggedIn && !Ledger.HasOpenLoan(old(loans), bookId) ==>
        && resp == BorrowedOk
        && loans == old(loans) + [Loan(old(nextLoanId), bookId, old(SessionOf(token)).userId, true)]
        && nextLoanId == old(nextLoanId) + 1
      ensures resp != BorrowedOk ==> nextLoanId == old(nextLoanId)
    {
      var session := SessionOf(token);
      var gate := Auth.CheckLoggedIn(session);
      if gate.Some? {
        return gate.value;
      }
      var readerId := session.userId;
      var borrowedCheck := Ledger.OpenLoans(loans, bookId);
      Ledger.OpenLoansEmptyIff(loans, bookId);
      if |borrowedCheck| > 0 {
        return AlreadyBorrowed;
      }
      Ledger.BorrowKeepsValid(loans, nextLoanId, bookId, readerId);
      loans := loans + [Loan(nextLoanId, bookId, readerId, true)];
      nextLoanId := nextLoanId + 1;
      resp := BorrowedOk;
    }

    /** `POST /api/reader/return/:bookId`: find the caller's open loan, then close it by id. */
    method Return(token: Token, bookId: Id) returns (resp: Response)
      requires Valid()
      modifies this
      ensures Valid()
      ensures books == old(books) && purchases == old(purchases) && sessions == old(sessions)
      ensures nextBookId == old(nextBookId) && nextLoanId == old(nextLoanId) && nextPurchaseId == old(nextPurchaseId)
      ensures !old(SessionOf(token)).loggedIn ==> resp == Unauthorized && loans == old(loans)
      ensures old(SessionOf(token)).loggedIn && !Ledger.HasOwnOpenLoan(old(loans), bookId, old(SessionOf(token)).userId) ==>
        resp == NotBorrowedByYou && loans == old(loans)
      ensures old(SessionOf(token)).loggedIn && Ledger.HasOwnOpenLoan(old(loans), bookId, old(SessionOf(token)).userId) ==>
        && resp == ReturnedOk
        && exists k :: 0 <= k < |old(loans)|
             && Ledger.IsOwnOpen(old(loans)[k], bookId, old(SessionOf(token)).userId)
             && loans == old(loans)[k := old(loans)[k].(open := false)]
    {
      var session := SessionOf(token);
      var gate := Auth.CheckLoggedIn(session);
      if gate.Some? {
        return gate.value;
      }
      var readerId := session.userId;
      var borrowedBook := Ledger.FindOwnOpen(loans, bookId, readerId);
      if borrowedBook.None? {
        return NotBorrowedByYou;
      }
      var id := borrowedBook.value;
      ghost var k :| 0 <= k < |loans| && Ledger.IsOwnOpen(loans[k], bookId, readerId) && loans[k].id == id;
      Ledger.CloseByIdAt(loans, k);
      Ledger.CloseKeepsValid(loans, nextLoanId, id);
      loans := Ledger.CloseById(loans, id);
      resp := ReturnedOk;
    }

    /** `POST /api/reader/purchase/:bookId`: no check at all, one more purchase record. */
    method Purchase(token: Token, bookId: Id) returns (resp: Response)
      requires Valid()
      modifies this
      ensures Valid()
      ensures books == old(books) && loans == old(loans) && sessions == old(sessions)
      ensures nextBookId == old(nextBookId) && nextLoanId == old(nextLoanId)
      ensures !old(SessionOf(token)).loggedIn ==>
        resp == Unauthorized && purchases == old(purchases) && nextPurchaseId == old(nextPurchaseId)
      ensures old(SessionOf(token)).loggedIn ==>
        && resp == PurchasedOk
        && purchases == old(purchases) + [Records.Purchase(old(nextPurchaseId), bookId, old(SessionOf(token)).userId)]
        && nextPurchaseId == old(nextPurchaseId) + 1
    {
      var session := SessionOf(token);
      var gate := Auth.CheckLoggedIn(session);
      if gate.Some? {
        return gate.value;
      }
      purchases := purchases + [Records.Purchase(nextPurchaseId, bookId, session.userId)];
      nextPurchaseId := nextPurchaseId + 1;
      resp := PurchasedOk;
    }

    /** `POST /api/books`: insert with a fresh id, then read the row back (201). */
    method CreateBook(token: Token, title: string, author: string, cover: string) returns (resp: Response)
      requires Valid()
      modifies this
      ensures Valid()
      ensures loans == old(loans) && purchases == old(purchases) && sessions == old(sessions)
      ensures nextLoanId == old(nextLoanId) && nextPurchaseId == old(nextPurchaseId)
      ensures !(old(SessionOf(token)).loggedIn && old(SessionOf(token)).isAdmin) ==>
        resp == Forbidden && books == old(books) && nextBookId == old(nextBookId)
      ensures old(SessionOf(token)).loggedIn && old(SessionOf(token)).isAdmin ==>
        && Catalog.FindBook(old(books), old(nextBookId)).None?
        && books == old(books) + [Book(old(nextBookId), title, author, cover)]
        && resp == Response(201, BookData(Book(old(nextBookId), title, author, cover)))
        && nextBookId == old(nextBookId) + 1
    {
      var gate := Auth.CheckAdmin(SessionOf(token));
      if gate.Some? {
        return gate.value;
      }
      var insertId := nextBookId;
      books := books + [Book(insertId, title, author, cover)];
      nextBookId := nextBookId + 1;
      var newBook := Catalog.FindBook(books, insertId);
      assert books[|books| - 1].id == insertId;
      assert Catalog.FindBook(old(books), insertId).None?;
      resp := Response(201, BookData(newBook.value));
    }

    /** `PUT /api/books/:id`: update by id, then read the row back; 404 when it is not there. */
    method UpdateBook(token: Token, id: Id, title: string, author: string, cover: string) returns (resp: Response)
      requires Valid()
      modifies this
      ensures Valid()
      ensures loans == old(loans) && purchases == old(purchases) && sessions == old(sessions)
      ensures nextBookId == old(nextBookId) && nextLoanId == old(nextLoanId) && nextPurchaseId == old(nextPurchaseId)
      ensures !(old(SessionOf(token)).loggedIn && old(SessionOf(token)).isAdmin) ==>
        resp == Forbidden && books == old(books)
      ensures old(SessionOf(token)).loggedIn && old(SessionOf(token)).isAdmin && Catalog.FindBook(old(books), id).None? ==>
        resp == BookNotFound && books == old(books)
      ensures old(SessionOf(token)).loggedIn && old(SessionOf(token)).isAdmin && Catalog.FindBook(old(books), id).Some? ==>
        && resp == Response(200, BookData(Book(id, title, author, cover)))
        && books == Catalog.UpdateRows(old(books), id, title, author, cover)
    {
      var gate := Auth.CheckAdmin(SessionOf(token));
      if gate.Some? {
        return gate.value;
      }
      ghost var before := books;
      books := Catalog.UpdateRows(books, id, title, author, cover);
      Catalog.UpdateKeepsIds(before, nextBookId, id, title, author, cover);
      Catalog.UpdateThenFind(before, id, title, author, cover);
      var updatedBook := Catalog.FindBook(books, id);
      if updatedBook.Some? {
        resp := Response(200, BookData(updatedBook.value));
      } else {
        Catalog.UpdateMissingIsNoOp(before, id, title, author, cover);
        resp := BookNotFound;
      }
    }

    /** `DELETE /api/books/:id`: delete by id and answer 204 whether or not the id was there. */
    method DeleteBook(token: Token, id: Id) returns (resp: Response)
      requires Valid()
      modifies this
      ensures Valid()
      ensures loans == old(loans) && purchases == old(purchases) && sessions == old(sessions)
      ensures nextBookId == old(nextBookId) && nextLoanId == old(nextLoanId) && nextPurchaseId == old(nextPurchaseId)
      ensures !(old(SessionOf(token)).loggedIn && old(SessionOf(token)).isAdmin) ==>
        resp == Forbidden && books == old(books)
      ensures old(SessionOf(token)).loggedIn && old(SessionOf(token)).isAdmin ==>
        resp == Deleted && books == Catalog.DeleteRows(old(books), id) && Catalog.FindBook(books, id).None?
    {
      var gate := Auth.CheckAdmin(SessionOf(token));
      if gate.Some? {
        return gate.value;
      }
      Catalog.DeleteKeepsIncreasing(books, id);
      books := Catalog.DeleteRows(books, id);
      resp := Deleted;
    }

    /** `GET /api/admin/borrowed` */
    method BorrowedReport(token: Token) returns (resp: Response)
      ensures !(SessionOf(token).loggedIn && SessionOf(token).isAdmin) ==> resp == Forbidden
      ensures SessionOf(token).loggedIn && SessionOf(token).isAdmin ==>
        resp == Response(200, LoanRows(Views.Outstanding(loans, books, readers)))
    {
      var gate := Auth.CheckAdmin(SessionOf(token));
      if gate.Some? {
        return gate.value;
      }
      resp := Response(200, LoanRows(Views.Outstanding(loans, books, readers)));
    }
  }
}
