/**
 * Clients of the server that chain handlers, proved from the handlers'
 * contracts alone: what a sequence of requests is guaranteed to produce.
 */
module Scenarios {
  import opened Records
  import opened Server
  import Auth
  import Ledger
  import Catalog
  import Views

  /** Borrowing the same available book twice in a row: success, then "already borrowed", one open loan. */
  method BorrowTwice(srv: LibraryServer, token: Token, bookId: Id) returns (first: Response, second: Response)
    requires srv.Valid() && srv.SessionOf(token).loggedIn && !Ledger.HasOpenLoan(srv.loans, bookId)
    modifies srv
    ensures srv.Valid()
    ensures first == BorrowedOk && second == AlreadyBorrowed
    ensures srv.loans == old(srv.loans) + [Loan(old(srv.nextLoanId), bookId, old(srv.SessionOf(token)).userId, true)]
    ensures |Ledger.OpenLoans(srv.loans, bookId)| == 1
  {
    first := srv.Borrow(token, bookId);
    Ledger.BorrowedBookStaysOpen(old(srv.loans), old(srv.nextLoanId), bookId, old(srv.SessionOf(token)).userId);
    second := srv.Borrow(token, bookId);
    Ledger.OpenLoansEmptyIff(srv.loans, bookId);
    Ledger.OpenLoansAtMostOne(srv.loans, bookId);
  }

  /** Deleting the same id twice answers 204 both times and leaves the catalog as one delete does. */
  method DeleteTwice(srv: LibraryServer, token: Token, id: Id) returns (first: Response, second: Response)
    requires srv.Valid() && srv.SessionOf(token).loggedIn && srv.SessionOf(token).isAdmin
    modifies srv
    ensures srv.Valid()
    ensures first == Deleted && second == Deleted
    ensures srv.books == Catalog.DeleteRows(old(srv.books), id)
  {
    first := srv.DeleteBook(token, id);
    second := srv.DeleteBook(token, id);
    Catalog.DeleteIdempotent(old(srv.books), id);
  }

  /** The same credentials under the two user types give an admin and a non-admin session; a wrong password is refused. */
  method LoginRoles() returns (asAdmin: Session, asReader: Session, refused: Response)
    ensures asAdmin.loggedIn && asAdmin.isAdmin && asAdmin.userId == 1
    ensures asReader.loggedIn && !asReader.isAdmin && asReader.userId == 3
    ensures refused == InvalidCredentials
  {
    var sam := Account(1, "sam", "pw");
    var alice := Account(1, "alice", "a");
    var samAsReader := Account(3, "sam", "pw");
    var noHash := (p: string, s: string) => false;
    var srv := new LibraryServer([sam], [alice, samAsReader]);

    var r := srv.Login("t-admin", "sam", "pw", "admin", noHash);
    assert Auth.FirstMatch([sam], "sam", 0);
    asAdmin := srv.SessionOf("t-admin");
    r := srv.Login("t-sam", "sam", "pw", "reader", noHash);
    assert Auth.FirstMatch([alice, samAsReader], "sam", 1);
    asReader := srv.SessionOf("t-sam");
    refused := srv.Login("t-eve", "alice", "wrong", "reader", noHash);
  }

  /**
   * An admin adds a book, one reader borrows it and a second reader is
   * refused. Borrowing does not check the catalog, so the id the new book
   * receives must not already carry an open loan.
   */
  method CreateBorrowConflict(srv: LibraryServer, admin: Token, alice: Token, bob: Token)
    returns (bookId: Id, created: Response, first: Response, second: Response)
    requires srv.Valid()
    requires srv.SessionOf(admin).loggedIn && srv.SessionOf(admin).isAdmin
    requires srv.SessionOf(alice).loggedIn && srv.SessionOf(bob).loggedIn
    requires !Ledger.HasOpenLoan(srv.loans, srv.nextBookId)
    modifies srv
    ensures srv.Valid() && srv.sessions == old(srv.sessions)
    ensures created.status == 201 && first == BorrowedOk && second == AlreadyBorrowed
    ensures Ledger.HasOwnOpenLoan(srv.loans, bookId, srv.SessionOf(alice).userId)
  {
    created := srv.CreateBook(admin, "A", "X", "");
    bookId := created.body.book.id;
    var aliceId := srv.SessionOf(alice).userId;
    first := srv.Borrow(alice, bookId);
    Ledger.BorrowedBookStaysOpen(old(srv.loans), old(srv.nextLoanId), bookId, aliceId);
    assert Ledger.IsOwnOpen(srv.loans[|srv.loans| - 1], bookId, aliceId);
    ghost var afterFirst := srv.loans;
    second := srv.Borrow(bob, bookId);
    assert srv.loans == afterFirst;
  }

  /**
   * With the book out to one reader, a second reader cannot return it; the
   * first reader can, and the outstanding-loans report then no longer names it.
   */
  method ReturnThenReport(srv: LibraryServer, admin: Token, alice: Token, bob: Token, bookId: Id)
    returns (refused: Response, returned: Response, report: Response)
    requires srv.Valid()
    requires srv.SessionOf(admin).loggedIn && srv.SessionOf(admin).isAdmin
    requires srv.SessionOf(alice).loggedIn && srv.SessionOf(bob).loggedIn
    requires srv.SessionOf(alice).userId != srv.SessionOf(bob).userId
    requires Ledger.HasOwnOpenLoan(srv.loans, bookId, srv.SessionOf(alice).userId)
    modifies srv
    ensures srv.Valid()
    ensures refused == NotBorrowedByYou && returned == ReturnedOk
    ensures report.status == 200 && report.body.LoanRows?
    ensures forall row :: row in report.body.loanRows ==> row.bookId != bookId
  {
    var aliceId := srv.SessionOf(alice).userId;
    ghost var k :| 0 <= k < |srv.loans| && Ledger.IsOwnOpen(srv.loans[k], bookId, aliceId);
    assert !Ledger.HasOwnOpenLoan(srv.loans, bookId, srv.SessionOf(bob).userId) by {
      forall i | 0 <= i < |srv.loans| && Ledger.IsOpenFor(srv.loans[i], bookId)
        ensures srv.loans[i].readerId == aliceId
      {
        assert i == k;
      }
    }
    refused := srv.Return(bob, bookId);

    ghost var before := srv.loans;
    returned := srv.Return(alice, bookId);
    ghost var j :| 0 <= j < |before| && Ledger.IsOwnOpen(before[j], bookId, aliceId)
             && srv.loans == before[j := before[j].(open := false)];
    Ledger.ReturnLeavesNoOpenLoan(before, j);

    report := srv.BorrowedReport(admin);
    forall row | row in report.body.loanRows
      ensures row.bookId != bookId
    {
      Views.OutstandingOnlyOpen(srv.loans, srv.books, srv.readers, row);
    }
  }

  /**
   * Admins and readers are separate tables whose ids can overlap. A loan taken by
   * admin k carries `reader_id` k, and the return matches on `reader_id`
   * alone, so reader k returns it.
   */
  method SharedIdReturn(srv: LibraryServer, admin: Token, reader: Token, bookId: Id)
    returns (borrowed: Response, returned: Response)
    requires srv.Valid() && !Ledger.HasOpenLoan(srv.loans, bookId)
    requires srv.SessionOf(admin).loggedIn && srv.SessionOf(admin).isAdmin
    requires srv.SessionOf(reader).loggedIn && !srv.SessionOf(reader).isAdmin
    requires srv.SessionOf(admin).userId == srv.SessionOf(reader).userId
    modifies srv
    ensures srv.Valid()
    ensures borrowed == BorrowedOk && returned == ReturnedOk
    ensures !Ledger.HasOpenLoan(srv.loans, bookId)
  {
    var id := srv.SessionOf(reader).userId;
    borrowed := srv.Borrow(admin, bookId);
    assert Ledger.IsOwnOpen(srv.loans[|srv.loans| - 1], bookId, id);
    ghost var before := srv.loans;
    returned := srv.Return(reader, bookId);
    ghost var j :| 0 <= j < |before| && Ledger.IsOwnOpen(before[j], bookId, id)
             && srv.loans == before[j := before[j].(open := false)];
    Ledger.ReturnLeavesNoOpenLoan(before, j);
  }

  /**
   * Borrowing does not check that the book exists: a loan taken on an id no
   * book has yet makes the book created later under that id list as borrowed.
   * If the borrow is refused, an open loan on that id already existed, and the
   * new book lists as borrowed all the same.
   */
  method LoanBeforeBook(srv: LibraryServer, admin: Token, reader: Token) returns (created: Response)
    requires srv.Valid() && srv.books == []
    requires srv.SessionOf(admin).loggedIn && srv.SessionOf(admin).isAdmin
    requires srv.SessionOf(reader).loggedIn
    modifies srv
    ensures srv.Valid() && created.status == 201
    ensures |srv.BookListing()| == 1 && srv.BookListing()[0].status == Borrowed
  {
    var id := srv.nextBookId;
    var r := srv.Borrow(reader, id);
    assert Ledger.HasOpenLoan(srv.loans, id) by {
      if r == BorrowedOk {
        assert Ledger.IsOpenFor(srv.loans[|srv.loans| - 1], id);
      }
    }
    created := srv.CreateBook(admin, "A", "X", "");
    assert srv.books == [Book(id, "A", "X", "")];
    Views.ListingOnePerBook(srv.books, srv.loans, srv.readers);
  }
}
