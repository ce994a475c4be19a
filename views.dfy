/**
 * The two read-only views computed by joins at request time: the book
 * listing with its borrow status, and the admins' outstanding-loans report.
 * Row order is the store's choice in SQL; here it follows the tables' order.
 */
module Views {
  import opened Records
  import opened Ledger
  import opened Catalog

  /** `LEFT JOIN readers r ON bb.reader_id = r.id`, projected to `r.username` (ids are a key of `readers`). */
  function LookupUsername(readers: seq<Account>, id: Id): (r: Option<string>)
    ensures r.None? <==> forall i :: 0 <= i < |readers| ==> readers[i].id != id
    ensures r.Some? ==> exists i :: 0 <= i < |readers| && readers[i].id == id && readers[i].username == r.value
  {
    if readers == [] then None
    else if readers[0].id == id then Some(readers[0].username)
    else
      assert forall i :: 0 < i < |readers| ==> readers[i] == readers[1..][i - 1];
      LookupUsername(readers[1..], id)
  }

  /** One `borrowed` row per open loan of book `b`. */
  function BorrowedRows(b: Book, open: seq<Loan>, readers: seq<Account>): seq<BookRow>
  {
    seq(|open|, i requires 0 <= i < |open| =>
      BookRow(b.id, b.title, b.author, cover := b.cover, status := Borrowed,
              borrowedBy := LookupUsername(readers, open[i].readerId)))
  }

  /** The rows the listing's left join produces for one book. */
  function RowsForBook(b: Book, loans: seq<Loan>, readers: seq<Account>): seq<BookRow>
  {
    var open := OpenLoans(loans, b.id);
    if open == [] then [BookRow(b.id, b.title, b.author, b.cover, Available, None)]
    else BorrowedRows(b, open, readers)
  }

  /** The query behind `GET /api/reader/books` and `GET /api/books`. */
  function Listing(books: seq<Book>, loans: seq<Loan>, readers: seq<Account>): seq<BookRow>
  {
    if books == [] then []
    else RowsForBook(books[0], loans, readers) + Listing(books[1..], loans, readers)
  }

  /**
   * What a listing row says about book `b`: its columns, `borrowed` exactly
   * when the book has an open loan, and then the name of an open loan's reader.
   */
  ghost predicate Describes(row: BookRow, b: Book, loans: seq<Loan>, readers: seq<Account>)
  {
    && row.id == b.id && row.title == b.title && row.author == b.author && row.cover == b.cover
    && (row.status == Borrowed <==> HasOpenLoan(loans, b.id))
    && (row.status == Borrowed ==>
          exists l :: l in loans && IsOpenFor(l, b.id) && row.borrowedBy == LookupUsername(readers, l.readerId))
    && (row.status == Available ==> row.borrowedBy == None)
  }

  /**
   * Every row produced for a book describes it; there is one row per open
   * loan (at least one), and row i names the reader of the i-th open loan.
   */
  lemma RowsForBookDescribe(b: Book, loans: seq<Loan>, readers: seq<Account>)
    ensures |RowsForBook(b, loans, readers)| == if HasOpenLoan(loans, b.id) then |OpenLoans(loans, b.id)| else 1
    ensures HasOpenLoan(loans, b.id) ==> forall i :: 0 <= i < |OpenLoans(loans, b.id)| ==>
      RowsForBook(b, loans, readers)[i].borrowedBy == LookupUsername(readers, OpenLoans(loans, b.id)[i].readerId)
    ensures forall row :: row in RowsForBook(b, loans, readers) ==> Describes(row, b, loans, readers)
  {
    var open := OpenLoans(loans, b.id);
    OpenLoansEmptyIff(loans, b.id);
    var rows := RowsForBook(b, loans, readers);
    forall row | row in rows
      ensures Describes(row, b, loans, readers)
    {
      if open != [] {
        var i :| 0 <= i < |rows| && rows[i] == row;
        assert open[i] in open;
      }
    }
  }

  /** Every listing row describes some book of the catalog. */
  lemma {:induction false} ListingSound(books: seq<Book>, loans: seq<Loan>, readers: seq<Account>)
    ensures forall row :: row in Listing(books, loans, readers) ==>
      exists b :: b in books && Describes(row, b, loans, readers)
  {
    if books != [] {
      ListingSound(books[1..], loans, readers);
      RowsForBookDescribe(books[0], loans, readers);
      forall row | row in Listing(books, loans, readers)
        ensures exists b :: b in books && Describes(row, b, loans, readers)
      {
        if row in RowsForBook(books[0], loans, readers) {
          assert Describes(row, books[0], loans, readers);
        } else {
          assert row in Listing(books[1..], loans, readers);
          var b :| b in books[1..] && Describes(row, b, loans, readers);
          assert b in books;
        }
      }
    }
  }

  /**
   * Under the ledger invariant the listing has exactly one row per book, in
   * catalog order, and a borrowed book's row names the reader of its one open loan.
   */
  lemma {:induction false} ListingOnePerBook(books: seq<Book>, loans: seq<Loan>, readers: seq<Account>)
    requires AtMostOneOpen(loans)
    ensures |Listing(books, loans, readers)| == |books|
    ensures forall i :: 0 <= i < |books| ==> Describes(Listing(books, loans, readers)[i], books[i], loans, readers)
  {
    if books != [] {
      ListingOnePerBook(books[1..], loans, readers);
      OpenLoansAtMostOne(loans, books[0].id);
      RowsForBookDescribe(books[0], loans, readers);
      var head := RowsForBook(books[0], loans, readers);
      assert |head| == 1;
      assert head[0] in head;
      var r := Listing(books, loans, readers);
      forall i | 0 <= i < |books|
        ensures Describes(r[i], books[i], loans, readers)
      {
        if i > 0 {
          assert r[i] == Listing(books[1..], loans, readers)[i - 1];
          assert books[i] == books[1..][i - 1];
        }
      }
    }
  }

  /** Under the ledger invariant a borrowed book has exactly one open loan, so `borrowedBy` is determined. */
  lemma OpenLoanUnique(loans: seq<Loan>, bookId: Id, l1: Loan, l2: Loan)
    requires AtMostOneOpen(loans)
    requires l1 in loans && IsOpenFor(l1, bookId) && l2 in loans && IsOpenFor(l2, bookId)
    ensures l1 == l2
  {
    var i :| 0 <= i < |loans| && loans[i] == l1;
    var j :| 0 <= j < |loans| && loans[j] == l2;
  }

  /** The inner joins of the report for one ledger row: `JOIN books` and `JOIN readers`, open rows only. */
  function ReportRow(l: Loan, books: seq<Book>, readers: seq<Account>): (r: Option<LoanRow>)
    ensures r.Some? <==>
      && l.open
      && (exists i :: 0 <= i < |books| && books[i].id == l.bookId)
      && (exists j :: 0 <= j < |readers| && readers[j].id == l.readerId)
    ensures r.Some? ==>
      && r.value.bookId == l.bookId
      && (exists b :: b in books && b.id == l.bookId && r.value.title == b.title)
      && (exists a :: a in readers && a.id == l.readerId && r.value.borrowedBy == a.username)
  {
    var book := FindBook(books, l.bookId);
    var name := LookupUsername(readers, l.readerId);
    if l.open && book.Some? && name.Some? then Some(LoanRow(l.bookId, book.value.title, name.value))
    else None
  }

  /** The query behind `GET /api/admin/borrowed`. */
  function Outstanding(loans: seq<Loan>, books: seq<Book>, readers: seq<Account>): (r: seq<LoanRow>)
    ensures |r| <= |loans|
    ensures forall row :: row in r ==>
      exists i :: 0 <= i < |loans| && ReportRow(loans[i], books, readers) == Some(row)
    ensures forall i :: 0 <= i < |loans| && ReportRow(loans[i], books, readers).Some? ==>
      ReportRow(loans[i], books, readers).value in r
  {
    if loans == [] then []
    else
      var rest := Outstanding(loans[1..], books, readers);
      assert forall i :: 0 < i < |loans| ==> loans[i] == loans[1..][i - 1];
      match ReportRow(loans[0], books, readers)
      case Some(row) => [row] + rest
      case None => rest
  }

  /** No two report rows name the same book. */
  ghost predicate DistinctBooks(rows: seq<LoanRow>)
  {
    forall i, j :: 0 <= i < j < |rows| ==> rows[i].bookId != rows[j].bookId
  }

  /** A row whose book no other row names keeps the rows distinct when put in front. */
  lemma DistinctBooksCons(row: LoanRow, rest: seq<LoanRow>)
    requires DistinctBooks(rest)
    requires forall other :: other in rest ==> other.bookId != row.bookId
    ensures DistinctBooks([row] + rest)
  {
    var r := [row] + rest;
    forall i, j | 0 <= i < j < |r|
      ensures r[i].bookId != r[j].bookId
    {
      assert r[j] == rest[j - 1];
      if i > 0 {
        assert r[i] == rest[i - 1];
      }
    }
  }

  /** Under the ledger invariant no later report row names the book of an open first record. */
  lemma RestAvoidsHead(loans: seq<Loan>, books: seq<Book>, readers: seq<Account>)
    requires AtMostOneOpen(loans) && loans != [] && loans[0].open
    ensures forall row :: row in Outstanding(loans[1..], books, readers) ==> row.bookId != loans[0].bookId
  {
    var tail := loans[1..];
    TailAtMostOne(loans);
    forall row | row in Outstanding(tail, books, readers)
      ensures row.bookId != loans[0].bookId
    {
      var k :| 0 <= k < |tail| && ReportRow(tail[k], books, readers) == Some(row);
      assert tail[k] in tail;
    }
  }

  /**
   * Under the ledger invariant no two report rows name the same book: each
   * open loan that passes the joins is reported once.
   */
  lemma {:induction false} OutstandingDistinct(loans: seq<Loan>, books: seq<Book>, readers: seq<Account>)
    requires AtMostOneOpen(loans)
    ensures DistinctBooks(Outstanding(loans, books, readers))
  {
    if loans != [] {
      TailAtMostOne(loans);
      OutstandingDistinct(loans[1..], books, readers);
      var rest := Outstanding(loans[1..], books, readers);
      var head := ReportRow(loans[0], books, readers);
      if head.Some? {
        RestAvoidsHead(loans, books, readers);
        DistinctBooksCons(head.value, rest);
        assert Outstanding(loans, books, readers) == [head.value] + rest;
      } else {
        assert Outstanding(loans, books, readers) == rest;
      }
    }
  }

  /** The report only ever names books that have an open loan. */
  lemma OutstandingOnlyOpen(loans: seq<Loan>, books: seq<Book>, readers: seq<Account>, row: LoanRow)
    requires row in Outstanding(loans, books, readers)
    ensures HasOpenLoan(loans, row.bookId)
  {
    var i :| 0 <= i < |loans| && ReportRow(loans[i], books, readers) == Some(row);
    assert IsOpenFor(loans[i], row.bookId);
  }
}
