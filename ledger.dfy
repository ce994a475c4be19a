/**
 * The loan ledger (`borrowed_books`): the queries the borrow and return
 * handlers issue against it, and the invariant they are meant to keep —
 * at most one open loan per book.
 */
module Ledger {
  import opened Records

  /** `book_id = ? AND return_date IS NULL` */
  predicate IsOpenFor(l: Loan, bookId: Id)
  {
    l.open && l.bookId == bookId
  }

  /** `book_id = ? AND reader_id = ? AND return_date IS NULL` */
  predicate IsOwnOpen(l: Loan, bookId: Id, readerId: Id)
  {
    IsOpenFor(l, bookId) && l.readerId == readerId
  }

  ghost predicate HasOpenLoan(loans: seq<Loan>, bookId: Id)
  {
    exists i :: 0 <= i < |loans| && IsOpenFor(loans[i], bookId)
  }

  ghost predicate HasOwnOpenLoan(loans: seq<Loan>, bookId: Id, readerId: Id)
  {
    exists i :: 0 <= i < |loans| && IsOwnOpen(loans[i], bookId, readerId)
  }

  /** The ledger's one invariant: no two open records name the same book. */
  ghost predicate AtMostOneOpen(loans: seq<Loan>)
  {
    forall i, j ::
      (0 <= i < |loans| && 0 <= j < |loans| && loans[i].open && loans[j].open
       && loans[i].bookId == loans[j].bookId) ==> i == j
  }

  /** Auto-increment ids: increasing in insertion order, hence a key. */
  ghost predicate IdsIncreasing(loans: seq<Loan>)
  {
    forall i, j :: 0 <= i < j < |loans| ==> loans[i].id < loans[j].id
  }

  /** Every id in the ledger was handed out before `nextId`. */
  ghost predicate IdsBelow(loans: seq<Loan>, nextId: Id)
  {
    forall i :: 0 <= i < |loans| ==> loans[i].id < nextId
  }

  ghost predicate LedgerValid(loans: seq<Loan>, nextId: Id)
  {
    IdsIncreasing(loans) && IdsBelow(loans, nextId) && AtMostOneOpen(loans)
  }

  /** `SELECT ... FROM borrowed_books WHERE book_id = ? AND return_date IS NULL`, in ledger order. */
  function OpenLoans(loans: seq<Loan>, bookId: Id): (r: seq<Loan>)
    ensures |r| <= |loans|
    ensures forall l :: l in r ==> l in loans && IsOpenFor(l, bookId)
    ensures forall i :: 0 <= i < |loans| && IsOpenFor(loans[i], bookId) ==> loans[i] in r
  {
    if loans == [] then []
    else
      var rest := OpenLoans(loans[1..], bookId);
      assert forall i :: 0 < i < |loans| ==> loans[i] == loans[1..][i - 1];
      if IsOpenFor(loans[0], bookId) then [loans[0]] + rest else rest
  }

  /** The borrow handler's check finds a row exactly when the book has an open loan. */
  lemma OpenLoansEmptyIff(loans: seq<Loan>, bookId: Id)
    ensures OpenLoans(loans, bookId) == [] <==> !HasOpenLoan(loans, bookId)
  {
    var r := OpenLoans(loans, bookId);
    if r != [] {
      assert r[0] in r;
    }
  }

  /** The invariant holds of the ledger's tail, and no later open record shares an open head's book. */
  lemma TailAtMostOne(loans: seq<Loan>)
    requires AtMostOneOpen(loans) && loans != []
    ensures AtMostOneOpen(loans[1..])
    ensures loans[0].open ==> forall l :: l in loans[1..] && l.open ==> l.bookId != loans[0].bookId
  {
    var tail := loans[1..];
    forall i, j | 0 <= i < |tail| && 0 <= j < |tail| && tail[i].open && tail[j].open && tail[i].bookId == tail[j].bookId
      ensures i == j
    {
      assert tail[i] == loans[i + 1] && tail[j] == loans[j + 1];
    }
    forall l | l in tail && l.open && loans[0].open
      ensures l.bookId != loans[0].bookId
    {
      var k :| 0 <= k < |tail| && tail[k] == l;
      assert loans[k + 1] == l;
    }
  }

  /** Under the invariant the borrow check and the listing join find at most one open loan. */
  lemma {:induction false} OpenLoansAtMostOne(loans: seq<Loan>, bookId: Id)
    requires AtMostOneOpen(loans)
    ensures |OpenLoans(loans, bookId)| <= 1
  {
    if loans != [] {
      var tail := loans[1..];
      assert AtMostOneOpen(tail) by {
        forall i, j | 0 <= i < |tail| && 0 <= j < |tail| && tail[i].open && tail[j].open
                      && tail[i].bookId == tail[j].bookId
          ensures i == j
        {
          assert loans[i + 1] == tail[i] && loans[j + 1] == tail[j];
        }
      }
      OpenLoansAtMostOne(tail, bookId);
      if IsOpenFor(loans[0], bookId) {
        forall i | 0 <= i < |tail|
          ensures !IsOpenFor(tail[i], bookId)
        {
          assert loans[i + 1] == tail[i];
        }
        OpenLoansEmptyIff(tail, bookId);
      }
    }
  }

  /** `borrowedBook[0].id` of the return handler's query: the caller's first open record for the book. */
  function FindOwnOpen(loans: seq<Loan>, bookId: Id, readerId: Id): (r: Option<Id>)
    ensures r.None? <==> !HasOwnOpenLoan(loans, bookId, readerId)
    ensures r.Some? ==>
      exists k :: 0 <= k < |loans| && IsOwnOpen(loans[k], bookId, readerId) && loans[k].id == r.value
  {
    if loans == [] then None
    else if IsOwnOpen(loans[0], bookId, readerId) then Some(loans[0].id)
    else
      var rest := FindOwnOpen(loans[1..], bookId, readerId);
      assert forall i :: 0 < i < |loans| ==> loans[i] == loans[1..][i - 1];
      rest
  }

  /** `UPDATE borrowed_books SET return_date = NOW() WHERE id = ?` */
  function CloseById(loans: seq<Loan>, id: Id): (r: seq<Loan>)
    ensures |r| == |loans|
    ensures forall i :: 0 <= i < |loans| ==>
      && r[i].id == loans[i].id && r[i].bookId == loans[i].bookId && r[i].readerId == loans[i].readerId
      && (r[i].open <==> loans[i].open && loans[i].id != id)
  {
    seq(|loans|, i requires 0 <= i < |loans| => if loans[i].id == id then loans[i].(open := false) else loans[i])
  }

  /** With unique ids, closing by id closes exactly record `k` and leaves every other record as it was. */
  lemma CloseByIdAt(loans: seq<Loan>, k: nat)
    requires IdsIncreasing(loans) && k < |loans|
    ensures CloseById(loans, loans[k].id) == loans[k := loans[k].(open := false)]
  {
    var r := CloseById(loans, loans[k].id);
    forall i | 0 <= i < |loans| && i != k
      ensures r[i] == loans[i]
    {
      assert loans[i].id != loans[k].id;
    }
  }

  /** Appending an open loan for a book with no open loan keeps the ledger valid. */
  lemma BorrowKeepsValid(loans: seq<Loan>, nextId: Id, bookId: Id, readerId: Id)
    requires LedgerValid(loans, nextId) && !HasOpenLoan(loans, bookId)
    ensures LedgerValid(loans + [Loan(nextId, bookId, readerId, true)], nextId + 1)
  {
    var r := loans + [Loan(nextId, bookId, readerId, true)];
    forall i, j | 0 <= i < |r| && 0 <= j < |r| && r[i].open && r[j].open && r[i].bookId == r[j].bookId
      ensures i == j
    {
    }
  }

  /** Closing records (by any id) keeps the ledger valid. */
  lemma CloseKeepsValid(loans: seq<Loan>, nextId: Id, id: Id)
    requires LedgerValid(loans, nextId)
    ensures LedgerValid(CloseById(loans, id), nextId)
  {
  }

  /** Once a book has an open loan, every further borrow check for it finds one. */
  lemma BorrowedBookStaysOpen(loans: seq<Loan>, nextId: Id, bookId: Id, readerId: Id)
    ensures HasOpenLoan(loans + [Loan(nextId, bookId, readerId, true)], bookId)
    ensures OpenLoans(loans + [Loan(nextId, bookId, readerId, true)], bookId) != []
  {
    var r := loans + [Loan(nextId, bookId, readerId, true)];
    assert IsOpenFor(r[|loans|], bookId);
    OpenLoansEmptyIff(r, bookId);
  }

  /** After the caller's record is closed, under the invariant the book has no open loan left. */
  lemma ReturnLeavesNoOpenLoan(loans: seq<Loan>, k: nat)
    requires AtMostOneOpen(loans) && k < |loans| && loans[k].open
    ensures !HasOpenLoan(loans[k := loans[k].(open := false)], loans[k].bookId)
  {
    var r := loans[k := loans[k].(open := false)];
    forall i | 0 <= i < |r|
      ensures !IsOpenFor(r[i], loans[k].bookId)
    {
      if i != k {
        assert r[i] == loans[i];
      }
    }
  }
}
