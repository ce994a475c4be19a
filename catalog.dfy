/**
 * The `books` table and the statements the admin handlers run on it:
 * lookup by id, update by id and delete by id.
 */
module Catalog {
  import opened Records

  /** Auto-increment ids: increasing in insertion order, hence a key. */
  ghost predicate IdsIncreasing(books: seq<Book>)
  {
    forall i, j :: 0 <= i < j < |books| ==> books[i].id < books[j].id
  }

  ghost predicate IdsBelow(books: seq<Book>, nextId: Id)
  {
    forall i :: 0 <= i < |books| ==> books[i].id < nextId
  }

  ghost predicate CatalogValid(books: seq<Book>, nextId: Id)
  {
    IdsIncreasing(books) && IdsBelow(books, nextId)
  }

  /** `rows[0]` of `SELECT * FROM books WHERE id = ?`. */
  function FindBook(books: seq<Book>, id: Id): (r: Option<Book>)
    ensures r.None? <==> forall i :: 0 <= i < |books| ==> books[i].id != id
    ensures r.Some? ==> r.value.id == id && r.value in books
  {
    if books == [] then None
    else if books[0].id == id then Some(books[0])
    else
      assert forall i :: 0 < i < |books| ==> books[i] == books[1..][i - 1];
      FindBook(books[1..], id)
  }

  /** `UPDATE books SET title = ?, author = ?, cover = ? WHERE id = ?` */
  function UpdateRows(books: seq<Book>, id: Id, title: string, author: string, cover: string): (r: seq<Book>)
    ensures |r| == |books|
    ensures forall i :: 0 <= i < |books| ==> r[i].id == books[i].id
    ensures forall i :: 0 <= i < |books| && books[i].id != id ==> r[i] == books[i]
    ensures forall i :: 0 <= i < |books| && books[i].id == id ==> r[i] == Book(id, title, author, cover)
  {
    if books == [] then []
    else
      var row := if books[0].id == id then Book(id, title, author, cover) else books[0];
      [row] + UpdateRows(books[1..], id, title, author, cover)
  }

  /** `DELETE FROM books WHERE id = ?` */
  function DeleteRows(books: seq<Book>, id: Id): (r: seq<Book>)
    ensures |r| <= |books|
    ensures forall b :: b in r <==> b in books && b.id != id
  {
    if books == [] then []
    else if books[0].id == id then DeleteRows(books[1..], id)
    else [books[0]] + DeleteRows(books[1..], id)
  }

  /** Reading the id back after an update gives the new values iff the id was there. */
  lemma {:induction false} UpdateThenFind(books: seq<Book>, id: Id, title: string, author: string, cover: string)
    ensures FindBook(UpdateRows(books, id, title, author, cover), id)
         == if FindBook(books, id).Some? then Some(Book(id, title, author, cover)) else None
  {
    if books != [] && books[0].id != id {
      UpdateThenFind(books[1..], id, title, author, cover);
    }
  }

  /** Updating an id that is not in the table changes nothing. */
  lemma {:induction false} UpdateMissingIsNoOp(books: seq<Book>, id: Id, title: string, author: string, cover: string)
    requires FindBook(books, id).None?
    ensures UpdateRows(books, id, title, author, cover) == books
  {
    if books != [] {
      UpdateMissingIsNoOp(books[1..], id, title, author, cover);
    }
  }

  /** Updating keeps every id, so the ids stay increasing and below the next id. */
  lemma UpdateKeepsIds(books: seq<Book>, nextId: Id, id: Id, title: string, author: string, cover: string)
    requires CatalogValid(books, nextId)
    ensures CatalogValid(UpdateRows(books, id, title, author, cover), nextId)
  {
  }

  /** Deleting twice has the same effect as deleting once. */
  lemma {:induction false} DeleteIdempotent(books: seq<Book>, id: Id)
    ensures DeleteRows(DeleteRows(books, id), id) == DeleteRows(books, id)
  {
    if books != [] {
      DeleteIdempotent(books[1..], id);
    }
  }

  /** Deleting an id that is not in the table changes nothing. */
  lemma {:induction false} DeleteMissingIsNoOp(books: seq<Book>, id: Id)
    requires FindBook(books, id).None?
    ensures DeleteRows(books, id) == books
  {
    if books != [] {
      DeleteMissingIsNoOp(books[1..], id);
    }
  }

  /** Every row after the first has a larger id than the first. */
  lemma TailIdsAbove(books: seq<Book>)
    requires IdsIncreasing(books) && books != []
    ensures IdsIncreasing(books[1..])
    ensures forall b :: b in books[1..] ==> books[0].id < b.id
  {
    var tail := books[1..];
    forall i, j | 0 <= i < j < |tail| ensures tail[i].id < tail[j].id {
      assert tail[i] == books[i + 1] && tail[j] == books[j + 1];
    }
  }

  /** Deleting rows keeps the ids increasing, so they stay a key. */
  lemma {:induction false} DeleteKeepsIncreasing(books: seq<Book>, id: Id)
    requires IdsIncreasing(books)
    ensures IdsIncreasing(DeleteRows(books, id))
  {
    if books != [] {
      TailIdsAbove(books);
      DeleteKeepsIncreasing(books[1..], id);
      if books[0].id != id {
        var rest := DeleteRows(books[1..], id);
        var r := [books[0]] + rest;
        forall j | 0 < j < |r| ensures books[0].id < r[j].id {
          assert r[j] == rest[j - 1];
          assert r[j] in books[1..];
        }
      }
    }
  }
}
