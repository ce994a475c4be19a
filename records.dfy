/**
 * The rows of the library's tables, the per-client session record and the
 * responses the HTTP handlers send back.
 */
module Records {

  datatype Option<T> = None | Some(value: T)

  /** Primary keys are auto-increment integers. */
  type Id = nat

  /** Opaque session cookie value that selects a session record. */
  type Token = string

  /** A row of `admins` or `readers`: the stored password may be a bcrypt hash or plain text. */
  datatype Account = Account(id: Id, username: string, password: string)

  /** A row of `books` (created_at is not modelled). */
  datatype Book = Book(id: Id, title: string, author: string, cover: string)

  /** A row of `borrowed_books`; `open` stands for `return_date IS NULL`. */
  datatype Loan = Loan(id: Id, bookId: Id, readerId: Id, open: bool)

  /** A row of `purchased_books` (purchase_date is not modelled). */
  datatype Purchase = Purchase(id: Id, bookId: Id, readerId: Id)

  /** The fields the handlers read from and write to `req.session`. */
  datatype Session = Session(loggedIn: bool, userId: Id, username: string, isAdmin: bool)

  /** A fresh, never logged-in session: every field is unset (falsy). */
  const Anonymous := Session(false, 0, "", false)

  datatype Status = Borrowed | Available

  /** One row of the book listing: the book, its status and the borrowing reader's name (NULL -> None). */
  datatype BookRow = BookRow(id: Id, title: string, author: string, cover: string,
                             status: Status, borrowedBy: Option<string>)

  /** One row of the outstanding-loans report (borrow_date is not modelled). */
  datatype LoanRow = LoanRow(bookId: Id, title: string, borrowedBy: string)

  /** JSON bodies: `{success, message}`, `{success: true, redirect}`, row arrays, one book row, or none (204). */
  datatype Body =
    | Message(success: bool, message: string)
    | Redirect(redirect: string)
    | BookRows(rows: seq<BookRow>)
    | BookData(book: Book)
    | LoanRows(loanRows: seq<LoanRow>)
    | NoBody

  datatype Response = Response(status: nat, body: Body)

  const Unauthorized := Response(401, Message(false, "Unauthorized"))
  const Forbidden := Response(403, Message(false, "Forbidden"))
  const InvalidCredentials := Response(401, Message(false, "Invalid credentials"))
  const LoggedOut := Response(200, Redirect("/login.html"))
  const AlreadyBorrowed := Response(400, Message(false, "Book is already borrowed."))
  const BorrowedOk := Response(200, Message(true, "Book borrowed successfully."))
  const NotBorrowedByYou := Response(400, Message(false, "You have not borrowed this book."))
  const ReturnedOk := Response(200, Message(true, "Book returned successfully."))
  const PurchasedOk := Response(200, Message(true, "Book purchased successfully."))
  const BookNotFound := Response(404, Message(false, "Book not found"))
  const Deleted := Response(204, NoBody)
}
