/** The rows of the two tables the loan lifecycle touches. */
module Schema {
  import opened Wrappers
  import opened Dates

  type BookId = int
  type MemberId = int
  type LoanId = int

  /** A row of the Books table. The loan lifecycle reads and writes only
      `availableCopies`; the other columns are carried unchanged. */
  datatype Book = Book(
    title: string,
    author: string,
    publishedDate: string,
    isbn: string,
    numberOfPages: int,
    coverImage: string,
    language: string,
    availableCopies: int)

  /** A row of the Loan table. `returnDate` is the due-date column and
      `actualReturnDate` records the return; `None` is SQL NULL. */
  datatype Loan = Loan(
    bookId: BookId,
    memberId: MemberId,
    loanDate: Date,
    returnDate: Option<Date>,
    actualReturnDate: Option<Date>,
    fine: Option<int>)
  {
    /** The book has not been given back: no return is recorded. */
    predicate Outstanding()
    {
      actualReturnDate.None?
    }
  }

  /** A loan row together with its id, as `SELECT * FROM Loan` yields it. */
  datatype LoanRow = LoanRow(id: LoanId, loan: Loan)

  type BookTable = map<BookId, Book>

  /** `after` is `before` with the available count of book `id` moved by
      `delta` (when that book exists) and every other row and column as it was. */
  predicate CopiesChangedBy(before: BookTable, after: BookTable, id: BookId, delta: int)
  {
    && after.Keys == before.Keys
    && (id in before ==> after[id] == before[id].(availableCopies := before[id].availableCopies + delta))
    && (forall k :: k in before && k != id ==> after[k] == before[k])
  }

  /** No book has a negative count of available copies. */
  predicate NonNegative(books: BookTable)
  {
    forall id :: id in books ==> books[id].availableCopies >= 0
  }
}
