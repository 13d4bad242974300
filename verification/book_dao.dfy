/** The statements on the Books table, each as an operation on the table
    seen as a map from id to row. An UPDATE or DELETE whose WHERE clause
    matches no row changes nothing. */
module BookDao {
  import opened Wrappers
  import opened Schema

  /** `SELECT * FROM Books WHERE id = ?` */
  function GetBookById(books: BookTable, id: BookId): (r: Option<Book>)
    ensures r.Some? <==> id in books
    ensures r.Some? ==> r.value == books[id]
  {
    if id in books then Some(books[id]) else None
  }

  /** `UPDATE Books SET <every column> = ? WHERE id = ?`: the matching row
      is overwritten with the supplied values, the available count included. */
  function UpdateBookById(books: BookTable, id: BookId, row: Book): (r: BookTable)
    ensures r.Keys == books.Keys
    ensures id in books ==> r[id] == row
    ensures forall k :: k in books && k != id ==> r[k] == books[k]
  {
    if id in books then books[id := row] else books
  }

  /** `DELETE FROM Books WHERE id = ?` */
  function DeleteBookById(books: BookTable, id: BookId): (r: BookTable)
    ensures r.Keys == books.Keys - {id}
    ensures forall k :: k in r ==> r[k] == books[k]
  {
    books - {id}
  }

  /** `SELECT available_copies FROM Books WHERE id = ?` */
  function GetAvailableCopies(books: BookTable, id: BookId): (r: Option<int>)
    ensures r.Some? <==> id in books
    ensures r.Some? ==> r.value == books[id].availableCopies
  {
    if id in books then Some(books[id].availableCopies) else None
  }

  /** Adds `delta` to the available count of the matching row only. */
  function AdjustCopies(books: BookTable, id: BookId, delta: int): (r: BookTable)
    ensures CopiesChangedBy(books, r, id, delta)
  {
    if id in books
    then books[id := books[id].(availableCopies := books[id].availableCopies + delta)]
    else books
  }

  /** `UPDATE Books SET available_copies = available_copies - 1 WHERE id = ?`
      There is no lower bound in the WHERE clause: a count of 0 becomes -1. */
  function UpdateCopiesWhenLoaned(books: BookTable, id: BookId): (r: BookTable)
    ensures CopiesChangedBy(books, r, id, -1)
  {
    AdjustCopies(books, id, -1)
  }

  /** `UPDATE Books SET available_copies = available_copies + 1 WHERE id = ?` */
  function UpdateCopiesWhenReturned(books: BookTable, id: BookId): (r: BookTable)
    ensures CopiesChangedBy(books, r, id, 1)
    ensures NonNegative(books) ==> NonNegative(r)
  {
    AdjustCopies(books, id, 1)
  }

  /** The decrement can break non-negativity: it holds afterwards exactly
      when the matching row, if any, had a copy to give. */
  lemma LoanedKeepsNonNegativeIff(books: BookTable, id: BookId)
    requires NonNegative(books)
    ensures NonNegative(UpdateCopiesWhenLoaned(books, id))
            <==> (id !in books || books[id].availableCopies > 0)
  {
  }

  /** Loaning then returning the same id restores the table, and so does
      returning then loaning. */
  lemma LoanedReturnedRoundTrip(books: BookTable, id: BookId)
    ensures UpdateCopiesWhenReturned(UpdateCopiesWhenLoaned(books, id), id) == books
    ensures UpdateCopiesWhenLoaned(UpdateCopiesWhenReturned(books, id), id) == books
  {
  }

  /** Reading a book back after a write: an update is seen in full at its
      id, a delete makes the id absent, and other ids read as before. */
  lemma GetBookAfterWrites(books: BookTable, id: BookId, row: Book, other: BookId)
    ensures GetBookById(UpdateBookById(books, id, row), id) == if id in books then Some(row) else None
    ensures GetBookById(DeleteBookById(books, id), id) == None
    ensures other != id ==> GetBookById(UpdateBookById(books, id, row), other) == GetBookById(books, other)
    ensures other != id ==> GetBookById(DeleteBookById(books, id), other) == GetBookById(books, other)
  {
  }

  /** The count the next availability check reads after a copy update: one
      less after a loan, one more after a return, and unchanged for every
      other id. */
  lemma GetCopiesAfterUpdates(books: BookTable, id: BookId, other: BookId)
    ensures id in books ==>
              && GetAvailableCopies(UpdateCopiesWhenLoaned(books, id), id) == Some(books[id].availableCopies - 1)
              && GetAvailableCopies(UpdateCopiesWhenReturned(books, id), id) == Some(books[id].availableCopies + 1)
    ensures id !in books ==>
              && GetAvailableCopies(UpdateCopiesWhenLoaned(books, id), id) == None
              && GetAvailableCopies(UpdateCopiesWhenReturned(books, id), id) == None
    ensures other != id ==>
              && GetAvailableCopies(UpdateCopiesWhenLoaned(books, id), other) == GetAvailableCopies(books, other)
              && GetAvailableCopies(UpdateCopiesWhenReturned(books, id), other) == GetAvailableCopies(books, other)
  {
  }
}
