/** The loan lifecycle: each service operation is one atomic transition of
    the database, returning the HTTP status and message it reports together
    with the state it leaves behind. */
module LoanService {
  import opened Wrappers
  import opened Dates
  import opened Schema
  import opened BookDao
  import opened LoanDao

  /** The two tables the lifecycle works on. */
  datatype Db = Db(books: BookTable, loans: LoanTable)

  predicate DbWellFormed(db: Db)
  {
    LoanDao.WellFormed(db.loans)
  }

  /** The status code and message of a reply, and the new loan's id when
      one was created. */
  datatype Reply = Reply(code: int, message: string, loanId: Option<LoanId>)

  datatype Outcome = Outcome(reply: Reply, after: Db)

  const Created := 201
  const Ok := 200
  const BadRequest := 400
  const NotFound := 404

  const LoanCreated := "Loan created successfully"
  const BookNotAvailable := "Book not available"
  const LoanUpdated := "Loan updated successfully"
  const DateNotAfterLoan := "Return date must be after loan date"
  const LoanDeleted := "Loan deleted successfully"
  const LoanNotFound := "Loan not found"

  /** A copy of the book can be lent: the book exists and has a copy left. */
  predicate Available(db: Db, bookId: BookId)
  {
    bookId in db.books && db.books[bookId].availableCopies > 0
  }

  /** `create_loan`: look up the count, and only when a copy is left take
      one copy and record a new loan. The due date is not supplied, so the
      new row's `return_date` is NULL. */
  function CreateLoan(db: Db, bookId: BookId, memberId: MemberId, loanDate: Date): (o: Outcome)
    requires DbWellFormed(db)
    ensures DbWellFormed(o.after)
    ensures o.after.books.Keys == db.books.Keys
    ensures !Available(db, bookId) ==> o == Outcome(Reply(BadRequest, BookNotAvailable, None), db)
    ensures Available(db, bookId) ==>
              && o.reply.code == Created
              && o.reply.message == LoanCreated
              && o.reply.loanId.Some?
              && o.reply.loanId.value !in db.loans.rows
              && o.after.loans.rows
                 == db.loans.rows[o.reply.loanId.value := Loan(bookId, memberId, loanDate, None, None, None)]
              && CopiesChangedBy(db.books, o.after.books, bookId, -1)
    ensures NonNegative(db.books) ==> NonNegative(o.after.books)
  {
    var copies := GetAvailableCopies(db.books, bookId);
    if copies.Some? && copies.value > 0 then
      var books := UpdateCopiesWhenLoaned(db.books, bookId);
      var ins := InsertNewLoan(db.loans, bookId, memberId, loanDate, None);
      Outcome(Reply(Created, LoanCreated, Some(ins.id)), Db(books, ins.table))
    else
      Outcome(Reply(BadRequest, BookNotAvailable, None), db)
  }

  /** `get_loans`: every stored loan. */
  method GetLoans(db: Db) returns (rows: seq<LoanRow>)
    requires DbWellFormed(db)
    ensures ListsExactly(rows, db.loans)
  {
    rows := GetAllLoans(db.loans);
  }

  /** `get_loan`: the loan with that id, or nothing. */
  function GetLoan(db: Db, loanId: LoanId): (r: Option<LoanRow>)
    ensures r.Some? <==> loanId in db.loans.rows
    ensures r.Some? ==> r.value.id == loanId && r.value.loan == db.loans.rows[loanId]
  {
    GetLoanById(db.loans, loanId)
  }

  /** A return date the validation accepts: absent, or strictly after the
      loan date. */
  predicate AcceptedReturn(loan: Loan, returnDate: Option<Date>)
  {
    returnDate.None? || Before(loan.loanDate, returnDate.value)
  }

  /** `update_loan`: a supplied return date must be strictly after the loan
      date; when it is, one copy of the loan's book comes back. Whether or
      not a date was supplied, the row's `actual_return_date` is overwritten
      with it and its `fine` with NULL. Nothing checks that the loan was
      still outstanding. */
  function UpdateLoan(db: Db, loanId: LoanId, returnDate: Option<Date>): (o: Outcome)
    ensures DbWellFormed(db) ==> DbWellFormed(o.after)
    ensures o.after.books.Keys == db.books.Keys
    ensures o.after.loans.lastId == db.loans.lastId
    ensures loanId !in db.loans.rows ==> o == Outcome(Reply(NotFound, LoanNotFound, None), db)
    ensures loanId in db.loans.rows && !AcceptedReturn(db.loans.rows[loanId], returnDate) ==>
              o == Outcome(Reply(BadRequest, DateNotAfterLoan, None), db)
    ensures loanId in db.loans.rows && AcceptedReturn(db.loans.rows[loanId], returnDate) ==>
              var loan := db.loans.rows[loanId];
              && o.reply == Reply(Ok, LoanUpdated, None)
              && o.after.loans.rows == db.loans.rows[loanId := loan.(actualReturnDate := returnDate, fine := None)]
              && (returnDate.Some? ==> CopiesChangedBy(db.books, o.after.books, loan.bookId, 1))
              && (returnDate.None? ==> o.after.books == db.books)
    ensures NonNegative(db.books) ==> NonNegative(o.after.books)
  {
    match GetLoanById(db.loans, loanId)
    case None =>
      Outcome(Reply(NotFound, LoanNotFound, None), db)
    case Some(row) =>
      if returnDate.Some? && AtOrBefore(returnDate.value, row.loan.loanDate) then
        Outcome(Reply(BadRequest, DateNotAfterLoan, None), db)
      else
        var books := if returnDate.Some? then UpdateCopiesWhenReturned(db.books, row.loan.bookId) else db.books;
        var loans := UpdateLoanById(db.loans, loanId, returnDate, None);
        Outcome(Reply(Ok, LoanUpdated, None), Db(books, loans))
  }

  /** `delete_loan`: a loan that is still outstanding gives its copy back
      before the row is removed; a returned loan gave it back already. */
  function DeleteLoan(db: Db, loanId: LoanId): (o: Outcome)
    ensures DbWellFormed(db) ==> DbWellFormed(o.after)
    ensures o.after.books.Keys == db.books.Keys
    ensures o.after.loans.lastId == db.loans.lastId
    ensures loanId !in db.loans.rows ==> o == Outcome(Reply(NotFound, LoanNotFound, None), db)
    ensures loanId in db.loans.rows ==>
              var loan := db.loans.rows[loanId];
              && o.reply == Reply(Ok, LoanDeleted, None)
              && o.after.loans.rows == db.loans.rows - {loanId}
              && (loan.Outstanding() ==> CopiesChangedBy(db.books, o.after.books, loan.bookId, 1))
              && (!loan.Outstanding() ==> o.after.books == db.books)
    ensures NonNegative(db.books) ==> NonNegative(o.after.books)
  {
    match GetLoanById(db.loans, loanId)
    case None =>
      Outcome(Reply(NotFound, LoanNotFound, None), db)
    case Some(row) =>
      var books := if row.loan.Outstanding() then UpdateCopiesWhenReturned(db.books, row.loan.bookId) else db.books;
      Outcome(Reply(Ok, LoanDeleted, None), Db(books, DeleteLoanById(db.loans, loanId)))
  }

  /** `delete_loan` as the code is written: it asks whether the due-date
      column `return_date` is empty rather than `actual_return_date`. */
  function DeleteLoanAsWritten(db: Db, loanId: LoanId): (o: Outcome)
    ensures o.after.books.Keys == db.books.Keys
    ensures loanId !in db.loans.rows ==> o == Outcome(Reply(NotFound, LoanNotFound, None), db)
    ensures loanId in db.loans.rows ==>
              var loan := db.loans.rows[loanId];
              && o.reply == Reply(Ok, LoanDeleted, None)
              && o.after.loans.rows == db.loans.rows - {loanId}
              && (loan.returnDate.None? ==> CopiesChangedBy(db.books, o.after.books, loan.bookId, 1))
              && (loan.returnDate.Some? ==> o.after.books == db.books)
  {
    match GetLoanById(db.loans, loanId)
    case None =>
      Outcome(Reply(NotFound, LoanNotFound, None), db)
    case Some(row) =>
      var books := if row.loan.returnDate.None? then UpdateCopiesWhenReturned(db.books, row.loan.bookId) else db.books;
      Outcome(Reply(Ok, LoanDeleted, None), Db(books, DeleteLoanById(db.loans, loanId)))
  }

  /** After a successful create, reading the new id yields the new loan,
      outstanding and with no due date or fine. */
  lemma GetLoanAfterCreate(db: Db, bookId: BookId, memberId: MemberId, loanDate: Date)
    requires DbWellFormed(db)
    requires Available(db, bookId)
    ensures var o := CreateLoan(db, bookId, memberId, loanDate);
            && o.reply.loanId.Some?
            && GetLoan(o.after, o.reply.loanId.value)
               == Some(LoanRow(o.reply.loanId.value, Loan(bookId, memberId, loanDate, None, None, None)))
  {
  }

  /** After an accepted update, reading the loan shows the recorded return
      date and a NULL fine; a refused update leaves the loan as it was. */
  lemma GetLoanAfterUpdate(db: Db, loanId: LoanId, returnDate: Option<Date>)
    requires loanId in db.loans.rows
    ensures var r := GetLoan(UpdateLoan(db, loanId, returnDate).after, loanId);
            && r.Some?
            && (AcceptedReturn(db.loans.rows[loanId], returnDate) ==>
                  r.value.loan == db.loans.rows[loanId].(actualReturnDate := returnDate, fine := None))
            && (!AcceptedReturn(db.loans.rows[loanId], returnDate) ==> r.value.loan == db.loans.rows[loanId])
  {
  }

  /** After a delete, the loan can no longer be read. */
  lemma GetLoanAfterDelete(db: Db, loanId: LoanId)
    ensures GetLoan(DeleteLoan(db, loanId).after, loanId) == None
  {
  }
}
