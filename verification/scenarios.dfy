/** Concrete request sequences on a library holding one copy of one book. */
module Scenarios {
  import opened Wrappers
  import opened Dates
  import opened Schema
  import opened LoanDao
  import opened LoanService

  const Shelf := Book("Dune", "Herbert", "1965-08-01", "9780441013593", 412, "dune.jpg", "en", 1)

  /** Book 1 with one copy on the shelf, and no loans yet. */
  const OneCopy := Db(map[1 := Shelf], LoanTable(map[], 0))

  /** The last copy can be lent once; the second request is refused; a
      return on the loan date itself is refused; a later return puts the
      copy back on the shelf. */
  lemma LastCopyLifecycle()
    ensures var c1 := CreateLoan(OneCopy, 1, 7, Date(2024, 8, 1));
            && c1.reply == Reply(Created, LoanCreated, Some(1))
            && c1.after.books[1].availableCopies == 0
            && var c2 := CreateLoan(c1.after, 1, 8, Date(2024, 8, 2));
               && c2 == Outcome(Reply(BadRequest, BookNotAvailable, None), c1.after)
               && var u1 := UpdateLoan(c1.after, 1, Some(Date(2024, 8, 1)));
                  && u1 == Outcome(Reply(BadRequest, DateNotAfterLoan, None), c1.after)
                  && var u2 := UpdateLoan(c1.after, 1, Some(Date(2024, 8, 20)));
                     && u2.reply.code == Ok
                     && u2.after.books[1].availableCopies == 1
                     && u2.after.loans.rows[1].actualReturnDate == Some(Date(2024, 8, 20))
  {
  }

  /** Lend, return, delete: the delete as written credits the shelf a second
      copy it never had; the corrected delete leaves the single copy. */
  lemma DeleteAfterReturnScenario()
    ensures var c := CreateLoan(OneCopy, 1, 7, Date(2024, 8, 1));
            var u := UpdateLoan(c.after, 1, Some(Date(2024, 8, 20)));
            && u.after.books[1].availableCopies == 1
            && DeleteLoanAsWritten(u.after, 1).after.books[1].availableCopies == 2
            && DeleteLoan(u.after, 1).after.books[1].availableCopies == 1
  {
  }
}
