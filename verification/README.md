# Loan lifecycle of the library-management service

This project models the loan lifecycle of a small library REST service.
Each book row carries a count of available copies. Lending a book checks
that count and takes one copy. Returning a loan, or deleting a loan that
is still outstanding, gives the copy back.

The database is an abstract state of two tables:

- `books: map<BookId, Book>`, the Books table.
- A `LoanTable`: `map<LoanId, Loan>` plus the last id handed out.

Every SQL statement the loan lifecycle uses is modelled on these maps:
the listing of all loans is a method with a loop, and every other
statement is a pure function. Every service method is one atomic transition. It returns the
HTTP status, the message and the new state. Dates arrive already parsed,
as `(year, month, day)` triples ordered lexicographically.

Modules:

- `Wrappers`: `Option` (`None` is SQL NULL).
- `Dates`: dates and their order.
- `Schema`: the `Book` and `Loan` rows.
- `BookDao`, `LoanDao`: the statements on the two tables.
- `LoanService`: the service transitions.
- `Ledger`: stock accounting, and runs of many requests.
- `Scenarios`: concrete request sequences.

## Wiring choices

The service code calls the data-access layer in ways that do not line up.
The model follows the evident intent, and each choice is stated here.

- `create_loan` calls `update_available_copies`, which the Books queries
  do not define. The comment above the call says "reduce by 1", so the
  model uses the decrement-by-one statement `update_available_copies_when_loaned`.
- The loan insert has four placeholders, but `create_loan` supplies three
  values. The missing one is `return_date`, the due date. The model
  inserts it as NULL. No due-date rule appears in the code.
- The loan update has three placeholders, but `update_loan` supplies two.
  The missing one is `fine`. The model writes NULL. No fine is computed anywhere.
- `delete_loan` tests `return_date`, the due-date column, to decide
  whether the loan is still outstanding. The comment and the update
  statement both record a return in `actual_return_date`. `DeleteLoan`
  tests `actual_return_date`. The code as written is kept as
  `DeleteLoanAsWritten` (see Findings).
- A request's return date is an `Option<Date>`. `None` stands for a
  missing key, `null` and the empty string. The validation and inventory
  paths treat these alike. The write does not (see `LoanService.UpdateLoan`
  under Left out).

As written, `create_loan` raises an AttributeError at line 20 on every
available book, so no loan is ever created; its 400 reply is unaffected.
`update_loan` raises a binding-count error at line 72 on every update that
passes the date check, so no accepted update is committed; its 404 and 400
replies are unaffected. `delete_loan` runs as written. The model describes
the behaviour under the choices above.

The table schema is not part of this model. Three assumptions stand in for it:

- New loan ids follow SQLite's AUTOINCREMENT rule: ids start at 1, and a
  new id is one more than the largest id ever handed out.
- `actual_return_date` and `fine`, which the loan insert does not name,
  default to NULL.
- `SELECT * FROM Loan` has no ORDER BY, so SQL promises no order. The
  model lists rows in ascending id order, the order SQLite scans a table
  keyed by its rowid.

The code computes no due date and no fine. It has no already-returned
rejection. It rejects a return date equal to the loan date, and it
accepts a second return of the same loan.

## Model

| member | source | states |
|---|---|---|
| BookDao.GetBookById | dao/book_dao_queries.py:7-8 | yields the row with that id exactly when one is stored |
| BookDao.UpdateBookById | dao/book_dao_queries.py:16-18 | the matching row takes the supplied values, `available_copies` included; no other row changes; a missing id changes nothing |
| BookDao.DeleteBookById | dao/book_dao_queries.py:21-22 | exactly that book is removed; every other row is kept as it was |
| BookDao.GetAvailableCopies | dao/book_dao_queries.py:25-26 | yields the count of the book with that id, or nothing when no such book exists |
| BookDao.UpdateCopiesWhenLoaned | dao/book_dao_queries.py:29-30 | the matching book's count drops by exactly 1, with no lower bound; every other column and row is unchanged |
| BookDao.LoanedKeepsNonNegativeIff | dao/book_dao_queries.py:29-30 | from non-negative counts, the decrement keeps them non-negative if and only if the book is absent or had a copy left |
| BookDao.UpdateCopiesWhenReturned | dao/book_dao_queries.py:33-34 | the matching book's count rises by exactly 1; every other column and row is unchanged; non-negativity is kept |
| BookDao.LoanedReturnedRoundTrip | dao/book_dao_queries.py:29-34 | decrement then increment of the same id restores the table, and so does the reverse order |
| BookDao.GetBookAfterWrites | dao/book_dao_queries.py:7-22 | reading a book after an update yields the supplied row (or nothing for a missing id); after a delete yields nothing; other ids read as before |
| BookDao.GetCopiesAfterUpdates | dao/book_dao_queries.py:25-34 | the count read after a loan is one less and after a return one more; a missing id reads nothing; other ids read as before |
| LoanDao.InsertNewLoan | dao/loan_dao_queries.py:3-4 | adds one row under a fresh id, carrying the supplied book, member, loan date and due date, with return date and fine NULL; existing rows are unchanged |
| LoanDao.GetAllLoans | dao/loan_dao_queries.py:7-8 | lists every stored row once, with its contents, in ascending id order, and nothing else |
| LoanDao.GetLoanById | dao/loan_dao_queries.py:11-12 | yields the row with that id exactly when one is stored |
| LoanDao.UpdateLoanById | dao/loan_dao_queries.py:15-16 | sets only `actual_return_date` and `fine` of the matching row; its book, member, loan date and due date and every other row stay as they were |
| LoanDao.DeleteLoanById | dao/loan_dao_queries.py:20-21 | exactly that loan is removed and no other |
| LoanDao.GetLoanAfterWrites | dao/loan_dao_queries.py:3-21 | reading after an insert yields the new row under its id; after an update shows the new return date and fine; after a delete yields nothing; other ids read as before |
| LoanService.CreateLoan | services/loan_service.py:10-31 | missing book or count <= 0: 400 "Book not available" and nothing changes; otherwise 201 with a fresh id, exactly one new loan with the given book, member and date, that book's count down by exactly 1, other books unchanged; counts never go negative |
| LoanService.GetLoans | services/loan_service.py:34-40 | returns every stored loan once and nothing else |
| LoanService.GetLoan | services/loan_service.py:43-49 | returns the loan with that id, or nothing when none exists |
| LoanService.UpdateLoan | services/loan_service.py:52-78 | unknown id: 404 and nothing changes; a return date at or before the loan date (equal included): 400 and nothing changes; a later date: 200, the loan's book count up by exactly 1 and the date recorded; no date: 200, inventory untouched, the return date overwritten with NULL |
| LoanService.DeleteLoan | services/loan_service.py:81-98 | unknown id: 404 and nothing changes; otherwise 200 and only that loan removed, with its book count up by exactly 1 if it was outstanding and inventory untouched if it was returned |
| LoanService.DeleteLoanAsWritten | services/loan_service.py:88-90 | the delete as written credits a copy whenever the due-date column is NULL, whether or not the loan was returned |
| LoanService.GetLoanAfterCreate | services/loan_service.py:18-28 | after a successful create, reading the returned id yields the new outstanding loan with the given book, member and date |
| LoanService.GetLoanAfterUpdate | services/loan_service.py:52-75 | after an accepted update, reading the loan shows the recorded return date and a NULL fine; after a refused one, the loan as it was |
| LoanService.GetLoanAfterDelete | services/loan_service.py:81-95 | after a delete, reading the loan yields nothing |
| Ledger.CreateLoanConservesStock | services/loan_service.py:18-24 | lending keeps every book's stock (available count plus outstanding loans) |
| Ledger.UpdateLoanConservesStock | services/loan_service.py:58-72 | updating an outstanding loan keeps every book's stock |
| Ledger.UpdateOfReturnedLoanAddsStock | services/loan_service.py:58-75 | with no already-returned guard, an accepted update of a returned loan succeeds and raises its book's stock by 1 |
| Ledger.ReturnTwiceCreditsTwice | services/loan_service.py:60-72 | two valid returns of the same loan both succeed and raise the count by 2 |
| Ledger.DeleteLoanConservesStock | services/loan_service.py:87-92 | deleting any loan keeps every book's stock |
| Ledger.DeleteAsWrittenOverCredits | services/loan_service.py:88-90 | the delete as written raises the stock of a returned loan's book by 1 |
| Ledger.CreateThenDeleteRestores | services/loan_service.py:18-24 | lending a copy and then deleting that outstanding loan restores both tables |
| Ledger.RunKeepsCountsNonNegative | services/loan_service.py:18-20 | from non-negative counts, every sequence of create, update and delete requests keeps them non-negative |
| Ledger.RunConservesStock | services/loan_service.py:10-98 | a request sequence that never updates a returned loan keeps every book's stock |
| Ledger.RunNeverStoresDueDate | services/loan_service.py:23-24 | no request ever writes a due date, so a table without due dates keeps none |
| Scenarios.LastCopyLifecycle | services/loan_service.py:18-75 | the last copy is lent once, a second request gets 400, a return on the loan date gets 400, a later return puts the copy back |
| Scenarios.DeleteAfterReturnScenario | services/loan_service.py:60-92 | lend, return, delete: the delete as written leaves 2 copies of a one-copy book, the corrected one leaves 1 |
| Dates.BeforeIsStrictTotalOrder | services/loan_service.py:64 | the date order is a strict total order; not strictly after the loan date means at or before it |

## Left out

- HTTP routing, JSON and JWT are not modelled. The ADMIN role gate on create, update and delete (controllers/loan_controller.py:17-18, 46-47, 59-60) lives in the controllers, which are not part of this model.
- Password hashing, token issuance, the book and member CRUD services and their link building are not modelled. They hold no loan rule. `update_book` can set any count, so non-negativity is proved only over loan-service requests.
- Connections, commits and concurrent callers are not modelled. Each service call is one atomic transition, so the check-then-decrement race between two callers cannot be expressed.
- Parsing dates with `strptime` is not modelled, and neither is the exception a malformed string raises. Dates arrive already parsed.
- `get_all_books` and `insert_new_book` are not modelled. The loan lifecycle does not use them.
- A NULL `available_copies` is not modelled. Counts are integers, and the column is assumed NOT NULL.
- Integer width is not modelled. SQLite integers are 64-bit, and the model's counts are unbounded.
- Fines and due dates are not modelled. The code computes neither.
- LoanService.UpdateLoan: a falsy return date that is not null (`""`, `0`, `false`) is stored in `actual_return_date` as given (services/loan_service.py:72), while the model stores NULL. This does not change the outstanding test of `delete_loan`, since `not ''` holds as `not None` does.

## Findings

| source | as written | input that shows it | evidently intended | confidence | as-written member | corrected member |
|---|---|---|---|---|---|---|
| services/loan_service.py:89 | a loan counts as outstanding when `return_date` (the due date, never written) is empty | with the wiring choices above, one copy of a book: create a loan, update it with a later return date (count back to 1), then delete it, and the count becomes 2 | test `actual_return_date`, as the comment at line 88 says, so a returned loan gives nothing back | high; not executed | LoanService.DeleteLoanAsWritten, Ledger.DeleteAsWrittenOverCredits, Scenarios.DeleteAfterReturnScenario | LoanService.DeleteLoan, Ledger.DeleteLoanConservesStock |
