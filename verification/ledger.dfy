/** Inventory accounting over the loan lifecycle. The stock of a book is
    its available count plus the loans on it that are still outstanding:
    lending moves a copy from the shelf to a loan, and giving it back moves
    it home again, so the stock changes only when the lifecycle credits a
    copy that was never lent. */
module Ledger {
  import opened Wrappers
  import opened Dates
  import opened Schema
  import opened LoanService

  /** `l` holds a copy of book `b`. */
  predicate HoldsCopy(l: Loan, b: BookId)
  {
    l.bookId == b && l.Outstanding()
  }

  /** The ids of the outstanding loans on book `b`. */
  function OutstandingLoans(rows: map<LoanId, Loan>, b: BookId): set<LoanId>
  {
    set id | id in rows && HoldsCopy(rows[id], b)
  }

  /** Copies of book `b` on the shelf plus copies out on loan. */
  function Stock(db: Db, b: BookId): int
    requires b in db.books
  {
    db.books[b].availableCopies + |OutstandingLoans(db.loans.rows, b)|
  }

  /** Removing a row drops it from the outstanding set if it was there. */
  lemma OutstandingAfterRemove(rows: map<LoanId, Loan>, id: LoanId, b: BookId)
    ensures |OutstandingLoans(rows - {id}, b)|
            == |OutstandingLoans(rows, b)| - (if id in rows && HoldsCopy(rows[id], b) then 1 else 0)
  {
    var s := OutstandingLoans(rows, b);
    var s' := OutstandingLoans(rows - {id}, b);
    if id in rows && HoldsCopy(rows[id], b) {
      assert s == s' + {id};
      assert id !in s';
    } else {
      assert s == s';
    }
  }

  /** Storing a row under `id` replaces whatever the old row contributed by
      what the new one does. */
  lemma OutstandingAfterStore(rows: map<LoanId, Loan>, id: LoanId, l: Loan, b: BookId)
    ensures |OutstandingLoans(rows[id := l], b)|
            == |OutstandingLoans(rows, b)|
               - (if id in rows && HoldsCopy(rows[id], b) then 1 else 0)
               + (if HoldsCopy(l, b) then 1 else 0)
  {
    OutstandingAfterRemove(rows, id, b);
    var s := OutstandingLoans(rows - {id}, b);
    var s' := OutstandingLoans(rows[id := l], b);
    assert id !in s;
    if HoldsCopy(l, b) {
      assert s' == s + {id};
    } else {
      assert s' == s;
    }
  }

  /** Lending a copy keeps every book's stock. */
  lemma CreateLoanConservesStock(db: Db, bookId: BookId, memberId: MemberId, loanDate: Date, b: BookId)
    requires DbWellFormed(db)
    requires b in db.books
    ensures b in CreateLoan(db, bookId, memberId, loanDate).after.books
    ensures Stock(CreateLoan(db, bookId, memberId, loanDate).after, b) == Stock(db, b)
  {
    var o := CreateLoan(db, bookId, memberId, loanDate);
    if Available(db, bookId) {
      var id := o.reply.loanId.value;
      OutstandingAfterStore(db.loans.rows, id, Loan(bookId, memberId, loanDate, None, None, None), b);
    }
  }

  /** Updating a loan that is still outstanding keeps every book's stock:
      a valid return moves the copy back to the shelf, and a request
      without a date leaves both shelf and loan as they were. */
  lemma UpdateLoanConservesStock(db: Db, loanId: LoanId, returnDate: Option<Date>, b: BookId)
    requires b in db.books
    requires loanId in db.loans.rows ==> db.loans.rows[loanId].Outstanding()
    ensures b in UpdateLoan(db, loanId, returnDate).after.books
    ensures Stock(UpdateLoan(db, loanId, returnDate).after, b) == Stock(db, b)
  {
    var o := UpdateLoan(db, loanId, returnDate);
    if loanId in db.loans.rows && AcceptedReturn(db.loans.rows[loanId], returnDate) {
      var loan := db.loans.rows[loanId];
      OutstandingAfterStore(db.loans.rows, loanId, loan.(actualReturnDate := returnDate, fine := None), b);
    }
  }

  /** There is no already-returned guard: any accepted update of a returned
      loan credits its book one copy that was never lent. With a date the
      shelf count goes up again; without one the loan reopens. */
  lemma UpdateOfReturnedLoanAddsStock(db: Db, loanId: LoanId, returnDate: Option<Date>)
    requires loanId in db.loans.rows
    requires !db.loans.rows[loanId].Outstanding()
    requires AcceptedReturn(db.loans.rows[loanId], returnDate)
    requires db.loans.rows[loanId].bookId in db.books
    ensures UpdateLoan(db, loanId, returnDate).reply.code == Ok
    ensures var b := db.loans.rows[loanId].bookId;
            b in UpdateLoan(db, loanId, returnDate).after.books
            && Stock(UpdateLoan(db, loanId, returnDate).after, b) == Stock(db, b) + 1
  {
    var loan := db.loans.rows[loanId];
    OutstandingAfterStore(db.loans.rows, loanId, loan.(actualReturnDate := returnDate, fine := None), loan.bookId);
  }

  /** Deleting a loan keeps every book's stock: an outstanding loan's copy
      goes back to the shelf, a returned loan's copy is there already. */
  lemma DeleteLoanConservesStock(db: Db, loanId: LoanId, b: BookId)
    requires b in db.books
    ensures b in DeleteLoan(db, loanId).after.books
    ensures Stock(DeleteLoan(db, loanId).after, b) == Stock(db, b)
  {
    OutstandingAfterRemove(db.loans.rows, loanId, b);
  }

  /** The delete as written credits a copy for a returned loan whose due
      date was never stored, which is every loan the service creates. */
  lemma DeleteAsWrittenOverCredits(db: Db, loanId: LoanId)
    requires loanId in db.loans.rows
    requires !db.loans.rows[loanId].Outstanding()
    requires db.loans.rows[loanId].returnDate.None?
    requires db.loans.rows[loanId].bookId in db.books
    ensures var b := db.loans.rows[loanId].bookId;
            b in DeleteLoanAsWritten(db, loanId).after.books
            && Stock(DeleteLoanAsWritten(db, loanId).after, b) == Stock(db, b) + 1
  {
    OutstandingAfterRemove(db.loans.rows, loanId, db.loans.rows[loanId].bookId);
  }

  /** One request to the loan service. */
  datatype Op =
    | Create(bookId: BookId, memberId: MemberId, loanDate: Date)
    | Update(loanId: LoanId, returnDate: Option<Date>)
    | Delete(loanId: LoanId)

  function Step(db: Db, op: Op): (r: Db)
    requires DbWellFormed(db)
    ensures DbWellFormed(r)
    ensures r.books.Keys == db.books.Keys
  {
    match op
    case Create(b, m, d) => CreateLoan(db, b, m, d).after
    case Update(id, d) => UpdateLoan(db, id, d).after
    case Delete(id) => DeleteLoan(db, id).after
  }

  /** The state after serving `ops` in order. */
  function Run(db: Db, ops: seq<Op>): (r: Db)
    requires DbWellFormed(db)
    ensures DbWellFormed(r)
    ensures r.books.Keys == db.books.Keys
    decreases |ops|
  {
    if ops == [] then db else Run(Step(db, ops[0]), ops[1..])
  }

  /** Counts that start non-negative stay so under every run of the loan
      service: the only decrement waits for a positive count. */
  lemma {:induction false} RunKeepsCountsNonNegative(db: Db, ops: seq<Op>)
    requires DbWellFormed(db)
    requires NonNegative(db.books)
    ensures NonNegative(Run(db, ops).books)
    decreases |ops|
  {
    if ops != [] {
      assert NonNegative(Step(db, ops[0]).books);
      RunKeepsCountsNonNegative(Step(db, ops[0]), ops[1..]);
    }
  }

  /** The request does not update a loan that was already returned. */
  predicate UpdatesOnlyOutstanding(db: Db, op: Op)
  {
    op.Update? && op.loanId in db.loans.rows ==> db.loans.rows[op.loanId].Outstanding()
  }

  /** Every update in the run finds its loan outstanding when it is served. */
  predicate Disciplined(db: Db, ops: seq<Op>)
    requires DbWellFormed(db)
    decreases |ops|
  {
    ops == [] || (UpdatesOnlyOutstanding(db, ops[0]) && Disciplined(Step(db, ops[0]), ops[1..]))
  }

  lemma StepConservesStock(db: Db, op: Op, b: BookId)
    requires DbWellFormed(db)
    requires UpdatesOnlyOutstanding(db, op)
    requires b in db.books
    ensures b in Step(db, op).books
    ensures Stock(Step(db, op), b) == Stock(db, b)
  {
    match op
    case Create(bk, m, d) => CreateLoanConservesStock(db, bk, m, d, b);
    case Update(id, d) => UpdateLoanConservesStock(db, id, d, b);
    case Delete(id) => DeleteLoanConservesStock(db, id, b);
  }

  /** In a run that never updates a returned loan, every book keeps its
      stock: its count is its starting stock less its outstanding loans. */
  lemma {:induction false} RunConservesStock(db: Db, ops: seq<Op>, b: BookId)
    requires DbWellFormed(db)
    requires Disciplined(db, ops)
    requires b in db.books
    ensures b in Run(db, ops).books
    ensures Stock(Run(db, ops), b) == Stock(db, b)
    decreases |ops|
  {
    if ops != [] {
      StepConservesStock(db, ops[0], b);
      RunConservesStock(Step(db, ops[0]), ops[1..], b);
    }
  }

  /** No loan has a stored due date. */
  predicate NoDueDates(db: Db)
  {
    forall id :: id in db.loans.rows ==> db.loans.rows[id].returnDate.None?
  }

  /** The service never writes `return_date`, so from an empty Loan table
      (or any without due dates) every row keeps it NULL, and the delete as
      written treats every loan as outstanding. */
  lemma {:induction false} RunNeverStoresDueDate(db: Db, ops: seq<Op>)
    requires DbWellFormed(db)
    requires NoDueDates(db)
    ensures NoDueDates(Run(db, ops))
    decreases |ops|
  {
    if ops != [] {
      assert NoDueDates(Step(db, ops[0]));
      RunNeverStoresDueDate(Step(db, ops[0]), ops[1..]);
    }
  }

  /** Deleting the loan just created gives the copy back and leaves both
      tables as they were (only the id sequence has moved on). */
  lemma CreateThenDeleteRestores(db: Db, bookId: BookId, memberId: MemberId, loanDate: Date)
    requires DbWellFormed(db)
    requires Available(db, bookId)
    ensures var c := CreateLoan(db, bookId, memberId, loanDate);
            c.reply.loanId.Some?
            && var d := DeleteLoan(c.after, c.reply.loanId.value);
               && d.reply.code == Ok
               && d.after.books == db.books
               && d.after.loans.rows == db.loans.rows
  {
  }

  /** Two accepted returns of the same loan credit its book twice. */
  lemma ReturnTwiceCreditsTwice(db: Db, loanId: LoanId, first: Date, second: Date)
    requires loanId in db.loans.rows
    requires db.loans.rows[loanId].bookId in db.books
    requires Before(db.loans.rows[loanId].loanDate, first)
    requires Before(db.loans.rows[loanId].loanDate, second)
    ensures var b := db.loans.rows[loanId].bookId;
            var o1 := UpdateLoan(db, loanId, Some(first));
            var o2 := UpdateLoan(o1.after, loanId, Some(second));
            && o1.reply.code == Ok && o2.reply.code == Ok
            && o2.after.books[b].availableCopies == db.books[b].availableCopies + 2
  {
  }
}
