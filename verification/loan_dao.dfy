/** The statements on the Loan table. The table is a map from id to row
    plus the largest id ever handed out, which is how SQLite allocates
    the id an INSERT reports as `lastrowid` for an AUTOINCREMENT key. */
module LoanDao {
  import opened Wrappers
  import opened Dates
  import opened Schema

  datatype LoanTable = LoanTable(rows: map<LoanId, Loan>, lastId: LoanId)

  /** Ids are handed out from 1 upwards and every stored id was handed
      out already, so `lastId + 1` is fresh. */
  predicate WellFormed(t: LoanTable)
  {
    && t.lastId >= 0
    && forall id :: id in t.rows ==> 1 <= id <= t.lastId
  }

  /** The result of an INSERT: the id it was given and the new table. */
  datatype Inserted = Inserted(id: LoanId, table: LoanTable)

  /** `INSERT INTO Loan (book_id, member_id, loan_date, return_date)
      VALUES (?, ?, ?, ?)`: one new row under a fresh id; `actual_return_date`
      and `fine` start out NULL. */
  function InsertNewLoan(t: LoanTable, bookId: BookId, memberId: MemberId,
                         loanDate: Date, returnDate: Option<Date>): (r: Inserted)
    requires WellFormed(t)
    ensures WellFormed(r.table)
    ensures r.id !in t.rows
    ensures r.table.rows.Keys == t.rows.Keys + {r.id}
    ensures r.table.rows[r.id] == Loan(bookId, memberId, loanDate, returnDate, None, None)
    ensures forall k :: k in t.rows ==> r.table.rows[k] == t.rows[k]
  {
    var id := t.lastId + 1;
    Inserted(id, LoanTable(t.rows[id := Loan(bookId, memberId, loanDate, returnDate, None, None)], id))
  }

  /** `SELECT * FROM Loan WHERE id = ?` */
  function GetLoanById(t: LoanTable, id: LoanId): (r: Option<LoanRow>)
    ensures r.Some? <==> id in t.rows
    ensures r.Some? ==> r.value == LoanRow(id, t.rows[id])
  {
    if id in t.rows then Some(LoanRow(id, t.rows[id])) else None
  }

  /** `UPDATE Loan SET actual_return_date = ?, fine = ? WHERE id = ?`:
      only those two columns of the matching row change. */
  function UpdateLoanById(t: LoanTable, id: LoanId,
                          actualReturnDate: Option<Date>, fine: Option<int>): (r: LoanTable)
    ensures r.lastId == t.lastId
    ensures r.rows.Keys == t.rows.Keys
    ensures id in t.rows ==>
              && r.rows[id].actualReturnDate == actualReturnDate
              && r.rows[id].fine == fine
              && r.rows[id].bookId == t.rows[id].bookId
              && r.rows[id].memberId == t.rows[id].memberId
              && r.rows[id].loanDate == t.rows[id].loanDate
              && r.rows[id].returnDate == t.rows[id].returnDate
    ensures forall k :: k in t.rows && k != id ==> r.rows[k] == t.rows[k]
    ensures WellFormed(t) ==> WellFormed(r)
  {
    if id in t.rows
    then t.(rows := t.rows[id := t.rows[id].(actualReturnDate := actualReturnDate, fine := fine)])
    else t
  }

  /** `DELETE FROM Loan WHERE id = ?` */
  function DeleteLoanById(t: LoanTable, id: LoanId): (r: LoanTable)
    ensures r.lastId == t.lastId
    ensures r.rows.Keys == t.rows.Keys - {id}
    ensures forall k :: k in r.rows ==> r.rows[k] == t.rows[k]
    ensures WellFormed(t) ==> WellFormed(r)
  {
    t.(rows := t.rows - {id})
  }

  /** Reading a loan back after a write: an insert is seen under its new
      id, an update shows the new return date and fine, a delete makes the
      id absent, and other ids read as before. */
  lemma GetLoanAfterWrites(t: LoanTable, bookId: BookId, memberId: MemberId, loanDate: Date,
                           returnDate: Option<Date>, id: LoanId, actual: Option<Date>,
                           fine: Option<int>, other: LoanId)
    requires WellFormed(t)
    ensures var ins := InsertNewLoan(t, bookId, memberId, loanDate, returnDate);
            && GetLoanById(ins.table, ins.id)
               == Some(LoanRow(ins.id, Loan(bookId, memberId, loanDate, returnDate, None, None)))
            && (other != ins.id ==> GetLoanById(ins.table, other) == GetLoanById(t, other))
    ensures id in t.rows ==>
              && GetLoanById(UpdateLoanById(t, id, actual, fine), id).Some?
              && GetLoanById(UpdateLoanById(t, id, actual, fine), id).value.loan.actualReturnDate == actual
              && GetLoanById(UpdateLoanById(t, id, actual, fine), id).value.loan.fine == fine
    ensures id !in t.rows ==> GetLoanById(UpdateLoanById(t, id, actual, fine), id) == None
    ensures GetLoanById(DeleteLoanById(t, id), id) == None
    ensures other != id ==>
              && GetLoanById(UpdateLoanById(t, id, actual, fine), other) == GetLoanById(t, other)
              && GetLoanById(DeleteLoanById(t, id), other) == GetLoanById(t, other)
  {
  }

  /** The ids a listing mentions. */
  function IdsOf(rows: seq<LoanRow>): set<LoanId>
  {
    set i | 0 <= i < |rows| :: rows[i].id
  }

  /** Appending a row adds exactly its id. */
  lemma IdsOfSnoc(rows: seq<LoanRow>, r: LoanRow)
    ensures IdsOf(rows + [r]) == IdsOf(rows) + {r.id}
  {
    var next := rows + [r];
    assert next[|rows|].id == r.id;
    forall x | x in IdsOf(next) ensures x in IdsOf(rows) + {r.id} {
      var i :| 0 <= i < |next| && next[i].id == x;
      if i < |rows| { assert rows[i].id == x; }
    }
    forall x | x in IdsOf(rows) ensures x in IdsOf(next) {
      var i :| 0 <= i < |rows| && rows[i].id == x;
      assert next[i].id == x;
    }
  }

  /** `rows` lists the table: every stored row once, in ascending id
      order, and nothing else. */
  predicate ListsExactly(rows: seq<LoanRow>, t: LoanTable)
  {
    && IdsOf(rows) == t.rows.Keys
    && (forall i :: 0 <= i < |rows| ==> rows[i].id in t.rows && t.rows[rows[i].id] == rows[i].loan)
    && (forall i, j :: 0 <= i < j < |rows| ==> rows[i].id < rows[j].id)
  }

  /** `SELECT * FROM Loan`: a scan of the table in id order, which is the
      order SQLite visits the rows of a table keyed by its rowid. */
  method GetAllLoans(t: LoanTable) returns (rows: seq<LoanRow>)
    requires WellFormed(t)
    ensures ListsExactly(rows, t)
  {
    rows := [];
    var next := 1;
    while next <= t.lastId
      invariant 1 <= next <= t.lastId + 1
      invariant IdsOf(rows) == set k | k in t.rows && k < next
      invariant forall i :: 0 <= i < |rows| ==> rows[i].id in t.rows && t.rows[rows[i].id] == rows[i].loan
      invariant forall i :: 0 <= i < |rows| ==> rows[i].id < next
      invariant forall i, j :: 0 <= i < j < |rows| ==> rows[i].id < rows[j].id
    {
      if next in t.rows {
        IdsOfSnoc(rows, LoanRow(next, t.rows[next]));
        rows := rows + [LoanRow(next, t.rows[next])];
      }
      next := next + 1;
    }
  }
}
