/** The persisted record (schema.go) and its validity rule. */
module Schema {

  /** MongoDB's 12-byte object id, as a number; 0 stands for "not yet
      assigned" (the field is omitempty). */
  type ObjectId = nat

  /** One expense or credit-card transaction. Go's float64 amounts are
      exact reals here. */
  datatype Expense = Expense(
    id: ObjectId,
    month: int,
    day: int,
    year: int,
    description: string,
    debit: real,
    credit: real,
    total: real,
    valid: bool)

  /** Go's zero value Expense{}. */
  const ZeroExpense: Expense := Expense(0, 0, 0, 0, "", 0.0, 0.0, 0.0, false)

  /** Field indices; the first six are also the column numbers (cursor x)
      of every table. */
  const ExpenseYear: nat := 0
  const ExpenseMonth: nat := 1
  const ExpenseDay: nat := 2
  const ExpenseDescription: nat := 3
  const ExpenseDebit: nat := 4
  const ExpenseCredit: nat := 5
  const ExpenseTotal: nat := 6
  const ExpenseValid: nat := 7
  const NumExpenseFields: nat := 8

  /** Column order of an imported bank statement. */
  const CsvDateCol: nat := 0
  const CsvDescriptionCol: nat := 1
  const CsvDebitCol: nat := 2
  const CsvCreditCol: nat := 3
  const CsvTotalCol: nat := 4

  /** A record may be persisted when its date and description are filled in
      and it moves some money. */
  predicate Eligible(e: Expense)
  {
    e.month != 0 && e.day != 0 && e.year != 0 && e.description != ""
    && (e.debit != 0.0 || e.credit != 0.0)
  }

  /** check_if_entry_is_valid: sets the valid flag of an eligible record
      and otherwise returns early, leaving the flag as it was. The Go
      function updates the record through a pointer; here it returns the
      updated record. */
  function CheckIfEntryIsValid(e: Expense): (r: Expense)
    ensures r.valid <==> e.valid || Eligible(e)
    ensures r == e.(valid := r.valid)
  {
    if e.month == 0 then e
    else if e.day == 0 then e
    else if e.year == 0 then e
    else if e.description == "" then e
    else if e.debit == 0.0 && e.credit == 0.0 then e
    else e.(valid := true)
  }

  /** The flag is never cleared: a record already marked valid stays valid. */
  lemma CheckNeverClears(e: Expense)
    requires e.valid
    ensures CheckIfEntryIsValid(e) == e
  {
  }

  /** Checking twice is the same as checking once. */
  lemma CheckIdempotent(e: Expense)
    ensures CheckIfEntryIsValid(CheckIfEntryIsValid(e)) == CheckIfEntryIsValid(e)
  {
  }

  /** For a record whose date and description are filled in, the flag is
      set exactly when debit or credit is non-zero. */
  lemma CheckAmounts(e: Expense)
    requires !e.valid
    requires e.month != 0 && e.day != 0 && e.year != 0 && e.description != ""
    ensures CheckIfEntryIsValid(e).valid <==> e.debit != 0.0 || e.credit != 0.0
  {
  }
}
