/** The text rows that the insert and edit tables show, and the rules that
    turn one row of six text cells into a typed Expense attempt with a
    status per cell. Shared by insert_manual_entry.go (insert rules),
    found_entries_model.go and update_entries_model.go (edit rules). */
module Cells {
  import opened Codec
  import opened Schema
  import opened Constants

  /** expensePlaceholder: the text of one table row. */
  datatype Placeholder = Placeholder(
    month: string,
    day: string,
    year: string,
    description: string,
    debit: string,
    credit: string)

  const EmptyRow: Placeholder := Placeholder("", "", "", "", "", "")

  /** The status a validation pass records for a cell (inactive_style = 0,
      error_style = 1, selected_style = 2). */
  datatype Status = Inactive | Error | Selected

  /** The cell in column col (Schema's field indices 0..5). */
  function Cell(p: Placeholder, col: nat): string
    requires col <= ExpenseCredit
  {
    if col == ExpenseYear then p.year
    else if col == ExpenseMonth then p.month
    else if col == ExpenseDay then p.day
    else if col == ExpenseDescription then p.description
    else if col == ExpenseDebit then p.debit
    else p.credit
  }

  /** Replace the text of one cell. */
  function SetCell(p: Placeholder, col: nat, t: string): (r: Placeholder)
    requires col <= ExpenseCredit
    ensures Cell(r, col) == t
    ensures forall c :: 0 <= c <= ExpenseCredit && c != col ==> Cell(r, c) == Cell(p, c)
  {
    if col == ExpenseYear then p.(year := t)
    else if col == ExpenseMonth then p.(month := t)
    else if col == ExpenseDay then p.(day := t)
    else if col == ExpenseDescription then p.(description := t)
    else if col == ExpenseDebit then p.(debit := t)
    else p.(credit := t)
  }

  /** Width limit of a cell: DateWidth for the date columns,
      DescriptionWidth for the description and DefaultWidth for amounts. */
  function Width(col: nat): nat
    requires col <= ExpenseCredit
  {
    if col <= ExpenseDay then DateWidth
    else if col == ExpenseDescription then DescriptionWidth
    else DefaultWidth
  }

  /** removeLastChar (insert_manual_entry.go): the text without its last
      character, or the empty text unchanged. */
  function RemoveLastChar(s: string): (r: string)
    ensures s == [] ==> r == []
    ensures s != [] ==> r + [s[|s| - 1]] == s
  {
    if |s| >= 1 then s[..|s| - 1] else s
  }

  /** Typing: the key text is appended to the cursor cell while that cell
      is shorter than its width; a cursor outside the six text columns
      changes nothing. */
  function TypeInto(p: Placeholder, col: int, t: string): (r: Placeholder)
    ensures 0 <= col <= ExpenseCredit && |Cell(p, col)| < Width(col) ==> Cell(r, col) == Cell(p, col) + t
    ensures 0 <= col <= ExpenseCredit && |Cell(p, col)| >= Width(col) ==> r == p
    ensures 0 <= col <= ExpenseCredit ==>
              forall c :: 0 <= c <= ExpenseCredit && c != col ==> Cell(r, c) == Cell(p, c)
    ensures !(0 <= col <= ExpenseCredit) ==> r == p
  {
    if 0 <= col <= ExpenseCredit && |Cell(p, col)| < Width(col) then SetCell(p, col, Cell(p, col) + t)
    else p
  }

  /** Backspace on the cursor cell. */
  function EraseFrom(p: Placeholder, col: int): (r: Placeholder)
    ensures 0 <= col <= ExpenseCredit ==> Cell(r, col) == RemoveLastChar(Cell(p, col))
    ensures 0 <= col <= ExpenseCredit ==>
              forall c :: 0 <= c <= ExpenseCredit && c != col ==> Cell(r, c) == Cell(p, c)
    ensures !(0 <= col <= ExpenseCredit) ==> r == p
  {
    if 0 <= col <= ExpenseCredit then SetCell(p, col, RemoveLastChar(Cell(p, col))) else p
  }

  /** Backspace on a blank cell, or off the six text columns, leaves the
      row as it was. */
  lemma EraseBlankCell(p: Placeholder, col: int)
    requires !(0 <= col <= ExpenseCredit) || Cell(p, col) == ""
    ensures EraseFrom(p, col) == p
  {
  }

  /** A key of one character never takes a cell past its width: the
      width check in front of each append is what bounds every cell. */
  lemma TypeIntoKeepsWidth(p: Placeholder, col: nat, t: string)
    requires col <= ExpenseCredit && |t| <= 1
    requires |Cell(p, col)| <= Width(col)
    ensures |Cell(TypeInto(p, col, t), col)| <= Width(col)
  {
  }

  /** Erasing after typing a single character gives the cell back. */
  lemma {:induction false} EraseUndoesType(p: Placeholder, col: nat, c: char)
    requires col <= ExpenseCredit && |Cell(p, col)| < Width(col)
    ensures EraseFrom(TypeInto(p, col, [c]), col) == p
  {
    var q := TypeInto(p, col, [c]);
    assert RemoveLastChar(Cell(p, col) + [c]) == Cell(p, col);
    var r := EraseFrom(q, col);
    assert forall k :: 0 <= k <= ExpenseCredit ==> Cell(r, k) == Cell(p, k);
    assert Cell(r, 0) == p.year && Cell(r, 1) == p.month && Cell(r, 2) == p.day;
    assert Cell(r, 3) == p.description && Cell(r, 4) == p.debit && Cell(r, 5) == p.credit;
  }

  /** Every cell of the row is blank. */
  predicate IsBlank(p: Placeholder)
  {
    forall c :: 0 <= c <= ExpenseCredit ==> Cell(p, c) == ""
  }

  /** Some cell other than col holds text. */
  predicate OthersFilled(p: Placeholder, col: nat)
    requires col <= ExpenseCredit
  {
    exists c :: 0 <= c <= ExpenseCredit && c != col && Cell(p, c) != ""
  }

  lemma OthersFilledCases(p: Placeholder, col: nat)
    requires col <= ExpenseCredit
    ensures OthersFilled(p, col) <==>
              (col != ExpenseYear && p.year != "") || (col != ExpenseMonth && p.month != "")
              || (col != ExpenseDay && p.day != "") || (col != ExpenseDescription && p.description != "")
              || (col != ExpenseDebit && p.debit != "") || (col != ExpenseCredit && p.credit != "")
  {
    if col != ExpenseYear && p.year != "" { assert Cell(p, ExpenseYear) != ""; }
    if col != ExpenseMonth && p.month != "" { assert Cell(p, ExpenseMonth) != ""; }
    if col != ExpenseDay && p.day != "" { assert Cell(p, ExpenseDay) != ""; }
    if col != ExpenseDescription && p.description != "" { assert Cell(p, ExpenseDescription) != ""; }
    if col != ExpenseDebit && p.debit != "" { assert Cell(p, ExpenseDebit) != ""; }
    if col != ExpenseCredit && p.credit != "" { assert Cell(p, ExpenseCredit) != ""; }
  }

  /** The date or the description holds text. */
  predicate DateOrDescriptionFilled(p: Placeholder)
  {
    p.year != "" || p.month != "" || p.day != "" || p.description != ""
  }

  /** The parse rule of a non-blank cell: the year is any integer, the
      month an abbreviation or 1..12, the day 1..31, the description any
      text and the amounts decimal numbers. */
  predicate CellParses(p: Placeholder, col: nat)
    requires col <= ExpenseCredit
  {
    if col == ExpenseYear then Atoi(p.year).Some?
    else if col == ExpenseMonth then ParseMonth(p.month).Some?
    else if col == ExpenseDay then ParseDay(p.day).Some?
    else if col == ExpenseDescription then true
    else if col == ExpenseDebit then ParseAmount(p.debit).Some?
    else ParseAmount(p.credit).Some?
  }

  /** The status the edit screens (checkIfEditedEntriesValid) give a cell.
      A blank amount is an error only when the date or description is
      filled in and the other amount is blank as well: one amount
      suffices. */
  function EditStatus(p: Placeholder, col: nat): (r: Status)
    requires col <= ExpenseCredit
    ensures Cell(p, col) != "" ==> r != Inactive && (r == Error <==> !CellParses(p, col))
    ensures Cell(p, col) == "" ==> r != Selected
    ensures Cell(p, col) == "" && col < ExpenseDebit ==> (r == Error <==> OthersFilled(p, col))
    ensures Cell(p, col) == "" && col == ExpenseDebit ==>
              (r == Error <==> DateOrDescriptionFilled(p) && p.credit == "")
    ensures Cell(p, col) == "" && col == ExpenseCredit ==>
              (r == Error <==> DateOrDescriptionFilled(p) && p.debit == "")
  {
    OthersFilledCases(p, col);
    if col == ExpenseYear then
      if p.year != "" then (if Atoi(p.year).Some? then Selected else Error)
      else if p.month != "" || p.day != "" || p.description != "" || p.debit != "" || p.credit != "" then Error
      else Inactive
    else if col == ExpenseMonth then
      if p.month != "" then
        (if ParseMonthName(p.month).Some? then Selected
         else if Atoi(p.month).Some? && 1 <= Atoi(p.month).value <= 12 then Selected
         else Error)
      else if p.year != "" || p.day != "" || p.description != "" || p.debit != "" || p.credit != "" then Error
      else Inactive
    else if col == ExpenseDay then
      if p.day != "" then (if Atoi(p.day).Some? && 1 <= Atoi(p.day).value <= 31 then Selected else Error)
      else if p.year != "" || p.month != "" || p.description != "" || p.debit != "" || p.credit != "" then Error
      else Inactive
    else if col == ExpenseDescription then
      if p.description != "" then Selected
      else if p.year != "" || p.month != "" || p.day != "" || p.debit != "" || p.credit != "" then Error
      else Inactive
    else if col == ExpenseDebit then
      if p.debit != "" then (if ParseAmount(p.debit).Some? then Selected else Error)
      else if (p.year != "" || p.month != "" || p.day != "" || p.description != "") && p.credit == "" then Error
      else Inactive
    else
      if p.credit != "" then (if ParseAmount(p.credit).Some? then Selected else Error)
      else if (p.year != "" || p.month != "" || p.day != "" || p.description != "") && p.debit == "" then Error
      else Inactive
  }

  /** The status the insert screen (insertManualEntriesIntoMongo) gives a
      cell. Unlike the edit rule, a blank amount is an error whenever any
      other cell of the row holds text, so both amounts are required; and a
      blank credit in an otherwise blank row is marked selected. */
  function InsertStatus(p: Placeholder, col: nat): (r: Status)
    requires col <= ExpenseCredit
    ensures Cell(p, col) != "" ==> r != Inactive && (r == Error <==> !CellParses(p, col))
    ensures Cell(p, col) == "" ==> (r == Error <==> OthersFilled(p, col))
    ensures Cell(p, col) == "" && col < ExpenseCredit ==> r != Selected
    ensures Cell(p, col) == "" && col == ExpenseCredit ==> r != Inactive
  {
    OthersFilledCases(p, col);
    if col == ExpenseDebit then
      if p.debit != "" then (if ParseAmount(p.debit).Some? then Selected else Error)
      else if p.year != "" || p.month != "" || p.day != "" || p.description != "" || p.credit != "" then Error
      else Inactive
    else if col == ExpenseCredit then
      if p.credit != "" then (if ParseAmount(p.credit).Some? then Selected else Error)
      else if p.year != "" || p.month != "" || p.day != "" || p.description != "" || p.debit != "" then Error
      else Selected
    else EditStatus(p, col)
  }

  /** The two rules agree on every date and description cell and on every
      amount cell that holds text; they differ only on blank amounts. */
  lemma InsertStatusAgrees(p: Placeholder, col: nat)
    requires col <= ExpenseCredit
    requires col < ExpenseDebit || Cell(p, col) != ""
    ensures InsertStatus(p, col) == EditStatus(p, col)
  {
  }

  /** A blank amount that the insert rule calls an error may pass the edit
      rule: it does exactly when the other amount holds text, or the date
      and description are blank. */
  lemma {:induction false} BlankAmountRules(p: Placeholder, col: nat)
    requires col == ExpenseDebit || col == ExpenseCredit
    requires Cell(p, col) == ""
    ensures InsertStatus(p, col) == Error && EditStatus(p, col) != Error <==>
              OthersFilled(p, col) && (Cell(p, ExpenseDebit + ExpenseCredit - col) != "" || !DateOrDescriptionFilled(p))
  {
    var other := ExpenseDebit + ExpenseCredit - col;
    if DateOrDescriptionFilled(p) {
      if p.year != "" { assert Cell(p, ExpenseYear) != ""; }
      else if p.month != "" { assert Cell(p, ExpenseMonth) != ""; }
      else if p.day != "" { assert Cell(p, ExpenseDay) != ""; }
      else { assert Cell(p, ExpenseDescription) != ""; }
    }
    if Cell(p, other) != "" {
      assert other != col && other <= ExpenseCredit;
    }
  }

  /** The typed record a row yields: each field whose cell parses, and the
      zero value elsewhere. */
  function ParsedExpense(p: Placeholder): (e: Expense)
    ensures e.id == 0 && e.total == 0.0 && !e.valid
    ensures e.description == p.description
    ensures ParseMonth(p.month).Some? ==> e.month == ParseMonth(p.month).value
    ensures ParseMonth(p.month).None? ==> e.month == 0
    ensures ParseDay(p.day).Some? ==> e.day == ParseDay(p.day).value
    ensures ParseDay(p.day).None? ==> e.day == 0
    ensures Atoi(p.year).Some? ==> e.year == Atoi(p.year).value
    ensures Atoi(p.year).None? ==> e.year == 0
    ensures ParseAmount(p.debit).Some? ==> e.debit == ParseAmount(p.debit).value
    ensures ParseAmount(p.debit).None? ==> e.debit == 0.0
    ensures ParseAmount(p.credit).Some? ==> e.credit == ParseAmount(p.credit).value
    ensures ParseAmount(p.credit).None? ==> e.credit == 0.0
  {
    var month := match ParseMonth(p.month) case Some(m) => m case None => 0;
    var day := match ParseDay(p.day) case Some(d) => d case None => 0;
    var year := match Atoi(p.year) case Some(y) => y case None => 0;
    var debit := match ParseAmount(p.debit) case Some(a) => a case None => 0.0;
    var credit := match ParseAmount(p.credit) case Some(a) => a case None => 0.0;
    Expense(0, month, day, year, p.description, debit, credit, 0.0, false)
  }

  /** The record a validation pass appends for a row: the parsed fields,
      then the validity check. */
  function RowExpense(p: Placeholder): (e: Expense)
    ensures e == ParsedExpense(p).(valid := e.valid)
    ensures e.valid <==> Eligible(ParsedExpense(p))
  {
    CheckIfEntryIsValid(ParsedExpense(p))
  }

  /** A row with some text and no error cell under the edit rule yields a
      record with a real date and a description, and with at least one
      amount typed in; it is marked valid exactly when its year and one of
      its amounts are non-zero. */
  lemma {:induction false} EditErrorFreeRow(p: Placeholder)
    requires !IsBlank(p)
    requires forall col :: 0 <= col <= ExpenseCredit ==> EditStatus(p, col) != Error
    ensures 1 <= RowExpense(p).month <= 12 && 1 <= RowExpense(p).day <= 31
    ensures RowExpense(p).description == p.description != ""
    ensures p.debit != "" || p.credit != ""
    ensures RowExpense(p).valid <==> RowExpense(p).year != 0 && (RowExpense(p).debit != 0.0 || RowExpense(p).credit != 0.0)
  {
    var c :| 0 <= c <= ExpenseCredit && Cell(p, c) != "";
    assert EditStatus(p, ExpenseYear) != Error;
    assert EditStatus(p, ExpenseMonth) != Error;
    assert EditStatus(p, ExpenseDay) != Error;
    assert EditStatus(p, ExpenseDescription) != Error;
    assert EditStatus(p, ExpenseDebit) != Error;
    assert EditStatus(p, ExpenseCredit) != Error;
    if c != ExpenseYear { assert OthersFilled(p, ExpenseYear); }
    if c != ExpenseMonth { assert OthersFilled(p, ExpenseMonth); }
    if c != ExpenseDay { assert OthersFilled(p, ExpenseDay); }
    if c != ExpenseDescription { assert OthersFilled(p, ExpenseDescription); }
    assert p.year != "" && p.month != "" && p.day != "" && p.description != "";
  }

  /** Under the insert rule an error-free row with some text has every
      cell filled in and parsed. */
  lemma {:induction false} InsertErrorFreeRow(p: Placeholder)
    requires !IsBlank(p)
    requires forall col :: 0 <= col <= ExpenseCredit ==> InsertStatus(p, col) != Error
    ensures forall col :: 0 <= col <= ExpenseCredit ==> Cell(p, col) != "" && CellParses(p, col)
  {
    var c :| 0 <= c <= ExpenseCredit && Cell(p, c) != "";
    forall col | 0 <= col <= ExpenseCredit
      ensures Cell(p, col) != "" && CellParses(p, col)
    {
      assert InsertStatus(p, col) != Error;
      if col != c { assert OthersFilled(p, col); }
    }
  }

  /** A blank row never carries an error, under either rule. */
  lemma BlankRowHasNoError(col: nat)
    requires col <= ExpenseCredit
    ensures EditStatus(EmptyRow, col) == Inactive
    ensures InsertStatus(EmptyRow, col) == if col == ExpenseCredit then Selected else Inactive
  {
  }

  // ---------------------------------------------------------------------
  // The per-cell cases of the validation passes (insertManualEntriesIntoMongo
  // and checkIfEditedEntriesValid share the date and description cases)

  /** The record the pass builds for each row, validity flag included. */
  function RowRecords(entries: seq<Placeholder>): (rs: seq<Expense>)
    ensures |rs| == |entries| && forall r :: 0 <= r < |entries| ==> rs[r] == RowExpense(entries[r])
  {
    seq(|entries|, r requires 0 <= r < |entries| => RowExpense(entries[r]))
  }

  /** Parsed fields of the columns before n, zero values elsewhere: what
      the pass has built of a row after n columns. */
  function ParsedPrefix(p: Placeholder, n: nat): (e: Expense)
    ensures n > ExpenseCredit ==> e == ParsedExpense(p)
  {
    var full := ParsedExpense(p);
    ZeroExpense.(year := if n > ExpenseYear then full.year else 0,
                 month := if n > ExpenseMonth then full.month else 0,
                 day := if n > ExpenseDay then full.day else 0,
                 description := if n > ExpenseDescription then full.description else "",
                 debit := if n > ExpenseDebit then full.debit else 0.0,
                 credit := if n > ExpenseCredit then full.credit else 0.0)
  }

  method ValidateYear(p: Placeholder) returns (year: int, st: Status)
    ensures year == ParsedExpense(p).year && st == EditStatus(p, ExpenseYear) && st == InsertStatus(p, ExpenseYear)
  {
    year := 0;
    if p.year != "" {
      var parsed := Atoi(p.year);
      if parsed.Some? {
        year := parsed.value;
        st := Selected;
      } else {
        st := Error;
      }
    } else if p.month != "" || p.day != "" || p.description != "" || p.debit != "" || p.credit != "" {
      st := Error;
    } else {
      st := Inactive;
    }
  }

  method ValidateMonth(p: Placeholder) returns (month: int, st: Status)
    ensures month == ParsedExpense(p).month && st == EditStatus(p, ExpenseMonth) && st == InsertStatus(p, ExpenseMonth)
  {
    month := 0;
    if p.month != "" {
      var named := ParseMonthName(p.month);
      if named.Some? {
        month := named.value;
        st := Selected;
      } else {
        var number := Atoi(p.month);
        if number.Some? && number.value >= 1 && number.value <= 12 {
          month := number.value;
          st := Selected;
        } else {
          st := Error;
        }
      }
    } else if p.year != "" || p.day != "" || p.description != "" || p.debit != "" || p.credit != "" {
      st := Error;
    } else {
      st := Inactive;
    }
  }

  method ValidateDay(p: Placeholder) returns (day: int, st: Status)
    ensures day == ParsedExpense(p).day && st == EditStatus(p, ExpenseDay) && st == InsertStatus(p, ExpenseDay)
  {
    day := 0;
    if p.day != "" {
      var parsed := Atoi(p.day);
      if parsed.Some? && parsed.value >= 1 && parsed.value <= 31 {
        day := parsed.value;
        st := Selected;
      } else {
        st := Error;
      }
    } else if p.year != "" || p.month != "" || p.description != "" || p.debit != "" || p.credit != "" {
      st := Error;
    } else {
      st := Inactive;
    }
  }

  method ValidateDescription(p: Placeholder) returns (description: string, st: Status)
    ensures description == ParsedExpense(p).description && st == EditStatus(p, ExpenseDescription)
            && st == InsertStatus(p, ExpenseDescription)
  {
    description := "";
    if p.description != "" {
      description := p.description;
      st := Selected;
    } else if p.year != "" || p.month != "" || p.day != "" || p.debit != "" || p.credit != "" {
      st := Error;
    } else {
      st := Inactive;
    }
  }

  /** Insert rule: a blank debit is an error beside any other text. */
  method ValidateInsertDebit(p: Placeholder) returns (debit: real, st: Status)
    ensures debit == ParsedExpense(p).debit && st == InsertStatus(p, ExpenseDebit)
  {
    debit := 0.0;
    if p.debit != "" {
      var val := ParseAmount(p.debit);
      if val.Some? {
        debit := val.value;
        st := Selected;
      } else {
        st := Error;
      }
    } else if p.year != "" || p.month != "" || p.day != "" || p.description != "" || p.credit != "" {
      st := Error;
    } else {
      st := Inactive;
    }
  }

  /** Insert rule: a blank credit in an otherwise blank row is marked
      selected. */
  method ValidateInsertCredit(p: Placeholder) returns (credit: real, st: Status)
    ensures credit == ParsedExpense(p).credit && st == InsertStatus(p, ExpenseCredit)
  {
    credit := 0.0;
    if p.credit != "" {
      var val := ParseAmount(p.credit);
      if val.Some? {
        credit := val.value;
        st := Selected;
      } else {
        st := Error;
      }
    } else if p.year != "" || p.month != "" || p.day != "" || p.description != "" || p.debit != "" {
      st := Error;
    } else {
      st := Selected;
    }
  }

  /** Edit rule: a blank debit is an error only beside a filled date or
      description and a blank credit. */
  method ValidateEditDebit(p: Placeholder) returns (debit: real, st: Status)
    ensures debit == ParsedExpense(p).debit && st == EditStatus(p, ExpenseDebit)
  {
    debit := 0.0;
    if p.debit != "" {
      var val := ParseAmount(p.debit);
      if val.Some? {
        debit := val.value;
        st := Selected;
      } else {
        st := Error;
      }
    } else if (p.year != "" || p.month != "" || p.day != "" || p.description != "") && p.credit == "" {
      st := Error;
    } else {
      st := Inactive;
    }
  }

  /** Edit rule for credit, the mirror image of debit. */
  method ValidateEditCredit(p: Placeholder) returns (credit: real, st: Status)
    ensures credit == ParsedExpense(p).credit && st == EditStatus(p, ExpenseCredit)
  {
    credit := 0.0;
    if p.credit != "" {
      var val := ParseAmount(p.credit);
      if val.Some? {
        credit := val.value;
        st := Selected;
      } else {
        st := Error;
      }
    } else if (p.year != "" || p.month != "" || p.day != "" || p.description != "") && p.debit == "" {
      st := Error;
    } else {
      st := Inactive;
    }
  }

  // ---------------------------------------------------------------------
  // The text form of a stored record and the modified-diff

  /** populateEntries: the cells shown for a stored record. */
  function RowText(e: Expense): (p: Placeholder)
    ensures p.year == Itoa(e.year) && p.month == Itoa(e.month) && p.day == Itoa(e.day)
    ensures p.description == e.description
    ensures p.debit == Format2(e.debit) && p.credit == Format2(e.credit)
  {
    Placeholder(Itoa(e.month), Itoa(e.day), Itoa(e.year), e.description, Format2(e.debit), Format2(e.credit))
  }

  /** populateEntries over a result list: one text row per record, in
      the same order. */
  function RowsText(found: seq<Expense>): (rows: seq<Placeholder>)
    ensures |rows| == |found| && forall i :: 0 <= i < |found| ==> rows[i] == RowText(found[i])
  {
    seq(|found|, i requires 0 <= i < |found| => RowText(found[i]))
  }

  /** The baseline text of column col for a stored record, the form that
      checkIfEntryModified compares against. */
  function BaselineCell(e: Expense, col: nat): (t: string)
    requires col <= ExpenseCredit
    ensures t == Cell(RowText(e), col)
  {
    if col == ExpenseYear then Itoa(e.year)
    else if col == ExpenseMonth then Itoa(e.month)
    else if col == ExpenseDay then Itoa(e.day)
    else if col == ExpenseDescription then e.description
    else if col == ExpenseDebit then Format2(e.debit)
    else Format2(e.credit)
  }

  /** The modified flags of one row (columns 0..5, and the Selected column
      6, which checkIfEntryModified never sets). */
  function ModifiedFlags(e: Expense, p: Placeholder): (r: seq<bool>)
    ensures |r| == ExpenseCredit + 2 && !r[ExpenseCredit + 1]
    ensures forall col :: 0 <= col <= ExpenseCredit ==> (r[col] <==> Cell(p, col) != Cell(RowText(e), col))
  {
    [Itoa(e.year) != p.year, Itoa(e.month) != p.month, Itoa(e.day) != p.day,
     e.description != p.description, Format2(e.debit) != p.debit, Format2(e.credit) != p.credit,
     false]
  }

  /** A row as populated carries no modified flag; and a row carries none
      exactly when its text equals the text it was populated with. */
  lemma {:induction false} UnmodifiedIffPopulated(e: Expense, p: Placeholder)
    ensures (forall col :: 0 <= col < |ModifiedFlags(e, p)| ==> !ModifiedFlags(e, p)[col]) <==> p == RowText(e)
  {
    var r := ModifiedFlags(e, p);
    var q := RowText(e);
    if forall col :: 0 <= col < |r| ==> !r[col] {
      assert !r[0] && !r[1] && !r[2] && !r[3] && !r[4] && !r[5];
      assert Cell(p, 0) == Cell(q, 0) && Cell(p, 1) == Cell(q, 1) && Cell(p, 2) == Cell(q, 2);
      assert Cell(p, 3) == Cell(q, 3) && Cell(p, 4) == Cell(q, 4) && Cell(p, 5) == Cell(q, 5);
    }
  }

  /** The decimal text of a number never reads as a month abbreviation. */
  lemma {:induction false} ItoaIsNoMonthName(n: int)
    ensures ParseMonthName(Itoa(n)).None?
  {
    var s := Itoa(n);
    ItoaNonEmpty(n);
    var a: nat := if n < 0 then -n else n;
    NatDigitsCorrect(a);
    assert s[0] == '-' || IsDigit(s[0]) by {
      if n < 0 {
        assert s[0] == '-';
      } else {
        assert s == NatDigits(a);
      }
    }
    NumberIsNoMonthName(s);
  }

  /** The date cells of a populated row parse back to the stored fields. */
  lemma {:induction false} PopulatedDateParses(e: Expense)
    requires Int64Min <= e.year <= Int64Max
    requires 1 <= e.month <= 12 && 1 <= e.day <= 31
    ensures Atoi(Itoa(e.year)) == Some(e.year)
    ensures ParseMonth(Itoa(e.month)) == Some(e.month)
    ensures ParseDay(Itoa(e.day)) == Some(e.day)
  {
    AtoiItoa(e.year);
    AtoiItoa(e.month);
    AtoiItoa(e.day);
    ItoaIsNoMonthName(e.month);
  }

  /** Populating a row from a stored record whose date is in range and
      whose description is non-empty, and validating the untouched row,
      marks every cell selected and gives back the record's fields, with
      the amounts rounded to cents. */
  lemma {:induction false} PopulatedRowRoundTrip(e: Expense)
    requires Int64Min <= e.year <= Int64Max
    requires 1 <= e.month <= 12 && 1 <= e.day <= 31 && e.description != ""
    ensures forall col :: 0 <= col <= ExpenseCredit ==> EditStatus(RowText(e), col) == Selected
    ensures ParsedExpense(RowText(e)) ==
              Expense(0, e.month, e.day, e.year, e.description,
                      Cents(e.debit) as real / 100.0, Cents(e.credit) as real / 100.0, 0.0, false)
  {
    forall col | 0 <= col <= ExpenseCredit
      ensures EditStatus(RowText(e), col) == Selected
    {
      PopulatedCellSelected(e, col);
    }
    PopulatedRowParses(e);
  }

  /** The fields parsed from a populated row. */
  lemma PopulatedRowParses(e: Expense)
    requires Int64Min <= e.year <= Int64Max
    requires 1 <= e.month <= 12 && 1 <= e.day <= 31
    ensures ParsedExpense(RowText(e)) ==
              Expense(0, e.month, e.day, e.year, e.description,
                      Cents(e.debit) as real / 100.0, Cents(e.credit) as real / 100.0, 0.0, false)
  {
    PopulatedDateParses(e);
    var debit := RoundedAmount(e.debit);
    var credit := RoundedAmount(e.credit);
    ParsedExpenseOf(RowText(e), e.month, e.day, e.year, debit, credit);
    ExpenseOfFields(e, debit, credit);
  }

  /** The record built from the rounded amounts, written out with Cents. */
  lemma ExpenseOfFields(e: Expense, debit: real, credit: real)
    requires debit == Cents(e.debit) as real / 100.0 && credit == Cents(e.credit) as real / 100.0
    ensures Expense(0, e.month, e.day, e.year, e.description, debit, credit, 0.0, false) ==
              Expense(0, e.month, e.day, e.year, e.description,
                      Cents(e.debit) as real / 100.0, Cents(e.credit) as real / 100.0, 0.0, false)
  {
  }

  /** The amount a two-decimal amount cell parses back to. */
  lemma RoundedAmount(x: real) returns (v: real)
    ensures v == Cents(x) as real / 100.0 && ParseAmount(Format2(x)) == Some(v)
  {
    Format2RoundTrip(x);
    v := Cents(x) as real / 100.0;
  }

  /** A row whose five number cells all parse gives back exactly those values. */
  lemma ParsedExpenseOf(p: Placeholder, month: int, day: int, year: int, debit: real, credit: real)
    requires ParseMonth(p.month) == Some(month) && ParseDay(p.day) == Some(day) && Atoi(p.year) == Some(year)
    requires ParseAmount(p.debit) == Some(debit) && ParseAmount(p.credit) == Some(credit)
    ensures ParsedExpense(p) == Expense(0, month, day, year, p.description, debit, credit, 0.0, false)
  {
  }

  /** One cell of a populated row is filled in and parses. */
  lemma PopulatedCellSelected(e: Expense, col: nat)
    requires Int64Min <= e.year <= Int64Max
    requires 1 <= e.month <= 12 && 1 <= e.day <= 31 && e.description != ""
    requires col <= ExpenseCredit
    ensures EditStatus(RowText(e), col) == Selected
  {
    var p := RowText(e);
    if col == ExpenseYear {
      ItoaNonEmpty(e.year);
      AtoiItoa(e.year);
    } else if col == ExpenseMonth {
      ItoaNonEmpty(e.month);
      PopulatedDateParses(e);
    } else if col == ExpenseDay {
      ItoaNonEmpty(e.day);
      PopulatedDateParses(e);
    } else if col == ExpenseDebit {
      Format2RoundTrip(e.debit);
    } else if col == ExpenseCredit {
      Format2RoundTrip(e.credit);
    }
    assert Cell(p, col) != "" && CellParses(p, col);
  }

}
