/** The edit grid of the result screens. found_entries_model.go and
    update_entries_model.go each declare edit_table and a set of helpers
    that are word for word the same in both files (checkForInvalidEntries,
    checkIfEditedEntriesValid, rejectUnselectedRows, checkIfEntryModified,
    the selected-count loop and selectUpdateEntryStyle); they are defined
    once here and used by both screens.

    The Go helpers take the screen by pointer and write its edit_table;
    here they take the grid as a value and return the new one. */
module EditTable {
  import opened Codec
  import opened Schema
  import opened Constants
  import opened Seqs
  import opened Cells
  import opened Grid
  import opened Tui

  /** Columns of the grid: the six fields, then the Selected column. */
  const NumColumns: nat := ExpenseCredit + 2
  const SelectedColumn: nat := ExpenseCredit + 1

  /** insert_table_view (insert_manual_entry.go), the view a rejected edit
      commit returns to; numerically the entries view. */
  const InsertTableView: int := 0

  const InvalidPrompt: string := "Some errors were detected (highlighted). Please fix and re-enter."

  /** edit_table: the cell cursor, and for each of the ten rows a status
      and a modified flag per column. */
  datatype Table = Table(cursor: Cursor2D, valid: seq<seq<Status>>, modified: seq<seq<bool>>)

  /** Ten rows of seven columns. */
  predicate Shaped<T>(g: seq<seq<T>>)
  {
    |g| == MaxEntries && forall r :: 0 <= r < |g| ==> |g[r]| == NumColumns
  }

  const NoFlags: seq<bool> := [false, false, false, false, false, false, false]
  const NoStatus: seq<Status> := [Inactive, Inactive, Inactive, Inactive, Inactive, Inactive, Inactive]

  /** The zero value of edit_table. */
  const BlankTable: Table := Table(Cursor2D(0, 0),
    [NoStatus, NoStatus, NoStatus, NoStatus, NoStatus, NoStatus, NoStatus, NoStatus, NoStatus, NoStatus],
    [NoFlags, NoFlags, NoFlags, NoFlags, NoFlags, NoFlags, NoFlags, NoFlags, NoFlags, NoFlags])

  /** The modified flags of each of the ten rows are exactly the diff of
      that row's text against the text of its stored record; rows past the
      result carry none. */
  predicate FlagsTrack(modified: seq<seq<bool>>, found: seq<Expense>, entries: seq<Placeholder>)
    requires |modified| == MaxEntries && |entries| == |found|
  {
    forall r :: 0 <= r < MaxEntries ==>
      modified[r] == if r < |found| then ModifiedFlags(found[r], entries[r]) else NoFlags
  }

  /** What every reachable grid satisfies. The cursor row has no lower
      bound: Left at the first column of row 0 moves it to row -1. */
  predicate TableInv(t: Table, found: seq<Expense>, entries: seq<Placeholder>)
  {
    Shaped(t.valid) && Shaped(t.modified) && |entries| == |found|
    && (forall r :: 0 <= r < MaxEntries ==> t.valid[r][SelectedColumn] == Inactive)
    && FlagsTrack(t.modified, found, entries)
    && 0 <= t.cursor.x <= SelectedColumn && t.cursor.y < MaxEntries
  }

  /** Right after populateEntries the blank grid is consistent: no row
      differs from the record it shows. */
  lemma PopulatedTableTracks(found: seq<Expense>)
    ensures TableInv(BlankTable, found, RowsText(found))
  {
    var entries := RowsText(found);
    forall r | 0 <= r < MaxEntries
      ensures BlankTable.modified[r] == if r < |found| then ModifiedFlags(found[r], entries[r]) else NoFlags
    {
      if r < |found| {
        assert entries[r] == RowText(found[r]);
        assert ModifiedFlags(found[r], entries[r]) == NoFlags;
      }
    }
  }

  /** A cell is shown with the question style only while its text differs
      from the record's, and every cell whose text differs is flagged. */
  lemma {:induction false} FlagMeansEdited(t: Table, found: seq<Expense>, entries: seq<Placeholder>, y: nat, x: nat)
    requires TableInv(t, found, entries)
    requires y < |found| && y < MaxEntries && x <= ExpenseCredit
    ensures t.modified[y][x] <==> Cell(entries[y], x) != BaselineCell(found[y], x)
  {
  }

  /** checkIfEntryModified on row y once the row's text is p. */
  function Remark(t: Table, y: nat, e: Expense, p: Placeholder): (r: Table)
    requires |t.modified| == MaxEntries && y < MaxEntries
    ensures r.cursor == t.cursor && r.valid == t.valid
  {
    t.(modified := t.modified[y := ModifiedFlags(e, p)])
  }

  /** Replacing the text of a row of the page and recomputing its flags
      keeps the grid consistent. */
  lemma RemarkTracks(t: Table, found: seq<Expense>, entries: seq<Placeholder>, y: nat, p: Placeholder)
    requires TableInv(t, found, entries) && y < |found| && y < MaxEntries
    ensures TableInv(Remark(t, y, found[y], p), found, entries[y := p])
  {
  }

  // -----------------------------------------------------------------------
  // Cursor moves of the edit mode

  /** up: one row up, stopping at row 0. */
  function CursorUp(c: Cursor2D): Cursor2D
  {
    if c.y > 0 then c.(y := c.y - 1) else c
  }

  /** down: one row down while a row of the page lies below. */
  function CursorDown(c: Cursor2D, len: nat, page: int): Cursor2D
  {
    if c.y < NumEntriesOnPage(len, page) - 1 then c.(y := c.y + 1) else c
  }

  /** left: one column left; from the first column to the credit column
      of the row above, whatever the row. */
  function CursorLeft(c: Cursor2D): Cursor2D
  {
    if c.x > 0 then c.(x := c.x - 1) else Cursor2D(ExpenseCredit, c.y - 1)
  }

  /** right: one column right up to the Selected column; from there to the
      first column of the next row, except on the last row. */
  function CursorRight(c: Cursor2D): Cursor2D
  {
    if c.x < SelectedColumn then c.(x := c.x + 1)
    else if c.y < MaxEntries - 1 then Cursor2D(0, c.y + 1)
    else c
  }

  /** Up and Down keep a cursor that is on the page on the page, never
      change its column, and move it by one row exactly when there is a
      row in that direction. */
  lemma {:induction false} UpDownStayOnPage(c: Cursor2D, len: nat, page: int)
    requires 0 <= page && 0 <= c.y < NumEntriesOnPage(len, page)
    ensures 0 <= CursorUp(c).y < NumEntriesOnPage(len, page)
    ensures 0 <= CursorDown(c, len, page).y < NumEntriesOnPage(len, page)
    ensures CursorUp(c).x == c.x && CursorDown(c, len, page).x == c.x
    ensures CursorUp(c).y == c.y - 1 <==> c.y > 0
    ensures CursorDown(c, len, page).y == c.y + 1 <==> c.y + 1 < NumEntriesOnPage(len, page)
  {
  }

  /** Right walks the seven columns of a row and wraps to the next row only
      from the Selected column of a row before the last; it keeps a cursor
      inside the grid inside the grid. */
  lemma RightWalk(c: Cursor2D)
    requires 0 <= c.x <= SelectedColumn && c.y < MaxEntries
    ensures 0 <= CursorRight(c).x <= SelectedColumn && CursorRight(c).y < MaxEntries
    ensures CursorRight(c).y != c.y <==> c.x == SelectedColumn && c.y < MaxEntries - 1
    ensures CursorRight(c).y != c.y ==> CursorRight(c) == Cursor2D(0, c.y + 1)
    ensures CursorRight(c) == c <==> c == Cursor2D(SelectedColumn, MaxEntries - 1)
  {
  }

  /** Left from the first column lands on the credit column, not on the
      Selected column, of the row above, so from row 0 it leaves the grid;
      Right does not undo it. */
  lemma LeftFromFirstColumn(y: int)
    requires y < MaxEntries
    ensures CursorLeft(Cursor2D(0, y)) == Cursor2D(ExpenseCredit, y - 1)
    ensures y == 0 ==> CursorLeft(Cursor2D(0, y)).y < 0
    ensures CursorRight(CursorLeft(Cursor2D(0, y))) == Cursor2D(SelectedColumn, y - 1)
  {
  }

  /** Inside a row, Left undoes Right. */
  lemma LeftUndoesRight(c: Cursor2D)
    requires 0 <= c.x < SelectedColumn
    ensures CursorLeft(CursorRight(c)) == c
  {
  }

  // -----------------------------------------------------------------------
  // checkIfEditedEntriesValid

  /** The statuses the pass writes into a row: the edit rule for the six
      field columns; the Selected column keeps its status. */
  function EditedRow(before: seq<Status>, p: Placeholder): (r: seq<Status>)
    requires |before| == NumColumns
    ensures |r| == NumColumns && r[SelectedColumn] == before[SelectedColumn]
    ensures forall c :: 0 <= c <= ExpenseCredit ==> r[c] == EditStatus(p, c)
  {
    [EditStatus(p, 0), EditStatus(p, 1), EditStatus(p, 2),
     EditStatus(p, 3), EditStatus(p, 4), EditStatus(p, 5), before[SelectedColumn]]
  }

  /** The grid after the pass: one row per result rewritten, the rest as
      they were. */
  function EditedGrid(valid: seq<seq<Status>>, entries: seq<Placeholder>): (g: seq<seq<Status>>)
    requires Shaped(valid) && |entries| <= MaxEntries
    ensures Shaped(g)
    ensures forall r :: 0 <= r < MaxEntries ==>
              g[r] == if r < |entries| then EditedRow(valid[r], entries[r]) else valid[r]
  {
    seq(MaxEntries, r requires 0 <= r < MaxEntries =>
      if r < |entries| then EditedRow(valid[r], entries[r]) else valid[r])
  }

  /** One case of the column switch of checkIfEditedEntriesValid. */
  method ValidateEditCell(p: Placeholder, col: nat, e: Expense) returns (entry: Expense, st: Status)
    requires col <= ExpenseCredit && e == ParsedPrefix(p, col)
    ensures entry == ParsedPrefix(p, col + 1) && st == EditStatus(p, col)
  {
    if col == ExpenseYear {
      var year;
      year, st := ValidateYear(p);
      entry := e.(year := year);
    } else if col == ExpenseMonth {
      var month;
      month, st := ValidateMonth(p);
      entry := e.(month := month);
    } else if col == ExpenseDay {
      var day;
      day, st := ValidateDay(p);
      entry := e.(day := day);
    } else if col == ExpenseDescription {
      var description;
      description, st := ValidateDescription(p);
      entry := e.(description := description);
    } else if col == ExpenseDebit {
      var debit;
      debit, st := ValidateEditDebit(p);
      entry := e.(debit := debit);
    } else {
      var credit;
      credit, st := ValidateEditCredit(p);
      entry := e.(credit := credit);
    }
  }

  /** The column loop of checkIfEditedEntriesValid for one row: the parsed
      record and the row of statuses it leaves behind. */
  method ValidateEditRow(p: Placeholder, before: seq<Status>) returns (entry: Expense, statuses: seq<Status>)
    requires |before| == NumColumns
    ensures entry == ParsedExpense(p) && statuses == EditedRow(before, p)
  {
    entry := ZeroExpense;
    statuses := before;
    var col := 0;
    while col < ExpenseCredit + 1
      invariant 0 <= col <= ExpenseCredit + 1 && |statuses| == NumColumns
      invariant entry == ParsedPrefix(p, col)
      invariant forall c :: 0 <= c < col ==> statuses[c] == EditStatus(p, c)
      invariant forall c :: col <= c < NumColumns ==> statuses[c] == before[c]
    {
      var st;
      entry, st := ValidateEditCell(p, col, entry);
      statuses := statuses[col := st];
      col := col + 1;
    }
  }

  /** checkIfEditedEntriesValid: rewrites the statuses of the rows that
      show a result and returns one checked record per row, in order. Go
      indexes the ten-row grid up to len(found_entries), so at most ten
      rows can be checked. */
  method CheckIfEditedEntriesValid(valid: seq<seq<Status>>, entries: seq<Placeholder>)
    returns (newValid: seq<seq<Status>>, records: seq<Expense>)
    requires Shaped(valid) && |entries| <= MaxEntries
    ensures newValid == EditedGrid(valid, entries)
    ensures records == RowRecords(entries)
  {
    newValid := valid;
    records := [];
    var row := 0;
    while row < |entries|
      invariant 0 <= row <= |entries| && Shaped(newValid)
      invariant forall r :: 0 <= r < MaxEntries ==>
                  newValid[r] == if r < row then EditedRow(valid[r], entries[r]) else valid[r]
      invariant records == RowRecords(entries)[..row]
    {
      var entry, statuses := ValidateEditRow(entries[row], newValid[row]);
      EditedGridStep(valid, newValid, entries, row, statuses);
      newValid := newValid[row := statuses];
      entry := CheckIfEntryIsValid(entry);
      assert entry == RowRecords(entries)[row];
      PrefixSnoc(records, RowRecords(entries), entry);
      records := records + [entry];
      row := row + 1;
    }
  }

  /** Rewriting one more row keeps the grid shaped and rewritten up to that row. */
  lemma EditedGridStep(valid: seq<seq<Status>>, g: seq<seq<Status>>, entries: seq<Placeholder>, row: nat, statuses: seq<Status>)
    requires Shaped(valid) && Shaped(g) && row < |entries| <= MaxEntries
    requires forall r :: 0 <= r < MaxEntries ==> g[r] == if r < row then EditedRow(valid[r], entries[r]) else valid[r]
    requires statuses == EditedRow(g[row], entries[row])
    ensures Shaped(g[row := statuses])
    ensures forall r :: 0 <= r < MaxEntries ==>
              g[row := statuses][r] == if r < row + 1 then EditedRow(valid[r], entries[r]) else valid[r]
  {
  }

  // -----------------------------------------------------------------------
  // checkForInvalidEntries, rejectUnselectedRows, checkIfEntryModified

  /** Some selected row among the first n has an error in a field column. */
  predicate SelectedError(valid: seq<seq<Status>>, selected: seq<bool>, n: nat)
    requires Shaped(valid) && n <= MaxEntries && n <= |selected|
  {
    exists y, x :: 0 <= y < n && 0 <= x <= ExpenseCredit && selected[y] && valid[y][x] == Error
  }

  /** checkForInvalidEntries over the first n rows (n is the number of
      results). Its break leaves only the column loop, which does not
      change the answer. */
  method CheckForInvalidEntries(valid: seq<seq<Status>>, selected: seq<bool>, n: nat) returns (anyEntryInvalid: bool)
    requires Shaped(valid) && n <= MaxEntries && n <= |selected|
    ensures anyEntryInvalid <==> SelectedError(valid, selected, n)
  {
    anyEntryInvalid := false;
    var y := 0;
    while y < n
      invariant 0 <= y <= n
      invariant anyEntryInvalid <==>
                  exists r, c :: 0 <= r < y && 0 <= c <= ExpenseCredit && selected[r] && valid[r][c] == Error
    {
      var x := 0;
      while x < ExpenseCredit + 1
        invariant 0 <= x <= ExpenseCredit + 1
        invariant anyEntryInvalid <==>
                    (exists r, c :: 0 <= r < y && 0 <= c <= ExpenseCredit && selected[r] && valid[r][c] == Error)
                    || (exists c :: 0 <= c < x && selected[y] && valid[y][c] == Error)
      {
        if valid[y][x] == Error && selected[y] {
          anyEntryInvalid := true;
          break;
        }
        x := x + 1;
      }
      y := y + 1;
    }
  }

  /** An error in a row that is not selected never blocks the commit:
      SelectedError depends only on the selected rows. */
  lemma UnselectedErrorsIgnored(valid: seq<seq<Status>>, valid2: seq<seq<Status>>, selected: seq<bool>, n: nat)
    requires Shaped(valid) && Shaped(valid2) && n <= MaxEntries && n <= |selected|
    requires forall y :: 0 <= y < n && selected[y] ==> valid[y] == valid2[y]
    ensures SelectedError(valid, selected, n) <==> SelectedError(valid2, selected, n)
  {
    if SelectedError(valid, selected, n) {
      var y, x :| 0 <= y < n && 0 <= x <= ExpenseCredit && selected[y] && valid[y][x] == Error;
      assert valid2[y][x] == Error;
    }
    if SelectedError(valid2, selected, n) {
      var y, x :| 0 <= y < n && 0 <= x <= ExpenseCredit && selected[y] && valid2[y][x] == Error;
      assert valid[y][x] == Error;
    }
  }

  /** rejectUnselectedRows: the entries whose flag is set, in order. */
  method RejectUnselectedRows(entries: seq<Expense>, selected: seq<bool>) returns (filtered: seq<Expense>)
    requires |selected| >= |entries|
    ensures filtered == Select(entries, selected)
    ensures |filtered| == CountTrue(selected[..|entries|])
    ensures forall e :: e in filtered <==> exists i :: 0 <= i < |entries| && selected[i] && entries[i] == e
  {
    filtered := [];
    var idx := 0;
    while idx < |entries|
      invariant 0 <= idx <= |entries|
      invariant filtered == Select(entries[..idx], selected)
    {
      assert entries[..idx + 1][..idx] == entries[..idx];
      if selected[idx] {
        filtered := filtered + [entries[idx]];
      }
      idx := idx + 1;
    }
    assert entries[..idx] == entries;
    SelectLength(entries, selected);
    forall e
      ensures e in filtered <==> exists i :: 0 <= i < |entries| && selected[i] && entries[i] == e
    {
      SelectMembers(entries, selected, e);
    }
  }

  /** checkIfEntryModified for one row: each field column is flagged
      exactly when the row's text differs from the text form of the stored
      field; the Selected column is not touched. */
  method CheckIfEntryModified(flags: seq<bool>, e: Expense, p: Placeholder) returns (r: seq<bool>)
    requires |flags| == NumColumns
    ensures |r| == NumColumns && r[SelectedColumn] == flags[SelectedColumn]
    ensures forall col :: 0 <= col <= ExpenseCredit ==> (r[col] <==> Cell(p, col) != BaselineCell(e, col))
    ensures !flags[SelectedColumn] ==> r == ModifiedFlags(e, p)
  {
    var year := Itoa(e.year) != p.year;
    var month := Itoa(e.month) != p.month;
    var day := Itoa(e.day) != p.day;
    var description := e.description != p.description;
    var debit := Format2(e.debit) != p.debit;
    var credit := Format2(e.credit) != p.credit;
    r := [year, month, day, description, debit, credit, flags[SelectedColumn]];
    assert !flags[SelectedColumn] ==> r == ModifiedFlags(e, p);
    assert forall col :: 0 <= col <= ExpenseCredit ==> r[col] == ModifiedFlags(e, p)[col];
  }

  /** numSelectedEntries / numUpdateSelectedEntries. */
  method NumSelectedEntries(selected: seq<bool>) returns (numSelected: int)
    ensures numSelected == CountTrue(selected)
  {
    numSelected := 0;
    var idx := 0;
    while idx < |selected|
      invariant 0 <= idx <= |selected|
      invariant numSelected == CountTrue(selected[..idx])
    {
      assert selected[..idx + 1][..idx] == selected[..idx];
      if selected[idx] {
        numSelected := numSelected + 1;
      }
      idx := idx + 1;
    }
    assert selected[..idx] == selected;
  }

  /** renderActions / renderUpdateActions show the action prompt exactly
      when some row is selected. */
  function ShowsActionPrompt(selected: seq<bool>): (shown: bool)
    ensures shown <==> exists i :: 0 <= i < |selected| && selected[i]
  {
    CountTrueBounds(selected);
    CountTrue(selected) > 0
  }

  // -----------------------------------------------------------------------
  // The edit commit

  /** filtered_valid_edits: the checked records of the selected rows. */
  function EditedRecords(entries: seq<Placeholder>, selected: seq<bool>): seq<Expense>
    requires |selected| >= |entries|
  {
    Select(RowRecords(entries), selected)
  }

  /** entries_being_modified: the stored records of the selected rows, as
      many as there are edited records. */
  function EditedOriginals(found: seq<Expense>, entries: seq<Placeholder>, selected: seq<bool>): (r: seq<Expense>)
    requires |entries| == |found| && |selected| >= |found|
    ensures |r| == |EditedRecords(entries, selected)|
  {
    SelectZip(found, RowRecords(entries), selected);
    Select(found, selected)
  }

  /** The commit goes ahead when no selected row has an error after the
      pass and at least one row is selected. */
  predicate EditAccepted(valid: seq<seq<Status>>, found: seq<Expense>, entries: seq<Placeholder>, selected: seq<bool>)
    requires Shaped(valid) && |entries| == |found| <= MaxEntries && |selected| == |found|
  {
    !SelectedError(EditedGrid(valid, entries), selected, |found|) && |EditedRecords(entries, selected)| > 0
  }

  /** The k-th update call pairs the stored record and the edited record
      of one selected row r. */
  predicate PairedAt(found: seq<Expense>, entries: seq<Placeholder>, selected: seq<bool>, k: nat)
    requires |entries| == |found| && |selected| >= |found|
    requires k < |EditedOriginals(found, entries, selected)|
  {
    exists r :: 0 <= r < |found| && selected[r]
                && EditedOriginals(found, entries, selected)[k] == found[r]
                && EditedRecords(entries, selected)[k] == RowExpense(entries[r])
  }

  /** The k-th update call pairs the stored record and the edited record
      of the same row: the two lists are filtered by the same flags. */
  lemma UpdatePairsSameRow(found: seq<Expense>, entries: seq<Placeholder>, selected: seq<bool>)
    requires |entries| == |found| && |selected| >= |found|
    ensures forall k :: 0 <= k < |EditedOriginals(found, entries, selected)| ==> PairedAt(found, entries, selected, k)
  {
    var records := RowRecords(entries);
    forall k | 0 <= k < |EditedOriginals(found, entries, selected)|
      ensures PairedAt(found, entries, selected, k)
    {
      var r := SelectPairs(found, records, selected, k);
      assert records[r] == RowExpense(entries[r]);
    }
  }

  /** An accepted commit sends only well-formed records for rows that hold
      text: a real month and day, a description, and an amount typed in. */
  lemma {:induction false} AcceptedRowsWellFormed(valid: seq<seq<Status>>, found: seq<Expense>, entries: seq<Placeholder>,
                                                   selected: seq<bool>, r: nat)
    requires Shaped(valid) && |entries| == |found| <= MaxEntries && |selected| == |found|
    requires EditAccepted(valid, found, entries, selected)
    requires r < |found| && selected[r] && !IsBlank(entries[r])
    ensures 1 <= RowExpense(entries[r]).month <= 12 && 1 <= RowExpense(entries[r]).day <= 31
    ensures RowExpense(entries[r]).description != ""
    ensures entries[r].debit != "" || entries[r].credit != ""
  {
    var g := EditedGrid(valid, entries);
    forall col | 0 <= col <= ExpenseCredit
      ensures EditStatus(entries[r], col) != Error
    {
      assert g[r][col] == EditStatus(entries[r], col);
    }
    EditErrorFreeRow(entries[r]);
  }

  /** A selected row whose cells were all erased passes the gate: it has
      no error cell, so the commit overwrites the stored record with zero
      fields and an empty description. */
  lemma BlankSelectedRowPassesGate(e: Expense)
    ensures EditAccepted(BlankTable.valid, [e], [EmptyRow], [true])
    ensures EditedRecords([EmptyRow], [true]) == [RowExpense(EmptyRow)]
    ensures RowExpense(EmptyRow) == ZeroExpense
  {
    var g := EditedGrid(BlankTable.valid, [EmptyRow]);
    forall col | 0 <= col <= ExpenseCredit
      ensures g[0][col] != Error
    {
      BlankRowHasNoError(col);
    }
    var recs := RowRecords([EmptyRow]);
    assert recs == [RowExpense(EmptyRow)];
    assert recs[..|recs| - 1] == [];
    assert Select(recs, [true]) == Select([], [true]) + [recs[0]];
  }

  /** Selecting rows as populated, without editing them, passes the gate
      whenever their records have a real date and a description, and sends
      back the same fields with the amounts rounded to cents. */
  lemma {:induction false} UneditedRowsPass(valid: seq<seq<Status>>, found: seq<Expense>, selected: seq<bool>, r: nat)
    requires Shaped(valid) && |found| <= MaxEntries && |selected| == |found|
    requires r < |found|
    requires Int64Min <= found[r].year <= Int64Max
    requires 1 <= found[r].month <= 12 && 1 <= found[r].day <= 31 && found[r].description != ""
    ensures forall col :: 0 <= col <= ExpenseCredit ==> EditedGrid(valid, RowsText(found))[r][col] == Selected
    ensures RowRecords(RowsText(found))[r] ==
              CheckIfEntryIsValid(Expense(0, found[r].month, found[r].day, found[r].year, found[r].description,
                                          Cents(found[r].debit) as real / 100.0, Cents(found[r].credit) as real / 100.0,
                                          0.0, false))
  {
    PopulatedRowRoundTrip(found[r]);
  }

  // -----------------------------------------------------------------------
  // Styles

  /** selectUpdateEntryStyle: the cursor cell is highlighted, then an
      error cell, then a modified cell; every other cell is inactive. */
  function SelectUpdateEntryStyle(t: Table, y: int, x: int): (st: Style)
    requires Shaped(t.valid) && Shaped(t.modified) && 0 <= y < MaxEntries && 0 <= x < NumColumns
    ensures st == SelectedStyle <==> t.cursor == Cursor2D(x, y)
    ensures st == ErrorStyle <==> t.cursor != Cursor2D(x, y) && t.valid[y][x] == Error
    ensures st == QuestionStyle <==> t.cursor != Cursor2D(x, y) && t.valid[y][x] != Error && t.modified[y][x]
    ensures st == InactiveStyle <==> t.cursor != Cursor2D(x, y) && t.valid[y][x] != Error && !t.modified[y][x]
  {
    if t.cursor.x == x && t.cursor.y == y then SelectedStyle
    else if t.valid[y][x] == Error then ErrorStyle
    else if t.modified[y][x] then QuestionStyle
    else InactiveStyle
  }

  /** In a consistent grid a cell away from the cursor and free of errors
      is shown with the question style exactly when its text was edited
      away from the stored value. */
  lemma EditedCellsStandOut(t: Table, found: seq<Expense>, entries: seq<Placeholder>, y: nat, x: nat)
    requires TableInv(t, found, entries)
    requires y < |found| && y < MaxEntries && x <= ExpenseCredit
    requires t.cursor != Cursor2D(x, y) && t.valid[y][x] != Error
    ensures SelectUpdateEntryStyle(t, y, x) == QuestionStyle <==> Cell(entries[y], x) != Cell(RowText(found[y]), x)
  {
    FlagMeansEdited(t, found, entries, y, x);
  }

  /** activeViewStyle / activeUpdateViewStyle: the selected style for the
      active view, the text style otherwise. */
  function ActiveViewStyle(activeView: int, view: int): (st: Style)
    ensures st == SelectedStyle <==> view == activeView
    ensures st != SelectedStyle ==> st == TextStyle
  {
    if view == activeView then SelectedStyle else TextStyle
  }
}
