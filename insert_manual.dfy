/** insert_manual_entry.go: a blank table of ten rows in which new records
    are typed, and a confirm view whose Enter validates every cell and, if
    no cell is in error, inserts the rows that hold anything. */
module InsertManual {
  import opened Codec
  import opened Schema
  import opened Constants
  import opened Seqs
  import opened Grid
  import opened Cells
  import opened Tui
  import opened Database
  import Mongo

  const TableView: int := 0
  const ConfirmView: int := 1

  datatype State = State(
    activeView: int,
    cursor: Cursor2D,
    valid: seq<seq<Status>>,
    entries: seq<Placeholder>)

  /** What every reachable state satisfies. The row index has no lower
      bound: Left on the first column of the first row moves to row -1. */
  predicate Inv(s: State)
  {
    (s.activeView == TableView || s.activeView == ConfirmView)
    && 0 <= s.cursor.x <= ExpenseCredit && s.cursor.y < MaxEntries
    && |s.entries| == MaxEntries && |s.valid| == MaxEntries
    && forall r :: 0 <= r < MaxEntries ==> |s.valid[r]| == ExpenseCredit + 1
  }

  const BlankGrid: seq<seq<Status>> := seq(MaxEntries, _ => seq(ExpenseCredit + 1, _ => Inactive))

  /** createManualInsertScreenModel: ten blank rows, every status
      inactive (the zero value). */
  function Create(): (s: State)
    ensures Inv(s) && s.activeView == TableView && s.cursor == Cursor2D(0, 0)
    ensures forall r :: 0 <= r < MaxEntries ==> s.entries[r] == EmptyRow
  {
    State(TableView, Cursor2D(0, 0), BlankGrid, seq(MaxEntries, _ => EmptyRow))
  }

  /** The cell being edited must exist; Go panics on entries[-1]. */
  predicate Ready(s: State, k: Key)
  {
    k == Backspace || k == X || k.Char? ==> 0 <= s.cursor.y
  }

  predicate IsCommit(s: State, k: Key)
  {
    k == Enter && s.activeView == ConfirmView
  }

  /** Right, and Tab in the table: the next column, else the first column
      of the next row, else (on the last cell) the confirm view. */
  function Advance(s: State): (r: State)
    requires Inv(s)
    ensures Inv(r)
  {
    if s.cursor.x < ExpenseCredit then s.(cursor := s.cursor.(x := s.cursor.x + 1))
    else if s.cursor.y < MaxEntries - 1 then s.(cursor := Cursor2D(0, s.cursor.y + 1))
    else s.(activeView := ConfirmView)
  }

  /** Left, and Shift+Tab in the table: the previous column, else the last
      text column of the previous row, with no check on the row. */
  function Retreat(s: State): (r: State)
    requires Inv(s)
    ensures Inv(r)
  {
    if s.cursor.x > 0 then s.(cursor := s.cursor.(x := s.cursor.x - 1))
    else s.(cursor := Cursor2D(ExpenseCredit, s.cursor.y - 1))
  }

  /** The effect of a key other than the commit. */
  function Step(s: State, k: Key): (r: State)
    requires Inv(s) && Ready(s, k) && !IsCommit(s, k)
    ensures Inv(r)
  {
    match k
    case CtrlC => s
    case Q => s
    case Up =>
      if s.activeView == ConfirmView then s.(activeView := TableView)
      else if s.cursor.y > 0 then s.(cursor := s.cursor.(y := s.cursor.y - 1))
      else s
    case Down =>
      if s.cursor.y < MaxEntries - 1 then s.(cursor := s.cursor.(y := s.cursor.y + 1))
      else s.(activeView := ConfirmView)
    case Left => if s.activeView == TableView then Retreat(s) else s
    case Right => if s.activeView == TableView then Advance(s) else s
    case Tab => if s.activeView == TableView then Advance(s) else s.(activeView := TableView)
    case ShiftTab => if s.activeView == TableView then Retreat(s) else s.(activeView := TableView)
    case Backspace =>
      s.(entries := s.entries[s.cursor.y := EraseFrom(s.entries[s.cursor.y], s.cursor.x)])
    case Enter => s.(activeView := ConfirmView)
    case _ =>
      s.(entries := s.entries[s.cursor.y := TypeInto(s.entries[s.cursor.y], s.cursor.x, KeyText(k))])
  }

  function StepNext(k: Key): (n: Next)
    ensures n == Quit <==> k == CtrlC || k == Q
    ensures n != Quit ==> n == Stay
  {
    if k == CtrlC || k == Q then Quit else Stay
  }

  // -----------------------------------------------------------------------
  // The validation pass and the commit

  /** The statuses of one row under the insert rule. */
  function InsertRowStatus(p: Placeholder): (r: seq<Status>)
    ensures |r| == ExpenseCredit + 1 && forall c :: 0 <= c <= ExpenseCredit ==> r[c] == InsertStatus(p, c)
  {
    [InsertStatus(p, 0), InsertStatus(p, 1), InsertStatus(p, 2),
     InsertStatus(p, 3), InsertStatus(p, 4), InsertStatus(p, 5)]
  }

  /** The status grid the pass writes into valid. */
  function ValidationGrid(entries: seq<Placeholder>): (g: seq<seq<Status>>)
    ensures |g| == |entries| && forall r :: 0 <= r < |entries| ==> g[r] == InsertRowStatus(entries[r])
  {
    seq(|entries|, r requires 0 <= r < |entries| => InsertRowStatus(entries[r]))
  }

  /** The loop of insertManualEntriesIntoMongo over the ten rows: the
      statuses written into valid and the checked record of each row. */
  method ValidateEntries(es: seq<Placeholder>) returns (grid: seq<seq<Status>>, records: seq<Expense>)
    requires |es| == MaxEntries
    ensures grid == ValidationGrid(es) && records == RowRecords(es)
  {
    grid := BlankGrid;
    records := [];
    var row := 0;
    while row < MaxEntries
      invariant 0 <= row <= MaxEntries && |grid| == MaxEntries
      invariant forall r :: 0 <= r < row ==> grid[r] == ValidationGrid(es)[r]
      invariant records == RowRecords(es)[..row]
    {
      var entry, statuses := ValidateAndCheckRow(es[row]);
      AgreeStep(grid, ValidationGrid(es), row, statuses);
      grid := grid[row := statuses];
      PrefixSnoc(records, RowRecords(es), entry);
      records := records + [entry];
      row := row + 1;
    }
    assert grid == ValidationGrid(es);
    assert records == RowRecords(es);
  }

  /** Writing the statuses of a validation pass keeps the layout. */
  lemma ValidatedInv(s: State)
    requires Inv(s)
    ensures Inv(s.(valid := ValidationGrid(s.entries)))
  {
  }

  /** Some cell of the grid is in error. */
  predicate HasError(g: seq<seq<Status>>)
  {
    exists r, c :: 0 <= r < |g| && 0 <= c < |g[r]| && g[r][c] == Error
  }

  /** A record with some non-zero number or a description. */
  predicate NonEmpty(e: Expense)
  {
    e.year != 0 || e.month != 0 || e.day != 0 || e.description != "" || e.debit != 0.0 || e.credit != 0.0
  }

  /** filter_empty_rows, as a function on the list. */
  function KeepNonEmpty(entries: seq<Expense>): seq<Expense>
    decreases |entries|
  {
    if entries == [] then []
    else KeepNonEmpty(entries[..|entries| - 1]) + (if NonEmpty(entries[|entries| - 1]) then [entries[|entries| - 1]] else [])
  }

  /** What the commit hands to the insert: the non-empty rows' records. */
  function Committed(entries: seq<Placeholder>): seq<Expense>
  {
    KeepNonEmpty(RowRecords(entries))
  }

  /** One pass of the row loop of insertManualEntriesIntoMongo: the column
      loop, then checkIfEntryIsValid on the parsed record. */
  method ValidateAndCheckRow(p: Placeholder) returns (entry: Expense, statuses: seq<Status>)
    ensures entry == RowExpense(p) && statuses == InsertRowStatus(p)
  {
    entry, statuses := ValidateRow(p);
    entry := CheckIfEntryIsValid(entry);
  }

  /** The column loop of insertManualEntriesIntoMongo for one row. */
  method ValidateRow(p: Placeholder) returns (entry: Expense, statuses: seq<Status>)
    ensures entry == ParsedExpense(p) && statuses == InsertRowStatus(p)
  {
    entry := ZeroExpense;
    statuses := [];
    var col := 0;
    while col < ExpenseCredit + 1
      invariant 0 <= col <= ExpenseCredit + 1
      invariant entry == ParsedPrefix(p, col)
      invariant |statuses| == col && forall c :: 0 <= c < col ==> statuses[c] == InsertStatus(p, c)
    {
      var st;
      entry, st := ValidateCell(p, col, entry);
      statuses := statuses + [st];
      col := col + 1;
    }
  }

  /** One case of the column switch: parse the cell into its field and
      record its status. */
  method ValidateCell(p: Placeholder, col: nat, e: Expense) returns (entry: Expense, st: Status)
    requires col <= ExpenseCredit && e == ParsedPrefix(p, col)
    ensures entry == ParsedPrefix(p, col + 1) && st == InsertStatus(p, col)
  {
    if col == ExpenseYear {
      var year;
      year, st := ValidateYear(p);
      entry := e.(year := year);
    } else if col == ExpenseMonth {
      var month;
      month, st := ValidateMonth(p);
      entry := e.(month := month);
    } else if col == ExpenseDay {
      var day;
      day, st := ValidateDay(p);
      entry := e.(day := day);
    } else if col == ExpenseDescription {
      var description;
      description, st := ValidateDescription(p);
      entry := e.(description := description);
    } else if col == ExpenseDebit {
      var debit;
      debit, st := ValidateInsertDebit(p);
      entry := e.(debit := debit);
    } else {
      var credit;
      credit, st := ValidateInsertCredit(p);
      entry := e.(credit := credit);
    }
  }

  /** filter_empty_rows. */
  method FilterEmptyRows(entries: seq<Expense>) returns (filtered: seq<Expense>)
    ensures filtered == KeepNonEmpty(entries)
  {
    filtered := [];
    var i := 0;
    while i < |entries|
      invariant 0 <= i <= |entries|
      invariant filtered == KeepNonEmpty(entries[..i])
    {
      assert entries[..i + 1][..i] == entries[..i];
      var entry := entries[i];
      var empty := true;
      if entry.year != 0 {
        empty := false;
      } else if entry.month != 0 {
        empty := false;
      } else if entry.day != 0 {
        empty := false;
      } else if entry.description != "" {
        empty := false;
      } else if entry.debit != 0.0 {
        empty := false;
      } else if entry.credit != 0.0 {
        empty := false;
      }
      if !empty {
        filtered := filtered + [entry];
      }
      i := i + 1;
    }
    assert entries[..i] == entries;
  }

  class ManualInsertModel {
    var activeView: int
    var cursor: Cursor2D
    var valid: seq<seq<Status>>
    var entries: seq<Placeholder>

    function Snap(): State
      reads this
    {
      State(activeView, cursor, valid, entries)
    }

    predicate Valid()
      reads this
    {
      Inv(Snap())
    }

    /** createManualInsertScreenModel. */
    constructor ()
      ensures Valid() && Snap() == Create()
    {
      activeView := TableView;
      cursor := Cursor2D(0, 0);
      valid := BlankGrid;
      entries := seq(MaxEntries, _ => EmptyRow);
    }

    /** insertManualEntriesIntoMongo (validation only): writes the status
        of every cell and returns the non-empty rows' records. */
    method InsertManualEntriesIntoMongo() returns (filtered: seq<Expense>)
      requires Valid()
      modifies this
      ensures Valid()
      ensures Snap() == old(Snap()).(valid := ValidationGrid(old(entries)))
      ensures filtered == Committed(entries)
    {
      var grid, records := ValidateEntries(entries);
      ValidatedInv(Snap());
      valid := grid;
      filtered := FilterEmptyRows(records);
    }

    /** The scan of the commit: is any of the 10 x 6 statuses an error? */
    method AnyEntryInvalid() returns (anyEntryInvalid: bool)
      requires Valid()
      ensures anyEntryInvalid <==> HasError(valid)
    {
      anyEntryInvalid := false;
      var y := 0;
      while y < MaxEntries
        invariant 0 <= y <= MaxEntries
        invariant anyEntryInvalid <==> exists r, c :: 0 <= r < y && 0 <= c <= ExpenseCredit && valid[r][c] == Error
      {
        var x := 0;
        while x < ExpenseCredit + 1
          invariant 0 <= x <= ExpenseCredit + 1
          invariant anyEntryInvalid <==>
                      (exists r, c :: 0 <= r < y && 0 <= c <= ExpenseCredit && valid[r][c] == Error)
                      || (exists c :: 0 <= c < x && valid[y][c] == Error)
        {
          if valid[y][x] == Error {
            anyEntryInvalid := true;
            break;
          }
          x := x + 1;
        }
        y := y + 1;
      }
    }

    /** Enter in the confirm view: validate, then insert and leave the
        screen if no cell is in error, else go back to the table. */
    method Commit(db: Collection) returns (next: Next)
      requires Valid() && activeView == ConfirmView
      modifies this, db
      ensures Valid()
      ensures var g := ValidationGrid(old(entries)); var rows := Committed(old(entries));
              if !HasError(g) then
                db.docs == InsertAll(old(db.docs), ValidOnly(rows))
                && db.log == old(db.log) + InsertCalls(ValidOnly(rows))
                && next == PostInsert(rows) && Snap() == old(Snap()).(valid := g)
              else
                db.docs == old(db.docs) && db.log == old(db.log)
                && next == Stay && Snap() == old(Snap()).(valid := g, activeView := TableView)
    {
      var filtered := InsertManualEntriesIntoMongo();
      var anyEntryInvalid := AnyEntryInvalid();
      if !anyEntryInvalid {
        ghost var s := Snap();
        Mongo.InsertEntries(db, filtered);
        assert Snap() == s;
        next := PostInsert(filtered);
      } else {
        activeView := TableView;
        next := Stay;
      }
    }

    /** Update: one key press. */
    method Update(k: Key, db: Collection) returns (next: Next)
      requires Valid() && Ready(Snap(), k)
      modifies this, db
      ensures Valid()
      ensures !IsCommit(old(Snap()), k) ==>
                Snap() == Step(old(Snap()), k) && next == StepNext(k)
                && db.docs == old(db.docs) && db.log == old(db.log)
      ensures IsCommit(old(Snap()), k) ==>
                var g := ValidationGrid(old(entries)); var rows := Committed(old(entries));
                if !HasError(g) then
                  db.docs == InsertAll(old(db.docs), ValidOnly(rows))
                  && db.log == old(db.log) + InsertCalls(ValidOnly(rows))
                  && next == PostInsert(rows) && Snap() == old(Snap()).(valid := g)
                else
                  db.docs == old(db.docs) && db.log == old(db.log)
                  && next == Stay && Snap() == old(Snap()).(valid := g, activeView := TableView)
    {
      next := Stay;
      match k {
        case CtrlC =>
          next := Quit;
        case Q =>
          next := Quit;
        case Up =>
          if activeView == ConfirmView {
            activeView := TableView;
          } else if cursor.y > 0 {
            cursor := cursor.(y := cursor.y - 1);
          }
        case Down =>
          if cursor.y < MaxEntries - 1 {
            cursor := cursor.(y := cursor.y + 1);
          } else {
            activeView := ConfirmView;
          }
        case Left =>
          if activeView == TableView {
            MoveBack();
          }
        case Right =>
          if activeView == TableView {
            MoveForward();
          }
        case Tab =>
          if activeView == TableView {
            MoveForward();
          } else {
            activeView := TableView;
          }
        case ShiftTab =>
          if activeView == TableView {
            MoveBack();
          } else {
            activeView := TableView;
          }
        case Backspace =>
          entries := entries[cursor.y := EraseFrom(entries[cursor.y], cursor.x)];
        case Enter =>
          if activeView == ConfirmView {
            next := Commit(db);
          } else {
            activeView := ConfirmView;
          }
        case _ =>
          entries := entries[cursor.y := TypeInto(entries[cursor.y], cursor.x, KeyText(k))];
      }
    }

    method MoveForward()
      requires Valid()
      modifies this
      ensures Snap() == Advance(old(Snap()))
    {
      if cursor.x < ExpenseCredit {
        cursor := cursor.(x := cursor.x + 1);
      } else if cursor.y < MaxEntries - 1 {
        cursor := cursor.(y := cursor.y + 1);
        cursor := cursor.(x := 0);
      } else {
        activeView := ConfirmView;
      }
    }

    method MoveBack()
      requires Valid()
      modifies this
      ensures Snap() == Retreat(old(Snap()))
    {
      if cursor.x > 0 {
        cursor := cursor.(x := cursor.x - 1);
      } else {
        cursor := cursor.(x := ExpenseCredit);
        cursor := cursor.(y := cursor.y - 1);
      }
    }
  }

  /** styleIfCursorIsHere: the cursor cell is highlighted, else an error
      cell is shown as an error, else the cell is inactive. */
  function StyleIfCursorIsHere(s: State, x: int, y: int): (st: Style)
    requires Inv(s) && 0 <= x <= ExpenseCredit && 0 <= y < MaxEntries
    ensures st == SelectedStyle <==> s.cursor == Cursor2D(x, y)
    ensures st == ErrorStyle <==> s.cursor != Cursor2D(x, y) && s.valid[y][x] == Error
    ensures st == SelectedStyle || st == ErrorStyle || st == InactiveStyle
  {
    if s.cursor.x == x && s.cursor.y == y then SelectedStyle
    else if s.valid[y][x] == Error then ErrorStyle
    else InactiveStyle
  }

  // -----------------------------------------------------------------------
  // Properties of the screen

  /** Right and Tab in the table walk the cells in reading order and leave
      the last cell for the confirm view. */
  lemma AdvanceWalksCells(s: State, k: Key)
    requires Inv(s) && s.activeView == TableView && (k == Right || k == Tab)
    ensures s.cursor.x < ExpenseCredit ==> Step(s, k) == s.(cursor := Cursor2D(s.cursor.x + 1, s.cursor.y))
    ensures s.cursor.x == ExpenseCredit && s.cursor.y < MaxEntries - 1 ==>
              Step(s, k) == s.(cursor := Cursor2D(0, s.cursor.y + 1))
    ensures s.cursor.x == ExpenseCredit && s.cursor.y == MaxEntries - 1 ==>
              Step(s, k) == s.(activeView := ConfirmView)
  {
  }

  /** Up in the confirm view returns to the table with the cursor where it
      was; in the table it stops at the first row. Down on the last row
      enters the confirm view from either view. */
  lemma UpDownViews(s: State)
    requires Inv(s)
    ensures s.activeView == ConfirmView ==> Step(s, Up) == s.(activeView := TableView)
    ensures s.activeView == TableView ==> Step(s, Up).cursor.y == if s.cursor.y > 0 then s.cursor.y - 1 else s.cursor.y
    ensures s.cursor.y == MaxEntries - 1 ==> Step(s, Down) == s.(activeView := ConfirmView)
  {
  }

  /** Left on the first cell leaves the grid: the row becomes -1, where the
      next typed key would index entries[-1]. */
  lemma LeftFromFirstCellLeavesGrid(s: State)
    requires Inv(s) && s.activeView == TableView && s.cursor == Cursor2D(0, 0)
    ensures Step(s, Left).cursor == Cursor2D(ExpenseCredit, -1)
    ensures !Ready(Step(s, Left), Char("1"))
  {
  }

  /** Enter in the table only switches to the confirm view. */
  lemma EnterInTableConfirms(s: State)
    requires Inv(s) && s.activeView == TableView
    ensures Step(s, Enter) == s.(activeView := ConfirmView)
  {
  }

  /** Typing and Backspace change only the cursor cell of the cursor row;
      typing appends while the cell is shorter than its width. */
  lemma {:induction false} EditTouchesOneCell(s: State, k: Key, r: int, c: nat)
    requires Inv(s) && Ready(s, k) && (k == Backspace || k == X || k.Char?)
    requires 0 <= r < MaxEntries && c <= ExpenseCredit && (r, c) != (s.cursor.y, s.cursor.x)
    ensures Cell(Step(s, k).entries[r], c) == Cell(s.entries[r], c)
    ensures Step(s, k).cursor == s.cursor && Step(s, k).valid == s.valid && Step(s, k).activeView == s.activeView
    ensures k != Backspace && |Cell(s.entries[s.cursor.y], s.cursor.x)| < Width(s.cursor.x) ==>
              Cell(Step(s, k).entries[s.cursor.y], s.cursor.x) == Cell(s.entries[s.cursor.y], s.cursor.x) + KeyText(k)
    ensures k == Backspace ==>
              Cell(Step(s, k).entries[s.cursor.y], s.cursor.x) == RemoveLastChar(Cell(s.entries[s.cursor.y], s.cursor.x))
  {
    var p := s.entries[s.cursor.y];
    if k == Backspace {
      assert Step(s, k).entries == s.entries[s.cursor.y := EraseFrom(p, s.cursor.x)];
    } else {
      assert Step(s, k).entries == s.entries[s.cursor.y := TypeInto(p, s.cursor.x, KeyText(k))];
    }
  }

  /** filter_empty_rows keeps exactly the non-empty records. */
  lemma {:induction false} KeepNonEmptyMembers(entries: seq<Expense>, e: Expense)
    ensures e in KeepNonEmpty(entries) <==> e in entries && NonEmpty(e)
    decreases |entries|
  {
    if entries != [] {
      var n := |entries| - 1;
      KeepNonEmptyMembers(entries[..n], e);
      assert entries == entries[..n] + [entries[n]];
    }
  }

  /** ... in their original order: it is the selection by the mask of
      non-empty rows. */
  lemma {:induction false} KeepNonEmptyIsSelect(entries: seq<Expense>)
    ensures KeepNonEmpty(entries) == Select(entries, seq(|entries|, i requires 0 <= i < |entries| => NonEmpty(entries[i])))
    decreases |entries|
  {
    if entries != [] {
      var n := |entries| - 1;
      var mask := seq(|entries|, i requires 0 <= i < |entries| => NonEmpty(entries[i]));
      var prefix := entries[..n];
      var maskPrefix := seq(|prefix|, i requires 0 <= i < |prefix| => NonEmpty(prefix[i]));
      KeepNonEmptyIsSelect(prefix);
      SelectPrefixMask(prefix, maskPrefix, mask);
    }
  }

  /** Select only reads the first |s| flags. */
  lemma {:induction false} SelectPrefixMask<T>(s: seq<T>, m1: seq<bool>, m2: seq<bool>)
    requires |m1| >= |s| && |m2| >= |s|
    requires forall i :: 0 <= i < |s| ==> m1[i] == m2[i]
    ensures Select(s, m1) == Select(s, m2)
    decreases |s|
  {
    if s != [] {
      SelectPrefixMask(s[..|s| - 1], m1, m2);
    }
  }

  lemma {:induction false} KeepNonEmptyOfEmpties(entries: seq<Expense>)
    requires forall i :: 0 <= i < |entries| ==> !NonEmpty(entries[i])
    ensures KeepNonEmpty(entries) == []
    decreases |entries|
  {
    if entries != [] {
      KeepNonEmptyOfEmpties(entries[..|entries| - 1]);
    }
  }

  /** A blank row yields the zero record, which the commit drops. */
  lemma BlankRowIsEmpty(p: Placeholder)
    requires p == EmptyRow
    ensures !NonEmpty(RowExpense(p))
  {
    assert forall m :: 0 <= m < 12 ==> |MonthNames[m]| == 3;
    assert ParseMonthName("").None?;
  }

  /** A committed record is the record of some row, and not the zero one. */
  lemma CommittedRowOf(entries: seq<Placeholder>, e: Expense) returns (r: nat)
    requires e in Committed(entries)
    ensures NonEmpty(e) && r < |entries| && e == RowExpense(entries[r])
  {
    KeepNonEmptyMembers(RowRecords(entries), e);
    r :| 0 <= r < |entries| && RowRecords(entries)[r] == e;
  }

  /** Rows typed by hand carry no id, so a committed insert stores every
      committed record marked valid, in row order, under a fresh id. */
  lemma ManualInsertStoresEveryValidRow(docs: seq<Expense>, entries: seq<Placeholder>)
    ensures var v := ValidOnly(Committed(entries));
            var r := InsertAll(docs, v);
            |r| == |docs| + |v|
            && forall i :: 0 <= i < |v| ==> r[|docs| + i] == v[i].(id := r[|docs| + i].id)
  {
    var rows := Committed(entries);
    forall i | 0 <= i < |rows|
      ensures rows[i].id == 0
    {
      var r := CommittedRowOf(entries, rows[i]);
    }
    InsertValidNew(docs, rows);
  }

  /** A row whose record is not the zero one holds some text. */
  lemma NonEmptyRowNotBlank(p: Placeholder)
    requires NonEmpty(RowExpense(p))
    ensures !IsBlank(p)
  {
    if IsBlank(p) {
      assert p.year == Cell(p, 0) && p.month == Cell(p, 1) && p.day == Cell(p, 2);
      assert p.description == Cell(p, 3) && p.debit == Cell(p, 4) && p.credit == Cell(p, 5);
      BlankRowIsEmpty(p);
    }
  }

  /** A grid without an error cell has none in any row. */
  lemma ErrorFreeGridRow(entries: seq<Placeholder>, r: int)
    requires !HasError(ValidationGrid(entries)) && 0 <= r < |entries|
    ensures forall col :: 0 <= col <= ExpenseCredit ==> InsertStatus(entries[r], col) != Error
  {
    forall col | 0 <= col <= ExpenseCredit
      ensures InsertStatus(entries[r], col) != Error
    {
      assert ValidationGrid(entries)[r][col] == InsertStatus(entries[r], col);
    }
  }

  /** A row whose cells are all filled in and parsed has a real month, day
      and description. */
  lemma CompleteRowFields(p: Placeholder)
    requires forall col :: 0 <= col <= ExpenseCredit ==> Cell(p, col) != "" && CellParses(p, col)
    ensures 1 <= RowExpense(p).month <= 12 && 1 <= RowExpense(p).day <= 31 && RowExpense(p).description != ""
  {
    assert Cell(p, ExpenseMonth) != "" && Cell(p, ExpenseDay) != "" && Cell(p, ExpenseDescription) != "";
    assert CellParses(p, ExpenseMonth) && CellParses(p, ExpenseDay);
  }

  /** Every record the commit inserts comes from a row with every cell
      filled in and parsed: a month 1..12, a day 1..31 and a description. */
  lemma {:induction false} CommittedRecordsComplete(entries: seq<Placeholder>, e: Expense)
    requires !HasError(ValidationGrid(entries))
    requires e in Committed(entries)
    ensures 1 <= e.month <= 12 && 1 <= e.day <= 31 && e.description != ""
    ensures exists r :: 0 <= r < |entries| && e == RowExpense(entries[r])
              && forall col :: 0 <= col <= ExpenseCredit ==> Cell(entries[r], col) != "" && CellParses(entries[r], col)
  {
    var r := CommittedRowOf(entries, e);
    CommittedRowComplete(entries, r);
  }

  /** A row with some text in an error-free grid has every cell filled in
      and parsed. */
  lemma CommittedRowComplete(entries: seq<Placeholder>, r: int)
    requires !HasError(ValidationGrid(entries)) && 0 <= r < |entries|
    requires NonEmpty(RowExpense(entries[r]))
    ensures forall col :: 0 <= col <= ExpenseCredit ==> Cell(entries[r], col) != "" && CellParses(entries[r], col)
    ensures 1 <= RowExpense(entries[r]).month <= 12 && 1 <= RowExpense(entries[r]).day <= 31
    ensures RowExpense(entries[r]).description != ""
  {
    NonEmptyRowNotBlank(entries[r]);
    ErrorFreeGridRow(entries, r);
    InsertErrorFreeRow(entries[r]);
    CompleteRowFields(entries[r]);
  }

  /** A fresh table can be committed and inserts nothing. */
  lemma {:induction false} FreshTableCommitsNothing()
    ensures !HasError(ValidationGrid(Create().entries))
    ensures Committed(Create().entries) == []
  {
    var entries := Create().entries;
    forall r, c | 0 <= r < MaxEntries && 0 <= c <= ExpenseCredit
      ensures ValidationGrid(entries)[r][c] != Error
    {
      BlankRowHasNoError(c);
    }
    forall r | 0 <= r < MaxEntries
      ensures !NonEmpty(RowRecords(entries)[r])
    {
      BlankRowIsEmpty(entries[r]);
    }
    KeepNonEmptyOfEmpties(RowRecords(entries));
  }
}
