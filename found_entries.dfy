/** found_entries_model.go: the result screen shared by the delete and the
    edit actions. Its action text decides the mode: "delete" pages through
    the rows and deletes the marked ones; any other text drives the edit
    grid, and "edit" also lets keys edit the cells.

    The screen's state is the class FoundEntriesModel; State is a snapshot
    of its fields, and Step states what every key other than the commit
    does to it. */
module FoundEntries {
  import opened Codec
  import opened Schema
  import opened Constants
  import opened Seqs
  import opened Cells
  import opened Grid
  import opened Tui
  import opened Database
  import opened EditTable
  import Mongo

  const EntriesView: int := 0
  const ActionView: int := 1
  const NumViews: int := 2

  datatype State = State(
    entryToSearch: Expense,
    activeView: int,
    feedback: string,
    foundEntries: seq<Expense>,
    entries: seq<Placeholder>,
    selectedEntries: seq<bool>,
    pageIdx: int,
    entriesCursor: int,
    actionText: string,
    table: Table,
    promptText: string)

  predicate Deleting(s: State)
  {
    s.actionText == "delete"
  }

  /** Cell edits are taken only when the action text is "edit". */
  predicate Editing(s: State)
  {
    s.actionText == "edit"
  }

  /** What every reachable state satisfies. Besides the shapes: the delete
      mode never touches the grid or the text rows, and the edit mode never
      moves the page or the row cursor from 0. */
  predicate Inv(s: State)
  {
    |s.selectedEntries| == |s.foundEntries| && 0 <= s.activeView < NumViews
    && 0 <= s.pageIdx && 0 <= s.entriesCursor
    && TableInv(s.table, s.foundEntries, s.entries)
    && (Deleting(s) ==> s.table == BlankTable && s.entries == RowsText(s.foundEntries))
    && (!Deleting(s) ==> s.pageIdx == 0 && s.entriesCursor == 0)
  }

  /** createFoundEntriesModel followed by populateEntries. */
  function Create(found: seq<Expense>, actionText: string, search: Expense): (s: State)
    ensures Inv(s) && s.entries == RowsText(found) && CountTrue(s.selectedEntries) == 0
  {
    CountAllFalse(|found|);
    PopulatedTableTracks(found);
    State(search, EntriesView, DefaultFeedback, found, RowsText(found), AllFalse(|found|), 0, 0,
          actionText, BlankTable, DefaultFeedback)
  }

  /** Keys that reach the default case. */
  predicate IsTyping(k: Key)
  {
    k.Char? || k == ShiftTab || k == Q
  }

  /** Enter in the action view commits, in either mode. */
  predicate IsCommit(s: State, k: Key)
  {
    k == Enter && s.activeView != EntriesView
  }

  /** What Go needs to index in range: the flag a toggle addresses, the
      cursor row an edit writes, and at most ten rows for the validation
      pass of the edit commit. */
  predicate Ready(s: State, k: Key)
  {
    (k == X && s.activeView == EntriesView ==>
       0 <= SelectionIndex(s.pageIdx, s.entriesCursor) < |s.selectedEntries|)
    && (k == Enter && s.activeView == EntriesView && Deleting(s) ==>
          0 <= SelectionIndex(s.pageIdx, s.entriesCursor) < |s.selectedEntries|)
    && (k == Enter && s.activeView == EntriesView && !Deleting(s) && s.table.cursor.x == SelectedColumn ==>
          0 <= SelectionIndex(s.pageIdx, s.table.cursor.y) < |s.selectedEntries|)
    && (Editing(s) && (k == Backspace || IsTyping(k)) ==> 0 <= s.table.cursor.y < |s.entries|)
    && (IsCommit(s, k) && !Deleting(s) ==> |s.foundEntries| <= MaxEntries)
  }

  function MoveCursor(s: State, c: Cursor2D): State
  {
    s.(table := s.table.(cursor := c))
  }

  /** The lengths and bounds that Step needs to stay within range; every
      state that satisfies Inv has them. */
  predicate Shape(s: State)
  {
    |s.selectedEntries| == |s.foundEntries| && |s.entries| == |s.foundEntries|
    && |s.table.modified| == MaxEntries && s.table.cursor.y < MaxEntries
  }

  /** Where Retype may write: the cursor is on a result row. */
  predicate OnResultRow(s: State)
  {
    Shape(s) && 0 <= s.table.cursor.y < |s.entries|
  }

  /** The cursor row's text becomes p and its modified flags are
      recomputed. */
  function Retype(s: State, p: Placeholder): State
    requires OnResultRow(s)
  {
    var y := s.table.cursor.y;
    s.(entries := s.entries[y := p], table := Remark(s.table, y, s.foundEntries[y], p))
  }

  /** Retyping a result row keeps the grid consistent. */
  lemma RetypeKeepsInv(s: State, p: Placeholder)
    requires Inv(s) && Editing(s) && OnResultRow(s)
    ensures Inv(Retype(s, p))
  {
    RemarkTracks(s.table, s.foundEntries, s.entries, s.table.cursor.y, p);
  }


  /** The effect of a key other than the commit in the delete mode. */
  function DeleteStep(s: State, k: Key): (r: State)
    requires Shape(s) && Deleting(s) && Ready(s, k) && !IsCommit(s, k)
    ensures Shape(r) && r.actionText == s.actionText
  {
    match k
    case Up =>
      if s.activeView == EntriesView && s.entriesCursor > 0 then s.(entriesCursor := s.entriesCursor - 1) else s
    case Down =>
      if s.activeView == EntriesView && s.entriesCursor < NumEntriesOnPage(|s.foundEntries|, s.pageIdx) - 1
      then s.(entriesCursor := s.entriesCursor + 1) else s
    case Left =>
      if s.pageIdx > 0 then s.(pageIdx := s.pageIdx - 1, entriesCursor := 0) else s
    case Right =>
      if s.pageIdx < NumPages(|s.foundEntries|) then s.(pageIdx := s.pageIdx + 1, entriesCursor := 0) else s
    case Tab => s.(activeView := (s.activeView + 1) % NumViews)
    case X =>
      if s.activeView == EntriesView
      then s.(selectedEntries := Toggle(s.selectedEntries, SelectionIndex(s.pageIdx, s.entriesCursor)))
      else s
    case Enter => s.(selectedEntries := Toggle(s.selectedEntries, SelectionIndex(s.pageIdx, s.entriesCursor)))
    case _ => s
  }

  /** The effect of a key other than the commit in the edit mode. */
  function EditStep(s: State, k: Key): (r: State)
    requires Shape(s) && !Deleting(s) && Ready(s, k) && !IsCommit(s, k)
    ensures Shape(r) && r.actionText == s.actionText
  {
    var c := s.table.cursor;
    match k
    case Up => if s.activeView == EntriesView then MoveCursor(s, CursorUp(c)) else s
    case Down =>
      if s.activeView == EntriesView then MoveCursor(s, CursorDown(c, |s.foundEntries|, s.pageIdx)) else s
    case Left => MoveCursor(s, CursorLeft(c))
    case Right => MoveCursor(s, CursorRight(c))
    case Backspace => if Editing(s) then Retype(s, EraseFrom(s.entries[c.y], c.x)) else s
    case Tab => s.(activeView := (s.activeView + 1) % NumViews)
    case X =>
      if s.activeView == EntriesView
      then s.(selectedEntries := Toggle(s.selectedEntries, SelectionIndex(s.pageIdx, s.entriesCursor)))
      else s
    case Enter =>
      if c.x == SelectedColumn
      then s.(selectedEntries := Toggle(s.selectedEntries, SelectionIndex(s.pageIdx, c.y)))
      else s
    case CtrlC => s
    case _ => if Editing(s) then Retype(s, TypeInto(s.entries[c.y], c.x, KeyText(k))) else s
  }

  /** The effect of a key other than the commit. */
  function Step(s: State, k: Key): (r: State)
    requires Shape(s) && Ready(s, k) && !IsCommit(s, k)
    ensures Shape(r)
    ensures r.foundEntries == s.foundEntries && r.entryToSearch == s.entryToSearch && r.actionText == s.actionText
  {
    if Deleting(s) then DeleteStep(s, k) else EditStep(s, k)
  }

  /** In the delete mode no key other than the commit touches the rows or
      the grid, so the invariant is kept. */
  lemma DeleteStepKeepsInv(s: State, k: Key)
    requires Inv(s) && Deleting(s) && Ready(s, k) && !IsCommit(s, k)
    ensures Inv(DeleteStep(s, k))
  {
  }

  /** In the edit mode every key other than the commit keeps the
      invariant. */
  lemma EditStepKeepsInv(s: State, k: Key)
    requires Inv(s) && !Deleting(s) && Ready(s, k) && !IsCommit(s, k)
    ensures Inv(EditStep(s, k))
  {
    if Editing(s) && k == Backspace {
      RetypeKeepsInv(s, EraseFrom(s.entries[s.table.cursor.y], s.table.cursor.x));
    } else if Editing(s) && IsTyping(k) {
      RetypeKeepsInv(s, TypeInto(s.entries[s.table.cursor.y], s.table.cursor.x, KeyText(k)));
    }
  }

  /** The screen that follows a key other than the commit. */
  function StepNext(k: Key): (n: Next)
    ensures n == Home <==> k == CtrlC
    ensures n != Home ==> n == Stay
  {
    if k == CtrlC then Home else Stay
  }

  // -----------------------------------------------------------------------
  // The two commits

  /** The records the delete commit removes: the marked ones, in order. */
  function MarkedEntries(s: State): seq<Expense>
    requires Inv(s)
  {
    Select(s.foundEntries, s.selectedEntries)
  }

  /** The state after the delete commit, given the refreshed result: all
      flags cleared, entries view, first row, rows rebuilt; the page index
      is left as it was. */
  function AfterDelete(s: State, refreshed: seq<Expense>): (r: State)
    requires Inv(s) && Deleting(s)
    ensures Inv(r) && r.pageIdx == s.pageIdx
  {
    PopulatedTableTracks(refreshed);
    s.(foundEntries := refreshed, selectedEntries := AllFalse(|refreshed|),
       activeView := EntriesView, entriesCursor := 0, entries := RowsText(refreshed))
  }

  /** The fields AfterDelete sets. */
  lemma AfterDeleteFields(s: State, refreshed: seq<Expense>)
    requires Inv(s) && Deleting(s)
    ensures AfterDelete(s, refreshed) ==
              s.(foundEntries := refreshed, selectedEntries := AllFalse(|refreshed|),
                 activeView := EntriesView, entriesCursor := 0, entries := RowsText(refreshed))
  {
  }

  /** entries_being_modified. */
  function Originals(s: State): (r: seq<Expense>)
    requires Inv(s)
    ensures |r| == |Records(s)|
  {
    EditedOriginals(s.foundEntries, s.entries, s.selectedEntries)
  }

  /** filtered_valid_edits. */
  function Records(s: State): seq<Expense>
    requires Inv(s)
  {
    EditedRecords(s.entries, s.selectedEntries)
  }

  predicate Accepted(s: State)
    requires Inv(s) && |s.foundEntries| <= MaxEntries
  {
    EditAccepted(s.table.valid, s.foundEntries, s.entries, s.selectedEntries)
  }

  /** The state once the edit commit's validation pass has written the
      grid. */
  function AfterCheck(s: State): (r: State)
    requires Inv(s) && !Deleting(s) && |s.foundEntries| <= MaxEntries
    ensures Inv(r)
  {
    s.(table := s.table.(valid := EditedGrid(s.table.valid, s.entries)))
  }

  /** A refused edit commit: the error prompt, and back to the grid. */
  function AfterReject(s: State): (r: State)
    requires Inv(s) && !Deleting(s) && |s.foundEntries| <= MaxEntries
    ensures Inv(r)
  {
    AfterCheck(s).(promptText := InvalidPrompt, activeView := InsertTableView)
  }

  // -----------------------------------------------------------------------
  // Styles

  /** selectDeleteEntryStyle: the whole cursor row is highlighted. */
  function SelectDeleteEntryStyle(entriesCursor: int, row: int): (st: Style)
    ensures st == SelectedStyle <==> row == entriesCursor
    ensures st != SelectedStyle ==> st == InactiveStyle
  {
    if entriesCursor == row then SelectedStyle else InactiveStyle
  }

  /** selectEntryStyle: rows in the delete mode, cells in the edit mode. */
  function SelectEntryStyle(s: State, row: int, col: int): (st: Style)
    requires Inv(s) && 0 <= row < MaxEntries && 0 <= col < NumColumns
    ensures Deleting(s) ==> st == SelectDeleteEntryStyle(s.entriesCursor, row)
    ensures !Deleting(s) ==> st == SelectUpdateEntryStyle(s.table, row, col)
  {
    if Deleting(s) then SelectDeleteEntryStyle(s.entriesCursor, row) else SelectUpdateEntryStyle(s.table, row, col)
  }

  class FoundEntriesModel {
    var entryToSearch: Expense
    var activeView: int
    var feedback: string
    var foundEntries: seq<Expense>
    var entries: seq<Placeholder>
    var selectedEntries: seq<bool>
    var pageIdx: int
    var entriesCursor: int
    var actionText: string
    var table: Table
    var promptText: string

    function Snap(): State
      reads this
    {
      State(entryToSearch, activeView, feedback, foundEntries, entries, selectedEntries,
            pageIdx, entriesCursor, actionText, table, promptText)
    }

    predicate Valid()
      reads this
    {
      Inv(Snap())
    }

    /** createFoundEntriesModel. */
    constructor (found: seq<Expense>, action: string, search: Expense)
      ensures Valid() && Snap() == Create(found, action, search)
    {
      entryToSearch := search;
      foundEntries := found;
      selectedEntries := AllFalse(|found|);
      feedback := DefaultFeedback;
      activeView := EntriesView;
      actionText := action;
      promptText := DefaultFeedback;
      pageIdx := 0;
      entriesCursor := 0;
      table := BlankTable;
      entries := [];
      new;
      PopulateEntries();
      assert Snap() == Create(found, action, search);
    }

    /** populateEntries: one text row per result, in order. */
    method PopulateEntries()
      modifies this
      ensures Snap() == old(Snap()).(entries := RowsText(old(foundEntries)))
    {
      var rows := seq(|foundEntries|, _ => EmptyRow);
      var idx := 0;
      while idx < |foundEntries|
        invariant 0 <= idx <= |foundEntries| && |rows| == |foundEntries|
        invariant forall j :: 0 <= j < idx ==> rows[j] == RowText(foundEntries[j])
        invariant forall j :: idx <= j < |rows| ==> rows[j] == EmptyRow
      {
        var entry := foundEntries[idx];
        rows := rows[idx := rows[idx].(year := Itoa(entry.year), month := Itoa(entry.month),
                                       day := Itoa(entry.day), description := entry.description,
                                       debit := Format2(entry.debit), credit := Format2(entry.credit))];
        idx := idx + 1;
      }
      entries := rows;
    }

    /** toggle of one selection flag, as the if/else of the Go code. */
    method ToggleAt(i: int)
      requires 0 <= i < |selectedEntries|
      modifies this
      ensures Snap() == old(Snap()).(selectedEntries := Toggle(old(selectedEntries), i))
    {
      if !selectedEntries[i] {
        selectedEntries := selectedEntries[i := true];
      } else {
        selectedEntries := selectedEntries[i := false];
      }
    }

    /** checkIfEntryModified on the cursor row. */
    method RemarkCursorRow()
      requires 0 <= table.cursor.y < |foundEntries| && table.cursor.y < MaxEntries && |entries| == |foundEntries|
      requires Shaped(table.modified) && !table.modified[table.cursor.y][SelectedColumn]
      modifies this
      ensures Snap() == old(Snap()).(table := Remark(old(table), old(table.cursor.y), old(foundEntries[table.cursor.y]),
                                                    old(entries[table.cursor.y])))
    {
      var y := table.cursor.y;
      var flags := CheckIfEntryModified(table.modified[y], foundEntries[y], entries[y]);
      table := table.(modified := table.modified[y := flags]);
    }

    /** The cursor row's text becomes p, and its flags follow. */
    method RetypeCursorRow(p: Placeholder)
      requires Valid() && 0 <= table.cursor.y < |entries|
      modifies this
      ensures Snap() == Retype(old(Snap()), p)
    {
      var y := table.cursor.y;
      entries := entries[y := p];
      RemarkCursorRow();
    }

    /** A key other than the commit in the delete mode. */
    method PressDelete(k: Key)
      requires Valid() && Deleting(Snap()) && Ready(Snap(), k) && !IsCommit(Snap(), k)
      modifies this
      ensures Snap() == DeleteStep(old(Snap()), k)
    {
      match k {
        case Up =>
          if activeView == EntriesView {
            if entriesCursor > 0 {
              entriesCursor := entriesCursor - 1;
            }
          }
        case Down =>
          if activeView == EntriesView {
            var numEntriesOnPage := NumEntriesOnPage(|foundEntries|, pageIdx);
            if entriesCursor < numEntriesOnPage - 1 {
              entriesCursor := entriesCursor + 1;
            }
          }
        case Left =>
          if pageIdx > 0 {
            pageIdx := pageIdx - 1;
            entriesCursor := 0;
          }
        case Right =>
          var numPages := |foundEntries| / NumEntriesPerPage;
          if pageIdx < numPages {
            pageIdx := pageIdx + 1;
            entriesCursor := 0;
          }
        case Tab =>
          activeView := (activeView + 1) % NumViews;
        case X =>
          if activeView == EntriesView {
            ToggleAt(SelectionIndex(pageIdx, entriesCursor));
          }
        case Enter =>
          ToggleAt(SelectionIndex(pageIdx, entriesCursor));
        case _ =>
      }
    }

    /** up, down, left and right on the grid. */
    method MoveTableCursor(k: Key)
      requires Shape(Snap()) && !Deleting(Snap()) && (k == Up || k == Down || k == Left || k == Right)
      modifies this
      ensures Snap() == EditStep(old(Snap()), k)
    {
      match k {
        case Up =>
          if activeView == EntriesView {
            if table.cursor.y > 0 {
              table := table.(cursor := table.cursor.(y := table.cursor.y - 1));
            }
          }
        case Down =>
          if activeView == EntriesView {
            var numEntriesOnPage := NumEntriesOnPage(|foundEntries|, pageIdx);
            if table.cursor.y < numEntriesOnPage - 1 {
              table := table.(cursor := table.cursor.(y := table.cursor.y + 1));
            }
          }
        case Left =>
          if table.cursor.x > 0 {
            table := table.(cursor := table.cursor.(x := table.cursor.x - 1));
          } else {
            table := table.(cursor := Cursor2D(ExpenseCredit, table.cursor.y - 1));
          }
        case Right =>
          if table.cursor.x < SelectedColumn {
            table := table.(cursor := table.cursor.(x := table.cursor.x + 1));
          } else if table.cursor.y < MaxEntries - 1 {
            table := table.(cursor := Cursor2D(0, table.cursor.y + 1));
          }
        case _ =>
      }
    }

    /** A key other than the commit in the edit mode. */
    method PressEdit(k: Key)
      requires Valid() && !Deleting(Snap()) && Ready(Snap(), k) && !IsCommit(Snap(), k)
      modifies this
      ensures Snap() == EditStep(old(Snap()), k)
    {
      if k == Up || k == Down || k == Left || k == Right {
        MoveTableCursor(k);
      } else {
        match k {
          case Backspace =>
            if actionText == "edit" {
              RetypeCursorRow(EraseFrom(entries[table.cursor.y], table.cursor.x));
            }
          case Tab =>
            activeView := (activeView + 1) % NumViews;
          case X =>
            if activeView == EntriesView {
              ToggleAt(SelectionIndex(pageIdx, entriesCursor));
            }
          case Enter =>
            if table.cursor.x == SelectedColumn {
              ToggleAt(SelectionIndex(pageIdx, table.cursor.y));
            }
          case CtrlC =>
          case ShiftTab | Q | Char(_) =>
            if actionText == "edit" {
              RetypeCursorRow(TypeInto(entries[table.cursor.y], table.cursor.x, KeyText(k)));
            }
          case _ =>
        }
      }
    }

    /** Enter in the action view of the delete mode: delete the marked
        records, search again with the same search record and rebuild the
        rows. */
    method CommitDelete(db: Collection)
      requires Valid() && Deleting(Snap())
      modifies this, db
      ensures Valid()
      ensures db.docs == DeleteAll(old(db.docs), MarkedEntries(old(Snap())))
      ensures foundEntries == Query(db.docs, FilterFor(old(entryToSearch)))
      ensures db.log == old(db.log) + DeleteCalls(MarkedEntries(old(Snap())))
                        + [FindCall(FilterFor(old(entryToSearch)), foundEntries)]
      ensures Snap() == AfterDelete(old(Snap()), foundEntries)
    {
      ghost var s := Snap();
      var selected := RejectUnselectedRows(foundEntries, selectedEntries);
      Mongo.DeleteEntries(db, selected);
      foundEntries := Mongo.FindMatchingEntries(db, entryToSearch);
      selectedEntries := AllFalse(|foundEntries|);
      activeView := EntriesView;
      entriesCursor := 0;
      ghost var t := Snap();
      assert t == s.(foundEntries := foundEntries, selectedEntries := AllFalse(|foundEntries|),
                     activeView := EntriesView, entriesCursor := 0);
      PopulateEntries();
      AfterDeleteFields(s, foundEntries);
    }

    /** The validation pass of the edit commit: the grid gets its error
        marks, and the method hands back the marked originals and their
        edited records, and whether the commit is refused. */
    method CheckEdits() returns (originals: seq<Expense>, edits: seq<Expense>, invalid: bool)
      requires Valid() && !Deleting(Snap()) && |foundEntries| <= MaxEntries
      modifies this
      ensures Snap() == AfterCheck(old(Snap()))
      ensures originals == Originals(old(Snap())) && edits == Records(old(Snap()))
      ensures invalid <==> !Accepted(old(Snap()))
    {
      ghost var s := Snap();
      originals := RejectUnselectedRows(foundEntries, selectedEntries);
      var newValid, validEdits := CheckIfEditedEntriesValid(table.valid, entries);
      table := table.(valid := newValid);
      edits := RejectUnselectedRows(validEdits, selectedEntries);
      var anyInvalid := CheckForInvalidEntries(table.valid, selectedEntries, |foundEntries|);
      invalid := anyInvalid || |edits| == 0;
      assert Snap() == AfterCheck(s);
    }

    /** Enter in the action view of the edit mode: validate the grid, then
        write the marked rows back and leave for the summary screen, or
        refuse and return to the grid with the error prompt. */
    method CommitEdit(db: Collection) returns (next: Next)
      requires Valid() && !Deleting(Snap()) && |foundEntries| <= MaxEntries
      modifies this, db
      ensures Valid()
      ensures Accepted(old(Snap())) ==>
                db.docs == UpdateAll(old(db.docs), Originals(old(Snap())), Records(old(Snap())))
                && db.log == old(db.log) + UpdateCalls(Originals(old(Snap())), Records(old(Snap())))
                && next == PostInsert(Records(old(Snap())))
                && Snap() == AfterCheck(old(Snap()))
      ensures !Accepted(old(Snap())) ==>
                db.docs == old(db.docs) && db.log == old(db.log)
                && next == Stay && Snap() == AfterReject(old(Snap()))
    {
      var entriesBeingModified, filteredValidEdits, invalid := CheckEdits();
      if !invalid {
        Mongo.UpdateEntries(db, entriesBeingModified, filteredValidEdits);
        next := PostInsert(filteredValidEdits);
      } else {
        promptText := InvalidPrompt;
        activeView := InsertTableView;
        next := Stay;
      }
    }

    /** Update: one key press. */
    method Update(k: Key, db: Collection) returns (next: Next)
      requires Valid() && Ready(Snap(), k)
      modifies this, db
      ensures Valid()
      ensures !IsCommit(old(Snap()), k) ==>
                Snap() == Step(old(Snap()), k) && next == StepNext(k)
                && db.docs == old(db.docs) && db.log == old(db.log)
      ensures IsCommit(old(Snap()), k) && Deleting(old(Snap())) ==>
                db.docs == DeleteAll(old(db.docs), MarkedEntries(old(Snap())))
                && foundEntries == Query(db.docs, FilterFor(old(entryToSearch)))
                && db.log == old(db.log) + DeleteCalls(MarkedEntries(old(Snap())))
                             + [FindCall(FilterFor(old(entryToSearch)), foundEntries)]
                && Snap() == AfterDelete(old(Snap()), foundEntries) && next == Stay
      ensures IsCommit(old(Snap()), k) && !Deleting(old(Snap())) && Accepted(old(Snap())) ==>
                db.docs == UpdateAll(old(db.docs), Originals(old(Snap())), Records(old(Snap())))
                && db.log == old(db.log) + UpdateCalls(Originals(old(Snap())), Records(old(Snap())))
                && next == PostInsert(Records(old(Snap())))
                && Snap() == AfterCheck(old(Snap()))
      ensures IsCommit(old(Snap()), k) && !Deleting(old(Snap())) && !Accepted(old(Snap())) ==>
                db.docs == old(db.docs) && db.log == old(db.log)
                && next == Stay && Snap() == AfterReject(old(Snap()))
    {
      if k == Enter && activeView != EntriesView {
        if actionText == "delete" {
          CommitDelete(db);
          next := Stay;
        } else {
          next := CommitEdit(db);
        }
      } else if actionText == "delete" {
        ghost var s := Snap();
        PressDelete(k);
        DeleteStepKeepsInv(s, k);
        next := StepNext(k);
      } else {
        ghost var s := Snap();
        PressEdit(k);
        EditStepKeepsInv(s, k);
        next := StepNext(k);
      }
    }

    /** numSelectedEntries. */
    method NumSelected() returns (numSelected: int)
      ensures numSelected == CountTrue(selectedEntries)
    {
      numSelected := NumSelectedEntries(selectedEntries);
    }
  }

  // -----------------------------------------------------------------------
  // Properties of the screen

  /** In the edit mode Left and Right move the cell cursor and never the
      page; in the delete mode they move the page by one, within
      0..len/10, and put the row cursor on the first row. */
  lemma ArrowsByMode(s: State, k: Key)
    requires Inv(s) && (k == Left || k == Right)
    ensures !Deleting(s) ==> Step(s, k).pageIdx == s.pageIdx
                             && Step(s, k) == MoveCursor(s, Step(s, k).table.cursor)
    ensures Deleting(s) ==> Step(s, k).table == s.table
    ensures Deleting(s) && Step(s, k).pageIdx != s.pageIdx ==>
              Step(s, k).entriesCursor == 0
              && Step(s, k).pageIdx == (if k == Left then s.pageIdx - 1 else s.pageIdx + 1)
    ensures Deleting(s) && s.pageIdx <= NumPages(|s.foundEntries|) ==>
              0 <= Step(s, k).pageIdx <= NumPages(|s.foundEntries|)
  {
  }

  /** Only the "edit" action edits cells: with any other action text,
      typing and Backspace change nothing, and in the delete mode no key
      changes the text rows. */
  lemma TypingOnlyWhenEditing(s: State, k: Key)
    requires Inv(s) && Ready(s, k) && !IsCommit(s, k)
    ensures !Editing(s) && (IsTyping(k) || k == Backspace) ==> Step(s, k) == s
    ensures Deleting(s) ==> Step(s, k).entries == s.entries && Step(s, k).table == s.table
  {
  }

  /** "x" is a key of its own: it is never typed into a cell. In the edit
      mode it flips the first result's flag wherever the cell cursor is,
      because page * 10 + entries_cursor stays 0 there. */
  lemma XIsNeverTyped(s: State)
    requires Inv(s) && Ready(s, X)
    ensures Step(s, X).entries == s.entries
    ensures !Deleting(s) && s.activeView == EntriesView ==>
              Step(s, X) == s.(selectedEntries := Toggle(s.selectedEntries, 0))
  {
  }

  /** In the delete mode "x" and Enter in the entries view flip exactly the
      cursor row's flag, and toggling twice restores the state. */
  lemma {:induction false} DeleteToggle(s: State, k: Key)
    requires Inv(s) && Deleting(s) && Ready(s, k) && (k == X || k == Enter) && s.activeView == EntriesView
    ensures Step(s, k) == s.(selectedEntries := Toggle(s.selectedEntries, SelectionIndex(s.pageIdx, s.entriesCursor)))
    ensures CountTrue(Step(s, k).selectedEntries) ==
              if s.selectedEntries[SelectionIndex(s.pageIdx, s.entriesCursor)] then CountTrue(s.selectedEntries) - 1
              else CountTrue(s.selectedEntries) + 1
    ensures Ready(Step(s, k), k) && Step(Step(s, k), k) == s
  {
    var i := SelectionIndex(s.pageIdx, s.entriesCursor);
    ToggleCount(s.selectedEntries, i);
    ToggleTwice(s.selectedEntries, i);
  }

  /** In the edit mode Enter in the entries view flips the cursor row's
      flag on the Selected column and does nothing elsewhere. */
  lemma EditToggle(s: State)
    requires Inv(s) && !Deleting(s) && Ready(s, Enter) && s.activeView == EntriesView
    ensures s.table.cursor.x == SelectedColumn ==>
              Step(s, Enter) == s.(selectedEntries := Toggle(s.selectedEntries, s.table.cursor.y))
              && Step(Step(s, Enter), Enter) == s
    ensures s.table.cursor.x != SelectedColumn ==> Step(s, Enter) == s
  {
    if s.table.cursor.x == SelectedColumn {
      ToggleTwice(s.selectedEntries, s.table.cursor.y);
    }
  }

  /** Tab alternates between the two views in either mode. */
  lemma TabAlternates(s: State)
    requires Inv(s)
    ensures Step(s, Tab).activeView == 1 - s.activeView
    ensures Step(Step(s, Tab), Tab) == s
  {
  }

  /** After the delete commit nothing is marked and the rows show the
      refreshed result; with unique ids the refreshed result holds exactly
      the stored records that match the search and were not marked. */
  lemma {:induction false} DeleteCommitRefreshes(docs: seq<Expense>, s: State, e: Expense)
    requires Inv(s) && Deleting(s) && UniqueIds(docs)
    ensures var refreshed := Query(DeleteAll(docs, MarkedEntries(s)), FilterFor(s.entryToSearch));
            CountTrue(AfterDelete(s, refreshed).selectedEntries) == 0
            && AfterDelete(s, refreshed).entries == RowsText(refreshed)
            && (e in refreshed <==>
                  e in docs && Matches(FilterFor(s.entryToSearch), e) && e.id !in IdsOf(MarkedEntries(s)))
  {
    var refreshed := Query(DeleteAll(docs, MarkedEntries(s)), FilterFor(s.entryToSearch));
    CountAllFalse(|refreshed|);
    DeleteAllSpec(docs, MarkedEntries(s));
    QueryMembers(DeleteAll(docs, MarkedEntries(s)), FilterFor(s.entryToSearch), e);
    QueryMembers(docs, FilterFor(s.entryToSearch), e);
  }

  /** A refused edit commit keeps every edit and every mark and shows the
      error prompt over the grid. */
  lemma RejectKeepsEdits(s: State)
    requires Inv(s) && !Deleting(s) && |s.foundEntries| <= MaxEntries
    ensures AfterReject(s).entries == s.entries && AfterReject(s).selectedEntries == s.selectedEntries
    ensures AfterReject(s).activeView == EntriesView && AfterReject(s).promptText == InvalidPrompt
  {
  }
}
