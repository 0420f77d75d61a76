/** update_entries_model.go: the screen that lists the records a search
    found as an editable grid, lets the user edit cells and mark rows, and
    writes the marked rows back.

    The screen's state is the class UpdateEntriesModel; State is a snapshot
    of its fields, and Step states what every key other than the commit
    does to it. */
module UpdateEntries {
  import opened Codec
  import opened Schema
  import opened Constants
  import opened Seqs
  import opened Cells
  import opened Grid
  import opened Tui
  import opened Database
  import opened EditTable
  import Mongo

  const EntriesView: int := 0
  const ActionView: int := 1
  const NumViews: int := 2

  datatype State = State(
    entryToSearch: Expense,
    activeView: int,
    feedback: string,
    foundEntries: seq<Expense>,
    entries: seq<Placeholder>,
    selectedEntries: seq<bool>,
    pageIdx: int,
    entriesCursor: int,
    table: Table,
    promptText: string)

  /** What every reachable state satisfies: one text row and one flag per
      result, one of the two views, a consistent grid, and a page index
      and row cursor that no key of this screen ever moves from 0. */
  predicate Inv(s: State)
  {
    |s.selectedEntries| == |s.foundEntries| && 0 <= s.activeView < NumViews
    && s.pageIdx == 0 && s.entriesCursor == 0
    && TableInv(s.table, s.foundEntries, s.entries)
  }

  /** createUpdateEntriesModel followed by populateUpdateEntries. */
  function Create(found: seq<Expense>, search: Expense): (s: State)
    ensures Inv(s) && s.entries == RowsText(found) && CountTrue(s.selectedEntries) == 0
  {
    CountAllFalse(|found|);
    PopulatedTableTracks(found);
    State(search, EntriesView, DefaultFeedback, found, RowsText(found), AllFalse(|found|), 0, 0,
          BlankTable, DefaultFeedback)
  }

  /** Keys that reach the default case and are typed into the cursor cell. */
  predicate IsTyping(k: Key)
  {
    k.Char? || k == ShiftTab || k == Q
  }

  /** Enter in the action view commits the edits. */
  predicate IsCommit(s: State, k: Key)
  {
    k == Enter && s.activeView != EntriesView
  }

  /** What Go needs to index in range: the flag a toggle addresses, the
      cursor row an edit writes, and at most ten rows for the
      validation pass of the commit. */
  predicate Ready(s: State, k: Key)
  {
    (k == X && s.activeView == EntriesView ==>
       0 <= SelectionIndex(s.pageIdx, s.entriesCursor) < |s.selectedEntries|)
    && (k == Enter && s.activeView == EntriesView && s.table.cursor.x == SelectedColumn ==>
          0 <= SelectionIndex(s.pageIdx, s.table.cursor.y) < |s.selectedEntries|)
    && (k == Backspace || IsTyping(k) ==> 0 <= s.table.cursor.y < |s.entries|)
    && (IsCommit(s, k) ==> |s.foundEntries| <= MaxEntries)
  }

  /** The lengths and bounds that Step needs to stay within range; every
      state that satisfies Inv has them. */
  predicate Shape(s: State)
  {
    |s.selectedEntries| == |s.foundEntries| && |s.entries| == |s.foundEntries|
    && |s.table.modified| == MaxEntries && s.table.cursor.y < MaxEntries
  }

  /** Where Retype may write: the cursor is on a result row. */
  predicate OnResultRow(s: State)
  {
    Shape(s) && 0 <= s.table.cursor.y < |s.entries|
  }

  /** The cursor row's text becomes p and its modified flags are
      recomputed. */
  function Retype(s: State, p: Placeholder): State
    requires OnResultRow(s)
  {
    var y := s.table.cursor.y;
    s.(entries := s.entries[y := p], table := Remark(s.table, y, s.foundEntries[y], p))
  }

  /** Retyping a result row keeps the grid consistent. */
  lemma RetypeKeepsInv(s: State, p: Placeholder)
    requires Inv(s) && OnResultRow(s)
    ensures Inv(Retype(s, p))
  {
    RemarkTracks(s.table, s.foundEntries, s.entries, s.table.cursor.y, p);
  }


  function MoveCursor(s: State, c: Cursor2D): State
  {
    s.(table := s.table.(cursor := c))
  }

  /** The effect of a key other than the commit. */
  function Step(s: State, k: Key): (r: State)
    requires Shape(s) && Ready(s, k) && !IsCommit(s, k)
    ensures Shape(r)
    ensures r.foundEntries == s.foundEntries && r.entryToSearch == s.entryToSearch && r.table.valid == s.table.valid
  {
    var c := s.table.cursor;
    match k
    case Up => if s.activeView == EntriesView then MoveCursor(s, CursorUp(c)) else s
    case Down =>
      if s.activeView == EntriesView then MoveCursor(s, CursorDown(c, |s.foundEntries|, s.pageIdx)) else s
    case Left => MoveCursor(s, CursorLeft(c))
    case Right => MoveCursor(s, CursorRight(c))
    case Backspace => Retype(s, EraseFrom(s.entries[c.y], c.x))
    case Tab => s.(activeView := (s.activeView + 1) % NumViews)
    case X =>
      if s.activeView == EntriesView
      then s.(selectedEntries := Toggle(s.selectedEntries, SelectionIndex(s.pageIdx, s.entriesCursor)))
      else s
    case Enter =>
      if c.x == SelectedColumn
      then s.(selectedEntries := Toggle(s.selectedEntries, SelectionIndex(s.pageIdx, c.y)))
      else s
    case CtrlC => s
    case _ => Retype(s, TypeInto(s.entries[c.y], c.x, KeyText(k)))
  }

  /** Every key other than the commit keeps the invariant. */
  lemma StepKeepsInv(s: State, k: Key)
    requires Inv(s) && Ready(s, k) && !IsCommit(s, k)
    ensures Inv(Step(s, k))
  {
    if k == Backspace {
      RetypeKeepsInv(s, EraseFrom(s.entries[s.table.cursor.y], s.table.cursor.x));
    } else if IsTyping(k) {
      RetypeKeepsInv(s, TypeInto(s.entries[s.table.cursor.y], s.table.cursor.x, KeyText(k)));
    }
  }

  /** The screen that follows a key other than the commit. */
  function StepNext(k: Key): (n: Next)
    ensures n == Home <==> k == CtrlC
    ensures n != Home ==> n == Stay
  {
    if k == CtrlC then Home else Stay
  }

  /** entries_being_modified. */
  function Originals(s: State): (r: seq<Expense>)
    requires Inv(s)
    ensures |r| == |Records(s)|
  {
    EditedOriginals(s.foundEntries, s.entries, s.selectedEntries)
  }

  /** filtered_valid_edits. */
  function Records(s: State): seq<Expense>
    requires Inv(s)
  {
    EditedRecords(s.entries, s.selectedEntries)
  }

  predicate Accepted(s: State)
    requires Inv(s) && |s.foundEntries| <= MaxEntries
  {
    EditAccepted(s.table.valid, s.foundEntries, s.entries, s.selectedEntries)
  }

  /** The state once the commit's validation pass has written the grid. */
  function AfterCheck(s: State): (r: State)
    requires Inv(s) && |s.foundEntries| <= MaxEntries
    ensures Inv(r)
  {
    s.(table := s.table.(valid := EditedGrid(s.table.valid, s.entries)))
  }

  /** A refused commit: the error prompt, and back to the grid. */
  function AfterReject(s: State): (r: State)
    requires Inv(s) && |s.foundEntries| <= MaxEntries
    ensures Inv(r)
  {
    AfterCheck(s).(promptText := InvalidPrompt, activeView := InsertTableView)
  }

  class UpdateEntriesModel {
    var entryToSearch: Expense
    var activeView: int
    var feedback: string
    var foundEntries: seq<Expense>
    var entries: seq<Placeholder>
    var selectedEntries: seq<bool>
    var pageIdx: int
    var entriesCursor: int
    var table: Table
    var promptText: string

    function Snap(): State
      reads this
    {
      State(entryToSearch, activeView, feedback, foundEntries, entries, selectedEntries,
            pageIdx, entriesCursor, table, promptText)
    }

    predicate Valid()
      reads this
    {
      Inv(Snap())
    }

    /** createUpdateEntriesModel. */
    constructor (found: seq<Expense>, search: Expense)
      ensures Valid() && Snap() == Create(found, search)
    {
      entryToSearch := search;
      foundEntries := found;
      selectedEntries := AllFalse(|found|);
      feedback := DefaultFeedback;
      activeView := EntriesView;
      promptText := DefaultFeedback;
      pageIdx := 0;
      entriesCursor := 0;
      table := BlankTable;
      entries := [];
      new;
      PopulateUpdateEntries();
      assert Snap() == Create(found, search);
    }

    /** populateUpdateEntries: one text row per result, in order. */
    method PopulateUpdateEntries()
      modifies this
      ensures Snap() == old(Snap()).(entries := RowsText(old(foundEntries)))
    {
      var rows := seq(|foundEntries|, _ => EmptyRow);
      var idx := 0;
      while idx < |foundEntries|
        invariant 0 <= idx <= |foundEntries| && |rows| == |foundEntries|
        invariant forall j :: 0 <= j < idx ==> rows[j] == RowText(foundEntries[j])
        invariant forall j :: idx <= j < |rows| ==> rows[j] == EmptyRow
      {
        var entry := foundEntries[idx];
        rows := rows[idx := rows[idx].(year := Itoa(entry.year), month := Itoa(entry.month),
                                       day := Itoa(entry.day), description := entry.description,
                                       debit := Format2(entry.debit), credit := Format2(entry.credit))];
        idx := idx + 1;
      }
      entries := rows;
    }

    /** toggle of one selection flag, as the if/else of the Go code. */
    method ToggleAt(i: int)
      requires 0 <= i < |selectedEntries|
      modifies this
      ensures Snap() == old(Snap()).(selectedEntries := Toggle(old(selectedEntries), i))
    {
      if !selectedEntries[i] {
        selectedEntries := selectedEntries[i := true];
      } else {
        selectedEntries := selectedEntries[i := false];
      }
    }

    /** The cursor row's flags after an edit (checkIfEntryModified on the
        cursor row). */
    method RemarkCursorRow()
      requires 0 <= table.cursor.y < |foundEntries| && table.cursor.y < MaxEntries && |entries| == |foundEntries|
      requires Shaped(table.modified) && !table.modified[table.cursor.y][SelectedColumn]
      modifies this
      ensures Snap() == old(Snap()).(table := Remark(old(table), old(table.cursor.y), old(foundEntries[table.cursor.y]),
                                                    old(entries[table.cursor.y])))
    {
      var y := table.cursor.y;
      var flags := CheckIfEntryModified(table.modified[y], foundEntries[y], entries[y]);
      table := table.(modified := table.modified[y := flags]);
    }

    /** The cursor row's text becomes p, and its flags follow. */
    method RetypeCursorRow(p: Placeholder)
      requires Valid() && 0 <= table.cursor.y < |entries|
      modifies this
      ensures Snap() == Retype(old(Snap()), p)
    {
      var y := table.cursor.y;
      entries := entries[y := p];
      RemarkCursorRow();
    }

    /** up, down, left and right on the grid. */
    method MoveTableCursor(k: Key)
      requires Shape(Snap()) && (k == Up || k == Down || k == Left || k == Right)
      modifies this
      ensures Snap() == Step(old(Snap()), k)
    {
      match k {
        case Up =>
          if activeView == EntriesView {
            if table.cursor.y > 0 {
              table := table.(cursor := table.cursor.(y := table.cursor.y - 1));
            }
          }
        case Down =>
          if activeView == EntriesView {
            var numEntriesOnPage := NumEntriesOnPage(|foundEntries|, pageIdx);
            if table.cursor.y < numEntriesOnPage - 1 {
              table := table.(cursor := table.cursor.(y := table.cursor.y + 1));
            }
          }
        case Left =>
          if table.cursor.x > 0 {
            table := table.(cursor := table.cursor.(x := table.cursor.x - 1));
          } else {
            table := table.(cursor := Cursor2D(ExpenseCredit, table.cursor.y - 1));
          }
        case Right =>
          if table.cursor.x < SelectedColumn {
            table := table.(cursor := table.cursor.(x := table.cursor.x + 1));
          } else if table.cursor.y < MaxEntries - 1 {
            table := table.(cursor := Cursor2D(0, table.cursor.y + 1));
          }
        case _ =>
      }
    }

    /** A key other than the commit. */
    method Press(k: Key)
      requires Valid() && Ready(Snap(), k) && !IsCommit(Snap(), k)
      modifies this
      ensures Snap() == Step(old(Snap()), k)
    {
      if k == Up || k == Down || k == Left || k == Right {
        MoveTableCursor(k);
      } else {
        match k {
          case Backspace =>
            RetypeCursorRow(EraseFrom(entries[table.cursor.y], table.cursor.x));
          case Tab =>
            activeView := (activeView + 1) % NumViews;
          case X =>
            if activeView == EntriesView {
              ToggleAt(SelectionIndex(pageIdx, entriesCursor));
            }
          case Enter =>
            if table.cursor.x == SelectedColumn {
              ToggleAt(SelectionIndex(pageIdx, table.cursor.y));
            }
          case CtrlC =>
          case ShiftTab | Q | Char(_) =>
            RetypeCursorRow(TypeInto(entries[table.cursor.y], table.cursor.x, KeyText(k)));
          case _ =>
        }
      }
    }

    /** The validation pass of the commit: the grid gets its error marks,
        and the method hands back the marked originals and their edited
        records, and whether the commit is refused. */
    method CheckEdits() returns (originals: seq<Expense>, edits: seq<Expense>, invalid: bool)
      requires Valid() && |foundEntries| <= MaxEntries
      modifies this
      ensures Snap() == AfterCheck(old(Snap()))
      ensures originals == Originals(old(Snap())) && edits == Records(old(Snap()))
      ensures invalid <==> !Accepted(old(Snap()))
    {
      ghost var s := Snap();
      originals := RejectUnselectedRows(foundEntries, selectedEntries);
      var newValid, validEdits := CheckIfEditedEntriesValid(table.valid, entries);
      table := table.(valid := newValid);
      edits := RejectUnselectedRows(validEdits, selectedEntries);
      var anyInvalid := CheckForInvalidEntries(table.valid, selectedEntries, |foundEntries|);
      invalid := anyInvalid || |edits| == 0;
      assert Snap() == AfterCheck(s);
    }

    /** Enter in the action view: validate the grid, then write the marked
        rows back and leave for the summary screen, or refuse and return
        to the grid with the error prompt. */
    method Commit(db: Collection) returns (next: Next)
      requires Valid() && activeView != EntriesView && |foundEntries| <= MaxEntries
      modifies this, db
      ensures Valid()
      ensures Accepted(old(Snap())) ==>
                db.docs == UpdateAll(old(db.docs), Originals(old(Snap())), Records(old(Snap())))
                && db.log == old(db.log) + UpdateCalls(Originals(old(Snap())), Records(old(Snap())))
                && next == PostInsert(Records(old(Snap())))
                && Snap() == AfterCheck(old(Snap()))
      ensures !Accepted(old(Snap())) ==>
                db.docs == old(db.docs) && db.log == old(db.log)
                && next == Stay && Snap() == AfterReject(old(Snap()))
    {
      var entriesBeingModified, filteredValidEdits, invalid := CheckEdits();
      if !invalid {
        Mongo.UpdateEntries(db, entriesBeingModified, filteredValidEdits);
        next := PostInsert(filteredValidEdits);
      } else {
        promptText := InvalidPrompt;
        activeView := InsertTableView;
        next := Stay;
      }
    }

    /** Update: one key press. */
    method Update(k: Key, db: Collection) returns (next: Next)
      requires Valid() && Ready(Snap(), k)
      modifies this, db
      ensures Valid()
      ensures !IsCommit(old(Snap()), k) ==>
                Snap() == Step(old(Snap()), k) && next == StepNext(k)
                && db.docs == old(db.docs) && db.log == old(db.log)
      ensures IsCommit(old(Snap()), k) && Accepted(old(Snap())) ==>
                db.docs == UpdateAll(old(db.docs), Originals(old(Snap())), Records(old(Snap())))
                && db.log == old(db.log) + UpdateCalls(Originals(old(Snap())), Records(old(Snap())))
                && next == PostInsert(Records(old(Snap())))
                && Snap() == AfterCheck(old(Snap()))
      ensures IsCommit(old(Snap()), k) && !Accepted(old(Snap())) ==>
                db.docs == old(db.docs) && db.log == old(db.log)
                && next == Stay && Snap() == AfterReject(old(Snap()))
    {
      if k == Enter && activeView != EntriesView {
        next := Commit(db);
      } else {
        ghost var s := Snap();
        Press(k);
        StepKeepsInv(s, k);
        next := StepNext(k);
      }
    }

    /** numUpdateSelectedEntries. */
    method NumUpdateSelectedEntries() returns (numSelected: int)
      ensures numSelected == CountTrue(selectedEntries)
    {
      numSelected := NumSelectedEntries(selectedEntries);
    }
  }

  // -----------------------------------------------------------------------
  // Properties of the screen

  /** Left and Right move the cell cursor only; the page never changes, and
      neither does anything else. */
  lemma ArrowsMoveOnlyTheCursor(s: State, k: Key)
    requires Inv(s) && (k == Left || k == Right || k == Up || k == Down)
    ensures Step(s, k).pageIdx == s.pageIdx
    ensures Step(s, k) == s.(table := s.table.(cursor := Step(s, k).table.cursor))
    ensures k == Right ==> Step(s, k).table.cursor == CursorRight(s.table.cursor)
    ensures k == Left ==> Step(s, k).table.cursor == CursorLeft(s.table.cursor)
  {
  }

  /** Up and Down act only in the entries view, and keep a cursor row that
      is on the page on the page. */
  lemma {:induction false} UpDownInEntriesView(s: State, k: Key)
    requires Inv(s) && (k == Up || k == Down)
    ensures s.activeView != EntriesView ==> Step(s, k) == s
    ensures s.activeView == EntriesView && 0 <= s.table.cursor.y < NumEntriesOnPage(|s.foundEntries|, 0) ==>
              0 <= Step(s, k).table.cursor.y < NumEntriesOnPage(|s.foundEntries|, 0)
  {
    if s.activeView == EntriesView && 0 <= s.table.cursor.y < NumEntriesOnPage(|s.foundEntries|, 0) {
      UpDownStayOnPage(s.table.cursor, |s.foundEntries|, 0);
    }
  }

  /** Left from the first cell of row 0 leaves the grid, after which an
      edit would index row -1: Go panics there, and the model's Ready
      refuses it. */
  lemma LeftFromFirstCellLeavesGrid(s: State, k: Key)
    requires Inv(s) && s.table.cursor == Cursor2D(0, 0) && IsTyping(k)
    ensures Step(s, Left).table.cursor.y == -1
    ensures !Ready(Step(s, Left), k) && !Ready(Step(s, Left), Backspace)
  {
  }

  /** "x" flips the flag of the first result wherever the cell cursor is:
      it addresses page * 10 + entries_cursor, and this screen never moves
      either from 0. Typing "x" therefore never writes an x into a cell. */
  lemma XTogglesFirstRow(s: State)
    requires Inv(s) && s.activeView == EntriesView && Ready(s, X)
    ensures Step(s, X) == s.(selectedEntries := Toggle(s.selectedEntries, 0))
    ensures Step(s, X).entries == s.entries
  {
  }

  /** Enter on the Selected column flips exactly the cursor row's flag and
      moves the number of marked rows by one; doing it twice restores the
      state. Enter on any other column changes nothing. */
  lemma {:induction false} EnterTogglesCursorRow(s: State)
    requires Inv(s) && s.activeView == EntriesView && Ready(s, Enter)
    ensures s.table.cursor.x != SelectedColumn ==> Step(s, Enter) == s
    ensures s.table.cursor.x == SelectedColumn ==>
              var y := s.table.cursor.y;
              Step(s, Enter) == s.(selectedEntries := Toggle(s.selectedEntries, y))
              && CountTrue(Step(s, Enter).selectedEntries) ==
                   (if s.selectedEntries[y] then CountTrue(s.selectedEntries) - 1 else CountTrue(s.selectedEntries) + 1)
              && Ready(Step(s, Enter), Enter) && Step(Step(s, Enter), Enter) == s
  {
    if s.table.cursor.x == SelectedColumn {
      ToggleCount(s.selectedEntries, s.table.cursor.y);
      ToggleTwice(s.selectedEntries, s.table.cursor.y);
    }
  }

  /** Tab alternates between the two views. */
  lemma TabAlternates(s: State)
    requires Inv(s)
    ensures Step(s, Tab).activeView == 1 - s.activeView
    ensures Step(Step(s, Tab), Tab) == s
  {
  }

  /** The cursor row's flags are the diff of its text against its record. */
  predicate RowTracked(s: State)
    requires OnResultRow(s)
  {
    s.table.modified[s.table.cursor.y] == ModifiedFlags(s.foundEntries[s.table.cursor.y], s.entries[s.table.cursor.y])
  }

  lemma CursorRowTracked(s: State)
    requires Inv(s) && OnResultRow(s)
    ensures RowTracked(s)
  {
  }

  /** What a character key does: the cursor row gets its text typed into
      the cursor cell. */
  lemma CharStep(s: State, t: string)
    requires Shape(s) && Ready(s, Char(t))
    ensures Step(s, Char(t)) == Retype(s, TypeInto(s.entries[s.table.cursor.y], s.table.cursor.x, t))
  {
  }

  /** shift+tab and "q" are typed like any other text. */
  lemma NamedKeyStep(s: State, k: Key)
    requires Shape(s) && Ready(s, k) && (k == ShiftTab || k == Q)
    ensures Step(s, k) == Retype(s, TypeInto(s.entries[s.table.cursor.y], s.table.cursor.x, KeyText(k)))
  {
  }

  /** What a typing key does: the cursor row gets the key text typed into
      its cursor cell. */
  lemma TypingStep(s: State, k: Key)
    requires Shape(s) && Ready(s, k) && IsTyping(k)
    ensures Step(s, k) == Retype(s, TypeInto(s.entries[s.table.cursor.y], s.table.cursor.x, KeyText(k)))
  {
    if k.Char? {
      CharStep(s, k.text);
    } else {
      NamedKeyStep(s, k);
    }
  }

  /** What Backspace does: the cursor row loses the last character of its
      cursor cell. */
  lemma BackspaceStep(s: State)
    requires Shape(s) && Ready(s, Backspace)
    ensures Step(s, Backspace) == Retype(s, EraseFrom(s.entries[s.table.cursor.y], s.table.cursor.x))
  {
  }

  /** Retype changes the cursor row's text and flags and nothing else. */
  lemma RetypeFrame(s: State, p: Placeholder)
    requires OnResultRow(s)
    ensures Retype(s, p).entries == s.entries[s.table.cursor.y := p]
    ensures Retype(s, p).selectedEntries == s.selectedEntries && Retype(s, p).table.cursor == s.table.cursor
  {
  }

  /** Retyping the cursor row twice is retyping it once with the second
      text. */
  lemma RetypeTwice(s: State, p: Placeholder, q: Placeholder)
    requires OnResultRow(s)
    ensures Retype(Retype(s, p), q) == Retype(s, q)
  {
    var y := s.table.cursor.y;
    assert s.entries[y := p][y := q] == s.entries[y := q];
    assert s.table.modified[y := ModifiedFlags(s.foundEntries[y], p)][y := ModifiedFlags(s.foundEntries[y], q)]
        == s.table.modified[y := ModifiedFlags(s.foundEntries[y], q)];
  }

  /** Retyping the cursor row with its own text changes nothing when its
      flags already track it. */
  lemma RetypeSame(s: State)
    requires OnResultRow(s) && RowTracked(s)
    ensures Retype(s, s.entries[s.table.cursor.y]) == s
  {
    var y := s.table.cursor.y;
    assert s.entries[y := s.entries[y]] == s.entries;
    assert s.table.modified[y := s.table.modified[y]] == s.table.modified;
  }

  /** Typing appends the key text to the cursor cell while it is shorter
      than its width and changes no other cell; the modified flags of the
      row are recomputed, so they still track every edit. */
  lemma {:induction false} TypingEditsOneCell(s: State, k: Key)
    requires Inv(s) && Ready(s, k) && IsTyping(k)
    ensures var y, x := s.table.cursor.y, s.table.cursor.x;
            var r := Step(s, k);
            |r.entries| == |s.entries|
            && (forall j :: 0 <= j < |s.entries| && j != y ==> r.entries[j] == s.entries[j])
            && (x <= ExpenseCredit && |Cell(s.entries[y], x)| < Width(x) ==>
                  Cell(r.entries[y], x) == Cell(s.entries[y], x) + KeyText(k))
            && (forall c :: 0 <= c <= ExpenseCredit && c != x ==> Cell(r.entries[y], c) == Cell(s.entries[y], c))
            && (x == SelectedColumn || (x <= ExpenseCredit && |Cell(s.entries[y], x)| >= Width(x)) ==> r == s)
            && r.selectedEntries == s.selectedEntries && r.table.cursor == s.table.cursor
  {
    var y, x := s.table.cursor.y, s.table.cursor.x;
    var p := TypeInto(s.entries[y], x, KeyText(k));
    TypingStep(s, k);
    RetypeFrame(s, p);
    if p == s.entries[y] {
      CursorRowTracked(s);
      RetypeSame(s);
    }
  }

  /** Backspace on a blank cell, or on the Selected column, changes
      nothing. */
  lemma {:induction false} BackspaceOnBlankCell(s: State)
    requires Inv(s) && Ready(s, Backspace)
    requires s.table.cursor.x == SelectedColumn || Cell(s.entries[s.table.cursor.y], s.table.cursor.x) == ""
    ensures Step(s, Backspace) == s
  {
    EraseBlankCell(s.entries[s.table.cursor.y], s.table.cursor.x);
    BackspaceStep(s);
    CursorRowTracked(s);
    RetypeSame(s);
  }

  /** Typing a character and erasing it on a row whose flags track it. */
  lemma {:induction false} TypeThenErase(s: State, c: char)
    requires Shape(s) && Ready(s, Char([c])) && RowTracked(s)
    requires 0 <= s.table.cursor.x <= ExpenseCredit
    requires |Cell(s.entries[s.table.cursor.y], s.table.cursor.x)| < Width(s.table.cursor.x)
    ensures Ready(Step(s, Char([c])), Backspace)
    ensures Step(Step(s, Char([c])), Backspace) == s
  {
    var y, x := s.table.cursor.y, s.table.cursor.x;
    var typed := TypeInto(s.entries[y], x, [c]);
    CharStep(s, [c]);
    var r := Step(s, Char([c]));
    RetypeFrame(s, typed);
    BackspaceStep(r);
    EraseUndoesType(s.entries[y], x, c);
    assert EraseFrom(r.entries[y], x) == s.entries[y];
    RetypeTwice(s, typed, s.entries[y]);
    RetypeSame(s);
  }

  /** Typing one character and erasing it gives the state back, modified
      flags included. */
  lemma {:induction false} BackspaceUndoesTyping(s: State, c: char)
    requires Inv(s) && Ready(s, Char([c]))
    requires s.table.cursor.x <= ExpenseCredit
    requires |Cell(s.entries[s.table.cursor.y], s.table.cursor.x)| < Width(s.table.cursor.x)
    ensures Ready(Step(s, Char([c])), Backspace)
    ensures Step(Step(s, Char([c])), Backspace) == s
  {
    CursorRowTracked(s);
    TypeThenErase(s, c);
  }

  /** A refused commit keeps every edit and every mark, shows the error
      prompt and puts the grid view back. */
  lemma RejectKeepsEdits(s: State)
    requires Inv(s) && |s.foundEntries| <= MaxEntries
    ensures AfterReject(s).entries == s.entries && AfterReject(s).selectedEntries == s.selectedEntries
    ensures AfterReject(s).activeView == EntriesView && AfterReject(s).promptText == InvalidPrompt
    ensures AfterReject(s).table.cursor == s.table.cursor && AfterReject(s).table.modified == s.table.modified
  {
  }

  /** An accepted commit writes one record per marked row, and at least
      one; a commit with nothing marked is always refused. */
  lemma {:induction false} AcceptedWritesMarkedRows(s: State)
    requires Inv(s) && |s.foundEntries| <= MaxEntries
    ensures Accepted(s) ==> |Records(s)| == CountTrue(s.selectedEntries) > 0
    ensures CountTrue(s.selectedEntries) == 0 ==> !Accepted(s)
  {
    SelectLength(RowRecords(s.entries), s.selectedEntries);
    assert s.selectedEntries[..|RowRecords(s.entries)|] == s.selectedEntries;
  }
}
