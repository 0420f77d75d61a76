/** delete_entry_model.go: the screen that lists the records a search
    found, lets the user mark some of them and deletes the marked ones.

    The screen's state is the class DeleteEntriesModel; State is a snapshot
    of its fields, and Step states what every key other than the commit
    does to it. */
module DeleteEntry {
  import opened Codec
  import opened Schema
  import opened Constants
  import opened Seqs
  import opened Cells
  import opened Grid
  import opened Tui
  import opened Database
  import Mongo

  const EntriesView: int := 0
  const ActionView: int := 1
  const NumViews: int := 2

  datatype State = State(
    entryToSearch: Expense,
    activeView: int,
    feedback: string,
    foundEntries: seq<Expense>,
    entries: seq<Placeholder>,
    selectedEntries: seq<bool>,
    pageIdx: int,
    entriesCursor: int,
    promptText: string)

  /** What every reachable state satisfies: one text row and one flag per
      result, a view that is one of the two, and a page and cursor that
      never go below zero. */
  predicate Inv(s: State)
  {
    |s.entries| == |s.foundEntries| && |s.selectedEntries| == |s.foundEntries|
    && 0 <= s.activeView < NumViews && 0 <= s.pageIdx && 0 <= s.entriesCursor
  }

  /** createDeleteEntriesModel followed by populateDeleteEntries. */
  function Create(found: seq<Expense>, search: Expense): (s: State)
    ensures Inv(s) && s.entries == RowsText(found) && CountTrue(s.selectedEntries) == 0
  {
    CountAllFalse(|found|);
    State(search, EntriesView, DefaultFeedback, found, RowsText(found), AllFalse(|found|), 0, 0, DefaultFeedback)
  }

  /** The flag the cursor row addresses. */
  function CursorIndex(s: State): int
  {
    SelectionIndex(s.pageIdx, s.entriesCursor)
  }

  /** "x" and Enter in the entries view flip the cursor row's flag. */
  predicate Toggles(s: State, k: Key)
  {
    (k == X || k == Enter) && s.activeView == EntriesView
  }

  /** Enter in the action view deletes the marked rows. */
  predicate IsCommit(s: State, k: Key)
  {
    k == Enter && s.activeView == ActionView
  }

  /** The flag a toggle addresses must exist; Go panics otherwise. */
  predicate Ready(s: State, k: Key)
  {
    Toggles(s, k) ==> 0 <= CursorIndex(s) < |s.selectedEntries|
  }

  /** The effect of a key other than the commit. */
  function Step(s: State, k: Key): (r: State)
    requires Inv(s) && Ready(s, k) && !IsCommit(s, k)
    ensures Inv(r)
    ensures r.foundEntries == s.foundEntries && r.entries == s.entries && r.entryToSearch == s.entryToSearch
  {
    match k
    case Up =>
      if s.activeView == EntriesView && s.entriesCursor > 0 then s.(entriesCursor := s.entriesCursor - 1) else s
    case Down =>
      if s.activeView == EntriesView && s.entriesCursor < NumEntriesOnPage(|s.foundEntries|, s.pageIdx) - 1
      then s.(entriesCursor := s.entriesCursor + 1) else s
    case Left =>
      if s.pageIdx > 0 then s.(pageIdx := s.pageIdx - 1, entriesCursor := 0) else s
    case Right =>
      if s.pageIdx < NumPages(|s.foundEntries|) then s.(pageIdx := s.pageIdx + 1, entriesCursor := 0) else s
    case Tab => s.(activeView := (s.activeView + 1) % NumViews)
    case X =>
      if s.activeView == EntriesView then s.(selectedEntries := Toggle(s.selectedEntries, CursorIndex(s))) else s
    case Enter => s.(selectedEntries := Toggle(s.selectedEntries, CursorIndex(s)))
    case _ => s
  }

  /** The screen that follows a key other than the commit. */
  function StepNext(k: Key): (n: Next)
    ensures n == Home <==> k == CtrlC
    ensures n != Home ==> n == Stay
  {
    if k == CtrlC then Home else Stay
  }

  /** The records the commit deletes: the marked ones, in list order. */
  function MarkedEntries(s: State): seq<Expense>
    requires Inv(s)
  {
    Select(s.foundEntries, s.selectedEntries)
  }

  /** The state after the commit, given the refreshed search result: all
      flags cleared, entries view, cursor on the first row, rows rebuilt;
      the page index is left as it was. */
  function AfterCommit(s: State, refreshed: seq<Expense>): (r: State)
    ensures Inv(s) ==> Inv(r)
    ensures r.pageIdx == s.pageIdx
  {
    s.(foundEntries := refreshed, selectedEntries := AllFalse(|refreshed|),
       activeView := EntriesView, entriesCursor := 0, entries := RowsText(refreshed))
  }

  class DeleteEntriesModel {
    var entryToSearch: Expense
    var activeView: int
    var feedback: string
    var foundEntries: seq<Expense>
    var entries: seq<Placeholder>
    var selectedEntries: seq<bool>
    var pageIdx: int
    var entriesCursor: int
    var promptText: string

    function Snap(): State
      reads this
    {
      State(entryToSearch, activeView, feedback, foundEntries, entries, selectedEntries,
            pageIdx, entriesCursor, promptText)
    }

    predicate Valid()
      reads this
    {
      Inv(Snap())
    }

    /** createDeleteEntriesModel. */
    constructor (found: seq<Expense>, search: Expense)
      ensures Valid() && Snap() == Create(found, search)
    {
      entryToSearch := search;
      foundEntries := found;
      selectedEntries := AllFalse(|found|);
      feedback := DefaultFeedback;
      activeView := EntriesView;
      promptText := DefaultFeedback;
      pageIdx := 0;
      entriesCursor := 0;
      entries := [];
      new;
      PopulateDeleteEntries();
    }

    /** populateDeleteEntries: one text row per result, in order. */
    method PopulateDeleteEntries()
      modifies this
      ensures Snap() == old(Snap()).(entries := RowsText(old(foundEntries)))
    {
      var rows := seq(|foundEntries|, _ => EmptyRow);
      var idx := 0;
      while idx < |foundEntries|
        invariant 0 <= idx <= |foundEntries| && |rows| == |foundEntries|
        invariant forall j :: 0 <= j < idx ==> rows[j] == RowText(foundEntries[j])
        invariant forall j :: idx <= j < |rows| ==> rows[j] == EmptyRow
      {
        var entry := foundEntries[idx];
        rows := rows[idx := rows[idx].(year := Itoa(entry.year), month := Itoa(entry.month),
                                       day := Itoa(entry.day), description := entry.description,
                                       debit := Format2(entry.debit), credit := Format2(entry.credit))];
        idx := idx + 1;
      }
      entries := rows;
    }

    /** The loop of the commit that collects the marked records. */
    method CollectMarked() returns (selected: seq<Expense>)
      requires Valid()
      ensures selected == MarkedEntries(Snap())
    {
      selected := [];
      var idx := 0;
      while idx < |selectedEntries|
        invariant 0 <= idx <= |selectedEntries|
        invariant selected == Select(foundEntries[..idx], selectedEntries)
      {
        assert foundEntries[..idx + 1][..idx] == foundEntries[..idx];
        if selectedEntries[idx] {
          selected := selected + [foundEntries[idx]];
        }
        idx := idx + 1;
      }
      assert foundEntries[..idx] == foundEntries;
    }

    /** numDeleteSelectedEntries: the number of marked rows. */
    method NumDeleteSelectedEntries() returns (numSelected: int)
      ensures numSelected == CountTrue(selectedEntries)
    {
      numSelected := 0;
      var idx := 0;
      while idx < |selectedEntries|
        invariant 0 <= idx <= |selectedEntries|
        invariant numSelected == CountTrue(selectedEntries[..idx])
      {
        assert selectedEntries[..idx + 1][..idx] == selectedEntries[..idx];
        if selectedEntries[idx] {
          numSelected := numSelected + 1;
        }
        idx := idx + 1;
      }
      assert selectedEntries[..idx] == selectedEntries;
    }

    /** The Enter branch on the action view: delete every marked record,
        search again with the same filter and show the new results. */
    method Commit(db: Collection)
      requires Valid() && activeView == ActionView
      modifies this, db
      ensures Valid()
      ensures db.docs == DeleteAll(old(db.docs), MarkedEntries(old(Snap())))
      ensures foundEntries == Query(db.docs, FilterFor(old(entryToSearch)))
      ensures db.log == old(db.log) + DeleteCalls(MarkedEntries(old(Snap())))
                        + [FindCall(FilterFor(old(entryToSearch)), foundEntries)]
      ensures Snap() == AfterCommit(old(Snap()), foundEntries)
    {
      var selected := CollectMarked();
      Mongo.DeleteEntries(db, selected);
      foundEntries := Mongo.FindMatchingEntries(db, entryToSearch);
      selectedEntries := AllFalse(|foundEntries|);
      activeView := EntriesView;
      entriesCursor := 0;
      PopulateDeleteEntries();
    }

    /** Update: one key press. The commit deletes the marked records,
        searches again with the same search record and resets the
        selection; every other key acts as Step says and leaves the
        collection alone. */
    method Update(k: Key, db: Collection) returns (next: Next)
      requires Valid() && Ready(Snap(), k)
      modifies this, db
      ensures Valid()
      ensures !IsCommit(old(Snap()), k) ==>
                Snap() == Step(old(Snap()), k) && next == StepNext(k)
                && db.docs == old(db.docs) && db.log == old(db.log)
      ensures IsCommit(old(Snap()), k) ==>
                db.docs == DeleteAll(old(db.docs), MarkedEntries(old(Snap())))
                && foundEntries == Query(db.docs, FilterFor(old(entryToSearch)))
                && db.log == old(db.log) + DeleteCalls(MarkedEntries(old(Snap())))
                             + [FindCall(FilterFor(old(entryToSearch)), foundEntries)]
                && Snap() == AfterCommit(old(Snap()), foundEntries)
                && next == Stay
    {
      next := Stay;
      match k {
        case Up =>
          if activeView == EntriesView {
            if entriesCursor > 0 {
              entriesCursor := entriesCursor - 1;
            }
          }
        case Down =>
          if activeView == EntriesView {
            var numEntriesOnPage := NumEntriesOnPage(|foundEntries|, pageIdx);
            if entriesCursor < numEntriesOnPage - 1 {
              entriesCursor := entriesCursor + 1;
            }
          }
        case Left =>
          if pageIdx > 0 {
            pageIdx := pageIdx - 1;
            entriesCursor := 0;
          }
        case Right =>
          var numPages := |foundEntries| / NumEntriesPerPage;
          if pageIdx < numPages {
            pageIdx := pageIdx + 1;
            entriesCursor := 0;
          }
        case Tab =>
          activeView := (activeView + 1) % NumViews;
        case X =>
          if activeView == EntriesView {
            var i := SelectionIndex(pageIdx, entriesCursor);
            if !selectedEntries[i] {
              selectedEntries := selectedEntries[i := true];
            } else {
              selectedEntries := selectedEntries[i := false];
            }
          }
        case Enter =>
          if activeView == EntriesView {
            var i := SelectionIndex(pageIdx, entriesCursor);
            if !selectedEntries[i] {
              selectedEntries := selectedEntries[i := true];
            } else {
              selectedEntries := selectedEntries[i := false];
            }
          } else {
            Commit(db);
          }
        case CtrlC =>
          next := Home;
        case _ =>
      }
    }
  }

  // -----------------------------------------------------------------------
  // Properties of the screen

  /** The cursor row is on the page: either the first row, or a row the
      page really has. */
  predicate CursorOnPage(s: State)
  {
    s.entriesCursor == 0 || s.entriesCursor < NumEntriesOnPage(|s.foundEntries|, s.pageIdx)
  }

  /** Navigation keeps the page index within 0..len/10 and the cursor on
      the page. */
  lemma NavigationStaysInRange(s: State, k: Key)
    requires Inv(s) && Ready(s, k) && !IsCommit(s, k)
    requires s.pageIdx <= NumPages(|s.foundEntries|) && CursorOnPage(s)
    ensures 0 <= Step(s, k).pageIdx <= NumPages(|s.foundEntries|)
    ensures CursorOnPage(Step(s, k))
  {
  }

  /** Page changes happen only on Left and Right, move by one, and put the
      cursor on the first row. */
  lemma PageMovesOnlyByArrows(s: State, k: Key)
    requires Inv(s) && Ready(s, k) && !IsCommit(s, k)
    ensures Step(s, k).pageIdx != s.pageIdx ==>
              ((k == Left && Step(s, k).pageIdx == s.pageIdx - 1) || (k == Right && Step(s, k).pageIdx == s.pageIdx + 1))
              && Step(s, k).entriesCursor == 0
  {
  }

  /** A toggle flips exactly the cursor row's flag and moves the number of
      marked rows by one. */
  lemma {:induction false} ToggleFlipsOne(s: State, k: Key)
    requires Inv(s) && Ready(s, k) && Toggles(s, k)
    ensures Step(s, k).selectedEntries[CursorIndex(s)] == !s.selectedEntries[CursorIndex(s)]
    ensures forall j :: 0 <= j < |s.selectedEntries| && j != CursorIndex(s) ==>
              Step(s, k).selectedEntries[j] == s.selectedEntries[j]
    ensures CountTrue(Step(s, k).selectedEntries) ==
              if s.selectedEntries[CursorIndex(s)] then CountTrue(s.selectedEntries) - 1
              else CountTrue(s.selectedEntries) + 1
    ensures Step(s, k) == s.(selectedEntries := Step(s, k).selectedEntries)
  {
    ToggleCount(s.selectedEntries, CursorIndex(s));
  }

  /** Toggling the same row twice restores the state. */
  lemma ToggleTwiceRestores(s: State, k: Key)
    requires Inv(s) && Ready(s, k) && Toggles(s, k)
    ensures Ready(Step(s, k), k) && Toggles(Step(s, k), k)
    ensures Step(Step(s, k), k) == s
  {
    ToggleTwice(s.selectedEntries, CursorIndex(s));
  }

  /** Tab alternates between the two views. */
  lemma TabAlternates(s: State)
    requires Inv(s)
    ensures Step(s, Tab).activeView == 1 - s.activeView
    ensures Step(Step(s, Tab), Tab) == s
  {
  }

  /** Keys the screen does not handle change nothing. */
  lemma OtherKeysChangeNothing(s: State, k: Key)
    requires Inv(s)
    requires k.Char? || k == Q || k == Backspace || k == ShiftTab || k == CtrlC
    ensures Step(s, k) == s
  {
  }

  /** The toggle index is not kept in range by paging: with ten results,
      Right moves to the empty second page, where "x" would address flag
      10 of 10. */
  lemma RightCanReachEmptyPage(s: State)
    requires Inv(s) && CursorOnPage(s)
    requires |s.foundEntries| == 10 && s.pageIdx == 0 && s.activeView == EntriesView
    ensures Ready(s, X)
    ensures !Ready(Step(s, Right), X)
  {
  }

  /** After the commit nothing is marked and the rows show the refreshed
      result. */
  lemma {:induction false} CommitClearsSelection(s: State, refreshed: seq<Expense>)
    requires Inv(s)
    ensures CountTrue(AfterCommit(s, refreshed).selectedEntries) == 0
    ensures |AfterCommit(s, refreshed).selectedEntries| == |refreshed|
    ensures AfterCommit(s, refreshed).entries == RowsText(refreshed)
  {
    CountAllFalse(|refreshed|);
  }

  /** With unique ids, the refreshed result after a commit holds exactly
      the stored records that match the search and were not marked. */
  lemma {:induction false} CommitRemovesMarked(docs: seq<Expense>, s: State, e: Expense)
    requires Inv(s) && UniqueIds(docs)
    ensures e in Query(DeleteAll(docs, MarkedEntries(s)), FilterFor(s.entryToSearch)) <==>
              e in docs && Matches(FilterFor(s.entryToSearch), e) && e.id !in IdsOf(MarkedEntries(s))
  {
    DeleteAllSpec(docs, MarkedEntries(s));
    QueryMembers(DeleteAll(docs, MarkedEntries(s)), FilterFor(s.entryToSearch), e);
  }
}
