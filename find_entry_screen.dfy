/** find_entry_screen.go: a search form with the matching records listed
    below it. The form works like the one in find_entry_model.go with three
    differences: the month must be an abbreviation, a rejected field keeps
    its flag and the cursor, and once every field has been accepted each
    Enter on the form searches again. The list below can be paged and its
    rows marked. */
module FindEntryScreen {
  import opened Codec
  import opened Schema
  import opened Constants
  import opened Seqs
  import opened Grid
  import opened Tui
  import opened Database

  const SearchView: int := 0
  const EntriesView: int := 1

  /** This file spells its prompt out instead of using default_feedback. */
  const GoBack: string := "Press Ctrl+C to go back."
  const InvalidYear: string := "Invalid year!"
  const InvalidMonth: string := "Invalid month! Format: Jan, Feb, Mar, etc."
  const InvalidDay: string := "Invalid day! Must be between 1 and 31."
  const InvalidAmount: string := "Invalid debit amount!"

  const BlankSearch: Expense := ZeroExpense.(month := Invalid, day := Invalid, year := Invalid,
                                             debit := Invalid as real, credit := Invalid as real)

  datatype State = State(
    fields: seq<string>,
    validated: seq<bool>,
    feedback: string,
    activeView: int,
    searchCursor: int,
    entryToSearch: Expense,
    foundEntries: seq<Expense>,
    selectedEntries: seq<bool>,
    pageIdx: int,
    entriesCursor: int)

  /** What every reachable state satisfies; in particular the list view is
      only ever active while there are results to show. */
  predicate Inv(s: State)
  {
    |s.fields| == NumSearchFields && |s.validated| == NumSearchFields
    && ExpenseYear <= s.searchCursor <= ExpenseCredit
    && (s.activeView == SearchView || s.activeView == EntriesView)
    && |s.selectedEntries| == |s.foundEntries|
    && 0 <= s.pageIdx && 0 <= s.entriesCursor
    && (s.activeView == EntriesView ==> |s.foundEntries| > 0)
  }

  predicate AllValid(validated: seq<bool>)
  {
    forall i :: 0 <= i < |validated| ==> validated[i]
  }

  /** createFindEntryScreenModel. */
  function Create(): (s: State)
    ensures Inv(s) && s.activeView == SearchView && s.foundEntries == []
    ensures forall i :: 0 <= i < NumSearchFields ==> !s.validated[i]
  {
    State(["", "", "", "", "", ""], [false, false, false, false, false, false], GoBack,
          SearchView, ExpenseYear, BlankSearch, [], [], 0, 0)
  }

  function Accept(s: State, e: Expense): (r: State)
    requires Inv(s)
    ensures Inv(r)
  {
    s.(entryToSearch := e, validated := s.validated[s.searchCursor := true],
       searchCursor := if s.searchCursor < ExpenseCredit then s.searchCursor + 1 else s.searchCursor,
       feedback := GoBack)
  }

  /** The field's parser, as this screen applies it to non-blank text:
      months by abbreviation only. */
  predicate Parses(col: int, text: string)
  {
    if col == ExpenseYear then Atoi(text).Some?
    else if col == ExpenseMonth then ParseMonthName(text).Some?
    else if col == ExpenseDay then ParseDay(text).Some?
    else if col == ExpenseDescription then true
    else ParseAmount(text).Some?
  }

  /** Enter on the form's field under the cursor; a rejected field only
      changes the feedback. */
  function EnterField(s: State): (r: State)
    requires Inv(s)
    ensures Inv(r)
  {
    var c := s.searchCursor;
    var text := s.fields[c];
    var e := s.entryToSearch;
    if c == ExpenseYear then
      if text == "" then Accept(s, e.(year := Invalid))
      else match Atoi(text)
        case Some(y) => Accept(s, e.(year := y))
        case None => s.(feedback := InvalidYear)
    else if c == ExpenseMonth then
      if text == "" then Accept(s, e.(month := Invalid))
      else match ParseMonthName(text)
        case Some(m) => Accept(s, e.(month := m))
        case None => s.(feedback := InvalidMonth)
    else if c == ExpenseDay then
      if text == "" then Accept(s, e.(day := Invalid))
      else match ParseDay(text)
        case Some(d) => Accept(s, e.(day := d))
        case None => s.(feedback := InvalidDay)
    else if c == ExpenseDescription then
      Accept(s, e.(description := text))
    else if c == ExpenseDebit then
      if text == "" then Accept(s, e.(debit := Invalid as real))
      else match ParseAmount(text)
        case Some(v) => Accept(s, e.(debit := v))
        case None => s.(feedback := InvalidAmount)
    else
      if text == "" then Accept(s, e.(credit := Invalid as real))
      else match ParseAmount(text)
        case Some(v) => Accept(s, e.(credit := v))
        case None => s.(feedback := InvalidAmount)
  }

  /** Enter on the form that leaves every field accepted searches and
      resets the marks; that needs the collection. */
  predicate IsSearch(s: State, k: Key)
    requires Inv(s)
  {
    k == Enter && s.activeView == SearchView && AllValid(EnterField(s).validated)
  }

  function CursorIndex(s: State): int
  {
    SelectionIndex(s.pageIdx, s.entriesCursor)
  }

  /** The mark a toggle addresses must exist; Go panics otherwise. */
  predicate Ready(s: State, k: Key)
  {
    k == Enter && s.activeView == EntriesView ==> 0 <= CursorIndex(s) < |s.selectedEntries|
  }

  /** The effect of a key other than a search. */
  function Step(s: State, k: Key): (r: State)
    requires Inv(s) && Ready(s, k)
    ensures Inv(r)
  {
    match k
    case Up =>
      if s.activeView == SearchView then
        if s.searchCursor > ExpenseYear then s.(searchCursor := s.searchCursor - 1) else s
      else if s.entriesCursor > 0 then s.(entriesCursor := s.entriesCursor - 1)
      else s.(activeView := SearchView)
    case Down =>
      if s.activeView == SearchView then
        if s.searchCursor < ExpenseCredit then s.(searchCursor := s.searchCursor + 1)
        else if |s.foundEntries| > 0 then s.(activeView := EntriesView)
        else s
      else if s.entriesCursor < NumEntriesOnPage(|s.foundEntries|, s.pageIdx) - 1 then
        s.(entriesCursor := s.entriesCursor + 1)
      else s
    case Left =>
      if s.pageIdx > 0 then s.(pageIdx := s.pageIdx - 1, entriesCursor := 0) else s
    case Right =>
      if s.pageIdx < NumPages(|s.foundEntries|) then s.(pageIdx := s.pageIdx + 1, entriesCursor := 0) else s
    case Backspace =>
      var t := s.fields[s.searchCursor];
      if |t| >= 1 then s.(fields := s.fields[s.searchCursor := t[..|t| - 1]]) else s
    case Enter =>
      if s.activeView == SearchView then EnterField(s)
      else s.(selectedEntries := Toggle(s.selectedEntries, CursorIndex(s)))
    case CtrlC => s
    case _ => s.(fields := s.fields[s.searchCursor := s.fields[s.searchCursor] + KeyText(k)])
  }

  class FindEntryScreenModel {
    var fields: seq<string>
    var validated: seq<bool>
    var feedback: string
    var activeView: int
    var searchCursor: int
    var entryToSearch: Expense
    var foundEntries: seq<Expense>
    var selectedEntries: seq<bool>
    var pageIdx: int
    var entriesCursor: int

    function Snap(): State
      reads this
    {
      State(fields, validated, feedback, activeView, searchCursor, entryToSearch,
            foundEntries, selectedEntries, pageIdx, entriesCursor)
    }

    predicate Valid()
      reads this
    {
      Inv(Snap())
    }

    /** createFindEntryScreenModel. */
    constructor ()
      ensures Valid() && Snap() == Create()
    {
      fields := ["", "", "", "", "", ""];
      validated := [false, false, false, false, false, false];
      feedback := GoBack;
      activeView := SearchView;
      searchCursor := ExpenseYear;
      entryToSearch := BlankSearch;
      foundEntries := [];
      selectedEntries := [];
      pageIdx := 0;
      entriesCursor := 0;
    }

    /** allValid. */
    method AllValidFlags() returns (ok: bool)
      ensures ok <==> AllValid(validated)
    {
      var i := 0;
      while i < |validated|
        invariant 0 <= i <= |validated|
        invariant forall j :: 0 <= j < i ==> validated[j]
      {
        if !validated[i] {
          return false;
        }
        i := i + 1;
      }
      return true;
    }

    /** The field switch of the Enter branch in the search view. */
    method EnterOnField()
      requires Valid()
      modifies this
      ensures Snap() == EnterField(old(Snap()))
    {
      var text := fields[searchCursor];
      if searchCursor == ExpenseYear {
        if text != "" {
          var year := Atoi(text);
          if year.Some? {
            entryToSearch := entryToSearch.(year := year.value);
            validated := validated[searchCursor := true];
            searchCursor := searchCursor + 1;
            feedback := GoBack;
          } else {
            feedback := InvalidYear;
          }
        } else {
          entryToSearch := entryToSearch.(year := Invalid);
          validated := validated[searchCursor := true];
          searchCursor := searchCursor + 1;
          feedback := GoBack;
        }
      } else if searchCursor == ExpenseMonth {
        if text != "" {
          var month := ParseMonthName(text);
          if month.Some? {
            entryToSearch := entryToSearch.(month := month.value);
            validated := validated[searchCursor := true];
            searchCursor := searchCursor + 1;
            feedback := GoBack;
          } else {
            feedback := InvalidMonth;
          }
        } else {
          entryToSearch := entryToSearch.(month := Invalid);
          validated := validated[searchCursor := true];
          searchCursor := searchCursor + 1;
          feedback := GoBack;
        }
      } else if searchCursor == ExpenseDay {
        if text != "" {
          var day := Atoi(text);
          if day.Some? && day.value >= 1 && day.value <= 31 {
            entryToSearch := entryToSearch.(day := day.value);
            validated := validated[searchCursor := true];
            searchCursor := searchCursor + 1;
            feedback := GoBack;
          } else {
            feedback := InvalidDay;
          }
        } else {
          entryToSearch := entryToSearch.(day := Invalid);
          validated := validated[searchCursor := true];
          searchCursor := searchCursor + 1;
          feedback := GoBack;
        }
      } else if searchCursor == ExpenseDescription {
        entryToSearch := entryToSearch.(description := text);
        validated := validated[searchCursor := true];
        searchCursor := searchCursor + 1;
        feedback := GoBack;
      } else if searchCursor == ExpenseDebit {
        if text != "" {
          var val := ParseAmount(text);
          if val.Some? {
            entryToSearch := entryToSearch.(debit := val.value);
            validated := validated[searchCursor := true];
            searchCursor := searchCursor + 1;
            feedback := GoBack;
          } else {
            feedback := InvalidAmount;
          }
        } else {
          entryToSearch := entryToSearch.(debit := Invalid as real);
          validated := validated[searchCursor := true];
          searchCursor := searchCursor + 1;
          feedback := GoBack;
        }
      } else {
        if text != "" {
          var val := ParseAmount(text);
          if val.Some? {
            entryToSearch := entryToSearch.(credit := val.value);
            validated := validated[searchCursor := true];
            feedback := GoBack;
          } else {
            feedback := InvalidAmount;
          }
        } else {
          entryToSearch := entryToSearch.(credit := Invalid as real);
          validated := validated[searchCursor := true];
          feedback := GoBack;
        }
      }
    }

    /** The Enter branch: on the form, check the field and search once all
        six are accepted; on the list, flip the cursor row's mark. */
    method PressEnter(db: Collection)
      requires Valid() && Ready(Snap(), Enter)
      modifies this, db
      ensures Valid()
      ensures !IsSearch(old(Snap()), Enter) ==>
                Snap() == Step(old(Snap()), Enter) && db.docs == old(db.docs) && db.log == old(db.log)
      ensures IsSearch(old(Snap()), Enter) ==>
                var e := EnterField(old(Snap())).entryToSearch;
                db.docs == old(db.docs)
                && foundEntries == Query(db.docs, FilterFor(e))
                && db.log == old(db.log) + [FindCall(FilterFor(e), foundEntries)]
                && Snap() == EnterField(old(Snap())).(foundEntries := foundEntries,
                                                      selectedEntries := AllFalse(|foundEntries|))
    {
      if activeView == SearchView {
        EnterOnForm(db);
      } else {
        var i := SelectionIndex(pageIdx, entriesCursor);
        if !selectedEntries[i] {
          selectedEntries := selectedEntries[i := true];
        } else {
          selectedEntries := selectedEntries[i := false];
        }
      }
    }

    /** Enter on the form: check the field, then search if all six are
        accepted. */
    method EnterOnForm(db: Collection)
      requires Valid() && activeView == SearchView
      modifies this, db
      ensures Valid()
      ensures var r := EnterField(old(Snap()));
              if AllValid(r.validated) then
                db.docs == old(db.docs)
                && foundEntries == Query(db.docs, FilterFor(r.entryToSearch))
                && db.log == old(db.log) + [FindCall(FilterFor(r.entryToSearch), foundEntries)]
                && Snap() == r.(foundEntries := foundEntries, selectedEntries := AllFalse(|foundEntries|))
              else
                Snap() == r && db.docs == old(db.docs) && db.log == old(db.log)
    {
      ghost var r := EnterField(Snap());
      EnterOnField();
      assert Snap() == r && Inv(r);
      var ok := AllValidFlags();
      if ok {
        RunSearch(db);
      }
    }

    /** The search itself: query with the search record and clear every
        mark. */
    method RunSearch(db: Collection)
      requires Valid() && activeView == SearchView
      modifies this, db
      ensures Valid()
      ensures db.docs == old(db.docs)
      ensures foundEntries == Query(db.docs, FilterFor(old(entryToSearch)))
      ensures db.log == old(db.log) + [FindCall(FilterFor(old(entryToSearch)), foundEntries)]
      ensures Snap() == old(Snap()).(foundEntries := foundEntries, selectedEntries := AllFalse(|foundEntries|))
    {
      foundEntries := FindMatchingEntriesInMongo(db, entryToSearch);
      selectedEntries := AllFalse(|foundEntries|);
    }

    /** Update: one key press. A search queries the collection and clears
        every mark; every other key acts as Step says. */
    method Update(k: Key, db: Collection) returns (next: Next)
      requires Valid() && Ready(Snap(), k)
      modifies this, db
      ensures Valid()
      ensures !IsSearch(old(Snap()), k) ==>
                Snap() == Step(old(Snap()), k) && next == (if k == CtrlC then Home else Stay)
                && db.docs == old(db.docs) && db.log == old(db.log)
      ensures IsSearch(old(Snap()), k) ==>
                var e := EnterField(old(Snap())).entryToSearch;
                db.docs == old(db.docs)
                && foundEntries == Query(db.docs, FilterFor(e))
                && db.log == old(db.log) + [FindCall(FilterFor(e), foundEntries)]
                && Snap() == EnterField(old(Snap())).(foundEntries := foundEntries,
                                                      selectedEntries := AllFalse(|foundEntries|))
                && next == Stay
    {
      next := Stay;
      match k {
        case Up =>
          if activeView == SearchView {
            if searchCursor > ExpenseYear {
              searchCursor := searchCursor - 1;
            }
          } else {
            if entriesCursor > 0 {
              entriesCursor := entriesCursor - 1;
            } else {
              activeView := SearchView;
            }
          }
        case Down =>
          if activeView == SearchView {
            if searchCursor < ExpenseCredit {
              searchCursor := searchCursor + 1;
            } else {
              if |foundEntries| > 0 {
                activeView := EntriesView;
              }
            }
          } else {
            var numEntriesOnPage := NumEntriesOnPage(|foundEntries|, pageIdx);
            if entriesCursor < numEntriesOnPage - 1 {
              entriesCursor := entriesCursor + 1;
            }
          }
        case Left =>
          if pageIdx > 0 {
            pageIdx := pageIdx - 1;
            entriesCursor := 0;
          }
        case Right =>
          var numPages := |foundEntries| / NumEntriesPerPage;
          if pageIdx < numPages {
            pageIdx := pageIdx + 1;
            entriesCursor := 0;
          }
        case Backspace =>
          var sz := |fields[searchCursor]|;
          if sz >= 1 {
            fields := fields[searchCursor := fields[searchCursor][..sz - 1]];
          }
        case Enter =>
          PressEnter(db);
        case CtrlC =>
          next := Home;
        case _ =>
          fields := fields[searchCursor := fields[searchCursor] + KeyText(k)];
      }
    }
  }

  /** The query document of findMatchingEntriesInMongo, built by appending
      one criterion per set field. */
  method FindFilter(entry: Expense) returns (filter: Filter)
    ensures filter == FilterFor(entry)
  {
    var filters: seq<Criterion> := [];
    if entry.year != Invalid {
      filters := filters + [YearIs(entry.year)];
    }
    assert filters == YearPart(entry);
    if entry.month != Invalid {
      filters := filters + [MonthIs(entry.month)];
    }
    assert filters == YearPart(entry) + MonthPart(entry);
    if entry.day != Invalid {
      filters := filters + [DayIs(entry.day)];
    }
    assert filters == YearPart(entry) + MonthPart(entry) + DayPart(entry);
    if entry.description != "" {
      filters := filters + [DescriptionContains(entry.description)];
    }
    assert filters == YearPart(entry) + MonthPart(entry) + DayPart(entry) + DescriptionPart(entry);
    if entry.debit != Invalid as real {
      filters := filters + [DebitIs(entry.debit)];
    }
    assert filters == YearPart(entry) + MonthPart(entry) + DayPart(entry) + DescriptionPart(entry) + DebitPart(entry);
    if entry.credit != Invalid as real {
      filters := filters + [CreditIs(entry.credit)];
    }
    assert filters == Criteria(entry);
    filter := MatchAll;
    if |filters| > 0 {
      filter := And(filters);
    }
  }

  /** findMatchingEntriesInMongo: the matching records in storage order. */
  method FindMatchingEntriesInMongo(db: Collection, entry: Expense) returns (expenses: seq<Expense>)
    modifies db
    ensures db.docs == old(db.docs)
    ensures expenses == Query(db.docs, FilterFor(entry))
    ensures db.log == old(db.log) + [FindCall(FilterFor(entry), expenses)]
  {
    var filter := FindFilter(entry);
    expenses := db.Find(filter);
  }

  // -----------------------------------------------------------------------
  // Styles

  /** selectStyle: the cursor field is highlighted, a field not yet
      accepted is shown as an error, the rest are inactive. */
  function SelectStyle(s: State, index: int): (st: Style)
    requires Inv(s) && 0 <= index < NumSearchFields
    ensures st == SelectedStyle <==> index == s.searchCursor
    ensures st == ErrorStyle <==> index != s.searchCursor && !s.validated[index]
    ensures st == SelectedStyle || st == ErrorStyle || st == InactiveStyle
  {
    if s.searchCursor == index then SelectedStyle
    else if !s.validated[index] then ErrorStyle
    else InactiveStyle
  }

  /** selectEntryStyle: the row of the page under the cursor is
      highlighted. */
  function SelectEntryStyle(s: State, index: int): (st: Style)
    ensures st == SelectedStyle <==> index == s.entriesCursor
    ensures st != SelectedStyle ==> st == InactiveStyle
  {
    if s.entriesCursor == index then SelectedStyle else InactiveStyle
  }

  /** activeViewStyle: the marker of the active view is highlighted. */
  function ActiveViewStyle(s: State, view: int): (st: Style)
    ensures st == SelectedStyle <==> view == s.activeView
    ensures st != SelectedStyle ==> st == TextStyle
  {
    if view == s.activeView then SelectedStyle else TextStyle
  }

  // -----------------------------------------------------------------------
  // Properties of the screen

  /** A rejected field changes nothing but the feedback: its flag and the
      cursor stay where they were. */
  lemma RejectChangesOnlyFeedback(s: State)
    requires Inv(s) && s.fields[s.searchCursor] != "" && !Parses(s.searchCursor, s.fields[s.searchCursor])
    ensures EnterField(s) == s.(feedback := EnterField(s).feedback)
    ensures EnterField(s).feedback != GoBack
  {
  }

  /** An accepted field sets its flag, stores the parsed value and moves
      the cursor on unless it is on credit. */
  lemma AcceptStoresValue(s: State)
    requires Inv(s) && (s.fields[s.searchCursor] == "" || Parses(s.searchCursor, s.fields[s.searchCursor]))
    ensures EnterField(s).validated == s.validated[s.searchCursor := true]
    ensures EnterField(s).searchCursor == if s.searchCursor < ExpenseCredit then s.searchCursor + 1 else s.searchCursor
    ensures var t := s.fields[s.searchCursor]; var e := s.entryToSearch;
            EnterField(s).entryToSearch ==
              if s.searchCursor == ExpenseYear then e.(year := if t == "" then Invalid else Atoi(t).value)
              else if s.searchCursor == ExpenseMonth then e.(month := if t == "" then Invalid else ParseMonthName(t).value)
              else if s.searchCursor == ExpenseDay then e.(day := if t == "" then Invalid else ParseDay(t).value)
              else if s.searchCursor == ExpenseDescription then e.(description := t)
              else if s.searchCursor == ExpenseDebit then e.(debit := if t == "" then Invalid as real else ParseAmount(t).value)
              else e.(credit := if t == "" then Invalid as real else ParseAmount(t).value)
  {
  }

  /** Numeric months are refused on this screen: any non-empty text of
      digits in the month field only sets the invalid-month feedback. */
  lemma NumericMonthRejected(s: State)
    requires Inv(s) && s.searchCursor == ExpenseMonth
    requires s.fields[ExpenseMonth] != [] && AllDigits(s.fields[ExpenseMonth])
    ensures EnterField(s) == s.(feedback := InvalidMonth)
  {
    NumberIsNoMonthName(s.fields[ExpenseMonth]);
  }

  /** No key clears an acceptance flag. */
  lemma FlagsNeverCleared(s: State, k: Key, i: int)
    requires Inv(s) && Ready(s, k) && 0 <= i < NumSearchFields && s.validated[i]
    ensures Step(s, k).validated[i]
  {
  }

  /** Once every field has been accepted, every Enter on the form searches
      again, even when the text under the cursor has since become
      unparsable. */
  lemma AllValidKeepsSearching(s: State)
    requires Inv(s) && AllValid(s.validated) && s.activeView == SearchView
    ensures IsSearch(s, Enter)
  {
    assert forall i :: 0 <= i < NumSearchFields ==> EnterField(s).validated[i];
  }

  /** The form searches only after each of the six fields has been
      accepted; a fresh form never searches. */
  lemma {:induction false} FreshFormNeverSearches(k: Key)
    ensures !IsSearch(Create(), k)
  {
    var s := Create();
    assert !EnterField(s).validated[ExpenseMonth];
  }

  /** Up on the first row of the list goes back to the form; Down on the
      credit field goes to the list exactly when there are results. */
  lemma ViewSwitches(s: State)
    requires Inv(s)
    ensures s.activeView == EntriesView && s.entriesCursor == 0 ==> Step(s, Up).activeView == SearchView
    ensures s.activeView == SearchView && s.searchCursor == ExpenseCredit ==>
              (Step(s, Down).activeView == EntriesView <==> |s.foundEntries| > 0)
  {
  }

  /** Enter on the list flips exactly the cursor row's mark. */
  lemma {:induction false} ToggleFlipsOne(s: State)
    requires Inv(s) && s.activeView == EntriesView && Ready(s, Enter)
    ensures Step(s, Enter) == s.(selectedEntries := Step(s, Enter).selectedEntries)
    ensures Step(s, Enter).selectedEntries[CursorIndex(s)] == !s.selectedEntries[CursorIndex(s)]
    ensures forall j :: 0 <= j < |s.selectedEntries| && j != CursorIndex(s) ==>
              Step(s, Enter).selectedEntries[j] == s.selectedEntries[j]
    ensures CountTrue(Step(s, Enter).selectedEntries) ==
              if s.selectedEntries[CursorIndex(s)] then CountTrue(s.selectedEntries) - 1
              else CountTrue(s.selectedEntries) + 1
  {
    ToggleCount(s.selectedEntries, CursorIndex(s));
  }

  /** After a search no field shows an error, and nothing is marked. */
  lemma {:induction false} SearchShowsNoErrors(s: State, k: Key, found: seq<Expense>, i: int)
    requires Inv(s) && IsSearch(s, k) && 0 <= i < NumSearchFields
    ensures var r := EnterField(s).(foundEntries := found, selectedEntries := AllFalse(|found|));
            Inv(r) && SelectStyle(r, i) != ErrorStyle && CountTrue(r.selectedEntries) == 0
  {
    CountAllFalse(|found|);
    assert EnterField(s).validated[i];
  }
}
