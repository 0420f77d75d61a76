/** find_entry_model.go: the search form that precedes the delete and
    update screens. Each of the six fields is checked when Enter is pressed
    on it; once all six are accepted the form searches and hands the result
    to the next screen. */
module FindEntryModel {
  import opened Codec
  import opened Schema
  import opened Constants
  import opened Tui
  import opened Cells
  import opened Database
  import Mongo

  const InvalidYear: string := "Invalid year!"
  const InvalidMonth: string := "Invalid month! Format: Jan, Feb, Mar, etc."
  const InvalidDay: string := "Invalid day! Must be between 1 and 31."
  const InvalidAmount: string := "Invalid debit amount!"

  /** The record searched for before anything is entered: every number is
      the sentinel, the description is empty. */
  const BlankSearch: Expense := ZeroExpense.(month := Invalid, day := Invalid, year := Invalid,
                                             debit := Invalid as real, credit := Invalid as real)

  datatype State = State(
    fields: seq<string>,
    validated: seq<bool>,
    feedback: string,
    searchCursor: int,
    entryToSearch: Expense,
    foundEntries: seq<Expense>,
    actionText: string)

  predicate Inv(s: State)
  {
    |s.fields| == NumSearchFields && |s.validated| == NumSearchFields
    && ExpenseYear <= s.searchCursor <= ExpenseCredit
  }

  predicate AllValid(validated: seq<bool>)
  {
    forall i :: 0 <= i < |validated| ==> validated[i]
  }

  /** createFindEntryModel. */
  function Create(actionText: string): (s: State)
    ensures Inv(s) && forall i :: 0 <= i < NumSearchFields ==> !s.validated[i] && s.fields[i] == ""
  {
    State(["", "", "", "", "", ""], [false, false, false, false, false, false],
          DefaultFeedback, ExpenseYear, BlankSearch, [], actionText)
  }

  /** The field under the cursor was accepted: the parsed value is stored,
      the flag is set, the cursor advances unless it is on the last field,
      and the feedback is reset. */
  function Accept(s: State, e: Expense): (r: State)
    requires Inv(s)
    ensures Inv(r)
  {
    s.(entryToSearch := e, validated := s.validated[s.searchCursor := true],
       searchCursor := if s.searchCursor < ExpenseCredit then s.searchCursor + 1 else s.searchCursor,
       feedback := DefaultFeedback)
  }

  /** The field under the cursor was rejected: the flag is cleared and the
      message shown; nothing else changes. */
  function Reject(s: State, message: string): (r: State)
    requires Inv(s)
    ensures Inv(r)
  {
    s.(validated := s.validated[s.searchCursor := false], feedback := message)
  }

  /** Enter on the field under the cursor. */
  function EnterField(s: State): (r: State)
    requires Inv(s)
    ensures Inv(r)
  {
    var c := s.searchCursor;
    var text := s.fields[c];
    var e := s.entryToSearch;
    if c == ExpenseYear then
      if text == "" then Accept(s, e.(year := Invalid))
      else match Atoi(text)
        case Some(y) => Accept(s, e.(year := y))
        case None => Reject(s, InvalidYear)
    else if c == ExpenseMonth then
      if text == "" then Accept(s, e.(month := Invalid))
      else match ParseMonth(text)
        case Some(m) => Accept(s, e.(month := m))
        case None => Reject(s, InvalidMonth)
    else if c == ExpenseDay then
      if text == "" then Accept(s, e.(day := Invalid))
      else match ParseDay(text)
        case Some(d) => Accept(s, e.(day := d))
        case None => Reject(s, InvalidDay)
    else if c == ExpenseDescription then
      Accept(s, e.(description := text))
    else if c == ExpenseDebit then
      if text == "" then Accept(s, e.(debit := Invalid as real))
      else match ParseAmount(text)
        case Some(v) => Accept(s, e.(debit := v))
        case None => Reject(s, InvalidAmount)
    else
      if text == "" then Accept(s, e.(credit := Invalid as real))
      else match ParseAmount(text)
        case Some(v) => Accept(s, e.(credit := v))
        case None => Reject(s, InvalidAmount)
  }

  /** Enter that leaves every field accepted: the form searches. */
  predicate IsSearch(s: State, k: Key)
    requires Inv(s)
  {
    k == Enter && AllValid(EnterField(s).validated)
  }

  /** The effect of a key on the form (for a search, the form before it is
      left). */
  function Step(s: State, k: Key): (r: State)
    requires Inv(s)
    ensures Inv(r)
    ensures r.actionText == s.actionText && r.foundEntries == s.foundEntries
  {
    match k
    case Up => if s.searchCursor > ExpenseYear then s.(searchCursor := s.searchCursor - 1) else s
    case Down => if s.searchCursor < ExpenseCredit then s.(searchCursor := s.searchCursor + 1) else s
    case Backspace =>
      var t := s.fields[s.searchCursor];
      if |t| >= 1 then s.(fields := s.fields[s.searchCursor := t[..|t| - 1]]) else s
    case Enter => EnterField(s)
    case CtrlC => s
    case _ => s.(fields := s.fields[s.searchCursor := s.fields[s.searchCursor] + KeyText(k)])
  }

  /** The screen a search leads to. */
  function SearchNext(actionText: string, found: seq<Expense>, search: Expense): (n: Next)
    ensures actionText == "delete" <==> n == DeleteEntries(found, search)
    ensures actionText != "delete" <==> n == UpdateEntries(found, search)
  {
    if actionText == "delete" then DeleteEntries(found, search) else UpdateEntries(found, search)
  }

  class FindEntriesModel {
    var fields: seq<string>
    var validated: seq<bool>
    var feedback: string
    var searchCursor: int
    var entryToSearch: Expense
    var foundEntries: seq<Expense>
    var actionText: string

    function Snap(): State
      reads this
    {
      State(fields, validated, feedback, searchCursor, entryToSearch, foundEntries, actionText)
    }

    predicate Valid()
      reads this
    {
      Inv(Snap())
    }

    /** createFindEntryModel. */
    constructor (action: string)
      ensures Valid() && Snap() == Create(action)
    {
      fields := ["", "", "", "", "", ""];
      validated := [false, false, false, false, false, false];
      feedback := DefaultFeedback;
      searchCursor := ExpenseYear;
      entryToSearch := BlankSearch;
      foundEntries := [];
      actionText := action;
    }

    /** allValid: the loop with an early return. */
    method AllValidFlags() returns (ok: bool)
      ensures ok <==> AllValid(validated)
    {
      var i := 0;
      while i < |validated|
        invariant 0 <= i <= |validated|
        invariant forall j :: 0 <= j < i ==> validated[j]
      {
        if !validated[i] {
          return false;
        }
        i := i + 1;
      }
      return true;
    }

    /** The Enter branch's field switch. */
    method EnterOnField()
      requires Valid()
      modifies this
      ensures Snap() == EnterField(old(Snap()))
    {
      var text := fields[searchCursor];
      if searchCursor == ExpenseYear {
        if text != "" {
          var year := Atoi(text);
          if year.Some? {
            entryToSearch := entryToSearch.(year := year.value);
            validated := validated[searchCursor := true];
            searchCursor := searchCursor + 1;
            feedback := DefaultFeedback;
          } else {
            validated := validated[searchCursor := false];
            feedback := InvalidYear;
          }
        } else {
          entryToSearch := entryToSearch.(year := Invalid);
          validated := validated[searchCursor := true];
          searchCursor := searchCursor + 1;
          feedback := DefaultFeedback;
        }
      } else if searchCursor == ExpenseMonth {
        if text != "" {
          var month := ParseMonthName(text);
          if month.Some? {
            entryToSearch := entryToSearch.(month := month.value);
            validated := validated[searchCursor := true];
            searchCursor := searchCursor + 1;
            feedback := DefaultFeedback;
          } else {
            var number := Atoi(text);
            if number.Some? && number.value >= 1 && number.value <= 12 {
              entryToSearch := entryToSearch.(month := number.value);
              validated := validated[searchCursor := true];
              searchCursor := searchCursor + 1;
              feedback := DefaultFeedback;
            } else {
              validated := validated[searchCursor := false];
              feedback := InvalidMonth;
            }
          }
        } else {
          entryToSearch := entryToSearch.(month := Invalid);
          validated := validated[searchCursor := true];
          searchCursor := searchCursor + 1;
          feedback := DefaultFeedback;
        }
      } else if searchCursor == ExpenseDay {
        if text != "" {
          var day := Atoi(text);
          if day.Some? && day.value >= 1 && day.value <= 31 {
            entryToSearch := entryToSearch.(day := day.value);
            validated := validated[searchCursor := true];
            searchCursor := searchCursor + 1;
            feedback := DefaultFeedback;
          } else {
            validated := validated[searchCursor := false];
            feedback := InvalidDay;
          }
        } else {
          entryToSearch := entryToSearch.(day := Invalid);
          validated := validated[searchCursor := true];
          searchCursor := searchCursor + 1;
          feedback := DefaultFeedback;
        }
      } else if searchCursor == ExpenseDescription {
        entryToSearch := entryToSearch.(description := text);
        validated := validated[searchCursor := true];
        searchCursor := searchCursor + 1;
        feedback := DefaultFeedback;
      } else if searchCursor == ExpenseDebit {
        if text != "" {
          var val := ParseAmount(text);
          if val.Some? {
            entryToSearch := entryToSearch.(debit := val.value);
            validated := validated[searchCursor := true];
            searchCursor := searchCursor + 1;
            feedback := DefaultFeedback;
          } else {
            validated := validated[searchCursor := false];
            feedback := InvalidAmount;
          }
        } else {
          entryToSearch := entryToSearch.(debit := Invalid as real);
          validated := validated[searchCursor := true];
          searchCursor := searchCursor + 1;
          feedback := DefaultFeedback;
        }
      } else {
        if text != "" {
          var val := ParseAmount(text);
          if val.Some? {
            entryToSearch := entryToSearch.(credit := val.value);
            validated := validated[searchCursor := true];
            feedback := DefaultFeedback;
          } else {
            validated := validated[searchCursor := false];
            feedback := InvalidAmount;
          }
        } else {
          entryToSearch := entryToSearch.(credit := Invalid as real);
          validated := validated[searchCursor := true];
          feedback := DefaultFeedback;
        }
      }
    }

    /** Update: one key press. An Enter that leaves every field accepted
        runs the search and moves to the delete or update screen; every
        other key acts as Step says without touching the collection. */
    method Update(k: Key, db: Collection) returns (next: Next)
      requires Valid()
      modifies this, db
      ensures Valid()
      ensures !IsSearch(old(Snap()), k) ==>
                Snap() == Step(old(Snap()), k) && next == (if k == CtrlC then Home else Stay)
                && db.docs == old(db.docs) && db.log == old(db.log)
      ensures IsSearch(old(Snap()), k) ==>
                var e := EnterField(old(Snap())).entryToSearch;
                db.docs == old(db.docs)
                && foundEntries == Query(db.docs, FilterFor(e))
                && db.log == old(db.log) + [FindCall(FilterFor(e), foundEntries)]
                && Snap() == EnterField(old(Snap())).(foundEntries := foundEntries)
                && next == SearchNext(actionText, foundEntries, e)
    {
      next := Stay;
      match k {
        case Up =>
          if searchCursor > ExpenseYear {
            searchCursor := searchCursor - 1;
          }
        case Down =>
          if searchCursor < ExpenseCredit {
            searchCursor := searchCursor + 1;
          }
        case Backspace =>
          var sz := |fields[searchCursor]|;
          if sz >= 1 {
            fields := fields[searchCursor := fields[searchCursor][..sz - 1]];
          }
        case Enter =>
          EnterOnField();
          var ok := AllValidFlags();
          if ok {
            foundEntries := Mongo.FindMatchingEntries(db, entryToSearch);
            if actionText == "delete" {
              next := DeleteEntries(foundEntries, entryToSearch);
            } else {
              next := UpdateEntries(foundEntries, entryToSearch);
            }
          }
        case CtrlC =>
          next := Home;
        case _ =>
          fields := fields[searchCursor := fields[searchCursor] + KeyText(k)];
      }
    }
  }

  // -----------------------------------------------------------------------
  // Properties of the form

  /** A blank field is always accepted: the number fields store the
      sentinel, the description stores the empty text, and the cursor moves
      on unless it is on credit. */
  lemma BlankFieldAccepted(s: State)
    requires Inv(s) && s.fields[s.searchCursor] == ""
    ensures EnterField(s).validated[s.searchCursor]
    ensures EnterField(s).searchCursor == if s.searchCursor < ExpenseCredit then s.searchCursor + 1 else s.searchCursor
    ensures s.searchCursor == ExpenseYear ==> EnterField(s).entryToSearch.year == Invalid
    ensures s.searchCursor == ExpenseMonth ==> EnterField(s).entryToSearch.month == Invalid
    ensures s.searchCursor == ExpenseDay ==> EnterField(s).entryToSearch.day == Invalid
    ensures s.searchCursor == ExpenseDescription ==> EnterField(s).entryToSearch.description == ""
    ensures s.searchCursor == ExpenseDebit ==> EnterField(s).entryToSearch.debit == Invalid as real
    ensures s.searchCursor == ExpenseCredit ==> EnterField(s).entryToSearch.credit == Invalid as real
  {
  }

  /** Whether a non-blank field is accepted, field by field. */
  predicate Parses(col: int, text: string)
  {
    if col == ExpenseYear then Atoi(text).Some?
    else if col == ExpenseMonth then ParseMonth(text).Some?
    else if col == ExpenseDay then ParseDay(text).Some?
    else if col == ExpenseDescription then true
    else ParseAmount(text).Some?
  }

  /** Enter on a filled field either accepts it (flag set, cursor moves on
      unless on credit) or rejects it (flag cleared, cursor and search record
      unchanged, an error message shown); which one is decided by the
      field's parser. */
  lemma EnterAcceptsIffParses(s: State)
    requires Inv(s) && s.fields[s.searchCursor] != ""
    ensures EnterField(s).validated[s.searchCursor] <==> Parses(s.searchCursor, s.fields[s.searchCursor])
    ensures !Parses(s.searchCursor, s.fields[s.searchCursor]) ==>
              EnterField(s) == s.(validated := EnterField(s).validated, feedback := EnterField(s).feedback)
              && EnterField(s).feedback != DefaultFeedback
    ensures Parses(s.searchCursor, s.fields[s.searchCursor]) ==>
              EnterField(s).feedback == DefaultFeedback
              && EnterField(s).searchCursor == if s.searchCursor < ExpenseCredit then s.searchCursor + 1 else s.searchCursor
  {
  }

  /** An accepted field stores what its parser returned, and nothing else
      of the search record changes. */
  lemma AcceptedValueStored(s: State)
    requires Inv(s) && s.fields[s.searchCursor] != "" && Parses(s.searchCursor, s.fields[s.searchCursor])
    ensures var t := s.fields[s.searchCursor]; var e := s.entryToSearch;
            EnterField(s).entryToSearch ==
              if s.searchCursor == ExpenseYear then e.(year := Atoi(t).value)
              else if s.searchCursor == ExpenseMonth then e.(month := ParseMonth(t).value)
              else if s.searchCursor == ExpenseDay then e.(day := ParseDay(t).value)
              else if s.searchCursor == ExpenseDescription then e.(description := t)
              else if s.searchCursor == ExpenseDebit then e.(debit := ParseAmount(t).value)
              else e.(credit := ParseAmount(t).value)
  {
  }

  /** Enter touches only the flag under the cursor, and never the text. */
  lemma EnterTouchesOneFlag(s: State)
    requires Inv(s)
    ensures EnterField(s).fields == s.fields
    ensures forall i :: 0 <= i < NumSearchFields && i != s.searchCursor ==>
              EnterField(s).validated[i] == s.validated[i]
  {
  }

  /** The form searches only when the other five fields were already
      accepted and the field under the cursor is accepted now; a fresh form
      therefore never searches on its first key. */
  lemma {:induction false} SearchNeedsEveryField(s: State, k: Key)
    requires Inv(s) && IsSearch(s, k)
    ensures forall i :: 0 <= i < NumSearchFields && i != s.searchCursor ==> s.validated[i]
    ensures s.fields[s.searchCursor] == "" || Parses(s.searchCursor, s.fields[s.searchCursor])
  {
    EnterTouchesOneFlag(s);
    assert EnterField(s).validated[s.searchCursor];
    if s.fields[s.searchCursor] != "" {
      EnterAcceptsIffParses(s);
    }
    forall i | 0 <= i < NumSearchFields && i != s.searchCursor
      ensures s.validated[i]
    {
      assert EnterField(s).validated[i];
    }
  }

  lemma {:induction false} FreshFormNeverSearches(actionText: string, k: Key)
    ensures !IsSearch(Create(actionText), k)
  {
    var s := Create(actionText);
    EnterTouchesOneFlag(s);
    assert !EnterField(s).validated[ExpenseMonth];
  }

  /** Typing and Backspace change only the text under the cursor: an
      accepted field stays accepted while it is edited. */
  lemma EditKeepsFlags(s: State, k: Key)
    requires Inv(s) && k != Enter && k != Up && k != Down && k != CtrlC
    ensures Step(s, k).validated == s.validated && Step(s, k).entryToSearch == s.entryToSearch
    ensures Step(s, k).searchCursor == s.searchCursor
    ensures forall i :: 0 <= i < NumSearchFields && i != s.searchCursor ==> Step(s, k).fields[i] == s.fields[i]
    ensures k != Backspace ==> Step(s, k).fields[s.searchCursor] == s.fields[s.searchCursor] + KeyText(k)
    ensures k == Backspace ==> Step(s, k).fields[s.searchCursor] == RemoveLastChar(s.fields[s.searchCursor])
  {
  }

  /** Up and Down move the cursor one field, stopping at year and credit. */
  lemma CursorClamps(s: State)
    requires Inv(s)
    ensures Step(s, Up).searchCursor == if s.searchCursor > ExpenseYear then s.searchCursor - 1 else ExpenseYear
    ensures Step(s, Down).searchCursor == if s.searchCursor < ExpenseCredit then s.searchCursor + 1 else ExpenseCredit
  {
  }
}
