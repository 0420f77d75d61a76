/** What the screens exchange with the terminal runtime: key events, the
    style tag a renderer would use for a cell, and the screen that comes
    next. */
module Tui {
  import opened Schema

  /** A key press. Char(t) is any other key; t is what the runtime's
      KeyMsg.String() reports for it, such as "7" or "esc". */
  datatype Key =
    | Up | Down | Left | Right | Tab | ShiftTab | Backspace | Enter | X | CtrlC | Q
    | Char(text: string)

  /** KeyMsg.String(): the text a screen appends to a cell when it does not
      handle the key itself. */
  function KeyText(k: Key): (r: string)
    ensures k.Char? ==> r == k.text
    ensures !k.Char? ==> r != [] && (|r| == 1 <==> k == X || k == Q)
  {
    match k
    case Up => "up"
    case Down => "down"
    case Left => "left"
    case Right => "right"
    case Tab => "tab"
    case ShiftTab => "shift+tab"
    case Backspace => "backspace"
    case Enter => "enter"
    case X => "x"
    case CtrlC => "ctrl+c"
    case Q => "q"
    case Char(t) => t
  }

  /** default_feedback, the prompt the screens start with. Its declaration
      is not among the modelled files, so its text here is a stand-in. */
  const DefaultFeedback: string := "Press Ctrl+C to go back."

  /** The lipgloss styles of styles.go, as tags. */
  datatype Style = TextStyle | InactiveStyle | SelectedStyle | ErrorStyle | QuestionStyle

  /** The model an Update call hands back to the runtime. */
  datatype Next =
    | Stay                                  // the same screen, updated
    | Quit                                  // tea.Quit
    | Home                                  // createHomeScreenModel()
    | PostInsert(expenses: seq<Expense>)    // createPostInsertCSVScreenModel(...)
    | DeleteEntries(found: seq<Expense>, search: Expense)
    | UpdateEntries(found: seq<Expense>, search: Expense)
}
