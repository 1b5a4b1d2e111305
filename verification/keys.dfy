/** The terminal events the widgets react to. Only the parts of a crossterm
    key event that the widgets inspect are kept: the key code, and whether the
    modifier set is exactly CONTROL (what the Ctrl+C check compares against). */
module Keys {

  datatype KeyCode =
    | Char(c: char)
    | Enter | Esc | Backspace | Delete
    | Left | Right | Up | Down | Home | End | Tab
    | OtherKey   // function keys, page keys, and every code no widget matches

  datatype Event =
    | Key(code: KeyCode, controlOnly: bool)
    | NonKey     // mouse, resize, focus and paste events

  /** A plain key press with no modifiers. */
  function Press(code: KeyCode): Event {
    Key(code, false)
  }

  /** `e` is a key event with code `code`, whatever its modifiers. */
  predicate IsKey(e: Event, code: KeyCode) {
    e.Key? && e.code == code
  }

  /** Ctrl+C, which every widget answers by ending the process. */
  predicate IsInterrupt(e: Event) {
    e.Key? && e.controlOnly && e.code == Char('c')
  }

  /** The exit status the widgets terminate the process with on Ctrl+C. */
  const InterruptStatus: int := 130
}
