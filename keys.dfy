/**
 * Terminal key events, as the terminal library reports them: a key code
 * and the modifier keys held down with it.
 */
module Keys {

  datatype KeyCode =
    | Char(c: char)
    | Esc | Enter | Backspace | Tab | Delete
    | Left | Right | Up | Down | Home | End | PageUp | PageDown
    | F(n: nat)

  datatype KeyModifier = Shift | Control | Alt

  datatype KeyEvent = KeyEvent(code: KeyCode, modifiers: set<KeyModifier>)

  /** The `key!` shorthand: a key with no modifiers. */
  function Plain(code: KeyCode): KeyEvent
  {
    KeyEvent(code, {})
  }
}
