/**
 * Raw input events and keyboard data consumed by the event dispatcher.
 * The defining files (input_event.rs, keyboard.rs) are not part of this
 * model; only the variants the dispatcher inspects are given.
 */
module Input {

  /** A pointer position in layout space. */
  datatype Point = Point(x: real, y: real)

  /** The origin, the value of `(f32, f32)::default()`. */
  function Origin(): Point { Point(0.0, 0.0) }

  /** Key codes: the eight modifier keys, Tab, and every other key by its code. */
  datatype KeyCode =
    | LControl | RControl
    | LShift | RShift
    | LAlt | RAlt
    | LWin | RWin
    | Tab
    | Other(code: nat)

  /** Snapshot of the modifier keys. */
  datatype KeyboardModifiers = KeyboardModifiers(
    isCtrlPressed: bool,
    isShiftPressed: bool,
    isAltPressed: bool,
    isMetaPressed: bool)

  /** `KeyboardModifiers::default()`: nothing held. */
  function NoModifiers(): KeyboardModifiers {
    KeyboardModifiers(false, false, false, false)
  }

  /** A key together with the modifiers held when it was reported. */
  datatype KeyboardEvent = KeyboardEvent(key: KeyCode, modifiers: KeyboardModifiers) {
    predicate IsShiftPressed() { modifiers.isShiftPressed }
  }

  /** Raw input for one tick. */
  datatype InputEvent =
    | MouseMoved(point: Point)
    | MouseLeftPress
    | MouseLeftRelease
    | CharEvent(c: char)
    | Keyboard(key: KeyCode, isPressed: bool)
  {
    /** Pointer input is walked over the tree; the rest goes to the focused node. */
    predicate IsMouse() { MouseMoved? || MouseLeftPress? || MouseLeftRelease? }
  }

  predicate HasMouseInput(inputs: seq<InputEvent>) {
    exists i :: 0 <= i < |inputs| && inputs[i].IsMouse()
  }

  /** A prefix one input longer has pointer input when the shorter one has or the new input is a pointer input. */
  lemma HasMouseInputSnoc(inputs: seq<InputEvent>, i: nat)
    requires i < |inputs|
    ensures HasMouseInput(inputs[..i + 1]) <==> HasMouseInput(inputs[..i]) || inputs[i].IsMouse()
  {
    assert inputs[..i + 1][i] == inputs[i];
    if HasMouseInput(inputs[..i]) {
      var j :| 0 <= j < i && inputs[..i][j].IsMouse();
      assert inputs[..i + 1][j] == inputs[..i][j];
    }
    if HasMouseInput(inputs[..i + 1]) && !inputs[i].IsMouse() {
      var j :| 0 <= j < i + 1 && inputs[..i + 1][j].IsMouse();
      assert inputs[..i][j] == inputs[..i + 1][j];
    }
  }

}
