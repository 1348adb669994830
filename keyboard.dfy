/**
 * What keyboard and character input does (`process_keyboard_events`): it
 * goes to the focused node only, after the modifier flags are updated.
 */
module KeyboardInput {
  import opened Options
  import opened Input
  import opened Events

  datatype Modifier = Ctrl | Shift | Alt | Meta

  /** The modifier a key controls, if any: the left and right keys share one flag. */
  function ModifierOf(key: KeyCode): Option<Modifier> {
    match key
    case LControl => Some(Ctrl)
    case RControl => Some(Ctrl)
    case LShift => Some(Shift)
    case RShift => Some(Shift)
    case LAlt => Some(Alt)
    case RAlt => Some(Alt)
    case LWin => Some(Meta)
    case RWin => Some(Meta)
    case _ => None
  }

  /** The flag of `m` in a modifier snapshot. */
  function Held(mods: KeyboardModifiers, m: Modifier): bool {
    match m
    case Ctrl => mods.isCtrlPressed
    case Shift => mods.isShiftPressed
    case Alt => mods.isAltPressed
    case Meta => mods.isMetaPressed
  }

  /** The modifier snapshot after `key` went down or up. */
  function UpdateModifiers(mods: KeyboardModifiers, key: KeyCode, isPressed: bool): (r: KeyboardModifiers)
    ensures forall m :: Held(r, m) == if ModifierOf(key) == Some(m) then isPressed else Held(mods, m)
  {
    match key
    case LControl => mods.(isCtrlPressed := isPressed)
    case RControl => mods.(isCtrlPressed := isPressed)
    case LShift => mods.(isShiftPressed := isPressed)
    case RShift => mods.(isShiftPressed := isPressed)
    case LAlt => mods.(isAltPressed := isPressed)
    case RAlt => mods.(isAltPressed := isPressed)
    case LWin => mods.(isMetaPressed := isPressed)
    case RWin => mods.(isMetaPressed := isPressed)
    case _ => mods
  }

  datatype KeyResult = KeyResult(modifiers: KeyboardModifiers, events: seq<Event>)

  /** `process_keyboard_events` for one input, with `focus` the focused node. */
  function KeyboardStep(mods: KeyboardModifiers, focus: Option<NodeId>, input: InputEvent): (r: KeyResult)
    // nothing focused: no event, and the modifiers are not even tracked
    ensures focus.None? ==> r == KeyResult(mods, [])
    ensures input.IsMouse() ==> r == KeyResult(mods, [])
    ensures focus.Some? && input.CharEvent? ==> r == KeyResult(mods, [Event.New(focus.value, CharInput(input.c))])
    // a key goes to the focused node as KeyDown when pressed and KeyUp when released,
    // carrying the modifiers as updated by this very key
    ensures focus.Some? && input.Keyboard? ==>
      && (forall m :: Held(r.modifiers, m) == if ModifierOf(input.key) == Some(m) then input.isPressed else Held(mods, m))
      && r.events == [Event.New(focus.value,
           if input.isPressed then KeyDown(KeyboardEvent(input.key, r.modifiers))
           else KeyUp(KeyboardEvent(input.key, r.modifiers)))]
  {
    match focus
    case None => KeyResult(mods, [])
    case Some(current) =>
      match input
      case CharEvent(c) => KeyResult(mods, [Event.New(current, CharInput(c))])
      case Keyboard(key, isPressed) =>
        var next := UpdateModifiers(mods, key, isPressed);
        var kind := if isPressed then KeyDown(KeyboardEvent(key, next)) else KeyUp(KeyboardEvent(key, next));
        KeyResult(next, [Event.New(current, kind)])
      case _ => KeyResult(mods, [])
  }

  /** The number of inputs of the tick that reach the focused node. */
  function KeyInputCount(inputs: seq<InputEvent>): nat
    decreases |inputs|
  {
    if inputs == [] then 0
    else KeyInputCount(inputs[..|inputs| - 1]) + (if inputs[|inputs| - 1].IsMouse() then 0 else 1)
  }

  /** The loop over a tick's inputs. */
  function KeyboardFold(mods: KeyboardModifiers, focus: Option<NodeId>, inputs: seq<InputEvent>): (r: KeyResult)
    // keyboard events all go to the focused node, propagate, and number one per key or character input
    ensures focus.None? ==> r == KeyResult(mods, [])
    ensures focus.Some? ==> |r.events| == KeyInputCount(inputs)
    ensures forall i :: 0 <= i < |r.events| ==>
      && focus == Some(r.events[i].target)
      && r.events[i] == Event.New(r.events[i].target, r.events[i].eventType)
      && r.events[i].eventType.Category() == EventCategory.Keyboard
    decreases |inputs|
  {
    if inputs == [] then KeyResult(mods, [])
    else
      var before := KeyboardFold(mods, focus, inputs[..|inputs| - 1]);
      var step := KeyboardStep(before.modifiers, focus, inputs[|inputs| - 1]);
      KeyResult(step.modifiers, before.events + step.events)
  }

  /**
   * Holding a Shift key and pressing Tab reports a KeyDown for Tab with
   * Shift held, the event whose default action moves the focus backward.
   */
  lemma ShiftTabReportsShift(mods: KeyboardModifiers, focus: NodeId, shift: KeyCode)
    requires shift == LShift || shift == RShift
    ensures var r := KeyboardFold(mods, Some(focus), [InputEvent.Keyboard(shift, true), InputEvent.Keyboard(Tab, true)]);
      && |r.events| == 2
      && r.events[1].target == focus
      && r.events[1].eventType.KeyDown?
      && r.events[1].eventType.keyDown.key == Tab
      && r.events[1].eventType.keyDown.IsShiftPressed()
  {
    var inputs := [InputEvent.Keyboard(shift, true), InputEvent.Keyboard(Tab, true)];
    assert inputs[..1] == [InputEvent.Keyboard(shift, true)];
    assert inputs[..1][..0] == [];
    var first := KeyboardFold(mods, Some(focus), inputs[..1]);
    assert Held(first.modifiers, Shift);
  }

  /** Pressing and then releasing a modifier key leaves it released. */
  lemma PressReleaseClearsModifier(mods: KeyboardModifiers, focus: NodeId, key: KeyCode, m: Modifier)
    requires ModifierOf(key) == Some(m)
    ensures var r := KeyboardFold(mods, Some(focus), [InputEvent.Keyboard(key, true), InputEvent.Keyboard(key, false)]);
      && !Held(r.modifiers, m)
      && (forall m' :: m' != m ==> Held(r.modifiers, m') == Held(mods, m'))
  {
    var press := InputEvent.Keyboard(key, true);
    var inputs := [press, InputEvent.Keyboard(key, false)];
    assert inputs[..1] == [press];
    assert [press][..0] == [];
    var first := KeyboardFold(mods, Some(focus), [press]);
    assert KeyboardFold(mods, Some(focus), []) == KeyResult(mods, []);
    assert KeyboardStep(mods, Some(focus), press).modifiers == UpdateModifiers(mods, key, true);
    assert first.modifiers == KeyboardStep(mods, Some(focus), press).modifiers;
    assert first.modifiers == UpdateModifiers(mods, key, true);
    var r := KeyboardFold(mods, Some(focus), inputs);
    assert r.modifiers == UpdateModifiers(first.modifiers, key, false);
  }

}
