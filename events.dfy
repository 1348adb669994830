/**
 * Semantic UI events (kayak_core/src/event.rs): the event record handed to
 * widget handlers, the closed set of event kinds and their two fixed
 * classification tables.
 */
module Events {
  import opened Input

  /** Stable identifier of a node in the widget tree (the arena `Index`). */
  type NodeId = nat

  /** `Index::default()`. */
  const DefaultIndex: NodeId := 0

  datatype EventCategory = Mouse | Keyboard | Focus

  datatype EventType =
    | Click
    | Hover
    | MouseIn
    | MouseOut
    | MouseDown
    | MouseUp
    | Focus
    | Blur
    | CharInput(c: char)
    | KeyUp(keyUp: KeyboardEvent)
    | KeyDown(keyDown: KeyboardEvent)
  {
    /**
     * Name of the matching event type in the "Event Types" section of the
     * W3C UI Events specification, which the propagation table follows.
     */
    function UiEventsName(): string {
      match this
      case Click => "click"
      case Hover => "mousemove"
      case MouseIn => "mouseenter"
      case MouseOut => "mouseleave"
      case MouseDown => "mousedown"
      case MouseUp => "mouseup"
      case Focus => "focus"
      case Blur => "blur"
      case CharInput(_) => "beforeinput"
      case KeyUp(_) => "keyup"
      case KeyDown(_) => "keydown"
    }

    /** Whether an event of this kind propagates to ancestors by default. */
    predicate Propagates() {
      match this
      case Hover => true
      case Click => true
      case MouseDown => true
      case MouseUp => true
      case CharInput(_) => true
      case KeyUp(_) => true
      case KeyDown(_) => true
      case MouseIn => false
      case MouseOut => false
      case Focus => false
      case Blur => false
    }

    /** The coarse category of this kind. */
    function Category(): (r: EventCategory)
      ensures r == EventCategory.Keyboard ==> Propagates()
      ensures r == EventCategory.Focus ==> !Propagates()
      ensures r == EventCategory.Mouse ==> (Propagates() <==> !(MouseIn? || MouseOut?))
      ensures r == EventCategory.Focus <==> (Focus? || Blur?)
      ensures r == EventCategory.Mouse <==> (Hover? || Click? || MouseDown? || MouseUp? || MouseIn? || MouseOut?)
      ensures r == EventCategory.Keyboard <==> (CharInput? || KeyUp? || KeyDown?)
    {
      match this
      case Hover => EventCategory.Mouse
      case Click => EventCategory.Mouse
      case MouseDown => EventCategory.Mouse
      case MouseUp => EventCategory.Mouse
      case MouseIn => EventCategory.Mouse
      case MouseOut => EventCategory.Mouse
      case CharInput(_) => EventCategory.Keyboard
      case KeyUp(_) => EventCategory.Keyboard
      case KeyDown(_) => EventCategory.Keyboard
      case Focus => EventCategory.Focus
      case Blur => EventCategory.Focus
    }
  }

  /**
   * The "Bubbles" column of the W3C UI Events tables for the event types
   * named above: focus, blur, mouseenter and mouseleave do not bubble.
   */
  predicate UiEventsBubbles(name: string) {
    name in {"click", "mousemove", "mousedown", "mouseup", "beforeinput", "keydown", "keyup"}
  }

  /** The propagation table agrees with the bubbling column of the W3C UI Events event types. */
  lemma PropagatesAsUiEvents(k: EventType)
    ensures k.Propagates() == UiEventsBubbles(k.UiEventsName())
  {
  }

  /** The two calls through which a handler may change the event it receives. */
  datatype Mutation = StopPropagationCall | PreventDefaultCall

  /** An event as delivered to one node. */
  datatype Event = Event(
    target: NodeId,
    currentTarget: NodeId,
    eventType: EventType,
    shouldPropagate: bool,
    defaultPrevented: bool)
  {
    /** The preferred constructor: propagation follows the kind's table. */
    static function New(target: NodeId, eventType: EventType): (e: Event)
      ensures e.target == target && e.currentTarget == target
      ensures e.eventType == eventType
      ensures e.Propagates() == eventType.Propagates()
      ensures !e.IsDefaultPrevented()
    {
      Event(target, target, eventType, eventType.Propagates(), false)
    }

    /** `Event::default()`: a propagating, non-prevented Click. */
    static function Default(): (e: Event)
      ensures e.eventType == Click && e.target == DefaultIndex && e.currentTarget == DefaultIndex
      ensures e.Propagates() && !e.IsDefaultPrevented()
    {
      Event(DefaultIndex, DefaultIndex, Click, true, false)
    }

    predicate Propagates() { shouldPropagate }

    predicate IsDefaultPrevented() { defaultPrevented }

    /** Same target, current target and kind. */
    predicate SameIdentity(other: Event) {
      other.target == target && other.currentTarget == currentTarget && other.eventType == eventType
    }

    /** `stop_propagation` applied to a copy of this event. */
    function StopPropagation(): (e: Event)
      ensures !e.Propagates()
      ensures e.IsDefaultPrevented() == IsDefaultPrevented()
      ensures SameIdentity(e)
    {
      this.(shouldPropagate := false)
    }

    /** `prevent_default` applied to a copy of this event. */
    function PreventDefault(): (e: Event)
      ensures e.IsDefaultPrevented()
      ensures e.Propagates() == Propagates()
      ensures SameIdentity(e)
    {
      this.(defaultPrevented := true)
    }

    /**
     * The event after a handler made the given calls, in order. Since no
     * public method re-enables propagation or clears the prevented flag,
     * both flags only move one way.
     */
    function Apply(calls: seq<Mutation>): (e: Event)
      ensures e.Propagates() <==> Propagates() && StopPropagationCall !in calls
      ensures e.IsDefaultPrevented() <==> IsDefaultPrevented() || PreventDefaultCall in calls
      ensures SameIdentity(e)
      decreases |calls|
    {
      if calls == [] then this
      else
        var next := if calls[0] == StopPropagationCall then StopPropagation() else PreventDefault();
        next.Apply(calls[1..])
    }

    /** The flags after a handler's calls, taken together rather than one at a time. */
    function Handled(calls: seq<Mutation>): Event {
      this.(shouldPropagate := shouldPropagate && StopPropagationCall !in calls,
            defaultPrevented := defaultPrevented || PreventDefaultCall in calls)
    }
  }

  /**
   * The order of a handler's calls does not matter: making them one by one
   * leaves the event exactly as setting both flags at once.
   */
  lemma {:induction false} ApplyIsHandled(e: Event, calls: seq<Mutation>)
    ensures e.Apply(calls) == e.Handled(calls)
    decreases |calls|
  {
    if calls != [] {
      var next := if calls[0] == StopPropagationCall then e.StopPropagation() else e.PreventDefault();
      ApplyIsHandled(next, calls[1..]);
      assert calls == [calls[0]] + calls[1..];
    }
  }

  lemma StopPropagationIdempotent(e: Event)
    ensures e.StopPropagation().StopPropagation() == e.StopPropagation()
  {
  }

  lemma PreventDefaultIdempotent(e: Event)
    ensures e.PreventDefault().PreventDefault() == e.PreventDefault()
  {
  }

}
