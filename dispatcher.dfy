/**
 * The event dispatcher (kayak_core/src/event_dispatcher.rs): the state it
 * keeps between ticks, the construction of one tick's event stream from raw
 * input, and the dispatch of events to handlers.
 */
module Dispatcher {
  import opened Options
  import opened Input
  import opened Events
  import opened Widgets
  import opened EventMaps
  import opened BestMatch
  import opened FocusRing
  import opened Propagation
  import opened PointerInput
  import opened KeyboardInput
  import opened PointerWalk
  import Cursor

  /** Some event of the batch is a key press, the only kind with a default action. */
  ghost predicate HasKeyDown(events: seq<Event>) {
    exists j :: 0 <= j < |events| && events[j].eventType.KeyDown?
  }

  /** A map recorded from Focus and Blur deliveries holds no pointer state to carry. */
  lemma FocusRecordsCarryNothing(ds: seq<Event>)
    requires OnlyFocusEvents(ds)
    ensures var m := RecordAll(map[], ds);
      forall n :: !ContainsEvent(m, n, MouseDown) && !ContainsEvent(m, n, MouseIn) && !ContainsEvent(m, n, MouseOut)
  {
    var m := RecordAll(map[], ds);
    RecordAllContents(map[], ds);
    forall n ensures !ContainsEvent(m, n, MouseDown) && !ContainsEvent(m, n, MouseIn) && !ContainsEvent(m, n, MouseOut) {
      assert !Delivered(ds, n, MouseDown) && !Delivered(ds, n, MouseIn) && !Delivered(ds, n, MouseOut);
    }
  }

  /** The propagation loop stands at `node`, having delivered `chain`, on its way to `whole`. */
  ghost predicate PropagationAt(t: Tree, h: Handler, whole: Chain, chain: seq<Event>, event: Event, node: NodeId)
    requires t.Valid()
  {
    var rest := ChainFrom(t, h, event, node);
    whole.delivered == chain + rest.delivered && whole.event == rest.event
  }

  /** One turn of the propagation loop keeps the walked prefix plus the rest equal to the whole chain. */
  lemma ChainAdvance(t: Tree, h: Handler, whole: Chain, chain: seq<Event>, event: Event, index: NodeId)
    requires t.Valid() && PropagationAt(t, h, whole, chain, event, index)
    ensures var copy := event.(currentTarget := index);
      var handled := copy.Handled(h(copy));
      var acc := event.(defaultPrevented := event.defaultPrevented || handled.defaultPrevented);
      && (handled.shouldPropagate && index in t.parent ==>
            && t.Rank(t.parent[index]) < t.Rank(index)
            && PropagationAt(t, h, whole, chain + [copy], acc, t.parent[index]))
      && (!(handled.shouldPropagate && index in t.parent) ==> whole == Chain(chain + [copy], acc))
  {
    var copy := event.(currentTarget := index);
    var handled := copy.Handled(h(copy));
    var acc := event.(defaultPrevented := event.defaultPrevented || handled.defaultPrevented);
    if handled.shouldPropagate && index in t.parent {
      assert chain + ([copy] + ChainFrom(t, h, acc, t.parent[index]).delivered)
          == chain + [copy] + ChainFrom(t, h, acc, t.parent[index]).delivered;
    }
  }

  /** The single-target events resolved from the contests of kinds in `kinds`. */
  ghost function WinnersAmong(states: States, kinds: set<EventType>): set<Event> {
    set k | k in states && k in kinds && states[k].bestMatch.Some? :: Event.New(states[k].bestMatch.value, k)
  }

  /** One event per contested kind, aimed at that kind's best match. */
  ghost function Winners(states: States): set<Event> {
    WinnersAmong(states, states.Keys)
  }

  /** Resolving one more kind adds its winner, which no kind resolved before produced. */
  lemma WinnersAmongInsert(states: States, done: set<EventType>, k: EventType)
    requires k in states && k !in done
    ensures var added := if states[k].bestMatch.Some? then multiset{Event.New(states[k].bestMatch.value, k)} else multiset{};
      multiset(WinnersAmong(states, done + {k})) == multiset(WinnersAmong(states, done)) + added
  {
    var before := WinnersAmong(states, done);
    var after := WinnersAmong(states, done + {k});
    if states[k].bestMatch.Some? {
      var w := Event.New(states[k].bestMatch.value, k);
      assert w !in before;
      assert after == before + {w};
    } else {
      assert after == before;
    }
  }

  /** What the resolution loop emits for one contested kind, with `current` the focus at that point. */
  function KindEvents(kind: EventType, state: EventState, current: Option<NodeId>): seq<Event> {
    match state.bestMatch
    case None => []
    case Some(node) =>
      [Event.New(node, kind)]
      + (if kind == EventType.Focus && current.Some? && current.value != node then [Event.New(current.value, Blur)] else [])
  }

  /** The events of a partial resolution: the winners of the kinds in `done`, and the Focus winner's Blur once Focus is done. */
  ghost predicate Resolved(states: States, done: set<EventType>, before: Option<NodeId>, events: seq<Event>) {
    multiset(events) == multiset(WinnersAmong(states, done))
      + (if EventType.Focus in done then multiset(BlurEvents(states, before, [])) else multiset{})
  }

  /** Every Blur comes right after a Focus. */
  ghost predicate BlurAfterFocus(events: seq<Event>) {
    forall i :: 0 <= i < |events| && events[i].eventType == Blur ==> i > 0 && events[i - 1].eventType == EventType.Focus
  }

  /** Resolving one more kind extends a partial resolution. */
  lemma ResolvedStep(states: States, done: set<EventType>, before: Option<NodeId>, events: seq<Event>,
                     kind: EventType, current: Option<NodeId>)
    requires kind in states && kind !in done && Resolved(states, done, before, events)
    requires kind == EventType.Focus ==> current == before
    ensures Resolved(states, done + {kind}, before, events + KindEvents(kind, states[kind], current))
  {
    WinnersAmongInsert(states, done, kind);
    KindEventsCount(states, kind, before, current);
    var more := KindEvents(kind, states[kind], current);
    assert multiset(events + more) == multiset(events) + multiset(more);
  }

  /** A kind's events: its winner, and for Focus the Blur of the focus it replaces. */
  lemma KindEventsCount(states: States, kind: EventType, before: Option<NodeId>, current: Option<NodeId>)
    requires kind in states && (kind == EventType.Focus ==> current == before)
    ensures multiset(KindEvents(kind, states[kind], current))
      == (if states[kind].bestMatch.Some? then multiset{Event.New(states[kind].bestMatch.value, kind)} else multiset{})
         + (if kind == EventType.Focus then multiset(BlurEvents(states, before, [])) else multiset{})
  {
  }

  /** Appending the events of a kind other than Blur keeps every Blur after a Focus. */
  lemma BlurAfterFocusStep(events: seq<Event>, kind: EventType, state: EventState, current: Option<NodeId>)
    requires BlurAfterFocus(events) && kind != Blur
    ensures BlurAfterFocus(events + KindEvents(kind, state, current))
  {
    var more := KindEvents(kind, state, current);
    var all := events + more;
    forall i | 0 <= i < |all| && all[i].eventType == Blur ensures i > 0 && all[i - 1].eventType == EventType.Focus {
      if i < |events| {
        assert all[i] == events[i] && all[i - 1] == events[i - 1];
      } else {
        assert more[0].eventType == kind;
      }
    }
  }

  /** The node that won the Focus contest, if any. */
  function FocusWinner(states: States): Option<NodeId> {
    if EventType.Focus in states then states[EventType.Focus].bestMatch else None
  }

  /**
   * The Blur events of a tick's focus update: a Focus winner blurs the
   * previous focus when it is another node, and a press that focused
   * nothing blurs the previous focus.
   */
  function BlurEvents(states: States, current: Option<NodeId>, inputs: seq<InputEvent>): seq<Event> {
    match FocusWinner(states)
    case Some(n) => if current.Some? && current.value != n then [Event.New(current.value, Blur)] else []
    case None => if MouseLeftPress in inputs && current.Some? then [Event.New(current.value, Blur)] else []
  }

  /** The events of a tick's focus update, in some order: one per contest winner, then its Blurs. */
  ghost predicate FocusUpdateEvents(states: States, current: Option<NodeId>, inputs: seq<InputEvent>, events: seq<Event>) {
    multiset(events) == multiset(Winners(states)) + multiset(BlurEvents(states, current, inputs))
  }

  /** The focus after a tick's focus update. */
  function FocusAfterBuild(states: States, current: Option<NodeId>, inputs: seq<InputEvent>): Option<NodeId> {
    match FocusWinner(states)
    case Some(n) => Some(n)
    case None => if MouseLeftPress in inputs then None else current
  }

  /**
   * A node that held the focus receives Blur exactly when the tick takes the
   * focus away from it, and nothing else is blurred.
   */
  lemma BlurIffFocusLost(states: States, c: NodeId, inputs: seq<InputEvent>)
    ensures Event.New(c, Blur) in BlurEvents(states, Some(c), inputs) <==> FocusAfterBuild(states, Some(c), inputs) != Some(c)
    ensures forall e :: e in BlurEvents(states, Some(c), inputs) ==> e == Event.New(c, Blur)
    ensures BlurEvents(states, None, inputs) == []
  {
  }

  /** A tristate left unset this tick falls back to its value from before the tick. */
  function Revert(now: Option<bool>, before: Option<bool>): Option<bool> {
    if now.None? then before else now
  }

  /**
   * The pointer state a tick's build leaves: the walk's, except that a
   * cursor tristate the walk left unset keeps its value from before the tick.
   */
  function BuiltPointer(walk: PointerState, before: PointerState): PointerState {
    walk.(containsCursor := Revert(walk.containsCursor, before.containsCursor),
          wantsCursor := Revert(walk.wantsCursor, before.wantsCursor))
  }

  class EventDispatcher {
    var isMousePressed: bool
    var currentMousePosition: Point
    var nextMousePosition: Point
    var previousEvents: EventMap
    var keyboardModifiers: KeyboardModifiers
    var lastClicked: NodeId
    var containsCursor: Option<bool>
    var wantsCursor: Option<bool>
    var hasCursor: Option<NodeId>

    /** `EventDispatcher::new`. */
    constructor ()
      ensures !isMousePressed && currentMousePosition == Origin() && nextMousePosition == Origin()
      ensures previousEvents == map[] && keyboardModifiers == NoModifiers() && lastClicked == DefaultIndex
      ensures containsCursor.None? && wantsCursor.None? && hasCursor.None?
    {
      lastClicked := DefaultIndex;
      isMousePressed := false;
      currentMousePosition := Origin();
      nextMousePosition := Origin();
      previousEvents := map[];
      keyboardModifiers := NoModifiers();
      containsCursor := None;
      wantsCursor := None;
      hasCursor := None;
    }

    /** The fields that pointer input reads and writes. */
    function Pointer(): PointerState
      reads this
    {
      PointerState(isMousePressed, nextMousePosition, containsCursor, wantsCursor, hasCursor, lastClicked)
    }

    function IsMousePressed(): bool
      reads this
    {
      isMousePressed
    }

    function CurrentMousePosition(): Point
      reads this
    {
      currentMousePosition
    }

    /** The pointer is over a widget that draws something; unknown reads as false. */
    function ContainsCursor(): (r: bool)
      reads this
      ensures r <==> containsCursor == Some(true)
    {
      containsCursor.Some? && containsCursor.value
    }

    /** A focusable widget is under the pointer, or a widget holds the cursor. */
    function WantsCursor(): (r: bool)
      reads this
      ensures HasCursor() ==> r
      ensures r <==> wantsCursor == Some(true) || HasCursor()
    {
      (wantsCursor.Some? && wantsCursor.value) || hasCursor.Some?
    }

    /** A widget captured the pointer with a press and has not seen the release. */
    function HasCursor(): (r: bool)
      reads this
      ensures r <==> hasCursor.Some?
    {
      hasCursor.Some?
    }

    /** `process_pointer_events`: one pointer input at one node of the walk. */
    method ProcessPointerEvents(input: InputEvent, node: NodeId, depth: int, states: States, wm: WidgetManager)
      returns (events: seq<Event>, next: States)
      modifies this
      ensures var r := PointerStep(old(Pointer()), old(currentMousePosition), old(previousEvents), wm, states, node, depth, input);
        Pointer() == r.pointer && next == r.states && events == r.events
      ensures currentMousePosition == old(currentMousePosition) && previousEvents == old(previousEvents)
      ensures keyboardModifiers == old(keyboardModifiers)
    {
      match input
      case MouseMoved(point) =>
        events, next := PointerMoved(point, node, depth, states, wm);
      case MouseLeftPress =>
        events, next := PointerPressed(node, depth, states, wm);
      case MouseLeftRelease =>
        events, next := PointerReleased(node, depth, states, wm);
      case _ =>
        events, next := [], states;
    }

    /** The `MouseMoved` arm of `process_pointer_events`. */
    method PointerMoved(point: Point, node: NodeId, depth: int, states: States, wm: WidgetManager)
      returns (events: seq<Event>, next: States)
      modifies this
      ensures var r := MoveStep(old(Pointer()), old(currentMousePosition), old(previousEvents), wm, states, node, depth, point);
        Pointer() == r.pointer && next == r.states && events == r.events
      ensures currentMousePosition == old(currentMousePosition) && previousEvents == old(previousEvents)
      ensures keyboardModifiers == old(keyboardModifiers)
    {
      ghost var before := Pointer();
      events := [];
      next := states;
      var contains := containsCursor;
      var wants := wantsCursor;
      var layout := wm.GetLayout(node);
      if layout.Some? {
        var wasContained := layout.value.Contains(currentMousePosition);
        var isContained := layout.value.Contains(point);
        if wasContained != isContained {
          if wasContained {
            events := events + [Event.New(node, MouseOut)];
          } else {
            events := events + [Event.New(node, MouseIn)];
          }
        }
        contains := Latch(contains, CanContainCursor(wm.GetStyles(node)), isContained);
        wants := Latch(wants, wm.GetFocusable(node) == Some(true), isContained);
        if isContained {
          next := UpdateState(next, node, depth, layout.value.zIndex, Hover);
        }
      }
      containsCursor := contains;
      wantsCursor := wants;
      nextMousePosition := point;
      assert Pointer() == before.(nextMousePosition := point, containsCursor := contains, wantsCursor := wants);
    }

    /** The `MouseLeftPress` arm of `process_pointer_events`. */
    method PointerPressed(node: NodeId, depth: int, states: States, wm: WidgetManager)
      returns (events: seq<Event>, next: States)
      modifies this
      ensures var r := PressStep(old(Pointer()), old(currentMousePosition), old(previousEvents), wm, states, node, depth);
        Pointer() == r.pointer && next == r.states && events == r.events
      ensures currentMousePosition == old(currentMousePosition) && previousEvents == old(previousEvents)
      ensures keyboardModifiers == old(keyboardModifiers)
    {
      events := [];
      next := states;
      isMousePressed := true;
      var layout := wm.GetLayout(node);
      if layout.Some? && layout.value.Contains(currentMousePosition) {
        events := events + [Event.New(node, MouseDown)];
        if wm.GetFocusable(node) == Some(true) {
          next := UpdateState(next, node, depth, layout.value.zIndex, EventType.Focus);
        }
        if hasCursor.None? && CanContainCursor(wm.GetStyles(node)) {
          hasCursor := Some(node);
        }
      }
    }

    /** The `MouseLeftRelease` arm of `process_pointer_events`. */
    method PointerReleased(node: NodeId, depth: int, states: States, wm: WidgetManager)
      returns (events: seq<Event>, next: States)
      modifies this
      ensures var r := ReleaseStep(old(Pointer()), old(currentMousePosition), old(previousEvents), wm, states, node, depth);
        Pointer() == r.pointer && next == r.states && events == r.events
      ensures currentMousePosition == old(currentMousePosition) && previousEvents == old(previousEvents)
      ensures keyboardModifiers == old(keyboardModifiers)
    {
      events := [];
      next := states;
      isMousePressed := false;
      hasCursor := None;
      var layout := wm.GetLayout(node);
      if layout.Some? && layout.value.Contains(currentMousePosition) {
        events := events + [Event.New(node, MouseUp)];
        lastClicked := node;
        if ContainsEvent(previousEvents, node, MouseDown) {
          next := UpdateState(next, node, depth, layout.value.zIndex, Click);
        }
      }
    }

    /**
     * One node of the pointer walk: every pointer input of the tick is
     * processed there when the node's policy admits it, and the walk goes on
     * into the children unless the policy blocks them and the tick has
     * pointer input.
     */
    method VisitNode(inputs: seq<InputEvent>, wm: WidgetManager, states: States, node: NodeId, depth: int)
      returns (events: seq<Event>, next: States, enterChildren: bool)
      modifies this
      ensures var r := NodeInputs(old(Pointer()), old(currentMousePosition), old(previousEvents), wm, states, node, depth, inputs);
        Pointer() == r.pointer && next == r.states && events == r.events
      ensures enterChildren == wm.EntersChildren(inputs, node)
      ensures currentMousePosition == old(currentMousePosition) && previousEvents == old(previousEvents)
      ensures keyboardModifiers == old(keyboardModifiers)
    {
      events := [];
      next := states;
      enterChildren := true;
      ghost var start, position, previous := Pointer(), currentMousePosition, previousEvents;
      var i := 0;
      while i < |inputs|
        invariant 0 <= i <= |inputs|
        invariant var r := NodeInputs(start, position, previous, wm, states, node, depth, inputs[..i]);
          Pointer() == r.pointer && next == r.states && events == r.events
        invariant enterChildren == wm.EntersChildren(inputs[..i], node)
        invariant currentMousePosition == old(currentMousePosition) && previousEvents == old(previousEvents)
        invariant keyboardModifiers == old(keyboardModifiers)
      {
        var input := inputs[i];
        NodeInputsSnoc(start, position, previous, wm, states, node, depth, inputs, i);
        HasMouseInputSnoc(inputs, i);
        if input.IsMouse() {
          // All and SelfOnly process the input here; SelfOnly and None keep the walk out of the children
          var pointerEvents := wm.PointerEventsOf(node);
          if pointerEvents.AdmitsSelf() {
            var more;
            more, next := ProcessPointerEvents(input, node, depth, next, wm);
            events := events + more;
          }
          if !pointerEvents.AdmitsChildren() {
            enterChildren := false;
          }
        }
        ghost var done := inputs[..i + 1];
        i := i + 1;
        assert inputs[..i] == done;
      }
      assert inputs[..i] == inputs;
    }

    /**
     * The pointer walk of `build_event_stream`: pops (node, depth) pairs off
     * a stack seeded with the root, processes the tick's pointer input at
     * each, and pushes the children of those the walk may enter. It visits
     * exactly the nodes whose ancestors all let it descend, each once and at
     * its depth, in depth-first order with the last child of a list taken
     * first; the ghost `visits` records the order.
     */
    method WalkPointerEvents(inputs: seq<InputEvent>, wm: WidgetManager, root: NodeId)
      returns (events: seq<Event>, states: States, ghost visits: seq<Visit>)
      requires wm.Valid() && wm.tree.root == Some(root)
      modifies this
      ensures var r := WalkFold(old(Pointer()), old(currentMousePosition), old(previousEvents), wm, map[], visits, inputs);
        Pointer() == r.pointer && states == r.states && events == r.events
      ensures Distinct(visits) && AtDepth(wm.tree, visits)
      ensures forall n :: n in VisitedNodes(visits) <==> wm.Exposed(inputs, n)
      ensures visits == Preorder(wm, inputs, root, 0)
      ensures currentMousePosition == old(currentMousePosition) && previousEvents == old(previousEvents)
      ensures keyboardModifiers == old(keyboardModifiers)
    {
      events := [];
      states := map[];
      visits := [];
      var stack := [Visit(root, 0)];
      FrontierStart(wm, inputs, root);
      OrderStart(wm, inputs, root);
      while |stack| > 0
        invariant Frontier(wm, inputs, visits, stack)
        invariant visits + StackOrder(wm, inputs, stack) == Preorder(wm, inputs, root, 0)
        invariant var r := WalkFold(old(Pointer()), old(currentMousePosition), old(previousEvents), wm, map[], visits, inputs);
          Pointer() == r.pointer && states == r.states && events == r.events
        invariant currentMousePosition == old(currentMousePosition) && previousEvents == old(previousEvents)
        invariant keyboardModifiers == old(keyboardModifiers)
        decreases |wm.tree.Nodes() - VisitedNodes(visits)|
      {
        ghost var v := stack[|stack| - 1];
        FrontierStep(wm, inputs, visits, stack, v);
        OrderStep(wm, inputs, visits, stack);
        UnvisitedShrinks(wm.tree.Nodes(), VisitedNodes(visits), v.node);
        stack, events, states := WalkStep(inputs, wm, stack, events, states, visits, old(Pointer()));
        visits := visits + [v];
      }
      FrontierDone(wm, inputs, visits);
      assert visits + [] == visits;
    }

    /** One turn of the pointer walk: pop a node, process its inputs, push its entered children. */
    method WalkStep(inputs: seq<InputEvent>, wm: WidgetManager, stack: seq<Visit>, events: seq<Event>, states: States,
                    ghost visits: seq<Visit>, ghost initial: PointerState)
      returns (stack': seq<Visit>, events': seq<Event>, states': States)
      requires |stack| > 0
      requires var r := WalkFold(initial, currentMousePosition, previousEvents, wm, map[], visits, inputs);
        Pointer() == r.pointer && states == r.states && events == r.events
      modifies this
      ensures stack' == stack[..|stack| - 1] + Pushed(wm, inputs, stack[|stack| - 1])
      ensures var r := WalkFold(initial, old(currentMousePosition), old(previousEvents), wm, map[], visits + [stack[|stack| - 1]], inputs);
        Pointer() == r.pointer && states' == r.states && events' == r.events
      ensures currentMousePosition == old(currentMousePosition) && previousEvents == old(previousEvents)
      ensures keyboardModifiers == old(keyboardModifiers)
    {
      var v := stack[|stack| - 1];
      WalkFoldSnoc(initial, currentMousePosition, previousEvents, wm, map[], visits, v, inputs);
      stack' := stack[..|stack| - 1];
      var more, enterChildren;
      more, states', enterChildren := VisitNode(inputs, wm, states, v.node, v.depth);
      events' := events + more;
      if enterChildren {
        stack' := PushChildren(stack', wm.tree.ChildrenOf(v.node), v.depth + 1);
      } else {
        assert stack' + [] == stack';
      }
    }

    /** The loop pushing a node's children onto the walk's stack, in list order. */
    static method PushChildren(stack: seq<Visit>, children: seq<NodeId>, depth: int) returns (pushed: seq<Visit>)
      ensures pushed == stack + ChildVisits(children, depth)
    {
      pushed := stack;
      var j := 0;
      while j < |children|
        invariant 0 <= j <= |children|
        invariant pushed == stack + ChildVisits(children[..j], depth)
      {
        ChildVisitsSnoc(children, j, depth);
        pushed := pushed + [Visit(children[j], depth)];
        j := j + 1;
      }
      assert children[..j] == children;
    }

    /**
     * The resolution loop of `build_event_stream`: one event per contested
     * kind, aimed at its best match, visited in no fixed order. The Focus
     * winner takes the focus, and a previous focus on another node receives
     * Blur right after the Focus event.
     */
    static method ResolveStates(states: States, focus: FocusTree) returns (events: seq<Event>, hadFocus: bool)
      modifies focus
      ensures multiset(events) == multiset(Winners(states)) + multiset(BlurEvents(states, old(focus.current), []))
      // no contest is held over Blur, so every Blur is the one following the Focus winner
      ensures Blur !in states ==> BlurAfterFocus(events)
      ensures hadFocus <==> FocusWinner(states).Some?
      ensures focus.current == FocusAfterBuild(states, old(focus.current), [])
    {
      events := [];
      hadFocus := false;
      var todo := states.Keys;
      while todo != {}
        invariant todo <= states.Keys
        invariant Resolved(states, states.Keys - todo, old(focus.current), events)
        invariant Blur !in states ==> BlurAfterFocus(events)
        invariant hadFocus <==> EventType.Focus !in todo && FocusWinner(states).Some?
        invariant focus.current == if EventType.Focus !in todo then FocusAfterBuild(states, old(focus.current), []) else old(focus.current)
        decreases |todo|
      {
        var kind :| kind in todo;
        ResolvedStep(states, states.Keys - todo, old(focus.current), events, kind, focus.current);
        if Blur !in states {
          BlurAfterFocusStep(events, kind, states[kind], focus.current);
        }
        assert states.Keys - (todo - {kind}) == (states.Keys - todo) + {kind};
        var more, focused := ResolveKind(kind, states[kind], focus);
        events := events + more;
        hadFocus := hadFocus || focused;
        todo := todo - {kind};
      }
      assert states.Keys - todo == states.Keys;
    }

    /** One entry of the resolution loop: the winner's event, and for Focus the focus change and Blur. */
    static method ResolveKind(kind: EventType, state: EventState, focus: FocusTree) returns (more: seq<Event>, focused: bool)
      modifies focus
      ensures more == KindEvents(kind, state, old(focus.current))
      ensures focused <==> kind == EventType.Focus && state.bestMatch.Some?
      ensures focus.current == if focused then state.bestMatch else old(focus.current)
    {
      more := [];
      focused := false;
      if state.bestMatch.Some? {
        var node := state.bestMatch.value;
        more := more + [Event.New(node, kind)];
        if kind == EventType.Focus {
          focused := true;
          var currentFocus := focus.Current();
          if currentFocus.Some? && currentFocus.value != node {
            more := more + [Event.New(currentFocus.value, Blur)];
          }
          focus.SetFocus(node);
        }
      }
    }

    /** The keyboard loop of `build_event_stream`: every input of the tick, in order, at the focused node. */
    method KeyboardPass(inputs: seq<InputEvent>, focus: FocusTree) returns (events: seq<Event>)
      modifies this
      ensures var r := KeyboardFold(old(keyboardModifiers), focus.current, inputs);
        keyboardModifiers == r.modifiers && events == r.events
      ensures Pointer() == old(Pointer()) && currentMousePosition == old(currentMousePosition)
      ensures previousEvents == old(previousEvents)
    {
      events := [];
      var i := 0;
      while i < |inputs|
        invariant 0 <= i <= |inputs|
        invariant var r := KeyboardFold(old(keyboardModifiers), focus.current, inputs[..i]);
          keyboardModifiers == r.modifiers && events == r.events
        invariant Pointer() == old(Pointer()) && currentMousePosition == old(currentMousePosition)
        invariant previousEvents == old(previousEvents)
      {
        assert inputs[..i + 1][..i] == inputs[..i];
        var more := ProcessKeyboardEvents(inputs[i], focus);
        events := events + more;
        ghost var done := inputs[..i + 1];
        i := i + 1;
        assert inputs[..i] == done;
      }
      assert inputs[..i] == inputs;
    }

    /**
     * The focus part of `build_event_stream`: the resolution loop, then the
     * Blur of a press that focused nothing.
     */
    static method FocusUpdate(inputs: seq<InputEvent>, states: States, focus: FocusTree) returns (tail: seq<Event>)
      modifies focus
      ensures FocusUpdateEvents(states, old(focus.current), inputs, tail)
      ensures focus.current == FocusAfterBuild(states, old(focus.current), inputs)
    {
      var hadFocus;
      tail, hadFocus := ResolveStates(states, focus);
      if !hadFocus && MouseLeftPress in inputs {
        var currentFocus := focus.Current();
        if currentFocus.Some? {
          tail := tail + [Event.New(currentFocus.value, Blur)];
          focus.Blur();
        }
      }
    }

    /**
     * `build_event_stream`: one tick's events from its raw input. Without a
     * root nothing happens. Otherwise the cursor tristates are reset, the
     * pointer walk runs over the tree, the keyboard input goes to the focused
     * node, each contest's winner gets its event (Focus moving the focus),
     * a press that focused nothing blurs the focus, the pointer position
     * advances, and a tristate the walk left unset falls back to its old
     * value.
     */
    method BuildEventStream(inputs: seq<InputEvent>, wm: WidgetManager, focus: FocusTree)
      returns (events: seq<Event>, ghost visits: seq<Visit>, ghost resolved: seq<Event>)
      requires wm.Valid()
      modifies this, focus
      ensures wm.tree.root.None? ==>
        && events == [] && Pointer() == old(Pointer()) && currentMousePosition == old(currentMousePosition)
        && focus.current == old(focus.current) && keyboardModifiers == old(keyboardModifiers)
      ensures wm.tree.root.Some? ==>
        var walk := WalkFold(old(Pointer()).(containsCursor := None, wantsCursor := None), old(currentMousePosition),
                             old(previousEvents), wm, map[], visits, inputs);
        var keys := KeyboardFold(old(keyboardModifiers), old(focus.current), inputs);
        && (forall m :: m in VisitedNodes(visits) <==> wm.Exposed(inputs, m))
        && visits == Preorder(wm, inputs, wm.tree.root.value, 0)
        && events == walk.events + keys.events + resolved
        && FocusUpdateEvents(walk.states, old(focus.current), inputs, resolved)
        && focus.current == FocusAfterBuild(walk.states, old(focus.current), inputs)
        && keyboardModifiers == keys.modifiers
        && isMousePressed == walk.pointer.isMousePressed && hasCursor == walk.pointer.hasCursor
        && lastClicked == walk.pointer.lastClicked
        && currentMousePosition == walk.pointer.nextMousePosition && nextMousePosition == walk.pointer.nextMousePosition
        && containsCursor == Revert(walk.pointer.containsCursor, old(containsCursor))
        && wantsCursor == Revert(walk.pointer.wantsCursor, old(wantsCursor))
      ensures previousEvents == old(previousEvents)
    {
      events := [];
      visits := [];
      resolved := [];
      if wm.tree.root.None? {
        return;
      }
      var root := wm.tree.root.value;
      var oldContainsCursor := containsCursor;
      var oldWantsCursor := wantsCursor;
      containsCursor := None;
      wantsCursor := None;
      assert Pointer() == old(Pointer()).(containsCursor := None, wantsCursor := None);
      var pointerEvents, states;
      pointerEvents, states, visits := WalkPointerEvents(inputs, wm, root);
      var keyEvents := KeyboardPass(inputs, focus);
      var tail := FocusUpdate(inputs, states, focus);
      events := pointerEvents + keyEvents + tail;
      resolved := tail;
      currentMousePosition := nextMousePosition;
      if containsCursor.None? {
        containsCursor := oldContainsCursor;
      }
      if wantsCursor.None? {
        wantsCursor := oldWantsCursor;
      }
    }

    /** `process_keyboard_events`: one input, aimed at the focused node. */
    method ProcessKeyboardEvents(input: InputEvent, focus: FocusTree) returns (events: seq<Event>)
      modifies this
      ensures var r := KeyboardStep(old(keyboardModifiers), focus.current, input);
        keyboardModifiers == r.modifiers && events == r.events
      ensures Pointer() == old(Pointer()) && currentMousePosition == old(currentMousePosition)
      ensures previousEvents == old(previousEvents)
    {
      events := [];
      var currentFocus := focus.Current();
      if currentFocus.Some? {
        match input
        case CharEvent(c) =>
          events := events + [Event.New(currentFocus.value, CharInput(c))];
        case Keyboard(key, isPressed) =>
          match key {
          case LControl => keyboardModifiers := keyboardModifiers.(isCtrlPressed := isPressed);
          case RControl => keyboardModifiers := keyboardModifiers.(isCtrlPressed := isPressed);
          case LShift => keyboardModifiers := keyboardModifiers.(isShiftPressed := isPressed);
          case RShift => keyboardModifiers := keyboardModifiers.(isShiftPressed := isPressed);
          case LAlt => keyboardModifiers := keyboardModifiers.(isAltPressed := isPressed);
          case RAlt => keyboardModifiers := keyboardModifiers.(isAltPressed := isPressed);
          case LWin => keyboardModifiers := keyboardModifiers.(isMetaPressed := isPressed);
          case RWin => keyboardModifiers := keyboardModifiers.(isMetaPressed := isPressed);
          case _ =>
          }
          if isPressed {
            events := events + [Event.New(currentFocus.value, KeyDown(KeyboardEvent(key, keyboardModifiers)))];
          } else {
            events := events + [Event.New(currentFocus.value, KeyUp(KeyboardEvent(key, keyboardModifiers)))];
          }
        case _ =>
      }
    }


    /**
     * `process_events`: build the tick's event stream from its input and
     * dispatch it. `built` is the stream: the walk's events in visiting
     * order, the keyboard events, then the resolved events; it dispatches
     * starting from `focused`, the focus the build left. The pointer state
     * is the one the build leaves, since dispatching does not touch it.
     */
    method ProcessEvents(inputs: seq<InputEvent>, wm: WidgetManager, h: Handler, focus: FocusTree)
      returns (built: seq<Event>, delivered: seq<Event>, ghost focused: Option<NodeId>,
               ghost visits: seq<Visit>, ghost resolved: seq<Event>)
      requires wm.Valid()
      modifies this, focus
      ensures wm.tree.root.None? ==>
        && built == [] && delivered == [] && focused == old(focus.current)
        && Pointer() == old(Pointer()) && currentMousePosition == old(currentMousePosition)
        && keyboardModifiers == old(keyboardModifiers)
      ensures wm.tree.root.Some? ==>
        var walk := WalkFold(old(Pointer()).(containsCursor := None, wantsCursor := None), old(currentMousePosition),
                             old(previousEvents), wm, map[], visits, inputs);
        var keys := KeyboardFold(old(keyboardModifiers), old(focus.current), inputs);
        && visits == Preorder(wm, inputs, wm.tree.root.value, 0)
        && built == walk.events + keys.events + resolved
        && FocusUpdateEvents(walk.states, old(focus.current), inputs, resolved)
        && focused == FocusAfterBuild(walk.states, old(focus.current), inputs)
        && Pointer() == BuiltPointer(walk.pointer, old(Pointer()))
        && currentMousePosition == walk.pointer.nextMousePosition
        && keyboardModifiers == keys.modifiers
      ensures delivered == DispatchLog(wm.tree, h, focus.order, focused, built)
      ensures focus.current == FocusAfterAll(wm.tree, h, focus.order, focused, built)
      ensures previousEvents == CarryForward(old(previousEvents), isMousePressed, RecordAll(map[], OuterLog(wm.tree, h, built)))
    {
      built, visits, resolved := BuildEventStream(inputs, wm, focus);
      focused := focus.current;
      delivered := DispatchEvents(built, wm.tree, h, focus);
    }

    /** `process_event`: `process_events` on a single input. */
    method ProcessEvent(input: InputEvent, wm: WidgetManager, h: Handler, focus: FocusTree)
      returns (built: seq<Event>, delivered: seq<Event>, ghost focused: Option<NodeId>,
               ghost visits: seq<Visit>, ghost resolved: seq<Event>)
      requires wm.Valid()
      modifies this, focus
      ensures wm.tree.root.None? ==>
        && built == [] && delivered == [] && focused == old(focus.current)
        && Pointer() == old(Pointer()) && currentMousePosition == old(currentMousePosition)
        && keyboardModifiers == old(keyboardModifiers)
      ensures wm.tree.root.Some? ==>
        var walk := WalkFold(old(Pointer()).(containsCursor := None, wantsCursor := None), old(currentMousePosition),
                             old(previousEvents), wm, map[], visits, [input]);
        var keys := KeyboardFold(old(keyboardModifiers), old(focus.current), [input]);
        && visits == Preorder(wm, [input], wm.tree.root.value, 0)
        && built == walk.events + keys.events + resolved
        && FocusUpdateEvents(walk.states, old(focus.current), [input], resolved)
        && focused == FocusAfterBuild(walk.states, old(focus.current), [input])
        && Pointer() == BuiltPointer(walk.pointer, old(Pointer()))
        && currentMousePosition == walk.pointer.nextMousePosition
        && keyboardModifiers == keys.modifiers
      ensures delivered == DispatchLog(wm.tree, h, focus.order, focused, built)
      ensures focus.current == FocusAfterAll(wm.tree, h, focus.order, focused, built)
      ensures previousEvents == CarryForward(old(previousEvents), isMousePressed, RecordAll(map[], OuterLog(wm.tree, h, built)))
    {
      built, visits, resolved := BuildEventStream([input], wm, focus);
      focused := focus.current;
      delivered := DispatchEvents(built, wm.tree, h, focus);
    }

    /** `dispatch_event`: `dispatch_events` on a single event. */
    method DispatchEvent(event: Event, t: Tree, h: Handler, focus: FocusTree) returns (delivered: seq<Event>)
      requires t.Valid()
      modifies this, focus
      ensures var c := Dispatched(t, h, event);
        && delivered == c.delivered + (if c.event.defaultPrevented then [] else OuterLog(t, h, DefaultEvents(focus.order, old(focus.current), c.event)))
        && focus.current == if c.event.defaultPrevented then old(focus.current) else FocusAfterDefault(focus.order, old(focus.current), c.event)
      ensures previousEvents == CarryForward(old(previousEvents), isMousePressed, RecordAll(map[], OuterLog(t, h, [event])))
      ensures Pointer() == old(Pointer()) && currentMousePosition == old(currentMousePosition)
      ensures keyboardModifiers == old(keyboardModifiers)
    {
      DispatchOne(t, h, focus.order, focus.current, event);
      delivered := DispatchEvents([event], t, h, focus);
    }

    /**
     * `dispatch_events`: each event goes up its parent chain, the default
     * action runs for each event no handler prevented, and the map of
     * deliveries replaces the previous one after carrying forward held
     * presses and enters. Returns every copy handed to a handler, in order.
     */
    method DispatchEvents(events: seq<Event>, t: Tree, h: Handler, focus: FocusTree) returns (delivered: seq<Event>)
      requires t.Valid()
      modifies this, focus
      ensures delivered == DispatchLog(t, h, focus.order, old(focus.current), events)
      ensures focus.current == FocusAfterAll(t, h, focus.order, old(focus.current), events)
      ensures previousEvents == CarryForward(old(previousEvents), isMousePressed, RecordAll(map[], OuterLog(t, h, events)))
      ensures Pointer() == old(Pointer()) && currentMousePosition == old(currentMousePosition)
      ensures keyboardModifiers == old(keyboardModifiers)
      decreases if HasKeyDown(events) then 3 else 1, 2
    {
      var nextEvents: EventMap := map[];
      delivered := [];
      var i := 0;
      while i < |events|
        invariant 0 <= i <= |events|
        invariant delivered == DispatchLog(t, h, focus.order, old(focus.current), events[..i])
        invariant focus.current == FocusAfterAll(t, h, focus.order, old(focus.current), events[..i])
        invariant nextEvents == RecordAll(map[], OuterLog(t, h, events[..i]))
        invariant CarryEquivalent(previousEvents, old(previousEvents), isMousePressed)
        invariant Pointer() == old(Pointer()) && currentMousePosition == old(currentMousePosition)
        invariant keyboardModifiers == old(keyboardModifiers)
      {
        ghost var carried := previousEvents;
        var more;
        more, nextEvents := DispatchAt(events, i, t, h, focus, nextEvents, old(focus.current));
        delivered := delivered + more;
        CarryEquivalentTransitive(previousEvents, carried, old(previousEvents), isMousePressed);
        i := i + 1;
      }
      assert events[..i] == events;
      var previous := previousEvents;
      RecordAllContents(map[], OuterLog(t, h, events));
      nextEvents := CarryInto(previous, isMousePressed, nextEvents);
      CarryForwardRespectsEquivalence(previous, old(previousEvents), isMousePressed, RecordAll(map[], OuterLog(t, h, events)));
      previousEvents := nextEvents;
    }

    /**
     * One turn of the loop of `dispatch_events`: propagate `events[i]`, then
     * run its default action unless a handler prevented it.
     */
    method DispatchAt(events: seq<Event>, i: nat, t: Tree, h: Handler, focus: FocusTree, nextEvents: EventMap,
                      ghost initial: Option<NodeId>)
      returns (more: seq<Event>, next: EventMap)
      requires t.Valid() && i < |events|
      requires nextEvents == RecordAll(map[], OuterLog(t, h, events[..i]))
      requires focus.current == FocusAfterAll(t, h, focus.order, initial, events[..i])
      modifies this, focus
      ensures DispatchLog(t, h, focus.order, initial, events[..i + 1]) == DispatchLog(t, h, focus.order, initial, events[..i]) + more
      ensures focus.current == FocusAfterAll(t, h, focus.order, initial, events[..i + 1])
      ensures next == RecordAll(map[], OuterLog(t, h, events[..i + 1]))
      ensures CarryEquivalent(previousEvents, old(previousEvents), isMousePressed)
      ensures Pointer() == old(Pointer()) && currentMousePosition == old(currentMousePosition)
      ensures keyboardModifiers == old(keyboardModifiers)
      decreases if HasKeyDown(events) then 3 else 1, 1
    {
      LogsStep(t, h, focus.order, initial, events, i);
      var chain, event;
      chain, event, next := Propagate(events[i], t, h, nextEvents, OuterLog(t, h, events[..i]));
      EventShare(t, h, focus.order, focus.current, events[i], Chain(chain, event));
      more := chain;
      if !event.defaultPrevented {
        assert event.eventType.KeyDown? ==> HasKeyDown(events);
        var extra := ExecuteDefault(event, t, h, focus);
        more := more + extra;
      }
    }

    /**
     * The propagation loop of `dispatch_events` for one event: the copies
     * handed to the handlers, the event with the prevented flags ORed in,
     * and the map of deliveries extended with each visited node.
     */
    static method Propagate(start: Event, t: Tree, h: Handler, nextEvents: EventMap, ghost recorded: seq<Event>)
      returns (chain: seq<Event>, event: Event, next: EventMap)
      requires t.Valid() && nextEvents == RecordAll(map[], recorded)
      ensures Dispatched(t, h, start) == Chain(chain, event)
      ensures next == RecordAll(map[], recorded + chain)
    {
      ghost var whole := Dispatched(t, h, start);
      event := start;
      chain := [];
      next := nextEvents;
      var currentTarget: Option<NodeId> := Some(event.target);
      assert recorded + chain == recorded;
      while currentTarget.Some?
        invariant currentTarget.Some? ==> PropagationAt(t, h, whole, chain, event, currentTarget.value)
        invariant currentTarget.None? ==> whole == Chain(chain, event)
        invariant next == RecordAll(map[], recorded + chain)
        decreases if currentTarget.Some? then t.Rank(currentTarget.value) + 1 else 0
      {
        var index := currentTarget.value;
        var nodeEvent := event.(currentTarget := index);
        var handled := nodeEvent.Apply(h(nodeEvent));
        ApplyIsHandled(nodeEvent, h(nodeEvent));
        var parent := t.GetParent(index);
        ChainAdvance(t, h, whole, chain, event, index);
        RecordNext(next, recorded, chain, nodeEvent);
        next := InsertEvent(next, index, nodeEvent.eventType);
        chain := chain + [nodeEvent];
        event := event.(defaultPrevented := event.defaultPrevented || handled.defaultPrevented);
        if handled.shouldPropagate {
          currentTarget := parent;
        } else {
          currentTarget := None;
        }
      }
    }

    /**
     * The carry-forward loop of `dispatch_events`: walks the previous map's
     * nodes in any order, keeping MouseDown while pressed and MouseIn unless
     * this dispatch recorded MouseOut.
     */
    static method CarryInto(previous: EventMap, pressed: bool, recorded: EventMap) returns (next: EventMap)
      requires NoEmptyEntries(recorded)
      ensures next == CarryForward(previous, pressed, recorded)
    {
      next := recorded;
      var remaining := previous.Keys;
      ghost var done: set<NodeId> := {};
      EqualByContents(next, CarryPartial(previous, pressed, recorded, done));
      while remaining != {}
        invariant remaining + done == previous.Keys && remaining !! done
        invariant next == CarryPartial(previous, pressed, recorded, done)
        decreases remaining
      {
        var index :| index in remaining;
        CarryStep(previous, pressed, recorded, done, index);
        if pressed && ContainsEvent(previous, index, MouseDown) {
          next := InsertEvent(next, index, MouseDown);
        }
        if ContainsEvent(previous, index, MouseIn) && !ContainsEvent(next, index, MouseOut) {
          next := InsertEvent(next, index, MouseIn);
        }
        remaining := remaining - {index};
        done := done + {index};
      }
    }

    /**
     * The end of the Tab branch of `execute_default`: commit the new focus,
     * then dispatch its Focus and Blur events, which have no default action
     * of their own and record nothing the carry-forward looks at.
     */
    method MoveFocus(events: seq<Event>, index: NodeId, t: Tree, h: Handler, focus: FocusTree) returns (delivered: seq<Event>)
      requires t.Valid() && OnlyFocusEvents(events)
      modifies this, focus
      ensures delivered == OuterLog(t, h, events)
      ensures focus.current == Some(index)
      ensures CarryEquivalent(previousEvents, old(previousEvents), isMousePressed)
      ensures Pointer() == old(Pointer()) && currentMousePosition == old(currentMousePosition)
      ensures keyboardModifiers == old(keyboardModifiers)
      decreases 1, 3
    {
      assert !HasKeyDown(events);
      focus.SetFocus(index);
      ghost var carried := previousEvents;
      delivered := DispatchEvents(events, t, h, focus);
      FocusEventsHaveNoDefault(t, h, focus.order, Some(index), events);
      OuterLogKeepsFocusKinds(t, h, events);
      FocusRecordsCarryNothing(OuterLog(t, h, events));
      CarryForwardKeepsCarry(carried, isMousePressed, RecordAll(map[], OuterLog(t, h, events)));
    }

    /**
     * `execute_default`: Tab moves the focus forward, Shift-Tab backward,
     * commits it, and dispatches Focus to the new node and then Blur to the
     * old one if it differs. Other events have no default action.
     */
    method ExecuteDefault(event: Event, t: Tree, h: Handler, focus: FocusTree) returns (delivered: seq<Event>)
      requires t.Valid()
      modifies this, focus
      ensures delivered == OuterLog(t, h, DefaultEvents(focus.order, old(focus.current), event))
      ensures focus.current == FocusAfterDefault(focus.order, old(focus.current), event)
      ensures CarryEquivalent(previousEvents, old(previousEvents), isMousePressed)
      ensures Pointer() == old(Pointer()) && currentMousePosition == old(currentMousePosition)
      ensures keyboardModifiers == old(keyboardModifiers)
      decreases if event.eventType.KeyDown? then 2 else 0, 0
    {
      delivered := [];
      match event.eventType {
        case KeyDown(evt) =>
          if evt.key == Tab {
            var currentFocus := focus.Current();
            var index := if evt.IsShiftPressed() then focus.Prev() else focus.Next();
            if index.Some? {
              var events := [Event.New(index.value, EventType.Focus)];
              if currentFocus.Some? && currentFocus.value != index.value {
                events := events + [Event.New(currentFocus.value, Blur)];
              }
              TabDefault(focus.order, currentFocus, event, index.value);
              delivered := MoveFocus(events, index.value, t, h, focus);
            }
          }
        case _ =>
      }
    }
  }

}
