/**
 * What pointer input does at one node of the tree walk
 * (`process_pointer_events`, `can_contain_cursor`), and the specification
 * of the whole walk as a fold over the nodes in the order they are visited.
 */
module PointerInput {
  import opened Options
  import opened Input
  import opened Events
  import opened Widgets
  import opened EventMaps
  import opened BestMatch

  /** The dispatcher fields that pointer input reads and writes. */
  datatype PointerState = PointerState(
    isMousePressed: bool,
    nextMousePosition: Point,
    containsCursor: Option<bool>,
    wantsCursor: Option<bool>,
    hasCursor: Option<NodeId>,
    lastClicked: NodeId)

  /**
   * `can_contain_cursor`: the widget reports styles and its render command
   * draws something of its own.
   */
  predicate CanContainCursor(style: Option<Style>) {
    style.Some? && !(style.value.renderCommand.Empty? || style.value.renderCommand.Layout? || style.value.renderCommand.Clip?)
  }

  /** The node has a layout that contains `p`. */
  predicate Inside(wm: WidgetManager, node: NodeId, p: Point) {
    wm.GetLayout(node).Some? && wm.GetLayout(node).value.Contains(p)
  }

  /**
   * Whether `input` at `node` makes the node a contender for `kind`: Hover
   * when a move ends inside it, Focus when a press lands inside a focusable
   * node, Click when a release lands inside a node that recorded MouseDown
   * in the previous dispatch. Presses and releases hit-test the position
   * from before this tick.
   */
  predicate Eligible(wm: WidgetManager, current: Point, prev: EventMap, kind: EventType, node: NodeId, input: InputEvent) {
    match kind
    case Hover => input.MouseMoved? && Inside(wm, node, input.point)
    case Focus => input.MouseLeftPress? && Inside(wm, node, current) && wm.GetFocusable(node) == Some(true)
    case Click => input.MouseLeftRelease? && Inside(wm, node, current) && ContainsEvent(prev, node, MouseDown)
    case _ => false
  }

  ghost predicate EligibleIn(wm: WidgetManager, current: Point, prev: EventMap, kind: EventType, node: NodeId, inputs: seq<InputEvent>) {
    exists i :: 0 <= i < |inputs| && Eligible(wm, current, prev, kind, node, inputs[i])
  }

  /** The contest state of `kind` after `node` is offered for it, when eligible. */
  function Contend(s: EventState, wm: WidgetManager, current: Point, prev: EventMap, kind: EventType,
                   node: NodeId, depth: int, input: InputEvent): EventState
  {
    if Eligible(wm, current, prev, kind, node, input) then Offer(s, node, depth, wm.layouts[node].zIndex) else s
  }

  /** The pointer state, contest states and events after one input at one node. */
  datatype StepResult = StepResult(pointer: PointerState, states: States, events: seq<Event>)

  /** Only the pointer kinds a node itself can receive from the walk. */
  predicate WalkKind(k: EventType) {
    k == MouseIn || k == MouseOut || k == MouseDown || k == MouseUp
  }

  /**
   * A cursor tristate after a move over a node: unless it is already true,
   * a qualifying node sets it to whether the pointer is over the node.
   */
  function Latch(t: Option<bool>, qualifies: bool, over: bool): (r: Option<bool>)
    ensures t == Some(true) || !qualifies ==> r == t
    ensures t != Some(true) && qualifies ==> r == Some(over)
    ensures r == Some(true) ==> t == Some(true) || (qualifies && over)
  {
    if t != Some(true) && qualifies then Some(over) else t
  }

  /** The arm of `process_pointer_events` for a pointer move to `point`. */
  function MoveStep(ps: PointerState, current: Point, prev: EventMap, wm: WidgetManager, states: States,
                    node: NodeId, depth: int, point: Point): (r: StepResult)
    // enter and leave are edge-triggered against the position before the tick
    ensures r.events == EnterLeave(wm, node, current, point)
    // the position is recorded for the end of the tick; press state is untouched
    ensures r.pointer.nextMousePosition == point
    ensures r.pointer.isMousePressed == ps.isMousePressed && r.pointer.hasCursor == ps.hasCursor
    ensures r.pointer.lastClicked == ps.lastClicked
    // each tristate is set from this node only while it is not yet true, and only by a qualifying node
    ensures r.pointer.containsCursor ==
      if wm.GetLayout(node).Some? then Latch(ps.containsCursor, CanContainCursor(wm.GetStyles(node)), Inside(wm, node, point))
      else ps.containsCursor
    ensures r.pointer.wantsCursor ==
      if wm.GetLayout(node).Some? then Latch(ps.wantsCursor, wm.GetFocusable(node) == Some(true), Inside(wm, node, point))
      else ps.wantsCursor
    // the node is a Hover contender exactly when the new point is inside it
    ensures r.states == Contest(current, prev, wm, states, node, depth, Hover, MouseMoved(point))
  {
    var moved := ps.(nextMousePosition := point);
    if wm.GetLayout(node).None? then StepResult(moved, states, [])
    else
      var layout := wm.GetLayout(node).value;
      var isInside := layout.Contains(point);
      var contains := Latch(ps.containsCursor, CanContainCursor(wm.GetStyles(node)), isInside);
      var wants := Latch(ps.wantsCursor, wm.GetFocusable(node) == Some(true), isInside);
      StepResult(moved.(containsCursor := contains, wantsCursor := wants),
                 Contest(current, prev, wm, states, node, depth, Hover, MouseMoved(point)),
                 EnterLeave(wm, node, current, point))
  }

  /** The enter or leave event of a move, against the position before the tick. */
  function EnterLeave(wm: WidgetManager, node: NodeId, current: Point, point: Point): (es: seq<Event>)
    ensures es == [Event.New(node, MouseIn)] <==> !Inside(wm, node, current) && Inside(wm, node, point)
    ensures es == [Event.New(node, MouseOut)] <==> Inside(wm, node, current) && !Inside(wm, node, point)
    ensures es == [] || es == [Event.New(node, MouseIn)] || es == [Event.New(node, MouseOut)]
  {
    var wasInside := Inside(wm, node, current);
    var isInside := Inside(wm, node, point);
    if wasInside == isInside then []
    else if wasInside then [Event.New(node, MouseOut)]
    else [Event.New(node, MouseIn)]
  }

  /**
   * The contests after one input at one node, for an input that can make
   * the node a contender for `kind` only: the node is offered for `kind`
   * exactly when eligible, and no other contest changes.
   */
  function Contest(current: Point, prev: EventMap, wm: WidgetManager, states: States,
                   node: NodeId, depth: int, kind: EventType, input: InputEvent): (r: States)
    requires forall k :: Eligible(wm, current, prev, k, node, input) ==> k == kind
    ensures forall k :: StateOf(r, k) == Contend(StateOf(states, k), wm, current, prev, k, node, depth, input)
    ensures r.Keys == states.Keys + (if Eligible(wm, current, prev, kind, node, input) then {kind} else {})
  {
    if Eligible(wm, current, prev, kind, node, input) then UpdateState(states, node, depth, wm.layouts[node].zIndex, kind)
    else states
  }

  /** The arm of `process_pointer_events` for a left-button press. */
  function PressStep(ps: PointerState, current: Point, prev: EventMap, wm: WidgetManager, states: States,
                     node: NodeId, depth: int): (r: StepResult)
    ensures r.pointer.isMousePressed
    ensures r.events == (if Inside(wm, node, current) then [Event.New(node, MouseDown)] else [])
    // the cursor is claimed by the first node hit that can contain it, and kept until release
    ensures r.pointer.hasCursor != ps.hasCursor <==> ps.hasCursor.None? && Inside(wm, node, current) && CanContainCursor(wm.GetStyles(node))
    ensures r.pointer.hasCursor != ps.hasCursor ==> r.pointer.hasCursor == Some(node)
    ensures r.pointer.(isMousePressed := ps.isMousePressed, hasCursor := ps.hasCursor) == ps
    // a focusable node under the pointer is a Focus contender
    ensures forall k :: StateOf(r.states, k) == Contend(StateOf(states, k), wm, current, prev, k, node, depth, MouseLeftPress)
    ensures r.states.Keys == states.Keys + (if Eligible(wm, current, prev, EventType.Focus, node, MouseLeftPress) then {EventType.Focus} else {})
  {
    var pressed := ps.(isMousePressed := true);
    if Inside(wm, node, current) then
      var next := Contest(current, prev, wm, states, node, depth, EventType.Focus, MouseLeftPress);
      var cursor := if ps.hasCursor.None? && CanContainCursor(wm.GetStyles(node)) then Some(node) else ps.hasCursor;
      StepResult(pressed.(hasCursor := cursor), next, [Event.New(node, MouseDown)])
    else StepResult(pressed, states, [])
  }

  /** The arm of `process_pointer_events` for a left-button release. */
  function ReleaseStep(ps: PointerState, current: Point, prev: EventMap, wm: WidgetManager, states: States,
                       node: NodeId, depth: int): (r: StepResult)
    // released and uncaptured wherever the pointer is
    ensures !r.pointer.isMousePressed && r.pointer.hasCursor.None?
    ensures r.events == (if Inside(wm, node, current) then [Event.New(node, MouseUp)] else [])
    ensures r.pointer.lastClicked == (if Inside(wm, node, current) then node else ps.lastClicked)
    ensures r.pointer.(isMousePressed := ps.isMousePressed, hasCursor := ps.hasCursor, lastClicked := ps.lastClicked) == ps
    // a Click contender only where the previous dispatch recorded MouseDown
    ensures forall k :: StateOf(r.states, k) == Contend(StateOf(states, k), wm, current, prev, k, node, depth, MouseLeftRelease)
    ensures r.states.Keys == states.Keys + (if Eligible(wm, current, prev, Click, node, MouseLeftRelease) then {Click} else {})
  {
    var released := ps.(isMousePressed := false, hasCursor := None);
    if Inside(wm, node, current) then
      var next := Contest(current, prev, wm, states, node, depth, Click, MouseLeftRelease);
      StepResult(released.(lastClicked := node), next, [Event.New(node, MouseUp)])
    else StepResult(released, states, [])
  }

  /**
   * `process_pointer_events` for one input at one node. `current` is the
   * pointer position from before this tick and `prev` the map kept by the
   * previous dispatch.
   */
  function PointerStep(ps: PointerState, current: Point, prev: EventMap, wm: WidgetManager, states: States,
                       node: NodeId, depth: int, input: InputEvent): (r: StepResult)
    // at most one event, a fresh one of a pointer kind aimed at this node
    ensures |r.events| <= 1
    ensures forall i :: 0 <= i < |r.events| ==> r.events[i] == Event.New(node, r.events[i].eventType) && WalkKind(r.events[i].eventType)
    // the cursor tristates latch once true
    ensures ps.containsCursor == Some(true) ==> r.pointer.containsCursor == Some(true)
    ensures ps.wantsCursor == Some(true) ==> r.pointer.wantsCursor == Some(true)
    // the node competes exactly for the kinds it is eligible for
    ensures forall k :: StateOf(r.states, k) == Contend(StateOf(states, k), wm, current, prev, k, node, depth, input)
    ensures states.Keys <= r.states.Keys
    ensures forall k :: k in r.states && k !in states ==> Eligible(wm, current, prev, k, node, input)
    // anything but pointer input is ignored
    ensures !input.IsMouse() ==> r == StepResult(ps, states, [])
  {
    match input
    case MouseMoved(point) => MoveStep(ps, current, prev, wm, states, node, depth, point)
    case MouseLeftPress => PressStep(ps, current, prev, wm, states, node, depth)
    case MouseLeftRelease => ReleaseStep(ps, current, prev, wm, states, node, depth)
    case _ => StepResult(ps, states, [])
  }

  /**
   * The inner loop of the walk at one node: every pointer input of the tick,
   * in order, when the node's policy admits events on the node itself.
   */
  function NodeInputs(ps: PointerState, current: Point, prev: EventMap, wm: WidgetManager, states: States,
                      node: NodeId, depth: int, inputs: seq<InputEvent>): (r: StepResult)
    ensures forall i :: 0 <= i < |r.events| ==> r.events[i] == Event.New(node, r.events[i].eventType) && WalkKind(r.events[i].eventType)
    ensures !wm.PointerEventsOf(node).AdmitsSelf() ==> r == StepResult(ps, states, [])
    ensures states.Keys <= r.states.Keys
    ensures forall k :: k in r.states && k !in states ==> EligibleIn(wm, current, prev, k, node, inputs)
    decreases |inputs|
  {
    if inputs == [] then StepResult(ps, states, [])
    else
      var before := NodeInputs(ps, current, prev, wm, states, node, depth, inputs[..|inputs| - 1]);
      var input := inputs[|inputs| - 1];
      if input.IsMouse() && wm.PointerEventsOf(node).AdmitsSelf() then
        var step := PointerStep(before.pointer, current, prev, wm, before.states, node, depth, input);
        assert forall k :: EligibleIn(wm, current, prev, k, node, inputs[..|inputs| - 1]) ==> EligibleIn(wm, current, prev, k, node, inputs) by {
          forall k | EligibleIn(wm, current, prev, k, node, inputs[..|inputs| - 1])
            ensures EligibleIn(wm, current, prev, k, node, inputs)
          {
            var i :| 0 <= i < |inputs| - 1 && Eligible(wm, current, prev, k, node, inputs[..|inputs| - 1][i]);
            assert inputs[i] == inputs[..|inputs| - 1][i];
          }
        }
        StepResult(step.pointer, step.states, before.events + step.events)
      else
        assert forall k :: EligibleIn(wm, current, prev, k, node, inputs[..|inputs| - 1]) ==> EligibleIn(wm, current, prev, k, node, inputs) by {
          forall k | EligibleIn(wm, current, prev, k, node, inputs[..|inputs| - 1])
            ensures EligibleIn(wm, current, prev, k, node, inputs)
          {
            var i :| 0 <= i < |inputs| - 1 && Eligible(wm, current, prev, k, node, inputs[..|inputs| - 1][i]);
            assert inputs[i] == inputs[..|inputs| - 1][i];
          }
        }
        before
  }

  /** The node's loop extended by one input runs that input on the state the shorter loop left. */
  lemma NodeInputsSnoc(ps: PointerState, current: Point, prev: EventMap, wm: WidgetManager, states: States,
                       node: NodeId, depth: int, inputs: seq<InputEvent>, i: nat)
    requires i < |inputs|
    ensures var before := NodeInputs(ps, current, prev, wm, states, node, depth, inputs[..i]);
      NodeInputs(ps, current, prev, wm, states, node, depth, inputs[..i + 1])
      == if inputs[i].IsMouse() && wm.PointerEventsOf(node).AdmitsSelf() then
           var step := PointerStep(before.pointer, current, prev, wm, before.states, node, depth, inputs[i]);
           StepResult(step.pointer, step.states, before.events + step.events)
         else before
  {
    assert inputs[..i + 1][..i] == inputs[..i];
  }

  /** A node popped from the walk's stack, with its depth below the root. */
  datatype Visit = Visit(node: NodeId, depth: int)

  function VisitedNodes(visits: seq<Visit>): set<NodeId> {
    set i | 0 <= i < |visits| :: visits[i].node
  }

  /** The pointer part of the walk: every visited node in order. */
  function WalkFold(ps: PointerState, current: Point, prev: EventMap, wm: WidgetManager, states: States,
                    visits: seq<Visit>, inputs: seq<InputEvent>): StepResult
    decreases |visits|
  {
    if visits == [] then StepResult(ps, states, [])
    else
      var before := WalkFold(ps, current, prev, wm, states, visits[..|visits| - 1], inputs);
      var v := visits[|visits| - 1];
      var here := NodeInputs(before.pointer, current, prev, wm, before.states, v.node, v.depth, inputs);
      StepResult(here.pointer, here.states, before.events + here.events)
  }

  /** Each event is fresh, of a kind the walk emits, and aimed at one of `nodes` that admits events itself. */
  ghost predicate EmitsWithin(wm: WidgetManager, nodes: set<NodeId>, es: seq<Event>) {
    forall i :: 0 <= i < |es| ==>
      && es[i] == Event.New(es[i].target, es[i].eventType)
      && WalkKind(es[i].eventType)
      && es[i].target in nodes
      && wm.PointerEventsOf(es[i].target).AdmitsSelf()
  }

  /**
   * The walk only emits enter, leave, down and up, each to a visited node
   * that admits events itself.
   */
  lemma {:induction false} WalkFoldEmits(ps: PointerState, current: Point, prev: EventMap, wm: WidgetManager, states: States,
                                         visits: seq<Visit>, inputs: seq<InputEvent>)
    ensures EmitsWithin(wm, VisitedNodes(visits), WalkFold(ps, current, prev, wm, states, visits, inputs).events)
    decreases |visits|
  {
    if visits != [] {
      var init := visits[..|visits| - 1];
      var v := visits[|visits| - 1];
      WalkFoldEmits(ps, current, prev, wm, states, init, inputs);
      var before := WalkFold(ps, current, prev, wm, states, init, inputs);
      var here := NodeInputs(before.pointer, current, prev, wm, before.states, v.node, v.depth, inputs);
      var es := before.events + here.events;
      assert WalkFold(ps, current, prev, wm, states, visits, inputs).events == es;
      assert VisitedNodes(init) <= VisitedNodes(visits) by {
        forall n | n in VisitedNodes(init) ensures n in VisitedNodes(visits) {
          var i :| 0 <= i < |init| && init[i].node == n;
          assert visits[i] == init[i];
        }
      }
      assert v.node in VisitedNodes(visits);
      forall i | 0 <= i < |es|
        ensures && es[i] == Event.New(es[i].target, es[i].eventType)
                && WalkKind(es[i].eventType)
                && es[i].target in VisitedNodes(visits)
                && wm.PointerEventsOf(es[i].target).AdmitsSelf()
      {
        if i >= |before.events| {
          assert es[i] == here.events[i - |before.events|];
        } else {
          assert es[i] == before.events[i];
        }
      }
    }
  }

  /** The walk extended by one visit processes that node's inputs on the state the walk left. */
  lemma WalkFoldSnoc(ps: PointerState, current: Point, prev: EventMap, wm: WidgetManager, states: States,
                     visits: seq<Visit>, v: Visit, inputs: seq<InputEvent>)
    ensures var before := WalkFold(ps, current, prev, wm, states, visits, inputs);
      var here := NodeInputs(before.pointer, current, prev, wm, before.states, v.node, v.depth, inputs);
      WalkFold(ps, current, prev, wm, states, visits + [v], inputs)
        == StepResult(here.pointer, here.states, before.events + here.events)
  {
    assert (visits + [v])[..|visits|] == visits;
  }

  /** The walk holds contests for Hover, Focus and Click only. */
  lemma {:induction false} WalkContestKinds(ps: PointerState, current: Point, prev: EventMap, wm: WidgetManager,
                                            visits: seq<Visit>, inputs: seq<InputEvent>)
    ensures forall k :: k in WalkFold(ps, current, prev, wm, map[], visits, inputs).states ==>
      k == Hover || k == EventType.Focus || k == Click
    decreases |visits|
  {
    if visits != [] {
      var init := visits[..|visits| - 1];
      WalkContestKinds(ps, current, prev, wm, init, inputs);
      var before := WalkFold(ps, current, prev, wm, map[], init, inputs);
      var v := visits[|visits| - 1];
      var here := NodeInputs(before.pointer, current, prev, wm, before.states, v.node, v.depth, inputs);
      forall k | k in here.states ensures k == Hover || k == EventType.Focus || k == Click {
        if k !in before.states {
          var i :| 0 <= i < |inputs| && Eligible(wm, current, prev, k, v.node, inputs[i]);
        }
      }
    }
  }

  /** The offers a node makes for `kind`, in input order. */
  function NodeCandidates(wm: WidgetManager, current: Point, prev: EventMap, kind: EventType,
                          node: NodeId, depth: int, inputs: seq<InputEvent>): seq<Candidate>
    decreases |inputs|
  {
    if inputs == [] then []
    else
      NodeCandidates(wm, current, prev, kind, node, depth, inputs[..|inputs| - 1])
      + (if inputs[|inputs| - 1].IsMouse() && wm.PointerEventsOf(node).AdmitsSelf()
            && Eligible(wm, current, prev, kind, node, inputs[|inputs| - 1])
         then [Candidate(node, depth, wm.layouts[node].zIndex)] else [])
  }

  /** The offers the whole walk makes for `kind`, in visiting order. */
  function WalkCandidates(wm: WidgetManager, current: Point, prev: EventMap, kind: EventType,
                          visits: seq<Visit>, inputs: seq<InputEvent>): seq<Candidate>
    decreases |visits|
  {
    if visits == [] then []
    else
      var v := visits[|visits| - 1];
      WalkCandidates(wm, current, prev, kind, visits[..|visits| - 1], inputs)
      + NodeCandidates(wm, current, prev, kind, v.node, v.depth, inputs)
  }

  /** At one node, each kind's contest state is the fold of that node's offers. */
  lemma {:induction false} NodeInputsOffers(ps: PointerState, current: Point, prev: EventMap, wm: WidgetManager, states: States,
                                            node: NodeId, depth: int, inputs: seq<InputEvent>, kind: EventType)
    ensures StateOf(NodeInputs(ps, current, prev, wm, states, node, depth, inputs).states, kind)
         == OfferAll(StateOf(states, kind), NodeCandidates(wm, current, prev, kind, node, depth, inputs))
    decreases |inputs|
  {
    if inputs != [] {
      var init := inputs[..|inputs| - 1];
      NodeInputsOffers(ps, current, prev, wm, states, node, depth, init, kind);
      var before := NodeInputs(ps, current, prev, wm, states, node, depth, init);
      var cs := NodeCandidates(wm, current, prev, kind, node, depth, init);
      var input := inputs[|inputs| - 1];
      if input.IsMouse() && wm.PointerEventsOf(node).AdmitsSelf() && Eligible(wm, current, prev, kind, node, input) {
        var c := Candidate(node, depth, wm.layouts[node].zIndex);
        assert (cs + [c])[..|cs|] == cs;
      } else {
        assert cs + [] == cs;
      }
    }
  }

  /** Over the whole walk, each kind's contest state is the fold of all offers for it. */
  lemma {:induction false} WalkOffers(ps: PointerState, current: Point, prev: EventMap, wm: WidgetManager, states: States,
                                      visits: seq<Visit>, inputs: seq<InputEvent>, kind: EventType)
    ensures StateOf(WalkFold(ps, current, prev, wm, states, visits, inputs).states, kind)
         == OfferAll(StateOf(states, kind), WalkCandidates(wm, current, prev, kind, visits, inputs))
    decreases |visits|
  {
    if visits != [] {
      var init := visits[..|visits| - 1];
      var v := visits[|visits| - 1];
      WalkOffers(ps, current, prev, wm, states, init, inputs, kind);
      var before := WalkFold(ps, current, prev, wm, states, init, inputs);
      NodeInputsOffers(before.pointer, current, prev, wm, before.states, v.node, v.depth, inputs, kind);
      OfferAllAppend(StateOf(states, kind), WalkCandidates(wm, current, prev, kind, init, inputs),
                     NodeCandidates(wm, current, prev, kind, v.node, v.depth, inputs));
    }
  }

  /** Every offer for `kind` comes from a visited node that admits events and is eligible for it. */
  lemma {:induction false} NodeCandidatesEligible(wm: WidgetManager, current: Point, prev: EventMap, kind: EventType,
                                                  node: NodeId, depth: int, inputs: seq<InputEvent>)
    ensures forall c :: c in NodeCandidates(wm, current, prev, kind, node, depth, inputs) ==>
      && c.node == node && c.depth == depth && node in wm.layouts && c.z == wm.layouts[node].zIndex
      && wm.PointerEventsOf(node).AdmitsSelf() && EligibleIn(wm, current, prev, kind, node, inputs)
    decreases |inputs|
  {
    if inputs != [] {
      var init := inputs[..|inputs| - 1];
      NodeCandidatesEligible(wm, current, prev, kind, node, depth, init);
      forall c | c in NodeCandidates(wm, current, prev, kind, node, depth, inputs)
        ensures EligibleIn(wm, current, prev, kind, node, inputs)
      {
        if c in NodeCandidates(wm, current, prev, kind, node, depth, init) {
          var i :| 0 <= i < |init| && Eligible(wm, current, prev, kind, node, init[i]);
          assert inputs[i] == init[i];
        } else {
          assert Eligible(wm, current, prev, kind, node, inputs[|inputs| - 1]);
        }
      }
    }
  }

  lemma {:induction false} WalkCandidatesEligible(wm: WidgetManager, current: Point, prev: EventMap, kind: EventType,
                                                  visits: seq<Visit>, inputs: seq<InputEvent>)
    ensures forall c :: c in WalkCandidates(wm, current, prev, kind, visits, inputs) ==>
      && Visit(c.node, c.depth) in visits && c.node in wm.layouts && c.z == wm.layouts[c.node].zIndex
      && wm.PointerEventsOf(c.node).AdmitsSelf() && EligibleIn(wm, current, prev, kind, c.node, inputs)
    decreases |visits|
  {
    if visits != [] {
      var init := visits[..|visits| - 1];
      var v := visits[|visits| - 1];
      WalkCandidatesEligible(wm, current, prev, kind, init, inputs);
      NodeCandidatesEligible(wm, current, prev, kind, v.node, v.depth, inputs);
      forall c | c in WalkCandidates(wm, current, prev, kind, visits, inputs)
        ensures Visit(c.node, c.depth) in visits
      {
        if c in WalkCandidates(wm, current, prev, kind, init, inputs) {
          assert Visit(c.node, c.depth) in init;
        } else {
          assert Visit(c.node, c.depth) == v;
        }
      }
    }
  }

  /**
   * The winner of a contest after a walk that started with no contests: a
   * node was offered, no offer for the kind has a higher z-index, and any
   * later offer is lower or at equal z-index shallower; no offer at the
   * winning z-index is deeper. The winner is a
   * visited node that admits events and qualifies for the kind.
   */
  lemma WalkWinner(ps: PointerState, current: Point, prev: EventMap, wm: WidgetManager,
                   visits: seq<Visit>, inputs: seq<InputEvent>, kind: EventType) returns (i: nat)
    requires var r := WalkFold(ps, current, prev, wm, map[], visits, inputs);
      kind in r.states && r.states[kind].bestMatch.Some?
    ensures var cs := WalkCandidates(wm, current, prev, kind, visits, inputs);
      var r := WalkFold(ps, current, prev, wm, map[], visits, inputs);
      && i < |cs|
      && r.states[kind] == EventState(Some(cs[i].z), Some(cs[i].node), cs[i].depth)
      && (forall j :: 0 <= j < |cs| ==> cs[j].z <= cs[i].z)
      && (forall j :: i < j < |cs| ==> cs[j].z < cs[i].z || cs[j].depth < cs[i].depth)
      && (forall j :: 0 <= j < |cs| && cs[j].z == cs[i].z ==> cs[j].depth <= cs[i].depth)
      && Visit(cs[i].node, cs[i].depth) in visits
      && wm.PointerEventsOf(cs[i].node).AdmitsSelf()
      && EligibleIn(wm, current, prev, kind, cs[i].node, inputs)
  {
    var cs := WalkCandidates(wm, current, prev, kind, visits, inputs);
    WalkOffers(ps, current, prev, wm, map[], visits, inputs, kind);
    assert StateOf(map[], kind) == DefaultState();
    if cs == [] {
      assert false;
    }
    i := OfferAllWinner(cs);
    WalkCandidatesEligible(wm, current, prev, kind, visits, inputs);
    assert cs[i] in cs;
  }

}
