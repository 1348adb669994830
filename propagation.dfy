/**
 * Propagation of one event up the parent chain and the default action of
 * Tab (the pure specification of `dispatch_events` and `execute_default`).
 */
module Propagation {
  import opened Options
  import opened Input
  import opened Events
  import opened Widgets
  import opened EventMaps
  import opened FocusRing

  /**
   * A widget's `on_event`, seen through what it may do to the event it
   * receives: the calls it makes to `stop_propagation` and `prevent_default`.
   */
  type Handler = Event -> seq<Mutation>

  /** The copies handed to the handlers, in order, and the original event afterwards. */
  datatype Chain = Chain(delivered: seq<Event>, event: Event)

  /**
   * The propagation loop from `node` upward: a copy with `currentTarget`
   * set to the visited node goes to its handler, the copy's prevented flag
   * is ORed into the original, and the walk moves to the parent only while
   * the copy still propagates.
   */
  function ChainFrom(t: Tree, h: Handler, e: Event, node: NodeId): (c: Chain)
    requires t.Valid()
    decreases t.Rank(node)
  {
    var copy := e.(currentTarget := node);
    var handled := copy.Handled(h(copy));
    var acc := e.(defaultPrevented := e.defaultPrevented || handled.defaultPrevented);
    if handled.shouldPropagate && node in t.parent then
      var rest := ChainFrom(t, h, acc, t.parent[node]);
      Chain([copy] + rest.delivered, rest.event)
    else
      Chain([copy], acc)
  }

  /** The chain of an event, starting at its target. */
  function Dispatched(t: Tree, h: Handler, e: Event): Chain
    requires t.Valid()
  {
    ChainFrom(t, h, e, e.target)
  }

  /** Some handler along the chain called `prevent_default`. */
  ghost predicate SomePrevented(h: Handler, ds: seq<Event>, upTo: int) {
    exists j :: 0 <= j < upTo && j < |ds| && PreventDefaultCall in h(ds[j])
  }

  /**
   * Shape of a chain: each copy keeps the original's target, kind and
   * propagation flag, the first copy is at `node`, and each next copy is at
   * the parent of the one before.
   */
  lemma ChainShape(t: Tree, h: Handler, e: Event, node: NodeId)
    requires t.Valid()
    ensures var ds := ChainFrom(t, h, e, node).delivered;
      && |ds| >= 1
      && ds[0].currentTarget == node
      && (forall i :: 0 <= i < |ds| ==>
            ds[i].target == e.target && ds[i].eventType == e.eventType && ds[i].shouldPropagate == e.shouldPropagate)
      && (forall i :: 0 <= i < |ds| - 1 ==>
            ds[i].currentTarget in t.parent && ds[i + 1].currentTarget == t.parent[ds[i].currentTarget])
    ensures ChainFrom(t, h, e, node).event.(defaultPrevented := e.defaultPrevented) == e
  {
    ChainCopies(t, h, e, node);
    ChainLinks(t, h, e, node);
  }

  /** Each copy keeps the original's target, kind and propagation flag, and so does the event afterwards. */
  lemma {:induction false} ChainCopies(t: Tree, h: Handler, e: Event, node: NodeId)
    requires t.Valid()
    ensures var ds := ChainFrom(t, h, e, node).delivered;
      forall i :: 0 <= i < |ds| ==>
        ds[i].target == e.target && ds[i].eventType == e.eventType && ds[i].shouldPropagate == e.shouldPropagate
    ensures ChainFrom(t, h, e, node).event.(defaultPrevented := e.defaultPrevented) == e
    decreases t.Rank(node)
  {
    var copy := e.(currentTarget := node);
    var handled := copy.Handled(h(copy));
    var acc := e.(defaultPrevented := e.defaultPrevented || handled.defaultPrevented);
    if handled.shouldPropagate && node in t.parent {
      ChainCopies(t, h, acc, t.parent[node]);
      var rest := ChainFrom(t, h, acc, t.parent[node]).delivered;
      var ds := ChainFrom(t, h, e, node).delivered;
      assert ds == [copy] + rest;
      forall i | 0 <= i < |ds|
        ensures ds[i].target == e.target && ds[i].eventType == e.eventType && ds[i].shouldPropagate == e.shouldPropagate
      {
        if i > 0 { assert ds[i] == rest[i - 1]; }
      }
    }
  }

  /** The first copy is at `node` and each next copy is at the parent of the one before. */
  lemma {:induction false} ChainLinks(t: Tree, h: Handler, e: Event, node: NodeId)
    requires t.Valid()
    ensures var ds := ChainFrom(t, h, e, node).delivered;
      && |ds| >= 1
      && ds[0].currentTarget == node
      && (forall i :: 0 <= i < |ds| - 1 ==>
            ds[i].currentTarget in t.parent && ds[i + 1].currentTarget == t.parent[ds[i].currentTarget])
    decreases t.Rank(node)
  {
    var copy := e.(currentTarget := node);
    var handled := copy.Handled(h(copy));
    var acc := e.(defaultPrevented := e.defaultPrevented || handled.defaultPrevented);
    if handled.shouldPropagate && node in t.parent {
      ChainLinks(t, h, acc, t.parent[node]);
      var rest := ChainFrom(t, h, acc, t.parent[node]).delivered;
      var ds := ChainFrom(t, h, e, node).delivered;
      assert ds == [copy] + rest;
      forall i | 0 <= i < |ds| - 1
        ensures ds[i].currentTarget in t.parent && ds[i + 1].currentTarget == t.parent[ds[i].currentTarget]
      {
        if i > 0 { assert ds[i] == rest[i - 1]; }
      }
    }
  }

  /**
   * Each copy carries the OR of the original's prevented flag with the
   * flags set by the handlers before it; afterwards the original's
   * prevented flag is the OR over the whole chain.
   */
  lemma {:induction false} ChainPrevented(t: Tree, h: Handler, e: Event, node: NodeId)
    requires t.Valid()
    ensures var c := ChainFrom(t, h, e, node);
      && (forall i :: 0 <= i < |c.delivered| ==>
            (c.delivered[i].defaultPrevented <==> e.defaultPrevented || SomePrevented(h, c.delivered, i)))
      && (c.event.defaultPrevented <==> e.defaultPrevented || SomePrevented(h, c.delivered, |c.delivered|))
    decreases t.Rank(node)
  {
    var copy := e.(currentTarget := node);
    var handled := copy.Handled(h(copy));
    var acc := e.(defaultPrevented := e.defaultPrevented || handled.defaultPrevented);
    var c := ChainFrom(t, h, e, node);
    if handled.shouldPropagate && node in t.parent {
      ChainPrevented(t, h, acc, t.parent[node]);
      var rest := ChainFrom(t, h, acc, t.parent[node]).delivered;
      assert c.delivered == [copy] + rest;
      forall i | 0 <= i <= |c.delivered|
        ensures SomePrevented(h, c.delivered, i) <==>
          (i > 0 && (PreventDefaultCall in h(copy) || SomePrevented(h, rest, i - 1)))
      {
        SomePreventedCons(h, copy, rest, i);
      }
      forall i | 0 <= i < |c.delivered|
        ensures c.delivered[i].defaultPrevented <==> e.defaultPrevented || SomePrevented(h, c.delivered, i)
      {
        if i > 0 { assert c.delivered[i] == rest[i - 1]; }
      }
    } else {
      assert SomePrevented(h, c.delivered, 1) <==> PreventDefaultCall in h(copy) by {
        assert c.delivered[0] == copy;
      }
    }
  }

  /** A handler among the first `i` of `[d] + ds` prevents exactly when `d`'s does or one among the first `i - 1` of `ds`. */
  lemma SomePreventedCons(h: Handler, d: Event, ds: seq<Event>, i: int)
    requires 0 <= i
    ensures SomePrevented(h, [d] + ds, i) <==> (i > 0 && (PreventDefaultCall in h(d) || SomePrevented(h, ds, i - 1)))
  {
    var all := [d] + ds;
    if SomePrevented(h, all, i) {
      var j :| 0 <= j < i && j < |all| && PreventDefaultCall in h(all[j]);
      if j > 0 { assert all[j] == ds[j - 1]; }
    }
    if i > 0 && SomePrevented(h, ds, i - 1) {
      var j :| 0 <= j < i - 1 && j < |ds| && PreventDefaultCall in h(ds[j]);
      assert all[j + 1] == ds[j];
    }
    if i > 0 && PreventDefaultCall in h(d) {
      assert all[0] == d;
    }
  }

  /**
   * Every copy but the last was allowed to propagate: so if the handler at
   * some copy stops propagation, that copy is the last one delivered.
   */
  lemma {:induction false} ChainStopsOnlyAtEnd(t: Tree, h: Handler, e: Event, node: NodeId)
    requires t.Valid()
    ensures var c := ChainFrom(t, h, e, node);
      && (forall i :: 0 <= i < |c.delivered| - 1 ==> e.shouldPropagate && StopPropagationCall !in h(c.delivered[i]))
      && var last := c.delivered[|c.delivered| - 1];
         !e.shouldPropagate || StopPropagationCall in h(last) || last.currentTarget !in t.parent
    decreases t.Rank(node)
  {
    var copy := e.(currentTarget := node);
    var handled := copy.Handled(h(copy));
    var acc := e.(defaultPrevented := e.defaultPrevented || handled.defaultPrevented);
    if handled.shouldPropagate && node in t.parent {
      ChainStopsOnlyAtEnd(t, h, acc, t.parent[node]);
      var c := ChainFrom(t, h, e, node);
      var rest := ChainFrom(t, h, acc, t.parent[node]);
      forall i | 0 <= i < |c.delivered| - 1
        ensures e.shouldPropagate && StopPropagationCall !in h(c.delivered[i])
      {
        if i > 0 { assert c.delivered[i] == rest.delivered[i - 1]; }
      }
      assert c.delivered[|c.delivered| - 1] == rest.delivered[|rest.delivered| - 1];
    }
  }

  lemma {:induction false} AncestorHasSmallerRank(t: Tree, a: NodeId, m: NodeId)
    requires t.Valid()
    requires t.IsAncestorOrSelf(a, m)
    ensures t.Rank(a) <= t.Rank(m)
    ensures a != m ==> t.Rank(a) < t.Rank(m)
    decreases t.Rank(m)
  {
    if a != m {
      AncestorHasSmallerRank(t, a, t.parent[m]);
    }
  }

  /**
   * A handler that stops propagation at node `n` guarantees that no
   * ancestor of `n` receives the event.
   */
  lemma StopPropagationShieldsAncestors(t: Tree, h: Handler, e: Event, i: nat)
    requires t.Valid()
    requires var c := Dispatched(t, h, e);
      i < |c.delivered| && StopPropagationCall in h(c.delivered[i])
    ensures var c := Dispatched(t, h, e);
      forall d :: d in c.delivered ==> !t.IsProperAncestor(d.currentTarget, c.delivered[i].currentTarget)
  {
    var c := Dispatched(t, h, e);
    ChainShape(t, h, e, e.target);
    ChainStopsOnlyAtEnd(t, h, e, e.target);
    assert i == |c.delivered| - 1;
    var n := c.delivered[i].currentTarget;
    // ranks strictly decrease along the chain
    forall j | 0 <= j <= i ensures t.Rank(c.delivered[j].currentTarget) >= t.Rank(n) {
      var k := i;
      while k > j
        invariant j <= k <= i
        invariant t.Rank(c.delivered[k].currentTarget) >= t.Rank(n)
      {
        k := k - 1;
      }
    }
    forall d | d in c.delivered ensures !t.IsProperAncestor(d.currentTarget, n) {
      var j :| 0 <= j < |c.delivered| && c.delivered[j] == d;
      if t.IsProperAncestor(d.currentTarget, n) {
        AncestorHasSmallerRank(t, d.currentTarget, t.parent[n]);
        assert false;
      }
    }
  }

  /** An event that does not propagate reaches its starting node only. */
  lemma NonPropagatingReachesOnlyTarget(t: Tree, h: Handler, e: Event, node: NodeId)
    requires t.Valid() && !e.shouldPropagate
    ensures ChainFrom(t, h, e, node).delivered == [e.(currentTarget := node)]
  {
  }

  /** All chains of `events`, one after another. */
  function OuterLog(t: Tree, h: Handler, events: seq<Event>): seq<Event>
    requires t.Valid()
    decreases |events|
  {
    if events == [] then []
    else OuterLog(t, h, events[..|events| - 1]) + Dispatched(t, h, events[|events| - 1]).delivered
  }

  /** The node `execute_default` moves the focus to, if any: Tab goes forward, Shift-Tab back. */
  function TabTarget(order: seq<NodeId>, current: Option<NodeId>, e: Event): (r: Option<NodeId>)
    ensures r.Some? ==> e.eventType.KeyDown? && e.eventType.keyDown.key == Tab
    ensures e.eventType.KeyDown? && e.eventType.keyDown.key == Tab ==>
      r == if e.eventType.keyDown.IsShiftPressed() then RingPrev(order, current) else RingNext(order, current)
  {
    match e.eventType
    case KeyDown(k) =>
      if k.key == Tab then
        if k.IsShiftPressed() then RingPrev(order, current) else RingNext(order, current)
      else None
    case _ => None
  }

  /** What the default action dispatches: Focus for the new node, then Blur for the old one if it differs. */
  function DefaultEvents(order: seq<NodeId>, current: Option<NodeId>, e: Event): (es: seq<Event>)
    ensures forall i :: 0 <= i < |es| ==> es[i].eventType == EventType.Focus || es[i].eventType == Blur
  {
    match TabTarget(order, current, e)
    case Some(index) =>
      [Event.New(index, EventType.Focus)]
      + (if current.Some? && current.value != index then [Event.New(current.value, Blur)] else [])
    case None => []
  }

  /** The focus after the default action. */
  function FocusAfterDefault(order: seq<NodeId>, current: Option<NodeId>, e: Event): Option<NodeId> {
    match TabTarget(order, current, e)
    case Some(index) => Some(index)
    case None => current
  }

  /** The focus after dispatching `events`. */
  function FocusAfterAll(t: Tree, h: Handler, order: seq<NodeId>, current: Option<NodeId>, events: seq<Event>): Option<NodeId>
    requires t.Valid()
    decreases |events|
  {
    if events == [] then current
    else EventFocus(t, h, order, FocusAfterAll(t, h, order, current, events[..|events| - 1]), events[|events| - 1])
  }

  /** The focus after dispatching one event with the focus at `before`: its default action moves it unless prevented. */
  function EventFocus(t: Tree, h: Handler, order: seq<NodeId>, before: Option<NodeId>, e: Event): Option<NodeId>
    requires t.Valid()
  {
    var c := Dispatched(t, h, e);
    if c.event.defaultPrevented then before else FocusAfterDefault(order, before, c.event)
  }

  /** The handler invocations of one event with the focus at `before`: its chain, then its default action's chains. */
  function EventLog(t: Tree, h: Handler, order: seq<NodeId>, before: Option<NodeId>, e: Event): seq<Event>
    requires t.Valid()
  {
    var c := Dispatched(t, h, e);
    c.delivered + (if c.event.defaultPrevented then [] else OuterLog(t, h, DefaultEvents(order, before, c.event)))
  }

  /**
   * Every handler invocation of `dispatch_events`, in order: each event's
   * chain, followed, when no handler prevented the default, by the chains of
   * the events its default action dispatches.
   */
  function DispatchLog(t: Tree, h: Handler, order: seq<NodeId>, current: Option<NodeId>, events: seq<Event>): seq<Event>
    requires t.Valid()
    decreases |events|
  {
    if events == [] then []
    else
      var init := events[..|events| - 1];
      DispatchLog(t, h, order, current, init) + EventLog(t, h, order, FocusAfterAll(t, h, order, current, init), events[|events| - 1])
  }

  /** One event's share, read off its chain. */
  lemma EventShare(t: Tree, h: Handler, order: seq<NodeId>, before: Option<NodeId>, e: Event, c: Chain)
    requires t.Valid() && Dispatched(t, h, e) == c
    ensures EventLog(t, h, order, before, e)
      == c.delivered + (if c.event.defaultPrevented then [] else OuterLog(t, h, DefaultEvents(order, before, c.event)))
    ensures EventFocus(t, h, order, before, e)
      == (if c.event.defaultPrevented then before else FocusAfterDefault(order, before, c.event))
  {
  }

  /** The logs of `events[..i + 1]` extend those of `events[..i]` by the share of `events[i]`. */
  lemma LogsStep(t: Tree, h: Handler, order: seq<NodeId>, current: Option<NodeId>, events: seq<Event>, i: nat)
    requires t.Valid() && i < |events|
    ensures var before := FocusAfterAll(t, h, order, current, events[..i]);
      && Dispatched(t, h, events[i]).event.eventType == events[i].eventType
      && OuterLog(t, h, events[..i + 1]) == OuterLog(t, h, events[..i]) + Dispatched(t, h, events[i]).delivered
      && FocusAfterAll(t, h, order, current, events[..i + 1]) == EventFocus(t, h, order, before, events[i])
      && DispatchLog(t, h, order, current, events[..i + 1])
         == DispatchLog(t, h, order, current, events[..i]) + EventLog(t, h, order, before, events[i])
  {
    var pre := events[..i + 1];
    assert pre[..|pre| - 1] == events[..i] && pre[|pre| - 1] == events[i];
    ChainShape(t, h, events[i], events[i].target);
  }

  ghost predicate OnlyFocusEvents(events: seq<Event>) {
    forall i :: 0 <= i < |events| ==> events[i].eventType == EventType.Focus || events[i].eventType == Blur
  }

  /** Focus and Blur have no default action, so dispatching them is just their chains. */
  lemma {:induction false} FocusEventsHaveNoDefault(t: Tree, h: Handler, order: seq<NodeId>, current: Option<NodeId>, events: seq<Event>)
    requires t.Valid() && OnlyFocusEvents(events)
    ensures DispatchLog(t, h, order, current, events) == OuterLog(t, h, events)
    ensures FocusAfterAll(t, h, order, current, events) == current
    decreases |events|
  {
    if events != [] {
      var init := events[..|events| - 1];
      FocusEventsHaveNoDefault(t, h, order, current, init);
      ChainShape(t, h, events[|events| - 1], events[|events| - 1].target);
    }
  }

  /** Dispatching a single event. */
  lemma DispatchOne(t: Tree, h: Handler, order: seq<NodeId>, current: Option<NodeId>, e: Event)
    requires t.Valid()
    ensures var c := Dispatched(t, h, e);
      && DispatchLog(t, h, order, current, [e]) ==
           c.delivered + (if c.event.defaultPrevented then [] else OuterLog(t, h, DefaultEvents(order, current, c.event)))
      && FocusAfterAll(t, h, order, current, [e]) ==
           (if c.event.defaultPrevented then current else FocusAfterDefault(order, current, c.event))
  {
    DispatchOneLog(t, h, order, current, e);
    DispatchOneFocus(t, h, order, current, e);
  }

  /** The log half of `DispatchOne`. */
  lemma DispatchOneLog(t: Tree, h: Handler, order: seq<NodeId>, current: Option<NodeId>, e: Event)
    requires t.Valid()
    ensures DispatchLog(t, h, order, current, [e]) == EventLog(t, h, order, current, e)
  {
    assert [e][..0] == [];
  }

  /** The focus half of `DispatchOne`. */
  lemma DispatchOneFocus(t: Tree, h: Handler, order: seq<NodeId>, current: Option<NodeId>, e: Event)
    requires t.Valid()
    ensures FocusAfterAll(t, h, order, current, [e]) == EventFocus(t, h, order, current, e)
  {
    assert [e][..0] == [];
  }

  /**
   * If any handler along an event's chain prevents the default, the
   * default action does not run: nothing else is dispatched and the focus
   * does not move.
   */
  lemma PreventDefaultSuppressesDefault(t: Tree, h: Handler, order: seq<NodeId>, current: Option<NodeId>, e: Event)
    requires t.Valid()
    requires SomePrevented(h, Dispatched(t, h, e).delivered, |Dispatched(t, h, e).delivered|)
    ensures DispatchLog(t, h, order, current, [e]) == Dispatched(t, h, e).delivered
    ensures FocusAfterAll(t, h, order, current, [e]) == current
  {
    ChainPrevented(t, h, e, e.target);
    DispatchOne(t, h, order, current, e);
  }

  /**
   * Tab whose default is not prevented: the focus moves to the next node
   * (the previous one with Shift), which receives Focus; the node that lost
   * the focus then receives Blur.
   */
  lemma TabMovesFocus(t: Tree, h: Handler, order: seq<NodeId>, current: Option<NodeId>, e: Event, index: NodeId)
    requires t.Valid()
    requires e.eventType.KeyDown? && e.eventType.keyDown.key == Tab && !e.defaultPrevented
    requires !SomePrevented(h, Dispatched(t, h, e).delivered, |Dispatched(t, h, e).delivered|)
    requires (if e.eventType.keyDown.IsShiftPressed() then RingPrev(order, current) else RingNext(order, current)) == Some(index)
    ensures FocusAfterAll(t, h, order, current, [e]) == Some(index)
    ensures DispatchLog(t, h, order, current, [e]) ==
      Dispatched(t, h, e).delivered + ([Event.New(index, EventType.Focus)]
      + (if current.Some? && current.value != index then [Event.New(current.value, Blur)] else []))
  {
    UnpreventedChainKeepsEvent(t, h, e);
    DispatchOneLog(t, h, order, current, e);
    DispatchOneFocus(t, h, order, current, e);
    TabShare(t, h, order, current, e, index, Dispatched(t, h, e).delivered);
  }

  /** The share of a Tab that comes back from its chain unchanged. */
  lemma TabShare(t: Tree, h: Handler, order: seq<NodeId>, current: Option<NodeId>, e: Event, index: NodeId, ds: seq<Event>)
    requires t.Valid() && Dispatched(t, h, e) == Chain(ds, e) && !e.defaultPrevented
    requires e.eventType.KeyDown? && e.eventType.keyDown.key == Tab
    requires (if e.eventType.keyDown.IsShiftPressed() then RingPrev(order, current) else RingNext(order, current)) == Some(index)
    ensures EventFocus(t, h, order, current, e) == Some(index)
    ensures EventLog(t, h, order, current, e) == ds + ([Event.New(index, EventType.Focus)]
      + (if current.Some? && current.value != index then [Event.New(current.value, Blur)] else []))
  {
    EventShare(t, h, order, current, e, Chain(ds, e));
    TabDefault(order, current, e, index);
    FocusBlurReachOnlyTargets(t, h, index, current);
  }

  /** An event no handler prevents comes back from its chain unchanged. */
  lemma UnpreventedChainKeepsEvent(t: Tree, h: Handler, e: Event)
    requires t.Valid() && !e.defaultPrevented
    requires !SomePrevented(h, Dispatched(t, h, e).delivered, |Dispatched(t, h, e).delivered|)
    ensures Dispatched(t, h, e).event == e
  {
    ChainShape(t, h, e, e.target);
    ChainPrevented(t, h, e, e.target);
  }

  /** The default action of a Tab whose target is `index`. */
  lemma TabDefault(order: seq<NodeId>, current: Option<NodeId>, e: Event, index: NodeId)
    requires e.eventType.KeyDown? && e.eventType.keyDown.key == Tab
    requires (if e.eventType.keyDown.IsShiftPressed() then RingPrev(order, current) else RingNext(order, current)) == Some(index)
    ensures DefaultEvents(order, current, e) == [Event.New(index, EventType.Focus)]
      + (if current.Some? && current.value != index then [Event.New(current.value, Blur)] else [])
    ensures FocusAfterDefault(order, current, e) == Some(index)
  {
    assert TabTarget(order, current, e) == Some(index);
  }

  /** The Focus and Blur of a focus move each reach only their own node. */
  lemma FocusBlurReachOnlyTargets(t: Tree, h: Handler, index: NodeId, current: Option<NodeId>)
    requires t.Valid()
    ensures var es := [Event.New(index, EventType.Focus)]
      + (if current.Some? && current.value != index then [Event.New(current.value, Blur)] else []);
      OuterLog(t, h, es) == es
  {
    var focusEvent := Event.New(index, EventType.Focus);
    NonPropagatingReachesOnlyTarget(t, h, focusEvent, index);
    assert OuterLog(t, h, [focusEvent]) == [focusEvent] by {
      assert [focusEvent][..0] == [];
    }
    if current.Some? && current.value != index {
      var blurEvent := Event.New(current.value, Blur);
      NonPropagatingReachesOnlyTarget(t, h, blurEvent, current.value);
      assert ([focusEvent] + [blurEvent])[..1] == [focusEvent];
    } else {
      assert [focusEvent] + [] == [focusEvent];
    }
  }

  /** Dispatching only Focus and Blur events delivers only Focus and Blur copies. */
  lemma {:induction false} OuterLogKeepsFocusKinds(t: Tree, h: Handler, events: seq<Event>)
    requires t.Valid() && OnlyFocusEvents(events)
    ensures OnlyFocusEvents(OuterLog(t, h, events))
    decreases |events|
  {
    if events != [] {
      var init := events[..|events| - 1];
      var last := events[|events| - 1];
      OuterLogKeepsFocusKinds(t, h, init);
      ChainShape(t, h, last, last.target);
      var ds := Dispatched(t, h, last).delivered;
      var log := OuterLog(t, h, events);
      assert log == OuterLog(t, h, init) + ds;
      forall i | 0 <= i < |log| ensures log[i].eventType == EventType.Focus || log[i].eventType == Blur {
        if i >= |OuterLog(t, h, init)| {
          assert log[i] == ds[i - |OuterLog(t, h, init)|];
        } else {
          assert log[i] == OuterLog(t, h, init)[i];
        }
      }
    }
  }

}
