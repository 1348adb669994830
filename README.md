# kayak_ui event dispatch, modelled in Dafny

This project models the UI event subsystem of `kayak_core`. It covers the
`Event` value type and its kind tables (`event.rs`) and the `PointerEvents`
policy (`cursor.rs`). It also covers the `EventDispatcher` (`event_dispatcher.rs`),
which does the following each tick:

- Walks the widget tree depth-first with an explicit stack, turning raw
  pointer input into enter/leave/down/up events at the nodes under the pointer.
- Runs a contest per Hover, Focus and Click. Each contest is won by the node
  with the highest z-index, ties going to the deeper node.
- Sends keyboard input to the focused node.
- Moves the focus and emits Focus and Blur.
- Bubbles every event up the parent chain. A handler may stop propagation or
  prevent the default action. The Tab default action moves the focus and
  dispatches Focus and Blur re-entrantly.
- Replaces the map of node states kept between ticks with the map of this
  dispatch's deliveries. Held presses and enters are carried forward into it.

Modules, one per file:

| file | module | what it holds |
|---|---|---|
| options.dfy | `Options` | `Option` |
| input.dfy | `Input` | raw input: points, key codes, modifier snapshots, `InputEvent` |
| events.dfy | `Events` | `Event`, `EventType` with its propagation and category tables |
| cursor.dfy | `Cursor` | `PointerEvents` |
| widgets.dfy | `Widgets` | the node tree (acyclic through a rank), layouts, styles, the widget manager's queries, exposure to the walk |
| focus.dfy | `FocusRing` | the focus tree the dispatcher drives (class `FocusTree`) |
| best_match.dfy | `BestMatch` | `EventState` and the tie-break rule of `update_state` |
| event_maps.dfy | `EventMaps` | `contains_event`, `insert_event` and the carry-forward of `previous_events` |
| keyboard.dfy | `KeyboardInput` | `process_keyboard_events` as a pure step and fold |
| pointer.dfy | `PointerInput` | `process_pointer_events`, `can_contain_cursor`, the walk as a fold over visited nodes |
| walk.dfy | `PointerWalk` | the invariant of the stack walk: each node exposed to the walk is visited once |
| propagation.dfy | `Propagation` | the parent-chain walk of one event, the Tab default action, the log of a whole dispatch |
| dispatcher.dfy | `Dispatcher` | class `EventDispatcher`: its fields, accessors and imperative methods |

The imperative parts of `event_dispatcher.rs` are methods of the class
`EventDispatcher`. Each method is proved against a pure function of
`PointerInput`, `KeyboardInput`, `Propagation` or `EventMaps`, and the
lemmas beside those functions prove the properties the dispatcher promises.
Several loops iterate over a `HashMap` in no defined order: the resolution of
the contests and the carry-forward of `previous_events`. They are modelled
as loops that pick any remaining key, and their results are stated up to
order (as a multiset, or as a map).

## Model

| member | source | states |
|---|---|---|
| Events.Event.New | kayak_core/src/event.rs:34-42 | target and current target are the given node; the kind is the given one; the event propagates exactly when its kind does; the default is not prevented |
| Events.Event.Default | kayak_core/src/event.rs:17-27 | a Click at the default index that propagates and whose default is not prevented |
| Events.Event.StopPropagation | kayak_core/src/event.rs:50-52 | the result no longer propagates; the prevented flag, target, current target and kind are unchanged |
| Events.Event.PreventDefault | kayak_core/src/event.rs:60-62 | the result has its default prevented; propagation, target, current target and kind are unchanged |
| Events.StopPropagationIdempotent | kayak_core/src/event.rs:50-52 | stopping propagation twice equals stopping it once |
| Events.PreventDefaultIdempotent | kayak_core/src/event.rs:60-62 | preventing the default twice equals preventing it once |
| Events.Event.Apply | kayak_core/src/event.rs:44-62 | after a handler's calls, the event propagates iff it did and no call stopped it; the default is prevented iff it was or some call prevented it; neither flag can be undone; identity is kept |
| Events.ApplyIsHandled | kayak_core/src/event.rs:44-62 | making a handler's calls one by one gives the same event as setting both flags at once from the whole list, so neither the order nor the repetition of the calls matters |
| Events.PropagatesAsUiEvents | kayak_core/src/event.rs:88-108 | the propagation table agrees with the bubbling column of the W3C UI Events "Event Types" table: Focus, Blur, MouseIn (mouseenter) and MouseOut (mouseleave) do not bubble; Click, Hover (mousemove), MouseDown, MouseUp, CharInput, KeyDown and KeyUp do |
| Events.EventType.Category | kayak_core/src/event.rs:111-128 | Keyboard-category kinds propagate; Focus-category kinds do not; a Mouse-category kind propagates iff it is not MouseIn or MouseOut; the Focus category is exactly Focus and Blur, the Mouse category exactly Hover, Click, MouseDown, MouseUp, MouseIn and MouseOut, and the Keyboard category exactly CharInput, KeyUp and KeyDown |
| Cursor.Default | kayak_core/src/cursor.rs:14-18 | the default policy admits pointer events on the node and on its children |
| Cursor.FromAdmission | kayak_core/src/cursor.rs:3-12 | for every pair of admissions (self, children) there is a policy that has exactly those admissions |
| Cursor.AdmissionDeterminesPolicy | kayak_core/src/cursor.rs:3-12 | a policy is fixed by its two admissions: All admits both, SelfOnly only the node, ChildrenOnly only the children, None neither |
| Widgets.WidgetManager.PointerEventsOf | kayak_core/src/event_dispatcher.rs:214-221 | a node without a widget or styles gets the default policy |
| Widgets.ExposedUnderRoot | kayak_core/src/event_dispatcher.rs:193-250 | every node the walk can reach hangs below the root |
| Widgets.ExposedAncestors | kayak_core/src/event_dispatcher.rs:222-250 | every proper ancestor of a reachable node is reachable and lets the walk descend, so a None or SelfOnly node in a tick with pointer input hides its whole subtree |
| Widgets.ExposedIfAncestorsEnter | kayak_core/src/event_dispatcher.rs:222-250 | conversely, a node below the root whose proper ancestors all let the walk descend is reachable |
| Widgets.ClosedSetIsExposed | kayak_core/src/event_dispatcher.rs:206-250 | a set holding the root and exactly the children of its members that let the walk descend is the set of reachable nodes |
| Widgets.ChildrenAreExactlyParentOf | kayak_core/src/event_dispatcher.rs:244-248 | the children list of a node holds exactly the nodes whose parent it is |
| Widgets.ChildDepth | kayak_core/src/event_dispatcher.rs:245-247 | a pushed child is one level deeper than its parent, as the depth pushed with it says |
| BestMatch.DefaultState | kayak_core/src/event_dispatcher.rs:27-35 | no best match, best z-index minus infinity, best depth -1 |
| BestMatch.Offer | kayak_core/src/event_dispatcher.rs:454-473 | a strictly higher z-index always takes the best match and a lower one never does; at equal z-index the deeper or equally deep candidate wins; the best z-index never decreases and is finite afterwards; a best match, once set, stays set |
| BestMatch.UpdateState | kayak_core/src/event_dispatcher.rs:454-473 | the contest of the given kind is created if missing and gets the offer; every other kind's contest is unchanged; if every contest had a best match, every contest still has one |
| BestMatch.OfferAllWinner | kayak_core/src/event_dispatcher.rs:454-473 | after any non-empty run of offers from the default state, the best match is one of the candidates, with its z-index and depth; no candidate has a higher z-index; no candidate at the winning z-index is deeper; every later candidate is lower, or at equal z-index shallower, so at equal z-index and depth the last one wins |
| BestMatch.BestZIndexMonotone | kayak_core/src/event_dispatcher.rs:460-472 | the best z-index after a prefix of the offers is at most the best z-index after all of them |
| BestMatch.OfferAllAppend | kayak_core/src/event_dispatcher.rs:454-473 | offering two runs in turn equals offering their concatenation |
| EventMaps.EqualByContents | kayak_core/src/event_dispatcher.rs:476-488 | two maps built only by insertion are equal iff they hold the same (node, kind) pairs |
| EventMaps.InsertEvent | kayak_core/src/event_dispatcher.rs:485-488 | after insertion the map holds exactly the old pairs plus the inserted one; it still has no empty entries |
| EventMaps.RecordAllContents | kayak_core/src/event_dispatcher.rs:127-141 | recording a sequence of deliveries adds exactly the (current target, kind) pairs delivered |
| EventMaps.RecordOneMore | kayak_core/src/event_dispatcher.rs:140 | recording one more delivery is inserting its pair |
| EventMaps.RecordNext | kayak_core/src/event_dispatcher.rs:128-141 | the map of the deliveries so far, extended by the next delivery, is the map of the extended log |
| EventMaps.CarryPartial | kayak_core/src/event_dispatcher.rs:164-181 | after the carry-forward loop has visited some previous holders, the map holds the new pairs plus what those holders carry |
| EventMaps.CarryForward | kayak_core/src/event_dispatcher.rs:162-181 | the stored map holds exactly: every pair recorded this dispatch; MouseDown for a previous holder while the mouse is pressed; MouseIn for a previous holder with no MouseOut recorded this dispatch; nothing else of the old map |
| EventMaps.CarryStep | kayak_core/src/event_dispatcher.rs:164-181 | one turn of the carry-forward loop at a node adds exactly that node's carried pairs |
| EventMaps.CarryForwardRespectsEquivalence | kayak_core/src/event_dispatcher.rs:162-181 | two previous maps that carry the same MouseDown and MouseIn pairs give the same stored map |
| EventMaps.CarryForwardKeepsCarry | kayak_core/src/event_dispatcher.rs:162-181 | a nested dispatch that records no MouseDown or MouseIn leaves a map that carries the same pairs as the one it replaced |
| EventMaps.CarryEquivalentTransitive | kayak_core/src/event_dispatcher.rs:162-181 | carrying the same pairs is transitive |
| KeyboardInput.UpdateModifiers | kayak_core/src/event_dispatcher.rs:415-432 | a modifier key sets its own flag to pressed or released; every other flag is kept |
| KeyboardInput.KeyboardStep | kayak_core/src/event_dispatcher.rs:403-451 | with no focus, nothing is emitted and the modifiers are not tracked; pointer input is ignored; a character becomes CharInput at the focused node; a key becomes KeyDown when pressed and KeyUp when released, at the focused node, carrying the modifiers as updated by that key |
| KeyboardInput.KeyboardFold | kayak_core/src/event_dispatcher.rs:253-256 | over a tick, with no focus nothing is emitted; with a focus there is one fresh keyboard-category event per non-pointer input, each aimed at the focused node |
| KeyboardInput.ShiftTabReportsShift | kayak_core/src/event_dispatcher.rs:415-441 | Tab pressed after a shift key is reported with shift held |
| KeyboardInput.PressReleaseClearsModifier | kayak_core/src/event_dispatcher.rs:415-441 | pressing then releasing a modifier key leaves it cleared and every other modifier as before |
| FocusRing.RingNext | kayak_core/src/event_dispatcher.rs:513-517 | there is a next focusable node iff any node is focusable, and it is a focusable node |
| FocusRing.RingPrev | kayak_core/src/event_dispatcher.rs:513-517 | there is a previous focusable node iff any node is focusable, and it is a focusable node |
| FocusRing.FocusTree.SetFocus | kayak_core/src/event_dispatcher.rs:275 | the given node becomes the focus |
| FocusRing.FocusTree.Blur | kayak_core/src/event_dispatcher.rs:287 | nothing is focused afterwards |
| PointerInput.EnterLeave | kayak_core/src/event_dispatcher.rs:318-327 | MouseIn exactly when the node did not contain the old position and contains the new one; MouseOut exactly for the reverse; nothing when containment is unchanged |
| PointerInput.Latch | kayak_core/src/event_dispatcher.rs:328-343 | a tristate already true, or a node that does not qualify, leaves it as it was; otherwise it becomes whether the node contains the new point; so it becomes true only if it was true or a qualifying node contains the point |
| PointerInput.Contest | kayak_core/src/event_dispatcher.rs:345-393 | each kind's contest is the old one with this node's offer when the node is eligible for that kind (Hover on a move inside it, Focus on a press on a focusable node, Click on a release after a MouseDown), and unchanged otherwise; a contest is created exactly for an eligible kind that had none |
| PointerInput.MoveStep | kayak_core/src/event_dispatcher.rs:317-353 | the events are EnterLeave's for the position before the tick and the new one; each cursor tristate is updated as Latch says, for a node that can hold the cursor and for a focusable node respectively; the node contends for Hover as Contest says, exactly when the new point is inside it; the new point is kept for the end of the tick; press state, cursor holder and last click are unchanged |
| PointerInput.PressStep | kayak_core/src/event_dispatcher.rs:354-379 | the mouse is pressed; MouseDown iff the node contains the position from before the tick; the cursor is claimed iff nobody holds it and the node is hit and can contain it; a focusable node that is hit contends for Focus |
| PointerInput.ReleaseStep | kayak_core/src/event_dispatcher.rs:380-396 | the mouse is released and the cursor freed wherever the pointer is; MouseUp and last_clicked iff the node is hit; a Click contender only where the previous dispatch recorded MouseDown |
| PointerInput.PointerStep | kayak_core/src/event_dispatcher.rs:306-398 | at most one fresh pointer-kind event at the node; cursor tristates latch once true; the node contends exactly for the kinds it is eligible for; non-pointer input changes nothing |
| PointerInput.NodeInputs | kayak_core/src/event_dispatcher.rs:211-241 | the node's events are aimed at it; a node whose policy does not admit itself emits and contends for nothing; new contests come only from its eligibility |
| PointerInput.NodeInputsSnoc | kayak_core/src/event_dispatcher.rs:211-241 | one more input at a node is processed by the pointer step on the state the earlier inputs left when it is a mouse input and the node admits events, and is skipped otherwise |
| PointerInput.WalkFoldEmits | kayak_core/src/event_dispatcher.rs:206-250 | the walk emits only enter, leave, down and up, each a fresh event aimed at a visited node whose policy admits it |
| PointerInput.WalkFoldSnoc | kayak_core/src/event_dispatcher.rs:207-250 | the walk extended by one visit processes that node's inputs on the state the walk left |
| PointerInput.WalkContestKinds | kayak_core/src/event_dispatcher.rs:346-349 | the walk holds contests for Hover, Focus and Click only |
| PointerInput.NodeInputsOffers | kayak_core/src/event_dispatcher.rs:211-241 | at one node, each kind's contest is the fold of that node's offers for it |
| PointerInput.WalkOffers | kayak_core/src/event_dispatcher.rs:206-250 | over the walk, each kind's contest is the fold of every offer for it in visiting order |
| PointerInput.NodeCandidatesEligible | kayak_core/src/event_dispatcher.rs:223-231 | each offer at a node comes from that node, which admits events and is eligible for the kind |
| PointerInput.WalkCandidatesEligible | kayak_core/src/event_dispatcher.rs:206-250 | each offer of the walk comes from a visited node, at its depth, which admits events and is eligible |
| PointerInput.WalkWinner | kayak_core/src/event_dispatcher.rs:206-264 | the winner of a contest is a visited node that admits events and is eligible; no offer has a higher z-index; no offer at the winning z-index is deeper; every later offer is lower or, at equal z-index, shallower |
| PointerWalk.ChildVisits | kayak_core/src/event_dispatcher.rs:244-248 | one entry per child, in list order, each at the given depth |
| PointerWalk.FrontierStart | kayak_core/src/event_dispatcher.rs:204-206 | the stack seeded with the root at depth 0 satisfies the walk invariant |
| PointerWalk.FrontierStep | kayak_core/src/event_dispatcher.rs:207-250 | popping a node and pushing its entered children keeps the invariant; the popped node is in the tree and not visited before |
| PointerWalk.FrontierDone | kayak_core/src/event_dispatcher.rs:207 | once the stack is empty, the visited nodes are exactly the nodes the walk can reach |
| PointerWalk.PushedFacts | kayak_core/src/event_dispatcher.rs:243-248 | the pushed entries are distinct, at their depth, new to the walk, and are exactly the children of the popped node when it lets the walk descend |
| PointerWalk.DistinctStep | kayak_core/src/event_dispatcher.rs:207-248 | after a pop and a push of new entries, the visits and the stack are still free of repeats and share no node |
| PointerWalk.AtDepthStep | kayak_core/src/event_dispatcher.rs:207-248 | after a pop and a push of correctly placed entries, every visit and stack entry is still at its node's depth |
| PointerWalk.FrontierShapeStep | kayak_core/src/event_dispatcher.rs:207-248 | popping the top entry and pushing its entered children keeps the visits and the stack distinct, disjoint and at their depths |
| PointerWalk.FrontierClosedStep | kayak_core/src/event_dispatcher.rs:207-248 | moving the popped node to the visited set and its entered children to the waiting set keeps every reachable node either visited, waiting or below a waiting node |
| PointerWalk.OrderStart | kayak_core/src/event_dispatcher.rs:204-206 | the stack seeded with the root at depth 0 is to be visited in the root's Preorder |
| PointerWalk.OrderStep | kayak_core/src/event_dispatcher.rs:207-248 | one pop-and-push turn keeps the visits so far followed by the stack's order equal to what it was |
| PointerWalk.StackOrderAppend | kayak_core/src/event_dispatcher.rs:207-248 | entries pushed on top of a stack are visited, with everything below them, before the entries under them |
| PointerWalk.SubtreesAreStackOrder | kayak_core/src/event_dispatcher.rs:242-247 | pushing a node's children in list order and popping them visits their subtrees from the last child to the first |
| PointerWalk.PreorderIsPushedOrder | kayak_core/src/event_dispatcher.rs:207-248 | a popped node's subtree is that node followed by the subtrees of the children it pushes |
| PointerWalk.AboveShrinks | kayak_core/src/event_dispatcher.rs:244-247 | the set of nodes ranked above a child is strictly smaller than its parent's, so the depth-first order is well defined |
| PointerWalk.UnvisitedShrinks | kayak_core/src/event_dispatcher.rs:207 | each pop of a fresh node shrinks the set of unvisited nodes, so the walk terminates |
| Propagation.ChainCopies | kayak_core/src/event_dispatcher.rs:128-155 | every copy on the parent chain keeps the original's target, kind and propagation flag; the event handed back differs from the original at most in its prevented flag |
| Propagation.ChainLinks | kayak_core/src/event_dispatcher.rs:128-155 | the chain is never empty; its first copy is at the starting node and each next copy is at the parent of the one before |
| Propagation.ChainShape | kayak_core/src/event_dispatcher.rs:128-155 | each copy keeps the original's target, kind and propagation flag; the first is at the target and each next one is at the parent of the one before |
| Propagation.ChainPrevented | kayak_core/src/event_dispatcher.rs:131-148 | each copy's prevented flag is the OR of the original's and those set by the handlers before it; the original ends with the OR over the whole chain |
| Propagation.SomePreventedCons | kayak_core/src/event_dispatcher.rs:131-148 | some handler among the first i of a chain prevents the default iff i is positive and the first handler prevents it or one of the next i - 1 does |
| Propagation.ChainStopsOnlyAtEnd | kayak_core/src/event_dispatcher.rs:150-155 | every handler but the last let the copy propagate; the chain ends at a stop, at a non-propagating event, or at the root |
| Propagation.AncestorHasSmallerRank | kayak_core/src/event_dispatcher.rs:130 | ancestors have a smaller rank, so the parent walk terminates |
| Propagation.StopPropagationShieldsAncestors | kayak_core/src/event_dispatcher.rs:128-155 | if a handler stops propagation at node N, no ancestor of N receives the event |
| Propagation.NonPropagatingReachesOnlyTarget | kayak_core/src/event_dispatcher.rs:128-155 | an event that does not propagate reaches only its starting node |
| Propagation.TabTarget | kayak_core/src/event_dispatcher.rs:507-518 | only Tab moves the focus; Tab uses prev with shift and next without |
| Propagation.DefaultEvents | kayak_core/src/event_dispatcher.rs:507-534 | the default action dispatches only Focus and Blur |
| Propagation.EventShare | kayak_core/src/event_dispatcher.rs:128-160 | one event's share of the log is its chain, then the chains of its default events unless a handler prevented the default; the focus after it moves only by an unprevented default |
| Propagation.LogsStep | kayak_core/src/event_dispatcher.rs:128-160 | dispatching one more event extends the log by that event's share (its chain and, unless prevented, the chains of its default events) and moves the focus as that event alone would, from the focus the earlier events left |
| Propagation.FocusEventsHaveNoDefault | kayak_core/src/event_dispatcher.rs:507-534 | dispatching only Focus and Blur is just their chains and does not move the focus, so the re-entrant dispatch ends |
| Propagation.DispatchOne | kayak_core/src/event_dispatcher.rs:120-160 | dispatching one event delivers its chain, then the default action's events unless a handler prevented it |
| Propagation.DispatchOneLog | kayak_core/src/event_dispatcher.rs:120-160 | the log of dispatching a single event is that event's share |
| Propagation.DispatchOneFocus | kayak_core/src/event_dispatcher.rs:120-160 | the focus after dispatching a single event is the focus that event alone leaves |
| Propagation.UnpreventedChainKeepsEvent | kayak_core/src/event_dispatcher.rs:131-148 | if the event was not prevented and no handler on its chain prevents it, the event handed back is the original |
| Propagation.PreventDefaultSuppressesDefault | kayak_core/src/event_dispatcher.rs:147-159 | if any handler on the chain prevents the default, nothing more is dispatched and the focus stays |
| Propagation.TabDefault | kayak_core/src/event_dispatcher.rs:507-534 | the default action of Tab moving to a node dispatches Focus to that node, then Blur to the old focus when there was one and it is another node, and leaves that node focused |
| Propagation.FocusBlurReachOnlyTargets | kayak_core/src/event_dispatcher.rs:128-155 | the Focus and Blur of a Tab are each delivered to their own target only |
| Propagation.TabShare | kayak_core/src/event_dispatcher.rs:507-534 | an unprevented Tab's share of the log is its chain, then Focus to the new node, then Blur to the old one if it differs; the focus moves to the new node |
| Propagation.TabMovesFocus | kayak_core/src/event_dispatcher.rs:507-534 | an unprevented Tab moves the focus to next (prev with shift), which receives Focus; the node that lost the focus then receives Blur |
| Propagation.OuterLogKeepsFocusKinds | kayak_core/src/event_dispatcher.rs:128-155 | dispatching Focus and Blur delivers only Focus and Blur copies |
| Dispatcher.FocusRecordsCarryNothing | kayak_core/src/event_dispatcher.rs:162-181 | a map recorded from Focus and Blur deliveries holds no MouseDown, MouseIn or MouseOut |
| Dispatcher.ChainAdvance | kayak_core/src/event_dispatcher.rs:130-155 | one turn of the propagation loop keeps the delivered prefix plus the rest equal to the whole chain, and moves to a lower rank |
| Dispatcher.WinnersAmongInsert | kayak_core/src/event_dispatcher.rs:263-266 | resolving one more kind adds exactly its winner's event |
| Dispatcher.KindEventsCount | kayak_core/src/event_dispatcher.rs:263-282 | resolving one kind emits its winner's event if it has one, and for Focus also the Blur of a previous focus that lost it |
| Dispatcher.ResolvedStep | kayak_core/src/event_dispatcher.rs:263-282 | resolving one more kind extends a partial resolution |
| Dispatcher.BlurAfterFocusStep | kayak_core/src/event_dispatcher.rs:263-282 | events of a kind other than Blur keep every Blur right after a Focus |
| Dispatcher.BlurIffFocusLost | kayak_core/src/event_dispatcher.rs:259-290 | a focused node receives Blur exactly when the tick takes the focus from it, and no other node is blurred |
| Dispatcher.EventDispatcher.constructor | kayak_core/src/event_dispatcher.rs:51-63 | not pressed, pointer at the origin, empty map, no modifiers, tristates unknown, no cursor holder |
| Dispatcher.EventDispatcher.ContainsCursor | kayak_core/src/event_dispatcher.rs:83-85 | true iff the tristate is known to be true |
| Dispatcher.EventDispatcher.WantsCursor | kayak_core/src/event_dispatcher.rs:92-94 | true iff the tristate is known true or a widget holds the cursor |
| Dispatcher.EventDispatcher.HasCursor | kayak_core/src/event_dispatcher.rs:101-103 | true iff some widget holds the cursor |
| Dispatcher.EventDispatcher.ProcessPointerEvents | kayak_core/src/event_dispatcher.rs:306-398 | pointer fields, contests and events as PointerStep says; position, map and modifiers unchanged |
| Dispatcher.EventDispatcher.PointerMoved | kayak_core/src/event_dispatcher.rs:317-353 | as MoveStep says |
| Dispatcher.EventDispatcher.PointerPressed | kayak_core/src/event_dispatcher.rs:354-379 | as PressStep says |
| Dispatcher.EventDispatcher.PointerReleased | kayak_core/src/event_dispatcher.rs:380-396 | as ReleaseStep says |
| Dispatcher.EventDispatcher.VisitNode | kayak_core/src/event_dispatcher.rs:208-248 | the node's inputs are processed as NodeInputs says; the children are entered iff the policy lets the walk descend. The four-way match on the policy is written as its two admissions, which Cursor.AdmissionDeterminesPolicy shows to fix the policy |
| Dispatcher.EventDispatcher.WalkPointerEvents | kayak_core/src/event_dispatcher.rs:204-250 | the walk equals WalkFold over its visits; the visits are Preorder of the root: each node before the nodes below it, the children of a node taken from the last of its list to the first; each node is visited once, at its depth; the visited nodes are exactly those reachable through nodes that let the walk descend |
| Dispatcher.EventDispatcher.WalkStep | kayak_core/src/event_dispatcher.rs:207-250 | one pop-process-push turn extends WalkFold by the popped visit |
| Dispatcher.EventDispatcher.PushChildren | kayak_core/src/event_dispatcher.rs:244-248 | the children are pushed in list order, one level deeper |
| Dispatcher.EventDispatcher.ResolveStates | kayak_core/src/event_dispatcher.rs:259-282 | up to order, one event per contest with a best match, aimed at it, plus the Blur of a previous focus on another node; each Blur right after a Focus; the Focus winner holds the focus |
| Dispatcher.EventDispatcher.ResolveKind | kayak_core/src/event_dispatcher.rs:264-279 | the winner's event; for Focus, Blur of another previous focus and the focus committed |
| Dispatcher.EventDispatcher.KeyboardPass | kayak_core/src/event_dispatcher.rs:253-256 | events and modifiers as KeyboardFold says; pointer fields untouched |
| Dispatcher.EventDispatcher.FocusUpdate | kayak_core/src/event_dispatcher.rs:259-290 | up to order, the winners plus the Blurs of BlurEvents; the focus becomes FocusAfterBuild: the Focus winner, or none after a press that focused nothing |
| Dispatcher.EventDispatcher.BuildEventStream | kayak_core/src/event_dispatcher.rs:185-304 | no root: nothing emitted, nothing changes. Otherwise the stream is the walk's events, then the keyboard events, then the resolved events, which up to order are each contest's winner plus the Blur of a previous focus that lost it; the walk visits exactly the reachable nodes, in the order Preorder gives; press, cursor, last click and modifiers are those the walk and keyboard pass leave; the position advances; an unset tristate falls back to its old value; the previous map is untouched |
| Dispatcher.EventDispatcher.ProcessKeyboardEvents | kayak_core/src/event_dispatcher.rs:403-451 | events and modifiers as KeyboardStep says |
| Dispatcher.EventDispatcher.ProcessEvents | kayak_core/src/event_dispatcher.rs:113-116 | no root: nothing is built or delivered and the pointer, position and modifiers are unchanged. Otherwise the built stream is the walk's events in Preorder visiting order, then the keyboard events, then the resolved events (up to order, each contest's winner plus the Blur of a lost focus); the pointer state is the one the build leaves, with the position advanced and the modifiers the keyboard pass leaves. The stream is dispatched from the focus the build left: log, final focus and stored map as DispatchLog, FocusAfterAll and CarryForward say |
| Dispatcher.EventDispatcher.ProcessEvent | kayak_core/src/event_dispatcher.rs:107-110 | the same as ProcessEvents, for a one-input tick: built stream, pointer state, position, modifiers, log, final focus and stored map |
| Dispatcher.EventDispatcher.DispatchEvent | kayak_core/src/event_dispatcher.rs:120-122 | the event's chain, then its default events unless prevented; the focus moves only by an unprevented default; the stored map is CarryForward of this dispatch's outer deliveries; pointer state, position and modifiers are unchanged |
| Dispatcher.EventDispatcher.DispatchEvents | kayak_core/src/event_dispatcher.rs:125-182 | every delivery in order as DispatchLog says; the focus as FocusAfterAll says; the stored map is CarryForward of the old map over the pairs of the outer deliveries |
| Dispatcher.EventDispatcher.DispatchAt | kayak_core/src/event_dispatcher.rs:128-160 | one turn of the event loop extends the log, the focus and the map of deliveries by that event |
| Dispatcher.EventDispatcher.Propagate | kayak_core/src/event_dispatcher.rs:129-156 | the propagation loop delivers exactly the event's chain, ORs the prevented flags into the event, and records each delivery |
| Dispatcher.EventDispatcher.CarryInto | kayak_core/src/event_dispatcher.rs:162-181 | the carry-forward loop yields CarryForward whatever order it visits the old holders in |
| Dispatcher.EventDispatcher.ExecuteDefault | kayak_core/src/event_dispatcher.rs:507-534 | dispatches the default events (Focus, then Blur of another old focus) after committing the focus; the stored map still carries the same pairs |
| Dispatcher.EventDispatcher.MoveFocus | kayak_core/src/event_dispatcher.rs:526-527 | commits the focus to the new node, then dispatches the Focus and Blur events, which deliver exactly their chains; the stored map carries the same MouseDown and MouseIn pairs as before; pointer state, position and modifiers are unchanged |

## Left out

- Widget handler bodies, `KayakContext` and the `WidgetManager` internals are not part of this model. A handler is a function from the event it receives to the calls it makes: `stop_propagation` and `prevent_default`. Styles, layouts and focusability are per-node values.
- node_tree.rs, layout_cache.rs, widget_manager.rs, focus_tree.rs, input_event.rs and keyboard.rs are not part of this model. The focus tree is modelled as a registration order of focusable nodes with the current focus. `next` and `prev` cycle through that order, starting from the first or last node when nothing is focused.
- Positions and z-indices are reals, and `f32::NEG_INFINITY` is `None`. NaN and other IEEE behaviour are not modelled. `Rect::contains` is taken to be the closed-box test.
- The observable `last_clicked` binding is a plain field holding the last value set. Its subscribers are not modelled.
- The order in which a `HashMap` is iterated is not modelled. The resolved events of a tick and the carry-forward loop are stated up to order.
- The `unwrap` panics on a missing arena slot in `current_widgets` are not modelled. A missing widget reads as one without styles.
- Events.Event.StopPropagation: `&mut self` setters on a `Copy` struct are modelled as functions that return the updated copy. Aliasing does not arise, because every handler receives its own copy.
- Events.Event.PreventDefault: modelled as a function returning the updated copy, for the same reason.
- EventMaps.InsertEvent: returns the new map, which the caller reassigns. The `bool` that `insert_event` returns is dropped, since no caller reads it.
- BestMatch.UpdateState: returns the new contest map, which the caller reassigns, rather than updating the `HashMap` in place.
- Dispatcher.EventDispatcher.ResolveStates: a Blur sits right after its Focus only when no contest is held over Blur. PointerInput.WalkContestKinds shows that the walk never holds one.
- Dispatcher.EventDispatcher.BuildEventStream: the order among the resolved events is given only up to a multiset. The `HashMap` order is undefined.
- The Bevy renderer, the proc-macro crate and the widget module list are not part of this model.
