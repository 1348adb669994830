/**
 * The per-node record of event kinds that the dispatcher keeps from one
 * dispatch to the next (`EventMap`, `contains_event`, `insert_event` and the
 * carry-forward step that closes `dispatch_events`).
 */
module EventMaps {
  import opened Events

  type EventMap = map<NodeId, set<EventType>>

  /** `contains_event`. */
  predicate ContainsEvent(m: EventMap, n: NodeId, t: EventType) {
    n in m && t in m[n]
  }

  /** Entries are only ever created by inserting into them. */
  ghost predicate NoEmptyEntries(m: EventMap) {
    forall n :: n in m ==> m[n] != {}
  }

  /** Two maps without empty entries that hold the same pairs are equal. */
  lemma EqualByContents(a: EventMap, b: EventMap)
    requires NoEmptyEntries(a) && NoEmptyEntries(b)
    requires forall n, t :: ContainsEvent(a, n, t) <==> ContainsEvent(b, n, t)
    ensures a == b
  {
    forall n | n in a
      ensures n in b && a[n] == b[n]
    {
      var t :| t in a[n];
      assert ContainsEvent(a, n, t);
      forall u ensures u in a[n] <==> u in b[n] {
        assert ContainsEvent(a, n, u) <==> ContainsEvent(b, n, u);
      }
    }
    forall n | n in b
      ensures n in a
    {
      var t :| t in b[n];
      assert ContainsEvent(b, n, t);
    }
  }

  /** `insert_event`: adds one pair and nothing else. */
  function InsertEvent(m: EventMap, n: NodeId, t: EventType): (r: EventMap)
    ensures forall n', t' :: ContainsEvent(r, n', t') <==> ContainsEvent(m, n', t') || (n' == n && t' == t)
    ensures NoEmptyEntries(m) ==> NoEmptyEntries(r)
  {
    m[n := (if n in m then m[n] else {}) + {t}]
  }

  /** Some event of `ds` was delivered to `n` with kind `t`. */
  ghost predicate Delivered(ds: seq<Event>, n: NodeId, t: EventType) {
    exists i :: 0 <= i < |ds| && ds[i].currentTarget == n && ds[i].eventType == t
  }

  /** The map after recording every delivery of `ds`, in order. */
  function RecordAll(m: EventMap, ds: seq<Event>): EventMap
    decreases |ds|
  {
    if ds == [] then m
    else
      var last := ds[|ds| - 1];
      InsertEvent(RecordAll(m, ds[..|ds| - 1]), last.currentTarget, last.eventType)
  }

  /**
   * Recording adds exactly the delivered (node, kind) pairs to the map, and
   * creates no empty entry.
   */
  lemma {:induction false} RecordAllContents(m: EventMap, ds: seq<Event>)
    ensures var r := RecordAll(m, ds);
      && (forall n, t :: ContainsEvent(r, n, t) <==> ContainsEvent(m, n, t) || Delivered(ds, n, t))
      && (NoEmptyEntries(m) ==> NoEmptyEntries(r))
    decreases |ds|
  {
    if ds != [] {
      var init := ds[..|ds| - 1];
      var last := ds[|ds| - 1];
      RecordAllContents(m, init);
      forall n, t | Delivered(ds, n, t) && !(n == last.currentTarget && t == last.eventType)
        ensures Delivered(init, n, t)
      {
        var i :| 0 <= i < |ds| && ds[i].currentTarget == n && ds[i].eventType == t;
        assert init[i] == ds[i];
      }
      forall n, t | Delivered(init, n, t)
        ensures Delivered(ds, n, t)
      {
        var i :| 0 <= i < |init| && init[i].currentTarget == n && init[i].eventType == t;
        assert ds[i] == init[i];
      }
      assert Delivered(ds, last.currentTarget, last.eventType) by {
        assert ds[|ds| - 1] == last;
      }
    }
  }

  /** Recording one more delivery is one more insertion. */
  lemma RecordOneMore(m: EventMap, ds: seq<Event>, d: Event)
    ensures RecordAll(m, ds + [d]) == InsertEvent(RecordAll(m, ds), d.currentTarget, d.eventType)
  {
    assert (ds + [d])[..|ds|] == ds;
  }

  /** Recording one more delivery onto a map that already records `recorded + chain`. */
  lemma RecordNext(next: EventMap, recorded: seq<Event>, chain: seq<Event>, d: Event)
    requires next == RecordAll(map[], recorded + chain)
    ensures InsertEvent(next, d.currentTarget, d.eventType) == RecordAll(map[], recorded + (chain + [d]))
  {
    RecordOneMore(map[], recorded + chain, d);
    assert recorded + (chain + [d]) == (recorded + chain) + [d];
  }

  /** What a previous-cycle entry of `n` contributes to the next map. */
  function Carried(prev: EventMap, pressed: bool, next: EventMap, n: NodeId): set<EventType> {
    (if pressed && ContainsEvent(prev, n, MouseDown) then {MouseDown} else {})
    + (if ContainsEvent(prev, n, MouseIn) && !ContainsEvent(next, n, MouseOut) then {MouseIn} else {})
  }

  /**
   * `next` after the carry-forward loop has visited the previous-cycle
   * entries of the nodes in `done`.
   */
  function CarryPartial(prev: EventMap, pressed: bool, next: EventMap, done: set<NodeId>): (r: EventMap)
    ensures forall n, t :: ContainsEvent(r, n, t) <==>
      ContainsEvent(next, n, t) || (n in done && t in Carried(prev, pressed, next, n))
    ensures NoEmptyEntries(next) ==> NoEmptyEntries(r)
  {
    map n | n in next.Keys + done && (n in next || Carried(prev, pressed, next, n) != {})
      :: (if n in next then next[n] else {}) + (if n in done then Carried(prev, pressed, next, n) else {})
  }

  /**
   * The map `dispatch_events` stores: the pairs recorded this cycle, plus
   * MouseDown kept for previous holders while the mouse is pressed, plus
   * MouseIn kept for previous holders that recorded no MouseOut this cycle.
   * Any other previous entry is dropped.
   */
  function CarryForward(prev: EventMap, pressed: bool, next: EventMap): (r: EventMap)
    ensures forall n, t :: ContainsEvent(r, n, t) <==>
      || ContainsEvent(next, n, t)
      || (t == MouseDown && pressed && ContainsEvent(prev, n, MouseDown))
      || (t == MouseIn && ContainsEvent(prev, n, MouseIn) && !ContainsEvent(next, n, MouseOut))
    ensures NoEmptyEntries(next) ==> NoEmptyEntries(r)
  {
    CarryPartial(prev, pressed, next, prev.Keys)
  }

  /** One more iteration of the carry-forward loop, at node `n`. */
  lemma CarryStep(prev: EventMap, pressed: bool, next: EventMap, done: set<NodeId>, n: NodeId)
    requires NoEmptyEntries(next)
    ensures
      var cur := CarryPartial(prev, pressed, next, done);
      var withDown := if pressed && ContainsEvent(prev, n, MouseDown) then InsertEvent(cur, n, MouseDown) else cur;
      var withIn := if ContainsEvent(prev, n, MouseIn) && !ContainsEvent(withDown, n, MouseOut)
        then InsertEvent(withDown, n, MouseIn) else withDown;
      withIn == CarryPartial(prev, pressed, next, done + {n})
  {
    var cur := CarryPartial(prev, pressed, next, done);
    var withDown := if pressed && ContainsEvent(prev, n, MouseDown) then InsertEvent(cur, n, MouseDown) else cur;
    var withIn := if ContainsEvent(prev, n, MouseIn) && !ContainsEvent(withDown, n, MouseOut)
      then InsertEvent(withDown, n, MouseIn) else withDown;
    assert ContainsEvent(withDown, n, MouseOut) == ContainsEvent(next, n, MouseOut);
    EqualByContents(withIn, CarryPartial(prev, pressed, next, done + {n}));
  }

  /** What a previous map could carry forward for `n`: MouseDown while pressed, and MouseIn. */
  function CarryKinds(p: EventMap, pressed: bool, n: NodeId): set<EventType> {
    (if pressed && ContainsEvent(p, n, MouseDown) then {MouseDown} else {})
    + (if ContainsEvent(p, n, MouseIn) then {MouseIn} else {})
  }

  /** Two previous maps that carry the same pairs forward. */
  ghost predicate CarryEquivalent(p: EventMap, q: EventMap, pressed: bool) {
    forall n :: CarryKinds(p, pressed, n) == CarryKinds(q, pressed, n)
  }

  lemma CarryForwardRespectsEquivalence(p: EventMap, q: EventMap, pressed: bool, next: EventMap)
    requires NoEmptyEntries(next)
    requires CarryEquivalent(p, q, pressed)
    ensures CarryForward(p, pressed, next) == CarryForward(q, pressed, next)
  {
    var a := CarryForward(p, pressed, next);
    var b := CarryForward(q, pressed, next);
    forall n, t ensures ContainsEvent(a, n, t) <==> ContainsEvent(b, n, t) {
      assert CarryKinds(p, pressed, n) == CarryKinds(q, pressed, n);
      assert MouseIn in CarryKinds(p, pressed, n) <==> MouseIn in CarryKinds(q, pressed, n);
      assert MouseDown in CarryKinds(p, pressed, n) <==> MouseDown in CarryKinds(q, pressed, n);
    }
    EqualByContents(a, b);
  }

  /**
   * A cycle that records no pointer press, enter or leave (the nested
   * dispatch of a Focus/Blur pair) leaves a map that carries forward exactly
   * what the map before it did.
   */
  lemma CarryForwardKeepsCarry(prev: EventMap, pressed: bool, next: EventMap)
    requires forall n :: !ContainsEvent(next, n, MouseDown) && !ContainsEvent(next, n, MouseIn)
                      && !ContainsEvent(next, n, MouseOut)
    ensures CarryEquivalent(CarryForward(prev, pressed, next), prev, pressed)
  {
    var r := CarryForward(prev, pressed, next);
    forall n
      ensures CarryKinds(r, pressed, n) == CarryKinds(prev, pressed, n)
    {
      assert !ContainsEvent(next, n, MouseDown) && !ContainsEvent(next, n, MouseIn) && !ContainsEvent(next, n, MouseOut);
    }
  }

  lemma CarryEquivalentTransitive(p: EventMap, q: EventMap, s: EventMap, pressed: bool)
    requires CarryEquivalent(p, q, pressed) && CarryEquivalent(q, s, pressed)
    ensures CarryEquivalent(p, s, pressed)
  {
    forall n
      ensures CarryKinds(p, pressed, n) == CarryKinds(s, pressed, n)
    {
      assert CarryKinds(p, pressed, n) == CarryKinds(q, pressed, n);
    }
  }

}
