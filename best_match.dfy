/**
 * Best-match resolution (`EventState`, `update_state`): among the nodes
 * competing for a single-target event kind in one cycle, one winner is kept.
 */
module BestMatch {
  import opened Options
  import opened Events

  /**
   * A z-index that may be minus infinity: `None` stands for
   * `f32::NEG_INFINITY`, below every real z-index.
   */
  type ZIndex = Option<real>

  /** `a <= b` on z-indices. */
  predicate ZAtMost(a: ZIndex, b: ZIndex) {
    a.None? || (b.Some? && a.value <= b.value)
  }

  datatype EventState = EventState(bestZIndex: ZIndex, bestMatch: Option<NodeId>, bestDepth: int)

  /** `EventState::default()`. */
  function DefaultState(): (s: EventState)
    ensures s.bestMatch.None? && s.bestZIndex.None? && s.bestDepth == -1
  {
    EventState(None, None, -1)
  }

  /** The candidate at `depth` with z-index `z` replaces the current best. */
  predicate Replaces(s: EventState, depth: int, z: real) {
    || (depth >= s.bestDepth && ZAtMost(s.bestZIndex, Some(z)))
    || !ZAtMost(Some(z), s.bestZIndex)
  }

  /** The state after offering one candidate (the body of `update_state`). */
  function Offer(s: EventState, node: NodeId, depth: int, z: real): (r: EventState)
    // a strictly higher z-index always wins, a lower one never does
    ensures !ZAtMost(Some(z), s.bestZIndex) ==> r == EventState(Some(z), Some(node), depth)
    ensures s.bestZIndex.Some? && z < s.bestZIndex.value ==> r == s
    // at equal z-index, the deeper or equally deep candidate wins
    ensures s.bestZIndex == Some(z) ==> r == (if depth >= s.bestDepth then EventState(Some(z), Some(node), depth) else s)
    // the best z-index never decreases and is never minus infinity afterwards
    ensures ZAtMost(s.bestZIndex, r.bestZIndex) && r.bestZIndex.Some?
    ensures s.bestMatch.Some? || s.bestZIndex.None? ==> r.bestMatch.Some?
  {
    if Replaces(s, depth, z) then EventState(Some(z), Some(node), depth) else s
  }

  /** Per-kind best-match states of one cycle. */
  type States = map<EventType, EventState>

  function StateOf(states: States, kind: EventType): EventState {
    if kind in states then states[kind] else DefaultState()
  }

  /** `update_state`: offers a candidate for `kind`, leaving the other kinds alone. */
  function UpdateState(states: States, node: NodeId, depth: int, z: real, kind: EventType): (r: States)
    ensures r.Keys == states.Keys + {kind}
    ensures forall k :: k in states && k != kind ==> r[k] == states[k]
    ensures r[kind] == Offer(StateOf(states, kind), node, depth, z)
    ensures (forall k :: k in states ==> states[k].bestMatch.Some?) ==> forall k :: k in r ==> r[k].bestMatch.Some?
  {
    states[kind := Offer(StateOf(states, kind), node, depth, z)]
  }

  /** A node competing for a kind, as seen by `update_state`. */
  datatype Candidate = Candidate(node: NodeId, depth: int, z: real)

  /** The state after offering the candidates in order. */
  function OfferAll(s: EventState, cs: seq<Candidate>): EventState
    decreases |cs|
  {
    if cs == [] then s
    else
      var c := cs[|cs| - 1];
      Offer(OfferAll(s, cs[..|cs| - 1]), c.node, c.depth, c.z)
  }

  /**
   * Starting from the default state, the winner is the candidate at index
   * `i` such that no candidate has a higher z-index, and every later
   * candidate has a lower z-index or the same z-index at a smaller depth:
   * the last of the highest candidates wins ties unless it is shallower.
   * No candidate with the winning z-index is deeper than the winner.
   */
  lemma {:induction false} OfferAllWinner(cs: seq<Candidate>) returns (i: nat)
    requires |cs| > 0
    ensures i < |cs|
    ensures OfferAll(DefaultState(), cs) == EventState(Some(cs[i].z), Some(cs[i].node), cs[i].depth)
    ensures forall j :: 0 <= j < |cs| ==> cs[j].z <= cs[i].z
    ensures forall j :: i < j < |cs| ==> cs[j].z < cs[i].z || cs[j].depth < cs[i].depth
    ensures forall j :: 0 <= j < |cs| && cs[j].z == cs[i].z ==> cs[j].depth <= cs[i].depth
  {
    var last := cs[|cs| - 1];
    var init := cs[..|cs| - 1];
    if |cs| == 1 {
      i := 0;
    } else {
      var k := OfferAllWinner(init);
      var before := OfferAll(DefaultState(), init);
      assert before == EventState(Some(cs[k].z), Some(cs[k].node), cs[k].depth);
      if Replaces(before, last.depth, last.z) {
        i := |cs| - 1;
        forall j | 0 <= j < |cs| ensures cs[j].z <= cs[i].z {
          if j < |cs| - 1 { assert cs[j] == init[j]; }
        }
        forall j | 0 <= j < |cs| && cs[j].z == cs[i].z ensures cs[j].depth <= cs[i].depth {
          if j < |cs| - 1 { assert cs[j] == init[j]; }
        }
      } else {
        i := k;
        forall j | 0 <= j < |cs| ensures cs[j].z <= cs[i].z {
          if j < |cs| - 1 { assert cs[j] == init[j]; }
        }
        forall j | i < j < |cs| ensures cs[j].z < cs[i].z || cs[j].depth < cs[i].depth {
          if j < |cs| - 1 { assert cs[j] == init[j]; }
        }
        forall j | 0 <= j < |cs| && cs[j].z == cs[i].z ensures cs[j].depth <= cs[i].depth {
          if j < |cs| - 1 { assert cs[j] == init[j]; }
        }
      }
    }
  }

  /** Over a sequence of offers the best z-index never decreases. */
  lemma {:induction false} BestZIndexMonotone(s: EventState, cs: seq<Candidate>, k: nat)
    requires k <= |cs|
    ensures ZAtMost(OfferAll(s, cs[..k]).bestZIndex, OfferAll(s, cs).bestZIndex)
    decreases |cs|
  {
    if k < |cs| {
      var init := cs[..|cs| - 1];
      assert init[..k] == cs[..k];
      BestZIndexMonotone(s, init, k);
    } else {
      assert cs[..k] == cs;
    }
  }


  /** Offering `a` and then `b` is offering `a + b`. */
  lemma {:induction false} OfferAllAppend(s: EventState, a: seq<Candidate>, b: seq<Candidate>)
    ensures OfferAll(s, a + b) == OfferAll(OfferAll(s, a), b)
    decreases |b|
  {
    if b == [] {
      assert a + b == a;
    } else {
      var b' := b[..|b| - 1];
      assert (a + b)[..|a + b| - 1] == a + b';
      OfferAllAppend(s, a, b');
    }
  }

}
