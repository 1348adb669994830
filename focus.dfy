/**
 * The focus tree the dispatcher consults and updates. focus_tree.rs is not
 * part of this model: the tree is a registration order of focusable nodes
 * with the current focus, and `next`/`prev` cycle through that order,
 * starting from the first (`next`) or the last (`prev`) node when nothing
 * is focused.
 */
module FocusRing {
  import opened Options
  import opened Events

  /** Position of the first occurrence of `n` in `order`. */
  function IndexOf(order: seq<NodeId>, n: NodeId): (i: nat)
    requires n in order
    ensures i < |order| && order[i] == n
    ensures forall j :: 0 <= j < i ==> order[j] != n
  {
    if order[0] == n then 0 else 1 + IndexOf(order[1..], n)
  }

  function RingNext(order: seq<NodeId>, current: Option<NodeId>): (r: Option<NodeId>)
    ensures r.Some? <==> |order| > 0
    ensures r.Some? ==> r.value in order
  {
    if |order| == 0 then None
    else if current.None? || current.value !in order then Some(order[0])
    else Some(order[(IndexOf(order, current.value) + 1) % |order|])
  }

  function RingPrev(order: seq<NodeId>, current: Option<NodeId>): (r: Option<NodeId>)
    ensures r.Some? <==> |order| > 0
    ensures r.Some? ==> r.value in order
  {
    if |order| == 0 then None
    else if current.None? || current.value !in order then Some(order[|order| - 1])
    else Some(order[(IndexOf(order, current.value) + |order| - 1) % |order|])
  }

  class FocusTree {
    const order: seq<NodeId>
    var current: Option<NodeId>

    constructor (order: seq<NodeId>)
      ensures this.order == order && current == None
    {
      this.order := order;
      current := None;
    }

    function Current(): Option<NodeId>
      reads this
    {
      current
    }

    function Next(): Option<NodeId>
      reads this
    {
      RingNext(order, current)
    }

    function Prev(): Option<NodeId>
      reads this
    {
      RingPrev(order, current)
    }

    method SetFocus(n: NodeId)
      modifies this
      ensures current == Some(n)
    {
      current := Some(n);
    }

    method Blur()
      modifies this
      ensures current == None
    {
      current := None;
    }
  }

}
