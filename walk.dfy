/**
 * The shape of the pointer walk of `build_event_stream`: a stack of
 * (node, depth) pairs seeded with the root, popped one at a time, each
 * popped node pushing its children when the walk may descend into them.
 */
module PointerWalk {
  import opened Options
  import opened Input
  import opened Events
  import opened Widgets
  import opened PointerInput

  /** No node occurs twice. */
  ghost predicate Distinct(vs: seq<Visit>) {
    forall i, j :: 0 <= i < j < |vs| ==> vs[i].node != vs[j].node
  }

  /** Every entry is a node of the tree, paired with its depth below the root. */
  ghost predicate AtDepth(t: Tree, vs: seq<Visit>)
    requires t.Valid()
  {
    forall i :: 0 <= i < |vs| ==> vs[i].node in t.Nodes() && vs[i].depth == t.Depth(vs[i].node)
  }

  /** The entries pushed for the children of a node at depth `depth - 1`, in list order. */
  function ChildVisits(children: seq<NodeId>, depth: int): (r: seq<Visit>)
    ensures |r| == |children|
    ensures forall k :: 0 <= k < |r| ==> r[k] == Visit(children[k], depth)
  {
    seq(|children|, k requires 0 <= k < |children| => Visit(children[k], depth))
  }

  /**
   * The walk so far: `visits` were popped, `stack` waits; together they are
   * the root and exactly the children of visited nodes that let the walk
   * descend, each once and at its depth.
   */
  ghost predicate Frontier(wm: WidgetManager, inputs: seq<InputEvent>, visits: seq<Visit>, stack: seq<Visit>)
    requires wm.Valid()
  {
    FrontierShape(wm.tree, visits, stack) && FrontierClosed(wm, inputs, VisitedNodes(visits), VisitedNodes(stack))
  }

  /** Each entry once and at its depth, no node both visited and waiting. */
  ghost predicate FrontierShape(t: Tree, visits: seq<Visit>, stack: seq<Visit>)
    requires t.Valid()
  {
    && Distinct(visits) && Distinct(stack)
    && AtDepth(t, visits) && AtDepth(t, stack)
    && VisitedNodes(visits) !! VisitedNodes(stack)
  }

  /** Visited and waiting nodes are the root and the entered children of visited nodes. */
  ghost predicate FrontierClosed(wm: WidgetManager, inputs: seq<InputEvent>, visited: set<NodeId>, waiting: set<NodeId>) {
    forall n :: n in visited + waiting <==>
      (Some(n) == wm.tree.root
       || (n in wm.tree.parent && wm.tree.parent[n] in visited && wm.EntersChildren(inputs, wm.tree.parent[n])))
  }

  /** The walk starts with the root alone on the stack. */
  lemma FrontierStart(wm: WidgetManager, inputs: seq<InputEvent>, root: NodeId)
    requires wm.Valid() && wm.tree.root == Some(root)
    ensures Frontier(wm, inputs, [], [Visit(root, 0)])
  {
    assert [Visit(root, 0)][0].node == root;
    assert VisitedNodes([Visit(root, 0)]) == {root};
    assert VisitedNodes([]) == {};
  }

  /** Visits extended by one entry cover one more node. */
  lemma VisitedNodesSnoc(vs: seq<Visit>, v: Visit)
    ensures VisitedNodes(vs + [v]) == VisitedNodes(vs) + {v.node}
  {
    forall n | n in VisitedNodes(vs + [v]) ensures n in VisitedNodes(vs) + {v.node} {
      var i :| 0 <= i < |vs| + 1 && (vs + [v])[i].node == n;
      if i < |vs| { assert (vs + [v])[i] == vs[i]; }
    }
    forall n | n in VisitedNodes(vs) ensures n in VisitedNodes(vs + [v]) {
      var i :| 0 <= i < |vs| && vs[i].node == n;
      assert (vs + [v])[i] == vs[i];
    }
    assert (vs + [v])[|vs|] == v;
  }

  /** The nodes of a concatenation of entries. */
  lemma VisitedNodesAppend(a: seq<Visit>, b: seq<Visit>)
    ensures VisitedNodes(a + b) == VisitedNodes(a) + VisitedNodes(b)
  {
    forall n | n in VisitedNodes(a + b) ensures n in VisitedNodes(a) + VisitedNodes(b) {
      var i :| 0 <= i < |a + b| && (a + b)[i].node == n;
      if i < |a| { assert (a + b)[i] == a[i]; } else { assert (a + b)[i] == b[i - |a|]; }
    }
    forall n | n in VisitedNodes(a) ensures n in VisitedNodes(a + b) {
      var i :| 0 <= i < |a| && a[i].node == n;
      assert (a + b)[i] == a[i];
    }
    forall n | n in VisitedNodes(b) ensures n in VisitedNodes(a + b) {
      var i :| 0 <= i < |b| && b[i].node == n;
      assert (a + b)[|a| + i] == b[i];
    }
  }

  /** The nodes of the entries pushed for a children list are that list's members. */
  lemma ChildVisitsNodes(children: seq<NodeId>, depth: int)
    ensures VisitedNodes(ChildVisits(children, depth)) == set k | 0 <= k < |children| :: children[k]
  {
    var cv := ChildVisits(children, depth);
    forall n | n in VisitedNodes(cv) ensures n in set k | 0 <= k < |children| :: children[k] {
      var i :| 0 <= i < |cv| && cv[i].node == n;
    }
    forall n | n in set k | 0 <= k < |children| :: children[k] ensures n in VisitedNodes(cv) {
      var i :| 0 <= i < |children| && children[i] == n;
      assert cv[i].node == n;
    }
  }

  /** The entries of one more child. */
  lemma ChildVisitsSnoc(children: seq<NodeId>, j: nat, depth: int)
    requires j < |children|
    ensures ChildVisits(children[..j + 1], depth) == ChildVisits(children[..j], depth) + [Visit(children[j], depth)]
  {
  }

  /** The entries pushed for the children of a node that is being visited. */
  function Pushed(wm: WidgetManager, inputs: seq<InputEvent>, v: Visit): seq<Visit> {
    if wm.EntersChildren(inputs, v.node) then ChildVisits(wm.tree.ChildrenOf(v.node), v.depth + 1) else []
  }

  /** The pushed entries are fresh, distinct and at their depth, and are exactly the entered children. */
  lemma {:induction false} PushedFacts(wm: WidgetManager, inputs: seq<InputEvent>, visits: seq<Visit>, stack: seq<Visit>, v: Visit)
    requires wm.Valid() && Frontier(wm, inputs, visits, stack)
    requires |stack| > 0 && v == stack[|stack| - 1]
    ensures var ps := Pushed(wm, inputs, v);
      && Distinct(ps) && AtDepth(wm.tree, ps)
      && (forall n :: n in VisitedNodes(ps) <==>
            n in wm.tree.parent && wm.tree.parent[n] == v.node && wm.EntersChildren(inputs, v.node))
      && VisitedNodes(ps) !! VisitedNodes(visits) + VisitedNodes(stack)
  {
    var t := wm.tree;
    var ps := Pushed(wm, inputs, v);
    assert stack[|stack| - 1] == v;
    assert v.node in VisitedNodes(stack);
    if wm.EntersChildren(inputs, v.node) {
      var cs := t.ChildrenOf(v.node);
      ChildVisitsNodes(cs, v.depth + 1);
      forall n ensures n in VisitedNodes(ps) <==> n in t.parent && t.parent[n] == v.node {
        ChildrenAreExactlyParentOf(t, v.node, n);
      }
      forall i | 0 <= i < |ps| ensures ps[i].node in t.Nodes() && ps[i].depth == t.Depth(ps[i].node) {
        ChildDepth(t, v.node, cs[i]);
        assert ps[i].node == cs[i];
      }
      forall n | n in VisitedNodes(ps) ensures n !in VisitedNodes(visits) + VisitedNodes(stack) {
        assert t.parent[n] == v.node;
        assert Some(n) != t.root;
      }
    } else {
      assert VisitedNodes(ps) == {};
    }
  }

  /** The top entry of the stack is not among the entries below it. */
  lemma TopIsFresh(stack: seq<Visit>)
    requires Distinct(stack) && |stack| > 0
    ensures var rest := stack[..|stack| - 1];
      && stack == rest + [stack[|stack| - 1]]
      && stack[|stack| - 1].node !in VisitedNodes(rest)
      && VisitedNodes(stack) == VisitedNodes(rest) + {stack[|stack| - 1].node}
  {
    var rest := stack[..|stack| - 1];
    var v := stack[|stack| - 1];
    assert stack == rest + [v];
    VisitedNodesSnoc(rest, v);
  }

  /** Appending entries whose nodes are new to a distinct sequence keeps it distinct. */
  lemma DistinctAppend(a: seq<Visit>, b: seq<Visit>)
    requires Distinct(a) && Distinct(b) && VisitedNodes(a) !! VisitedNodes(b)
    ensures Distinct(a + b)
  {
    var ab := a + b;
    forall i, j | 0 <= i < j < |ab| ensures ab[i].node != ab[j].node {
      if j < |a| {
        assert ab[i] == a[i] && ab[j] == a[j];
      } else if i < |a| {
        assert ab[i] == a[i] && ab[i].node in VisitedNodes(a);
        assert ab[j] == b[j - |a|] && ab[j].node in VisitedNodes(b);
      } else {
        assert ab[i] == b[i - |a|] && ab[j] == b[j - |a|];
      }
    }
  }

  /** Entries at their depth stay so when appended. */
  lemma AtDepthAppend(t: Tree, a: seq<Visit>, b: seq<Visit>)
    requires t.Valid() && AtDepth(t, a) && AtDepth(t, b)
    ensures AtDepth(t, a + b)
  {
    var ab := a + b;
    forall i | 0 <= i < |ab| ensures ab[i].node in t.Nodes() && ab[i].depth == t.Depth(ab[i].node) {
      if i < |a| { assert ab[i] == a[i]; } else { assert ab[i] == b[i - |a|]; }
    }
  }

  /** A prefix of entries at their depth is at its depth. */
  lemma AtDepthPrefix(t: Tree, a: seq<Visit>, k: nat)
    requires t.Valid() && AtDepth(t, a) && k <= |a|
    ensures AtDepth(t, a[..k])
  {
    forall i | 0 <= i < k ensures a[..k][i].node in t.Nodes() && a[..k][i].depth == t.Depth(a[..k][i].node) {
      assert a[..k][i] == a[i];
    }
  }

  /** Popping the top entry onto the visits and pushing fresh entries keeps both distinct and apart. */
  lemma DistinctStep(visits: seq<Visit>, stack: seq<Visit>, ps: seq<Visit>)
    requires Distinct(visits) && Distinct(stack) && Distinct(ps) && |stack| > 0
    requires VisitedNodes(visits) !! VisitedNodes(stack)
    requires VisitedNodes(ps) !! VisitedNodes(visits) + VisitedNodes(stack)
    ensures var v := stack[|stack| - 1];
      var rest := stack[..|stack| - 1];
      && Distinct(visits + [v]) && Distinct(rest + ps)
      && VisitedNodes(visits + [v]) !! VisitedNodes(rest + ps)
  {
    var v := stack[|stack| - 1];
    var rest := stack[..|stack| - 1];
    TopIsFresh(stack);
    VisitedNodesSnoc(visits, v);
    VisitedNodesAppend(rest, ps);
    assert VisitedNodes([v]) == {v.node} by {
      assert [v][0] == v;
    }
    DistinctAppend(visits, [v]);
    assert Distinct(rest) by {
      forall i, j | 0 <= i < j < |rest| ensures rest[i].node != rest[j].node {
        assert rest[i] == stack[i] && rest[j] == stack[j];
      }
    }
    DistinctAppend(rest, ps);
  }

  /** Popping the top entry onto the visits and pushing entries at their depth keeps both at their depth. */
  lemma AtDepthStep(t: Tree, visits: seq<Visit>, stack: seq<Visit>, ps: seq<Visit>)
    requires t.Valid() && AtDepth(t, visits) && AtDepth(t, stack) && AtDepth(t, ps) && |stack| > 0
    ensures AtDepth(t, visits + [stack[|stack| - 1]]) && AtDepth(t, stack[..|stack| - 1] + ps)
  {
    var v := stack[|stack| - 1];
    AtDepthPrefix(t, stack, |stack| - 1);
    assert AtDepth(t, [v]) by {
      assert [v][0] == stack[|stack| - 1];
    }
    AtDepthAppend(t, visits, [v]);
    AtDepthAppend(t, stack[..|stack| - 1], ps);
  }

  /** The shape half of `FrontierStep`. */
  lemma FrontierShapeStep(wm: WidgetManager, inputs: seq<InputEvent>, visits: seq<Visit>, stack: seq<Visit>, v: Visit)
    requires wm.Valid() && Frontier(wm, inputs, visits, stack)
    requires |stack| > 0 && v == stack[|stack| - 1]
    ensures FrontierShape(wm.tree, visits + [v], stack[..|stack| - 1] + Pushed(wm, inputs, v))
  {
    var ps := Pushed(wm, inputs, v);
    PushedFacts(wm, inputs, visits, stack, v);
    DistinctStep(visits, stack, ps);
    AtDepthStep(wm.tree, visits, stack, ps);
  }

  /** The closure half of `FrontierStep`, on the node sets. */
  lemma FrontierClosedStep(wm: WidgetManager, inputs: seq<InputEvent>, visited: set<NodeId>, waiting: set<NodeId>,
                           m: NodeId, pushed: set<NodeId>)
    requires FrontierClosed(wm, inputs, visited, waiting + {m})
    requires forall n :: n in pushed <==> n in wm.tree.parent && wm.tree.parent[n] == m && wm.EntersChildren(inputs, m)
    ensures FrontierClosed(wm, inputs, visited + {m}, waiting + pushed)
  {
    assert (visited + {m}) + (waiting + pushed) == (visited + (waiting + {m})) + pushed;
  }

  /**
   * Popping the top entry, recording it as visited and pushing its entered
   * children keeps the walk's invariant, and the popped node is a node of
   * the tree not visited before.
   */
  lemma FrontierStep(wm: WidgetManager, inputs: seq<InputEvent>, visits: seq<Visit>, stack: seq<Visit>, v: Visit)
    requires wm.Valid() && Frontier(wm, inputs, visits, stack)
    requires |stack| > 0 && v == stack[|stack| - 1]
    ensures Frontier(wm, inputs, visits + [v], stack[..|stack| - 1] + Pushed(wm, inputs, v))
    ensures v.node in wm.tree.Nodes() && v.node !in VisitedNodes(visits)
    ensures VisitedNodes(visits + [v]) == VisitedNodes(visits) + {v.node}
  {
    var rest := stack[..|stack| - 1];
    var ps := Pushed(wm, inputs, v);
    FrontierShapeStep(wm, inputs, visits, stack, v);
    PushedFacts(wm, inputs, visits, stack, v);
    TopIsFresh(stack);
    VisitedNodesSnoc(visits, v);
    VisitedNodesAppend(rest, ps);
    assert v == stack[|stack| - 1];
    FrontierClosedStep(wm, inputs, VisitedNodes(visits), VisitedNodes(rest), v.node, VisitedNodes(ps));
  }

  /** The nodes ranked above `n`: the measure that shrinks from a node to each of its children. */
  ghost function Above(t: Tree, n: NodeId): set<NodeId> {
    set m | m in t.rank && t.rank[m] > t.Rank(n)
  }

  lemma AboveShrinks(t: Tree, p: NodeId, c: NodeId)
    requires t.Valid() && c in t.parent && t.parent[c] == p
    ensures Above(t, c) < Above(t, p)
  {
    assert c in Above(t, p) && c !in Above(t, c);
  }

  /** Every node listed is a child of `p`. */
  ghost predicate ChildrenOfNode(t: Tree, p: NodeId, cs: seq<NodeId>) {
    forall i :: 0 <= i < |cs| ==> cs[i] in t.parent && t.parent[cs[i]] == p
  }

  /**
   * The depth-first order of the walk below `n`, reached at depth `d`: `n`
   * first, then, when the walk may descend at `n`, the subtrees of its
   * children from the last child of the list to the first.
   */
  ghost function Preorder(wm: WidgetManager, inputs: seq<InputEvent>, n: NodeId, d: int): seq<Visit>
    requires wm.Valid()
    decreases Above(wm.tree, n), 1, 0
  {
    [Visit(n, d)]
    + (if wm.EntersChildren(inputs, n) then Subtrees(wm, inputs, n, wm.tree.ChildrenOf(n), d + 1) else [])
  }

  /** The subtrees below the children `cs` of `p`, all at depth `d`, the last child's first. */
  ghost function Subtrees(wm: WidgetManager, inputs: seq<InputEvent>, p: NodeId, cs: seq<NodeId>, d: int): seq<Visit>
    requires wm.Valid() && ChildrenOfNode(wm.tree, p, cs)
    decreases Above(wm.tree, p), 0, |cs|
  {
    if cs == [] then []
    else
      AboveShrinks(wm.tree, p, cs[|cs| - 1]);
      Preorder(wm, inputs, cs[|cs| - 1], d) + Subtrees(wm, inputs, p, cs[..|cs| - 1], d)
  }

  /** The order in which the walk visits what its stack holds: the subtree of the top entry first. */
  ghost function StackOrder(wm: WidgetManager, inputs: seq<InputEvent>, stack: seq<Visit>): seq<Visit>
    requires wm.Valid()
    decreases |stack|
  {
    if stack == [] then []
    else
      var v := stack[|stack| - 1];
      Preorder(wm, inputs, v.node, v.depth) + StackOrder(wm, inputs, stack[..|stack| - 1])
  }

  /** Entries pushed on top of `a` are visited, with their subtrees, before `a`. */
  lemma {:induction false} StackOrderAppend(wm: WidgetManager, inputs: seq<InputEvent>, a: seq<Visit>, b: seq<Visit>)
    requires wm.Valid()
    ensures StackOrder(wm, inputs, a + b) == StackOrder(wm, inputs, b) + StackOrder(wm, inputs, a)
    decreases |b|
  {
    if b == [] {
      assert a + b == a;
    } else {
      var init := b[..|b| - 1];
      var v := b[|b| - 1];
      assert (a + b)[..|a + b| - 1] == a + init;
      StackOrderAppend(wm, inputs, a, init);
    }
  }

  /** Pushing the children of `p` in list order and popping them is visiting their subtrees. */
  lemma {:induction false} SubtreesAreStackOrder(wm: WidgetManager, inputs: seq<InputEvent>, p: NodeId, cs: seq<NodeId>, d: int)
    requires wm.Valid() && ChildrenOfNode(wm.tree, p, cs)
    ensures Subtrees(wm, inputs, p, cs, d) == StackOrder(wm, inputs, ChildVisits(cs, d))
    decreases |cs|
  {
    if cs != [] {
      var init := cs[..|cs| - 1];
      var cv := ChildVisits(cs, d);
      assert cv[..|cv| - 1] == ChildVisits(init, d);
      SubtreesAreStackOrder(wm, inputs, p, init, d);
    }
  }

  /** A visited node's subtree is the node followed by the subtrees of what it pushes. */
  lemma PreorderIsPushedOrder(wm: WidgetManager, inputs: seq<InputEvent>, v: Visit)
    requires wm.Valid()
    ensures Preorder(wm, inputs, v.node, v.depth) == [v] + StackOrder(wm, inputs, Pushed(wm, inputs, v))
  {
    if wm.EntersChildren(inputs, v.node) {
      SubtreesAreStackOrder(wm, inputs, v.node, wm.tree.ChildrenOf(v.node), v.depth + 1);
    }
  }

  /** One pop-and-push turn keeps the visits followed by the stack's order unchanged. */
  lemma OrderStep(wm: WidgetManager, inputs: seq<InputEvent>, visits: seq<Visit>, stack: seq<Visit>)
    requires wm.Valid() && |stack| > 0
    ensures var v := stack[|stack| - 1];
      (visits + [v]) + StackOrder(wm, inputs, stack[..|stack| - 1] + Pushed(wm, inputs, v))
      == visits + StackOrder(wm, inputs, stack)
  {
    var v := stack[|stack| - 1];
    var rest := stack[..|stack| - 1];
    var ps := Pushed(wm, inputs, v);
    StackOrderAppend(wm, inputs, rest, ps);
    PreorderIsPushedOrder(wm, inputs, v);
    Regroup(visits, v, StackOrder(wm, inputs, ps), StackOrder(wm, inputs, rest));
  }

  lemma Regroup(visits: seq<Visit>, v: Visit, below: seq<Visit>, others: seq<Visit>)
    ensures (visits + [v]) + (below + others) == visits + (([v] + below) + others)
  {
  }

  /** The walk seeded with the root at depth 0 visits the root's preorder. */
  lemma OrderStart(wm: WidgetManager, inputs: seq<InputEvent>, root: NodeId)
    requires wm.Valid()
    ensures [] + StackOrder(wm, inputs, [Visit(root, 0)]) == Preorder(wm, inputs, root, 0)
  {
    assert [Visit(root, 0)][..0] == [];
  }

  /** Visiting one more node of the tree leaves fewer unvisited. */
  lemma UnvisitedShrinks(nodes: set<NodeId>, visited: set<NodeId>, m: NodeId)
    requires m in nodes && m !in visited
    ensures |nodes - (visited + {m})| < |nodes - visited|
  {
    assert nodes - visited == (nodes - (visited + {m})) + {m};
  }

  /** An empty stack leaves visited exactly the nodes the walk may reach. */
  lemma FrontierDone(wm: WidgetManager, inputs: seq<InputEvent>, visits: seq<Visit>)
    requires wm.Valid() && Frontier(wm, inputs, visits, [])
    ensures forall n :: n in VisitedNodes(visits) <==> wm.Exposed(inputs, n)
  {
    assert VisitedNodes([]) == {};
    forall n ensures n in VisitedNodes(visits) <==> wm.Exposed(inputs, n) {
      ClosedSetIsExposed(wm, inputs, VisitedNodes(visits), n);
    }
  }

}
