/**
 * The collaborators the dispatcher reads: the node tree, the layout cache
 * and the widgets' styles and focusability. node_tree.rs, layout_cache.rs
 * and widget_manager.rs are not part of this model; only the queries the
 * dispatcher makes of them are given.
 */
module Widgets {
  import opened Options
  import opened Input
  import opened Events
  import Cursor

  /** A laid-out rectangle with its z-index. */
  datatype Rect = Rect(posX: real, posY: real, width: real, height: real, zIndex: real) {
    /** `Rect::contains`, taken to be the closed-box test. */
    predicate Contains(p: Point) {
      posX <= p.x <= posX + width && posY <= p.y <= posY + height
    }
  }

  /** Render intents; `Drawn` stands for every command that draws something. */
  datatype RenderCommand = Empty | Layout | Clip | Drawn(kind: nat)

  /** The resolved style properties the dispatcher reads. */
  datatype Style = Style(pointerEvents: Cursor.PointerEvents, renderCommand: RenderCommand)

  /**
   * Parent/child adjacency. `rank` is a witness that the parent relation is
   * acyclic: a parent always has a smaller rank than its child.
   */
  datatype Tree = Tree(
    root: Option<NodeId>,
    children: map<NodeId, seq<NodeId>>,
    parent: map<NodeId, NodeId>,
    rank: map<NodeId, nat>)
  {
    ghost predicate Valid() {
      && (root.Some? ==> root.value !in parent)
      && (forall c :: c in parent ==> c in rank && parent[c] in rank && rank[parent[c]] < rank[c])
      && (forall n, i :: n in children && 0 <= i < |children[n]| ==>
            children[n][i] in parent && parent[children[n][i]] == n)
      && (forall n, i, j :: n in children && 0 <= i < j < |children[n]| ==>
            children[n][i] != children[n][j])
      && (forall c :: c in parent ==> parent[c] in children && c in children[parent[c]])
    }

    /** Every node the tree knows of. */
    ghost function Nodes(): set<NodeId> {
      parent.Keys + (if root.Some? then {root.value} else {})
    }

    function Rank(n: NodeId): nat {
      if n in rank then rank[n] else 0
    }

    /** `get_parent`. */
    function GetParent(n: NodeId): Option<NodeId> {
      if n in parent then Some(parent[n]) else None
    }

    /** `children.get`, with a missing entry read as no children. */
    function ChildrenOf(n: NodeId): seq<NodeId> {
      if n in children then children[n] else []
    }

    /** Number of ancestors of `n`. */
    ghost function Depth(n: NodeId): nat
      requires Valid()
      decreases Rank(n)
    {
      if n in parent then Depth(parent[n]) + 1 else 0
    }

    /** `a` is `m` or one of its ancestors. */
    ghost predicate IsAncestorOrSelf(a: NodeId, m: NodeId)
      requires Valid()
      decreases Rank(m)
    {
      a == m || (m in parent && IsAncestorOrSelf(a, parent[m]))
    }

    ghost predicate IsProperAncestor(a: NodeId, m: NodeId)
      requires Valid()
    {
      m in parent && IsAncestorOrSelf(a, parent[m])
    }
  }

  /** What the dispatcher can look up about the widgets of the tree. */
  datatype WidgetManager = WidgetManager(
    tree: Tree,
    layouts: map<NodeId, Rect>,
    styles: map<NodeId, Style>,
    focusable: map<NodeId, bool>)
  {
    ghost predicate Valid() { tree.Valid() }

    /** `get_layout`. */
    function GetLayout(n: NodeId): Option<Rect> {
      if n in layouts then Some(layouts[n]) else None
    }

    /** The node's widget exists and reports styles. */
    function GetStyles(n: NodeId): Option<Style> {
      if n in styles then Some(styles[n]) else None
    }

    /** `get_focusable`. */
    function GetFocusable(n: NodeId): Option<bool> {
      if n in focusable then Some(focusable[n]) else None
    }

    /** The resolved pointer policy, `All` for a node without widget or styles. */
    function PointerEventsOf(n: NodeId): (p: Cursor.PointerEvents)
      ensures GetStyles(n).None? ==> p == Cursor.Default()
    {
      if n in styles then styles[n].pointerEvents else Cursor.Default()
    }

    /**
     * Whether the pointer walk pushes the children of `n`: the policy only
     * blocks descent when the tick holds some pointer input.
     */
    predicate EntersChildren(inputs: seq<InputEvent>, n: NodeId) {
      !HasMouseInput(inputs) || PointerEventsOf(n).AdmitsChildren()
    }

    /** `n` is the root or hangs below it through nodes that let the walk descend. */
    ghost predicate Exposed(inputs: seq<InputEvent>, n: NodeId)
      requires Valid()
      decreases tree.Rank(n)
    {
      Some(n) == tree.root
      || (n in tree.parent && EntersChildren(inputs, tree.parent[n]) && Exposed(inputs, tree.parent[n]))
    }
  }


  /** Every exposed node hangs below the root. */
  lemma {:induction false} ExposedUnderRoot(wm: WidgetManager, inputs: seq<InputEvent>, m: NodeId)
    requires wm.Valid() && wm.Exposed(inputs, m)
    ensures wm.tree.root.Some? && wm.tree.IsAncestorOrSelf(wm.tree.root.value, m)
    ensures m in wm.tree.Nodes()
    decreases wm.tree.Rank(m)
  {
    if Some(m) != wm.tree.root {
      ExposedUnderRoot(wm, inputs, wm.tree.parent[m]);
    }
  }

  /**
   * Exposure is closed upward, and every proper ancestor of an exposed node
   * lets the walk descend: a `None` or `SelfOnly` node in a tick with
   * pointer input hides its whole subtree.
   */
  lemma {:induction false} ExposedAncestors(wm: WidgetManager, inputs: seq<InputEvent>, a: NodeId, m: NodeId)
    requires wm.Valid() && wm.Exposed(inputs, m) && wm.tree.IsProperAncestor(a, m)
    ensures wm.Exposed(inputs, a) && wm.EntersChildren(inputs, a)
    decreases wm.tree.Rank(m)
  {
    var p := wm.tree.parent[m];
    if a != p {
      ExposedAncestors(wm, inputs, a, p);
    }
  }

  /**
   * Conversely, a node below the root all of whose proper ancestors let the
   * walk descend is exposed.
   */
  lemma {:induction false} ExposedIfAncestorsEnter(wm: WidgetManager, inputs: seq<InputEvent>, m: NodeId)
    requires wm.Valid() && wm.tree.root.Some? && wm.tree.IsAncestorOrSelf(wm.tree.root.value, m)
    requires forall a :: wm.tree.IsProperAncestor(a, m) ==> wm.EntersChildren(inputs, a)
    ensures wm.Exposed(inputs, m)
    decreases wm.tree.Rank(m)
  {
    if Some(m) != wm.tree.root {
      var p := wm.tree.parent[m];
      assert wm.tree.IsProperAncestor(p, m);
      forall a | wm.tree.IsProperAncestor(a, p) ensures wm.EntersChildren(inputs, a) {
        assert wm.tree.IsProperAncestor(a, m);
      }
      ExposedIfAncestorsEnter(wm, inputs, p);
    }
  }

  /**
   * A set of nodes that holds the root and exactly the children of its own
   * members that let the walk descend is the set of exposed nodes.
   */
  lemma {:induction false} ClosedSetIsExposed(wm: WidgetManager, inputs: seq<InputEvent>, s: set<NodeId>, m: NodeId)
    requires wm.Valid()
    requires forall n :: n in s <==>
      (Some(n) == wm.tree.root || (n in wm.tree.parent && wm.tree.parent[n] in s && wm.EntersChildren(inputs, wm.tree.parent[n])))
    ensures m in s <==> wm.Exposed(inputs, m)
    decreases wm.tree.Rank(m)
  {
    if Some(m) != wm.tree.root && m in wm.tree.parent {
      ClosedSetIsExposed(wm, inputs, s, wm.tree.parent[m]);
    }
  }


  /** The children list of `p` holds exactly the nodes whose parent is `p`. */
  lemma ChildrenAreExactlyParentOf(t: Tree, p: NodeId, n: NodeId)
    requires t.Valid()
    ensures n in t.ChildrenOf(p) <==> n in t.parent && t.parent[n] == p
  {
    if n in t.ChildrenOf(p) {
      var i :| 0 <= i < |t.children[p]| && t.children[p][i] == n;
    }
  }

  /** A child is one level deeper than its parent. */
  lemma ChildDepth(t: Tree, p: NodeId, n: NodeId)
    requires t.Valid() && n in t.ChildrenOf(p)
    ensures n in t.parent && t.parent[n] == p && t.Depth(n) == t.Depth(p) + 1
  {
    ChildrenAreExactlyParentOf(t, p, n);
  }

}
