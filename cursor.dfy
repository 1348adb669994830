/** How the pointer interacts with a node (kayak_core/src/cursor.rs). */
module Cursor {

  datatype PointerEvents = All | SelfOnly | ChildrenOnly | None {
    /** Pointer events are processed on the node itself. */
    predicate AdmitsSelf() { All? || SelfOnly? }

    /** The pointer walk continues into the node's children. */
    predicate AdmitsChildren() { All? || ChildrenOnly? }
  }

  /** `PointerEvents::default()`. */
  function Default(): (p: PointerEvents)
    ensures p.AdmitsSelf() && p.AdmitsChildren()
  {
    All
  }

  /** The policy admitting exactly the given parts. */
  function FromAdmission(onSelf: bool, onChildren: bool): (p: PointerEvents)
    ensures p.AdmitsSelf() == onSelf && p.AdmitsChildren() == onChildren
  {
    if onSelf && onChildren then All
    else if onSelf then SelfOnly
    else if onChildren then ChildrenOnly
    else None
  }

  /** Each of the four policies is the one admitting exactly its two parts. */
  lemma AdmissionDeterminesPolicy(p: PointerEvents)
    ensures FromAdmission(p.AdmitsSelf(), p.AdmitsChildren()) == p
    ensures p == All <==> p.AdmitsSelf() && p.AdmitsChildren()
    ensures p == SelfOnly <==> p.AdmitsSelf() && !p.AdmitsChildren()
    ensures p == ChildrenOnly <==> !p.AdmitsSelf() && p.AdmitsChildren()
    ensures p == None <==> !p.AdmitsSelf() && !p.AdmitsChildren()
  {
  }

}
