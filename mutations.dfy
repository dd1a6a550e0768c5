/**
 * Mutation records and where the observers' MutationObserver callbacks send each one.
 * Both observers route character-data and child-list records the same way; only the
 * MatchObserver watches attributes.
 */
module Mutations {
  import opened Wrappers
  import opened Dom
  import opened Utilities
  import opened MatchObjects
  import opened IndexSpec

  /** A `MutationRecord`, with the fields the callbacks read. */
  datatype Mutation =
    | CharacterData(target: NodeId)
    | Attributes(target: NodeId, attributeName: string)
    | ChildList(target: NodeId, addedNodes: seq<NodeId>, removedNodes: seq<NodeId>)

  /** Every node a record names is a node of the document. */
  predicate RecordNodesIn(t: Tree, rec: Mutation) {
    && rec.target in t.kind
    && (rec.ChildList? ==> (forall n :: n in rec.addedNodes ==> n in t.kind) && (forall n :: n in rec.removedNodes ==> n in t.kind))
  }

  /** What a callback does with one record. */
  datatype Route =
    | ValueNodeRoute(node: NodeId)                        // observeValueNode(node)
    | RescanRoute(node: NodeId, children: bool)          // stripMatches, then searchMatches
    | ChildrenRoute(removed: seq<NodeId>, added: seq<NodeId>)  // unbind and strip each removed node, then bind and search each added one
    | Ignored

  predicate RouteNodesIn(t: Tree, r: Route) {
    match r
    case ValueNodeRoute(n) => n in t.kind
    case RescanRoute(n, _) => n in t.kind
    case ChildrenRoute(removed, added) => (forall n :: n in removed ==> n in t.kind) && (forall n :: n in added ==> n in t.kind)
    case Ignored => true
  }

  /**
   * The `switch` on the record type. The walk for a form control starts at the parent of
   * a changed text or attribute node and at the target of a child-list change, and looks at
   * that node and the two above it: so up to three levels above a changed text or attribute
   * node, and up to two above a child-list target. A record whose walk meets a value element
   * goes to the nearest one; otherwise a text change
   * rescans its node with its subtree, an attribute change rescans the node alone, and a
   * child-list change strips the removed nodes before it searches the added ones.
   * Attribute records are dropped when attributes are not observed.
   */
  function RouteOf(t: Tree, rec: Mutation, attributesObserved: bool): (r: Route)
    requires ValidTree(t)
    ensures r.ValueNodeRoute? ==> IsValueNode(t, r.node)
    ensures r.ValueNodeRoute? ==>
      var start := if rec.ChildList? then Some(rec.target) else Parent(t, rec.target);
      exists i :: 0 <= i < 3 && Up(t, start, i) == Some(r.node) && forall j :: 0 <= j < i ==> !ValueNodeAt(t, start, j)
    ensures r.RescanRoute? ==> (r.node == rec.target && (r.children <==> rec.CharacterData?)
      && forall i :: 0 <= i < 3 ==> !ValueNodeAt(t, Parent(t, rec.target), i))
    ensures r.ChildrenRoute? ==> (rec.ChildList? && r.removed == rec.removedNodes && r.added == rec.addedNodes
      && forall i :: 0 <= i < 3 ==> !ValueNodeAt(t, Some(rec.target), i))
    ensures r.Ignored? <==> rec.Attributes? && !attributesObserved
    ensures RecordNodesIn(t, rec) ==> RouteNodesIn(t, r)
  {
    match rec
    case CharacterData(x) =>
      FirstValueUpMeaning(t, Parent(t, x), 3);
      (match FirstValueUp(t, Parent(t, x), 3)
       case Some(v) => ValueNodeRoute(v)
       case None => RescanRoute(x, true))
    case Attributes(x, _) =>
      if !attributesObserved then Ignored
      else
        FirstValueUpMeaning(t, Parent(t, x), 3);
        (match FirstValueUp(t, Parent(t, x), 3)
         case Some(v) => ValueNodeRoute(v)
         case None => RescanRoute(x, false))
    case ChildList(x, added, removed) =>
      FirstValueUpMeaning(t, Some(x), 3);
      (match FirstValueUp(t, Some(x), 3)
       case Some(v) => ValueNodeRoute(v)
       case None => ChildrenRoute(removed, added))
  }

  /** `stripMatches(node)` for each node of `ns`, in order. */
  function StripNodes(t: Tree, s: IndexState, ns: seq<NodeId>): IndexState
    requires ValidTree(t) && forall n :: n in ns ==> n in t.kind
    decreases |ns|
  {
    if ns == [] then s else StripNodes(t, Strip(t, s, ns[0], true), ns[1..])
  }

  lemma {:induction false} StripNodesConsistent(t: Tree, s: IndexState, ns: seq<NodeId>)
    requires ValidTree(t) && (forall n :: n in ns ==> n in t.kind) && Consistent(s)
    ensures Consistent(StripNodes(t, s, ns))
    ensures Listening(s) ==> Listening(StripNodes(t, s, ns))
    decreases |ns|
  {
    if ns != [] {
      StripSeqConsistent(t, ns[0], s, Visited(t, ns[0], true));
      StripNodesConsistent(t, Strip(t, s, ns[0], true), ns[1..]);
    }
  }

  /** Adding one batch of built matches and then another is adding both in order. */
  lemma {:induction false} AddNewAllConcat(s: IndexState, a: seq<MatchObject>, b: seq<MatchObject>)
    ensures AddNewAll(s, a + b) == AddNewAll(AddNewAll(s, a), b)
    decreases |b|
  {
    if b != [] {
      var last := b[|b| - 1];
      assert (a + b)[..|a + b| - 1] == a + b[..|b| - 1];
      assert (a + b)[|a + b| - 1] == last;
      AddNewAllConcat(s, a, b[..|b| - 1]);
    } else {
      assert a + b == a;
    }
  }
}
