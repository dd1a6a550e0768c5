/**
 * `MatchWalker`: the variant built around a fixed root. It starts on demand, never watches
 * attributes, always strips whole subtrees, and is torn down with `destroy`.
 */
module MatchWalkers {
  import opened Wrappers
  import opened Dom
  import opened Utilities
  import opened MatchObjects
  import opened IndexSpec
  import opened Mutations
  import opened MatchIndexes

  /** `props.matcher(node)`, called on the document as it is at the time. */
  type WalkerMatcher = (Tree, NodeId) -> Matched

  /** `IWalkerProps`: the root, the matcher and the hover callback may each be missing. */
  datatype WalkerProps = WalkerProps(root: Option<NodeId>, matcher: Option<WalkerMatcher>, hasHover: bool)

  /**
   * The walker's matcher as the shared index code calls it: the `children` flag the
   * observer's matcher takes is dropped.
   */
  function IndexMatcher(m: WalkerMatcher): (Tree, NodeId, bool) -> Matched
  {
    (t: Tree, n: NodeId, children: bool) => m(t, n)
  }

  class MatchWalker {
    const index: MatchIndex
    const root: NodeId
    const matcher: WalkerMatcher
    /** `_observer`: false until `start` creates the MutationObserver. */
    var hasObserver: bool
    /** MutationObservers created by earlier `start` calls and never disconnected. */
    ghost var leaked: nat
    /** Whether the current MutationObserver is connected to the root. */
    ghost var watching: bool

    ghost predicate Valid()
      reads this, index, index.dom, index.ids, index.matchesSet
    {
      index.Valid() && root in index.dom.tree.kind && (watching ==> hasObserver)
    }

    /** The state the constructor leaves once its checks have passed. */
    constructor Init(root: NodeId, matcher: WalkerMatcher, dom: Document, ids: IdSource)
      requires dom.Valid() && IdsWellFormed(Tags(dom.attr, ids.incrementingId)) && root in dom.tree.kind
      ensures Valid() && fresh(index) && fresh(index.matchesSet)
      ensures this.root == root && this.matcher == matcher
      ensures index.dom == dom && index.ids == ids && index.matchesSet.store == map[]
      ensures index.listening == {} && index.changeBound == {} && index.lastHovered.None? && index.hoverCalls == []
      ensures !hasObserver && !watching && leaked == 0
    {
      index := new MatchIndex(dom, ids);
      this.root := root;
      this.matcher := matcher;
      hasObserver := false;
      leaked := 0;
      watching := false;
    }

    /** `new MatchWalker(props)`: throws when the root, the matcher or the hover callback is missing. */
    static method Create(props: WalkerProps, dom: Document, ids: IdSource) returns (r: Result<MatchWalker>)
      requires dom.Valid() && IdsWellFormed(Tags(dom.attr, ids.incrementingId))
      requires props.root.Some? ==> props.root.value in dom.tree.kind
      ensures props.root.None? ==> r == Err(Required("root"))
      ensures props.root.Some? && props.matcher.None? ==> r == Err(Required("matcher"))
      ensures props.root.Some? && props.matcher.Some? && !props.hasHover ==> r == Err(Required("hover"))
      ensures props.root.Some? && props.matcher.Some? && props.hasHover ==>
        && r.Ok? && fresh(r.value) && fresh(r.value.index) && r.value.Valid()
        && r.value.root == props.root.value && r.value.matcher == props.matcher.value
        && r.value.index.dom == dom && r.value.index.ids == ids && r.value.index.matchesSet.store == map[]
        && r.value.index.listening == {} && r.value.index.changeBound == {}
        && r.value.index.lastHovered.None? && r.value.index.hoverCalls == []
        && !r.value.hasObserver && !r.value.watching && r.value.leaked == 0
    {
      if props.root.None? {
        return Err(Required("root"));
      }
      if props.matcher.None? {
        return Err(Required("matcher"));
      }
      if !props.hasHover {
        return Err(Required("hover"));
      }
      var w := new MatchWalker.Init(props.root.value, props.matcher.value, dom, ids);
      r := Ok(w);
    }

    /**
     * `start()`: observe the root, bind its value nodes and add the matches the matcher
     * finds in it. Nothing stops a second start: when no `destroy` came in between, the
     * earlier MutationObserver is still connected and is left so, unreachable.
     */
    method Start() returns (o: Outcome, created: seq<MatchObject>)
      requires Valid()
      modifies this`hasObserver, this`leaked, this`watching, index`listening, index`changeBound
      modifies index.matchesSet, index.dom`attr, index.dom`linked, index.ids
      ensures Valid() && hasObserver && watching
      ensures leaked == old(leaked) + (if old(watching) then 1 else 0)
      ensures index.changeBound == old(index.changeBound) + ValueNodesUnder(index.dom.tree, root)
      ensures var found := matcher(index.dom.tree, root);
        && (found.List? ==> index.Abs() == AddNewAll(old(index.Abs()), created) && AddedFrom(index.dom.tree, found.items, created, o))
        && (!found.List? ==> o == Pass && created == [] && index.Abs() == old(index.Abs()))
    {
      if watching {
        leaked := leaked + 1;
      }
      hasObserver := true;
      watching := true;
      o, created := Search(root);
    }

    /** `bindValueNodes(node); searchMatches(node)` with the walker's matcher. */
    method Search(node: NodeId) returns (o: Outcome, created: seq<MatchObject>)
      requires Valid() && node in index.dom.tree.kind
      modifies index`listening, index`changeBound, index.matchesSet, index.dom`attr, index.dom`linked, index.ids
      ensures Valid()
      ensures index.changeBound == old(index.changeBound) + ValueNodesUnder(index.dom.tree, node)
      ensures var found := matcher(index.dom.tree, node);
        && (found.List? ==> index.Abs() == AddNewAll(old(index.Abs()), created) && AddedFrom(index.dom.tree, found.items, created, o))
        && (!found.List? ==> o == Pass && created == [] && index.Abs() == old(index.Abs()))
    {
      o, created := index.BindAndSearchOne(node, matcher(index.dom.tree, node));
    }

    /** `stripMatches(node)`: throws on null; otherwise strips the node's whole subtree. */
    method StripMatches(node: Option<NodeId>) returns (o: Outcome)
      requires Valid() && (node.Some? ==> node.value in index.dom.tree.kind)
      modifies index`listening, index.matchesSet, index.dom`attr, index.dom`linked, index.ids
      ensures Valid()
      ensures node.None? ==> o == Fail(Required("node")) && index.Abs() == old(index.Abs())
      ensures node.Some? ==> o == Pass && index.Abs() == Strip(index.dom.tree, old(index.Abs()), node.value, true)
    {
      o := index.StripMatches(node, true);
    }

    /**
     * The MutationObserver callback, run by the current MutationObserver or by one a
     * repeated `start` leaked: each record, in order, goes where `RouteOf` sends it
     * (attribute records dropped) and is handled there; a throw ends the batch. `steps`
     * logs what each handled record did, the one that threw last.
     */
    method ObserveMutations(records: seq<Mutation>) returns (o: Outcome, ghost steps: seq<Step>)
      requires Valid() && (watching || leaked > 0)
      requires forall i :: 0 <= i < |records| ==> RecordNodesIn(index.dom.tree, records[i])
      modifies index`listening, index`changeBound, index.matchesSet, index.dom`attr, index.dom`linked, index.ids
      ensures Valid()
      ensures o.Pass? ==> |steps| == |records|
      ensures o.Fail? ==> |steps| > 0 && steps[|steps| - 1].outcome == o
      ensures forall i :: 0 <= i < |steps| - 1 ==> steps[i].outcome == Pass
      ensures StepsFollow(index.dom.tree, IndexMatcher(matcher), records, false, steps)
      ensures Chained(old(index.Abs()), old(index.changeBound), steps, index.Abs(), index.changeBound)
    {
      o, steps := index.ApplyRecords(records, IndexMatcher(matcher), false);
    }

    /**
     * `destroy()`: a TypeError before `start`. Otherwise the current MutationObserver stops
     * (leaked ones go on), the root's matches are stripped, its value nodes unbound and the
     * store left empty.
     */
    method Destroy() returns (o: Outcome)
      requires Valid()
      modifies this`watching, index`listening, index`changeBound, index.matchesSet, index.dom`attr, index.dom`linked, index.ids
      ensures Valid()
      ensures !old(hasObserver) ==>
        && o == Fail(TypeError("disconnect")) && watching == old(watching)
        && index.Abs() == old(index.Abs()) && index.changeBound == old(index.changeBound)
      ensures old(hasObserver) ==>
        && o == Pass && !watching && index.matchesSet.store == map[]
        && index.Abs() == Strip(index.dom.tree, old(index.Abs()), root, true).(store := map[])
        && index.changeBound == old(index.changeBound) - ValueNodesUnder(index.dom.tree, root)
      ensures leaked == old(leaked) && index.Hover() == old(index.Hover())
    {
      if !hasObserver {
        return Fail(TypeError("disconnect"));
      }
      watching := false;
      index.Teardown(root);
      o := Pass;
    }
  }
}
