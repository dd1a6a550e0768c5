/**
 * `MatchObserver`: finds matches under a root it observes, keeps them in a MatchIndex and
 * keeps them current as the document changes, through a MutationObserver and the change
 * events of form controls.
 */
module MatchObservers {
  import opened Wrappers
  import opened Dom
  import opened Utilities
  import opened MatchObjects
  import opened IndexSpec
  import opened Mutations
  import opened MatchIndexes

  /** `props.matcher(node, children)`, called on the document as it is at the time. */
  type ObserverMatcher = (Tree, NodeId, bool) -> Matched

  /** `IObserverProps`: the matcher and the hover callback may be missing; the attribute filter is optional. */
  datatype ObserverProps = ObserverProps(matcher: Option<ObserverMatcher>, hasHover: bool, attributeFilter: Option<seq<string>>)

  /** The options handed to `MutationObserver.observe`. */
  datatype ObserveOptions = ObserveOptions(
    attributeFilter: Option<seq<string>>,
    attributes: bool,
    characterData: bool,
    childList: bool,
    subtree: bool)

  /** The options `observeMutation` uses: attributes are watched exactly when a filter is given. */
  function OptionsFor(filter: Option<seq<string>>): (r: ObserveOptions)
    ensures r.attributes <==> filter.Some?
    ensures r.characterData && r.childList && r.subtree && r.attributeFilter == filter
  {
    ObserveOptions(filter, filter.Some?, true, true, true)
  }

  /** A record a MutationObserver started with `opts` can deliver. */
  predicate Delivered(opts: ObserveOptions, rec: Mutation) {
    rec.Attributes? ==> opts.attributes && (opts.attributeFilter.Some? ==> rec.attributeName in opts.attributeFilter.value)
  }

  class MatchObserver {
    const index: MatchIndex
    const matcher: ObserverMatcher
    const attributeFilter: Option<seq<string>>
    /** `_currentRoot`: the observed root, None (null) before `observe` and after `disconnect`. */
    var currentRoot: Option<NodeId>
    /** `_mutationObserver`: None until `observe` first creates one; then the options it was started with. */
    var mutationObserver: Option<ObserveOptions>
    /** The node the current MutationObserver is connected to, if it is. */
    ghost var watching: Option<NodeId>
    /**
     * MutationObservers an `observe` replaced while they were still connected: nothing
     * reaches them any more, and they keep delivering records.
     */
    ghost var leaked: nat

    ghost predicate Valid()
      reads this, index, index.dom, index.ids, index.matchesSet
    {
      && index.Valid()
      && (currentRoot.Some? ==> currentRoot.value in index.dom.tree.kind)
      && (watching.Some? || leaked > 0 ==> mutationObserver.Some?)
    }

    /** The state the constructor leaves once its checks have passed. */
    constructor Init(matcher: ObserverMatcher, attributeFilter: Option<seq<string>>, dom: Document, ids: IdSource)
      requires dom.Valid() && IdsWellFormed(Tags(dom.attr, ids.incrementingId))
      ensures Valid() && fresh(index) && fresh(index.matchesSet)
      ensures this.matcher == matcher && this.attributeFilter == attributeFilter
      ensures index.dom == dom && index.ids == ids && index.matchesSet.store == map[]
      ensures index.listening == {} && index.changeBound == {} && index.lastHovered.None? && index.hoverCalls == []
      ensures currentRoot.None? && mutationObserver.None? && watching.None? && leaked == 0
    {
      index := new MatchIndex(dom, ids);
      this.matcher := matcher;
      this.attributeFilter := attributeFilter;
      currentRoot := None;
      mutationObserver := None;
      watching := None;
      leaked := 0;
    }

    /** `new MatchObserver(props)`: throws when the matcher or the hover callback is missing. */
    static method Create(props: ObserverProps, dom: Document, ids: IdSource) returns (r: Result<MatchObserver>)
      requires dom.Valid() && IdsWellFormed(Tags(dom.attr, ids.incrementingId))
      ensures props.matcher.None? ==> r == Err(Required("matcher"))
      ensures props.matcher.Some? && !props.hasHover ==> r == Err(Required("hover"))
      ensures props.matcher.Some? && props.hasHover ==>
        && r.Ok? && fresh(r.value) && fresh(r.value.index) && r.value.Valid()
        && r.value.matcher == props.matcher.value && r.value.attributeFilter == props.attributeFilter
        && r.value.index.dom == dom && r.value.index.ids == ids && r.value.index.matchesSet.store == map[]
        && r.value.index.listening == {} && r.value.index.changeBound == {}
        && r.value.index.lastHovered.None? && r.value.index.hoverCalls == []
        && r.value.currentRoot.None? && r.value.mutationObserver.None? && r.value.watching.None?
        && r.value.leaked == 0
    {
      if props.matcher.None? {
        return Err(Required("matcher"));
      }
      if !props.hasHover {
        return Err(Required("hover"));
      }
      var o := new MatchObserver.Init(props.matcher.value, props.attributeFilter, dom, ids);
      r := Ok(o);
    }

    /**
     * `observe(node)`: throws while a root is set. Otherwise starts a new MutationObserver
     * on the node (which throws a TypeError on null), binds its value nodes, adds the
     * matches the matcher finds in it, and only then records it as the root. A throw from
     * the search leaves the root unset with the MutationObserver connected, so the next
     * `observe` replaces it without disconnecting it: it is leaked.
     */
    method Observe(node: Option<NodeId>) returns (o: Outcome, created: seq<MatchObject>)
      requires Valid() && (node.Some? ==> node.value in index.dom.tree.kind)
      modifies this, index`listening, index`changeBound, index.matchesSet, index.dom`attr, index.dom`linked, index.ids
      ensures Valid()
      ensures old(currentRoot).Some? ==>
        && o == Fail(ObserverRunning) && created == []
        && currentRoot == old(currentRoot) && mutationObserver == old(mutationObserver) && watching == old(watching)
        && leaked == old(leaked)
        && index.Abs() == old(index.Abs()) && index.changeBound == old(index.changeBound)
      ensures old(currentRoot).None? ==> leaked == old(leaked) + (if old(watching).Some? then 1 else 0)
      ensures old(currentRoot).None? && node.None? ==>
        && o == Fail(TypeError("observe")) && created == []
        && currentRoot.None? && mutationObserver == Some(OptionsFor(attributeFilter)) && watching.None?
        && index.Abs() == old(index.Abs()) && index.changeBound == old(index.changeBound)
      ensures old(currentRoot).None? && node.Some? ==>
        var t := index.dom.tree;
        var found := matcher(t, node.value, true);
        && mutationObserver == Some(OptionsFor(attributeFilter)) && watching == node
        && index.changeBound == old(index.changeBound) + ValueNodesUnder(t, node.value)
        && (found.List? ==> index.Abs() == AddNewAll(old(index.Abs()), created) && AddedFrom(t, found.items, created, o))
        && (!found.List? ==> o == Pass && created == [] && index.Abs() == old(index.Abs()))
        && currentRoot == (if o.Pass? then node else None)
    {
      created := [];
      if currentRoot.Some? {
        return Fail(ObserverRunning), created;
      }
      // observeMutation(node): the previous MutationObserver is dropped, still connected
      if watching.Some? {
        leaked := leaked + 1;
      }
      mutationObserver := Some(OptionsFor(attributeFilter));
      watching := None;
      if node.None? {
        return Fail(TypeError("observe")), created;
      }
      o, created := Attach(node.value);
    }

    /** The rest of `observe(node)` once the MutationObserver is started on a real node. */
    method Attach(node: NodeId) returns (o: Outcome, created: seq<MatchObject>)
      requires Valid() && currentRoot.None? && mutationObserver.Some? && node in index.dom.tree.kind
      modifies this`watching, this`currentRoot, index`listening, index`changeBound, index.matchesSet, index.dom`attr, index.dom`linked, index.ids
      ensures Valid() && watching == Some(node)
      ensures var t := index.dom.tree;
        var found := matcher(t, node, true);
        && index.changeBound == old(index.changeBound) + ValueNodesUnder(t, node)
        && (found.List? ==> index.Abs() == AddNewAll(old(index.Abs()), created) && AddedFrom(t, found.items, created, o))
        && (!found.List? ==> o == Pass && created == [] && index.Abs() == old(index.Abs()))
        && currentRoot == (if o.Pass? then Some(node) else None)
    {
      watching := Some(node);
      o, created := index.BindAndSearchOne(node, matcher(index.dom.tree, node, true));
      if o.Pass? {
        currentRoot := Some(node);
      }
    }

    /**
     * The MutationObserver callback, run by the current MutationObserver or by a leaked
     * one (all are started with the same options, and their callbacks act on this
     * observer): each record, in order, goes where `RouteOf` sends it (attribute records
     * included) and is handled there; a throw ends the batch. `steps` logs what each
     * handled record did, the one that threw last.
     */
    method ObserveMutations(records: seq<Mutation>) returns (o: Outcome, ghost steps: seq<Step>)
      requires Valid() && (watching.Some? || leaked > 0)
      requires forall i :: 0 <= i < |records| ==> RecordNodesIn(index.dom.tree, records[i]) && Delivered(OptionsFor(attributeFilter), records[i])
      modifies index`listening, index`changeBound, index.matchesSet, index.dom`attr, index.dom`linked, index.ids
      ensures Valid()
      ensures o.Pass? ==> |steps| == |records|
      ensures o.Fail? ==> |steps| > 0 && steps[|steps| - 1].outcome == o
      ensures forall i :: 0 <= i < |steps| - 1 ==> steps[i].outcome == Pass
      ensures StepsFollow(index.dom.tree, matcher, records, true, steps)
      ensures Chained(old(index.Abs()), old(index.changeBound), steps, index.Abs(), index.changeBound)
    {
      o, steps := index.ApplyRecords(records, matcher, true);
    }

    /**
     * `disconnect()`: a TypeError when no MutationObserver was ever created. Otherwise the
     * current MutationObserver stops (leaked ones go on); with no root set, `stripMatches(null)` throws. With a root,
     * its matches are stripped, its value nodes unbound, the store cleared and the root
     * unset. The hovered match is left as it was.
     */
    method Disconnect() returns (o: Outcome)
      requires Valid()
      modifies this`watching, this`currentRoot, index`listening, index`changeBound, index.matchesSet, index.dom`attr, index.dom`linked, index.ids
      ensures Valid() && mutationObserver == old(mutationObserver)
      ensures old(mutationObserver).None? ==>
        && o == Fail(TypeError("disconnect")) && watching == old(watching) && currentRoot == old(currentRoot)
        && index.Abs() == old(index.Abs()) && index.changeBound == old(index.changeBound)
      ensures old(mutationObserver).Some? && old(currentRoot).None? ==>
        && o == Fail(Required("node")) && watching.None? && currentRoot.None?
        && index.Abs() == old(index.Abs()) && index.changeBound == old(index.changeBound)
      ensures old(mutationObserver).Some? && old(currentRoot).Some? ==>
        var root := old(currentRoot).value;
        && o == Pass && watching.None? && currentRoot.None?
        && index.Abs() == Strip(index.dom.tree, old(index.Abs()), root, true).(store := map[])
        && index.changeBound == old(index.changeBound) - ValueNodesUnder(index.dom.tree, root)
      ensures leaked == old(leaked) && index.Hover() == old(index.Hover())
    {
      if mutationObserver.None? {
        return Fail(TypeError("disconnect"));
      }
      watching := None;
      if currentRoot.None? {
        // `stripMatches(null)` throws before anything else is touched
        return Fail(Required("node"));
      }
      index.Teardown(currentRoot.value);
      currentRoot := None;
      o := Pass;
    }
  }
}
