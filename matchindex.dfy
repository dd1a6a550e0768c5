/**
 * The match index and hover engine that `MatchObserver` and `MatchWalker` both carry, in
 * the same words: `addMatch`, `removeMatch`, `stripMatches`, the value-node bindings,
 * `buildRect`, `matchRect`, `showHovered`/`hideHovered`, `observeValueNode` and the four
 * event handlers. Each method is proved to move the index between the states the
 * functions of IndexSpec describe.
 */
module MatchIndexes {
  import opened Wrappers
  import opened Dom
  import opened Utilities
  import opened DataSets
  import opened MatchObjects
  import opened IndexSpec
  import opened Mutations

  /** What `addMatch` is handed: null, plain match props, or a MatchObject already built. */
  datatype MatchArg = NullArg | PropsArg(props: MatchProps) | ObjectArg(obj: MatchObject)

  /** The elements `queryValueNodes` returns for an element; nothing for any other node. */
  function ValueNodesUnder(t: Tree, n: NodeId): (r: set<NodeId>)
    requires ValidTree(t) && n in t.kind
    ensures forall x :: x in r ==> IsValueNode(t, x) && x in Preorder(t, n)
  {
    if !IsElement(t, n) then {}
    else if IsValueNode(t, n) then {n}
    else set x | x in Preorder(t, n)[1..] && IsValueNode(t, x)
  }

  /** The value nodes found under each of `ns`, together. */
  function ValueNodesOf(t: Tree, ns: seq<NodeId>): set<NodeId>
    requires ValidTree(t) && forall n :: n in ns ==> n in t.kind
    decreases |ns|
  {
    if ns == [] then {} else ValueNodesOf(t, ns[..|ns| - 1]) + ValueNodesUnder(t, ns[|ns| - 1])
  }

  lemma ValueNodesOfPrefix(t: Tree, ns: seq<NodeId>, j: nat)
    requires ValidTree(t) && (forall n :: n in ns ==> n in t.kind) && j < |ns|
    ensures ValueNodesOf(t, ns[..j + 1]) == ValueNodesOf(t, ns[..j]) + ValueNodesUnder(t, ns[j])
  {
    assert ns[..j + 1][..j] == ns[..j];
  }

  /**
   * The matches built for a matcher's items, one per item in order up to the first item
   * `addMatch` throws on; the outcome is that item's error, or Pass when there is none.
   */
  predicate AddedFrom(t: Tree, items: seq<Option<MatchProps>>, created: seq<MatchObject>, o: Outcome)
    requires ValidTree(t)
  {
    && BuiltFrom(t, items, created)
    && (o.Pass? <==> |created| == |items|)
    && (o.Fail? ==> ItemError(t, items[|created|]) == Some(o.error))
  }

  /** `created[i]` is the match built from `items[i]`, for every match built. */
  predicate BuiltFrom(t: Tree, items: seq<Option<MatchProps>>, created: seq<MatchObject>)
    requires ValidTree(t)
  {
    && |created| <= |items|
    && (forall i :: 0 <= i < |created| ==>
          items[i].Some? && created[i].props == items[i].value && TargetOf(t, items[i].value) == Ok(created[i].target))
  }

  lemma BuiltFromSnoc(t: Tree, items: seq<Option<MatchProps>>, created: seq<MatchObject>, m: MatchObject)
    requires ValidTree(t) && BuiltFrom(t, items, created) && |created| < |items|
    requires items[|created|].Some? && m.props == items[|created|].value && TargetOf(t, m.props) == Ok(m.target)
    ensures BuiltFrom(t, items, created + [m])
  {
    var c := created + [m];
    forall i | 0 <= i < |c|
      ensures items[i].Some? && c[i].props == items[i].value && TargetOf(t, items[i].value) == Ok(c[i].target)
    {
      if i < |created| {
        assert c[i] == created[i];
      }
    }
  }

  /** The matches of `parts`, one part after the other. */
  function Flatten(parts: seq<seq<MatchObject>>): seq<MatchObject>
    decreases |parts|
  {
    if parts == [] then [] else Flatten(parts[..|parts| - 1]) + parts[|parts| - 1]
  }

  /** What `searchMatches` did with one matcher result: added its items, or nothing. */
  predicate SearchedOne(t: Tree, found: Matched, part: seq<MatchObject>, o: Outcome)
    requires ValidTree(t)
  {
    if found.List? then AddedFrom(t, found.items, part, o) else o == Pass && part == []
  }

  /**
   * The matcher's answers for `added`, in order. The matcher reads only the tree, which
   * the core does not change, so asking it node by node during the walk gives the same.
   */
  function Answers(t: Tree, matcher: (Tree, NodeId, bool) -> Matched, added: seq<NodeId>): (r: seq<Matched>)
    ensures |r| == |added| && forall k :: 0 <= k < |added| ==> r[k] == matcher(t, added[k], true)
  {
    seq(|added|, k requires 0 <= k < |added| => matcher(t, added[k], true))
  }

  /** The searches of the first `|parts|` nodes all passed, `parts[j]` being what `found[j]` yielded. */
  predicate AllPassed(t: Tree, found: seq<Matched>, parts: seq<seq<MatchObject>>)
    requires ValidTree(t) && |parts| <= |found|
    decreases |parts|
  {
    parts == [] ||
    (AllPassed(t, found, parts[..|parts| - 1]) && SearchedOne(t, found[|parts| - 1], parts[|parts| - 1], Pass))
  }

  /**
   * Nodes searched in order, `parts[j]` being what the answer `found[j]` for the j-th node
   * yielded: every search passed but the last one made, whose outcome is `o`. A throw ends
   * the walk, so fewer parts than nodes means the last search threw.
   */
  predicate SearchedEach(t: Tree, found: seq<Matched>, parts: seq<seq<MatchObject>>, o: Outcome)
    requires ValidTree(t)
  {
    && |parts| <= |found|
    && (o.Pass? ==> |parts| == |found|)
    && (o.Fail? ==> |parts| > 0)
    && (parts != [] ==>
          && AllPassed(t, found, parts[..|parts| - 1])
          && SearchedOne(t, found[|parts| - 1], parts[|parts| - 1], o))
  }

  /** In a walk every search but the last passed. */
  lemma {:induction false} AllPassedEach(t: Tree, found: seq<Matched>, parts: seq<seq<MatchObject>>, k: nat)
    requires ValidTree(t) && |parts| <= |found| && AllPassed(t, found, parts) && k < |parts|
    ensures SearchedOne(t, found[k], parts[k], Pass)
    decreases |parts|
  {
    if k < |parts| - 1 {
      AllPassedEach(t, found, parts[..|parts| - 1], k);
    }
  }

  /** Every node was searched and none threw. */
  lemma SearchedAllPass(t: Tree, found: seq<Matched>, parts: seq<seq<MatchObject>>)
    requires ValidTree(t) && |parts| == |found| && AllPassed(t, found, parts)
    ensures SearchedEach(t, found, parts, Pass)
  {
  }

  lemma FlattenSnoc(parts: seq<seq<MatchObject>>, more: seq<MatchObject>)
    ensures Flatten(parts + [more]) == Flatten(parts) + more
  {
    assert (parts + [more])[..|parts|] == parts;
  }

  /**
   * One more node searched after `parts`, yielding `more` with outcome `o`: what the walk
   * has built, bound and passed so far, one node further on.
   */
  lemma SearchedNext(t: Tree, found: seq<Matched>, added: seq<NodeId>,
                     parts: seq<seq<MatchObject>>, more: seq<MatchObject>, o: Outcome, s0: IndexState)
    requires ValidTree(t) && |found| == |added| && |parts| < |added| && forall n :: n in added ==> n in t.kind
    requires AllPassed(t, found, parts)
    requires SearchedOne(t, found[|parts|], more, o)
    ensures Flatten(parts + [more]) == Flatten(parts) + more
    ensures AddNewAll(s0, Flatten(parts) + more) == AddNewAll(AddNewAll(s0, Flatten(parts)), more)
    ensures ValueNodesOf(t, added[..|parts| + 1]) == ValueNodesOf(t, added[..|parts|]) + ValueNodesUnder(t, added[|parts|])
    ensures o.Pass? ==> AllPassed(t, found, parts + [more])
    ensures o.Fail? ==> SearchedEach(t, found, parts + [more], o)
  {
    FlattenSnoc(parts, more);
    AddNewAllConcat(s0, Flatten(parts), more);
    ValueNodesOfPrefix(t, added, |parts|);
    assert (parts + [more])[..|parts|] == parts;
  }

  /**
   * One mutation record handled by a MutationObserver callback: the route it took, the
   * index and the change-listener set before and after, the matches built, the outcome.
   * For a child-list record `parts` groups the matches built by the added node searched.
   */
  datatype Step = Step(
    route: Route,
    before: IndexState, boundBefore: set<NodeId>,
    after: IndexState, boundAfter: set<NodeId>,
    created: seq<MatchObject>, parts: seq<seq<MatchObject>>, outcome: Outcome)

  /** What handling a routed record does, with `matcher` consulted on the document as it is. */
  ghost predicate RouteApplied(t: Tree, matcher: (Tree, NodeId, bool) -> Matched, st: Step) {
    && ValidTree(t) && RouteNodesIn(t, st.route)
    && RouteEffect(t, matcher, st.route, st.before, st.boundBefore, st.after, st.boundAfter, st.created, st.parts, st.outcome)
  }

  ghost predicate RouteEffect(t: Tree, matcher: (Tree, NodeId, bool) -> Matched, route: Route,
                              s0: IndexState, b0: set<NodeId>, s1: IndexState, b1: set<NodeId>,
                              created: seq<MatchObject>, parts: seq<seq<MatchObject>>, o: Outcome)
    requires ValidTree(t) && RouteNodesIn(t, route)
  {
    match route
    case Ignored => o == Pass && created == [] && s1 == s0 && b1 == b0
    case ValueNodeRoute(v) =>
      var found := matcher(t, v, true);
      var action := ValueNodeAction(found, Entry(s0, v));
      && b1 == b0
      && (action == KeepAsIs ==> o == Pass && created == [] && s1 == s0)
      && (action == StripNode ==> o == Pass && created == [] && s1 == Strip(t, s0, v, true))
      && (action == AddFound ==> s1 == AddNewAll(s0, created) && AddedFrom(t, found.items, created, o))
    case RescanRoute(x, children) =>
      var found := matcher(t, x, children);
      var stripped := Strip(t, s0, x, children);
      && b1 == b0
      && (found.List? ==> s1 == AddNewAll(stripped, created) && AddedFrom(t, found.items, created, o))
      && (!found.List? ==> o == Pass && created == [] && s1 == stripped)
    case ChildrenRoute(removed, added) =>
      && s1 == AddNewAll(StripNodes(t, s0, removed), created)
      && SearchedEach(t, Answers(t, matcher, added), parts, o)
      && created == Flatten(parts)
      && b1 == b0 - ValueNodesOf(t, removed) + ValueNodesOf(t, added[..|parts|])
  }

  /** The steps run one after the other, from `(s0, b0)` to `(s1, b1)`. */
  ghost predicate Chained(s0: IndexState, b0: set<NodeId>, steps: seq<Step>, s1: IndexState, b1: set<NodeId>) {
    if steps == [] then s1 == s0 && b1 == b0
    else
      && steps[0].before == s0 && steps[0].boundBefore == b0
      && (forall i :: 0 <= i < |steps| - 1 ==> steps[i + 1].before == steps[i].after && steps[i + 1].boundBefore == steps[i].boundAfter)
      && steps[|steps| - 1].after == s1 && steps[|steps| - 1].boundAfter == b1
  }

  lemma ChainedSnoc(s0: IndexState, b0: set<NodeId>, steps: seq<Step>, st: Step)
    requires Chained(s0, b0, steps, st.before, st.boundBefore)
    ensures Chained(s0, b0, steps + [st], st.after, st.boundAfter)
  {
    var c := steps + [st];
    forall i | 0 <= i < |c| - 1
      ensures c[i + 1].before == c[i].after && c[i + 1].boundBefore == c[i].boundAfter
    {
      if i < |steps| - 1 {
        assert c[i] == steps[i] && c[i + 1] == steps[i + 1];
      }
    }
  }

  /**
   * Each step handled the record at its position, as routed with or without attribute
   * records observed.
   */
  ghost predicate StepsFollow(t: Tree, matcher: (Tree, NodeId, bool) -> Matched, records: seq<Mutation>,
                              attributesObserved: bool, steps: seq<Step>)
  {
    && ValidTree(t) && |steps| <= |records|
    && forall i :: 0 <= i < |steps| ==>
         && RecordNodesIn(t, records[i])
         && steps[i].route == RouteOf(t, records[i], attributesObserved)
         && RouteApplied(t, matcher, steps[i])
  }

  lemma StepsFollowSnoc(t: Tree, matcher: (Tree, NodeId, bool) -> Matched, records: seq<Mutation>,
                        attributesObserved: bool, steps: seq<Step>, st: Step)
    requires StepsFollow(t, matcher, records, attributesObserved, steps) && |steps| < |records|
    requires RecordNodesIn(t, records[|steps|])
    requires st.route == RouteOf(t, records[|steps|], attributesObserved) && RouteApplied(t, matcher, st)
    ensures StepsFollow(t, matcher, records, attributesObserved, steps + [st])
  {
    var c := steps + [st];
    forall i | 0 <= i < |c|
      ensures RecordNodesIn(t, records[i]) && c[i].route == RouteOf(t, records[i], attributesObserved) && RouteApplied(t, matcher, c[i])
    {
      if i < |steps| {
        assert c[i] == steps[i];
      }
    }
  }

  /** Every step in `steps` passed. */
  ghost predicate PassedAll(steps: seq<Step>)
    decreases |steps|
  {
    steps == [] || (PassedAll(steps[..|steps| - 1]) && steps[|steps| - 1].outcome == Pass)
  }

  lemma {:induction false} PassedAllEach(steps: seq<Step>)
    requires PassedAll(steps)
    ensures forall i :: 0 <= i < |steps| ==> steps[i].outcome == Pass
    decreases |steps|
  {
    if steps != [] {
      PassedAllEach(steps[..|steps| - 1]);
    }
  }

  class MatchIndex {
    const dom: Document
    /** The `nextId` counter the rcids are drawn from. */
    const ids: IdSource
    /** `_matchesSet`. */
    const matchesSet: DataSet<seq<MatchObject>>
    /** The elements carrying the mouseenter, mouseleave and mousemove listeners. */
    ghost var listening: set<NodeId>
    /** The value nodes carrying the change listener. */
    ghost var changeBound: set<NodeId>
    /** `_lastHovered`. */
    var lastHovered: Option<MatchObject>
    /** Every call of `props.hover` so far, in order. */
    ghost var hoverCalls: seq<Option<MatchObject>>

    ghost function Abs(): IndexState
      reads this, dom, ids, matchesSet
    {
      IndexState(Tags(dom.attr, ids.incrementingId), dom.linked, matchesSet.store, listening)
    }

    ghost function Hover(): HoverState
      reads this
    {
      HoverState(lastHovered, hoverCalls)
    }

    ghost predicate Valid()
      reads this, dom, ids, matchesSet
    {
      dom.Valid() && Consistent(Abs()) && Listening(Abs()) && HoverLogged(Hover())
    }

    /** The matches listed for `node`: the objects `buildRect` measures. */
    ghost function EntryObjects(node: NodeId): set<MatchObject>
      reads this, dom, ids, matchesSet
    {
      match Entry(Abs(), node)
      case None => {}
      case Some(ms) => set m | m in ms
    }

    /** A new index over a document whose rcids are unique and, when of the form "r" + a number, below the counter of `ids`; ids of other forms, set by the page, may be there. */
    constructor (dom: Document, ids: IdSource)
      requires dom.Valid() && IdsWellFormed(Tags(dom.attr, ids.incrementingId))
      ensures Valid() && this.dom == dom && this.ids == ids && fresh(matchesSet)
      ensures matchesSet.store == map[] && listening == {} && changeBound == {}
      ensures lastHovered.None? && hoverCalls == []
    {
      this.dom := dom;
      this.ids := ids;
      matchesSet := new DataSet();
      listening := {};
      changeBound := {};
      lastHovered := None;
      hoverCalls := [];
    }

    /** `addMatch` for a built match: cache it under its target and re-attach the listeners. */
    method AddObject(m: MatchObject)
      requires Valid()
      modifies matchesSet, dom`attr, ids, this`listening
      ensures Valid() && Abs() == Add(old(Abs()), m)
    {
      var target := m.GetEventTarget();
      var matches := matchesSet.Get(Elem(target), [], dom);
      matchesSet.Set(Elem(target), matches + [m], dom, ids);
      // removeNodeEvents, then addNodeEvents
      listening := listening - {target};
      listening := listening + {target};
      AddConsistent(old(Abs()), m);
    }

    /**
     * `addMatch(imatch)`: throws on null; builds a MatchObject from plain props (which may
     * throw before anything is written) and adds it; returns the match added.
     */
    method AddMatch(arg: MatchArg) returns (r: Result<MatchObject>)
      requires Valid()
      modifies matchesSet, dom`attr, dom`linked, ids, this`listening
      ensures Valid()
      ensures arg.NullArg? ==> r == Err(Required("imatch")) && Abs() == old(Abs())
      ensures arg.ObjectArg? ==> r == Ok(arg.obj) && Abs() == Add(old(Abs()), arg.obj)
      ensures arg.PropsArg? && TargetOf(dom.tree, arg.props).Err? ==>
        r == Err(TargetOf(dom.tree, arg.props).error) && Abs() == old(Abs())
      ensures arg.PropsArg? && TargetOf(dom.tree, arg.props).Ok? ==>
        && r.Ok? && fresh(r.value) && r.value.props == arg.props
        && r.value.target == TargetOf(dom.tree, arg.props).value
        && Abs() == AddNew(old(Abs()), r.value)
    {
      match arg
      case NullArg =>
        r := Err(Required("imatch"));
      case ObjectArg(m) =>
        AddObject(m);
        r := Ok(m);
      case PropsArg(p) =>
        r := NewMatchObject(p, dom, ids);
        if r.Ok? {
          AddNewConsistent(old(Abs()), r.value);
          AddObject(r.value);
        }
    }

    /**
     * `removeMatch(match)`: throws on null; otherwise drops the match from its target's
     * list, and when the list empties detaches the listeners, evicts the entry and removes
     * the target's rcid attribute.
     */
    method RemoveMatch(m: Option<MatchObject>) returns (o: Outcome)
      requires Valid()
      modifies matchesSet, dom`attr, ids, this`listening
      ensures Valid()
      ensures m.None? ==> o == Fail(Required("match")) && Abs() == old(Abs())
      ensures m.Some? ==> o == Pass && Abs() == Remove(old(Abs()), m.value)
    {
      if m.None? {
        return Fail(Required("match"));
      }
      var x := m.value;
      var target := x.GetEventTarget();
      var matches := matchesSet.Find(Elem(target), dom);
      if matches.Some? {
        var rest := Without(matches.value, x);
        if |rest| > 0 {
          matchesSet.Set(Elem(target), rest, dom, ids);
        } else {
          listening := listening - {target};
          matchesSet.Remove(Elem(target), dom);
          dom.attr := dom.attr - {target};
        }
      }
      RemoveConsistent(old(Abs()), x);
      o := Pass;
    }

    /** `batch.forEach(match => removeMatch(match))`. */
    method RemoveBatch(batch: seq<MatchObject>)
      requires Valid()
      modifies matchesSet, dom`attr, ids, this`listening
      ensures Valid() && Abs() == RemoveAll(old(Abs()), batch)
    {
      var i := 0;
      while i < |batch|
        invariant 0 <= i <= |batch|
        invariant Valid()
        invariant RemoveAll(Abs(), batch[i..]) == RemoveAll(old(Abs()), batch)
      {
        var o := RemoveMatch(Some(batch[i]));
        assert batch[i..][1..] == batch[i + 1..];
        i := i + 1;
      }
    }

    /**
     * The body of the `stripMatches` walk at `cur`: unlink it and remove, under the target
     * its linked rcid names, the matches it anchors.
     */
    method StripAt(node: NodeId, cur: NodeId)
      requires Valid() && node in dom.tree.kind
      modifies matchesSet, dom`attr, dom`linked, ids, this`listening
      ensures Valid() && Abs() == StripOne(dom.tree, node, old(Abs()), cur)
    {
      var t := dom.tree;
      StripOneConsistent(t, node, Abs(), cur);
      if cur in dom.linked && dom.linked[cur] != "" {
        var linkedRcId := dom.linked[cur];
        dom.linked := dom.linked - {cur};
        var target: Option<NodeId> := None;
        if IsElement(t, node) {
          target := FirstWithAttr(t, dom.attr, Preorder(t, node)[1..], linkedRcId);
          if target.None? && RcIdOf(dom.attr, node) == Some(linkedRcId) {
            target := Some(node);
          }
        }
        if target.None? {
          target := FirstWithAttr(t, dom.attr, Preorder(t, t.root), linkedRcId);
        }
        if target.Some? {
          var matches := matchesSet.Find(Elem(target.value), dom);
          if matches.Some? {
            RemoveBatch(Touching(matches.value, cur));
          }
        }
      }
    }

    /**
     * `stripMatches(node, children)`: throws on null; otherwise walks `node` and, when
     * `children` holds, its descendants in document order.
     */
    method StripMatches(node: Option<NodeId>, children: bool) returns (o: Outcome)
      requires Valid() && (node.Some? ==> node.value in dom.tree.kind)
      modifies matchesSet, dom`attr, dom`linked, ids, this`listening
      ensures Valid()
      ensures node.None? ==> o == Fail(Required("node")) && Abs() == old(Abs())
      ensures node.Some? ==> o == Pass && Abs() == Strip(dom.tree, old(Abs()), node.value, children)
    {
      if node.None? {
        return Fail(Required("node"));
      }
      var n := node.value;
      var t := dom.tree;
      // the order a TreeWalker rooted at `n` visits the nodes in
      var walk := Preorder(t, n);
      var i := 0;
      while i < |walk|
        invariant 0 <= i <= |walk|
        invariant Valid() && dom.tree == t
        invariant children ==> StripSeq(t, n, Abs(), walk[i..]) == StripSeq(t, n, old(Abs()), walk)
        invariant !children ==> i == 0 && Abs() == old(Abs())
      {
        ghost var before := Abs();
        StripAt(n, walk[i]);
        if !children {
          assert walk[0] == n && [n][1..] == [];
          assert StripSeq(t, n, before, [n]) == StripSeq(t, n, Abs(), []) == Abs();
          break;
        }
        assert walk[i..][1..] == walk[i + 1..];
        assert StripSeq(t, n, before, walk[i..]) == StripSeq(t, n, Abs(), walk[i + 1..]);
        i := i + 1;
      }
      assert children ==> walk[i..] == [];
      o := Pass;
    }

    /** `bindValueNodes(node)`: attach the change listener to the value nodes `queryValueNodes` finds. */
    method BindValueNodes(node: NodeId)
      requires dom.Valid() && node in dom.tree.kind
      modifies this`changeBound
      ensures changeBound == old(changeBound) + ValueNodesUnder(dom.tree, node)
    {
      if IsElement(dom.tree, node) {
        var valueNodes := QueryValueNodes(dom.tree, node);
        changeBound := changeBound + set x | x in valueNodes;
      }
    }

    /** `unbindValueNodes(node)`: detach the change listener from the same nodes. */
    method UnbindValueNodes(node: NodeId)
      requires dom.Valid() && node in dom.tree.kind
      modifies this`changeBound
      ensures changeBound == old(changeBound) - ValueNodesUnder(dom.tree, node)
    {
      if IsElement(dom.tree, node) {
        var valueNodes := QueryValueNodes(dom.tree, node);
        changeBound := changeBound - set x | x in valueNodes;
      }
    }

    /** `buildRect(node)`: measure every match listed for the node. */
    method BuildRect(node: NodeId, measure: Measure)
      modifies EntryObjects(node)
      ensures forall m :: m in old(EntryObjects(node)) ==> m.rect == Some(measure(m.props))
    {
      var matches := matchesSet.Find(Elem(node), dom);
      if matches.Some? {
        var ms := matches.value;
        var i := 0;
        while i < |ms|
          invariant 0 <= i <= |ms|
          invariant forall j :: 0 <= j < i ==> ms[j].rect == Some(measure(ms[j].props))
        {
          ms[i].BuildRect(measure);
          i := i + 1;
        }
      }
    }

    /** `showHovered(m)`: report `m` unless it is already the hovered match. */
    method ShowHovered(m: MatchObject)
      requires Valid()
      modifies this`lastHovered, this`hoverCalls
      ensures Valid() && Hover() == Show(old(Hover()), m)
    {
      ShowLogged(Hover(), m);
      if lastHovered.None? || lastHovered.value != m {
        lastHovered := Some(m);
        hoverCalls := hoverCalls + [Some(m)];
      }
    }

    /** `hideHovered()`: report null once, when something was hovered. */
    method HideHovered()
      requires Valid()
      modifies this`lastHovered, this`hoverCalls
      ensures Valid() && Hover() == Hide(old(Hover()))
    {
      HideLogged(Hover());
      if lastHovered.Some? {
        lastHovered := None;
        hoverCalls := hoverCalls + [None];
      }
    }

    /** `matchRect(node, ev)`: show the first match under the cursor, or hide. */
    method MatchRect(node: NodeId, x: int, y: int)
      requires Valid()
      modifies this`lastHovered, this`hoverCalls
      ensures Valid() && Hover() == MatchRectStep(old(Hover()), Entry(Abs(), node), x, y)
    {
      var matches := matchesSet.Find(Elem(node), dom);
      if matches.Some? {
        var hovered := FindHovered(matches.value, x, y);
        if hovered.Some? {
          ShowHovered(hovered.value);
        } else {
          HideHovered();
        }
      }
    }

    /** `addMatch(item)` for one item of a matcher's result. */
    method AddItem(item: Option<MatchProps>) returns (r: Result<MatchObject>)
      requires Valid()
      modifies matchesSet, dom`attr, dom`linked, ids, this`listening
      ensures Valid()
      ensures ItemError(dom.tree, item).Some? ==> r == Err(ItemError(dom.tree, item).value) && Abs() == old(Abs())
      ensures ItemError(dom.tree, item).None? ==>
        && item.Some? && r.Ok? && r.value.props == item.value && TargetOf(dom.tree, item.value) == Ok(r.value.target)
        && Abs() == AddNew(old(Abs()), r.value)
    {
      var arg := if item.Some? then PropsArg(item.value) else NullArg;
      r := AddMatch(arg);
    }

    /** `matched.forEach(match => addMatch(match))`, stopping at the first throw. */
    method AddAll(items: seq<Option<MatchProps>>) returns (o: Outcome, created: seq<MatchObject>)
      requires Valid()
      modifies matchesSet, dom`attr, dom`linked, ids, this`listening
      ensures Valid() && Abs() == AddNewAll(old(Abs()), created) && AddedFrom(dom.tree, items, created, o)
    {
      ghost var s0 := Abs();
      var t := dom.tree;
      created := [];
      var i := 0;
      while i < |items|
        invariant 0 <= i <= |items| && |created| == i
        invariant Valid() && dom.tree == t
        invariant Abs() == AddNewAll(s0, created)
        invariant BuiltFrom(t, items, created)
      {
        var r := AddItem(items[i]);
        if r.Err? {
          return Fail(r.error), created;
        }
        assert (created + [r.value])[..|created|] == created;
        assert AddNewAll(s0, created + [r.value]) == AddNew(AddNewAll(s0, created), r.value);
        BuiltFromSnoc(t, items, created, r.value);
        created := created + [r.value];
        i := i + 1;
      }
      o := Pass;
    }

    /**
     * `searchMatches(node)` with the matcher's result for it: throws on a null node; adds
     * what an array result holds and ignores `undefined` and `null`.
     */
    method SearchMatches(node: Option<NodeId>, found: Matched) returns (o: Outcome, created: seq<MatchObject>)
      requires Valid()
      modifies matchesSet, dom`attr, dom`linked, ids, this`listening
      ensures Valid()
      ensures node.None? ==> o == Fail(Required("node")) && created == [] && Abs() == old(Abs())
      ensures node.Some? && !found.List? ==> o == Pass && created == [] && Abs() == old(Abs())
      ensures node.Some? && found.List? ==>
        Abs() == AddNewAll(old(Abs()), created) && AddedFrom(dom.tree, found.items, created, o)
    {
      created := [];
      if node.None? {
        return Fail(Required("node")), created;
      }
      o := Pass;
      if found.List? {
        o, created := AddAll(found.items);
      }
    }

    /**
     * `observeValueNode(node)` with the matcher's fresh result for it: add the found
     * matches or strip the node, as ValueNodeAction decides.
     */
    method ObserveValueNode(node: NodeId, found: Matched) returns (o: Outcome, created: seq<MatchObject>)
      requires Valid() && node in dom.tree.kind
      modifies matchesSet, dom`attr, dom`linked, ids, this`listening
      ensures Valid()
      ensures var action := ValueNodeAction(found, Entry(old(Abs()), node));
        && (action == KeepAsIs ==> o == Pass && created == [] && Abs() == old(Abs()))
        && (action == StripNode ==> o == Pass && created == [] && Abs() == Strip(dom.tree, old(Abs()), node, true))
        && (action == AddFound ==> Abs() == AddNewAll(old(Abs()), created) && AddedFrom(dom.tree, found.items, created, o))
    {
      created := [];
      o := Pass;
      var matches := matchesSet.Find(Elem(node), dom);
      var hasMatched := HasMatched(found);
      var hasMatches := HasMatches(matches);
      if hasMatched != hasMatches {
        if hasMatched == JsTrue {
          o, created := AddAll(found.items);
        } else {
          o := StripMatches(Some(node), true);
        }
      }
    }

    /** The mouseenter handler: measure the target's matches when the event is the element's own. */
    method OnMouseEnter(target: NodeId, currentTarget: NodeId, measure: Measure)
      modifies EntryObjects(target)
      ensures target == currentTarget ==> forall m :: m in old(EntryObjects(target)) ==> m.rect == Some(measure(m.props))
      ensures target != currentTarget ==> forall m :: m in old(EntryObjects(target)) ==> m.rect == old(m.rect)
    {
      if target == currentTarget {
        BuildRect(target, measure);
      }
    }

    /** The mouseleave handler: hide when the event is the element's own. */
    method OnMouseLeave(target: NodeId, currentTarget: NodeId)
      requires Valid()
      modifies this`lastHovered, this`hoverCalls
      ensures Valid()
      ensures Hover() == if target == currentTarget then Hide(old(Hover())) else old(Hover())
    {
      if target == currentTarget {
        HideHovered();
      }
    }

    /** The mousemove handler (run on every move): re-match the cursor position when the event is the element's own. */
    method OnMouseMove(target: NodeId, currentTarget: NodeId, x: int, y: int)
      requires Valid()
      modifies this`lastHovered, this`hoverCalls
      ensures Valid()
      ensures Hover() == if target == currentTarget then MatchRectStep(old(Hover()), Entry(Abs(), target), x, y) else old(Hover())
    {
      if target == currentTarget {
        MatchRect(target, x, y);
      }
    }

    /** The change handler: re-run the matcher on the value node when the event is its own. */
    method OnChange(target: NodeId, currentTarget: NodeId, found: Matched) returns (o: Outcome, created: seq<MatchObject>)
      requires Valid() && target in dom.tree.kind
      modifies matchesSet, dom`attr, dom`linked, ids, this`listening
      ensures Valid()
      ensures target != currentTarget ==> o == Pass && created == [] && Abs() == old(Abs())
      ensures target == currentTarget ==> var action := ValueNodeAction(found, Entry(old(Abs()), target));
        && (action == KeepAsIs ==> o == Pass && created == [] && Abs() == old(Abs()))
        && (action == StripNode ==> o == Pass && created == [] && Abs() == Strip(dom.tree, old(Abs()), target, true))
        && (action == AddFound ==> Abs() == AddNewAll(old(Abs()), created) && AddedFrom(dom.tree, found.items, created, o))
    {
      created := [];
      o := Pass;
      if target == currentTarget {
        o, created := ObserveValueNode(target, found);
      }
    }

    /** `_matchesSet.clear()`: every entry goes; attributes, links and listeners stay. */
    method Clear()
      requires Valid()
      modifies matchesSet
      ensures Valid() && Abs() == old(Abs()).(store := map[])
    {
      matchesSet.Clear();
    }

    /**
     * The MutationObserver callback's work for one record, once routed; `matcher` is the
     * owner's matcher, called on the document as it now is.
     */
    method ApplyRoute(route: Route, matcher: (Tree, NodeId, bool) -> Matched) returns (o: Outcome, created: seq<MatchObject>, ghost parts: seq<seq<MatchObject>>)
      requires Valid() && RouteNodesIn(dom.tree, route)
      modifies matchesSet, dom`attr, dom`linked, ids, this`listening, this`changeBound
      ensures Valid()
      ensures RouteApplied(dom.tree, matcher, Step(route, old(Abs()), old(changeBound), Abs(), changeBound, created, parts, o))
    {
      var t := dom.tree;
      created, parts := [], [];
      o := Pass;
      match route
      case Ignored =>
      case ValueNodeRoute(v) =>
        o, created := ObserveValueNode(v, matcher(t, v, true));
      case RescanRoute(x, children) =>
        o, created := Rescan(x, children, matcher(t, x, children));
      case ChildrenRoute(removed, added) =>
        UnbindAndStrip(removed);
        o, created, parts := BindAndSearch(added, matcher);
    }

    /**
     * A MutationObserver callback over a batch of records: each record, in order, goes
     * where `RouteOf` sends it and is handled there; a throw ends the batch. `steps` logs
     * what each handled record did, the one that threw last.
     */
    method ApplyRecords(records: seq<Mutation>, matcher: (Tree, NodeId, bool) -> Matched, attributesObserved: bool)
      returns (o: Outcome, ghost steps: seq<Step>)
      requires Valid() && forall i :: 0 <= i < |records| ==> RecordNodesIn(dom.tree, records[i])
      modifies matchesSet, dom`attr, dom`linked, ids, this`listening, this`changeBound
      ensures Valid()
      ensures o.Pass? ==> |steps| == |records|
      ensures o.Fail? ==> |steps| > 0 && steps[|steps| - 1].outcome == o
      ensures forall i :: 0 <= i < |steps| - 1 ==> steps[i].outcome == Pass
      ensures StepsFollow(dom.tree, matcher, records, attributesObserved, steps)
      ensures Chained(old(Abs()), old(changeBound), steps, Abs(), changeBound)
    {
      ghost var s0, b0 := Abs(), changeBound;
      var t := dom.tree;
      steps := [];
      var i := 0;
      while i < |records|
        invariant 0 <= i <= |records| && |steps| == i
        invariant Valid() && dom.tree == t
        invariant PassedAll(steps)
        invariant StepsFollow(t, matcher, records, attributesObserved, steps)
        invariant Chained(s0, b0, steps, Abs(), changeBound)
      {
        var r;
        ghost var prev := steps;
        r, steps := ApplyRecord(records, i, matcher, attributesObserved, s0, b0, steps);
        if r.Fail? {
          PassedAllEach(prev);
          return r, steps;
        }
        i := i + 1;
      }
      PassedAllEach(steps);
      o := Pass;
    }

    /** The callback's work for the next record, logged after the `steps` already taken. */
    method ApplyRecord(records: seq<Mutation>, i: nat, matcher: (Tree, NodeId, bool) -> Matched, attributesObserved: bool,
                       ghost s0: IndexState, ghost b0: set<NodeId>, ghost steps: seq<Step>)
      returns (o: Outcome, ghost steps': seq<Step>)
      requires Valid() && i == |steps| < |records| && RecordNodesIn(dom.tree, records[i])
      requires StepsFollow(dom.tree, matcher, records, attributesObserved, steps)
      requires Chained(s0, b0, steps, Abs(), changeBound)
      modifies matchesSet, dom`attr, dom`linked, ids, this`listening, this`changeBound
      ensures Valid() && |steps'| == |steps| + 1 && steps'[|steps|].outcome == o
      ensures steps' == steps + [steps'[|steps|]]
      ensures StepsFollow(dom.tree, matcher, records, attributesObserved, steps')
      ensures Chained(s0, b0, steps', Abs(), changeBound)
    {
      var t := dom.tree;
      var route := RouteOf(t, records[i], attributesObserved);
      var created;
      ghost var parts;
      o, created, parts := ApplyRoute(route, matcher);
      ghost var st := Step(route, old(Abs()), old(changeBound), Abs(), changeBound, created, parts, o);
      ChainedSnoc(s0, b0, steps, st);
      StepsFollowSnoc(t, matcher, records, attributesObserved, steps, st);
      steps' := steps + [st];
    }

    /** `stripMatches(node, children)` then `searchMatches(node, children)`, given the matcher's result. */
    method Rescan(node: NodeId, children: bool, found: Matched) returns (o: Outcome, created: seq<MatchObject>)
      requires Valid() && node in dom.tree.kind
      modifies matchesSet, dom`attr, dom`linked, ids, this`listening
      ensures Valid()
      ensures found.List? ==>
        Abs() == AddNewAll(Strip(dom.tree, old(Abs()), node, children), created) && AddedFrom(dom.tree, found.items, created, o)
      ensures !found.List? ==> o == Pass && created == [] && Abs() == Strip(dom.tree, old(Abs()), node, children)
    {
      o := StripMatches(Some(node), children);
      ghost var stripped := Abs();
      assert stripped == Strip(dom.tree, old(Abs()), node, children);
      o, created := SearchMatches(Some(node), found);
    }

    /** `unbindValueNodes(node); stripMatches(node)` for one removed node. */
    method UnbindAndStripOne(node: NodeId)
      requires Valid() && node in dom.tree.kind
      modifies matchesSet, dom`attr, dom`linked, ids, this`listening, this`changeBound
      ensures Valid()
      ensures Abs() == Strip(dom.tree, old(Abs()), node, true)
      ensures changeBound == old(changeBound) - ValueNodesUnder(dom.tree, node)
    {
      UnbindValueNodes(node);
      var _ := StripMatches(Some(node), true);
    }

    /** `removedNodes.forEach(node => { unbindValueNodes(node); stripMatches(node); })`. */
    method UnbindAndStrip(removed: seq<NodeId>)
      requires Valid() && forall n :: n in removed ==> n in dom.tree.kind
      modifies matchesSet, dom`attr, dom`linked, ids, this`listening, this`changeBound
      ensures Valid()
      ensures Abs() == StripNodes(dom.tree, old(Abs()), removed)
      ensures changeBound == old(changeBound) - ValueNodesOf(dom.tree, removed)
    {
      var t := dom.tree;
      var i := 0;
      while i < |removed|
        invariant 0 <= i <= |removed|
        invariant Valid() && dom.tree == t
        invariant StripNodes(t, Abs(), removed[i..]) == StripNodes(t, old(Abs()), removed)
        invariant changeBound == old(changeBound) - ValueNodesOf(t, removed[..i])
      {
        UnbindAndStripOne(removed[i]);
        ValueNodesOfPrefix(t, removed, i);
        assert removed[i..][1..] == removed[i + 1..];
        i := i + 1;
      }
      assert removed[i..] == [] && removed[..i] == removed;
    }

    /** `bindValueNodes(node); searchMatches(node)`, given the matcher's result for the node. */
    method BindAndSearchOne(node: NodeId, found: Matched) returns (o: Outcome, created: seq<MatchObject>)
      requires Valid() && node in dom.tree.kind
      modifies matchesSet, dom`attr, dom`linked, ids, this`listening, this`changeBound
      ensures Valid()
      ensures changeBound == old(changeBound) + ValueNodesUnder(dom.tree, node)
      ensures Abs() == AddNewAll(old(Abs()), created)
      ensures SearchedOne(dom.tree, found, created, o)
    {
      BindValueNodes(node);
      o, created := SearchMatches(Some(node), found);
      if created == [] {
        assert AddNewAll(old(Abs()), created) == old(Abs());
      }
    }

    /** `stripMatches(root); unbindValueNodes(root); _matchesSet.clear()`: what tearing an observer down does to the index. */
    method Teardown(root: NodeId)
      requires Valid() && root in dom.tree.kind
      modifies matchesSet, dom`attr, dom`linked, ids, this`listening, this`changeBound
      ensures Valid() && matchesSet.store == map[]
      ensures Abs() == Strip(dom.tree, old(Abs()), root, true).(store := map[])
      ensures changeBound == old(changeBound) - ValueNodesUnder(dom.tree, root)
      ensures Hover() == old(Hover())
    {
      var _ := StripMatches(Some(root), true);
      UnbindValueNodes(root);
      Clear();
    }

    /**
     * `addedNodes.forEach(node => { bindValueNodes(node); searchMatches(node); })`,
     * stopping at the first throw.
     */
    method BindAndSearch(added: seq<NodeId>, matcher: (Tree, NodeId, bool) -> Matched)
      returns (o: Outcome, created: seq<MatchObject>, ghost parts: seq<seq<MatchObject>>)
      requires Valid() && forall n :: n in added ==> n in dom.tree.kind
      modifies matchesSet, dom`attr, dom`linked, ids, this`listening, this`changeBound
      ensures Valid()
      ensures SearchedEach(dom.tree, Answers(dom.tree, matcher, added), parts, o) && created == Flatten(parts)
      ensures Abs() == AddNewAll(old(Abs()), created)
      ensures changeBound == old(changeBound) + ValueNodesOf(dom.tree, added[..|parts|])
    {
      var t := dom.tree;
      ghost var s0, b0 := Abs(), changeBound;
      var found := Answers(t, matcher, added);
      created, parts := [], [];
      var j := 0;
      while j < |added|
        invariant 0 <= j <= |added| && |parts| == j
        invariant Valid() && dom.tree == t
        invariant created == Flatten(parts)
        invariant AllPassed(t, found, parts)
        invariant Abs() == AddNewAll(s0, created)
        invariant changeBound == b0 + ValueNodesOf(t, added[..j])
      {
        var r;
        r, created, parts := SearchNext(added, found, j, created, parts, s0, b0);
        if r.Fail? {
          return r, created, parts;
        }
        j := j + 1;
      }
      SearchedAllPass(t, found, parts);
      o := Pass;
    }

    /** One turn of BindAndSearch's walk: the node after `parts` is bound and searched. */
    method SearchNext(added: seq<NodeId>, found: seq<Matched>, j: nat, created: seq<MatchObject>,
                      ghost parts: seq<seq<MatchObject>>, ghost s0: IndexState, ghost b0: set<NodeId>)
      returns (r: Outcome, created': seq<MatchObject>, ghost parts': seq<seq<MatchObject>>)
      requires Valid() && |found| == |added| && j == |parts| < |added| && forall n :: n in added ==> n in dom.tree.kind
      requires created == Flatten(parts) && AllPassed(dom.tree, found, parts)
      requires Abs() == AddNewAll(s0, created) && changeBound == b0 + ValueNodesOf(dom.tree, added[..|parts|])
      modifies matchesSet, dom`attr, dom`linked, ids, this`listening, this`changeBound
      ensures Valid() && dom.tree == old(dom.tree) && |parts'| == |parts| + 1
      ensures created' == Flatten(parts') && Abs() == AddNewAll(s0, created')
      ensures changeBound == b0 + ValueNodesOf(dom.tree, added[..|parts'|])
      ensures r.Pass? ==> AllPassed(dom.tree, found, parts')
      ensures r.Fail? ==> SearchedEach(dom.tree, found, parts', r)
    {
      ghost var t := dom.tree;
      var more;
      r, more := BindAndSearchOne(added[j], found[j]);
      SearchedNext(t, found, added, parts, more, r, s0);
      created', parts' := created + more, parts + [more];
    }
  }
}
