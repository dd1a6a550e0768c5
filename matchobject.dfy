/**
 * `MatchObject`: one match, anchored at a start node and an end node, with the element that
 * receives its mouse events (its target) and the rectangle it was last measured at.
 */
module MatchObjects {
  import opened Wrappers
  import opened Dom
  import opened Utilities

  /**
   * The `IMatch` props a matcher hands over. The anchors may be missing (null); `context`
   * is the caller's own value, carried along and never inspected.
   */
  datatype MatchProps = MatchProps(
    startsNode: Option<NodeId>,
    startsAt: int,
    endsNode: Option<NodeId>,
    endsAt: int,
    context: int)

  /** Props with both anchors present: the only props a MatchObject is built from. */
  type AnchoredProps = p: MatchProps | p.startsNode.Some? && p.endsNode.Some?
    witness MatchProps(Some(0), 0, Some(0), 0, 0)

  /** A client rectangle, in whole pixels. */
  datatype Rect = Rect(left: int, top: int, right: int, bottom: int)

  /** The layout engine: the bounding rectangle of the range a match covers. */
  type Measure = AnchoredProps -> Rect

  // ---------------------------------------------------------------- the range

  /** WebIDL's conversion of a whole-number offset to `unsigned long`: the value modulo 2^32. */
  function ToUint32(x: int): nat {
    x % 0x1_0000_0000
  }

  /** A range boundary point: a container node and an offset into it. */
  datatype BoundaryPoint = BoundaryPoint(node: NodeId, offset: nat)

  datatype Position = Before | Equal | After

  /**
   * The position of boundary point `a` relative to `b`, both in one tree, by the DOM
   * standard's algorithm: on the same node the offsets decide; when `a`'s node follows
   * `b`'s, the answer is the reverse of `b`'s position relative to `a`; otherwise see
   * `PositionOfDistinct`.
   */
  function PositionOf(t: Tree, a: BoundaryPoint, b: BoundaryPoint): Position
    requires ValidTree(t) && SameTree(t, a.node, b.node)
  {
    if a.node == b.node then
      if a.offset == b.offset then Equal else if a.offset < b.offset then Before else After
    else if Precedes(t, b.node, a.node) then
      match PositionOfDistinct(t, b, a)
      case Before => After
      case _ => Before
    else PositionOfDistinct(t, a, b)
  }

  /**
   * The algorithm's last two steps, for distinct nodes where `a`'s does not follow `b`'s:
   * `a` is after `b` when `a`'s node is an ancestor of `b`'s and the child on the way
   * down to `b` has an index below `a`'s offset, and before it otherwise.
   */
  function PositionOfDistinct(t: Tree, a: BoundaryPoint, b: BoundaryPoint): Position
    requires ValidTree(t) && a.node != b.node
  {
    if a.node in Ancestors(t, b.node) && ChildIndex(t, ChildToward(t, a.node, b.node)) < a.offset then After
    else Before
  }

  /**
   * The boundary point `createRange` sets at an anchor, or what setting it throws. An
   * element anchor is set before it (`setStartBefore`) or after it (`setEndAfter`), which
   * throws when it has no parent; any other anchor is set inside itself at its offset
   * (`setStart`/`setEnd`), which throws when the offset exceeds the node's length.
   */
  function AnchorPoint(t: Tree, n: NodeId, offset: int, after: bool): Result<BoundaryPoint> {
    if IsElement(t, n) then
      if n in t.parent then Ok(BoundaryPoint(t.parent[n], ChildIndex(t, n) + if after then 1 else 0))
      else Err(InvalidNodeType)
    else if ToUint32(offset) > NodeLength(t, n) then Err(IndexSizeError)
    else Ok(BoundaryPoint(n, ToUint32(offset)))
  }

  /** A boundary point set at an anchor lies in the anchor or in one of its ancestors. */
  lemma AnchorPointAbove(t: Tree, n: NodeId, offset: int, after: bool)
    requires ValidTree(t) && AnchorPoint(t, n, offset, after).Ok?
    ensures AnchorPoint(t, n, offset, after).value.node in Ancestors(t, n)
  {
  }

  /**
   * A fresh range starts collapsed at the document's start, so `setStart` collapses it onto
   * the start; `setEnd` then collapses it onto the end when the end lies in another tree
   * or before the start.
   */
  predicate EndBeforeStart(t: Tree, sp: BoundaryPoint, ep: BoundaryPoint)
    requires ValidTree(t)
  {
    !SameTree(t, sp.node, ep.node) || PositionOf(t, ep, sp) == Before
  }

  /** The start and end points of a match's range, when both can be set. */
  predicate RangeSet(t: Tree, p: AnchoredProps) {
    && AnchorPoint(t, p.startsNode.value, p.startsAt, false).Ok?
    && AnchorPoint(t, p.endsNode.value, p.endsAt, true).Ok?
  }

  /** The range is set and did not collapse onto its end. */
  predicate Spans(t: Tree, p: AnchoredProps)
    requires ValidTree(t)
  {
    && RangeSet(t, p)
    && !EndBeforeStart(t, AnchorPoint(t, p.startsNode.value, p.startsAt, false).value,
                          AnchorPoint(t, p.endsNode.value, p.endsAt, true).value)
  }

  /**
   * `createRange().commonAncestorContainer`: the nearest common ancestor of the start and
   * end containers, or the end container when the range collapsed onto it; or what
   * setting a boundary threw, the start first.
   */
  function RangeAncestor(t: Tree, p: AnchoredProps): Result<NodeId>
    requires ValidTree(t)
  {
    match AnchorPoint(t, p.startsNode.value, p.startsAt, false)
    case Err(err) => Err(err)
    case Ok(sp) =>
      match AnchorPoint(t, p.endsNode.value, p.endsAt, true)
      case Err(err) => Err(err)
      case Ok(ep) =>
        if EndBeforeStart(t, sp, ep) then Ok(ep.node)
        else
          CommonAncestorInSameTree(t, sp.node, ep.node);
          Ok(CommonAncestor(t, sp.node, ep.node).value)
  }

  // ---------------------------------------------------------------- the event target

  /**
   * `getEventTarget()` the first time it runs: the anchor itself when both anchors are the
   * same node (no range is created then), otherwise the range's common ancestor; either
   * promoted to an element.
   */
  function ResolveTarget(t: Tree, p: AnchoredProps): Result<Option<NodeId>>
    requires ValidTree(t)
  {
    if p.startsNode == p.endsNode then Ok(EventElement(t, p.startsNode.value))
    else
      match RangeAncestor(t, p)
      case Err(err) => Err(err)
      case Ok(c) => Ok(EventElement(t, c))
  }

  /**
   * The target is an element above the end anchor, and above the start anchor too unless
   * the range collapsed onto its end, in which case it is the end container's element.
   */
  lemma {:induction false} TargetWithinAnchors(t: Tree, p: AnchoredProps)
    requires ValidTree(t)
    ensures var r := ResolveTarget(t, p);
      r.Ok? && r.value.Some? ==>
        && IsElement(t, r.value.value)
        && r.value.value in Ancestors(t, p.endsNode.value)
        && (p.startsNode == p.endsNode || Spans(t, p) ==> r.value.value in Ancestors(t, p.startsNode.value))
    ensures p.startsNode != p.endsNode && RangeSet(t, p) && !Spans(t, p) ==>
      ResolveTarget(t, p) == Ok(EventElement(t, AnchorPoint(t, p.endsNode.value, p.endsAt, true).value.node))
  {
    var r := ResolveTarget(t, p);
    var s, e := p.startsNode.value, p.endsNode.value;
    if r.Ok? && r.value.Some? && s != e {
      var x := r.value.value;
      var sp, ep := AnchorPoint(t, s, p.startsAt, false).value, AnchorPoint(t, e, p.endsAt, true).value;
      AnchorPointAbove(t, s, p.startsAt, false);
      AnchorPointAbove(t, e, p.endsAt, true);
      var c := RangeAncestor(t, p).value;
      if EndBeforeStart(t, sp, ep) {
        assert c == ep.node;
      } else {
        CommonAncestorInSameTree(t, sp.node, ep.node);
        assert c in Ancestors(t, ep.node);
      }
      AncestorsTransitive(t, e, ep.node, c);
      AncestorsTransitive(t, e, c, x);
      if Spans(t, p) {
        assert c in Ancestors(t, sp.node);
        AncestorsTransitive(t, s, sp.node, c);
        AncestorsTransitive(t, s, c, x);
      }
    }
  }

  /**
   * When both anchors are the same node the target is that node if it is an element and
   * its parentElement otherwise, whatever the offsets.
   */
  lemma SameAnchorTarget(t: Tree, p: AnchoredProps)
    requires ValidTree(t) && p.startsNode == p.endsNode
    ensures IsElement(t, p.startsNode.value) ==> ResolveTarget(t, p) == Ok(p.startsNode)
    ensures !IsElement(t, p.startsNode.value) ==> ResolveTarget(t, p) == Ok(ParentElement(t, p.startsNode.value))
  {
  }

  /**
   * The outcome of the constructor's checks, in the order it makes them: the start anchor,
   * the end anchor, the range, and finally `getRcId(target, true)`, which throws when the
   * target came out null.
   */
  function TargetOf(t: Tree, p: MatchProps): (r: Result<NodeId>)
    requires ValidTree(t)
    ensures p.startsNode.None? ==> r == Err(Required("startsNode"))
    ensures p.startsNode.Some? && p.endsNode.None? ==> r == Err(Required("endsNode"))
    ensures r.Ok? ==> p.startsNode.Some? && p.endsNode.Some?
    ensures r.Ok? ==> IsElement(t, r.value) && r.value in Ancestors(t, p.endsNode.value)
    ensures p.startsNode.Some? && p.endsNode.Some? && r.Ok? && (p.startsNode == p.endsNode || Spans(t, p)) ==>
      r.value in Ancestors(t, p.startsNode.value)
    ensures p.startsNode.Some? && p.startsNode == p.endsNode ==> (r.Ok? <==> EventElement(t, p.startsNode.value).Some?)
    ensures p.startsNode.Some? && p.endsNode.Some? && p.startsNode != p.endsNode ==>
      (!IsElement(t, p.startsNode.value) && ToUint32(p.startsAt) > NodeLength(t, p.startsNode.value) ==> r == Err(IndexSizeError))
    ensures p.startsNode.Some? && p.endsNode.Some? && p.startsNode != p.endsNode ==>
      (AnchorPoint(t, p.startsNode.value, p.startsAt, false).Ok? ==>
       !IsElement(t, p.endsNode.value) && ToUint32(p.endsAt) > NodeLength(t, p.endsNode.value) ==> r == Err(IndexSizeError))
  {
    if p.startsNode.None? then Err(Required("startsNode"))
    else if p.endsNode.None? then Err(Required("endsNode"))
    else
      TargetWithinAnchors(t, p);
      match ResolveTarget(t, p)
      case Err(err) => Err(err)
      case Ok(None) => Err(Required("node"))
      case Ok(Some(x)) => Ok(x)
  }

  /**
   * A match whose start text lies after its end text: the range collapses onto the end, so
   * the target is the span holding the end text, not the div holding both. With the
   * anchors the other way round the target is the div.
   */
  lemma ReversedAnchorsTarget(t: Tree)
    requires t == SampleTree() && ValidTree(t)
    ensures ResolveTarget(t, MatchProps(Some(4), 0, Some(3), 2, 0)) == Ok(Some(2))
    ensures ResolveTarget(t, MatchProps(Some(3), 0, Some(4), 2, 0)) == Ok(Some(1))
  {
    SampleReversedRange(t);
    SampleForwardRange(t);
    SampleEventElements(t);
  }

  lemma SampleReversedRange(t: Tree)
    requires t == SampleTree() && ValidTree(t)
    ensures RangeAncestor(t, MatchProps(Some(4), 0, Some(3), 2, 0)) == Ok(3)
  {
    SampleOrder(t);
    SampleTexts(t);
    var sp, ep := BoundaryPoint(4, 0), BoundaryPoint(3, 2);
    assert AnchorPoint(t, 4, 0, false) == Ok(sp);
    assert AnchorPoint(t, 3, 2, true) == Ok(ep);
    assert EndBeforeStart(t, sp, ep);
  }

  lemma SampleForwardRange(t: Tree)
    requires t == SampleTree() && ValidTree(t)
    ensures RangeAncestor(t, MatchProps(Some(3), 0, Some(4), 2, 0)) == Ok(1)
  {
    SampleOrder(t);
    SampleTexts(t);
    var sp, ep := BoundaryPoint(3, 0), BoundaryPoint(4, 2);
    assert AnchorPoint(t, 3, 0, false) == Ok(sp);
    assert AnchorPoint(t, 4, 2, true) == Ok(ep);
    assert !EndBeforeStart(t, sp, ep);
  }

  /** Both text nodes of the sample hold two characters. */
  lemma SampleTexts(t: Tree)
    requires t == SampleTree()
    ensures !IsElement(t, 3) && NodeLength(t, 3) == 2
    ensures !IsElement(t, 4) && NodeLength(t, 4) == 2
  {
    assert t.kind[3] == Text && t.text[3] == "ab";
    assert t.kind[4] == Text && t.text[4] == "cd";
  }

  /** "ab" is promoted to the SPAN above it; the DIV is an element already. */
  lemma SampleEventElements(t: Tree)
    requires t == SampleTree() && ValidTree(t)
    ensures EventElement(t, 3) == Some(2) && EventElement(t, 1) == Some(1)
  {
    assert !IsElement(t, 3) && t.parent[3] == 2 && IsElement(t, 2) && IsElement(t, 1);
  }

  /** document(0) > DIV(1) > [SPAN(2) > "ab"(3), "cd"(4)]. */
  function SampleTree(): Tree {
    Tree(
      map[0 := DocumentNode, 1 := Element("DIV"), 2 := Element("SPAN"), 3 := Text, 4 := Text],
      map[1 := 0, 2 := 1, 3 := 2, 4 := 1],
      map[0 := [1], 1 := [2, 4], 2 := [3], 3 := [], 4 := []],
      map[0 := 0, 1 := 1, 2 := 2, 3 := 3, 4 := 2],
      map[3 := "ab", 4 := "cd"],
      0)
  }

  lemma SampleTreeValid()
    ensures ValidTree(SampleTree())
  {
    SampleKeys();
    SampleParents();
    SampleChildren();
    SampleDepths();
  }

  lemma SampleKeys()
    ensures var t := SampleTree();
      t.root in t.kind && t.children.Keys == t.kind.Keys && t.depth.Keys == t.kind.Keys && |t.kind| == 5
  {
    var t := SampleTree();
    assert t.kind.Keys == {0, 1, 2, 3, 4} == t.children.Keys == t.depth.Keys;
  }

  lemma SampleParents()
    ensures var t := SampleTree();
      forall n :: n in t.parent ==> n in t.kind && t.parent[n] in t.kind && t.depth[t.parent[n]] < t.depth[n]
  {
  }

  lemma SampleDepths()
    ensures var t := SampleTree();
      forall n :: n in t.depth ==> t.depth[n] < 5
  {
  }

  lemma SampleChildren()
    ensures var t := SampleTree();
      forall n, i :: n in t.children && 0 <= i < |t.children[n]| ==>
        t.children[n][i] in t.parent && t.parent[t.children[n][i]] == n
  {
    var t := SampleTree();
    forall n, i | n in t.children && 0 <= i < |t.children[n]|
      ensures t.children[n][i] in t.parent && t.parent[t.children[n][i]] == n
    {
      if n == 1 {
        assert i == 0 || i == 1;
      }
    }
  }

  lemma SampleAncestors(t: Tree)
    requires t == SampleTree() && ValidTree(t)
    ensures Ancestors(t, 3) == [3, 2, 1, 0]
    ensures Ancestors(t, 4) == [4, 1, 0]
  {
    SampleParentOf(t);
    assert Ancestors(t, 0) == [0];
    assert Ancestors(t, 1) == [1, 0];
    assert Ancestors(t, 2) == [2, 1, 0];
  }

  lemma SampleParentOf(t: Tree)
    requires t == SampleTree()
    ensures t.parent == map[1 := 0, 2 := 1, 3 := 2, 4 := 1] && 0 !in t.parent
  {
  }

  /** In the sample, "ab" precedes "cd", and "ab"'s end point comes before "cd"'s start. */
  lemma SampleOrder(t: Tree)
    requires t == SampleTree() && ValidTree(t)
    ensures SameTree(t, 3, 4)
    ensures PositionOf(t, BoundaryPoint(3, 2), BoundaryPoint(4, 0)) == Before
    ensures PositionOf(t, BoundaryPoint(4, 2), BoundaryPoint(3, 0)) == After
    ensures CommonAncestor(t, 3, 4) == Some(1)
  {
    SamplePrecedes(t);
    assert PositionOfDistinct(t, BoundaryPoint(3, 0), BoundaryPoint(4, 2)) == Before;
  }

  lemma SampleCommon(t: Tree)
    requires t == SampleTree() && ValidTree(t)
    ensures SameTree(t, 3, 4)
    ensures CommonAncestor(t, 3, 4) == Some(1)
    ensures CommonAncestor(t, 4, 3) == Some(1)
    ensures 3 !in Ancestors(t, 4) && 4 !in Ancestors(t, 3)
  {
    SampleAncestors(t);
  }

  lemma SamplePrecedes(t: Tree)
    requires t == SampleTree() && ValidTree(t)
    ensures SameTree(t, 3, 4)
    ensures CommonAncestor(t, 3, 4) == Some(1)
    ensures 3 !in Ancestors(t, 4) && 4 !in Ancestors(t, 3)
    ensures Precedes(t, 3, 4) && !Precedes(t, 4, 3)
  {
    SampleCommon(t);
    SampleChildToward(t);
    SampleIndices(t);
  }

  /** Below the DIV, the way down to "ab" goes through the SPAN; "cd" is a child. */
  lemma SampleChildToward(t: Tree)
    requires t == SampleTree() && ValidTree(t)
    ensures 1 in Ancestors(t, 3) && ChildToward(t, 1, 3) == 2
    ensures 1 in Ancestors(t, 4) && ChildToward(t, 1, 4) == 4
  {
    SampleAncestors(t);
    assert IndexOf([3, 2, 1, 0], 1) == 2;
    assert IndexOf([4, 1, 0], 1) == 1;
  }

  lemma SampleIndices(t: Tree)
    requires t == SampleTree()
    ensures ChildIndex(t, 2) == 0 && ChildIndex(t, 4) == 1
  {
    assert t.parent[2] == 1 && t.parent[4] == 1 && t.children[1] == [2, 4];
  }

  /**
   * The writes the constructor makes once the target is known: the target gets an rcid and
   * both anchors carry it as their linked rcid. Every other node keeps its link.
   */
  function LinkAnchors(tags: Tags, linked: map<NodeId, string>, p: AnchoredProps, target: NodeId): (r: (Tags, map<NodeId, string>))
    ensures var id := EnsureId(tags, target, RcIdPrefix).1;
      && target in r.0.attr && r.0.attr[target] == id
      && p.startsNode.value in r.1 && r.1[p.startsNode.value] == id
      && p.endsNode.value in r.1 && r.1[p.endsNode.value] == id
    ensures forall n :: n != p.startsNode.value && n != p.endsNode.value ==>
      (n in r.1 <==> n in linked) && (n in linked ==> r.1[n] == linked[n])
  {
    var (tags', id) := EnsureId(tags, target, RcIdPrefix);
    (tags', linked[p.startsNode.value := id][p.endsNode.value := id])
  }

  // ---------------------------------------------------------------- the object

  class MatchObject {
    const props: AnchoredProps
    /** `_target`: filled in by the constructor and never recomputed. */
    const target: NodeId
    /** `_rect`: unset until `buildRect` runs. */
    var rect: Option<Rect>

    constructor Init(props: AnchoredProps, target: NodeId)
      ensures this.props == props && this.target == target && rect.None?
    {
      this.props := props;
      this.target := target;
      rect := None;
    }

    function StartsNode(): NodeId { props.startsNode.value }
    function StartsAt(): int { props.startsAt }
    function EndsNode(): NodeId { props.endsNode.value }
    function EndsAt(): int { props.endsAt }
    function Context(): int { props.context }

    /** `getEventTarget()`: the memoised target. */
    function GetEventTarget(): NodeId { target }

    /** `contains(node)`: the node is one of the two anchors. */
    predicate Contains(n: NodeId) {
      StartsNode() == n || EndsNode() == n
    }

    /** `isMatch(x, y)`: a rect has been built and holds the point, edges included. */
    predicate IsMatch(x: int, y: int)
      reads this
    {
      rect.Some? && rect.value.left <= x <= rect.value.right && rect.value.top <= y <= rect.value.bottom
    }

    /** `buildRect()`: measures the range the match covers. */
    method BuildRect(measure: Measure)
      modifies this
      ensures rect == Some(measure(props))
    {
      rect := Some(measure(props));
    }
  }

  /** Before `buildRect` no point hits; afterwards exactly the points of the rect do, edges included. */
  lemma IsMatchMeaning(m: MatchObject, x: int, y: int)
    ensures m.rect.None? ==> !m.IsMatch(x, y)
    ensures m.rect.Some? ==> (m.IsMatch(x, y) <==>
      m.rect.value.left <= x <= m.rect.value.right && m.rect.value.top <= y <= m.rect.value.bottom)
    ensures m.rect.Some? && m.rect.value.left <= m.rect.value.right && m.rect.value.top <= m.rect.value.bottom ==>
      m.IsMatch(m.rect.value.left, m.rect.value.top) && m.IsMatch(m.rect.value.right, m.rect.value.bottom)
  {
  }

  /**
   * `new MatchObject(props)`: checks the anchors, resolves and memoises the target, gives
   * it an rcid and links both anchors to it. A failed check throws before any write.
   */
  method NewMatchObject(props: MatchProps, dom: Document, ids: IdSource) returns (r: Result<MatchObject>)
    requires dom.Valid()
    modifies dom`attr, dom`linked, ids
    ensures TargetOf(dom.tree, props).Err? ==>
      && r == Err(TargetOf(dom.tree, props).error)
      && dom.attr == old(dom.attr) && dom.linked == old(dom.linked) && ids.incrementingId == old(ids.incrementingId)
    ensures TargetOf(dom.tree, props).Ok? ==>
      && r.Ok? && fresh(r.value)
      && r.value.props == props && r.value.target == TargetOf(dom.tree, props).value && r.value.rect.None?
      && var (tags, linked) := LinkAnchors(Tags(old(dom.attr), old(ids.incrementingId)), old(dom.linked), r.value.props, r.value.target);
        dom.attr == tags.attr && ids.incrementingId == tags.next && dom.linked == linked
  {
    var target := TargetOf(dom.tree, props);
    if target.Err? {
      return Err(target.error);
    }
    var m := new MatchObject.Init(props, target.value);
    var rcId := GetRcId(dom, ids, Some(target.value), true);
    var id := rcId.value.value;
    dom.linked := dom.linked[m.StartsNode() := id][m.EndsNode() := id];
    r := Ok(m);
  }
}
