/** Id generation, the `rcid` attribute, value-node detection and the time-window throttle. */
module Utilities {
  import opened Wrappers
  import opened Dom

  const RcIdAttrName: string := "rcid"
  const LinkedRcIdPropName: string := "l" + RcIdAttrName
  /** `getRcId` writes `"r" + nextId()`. */
  const RcIdPrefix: string := "r"
  /** The tag names of form controls whose value is not reported by tree mutations. */
  const ValueNodeTypes: seq<string> := ["INPUT", "SELECT", "TEXTAREA"]

  // ---------------------------------------------------------------- ids

  function DigitChar(d: nat): char
    requires d < 10
  {
    ('0' as int + d) as char
  }

  /** `n.toString()` for a non-negative integer. */
  function DecimalString(n: nat): (s: string)
    ensures 1 <= |s|
    ensures n >= 10 ==> |s| >= 2
  {
    if n < 10 then [DigitChar(n)] else DecimalString(n / 10) + [DigitChar(n % 10)]
  }

  /** Different counter values print differently, so the counter never hands out an id twice. */
  lemma {:induction false} DecimalStringInjective(a: nat, b: nat)
    requires DecimalString(a) == DecimalString(b)
    ensures a == b
  {
    if a >= 10 && b >= 10 {
      var sa, sb := DecimalString(a / 10), DecimalString(b / 10);
      assert DecimalString(a) == sa + [DigitChar(a % 10)];
      assert DecimalString(b) == sb + [DigitChar(b % 10)];
      assert DigitChar(a % 10) == DecimalString(a)[|DecimalString(a)| - 1];
      assert a % 10 == b % 10;
      assert sa == DecimalString(a)[..|DecimalString(a)| - 1];
      assert sb == DecimalString(b)[..|DecimalString(b)| - 1];
      DecimalStringInjective(a / 10, b / 10);
    }
  }

  /** Ids made of a fixed prefix and a counter value are distinct for distinct values. */
  lemma PrefixedIdInjective(prefix: string, a: nat, b: nat)
    requires prefix + DecimalString(a) == prefix + DecimalString(b)
    ensures a == b
  {
    assert DecimalString(a) == (prefix + DecimalString(a))[|prefix|..];
    assert DecimalString(b) == (prefix + DecimalString(b))[|prefix|..];
    DecimalStringInjective(a, b);
  }

  /** The closure behind `nextId`: a counter private to the module. */
  class IdSource {
    var incrementingId: nat

    constructor ()
      ensures incrementingId == 0
    {
      incrementingId := 0;
    }

    /** `nextId()`: the current counter value as a string; the counter moves on by one. */
    method NextId() returns (id: string)
      modifies this
      ensures id == DecimalString(old(incrementingId))
      ensures incrementingId == old(incrementingId) + 1
    {
      id := DecimalString(incrementingId);
      incrementingId := incrementingId + 1;
    }
  }

  // ---------------------------------------------------------------- the rcid attribute

  /** The state `getRcId` works on: the `rcid` attributes and the `nextId` counter. */
  datatype Tags = Tags(attr: map<NodeId, string>, next: nat)

  /** `getAttribute('rcid')`: the attribute's value, or null when it is absent. */
  function RcIdOf(attr: map<NodeId, string>, n: NodeId): Option<string> {
    if n in attr then Some(attr[n]) else None
  }

  /** JavaScript truthiness of a string-or-null. */
  predicate Truthy(s: Option<string>) {
    s.Some? && s.value != ""
  }

  /**
   * Asking for an element's id with `createNew` set: its id when the attribute is present
   * and non-empty, otherwise `prefix` followed by the counter, which is written onto the
   * element while the counter moves on. Returns the new state and the id.
   */
  function EnsureId(tags: Tags, n: NodeId, prefix: string): (r: (Tags, string))
    ensures n in r.0.attr && r.0.attr[n] == r.1
    ensures forall m :: m != n ==> RcIdOf(r.0.attr, m) == RcIdOf(tags.attr, m)
    ensures Truthy(RcIdOf(tags.attr, n)) ==> r.0 == tags
    ensures !Truthy(RcIdOf(tags.attr, n)) ==> r.1 == prefix + DecimalString(tags.next) && r.0.next == tags.next + 1
    ensures r.1 != ""
  {
    if Truthy(RcIdOf(tags.attr, n)) then (tags, tags.attr[n])
    else
      var id := prefix + DecimalString(tags.next);
      (Tags(tags.attr[n := id], tags.next + 1), id)
  }

  /** Asking again for an element's id returns the same id and writes nothing. */
  lemma EnsureIdStable(tags: Tags, n: NodeId, prefix: string)
    ensures EnsureId(EnsureId(tags, n, prefix).0, n, prefix) == EnsureId(tags, n, prefix)
  {
  }

  /** Two elements that had no id and ask for one in turn are given different ids. */
  lemma IdsDistinct(tags: Tags, a: NodeId, b: NodeId, prefix: string)
    requires a != b && !Truthy(RcIdOf(tags.attr, a)) && !Truthy(RcIdOf(tags.attr, b))
    ensures var (t1, ida) := EnsureId(tags, a, prefix);
      var (t2, idb) := EnsureId(t1, b, prefix);
      ida != idb && t2.next == tags.next + 2
  {
    var (t1, ida) := EnsureId(tags, a, prefix);
    var (t2, idb) := EnsureId(t1, b, prefix);
    assert RcIdOf(t1.attr, b) == RcIdOf(tags.attr, b);
    if ida == idb {
      PrefixedIdInjective(prefix, tags.next, tags.next + 1);
    }
  }

  /**
   * `getRcId(node, createNew)`. Throws on a null node; with `createNew` false it only reads,
   * with `createNew` true it returns the existing id or writes a fresh one.
   */
  method GetRcId(dom: Document, ids: IdSource, node: Option<NodeId>, createNew: bool) returns (r: Result<Option<string>>)
    modifies dom`attr, ids
    ensures node.None? ==> r == Err(Required("node")) && dom.attr == old(dom.attr) && ids.incrementingId == old(ids.incrementingId)
    ensures node.Some? && !createNew ==>
      r == Ok(RcIdOf(old(dom.attr), node.value)) && dom.attr == old(dom.attr) && ids.incrementingId == old(ids.incrementingId)
    ensures node.Some? && createNew ==>
      var (tags, id) := EnsureId(Tags(old(dom.attr), old(ids.incrementingId)), node.value, RcIdPrefix);
      r == Ok(Some(id)) && dom.attr == tags.attr && ids.incrementingId == tags.next
  {
    if node.None? {
      return Err(Required("node"));
    }
    var n := node.value;
    var rcId := RcIdOf(dom.attr, n);
    if !Truthy(rcId) && createNew {
      var next := ids.NextId();
      rcId := Some(RcIdPrefix + next);
      dom.attr := dom.attr[n := rcId.value];
    }
    r := Ok(rcId);
  }

  // ---------------------------------------------------------------- elements and value nodes

  /** `getEventElement(node)`: the node itself when it is an element, else its parentElement. */
  function EventElement(t: Tree, n: NodeId): (r: Option<NodeId>)
    requires ValidTree(t)
    ensures IsElement(t, n) ==> r == Some(n)
    ensures r.Some? ==> IsElement(t, r.value) && r.value in Ancestors(t, n)
    ensures !IsElement(t, n) && Parent(t, n).Some? && IsElement(t, Parent(t, n).value) ==> r == Parent(t, n)
    ensures !IsElement(t, n) && (Parent(t, n).None? || !IsElement(t, Parent(t, n).value)) ==> r.None?
  {
    if IsElement(t, n) then Some(n) else ParentElement(t, n)
  }

  /** `isValueNode(el)`: the element's tag is INPUT, SELECT or TEXTAREA. */
  predicate IsValueNode(t: Tree, n: NodeId) {
    IsElement(t, n) && t.kind[n].tagName in ValueNodeTypes
  }

  /** The elements of `xs` whose tag name is `tag`, in order. */
  function WithTag(t: Tree, xs: seq<NodeId>, tag: string): (r: seq<NodeId>)
    ensures forall x :: x in r <==> x in xs && IsElement(t, x) && t.kind[x].tagName == tag
  {
    if xs == [] then []
    else
      var rest := WithTag(t, xs[1..], tag);
      assert forall x :: x in xs <==> x == xs[0] || x in xs[1..];
      if IsElement(t, xs[0]) && t.kind[xs[0]].tagName == tag then [xs[0]] + rest else rest
  }

  /** `el.querySelectorAll(tag)`: the descendants of `n` with that tag, in document order. */
  function SelectAll(t: Tree, n: NodeId, tag: string): seq<NodeId>
    requires ValidTree(t) && n in t.kind
  {
    WithTag(t, Preorder(t, n)[1..], tag)
  }

  /** The results of `querySelectorAll` for each tag in `tags`, concatenated in tag order. */
  function SelectGrouped(t: Tree, n: NodeId, tags: seq<string>): (r: seq<NodeId>)
    requires ValidTree(t) && n in t.kind
    ensures forall x :: x in r <==> x in Preorder(t, n)[1..] && IsElement(t, x) && t.kind[x].tagName in tags
  {
    if tags == [] then []
    else
      var r := SelectGrouped(t, n, tags[..|tags| - 1]) + SelectAll(t, n, tags[|tags| - 1]);
      assert forall s :: s in tags <==> s in tags[..|tags| - 1] || s == tags[|tags| - 1];
      r
  }

  /**
   * `queryValueNodes(el)`: `[el]` when it is a value node, otherwise its value-node
   * descendants, all INPUTs first, then SELECTs, then TEXTAREAs.
   */
  method QueryValueNodes(t: Tree, n: NodeId) returns (nodes: seq<NodeId>)
    requires ValidTree(t) && IsElement(t, n)
    ensures IsValueNode(t, n) ==> nodes == [n]
    ensures !IsValueNode(t, n) ==> nodes == SelectGrouped(t, n, ValueNodeTypes)
    ensures forall x :: x in nodes ==> IsValueNode(t, x) && x in Preorder(t, n)
    ensures !IsValueNode(t, n) ==> forall x :: x in Preorder(t, n)[1..] && IsValueNode(t, x) ==> x in nodes
  {
    nodes := [];
    if IsValueNode(t, n) {
      nodes := nodes + [n];
    } else {
      var i := 0;
      while i < |ValueNodeTypes|
        invariant 0 <= i <= |ValueNodeTypes|
        invariant nodes == SelectGrouped(t, n, ValueNodeTypes[..i])
      {
        assert ValueNodeTypes[..i + 1][..i] == ValueNodeTypes[..i];
        nodes := nodes + SelectAll(t, n, ValueNodeTypes[i]);
        i := i + 1;
      }
      assert ValueNodeTypes[..i] == ValueNodeTypes;
      SelectGroupedValueNodes(t, n);
    }
  }

  /** The grouped selection over the value-node tags finds exactly the value-node descendants. */
  lemma SelectGroupedValueNodes(t: Tree, n: NodeId)
    requires ValidTree(t) && n in t.kind
    ensures forall x :: x in SelectGrouped(t, n, ValueNodeTypes) ==> IsValueNode(t, x) && x in Preorder(t, n)
    ensures forall x :: x in Preorder(t, n)[1..] && IsValueNode(t, x) ==> x in SelectGrouped(t, n, ValueNodeTypes)
  {
    forall x | x in SelectGrouped(t, n, ValueNodeTypes) ensures x in Preorder(t, n) {
      assert x in Preorder(t, n)[1..];
    }
  }

  /** The walk up from `node` meets a value element after exactly `i` steps. */
  predicate ValueNodeAt(t: Tree, node: Option<NodeId>, i: nat) {
    Up(t, node, i).Some? && IsValueNode(t, Up(t, node, i).value)
  }

  /** The first value element among `node` and the `levels - 1` nodes above it. */
  function FirstValueUp(t: Tree, node: Option<NodeId>, levels: nat): Option<NodeId>
    decreases levels
  {
    if levels == 0 || node.None? then None
    else if IsValueNode(t, node.value) then node
    else FirstValueUp(t, Parent(t, node.value), levels - 1)
  }

  /** Walking `i + 1` steps up from `n` is walking `i` steps up from its parent. */
  lemma {:induction false} UpShift(t: Tree, n: NodeId, i: nat)
    ensures Up(t, Some(n), i + 1) == Up(t, Parent(t, n), i)
  {
    if i > 0 {
      UpShift(t, n, i - 1);
    }
  }

  /**
   * The answer is a value element found within `levels` steps with none before it, or
   * there is no value element within `levels` steps.
   */
  lemma {:induction false} FirstValueUpMeaning(t: Tree, node: Option<NodeId>, levels: nat)
    ensures var r := FirstValueUp(t, node, levels);
      && (r.Some? ==> IsValueNode(t, r.value))
      && (r.Some? ==> exists i :: 0 <= i < levels && Up(t, node, i) == r && forall j :: 0 <= j < i ==> !ValueNodeAt(t, node, j))
      && (r.None? ==> forall i :: 0 <= i < levels ==> !ValueNodeAt(t, node, i))
    decreases levels
  {
    if node.None? {
      forall i | 0 <= i < levels ensures !ValueNodeAt(t, node, i) {
        UpStaysNone(t, node, 0, i);
      }
    } else if levels == 0 {
    } else if IsValueNode(t, node.value) {
      assert Up(t, node, 0) == node;
    } else {
      var p := Parent(t, node.value);
      FirstValueUpMeaning(t, p, levels - 1);
      var r := FirstValueUp(t, node, levels);
      assert r == FirstValueUp(t, p, levels - 1);
      if r.Some? {
        var i :| 0 <= i < levels - 1 && Up(t, p, i) == r && forall j :: 0 <= j < i ==> !ValueNodeAt(t, p, j);
        UpShift(t, node.value, i);
        NoValueNodeBelowParent(t, node.value, i);
      } else {
        NoValueNodeBelowParent(t, node.value, levels - 1);
      }
    }
  }

  /** No value element in the first `k` steps up from the parent, and `n` is none: none in `k + 1` from `n`. */
  lemma NoValueNodeBelowParent(t: Tree, n: NodeId, k: nat)
    requires !IsValueNode(t, n) && forall j :: 0 <= j < k ==> !ValueNodeAt(t, Parent(t, n), j)
    ensures forall j :: 0 <= j < k + 1 ==> !ValueNodeAt(t, Some(n), j)
  {
    forall j | 0 <= j < k + 1 ensures !ValueNodeAt(t, Some(n), j) {
      if j > 0 {
        UpShift(t, n, j - 1);
        assert !ValueNodeAt(t, Parent(t, n), j - 1);
      } else {
        assert Up(t, Some(n), 0) == Some(n);
      }
    }
  }

  /**
   * `upFirstValueNode(node, levels)`: inspects `node` and at most `levels - 1` of its
   * ancestors (through parentNode) and returns the first value element met, or null.
   */
  method UpFirstValueNode(t: Tree, node: Option<NodeId>, levels: nat := 3) returns (r: Option<NodeId>)
    ensures r == FirstValueUp(t, node, levels)
  {
    var search := 0;
    var current := node;
    while current.Some? && search < levels
      invariant 0 <= search <= levels
      invariant FirstValueUp(t, current, levels - search) == FirstValueUp(t, node, levels)
    {
      if IsElement(t, current.value) {
        if IsValueNode(t, current.value) {
          return current;
        }
      }
      search := search + 1;
      current := Parent(t, current.value);
    }
    r := None;
  }

  // ---------------------------------------------------------------- throttle

  /** Whether a call at `now` passes a throttle whose last accepted call was at `lastCall`. */
  predicate Passes(delay: int, lastCall: int, now: int) {
    !(now - lastCall < delay)
  }

  /** The times among `calls` at which the wrapped function runs, starting from `lastCall`. */
  function Invoked(delay: int, lastCall: int, calls: seq<int>): seq<int>
    decreases calls
  {
    if calls == [] then []
    else if Passes(delay, lastCall, calls[0]) then [calls[0]] + Invoked(delay, calls[0], calls[1..])
    else Invoked(delay, lastCall, calls[1..])
  }

  /** Accepted calls are at least `delay` apart, and the first is `delay` after `lastCall`. */
  lemma {:induction false} InvokedSpaced(delay: int, lastCall: int, calls: seq<int>)
    ensures var inv := Invoked(delay, lastCall, calls);
      && (|inv| > 0 ==> inv[0] - lastCall >= delay)
      && forall k :: 0 <= k < |inv| - 1 ==> inv[k + 1] - inv[k] >= delay
    decreases calls
  {
    if calls != [] {
      if Passes(delay, lastCall, calls[0]) {
        InvokedSpaced(delay, calls[0], calls[1..]);
      } else {
        InvokedSpaced(delay, lastCall, calls[1..]);
      }
    }
  }

  /** The function returned by `throttled(delay, func)`, with the clock passed in as `now`. */
  class Throttled {
    const delay: int
    var lastCall: int
    /** The times at which `func` was invoked. */
    var invoked: seq<int>
    /** Every call made so far, accepted or not. */
    ghost var calls: seq<int>

    ghost predicate Valid()
      reads this
    {
      invoked == Invoked(delay, 0, calls)
      && (invoked == [] ==> lastCall == 0)
      && (invoked != [] ==> lastCall == invoked[|invoked| - 1])
    }

    constructor (delay: int)
      ensures Valid() && this.delay == delay && lastCall == 0 && invoked == [] && calls == []
    {
      this.delay := delay;
      lastCall := 0;
      invoked := [];
      calls := [];
    }

    method Call(now: int) returns (accepted: bool)
      requires Valid()
      modifies this
      ensures Valid() && calls == old(calls) + [now]
      ensures accepted <==> Passes(delay, old(lastCall), now)
      ensures accepted ==> lastCall == now && invoked == old(invoked) + [now]
      ensures !accepted ==> lastCall == old(lastCall) && invoked == old(invoked)
    {
      InvokedSnoc(delay, 0, calls, now);
      calls := calls + [now];
      if now - lastCall < delay {
        return false;
      }
      lastCall := now;
      invoked := invoked + [now];
      accepted := true;
    }
  }

  /** Adding one call at the end: it is accepted against the last accepted time. */
  lemma {:induction false} InvokedSnoc(delay: int, lastCall: int, calls: seq<int>, now: int)
    ensures var inv := Invoked(delay, lastCall, calls);
      var last := if inv == [] then lastCall else inv[|inv| - 1];
      Invoked(delay, lastCall, calls + [now]) == inv + (if Passes(delay, last, now) then [now] else [])
    decreases calls
  {
    if calls != [] {
      assert (calls + [now])[1..] == calls[1..] + [now];
      if Passes(delay, lastCall, calls[0]) {
        InvokedSnoc(delay, calls[0], calls[1..], now);
      } else {
        InvokedSnoc(delay, lastCall, calls[1..], now);
      }
    }
  }
}
