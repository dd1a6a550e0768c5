/**
 * The document the core observes, reduced to what the core reads and writes.
 * The structure (node kinds, parents, child lists, text) is owned by the page and only read
 * here; the two things the core writes onto nodes are the `rcid` attribute of an element
 * and the linked-rcid property (`lrcid`) of any node.
 */
module Dom {
  import opened Wrappers

  type NodeId = nat

  datatype NodeKind = Element(tagName: string) | Text | DocumentNode

  /**
   * A snapshot of the externally owned document: every node's kind, its parentNode,
   * its childNodes in document order, its text (character data, or a form control's value),
   * and the document node `root`. `depth` is each node's distance from the top of its tree;
   * it is there so that walks up and down the tree provably terminate.
   */
  datatype Tree = Tree(
    kind: map<NodeId, NodeKind>,
    parent: map<NodeId, NodeId>,
    children: map<NodeId, seq<NodeId>>,
    depth: map<NodeId, nat>,
    text: map<NodeId, string>,
    root: NodeId)

  ghost predicate ValidTree(t: Tree) {
    && t.root in t.kind
    && t.children.Keys == t.kind.Keys
    && t.depth.Keys == t.kind.Keys
    && (forall n :: n in t.parent ==> n in t.kind && t.parent[n] in t.kind && t.depth[t.parent[n]] < t.depth[n])
    && (forall n, i :: n in t.children && 0 <= i < |t.children[n]| ==>
          t.children[n][i] in t.parent && t.parent[t.children[n][i]] == n)
    && (forall n :: n in t.depth ==> t.depth[n] < |t.kind|)
  }

  predicate IsElement(t: Tree, n: NodeId) {
    n in t.kind && t.kind[n].Element?
  }

  /** `node.parentNode`. */
  function Parent(t: Tree, n: NodeId): Option<NodeId> {
    if n in t.parent then Some(t.parent[n]) else None
  }

  /** `node.parentElement`: the parent when it is an element, otherwise null. */
  function ParentElement(t: Tree, n: NodeId): (r: Option<NodeId>)
    ensures r.Some? ==> r == Parent(t, n) && IsElement(t, r.value)
    ensures r.None? ==> Parent(t, n).None? || !IsElement(t, Parent(t, n).value)
  {
    match Parent(t, n)
    case Some(p) => if IsElement(t, p) then Some(p) else None
    case None => None
  }

  /** The node `i` steps up through parentNode from `n` (null once the top is passed). */
  function Up(t: Tree, n: Option<NodeId>, i: nat): Option<NodeId> {
    if i == 0 then n
    else match Up(t, n, i - 1)
      case Some(x) => Parent(t, x)
      case None => None
  }

  /** Once the walk up has run off the top it stays there. */
  lemma {:induction false} UpStaysNone(t: Tree, n: Option<NodeId>, i: nat, j: nat)
    requires i <= j && Up(t, n, i).None?
    ensures Up(t, n, j).None?
    decreases j - i
  {
    if i < j {
      UpStaysNone(t, n, i, j - 1);
      var k: nat := j - 1;
      assert Up(t, n, k).None?;
      assert Up(t, n, k + 1) == None;
    }
  }

  /** `n` followed by its ancestors, nearest first (the inclusive ancestor chain). */
  function Ancestors(t: Tree, n: NodeId): (r: seq<NodeId>)
    requires ValidTree(t)
    ensures |r| >= 1 && r[0] == n
    ensures n in t.parent ==> |r| >= 2 && r[1] == t.parent[n]
    decreases if n in t.depth then t.depth[n] + 1 else 0
  {
    if n in t.parent then [n] + Ancestors(t, t.parent[n]) else [n]
  }

  /** Being an inclusive ancestor is transitive. */
  lemma {:induction false} AncestorsTransitive(t: Tree, n: NodeId, a: NodeId, x: NodeId)
    requires ValidTree(t)
    requires a in Ancestors(t, n) && x in Ancestors(t, a)
    ensures x in Ancestors(t, n)
    decreases if n in t.depth then t.depth[n] + 1 else 0
  {
    if a != n {
      assert n in t.parent;
      AncestorsTransitive(t, t.parent[n], a, x);
    }
  }

  /** The topmost node above `n`: the document node when `n` is connected. */
  function Top(t: Tree, n: NodeId): NodeId
    requires ValidTree(t)
  {
    var a := Ancestors(t, n);
    a[|a| - 1]
  }

  /** An inclusive ancestor of `n` lies in the same tree as `n`. */
  lemma {:induction false} TopOfAncestor(t: Tree, n: NodeId, a: NodeId)
    requires ValidTree(t) && a in Ancestors(t, n)
    ensures Top(t, a) == Top(t, n)
    decreases if n in t.depth then t.depth[n] + 1 else 0
  {
    if a != n {
      assert n in t.parent;
      TopOfAncestor(t, t.parent[n], a);
      assert Ancestors(t, n) == [n] + Ancestors(t, t.parent[n]);
    }
  }

  /** Two nodes lie in the same tree when their walks up end at the same node. */
  predicate SameTree(t: Tree, a: NodeId, b: NodeId)
    requires ValidTree(t)
  {
    Top(t, a) == Top(t, b)
  }

  /** The first element of `xs` that also occurs in `ys`. */
  function FirstShared(xs: seq<NodeId>, ys: seq<NodeId>): (r: Option<NodeId>)
    ensures r.Some? ==> r.value in xs && r.value in ys
    ensures r.Some? ==> exists k :: 0 <= k < |xs| && xs[k] == r.value && forall j :: 0 <= j < k ==> xs[j] !in ys
    ensures r.None? ==> forall x :: x in xs ==> x !in ys
  {
    if xs == [] then None
    else if xs[0] in ys then Some(xs[0])
    else
      var r := FirstShared(xs[1..], ys);
      assert forall x :: x in xs[1..] ==> x in xs;
      if r.Some? then
        var k :| 0 <= k < |xs[1..]| && xs[1..][k] == r.value && forall j :: 0 <= j < k ==> xs[1..][j] !in ys;
        assert xs[k + 1] == r.value;
        r
      else r
  }

  /** The nearest node that is an inclusive ancestor of both `a` and `b`, if they share a tree. */
  function CommonAncestor(t: Tree, a: NodeId, b: NodeId): (r: Option<NodeId>)
    requires ValidTree(t)
    ensures r.Some? ==> r.value in Ancestors(t, a) && r.value in Ancestors(t, b)
    ensures a == b ==> r == Some(a)
  {
    FirstShared(Ancestors(t, a), Ancestors(t, b))
  }

  /** Nodes of the same tree always have a common ancestor. */
  lemma CommonAncestorInSameTree(t: Tree, a: NodeId, b: NodeId)
    requires ValidTree(t) && SameTree(t, a, b)
    ensures CommonAncestor(t, a, b).Some?
  {
    assert Top(t, a) in Ancestors(t, a) && Top(t, b) in Ancestors(t, b);
  }

  /** The position of the first `x` in `xs`, or `|xs|` when `x` does not occur. */
  function IndexOf(xs: seq<NodeId>, x: NodeId): (r: nat)
    ensures r <= |xs|
    ensures r < |xs| ==> xs[r] == x
    ensures forall j :: 0 <= j < r ==> xs[j] != x
  {
    if xs == [] then 0
    else if xs[0] == x then 0
    else 1 + IndexOf(xs[1..], x)
  }

  /** A node's index: its position among its parent's childNodes (0 for a parentless node). */
  function ChildIndex(t: Tree, n: NodeId): nat {
    if n in t.parent && t.parent[n] in t.children then IndexOf(t.children[t.parent[n]], n) else 0
  }

  /**
   * A node's length as ranges count it: the characters of a text node, the childNodes of
   * any other node.
   */
  function NodeLength(t: Tree, n: NodeId): nat {
    if n in t.kind && t.kind[n].Text? then (if n in t.text then |t.text[n]| else 0)
    else if n in t.children then |t.children[n]|
    else 0
  }

  /** The child of `a` on the way down from `a` to its descendant `b`. */
  function ChildToward(t: Tree, a: NodeId, b: NodeId): NodeId
    requires ValidTree(t) && a in Ancestors(t, b) && a != b
  {
    var up := Ancestors(t, b);
    up[IndexOf(up, a) - 1]
  }

  /**
   * Tree order: `a` comes before `b` in a preorder walk of their tree. An ancestor comes
   * before its descendants; otherwise the children of the common ancestor on the two
   * paths decide by their index.
   */
  predicate Precedes(t: Tree, a: NodeId, b: NodeId)
    requires ValidTree(t) && SameTree(t, a, b)
  {
    && a != b
    && if a in Ancestors(t, b) then true
       else if b in Ancestors(t, a) then false
       else
         CommonAncestorInSameTree(t, a, b);
         var c := CommonAncestor(t, a, b).value;
         ChildIndex(t, ChildToward(t, c, a)) < ChildIndex(t, ChildToward(t, c, b))
  }

  /** The nodes a TreeWalker rooted at `n` visits: `n`, then its descendants in document order. */
  function Preorder(t: Tree, n: NodeId): (r: seq<NodeId>)
    requires ValidTree(t) && n in t.kind
    ensures |r| >= 1 && r[0] == n
    ensures forall x :: x in r ==> x in t.kind
    decreases |t.kind| - t.depth[n], 1
  {
    [n] + PreorderAll(t, t.children[n], n)
  }

  function PreorderAll(t: Tree, cs: seq<NodeId>, p: NodeId): (r: seq<NodeId>)
    requires ValidTree(t) && p in t.kind
    requires forall i :: 0 <= i < |cs| ==> cs[i] in t.parent && t.parent[cs[i]] == p
    ensures forall x :: x in r ==> x in t.kind
    decreases |t.kind| - t.depth[p], 0, |cs|
  {
    if cs == [] then []
    else Preorder(t, cs[0]) + PreorderAll(t, cs[1..], p)
  }

  /** The first element of `scope` whose rcid attribute is `id` (a `[rcid="id"]` selector). */
  function FirstWithAttr(t: Tree, attr: map<NodeId, string>, scope: seq<NodeId>, id: string): (r: Option<NodeId>)
    ensures r.Some? ==> r.value in scope && IsElement(t, r.value) && r.value in attr && attr[r.value] == id
    ensures r.None? ==> forall x :: x in scope && IsElement(t, x) ==> !(x in attr && attr[x] == id)
  {
    if scope == [] then None
    else if IsElement(t, scope[0]) && scope[0] in attr && attr[scope[0]] == id then Some(scope[0])
    else
      var r := FirstWithAttr(t, attr, scope[1..], id);
      assert forall x :: x in scope ==> x == scope[0] || x in scope[1..];
      r
  }

  /**
   * The live document. `tree` is changed only by the page; the core writes `attr` (the
   * `rcid` attribute) and `linked` (the `lrcid` property).
   */
  class Document {
    var tree: Tree
    var attr: map<NodeId, string>
    var linked: map<NodeId, string>

    ghost predicate Valid()
      reads this
    {
      ValidTree(tree)
    }

    constructor (tree: Tree)
      requires ValidTree(tree)
      ensures Valid() && this.tree == tree && attr == map[] && linked == map[]
    {
      this.tree := tree;
      attr := map[];
      linked := map[];
    }
  }
}
