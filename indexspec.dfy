/**
 * The match index as a value, and what each of its operations does to it. The index maps a
 * target element, through its `rcid` attribute, to the ordered list of matches whose mouse
 * events it receives; anchors point back at their target's rcid through their linked-rcid
 * property. The observers' methods are proved to move between these states.
 */
module IndexSpec {
  import opened Wrappers
  import opened Dom
  import opened Utilities
  import opened DataSets
  import opened MatchObjects

  /**
   * Everything the index operations read or write: the `rcid` attributes and the id
   * counter, the anchors' linked rcids, the `_matchesSet` store, and the elements that
   * carry the three mouse listeners.
   */
  datatype IndexState = IndexState(
    tags: Tags,
    linked: map<NodeId, string>,
    store: map<string, seq<MatchObject>>,
    listening: set<NodeId>)

  /** The store key of an element: its rcid, or "null" when it has none. */
  function KeyOf(s: IndexState, n: NodeId): string {
    GetKey(s.tags.attr, Elem(n))
  }

  /** `_matchesSet.get(el)`: the element's list, or None (null) when it has no entry. */
  function Entry(s: IndexState, n: NodeId): Option<seq<MatchObject>> {
    var k := KeyOf(s, n);
    if k in s.store then Some(s.store[k]) else None
  }

  /** `_matchesSet.get(el, [])`. */
  function ListAt(s: IndexState, n: NodeId): seq<MatchObject> {
    Entry(s, n).GetOr([])
  }

  // ---------------------------------------------------------------- list filters

  /** `ms.filter(x => x !== m)`. */
  function Without(ms: seq<MatchObject>, m: MatchObject): (r: seq<MatchObject>)
    ensures forall i :: 0 <= i < |r| ==> r[i] in ms && r[i] != m
    ensures forall i :: 0 <= i < |ms| && ms[i] != m ==> ms[i] in r
  {
    if ms == [] then []
    else (if ms[0] == m then [] else [ms[0]]) + Without(ms[1..], m)
  }

  /** `ms.filter(m => m.contains(n))`. */
  function Touching(ms: seq<MatchObject>, n: NodeId): (r: seq<MatchObject>)
    ensures forall i :: 0 <= i < |r| ==> r[i] in ms && r[i].Contains(n)
    ensures forall i :: 0 <= i < |ms| && ms[i].Contains(n) ==> ms[i] in r
  {
    if ms == [] then []
    else (if ms[0].Contains(n) then [ms[0]] else []) + Touching(ms[1..], n)
  }

  /** `ms` with every element of `drop` filtered out. */
  function Minus(ms: seq<MatchObject>, drop: seq<MatchObject>): (r: seq<MatchObject>)
    ensures forall i :: 0 <= i < |r| ==> r[i] in ms && r[i] !in drop
    ensures forall i :: 0 <= i < |ms| && ms[i] !in drop ==> ms[i] in r
  {
    if ms == [] then []
    else (if ms[0] in drop then [] else [ms[0]]) + Minus(ms[1..], drop)
  }

  /** The filter keeps the survivors in their order: it distributes over concatenation. */
  lemma {:induction false} WithoutKeepsOrder(a: seq<MatchObject>, b: seq<MatchObject>, m: MatchObject)
    ensures Without(a + b, m) == Without(a, m) + Without(b, m)
  {
    if a != [] {
      assert (a + b)[0] == a[0];
      assert (a + b)[1..] == a[1..] + b;
      WithoutKeepsOrder(a[1..], b, m);
    } else {
      assert a + b == b;
    }
  }

  lemma {:induction false} MinusConcat(a: seq<MatchObject>, b: seq<MatchObject>, drop: seq<MatchObject>)
    ensures Minus(a + b, drop) == Minus(a, drop) + Minus(b, drop)
  {
    if a != [] {
      assert (a + b)[0] == a[0];
      assert (a + b)[1..] == a[1..] + b;
      MinusConcat(a[1..], b, drop);
    } else {
      assert a + b == b;
    }
  }

  /** Filtering out one match, then a batch, filters out the batch with that match in front. */
  lemma {:induction false} MinusAfterWithout(ms: seq<MatchObject>, b: MatchObject, rest: seq<MatchObject>)
    ensures Minus(Without(ms, b), rest) == Minus(ms, [b] + rest)
  {
    if ms != [] {
      var head := if ms[0] == b then [] else [ms[0]];
      MinusConcat(head, Without(ms[1..], b), rest);
      MinusAfterWithout(ms[1..], b, rest);
      if ms[0] != b {
        assert Minus(head, rest) == (if ms[0] in rest then [] else [ms[0]]);
      }
    }
  }

  // ---------------------------------------------------------------- the invariant

  /**
   * The ids in use: never empty, never "null", no two elements share one, and every
   * id of the form `"r" + n` was issued by the counter (`n` is below the counter).
   */
  ghost predicate IdsWellFormed(tags: Tags) {
    && (forall n :: n in tags.attr ==> tags.attr[n] != "" && tags.attr[n] != "null")
    && (forall a, b :: a in tags.attr && b in tags.attr && tags.attr[a] == tags.attr[b] ==> a == b)
    && (forall n, j: nat :: n in tags.attr && tags.attr[n] == RcIdPrefix + DecimalString(j) ==> j < tags.next)
  }

  /** No entry is empty, and every match is stored under its target's rcid. */
  ghost predicate EntriesKeyed(tags: Tags, store: map<string, seq<MatchObject>>) {
    && (forall k :: k in store ==> |store[k]| > 0)
    && (forall k, m :: k in store && m in store[k] ==> m.target in tags.attr && tags.attr[m.target] == k)
  }

  ghost predicate Consistent(s: IndexState) {
    IdsWellFormed(s.tags) && EntriesKeyed(s.tags, s.store)
  }

  /**
   * Every element with an entry carries the mouse listeners. (An element can keep its
   * listeners after the store is cleared, so the converse is not kept.)
   */
  ghost predicate Listening(s: IndexState) {
    forall n :: n in s.tags.attr && s.tags.attr[n] in s.store ==> n in s.listening
  }

  /** Under the invariant the store has no "null" entry, so an element without an id has none. */
  lemma NoNullEntry(s: IndexState)
    requires Consistent(s)
    ensures "null" !in s.store && "" !in s.store
  {
    forall k | k in s.store
      ensures k != "null" && k != ""
    {
      var m := s.store[k][0];
      assert m in s.store[k];
      assert m.target in s.tags.attr && s.tags.attr[m.target] == k;
    }
  }

  /** An element has an entry exactly when its rcid is a key; every match there targets it. */
  lemma EntryOwner(s: IndexState, n: NodeId)
    requires Consistent(s) && Entry(s, n).Some?
    ensures n in s.tags.attr && s.tags.attr[n] == KeyOf(s, n) && Truthy(RcIdOf(s.tags.attr, n))
    ensures forall m :: m in Entry(s, n).value ==> m.target == n
  {
    NoNullEntry(s);
  }

  /** Giving an element an id keeps the invariant; a fresh id is not yet a key. */
  lemma {:induction false} EnsureIdConsistent(s: IndexState, t: NodeId)
    requires Consistent(s)
    ensures var s' := s.(tags := EnsureId(s.tags, t, RcIdPrefix).0);
      Consistent(s') && (Listening(s) ==> Listening(s')) && KeyOf(s', t) == EnsureId(s.tags, t, RcIdPrefix).1
    ensures !Truthy(RcIdOf(s.tags.attr, t)) ==> t !in s.tags.attr && EnsureId(s.tags, t, RcIdPrefix).1 !in s.store
  {
    var (tags, id) := EnsureId(s.tags, t, RcIdPrefix);
    var s' := s.(tags := tags);
    if !Truthy(RcIdOf(s.tags.attr, t)) {
      assert t !in s.tags.attr;
      assert id == RcIdPrefix + DecimalString(s.tags.next);
      assert id[0] == 'r';
      forall k | k in s.store
        ensures k != id
      {
        var x := s.store[k][0];
        assert x in s.store[k];
        assert x.target in s.tags.attr && s.tags.attr[x.target] == k;
      }
      forall n, j: nat | n in tags.attr && tags.attr[n] == RcIdPrefix + DecimalString(j)
        ensures j < tags.next
      {
        if n == t {
          PrefixedIdInjective(RcIdPrefix, j, s.tags.next);
        }
      }
      assert IdsWellFormed(tags);
      forall k, m | k in s.store && m in s.store[k]
        ensures m.target in tags.attr && tags.attr[m.target] == k
      {
        assert m.target != t;
      }
      if Listening(s) {
        assert forall n :: n in tags.attr && tags.attr[n] in s.store <==> n in s.tags.attr && s.tags.attr[n] in s.store;
      }
    }
  }

  // ---------------------------------------------------------------- add and remove

  /**
   * `addMatch` for a built match: its target gets an id if needed, the match goes at the
   * end of the target's list, and the target's listeners are detached and attached again.
   */
  function Add(s: IndexState, m: MatchObject): IndexState {
    var t := m.target;
    var ms := ListAt(s, t);
    var (tags, k) := SetKey(s.tags, Elem(t));
    IndexState(tags, s.linked, s.store[k := ms + [m]], s.listening + {t})
  }

  /**
   * `removeMatch`: nothing when the target has no entry; otherwise the list without the
   * match, and when that is empty the listeners, the entry and the `rcid` attribute go.
   */
  function Remove(s: IndexState, m: MatchObject): IndexState {
    var t := m.target;
    match Entry(s, t)
    case None => s
    case Some(ms) =>
      var rest := Without(ms, m);
      if |rest| > 0 then
        var (tags, k) := SetKey(s.tags, Elem(t));
        s.(tags := tags, store := s.store[k := rest])
      else
        IndexState(s.tags.(attr := s.tags.attr - {t}), s.linked, s.store - {KeyOf(s, t)}, s.listening - {t})
  }

  /** `ms.forEach(m => removeMatch(m))`. */
  function RemoveAll(s: IndexState, ms: seq<MatchObject>): IndexState
    decreases |ms|
  {
    if ms == [] then s else RemoveAll(Remove(s, ms[0]), ms[1..])
  }

  /**
   * `addMatch` appends at the end of the target's list, even when the match is already
   * there; every other entry and the linked rcids stay as they were.
   */
  lemma AddAppends(s: IndexState, m: MatchObject)
    requires Consistent(s)
    ensures var r := Add(s, m);
      && Entry(r, m.target) == Some(ListAt(s, m.target) + [m])
      && m.target in r.listening
      && r.linked == s.linked
      && (forall k :: k != KeyOf(r, m.target) ==> (k in r.store <==> k in s.store))
      && (forall k :: k != KeyOf(r, m.target) && k in s.store ==> r.store[k] == s.store[k])
  {
    EnsureIdConsistent(s, m.target);
  }

  lemma {:induction false} AddConsistent(s: IndexState, m: MatchObject)
    requires Consistent(s)
    ensures Consistent(Add(s, m))
    ensures Listening(s) ==> Listening(Add(s, m))
  {
    var t := m.target;
    var (tags, k) := SetKey(s.tags, Elem(t));
    var s' := s.(tags := tags);
    EnsureIdConsistent(s, t);
    NoNullEntry(s);
    var ms := ListAt(s, t);
    assert ms == ListAt(s', t) by {
      if !Truthy(RcIdOf(s.tags.attr, t)) {
        assert KeyOf(s, t) == "null";
      }
    }
    var r := Add(s, m);
    assert r.store == s.store[k := ms + [m]];
    forall k2, x | k2 in r.store && x in r.store[k2]
      ensures x.target in tags.attr && tags.attr[x.target] == k2
    {
      if k2 == k && x != m {
        assert x in ms;
        assert k in s'.store;
      }
    }
    if Listening(s) {
      forall n | n in tags.attr && tags.attr[n] in r.store ensures n in r.listening {
        if n != t {
          assert tags.attr[n] != tags.attr[t];
          assert n in s.tags.attr && s.tags.attr[n] in s.store;
        }
      }
    }
  }

  /**
   * `removeMatch` removes every occurrence of the match from its target's list and keeps
   * the rest in order; an emptied list takes the entry, the rcid and the listeners with it.
   * A target without an entry is left alone.
   */
  lemma RemoveExact(s: IndexState, m: MatchObject)
    requires Consistent(s)
    ensures Entry(s, m.target).None? ==> Remove(s, m) == s
    ensures Entry(s, m.target).Some? && Without(Entry(s, m.target).value, m) != [] ==>
      Remove(s, m) == s.(store := s.store[KeyOf(s, m.target) := Without(Entry(s, m.target).value, m)])
    ensures Entry(s, m.target).Some? && Without(Entry(s, m.target).value, m) == [] ==>
      var r := Remove(s, m);
      && Entry(r, m.target).None? && m.target !in r.tags.attr && m.target !in r.listening
      && r.store == s.store - {KeyOf(s, m.target)}
  {
    if Entry(s, m.target).Some? {
      EntryOwner(s, m.target);
      NoNullEntry(s);
    }
  }

  lemma {:induction false} RemoveConsistent(s: IndexState, m: MatchObject)
    requires Consistent(s)
    ensures Consistent(Remove(s, m))
    ensures Listening(s) ==> Listening(Remove(s, m))
  {
    var t := m.target;
    RemoveExact(s, m);
    if Entry(s, t).Some? {
      EntryOwner(s, t);
      var k := KeyOf(s, t);
      var rest := Without(s.store[k], m);
      var r := Remove(s, m);
      if rest == [] {
        forall k2, x | k2 in r.store && x in r.store[k2]
          ensures x.target in r.tags.attr && r.tags.attr[x.target] == k2
        {
          assert x.target != t;
        }
        if Listening(s) {
          forall n | n in r.tags.attr && r.tags.attr[n] in r.store ensures n in r.listening {
            assert n in s.tags.attr && s.tags.attr[n] in s.store;
          }
        }
      } else {
        if Listening(s) {
          forall n | n in r.tags.attr && r.tags.attr[n] in r.store ensures n in r.listening {
            assert n in s.tags.attr && s.tags.attr[n] in s.store;
          }
        }
      }
    }
  }

  lemma {:induction false} RemoveAllConsistent(s: IndexState, ms: seq<MatchObject>)
    requires Consistent(s)
    ensures Consistent(RemoveAll(s, ms))
    ensures Listening(s) ==> Listening(RemoveAll(s, ms))
    ensures RemoveAll(s, ms).linked == s.linked
    decreases |ms|
  {
    if ms != [] {
      RemoveConsistent(s, ms[0]);
      RemoveAllConsistent(Remove(s, ms[0]), ms[1..]);
    }
  }

  /** Removing matches of a target without an entry changes nothing. */
  lemma {:induction false} RemoveAllNoEntry(s: IndexState, ms: seq<MatchObject>, t: NodeId)
    requires Entry(s, t).None? && forall x :: x in ms ==> x.target == t
    ensures RemoveAll(s, ms) == s
    decreases |ms|
  {
    if ms != [] {
      RemoveAllNoEntry(s, ms[1..], t);
    }
  }

  /**
   * `r` is `s` with the batch gone from target `t`'s list: the list without the batch, or,
   * when nothing is left, no entry, no rcid and no listeners for `t`.
   */
  ghost predicate RemovedFromOne(s: IndexState, t: NodeId, batch: seq<MatchObject>, r: IndexState)
    requires Entry(s, t).Some?
  {
    var keep := Minus(Entry(s, t).value, batch);
    && (keep != [] ==> r == s.(store := s.store[KeyOf(s, t) := keep]))
    && (keep == [] ==> r == IndexState(s.tags.(attr := s.tags.attr - {t}), s.linked, s.store - {KeyOf(s, t)}, s.listening - {t}))
  }

  /**
   * Removing a batch of matches that all share a target leaves that target's list without
   * the batch, or evicts the target when nothing is left.
   */
  lemma {:induction false} RemoveAllOneTarget(s: IndexState, batch: seq<MatchObject>, t: NodeId)
    requires Consistent(s) && Entry(s, t).Some?
    requires forall x :: x in batch ==> x.target == t
    ensures RemovedFromOne(s, t, batch, RemoveAll(s, batch))
    decreases |batch|, 1
  {
    if batch == [] {
      var ms := Entry(s, t).value;
      EntryOwner(s, t);
      MinusNothing(ms);
      assert s.store[KeyOf(s, t) := ms] == s.store;
    } else if Without(Entry(s, t).value, batch[0]) != [] {
      RemoveAllOneTargetKeeps(s, batch, t);
    } else {
      RemoveAllOneTargetEmpties(s, batch, t);
    }
  }

  /** The first match of the batch leaves some of the list behind: go on with the rest. */
  lemma {:induction false} RemoveAllOneTargetKeeps(s: IndexState, batch: seq<MatchObject>, t: NodeId)
    requires Consistent(s) && Entry(s, t).Some?
    requires forall x :: x in batch ==> x.target == t
    requires batch != [] && Without(Entry(s, t).value, batch[0]) != []
    ensures RemovedFromOne(s, t, batch, RemoveAll(s, batch))
    decreases |batch|, 0
  {
    var ms := Entry(s, t).value;
    var b := batch[0];
    var s1 := Remove(s, b);
    assert b in batch;
    RemoveKeepsEntry(s, b, t);
    MinusAfterWithout(ms, b, batch[1..]);
    assert [b] + batch[1..] == batch;
    assert Minus(Entry(s1, t).value, batch[1..]) == Minus(ms, batch);
    RemoveAllOneTarget(s1, batch[1..], t);
    assert RemoveAll(s, batch) == RemoveAll(s1, batch[1..]);
    RemovedFromOneAfter(s, t, Without(ms, b), batch, RemoveAll(s1, batch[1..]));
  }

  /** A result reached from `s` with one list shortened to `w` is one reached from `s`. */
  lemma RemovedFromOneAfter(s: IndexState, t: NodeId, w: seq<MatchObject>, batch: seq<MatchObject>, r: IndexState)
    requires Entry(s, t).Some? && batch != []
    requires var s1 := s.(store := s.store[KeyOf(s, t) := w]);
      && Entry(s1, t) == Some(w) && Minus(w, batch[1..]) == Minus(Entry(s, t).value, batch)
      && RemovedFromOne(s1, t, batch[1..], r)
    ensures RemovedFromOne(s, t, batch, r)
  {
    var k := KeyOf(s, t);
    var s1 := s.(store := s.store[k := w]);
    assert KeyOf(s1, t) == k;
    if Minus(w, batch[1..]) != [] {
      assert s1.store[k := Minus(w, batch[1..])] == s.store[k := Minus(w, batch[1..])];
    } else {
      assert s1.store - {k} == s.store - {k};
    }
  }

  /** Removing a match that leaves its list non-empty only shortens that list. */
  lemma RemoveKeepsEntry(s: IndexState, b: MatchObject, t: NodeId)
    requires Consistent(s) && Entry(s, t).Some? && b.target == t && Without(Entry(s, t).value, b) != []
    ensures var s1 := Remove(s, b);
      && s1 == s.(store := s.store[KeyOf(s, t) := Without(Entry(s, t).value, b)])
      && Consistent(s1) && KeyOf(s1, t) == KeyOf(s, t) && Entry(s1, t) == Some(Without(Entry(s, t).value, b))
  {
    EntryOwner(s, t);
    RemoveExact(s, b);
    RemoveConsistent(s, b);
  }

  /** The first match of the batch was the last of the list: the rest finds no entry. */
  lemma RemoveAllOneTargetEmpties(s: IndexState, batch: seq<MatchObject>, t: NodeId)
    requires Consistent(s) && Entry(s, t).Some?
    requires forall x :: x in batch ==> x.target == t
    requires batch != [] && Without(Entry(s, t).value, batch[0]) == []
    ensures RemovedFromOne(s, t, batch, RemoveAll(s, batch))
  {
    var ms := Entry(s, t).value;
    var b := batch[0];
    var s1 := Remove(s, b);
    EntryOwner(s, t);
    RemoveExact(s, b);
    RemoveConsistent(s, b);
    MinusAfterWithout(ms, b, batch[1..]);
    assert [b] + batch[1..] == batch;
    NoNullEntry(s1);
    assert Entry(s1, t).None?;
    RemoveAllNoEntry(s1, batch[1..], t);
    assert Minus(ms, batch) == Minus([], batch[1..]);
  }

  lemma {:induction false} MinusNothing(ms: seq<MatchObject>)
    ensures Minus(ms, []) == ms
  {
    if ms != [] {
      MinusNothing(ms[1..]);
      assert ms == [ms[0]] + ms[1..];
    }
  }

  // ---------------------------------------------------------------- building and adding

  /** What `new MatchObject(props)` wrote before the match is added: the target's id and the anchors' links. */
  function Linked(s: IndexState, m: MatchObject): IndexState {
    var (tags, linked) := LinkAnchors(s.tags, s.linked, m.props, m.target);
    s.(tags := tags, linked := linked)
  }

  /** `addMatch(props)`: build the match, then add it. */
  function AddNew(s: IndexState, m: MatchObject): IndexState {
    Add(Linked(s, m), m)
  }

  /** `matched.forEach(m => addMatch(m))` for the matches built, in order. */
  function AddNewAll(s: IndexState, ms: seq<MatchObject>): IndexState
    decreases |ms|
  {
    if ms == [] then s else AddNew(AddNewAll(s, ms[..|ms| - 1]), ms[|ms| - 1])
  }

  lemma AddNewConsistent(s: IndexState, m: MatchObject)
    requires Consistent(s)
    ensures Consistent(Linked(s, m)) && Consistent(AddNew(s, m))
    ensures Listening(s) ==> Listening(Linked(s, m)) && Listening(AddNew(s, m))
  {
    EnsureIdConsistent(s, m.target);
    AddConsistent(Linked(s, m), m);
  }

  lemma {:induction false} AddNewAllConsistent(s: IndexState, ms: seq<MatchObject>)
    requires Consistent(s)
    ensures Consistent(AddNewAll(s, ms))
    ensures Listening(s) ==> Listening(AddNewAll(s, ms))
    decreases |ms|
  {
    if ms != [] {
      AddNewAllConsistent(s, ms[..|ms| - 1]);
      AddNewConsistent(AddNewAll(s, ms[..|ms| - 1]), ms[|ms| - 1]);
    }
  }

  /**
   * After building and adding a match, its target has an entry ending with it, and both
   * anchors are linked to the target's rcid.
   */
  lemma AddNewLinksAnchors(s: IndexState, m: MatchObject)
    requires Consistent(s)
    ensures var r := AddNew(s, m);
      && Entry(r, m.target).Some? && |Entry(r, m.target).value| > 0
      && Entry(r, m.target).value[|Entry(r, m.target).value| - 1] == m
      && m.StartsNode() in r.linked && r.linked[m.StartsNode()] == KeyOf(r, m.target)
      && m.EndsNode() in r.linked && r.linked[m.EndsNode()] == KeyOf(r, m.target)
  {
    AddNewConsistent(s, m);
    EnsureIdConsistent(s, m.target);
    AddAppends(Linked(s, m), m);
  }

  // ---------------------------------------------------------------- strip

  /**
   * The element `stripMatches` removes from when a visited node is linked to `id`: a
   * `[rcid="id"]` element inside `node`, else `node` itself when it carries that id, else
   * the first such element in the document.
   */
  function FindTarget(t: Tree, attr: map<NodeId, string>, node: NodeId, id: string): (r: Option<NodeId>)
    requires ValidTree(t) && node in t.kind
    ensures r.Some? ==> IsElement(t, r.value) && r.value in attr && attr[r.value] == id
  {
    var inside := if IsElement(t, node) then FirstWithAttr(t, attr, Preorder(t, node)[1..], id) else None;
    var own := if inside.None? && IsElement(t, node) && RcIdOf(attr, node) == Some(id) then Some(node) else inside;
    if own.Some? then own else FirstWithAttr(t, attr, Preorder(t, t.root), id)
  }

  /**
   * With ids unique, the lookup finds the element owning the id whenever that element is
   * in the stripped subtree or connected to the document, and nothing else.
   */
  lemma FindTargetFindsOwner(t: Tree, s: IndexState, node: NodeId, id: string, x: NodeId)
    requires ValidTree(t) && node in t.kind && Consistent(s)
    requires IsElement(t, x) && x in s.tags.attr && s.tags.attr[x] == id
    ensures FindTarget(t, s.tags.attr, node, id).Some? ==> FindTarget(t, s.tags.attr, node, id) == Some(x)
    ensures (IsElement(t, node) && x in Preorder(t, node)) || x in Preorder(t, t.root) ==>
      FindTarget(t, s.tags.attr, node, id) == Some(x)
  {
    var attr := s.tags.attr;
    var r := FindTarget(t, attr, node, id);
    if r.Some? {
      assert attr[r.value] == attr[x];
    }
    var pre := Preorder(t, node);
    if IsElement(t, node) && x in pre && x != node {
      assert x in pre[1..] by {
        var i :| 0 <= i < |pre| && pre[i] == x;
        assert i != 0;
        assert pre[1..][i - 1] == x;
      }
      assert FirstWithAttr(t, attr, pre[1..], id).Some?;
    }
  }

  /**
   * One step of the tree walk at `cur`: when it carries a linked rcid, unlink it, find the
   * target and remove, one by one, the target's matches anchored at `cur`.
   */
  function StripOne(t: Tree, node: NodeId, s: IndexState, cur: NodeId): IndexState
    requires ValidTree(t) && node in t.kind
  {
    if !(cur in s.linked && s.linked[cur] != "") then s
    else
      var id := s.linked[cur];
      var s1 := s.(linked := s.linked - {cur});
      match FindTarget(t, s1.tags.attr, node, id)
      case None => s1
      case Some(x) =>
        match Entry(s1, x)
        case None => s1
        case Some(ms) => RemoveAll(s1, Touching(ms, cur))
  }

  /** The walk over `vs`, in order. */
  function StripSeq(t: Tree, node: NodeId, s: IndexState, vs: seq<NodeId>): IndexState
    requires ValidTree(t) && node in t.kind
    decreases |vs|
  {
    if vs == [] then s else StripSeq(t, node, StripOne(t, node, s, vs[0]), vs[1..])
  }

  /** The nodes the walk visits: the whole subtree in document order, or only `node` when `children` is false. */
  function Visited(t: Tree, node: NodeId, children: bool): seq<NodeId>
    requires ValidTree(t) && node in t.kind
  {
    if children then Preorder(t, node) else [node]
  }

  /** `stripMatches(node, children)`. */
  function Strip(t: Tree, s: IndexState, node: NodeId, children: bool): IndexState
    requires ValidTree(t) && node in t.kind
  {
    StripSeq(t, node, s, Visited(t, node, children))
  }

  /** A node carries a linked rcid that `stripMatches` acts on (a non-empty one). */
  predicate IsLinked(s: IndexState, n: NodeId) {
    n in s.linked && s.linked[n] != ""
  }

  lemma StripOneConsistent(t: Tree, node: NodeId, s: IndexState, cur: NodeId)
    requires ValidTree(t) && node in t.kind && Consistent(s)
    ensures var r := StripOne(t, node, s, cur);
      && Consistent(r) && (Listening(s) ==> Listening(r))
      && r.linked == (if IsLinked(s, cur) then s.linked - {cur} else s.linked)
  {
    if IsLinked(s, cur) {
      var s1 := s.(linked := s.linked - {cur});
      var x := FindTarget(t, s1.tags.attr, node, s.linked[cur]);
      if x.Some? && Entry(s1, x.value).Some? {
        RemoveAllConsistent(s1, Touching(Entry(s1, x.value).value, cur));
      }
    }
  }

  /**
   * One step removes exactly the target's matches that have `cur` as an anchor: the list
   * left behind holds every other match, and the target is evicted when none is left.
   */
  lemma StripOneExact(t: Tree, node: NodeId, s: IndexState, cur: NodeId, x: NodeId)
    requires ValidTree(t) && node in t.kind && Consistent(s)
    requires IsLinked(s, cur) && FindTarget(t, s.tags.attr, node, s.linked[cur]) == Some(x) && Entry(s, x).Some?
    ensures var r := StripOne(t, node, s, cur);
      var ms := Entry(s, x).value;
      var keep := Minus(ms, Touching(ms, cur));
      && r.linked == s.linked - {cur}
      && (forall i :: 0 <= i < |keep| ==> keep[i] in ms && !keep[i].Contains(cur))
      && (forall i :: 0 <= i < |ms| && !ms[i].Contains(cur) ==> ms[i] in keep)
      && (keep != [] ==> r.tags == s.tags && r.listening == s.listening && r.store == s.store[KeyOf(s, x) := keep])
      && (keep == [] ==> r.store == s.store - {KeyOf(s, x)} && x !in r.tags.attr && x !in r.listening)
  {
    var s1 := s.(linked := s.linked - {cur});
    var ms := Entry(s, x).value;
    var batch := Touching(ms, cur);
    EntryOwner(s1, x);
    forall b | b in batch ensures b.target == x {
      assert b in ms;
    }
    RemoveAllOneTarget(s1, batch, x);
  }

  lemma {:induction false} StripSeqConsistent(t: Tree, node: NodeId, s: IndexState, vs: seq<NodeId>)
    requires ValidTree(t) && node in t.kind && Consistent(s)
    ensures Consistent(StripSeq(t, node, s, vs))
    ensures Listening(s) ==> Listening(StripSeq(t, node, s, vs))
    decreases |vs|
  {
    if vs != [] {
      StripOneConsistent(t, node, s, vs[0]);
      StripSeqConsistent(t, node, StripOne(t, node, s, vs[0]), vs[1..]);
    }
  }

  /**
   * The walk unlinks every visited node and leaves the links of the nodes it does not
   * visit as they were.
   */
  lemma {:induction false} StripUnlinks(t: Tree, node: NodeId, s: IndexState, vs: seq<NodeId>)
    requires ValidTree(t) && node in t.kind && Consistent(s)
    ensures var r := StripSeq(t, node, s, vs);
      && (forall v :: v in vs ==> !IsLinked(r, v))
      && (forall n :: n !in vs ==> (n in r.linked <==> n in s.linked) && (n in s.linked ==> r.linked[n] == s.linked[n]))
    decreases |vs|
  {
    if vs != [] {
      var s1 := StripOne(t, node, s, vs[0]);
      StripOneConsistent(t, node, s, vs[0]);
      StripUnlinks(t, node, s1, vs[1..]);
      var r := StripSeq(t, node, s1, vs[1..]);
      if vs[0] !in vs[1..] {
        assert !IsLinked(s1, vs[0]);
      }
      assert forall v :: v in vs ==> v == vs[0] || v in vs[1..];
    }
  }

  /** A walk over nodes none of which is linked changes nothing. */
  lemma {:induction false} StripSeqNothingLinked(t: Tree, node: NodeId, s: IndexState, vs: seq<NodeId>)
    requires ValidTree(t) && node in t.kind
    requires forall v :: v in vs ==> !IsLinked(s, v)
    ensures StripSeq(t, node, s, vs) == s
    decreases |vs|
  {
    if vs != [] {
      assert vs[0] in vs;
      StripSeqNothingLinked(t, node, s, vs[1..]);
    }
  }

  /** Stripping the same subtree twice is the same as stripping it once. */
  lemma StripIdempotent(t: Tree, s: IndexState, node: NodeId, children: bool)
    requires ValidTree(t) && node in t.kind && Consistent(s)
    ensures Strip(t, Strip(t, s, node, children), node, children) == Strip(t, s, node, children)
  {
    var vs := Visited(t, node, children);
    StripUnlinks(t, node, s, vs);
    StripSeqNothingLinked(t, node, StripSeq(t, node, s, vs), vs);
  }

  /** Removing one match keeps any other indexed match where it was. */
  lemma RemoveKeepsOthers(s: IndexState, b: MatchObject, m: MatchObject)
    requires Consistent(s) && b != m
    requires Entry(s, m.target).Some? && m in Entry(s, m.target).value
    ensures Entry(Remove(s, b), m.target).Some? && m in Entry(Remove(s, b), m.target).value
  {
    EntryOwner(s, m.target);
    RemoveExact(s, b);
    if Entry(s, b.target).Some? {
      EntryOwner(s, b.target);
      if b.target == m.target {
        assert m in Without(Entry(s, b.target).value, b) by {
          var ms := Entry(s, b.target).value;
          var i :| 0 <= i < |ms| && ms[i] == m;
        }
      }
    }
  }

  lemma {:induction false} RemoveAllKeepsOthers(s: IndexState, batch: seq<MatchObject>, m: MatchObject)
    requires Consistent(s) && m !in batch
    requires Entry(s, m.target).Some? && m in Entry(s, m.target).value
    ensures Entry(RemoveAll(s, batch), m.target).Some? && m in Entry(RemoveAll(s, batch), m.target).value
    decreases |batch|
  {
    if batch != [] {
      assert batch[0] in batch;
      RemoveKeepsOthers(s, batch[0], m);
      RemoveConsistent(s, batch[0]);
      RemoveAllKeepsOthers(Remove(s, batch[0]), batch[1..], m);
    }
  }

  /** A match with neither anchor among the visited nodes survives the walk. */
  lemma {:induction false} StripKeepsUntouched(t: Tree, node: NodeId, s: IndexState, vs: seq<NodeId>, m: MatchObject)
    requires ValidTree(t) && node in t.kind && Consistent(s)
    requires Entry(s, m.target).Some? && m in Entry(s, m.target).value
    requires forall v :: v in vs ==> !m.Contains(v)
    ensures var r := StripSeq(t, node, s, vs);
      Entry(r, m.target).Some? && m in Entry(r, m.target).value
    decreases |vs|
  {
    if vs != [] {
      var cur := vs[0];
      assert cur in vs;
      var s1 := StripOne(t, node, s, cur);
      if IsLinked(s, cur) {
        var sl := s.(linked := s.linked - {cur});
        var x := FindTarget(t, sl.tags.attr, node, s.linked[cur]);
        if x.Some? && Entry(sl, x.value).Some? {
          var batch := Touching(Entry(sl, x.value).value, cur);
          assert forall i :: 0 <= i < |batch| ==> batch[i] != m;
          RemoveAllKeepsOthers(sl, batch, m);
        }
      }
      StripOneConsistent(t, node, s, cur);
      StripKeepsUntouched(t, node, s1, vs[1..], m);
    }
  }

  /** Every entry of `r` is an entry of `s`, and every match listed in `r` was listed there in `s`. */
  ghost predicate OnlyRemoved(s: IndexState, r: IndexState) {
    forall k, m :: k in r.store && m in r.store[k] ==> k in s.store && m in s.store[k]
  }

  /** The walk only ever takes matches away: every list after it is part of the list before. */
  lemma {:induction false} StripOnlyRemoves(t: Tree, node: NodeId, s: IndexState, vs: seq<NodeId>)
    requires ValidTree(t) && node in t.kind && Consistent(s)
    ensures OnlyRemoved(s, StripSeq(t, node, s, vs))
    decreases |vs|
  {
    if vs != [] {
      var cur := vs[0];
      var s1 := StripOne(t, node, s, cur);
      StripOneConsistent(t, node, s, cur);
      StripOneOnlyRemoves(t, node, s, cur);
      StripOnlyRemoves(t, node, s1, vs[1..]);
      var r := StripSeq(t, node, s1, vs[1..]);
      assert r == StripSeq(t, node, s, vs);
      forall k, m | k in r.store && m in r.store[k] ensures k in s.store && m in s.store[k] {
        assert k in s1.store && m in s1.store[k];
      }
    }
  }

  lemma StripOneOnlyRemoves(t: Tree, node: NodeId, s: IndexState, cur: NodeId)
    requires ValidTree(t) && node in t.kind && Consistent(s)
    ensures OnlyRemoved(s, StripOne(t, node, s, cur))
  {
    if IsLinked(s, cur) {
      var s1 := s.(linked := s.linked - {cur});
      var x := FindTarget(t, s1.tags.attr, node, s.linked[cur]);
      if x.Some? && Entry(s1, x.value).Some? {
        StripOneExact(t, node, s, cur, x.value);
      }
    }
  }

  // ---------------------------------------------------------------- value nodes

  /** What the matcher returned: `undefined`, `null`, or an array whose items may be null. */
  datatype Matched = Undefined | Null | List(items: seq<Option<MatchProps>>)

  /** The values `x && x.length > 0` can take in JavaScript. */
  datatype JsBool = JsUndefined | JsNull | JsFalse | JsTrue

  /** `hasMatched = matched && matched.length > 0`. */
  function HasMatched(f: Matched): JsBool {
    match f
    case Undefined => JsUndefined
    case Null => JsNull
    case List(items) => if |items| > 0 then JsTrue else JsFalse
  }

  /** `hasMatches = matches && matches.length > 0`, with a missing entry read as null. */
  function HasMatches(e: Option<seq<MatchObject>>): JsBool {
    match e
    case None => JsNull
    case Some(ms) => if |ms| > 0 then JsTrue else JsFalse
  }

  datatype ValueAction = AddFound | StripNode | KeepAsIs

  /** `observeValueNode`: act only when the two values differ (`!==`), adding when the matcher found some. */
  function ValueNodeAction(f: Matched, e: Option<seq<MatchObject>>): ValueAction {
    var a, b := HasMatched(f), HasMatches(e);
    if a != b then (if a == JsTrue then AddFound else StripNode) else KeepAsIs
  }

  /**
   * With no empty entry in the index: the node's new matches are added exactly when the
   * matcher found some and the node had none; it is stripped whenever the matcher found
   * none unless it returned null for a node without matches. An `undefined` or empty
   * result therefore strips even a node that had no matches.
   */
  lemma ValueNodeActionMeaning(f: Matched, e: Option<seq<MatchObject>>)
    requires e.Some? ==> |e.value| > 0
    ensures ValueNodeAction(f, e) == AddFound <==> f.List? && |f.items| > 0 && e.None?
    ensures ValueNodeAction(f, e) == StripNode <==> !(f.List? && |f.items| > 0) && (e.Some? || f != Null)
    ensures ValueNodeAction(f, e) == KeepAsIs <==> (f == Null && e.None?) || (f.List? && |f.items| > 0 && e.Some?)
  {
  }

  /**
   * After the matches of a value node have been stripped, handling the same matcher result
   * again never adds, and stripping again changes nothing.
   */
  lemma ValueNodeStripSettles(t: Tree, s: IndexState, node: NodeId, f: Matched)
    requires ValidTree(t) && node in t.kind && Consistent(s)
    requires ValueNodeAction(f, Entry(s, node)) == StripNode
    ensures var r := Strip(t, s, node, true);
      ValueNodeAction(f, Entry(r, node)) != AddFound && Strip(t, r, node, true) == r
  {
    StripIdempotent(t, s, node, true);
  }

  /**
   * After the matches found for a value node without matches have been added, handling
   * the same matcher result again does nothing, provided one of them targets that node.
   */
  lemma ValueNodeAddSettles(s: IndexState, node: NodeId, f: Matched, ms: seq<MatchObject>)
    requires Consistent(s) && ValueNodeAction(f, Entry(s, node)) == AddFound
    requires exists i :: 0 <= i < |ms| && ms[i].target == node
    ensures ValueNodeAction(f, Entry(AddNewAll(s, ms), node)) == KeepAsIs
  {
    AddNewAllGivesEntry(s, ms, node);
    AddNewAllConsistent(s, ms);
    EntryOwner(AddNewAll(s, ms), node);
  }

  /**
   * When none of the added matches targets the value node (a SELECT whose matches target
   * its OPTION elements), the node still has no entry, so handling the same matcher result
   * again adds the same matches once more.
   */
  lemma ValueNodeAddRepeats(s: IndexState, node: NodeId, f: Matched, ms: seq<MatchObject>)
    requires Consistent(s) && ValueNodeAction(f, Entry(s, node)) == AddFound
    requires forall i :: 0 <= i < |ms| ==> ms[i].target != node
    ensures ValueNodeAction(f, Entry(AddNewAll(s, ms), node)) == AddFound
  {
    AddNewAllKeepsEntry(s, ms, node);
  }

  /** Adding a match leaves the entry of every element but its target as it was. */
  lemma AddNewKeepsOtherEntry(s: IndexState, m: MatchObject, node: NodeId)
    requires Consistent(s) && m.target != node
    ensures Entry(AddNew(s, m), node) == Entry(s, node)
  {
    var s1, r := Linked(s, m), AddNew(s, m);
    EnsureIdConsistent(s, m.target);
    AddNewConsistent(s, m);
    AddAppends(s1, m);
    EntryOwner(r, m.target);
    assert RcIdOf(r.tags.attr, node) == RcIdOf(s1.tags.attr, node) == RcIdOf(s.tags.attr, node);
    assert KeyOf(r, node) == KeyOf(s, node) != KeyOf(r, m.target);
  }

  /** A run of adds none of which targets an element leaves that element's entry as it was. */
  lemma {:induction false} AddNewAllKeepsEntry(s: IndexState, ms: seq<MatchObject>, node: NodeId)
    requires Consistent(s) && forall i :: 0 <= i < |ms| ==> ms[i].target != node
    ensures Entry(AddNewAll(s, ms), node) == Entry(s, node)
    decreases |ms|
  {
    if ms != [] {
      var before := ms[..|ms| - 1];
      AddNewAllKeepsEntry(s, before, node);
      AddNewAllConsistent(s, before);
      AddNewKeepsOtherEntry(AddNewAll(s, before), ms[|ms| - 1], node);
    }
  }

  /** After a run of adds, every element one of the matches targets has an entry. */
  lemma {:induction false} AddNewAllGivesEntry(s: IndexState, ms: seq<MatchObject>, node: NodeId)
    requires Consistent(s) && exists i :: 0 <= i < |ms| && ms[i].target == node
    ensures Entry(AddNewAll(s, ms), node).Some?
    decreases |ms|
  {
    var before, m := ms[..|ms| - 1], ms[|ms| - 1];
    AddNewAllConsistent(s, before);
    if m.target == node {
      AddNewLinksAnchors(AddNewAll(s, before), m);
    } else {
      var i :| 0 <= i < |ms| && ms[i].target == node;
      assert before[i].target == node;
      AddNewAllGivesEntry(s, before, node);
      AddNewKeepsOtherEntry(AddNewAll(s, before), m, node);
    }
  }

  /** Adding matches never leaves the node they target without an entry. */
  lemma {:induction false} AddNewAllEntries(s: IndexState, ms: seq<MatchObject>, i: nat)
    requires Consistent(s) && i < |ms|
    ensures Entry(AddNewAll(s, ms[..i + 1]), ms[i].target).Some?
  {
    var before := ms[..i + 1][..i];
    assert before == ms[..i];
    AddNewAllConsistent(s, before);
    AddNewLinksAnchors(AddNewAll(s, before), ms[i]);
  }

  // ---------------------------------------------------------------- hover

  /** `_lastHovered`, and the log of every `props.hover` call made so far. */
  datatype HoverState = HoverState(last: Option<MatchObject>, calls: seq<Option<MatchObject>>)

  /** `showHovered(m)`: reports `m` unless it is already the hovered match. */
  function Show(h: HoverState, m: MatchObject): (r: HoverState)
    ensures r.last == Some(m)
    ensures h.last == Some(m) ==> r == h
    ensures h.last != Some(m) ==> r.calls == h.calls + [Some(m)]
  {
    if h.last.None? || h.last.value != m then HoverState(Some(m), h.calls + [Some(m)]) else h
  }

  /** `hideHovered()`: reports null once, when something was hovered. */
  function Hide(h: HoverState): (r: HoverState)
    ensures r.last.None?
    ensures h.last.None? ==> r == h
    ensures h.last.Some? ==> r.calls == h.calls + [None]
  {
    if h.last.Some? then HoverState(None, h.calls + [None]) else h
  }

  /**
   * The hover log: the last call reports the hovered match (none before the first call),
   * the first call reports a match, and no two consecutive calls report the same thing.
   */
  ghost predicate HoverLogged(h: HoverState) {
    && (h.calls == [] ==> h.last.None?)
    && (h.calls != [] ==> h.last == h.calls[|h.calls| - 1] && h.calls[0].Some?)
    && (forall i :: 0 <= i < |h.calls| - 1 ==> h.calls[i] != h.calls[i + 1])
  }

  lemma ShowLogged(h: HoverState, m: MatchObject)
    requires HoverLogged(h)
    ensures HoverLogged(Show(h, m))
  {
    var r := Show(h, m);
    if h.last != Some(m) {
      forall i | 0 <= i < |r.calls| - 1 ensures r.calls[i] != r.calls[i + 1] {
        if i < |h.calls| - 1 {
          assert r.calls[i] == h.calls[i] && r.calls[i + 1] == h.calls[i + 1];
        }
      }
    }
  }

  lemma HideLogged(h: HoverState)
    requires HoverLogged(h)
    ensures HoverLogged(Hide(h))
  {
    var r := Hide(h);
    if h.last.Some? {
      forall i | 0 <= i < |r.calls| - 1 ensures r.calls[i] != r.calls[i + 1] {
        if i < |h.calls| - 1 {
          assert r.calls[i] == h.calls[i] && r.calls[i + 1] == h.calls[i + 1];
        }
      }
    }
  }

  /** Reporting is idempotent: a second show of the same match, or a second hide, is silent. */
  lemma HoverIdempotent(h: HoverState, m: MatchObject)
    ensures Show(Show(h, m), m) == Show(h, m)
    ensures Hide(Hide(h)) == Hide(h)
  {
  }

  /** `matches.find(m => m.isMatch(x, y))`: the first match whose rect holds the point. */
  function FindHovered(ms: seq<MatchObject>, x: int, y: int): (r: Option<MatchObject>)
    reads ms
    ensures r.Some? ==> exists i :: (0 <= i < |ms| && ms[i] == r.value && ms[i].IsMatch(x, y)
      && forall j :: 0 <= j < i ==> !ms[j].IsMatch(x, y))
    ensures r.None? ==> forall i :: 0 <= i < |ms| ==> !ms[i].IsMatch(x, y)
  {
    if ms == [] then None
    else if ms[0].IsMatch(x, y) then Some(ms[0])
    else
      var r := FindHovered(ms[1..], x, y);
      if r.Some? then
        var i :| 0 <= i < |ms[1..]| && ms[1..][i] == r.value && ms[1..][i].IsMatch(x, y)
          && forall j :: 0 <= j < i ==> !ms[1..][j].IsMatch(x, y);
        assert ms[i + 1] == r.value;
        r
      else r
  }

  /**
   * `matchRect(node, ev)` on the hover state: nothing when the node has no entry; otherwise
   * show the first match under the cursor, or hide when there is none.
   */
  function MatchRectStep(h: HoverState, e: Option<seq<MatchObject>>, x: int, y: int): HoverState
    reads if e.Some? then e.value else []
  {
    match e
    case None => h
    case Some(ms) =>
      match FindHovered(ms, x, y)
      case Some(m) => Show(h, m)
      case None => Hide(h)
  }

  /** A mouse move keeps the hover log well formed, and what it reports is under the cursor. */
  lemma MatchRectLogged(h: HoverState, e: Option<seq<MatchObject>>, x: int, y: int)
    requires HoverLogged(h)
    ensures var r := MatchRectStep(h, e, x, y);
      && HoverLogged(r)
      && (e.Some? && r.last.Some? ==> r.last.value in e.value && r.last.value.IsMatch(x, y))
      && (e.Some? && r.last.None? ==> forall i :: 0 <= i < |e.value| ==> !e.value[i].IsMatch(x, y))
  {
    if e.Some? {
      var f := FindHovered(e.value, x, y);
      if f.Some? {
        ShowLogged(h, f.value);
      } else {
        HideLogged(h);
      }
    }
  }

  // ---------------------------------------------------------------- adding what a matcher found

  /**
   * Why `addMatch` throws on one item of a matcher's result, if it does: a null item, or a
   * failed check of the MatchObject constructor.
   */
  function ItemError(t: Tree, item: Option<MatchProps>): (r: Option<Error>)
    requires ValidTree(t)
    ensures item.None? ==> r == Some(Required("imatch"))
    ensures item.Some? ==> (r.None? <==> TargetOf(t, item.value).Ok?)
  {
    match item
    case None => Some(Required("imatch"))
    case Some(p) => if TargetOf(t, p).Err? then Some(TargetOf(t, p).error) else None
  }
}
