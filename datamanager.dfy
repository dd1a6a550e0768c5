/**
 * `DataManager`: the older element-keyed store. Ids are bare counter values drawn from a
 * counter shared by every manager (the static `incrementingId`).
 */
module DataManagers {
  import opened Wrappers
  import opened Dom
  import opened Utilities

  /** `AttrName`: the same attribute the rest of the core uses. */
  const AttrName: string := RcIdAttrName

  /** `getId(el, true)` writes the bare counter value, without a prefix. */
  const ManagerIdPrefix: string := ""

  class DataManager<V> {
    var store: map<string, V>
    /** The class-wide `incrementingId`; every manager is built over the same one. */
    const counter: IdSource

    constructor (counter: IdSource)
      ensures store == map[] && this.counter == counter
    {
      store := map[];
      this.counter := counter;
    }

    /**
     * `getId(el, createNew)`: the element's id; with `createNew` and no (or an empty) id,
     * the counter's value is written as the new id and the counter moves on.
     */
    method GetId(el: NodeId, createNew: bool, dom: Document) returns (id: Option<string>)
      modifies dom`attr, counter
      ensures !createNew ==>
        id == RcIdOf(old(dom.attr), el) && dom.attr == old(dom.attr) && counter.incrementingId == old(counter.incrementingId)
      ensures createNew ==>
        var (tags, k) := EnsureId(Tags(old(dom.attr), old(counter.incrementingId)), el, ManagerIdPrefix);
        id == Some(k) && dom.attr == tags.attr && counter.incrementingId == tags.next
    {
      id := RcIdOf(dom.attr, el);
      if !Truthy(id) && createNew {
        var next := counter.NextId();
        assert ManagerIdPrefix + next == next;
        id := Some(next);
        dom.attr := dom.attr[el := next];
      }
    }

    /**
     * `get(el, defVal)`: `defVal` when the element has no (or an empty) id; otherwise the
     * entry under its id, which is `undefined` (None) when nothing was stored.
     */
    function Get(el: NodeId, defVal: Option<V>, dom: Document): (r: Option<V>)
      reads this, dom`attr
      ensures !Truthy(RcIdOf(dom.attr, el)) ==> r == defVal
      ensures Truthy(RcIdOf(dom.attr, el)) && dom.attr[el] !in store ==> r.None?
      ensures Truthy(RcIdOf(dom.attr, el)) && dom.attr[el] in store ==> r == Some(store[dom.attr[el]])
    {
      var id := RcIdOf(dom.attr, el);
      if Truthy(id) then (if id.value in store then Some(store[id.value]) else None) else defVal
    }

    /** `set(el, value)`: gives the element an id if needed and stores under it. */
    method Set(el: NodeId, value: V, dom: Document)
      modifies this, dom`attr, counter
      ensures var (tags, k) := EnsureId(Tags(old(dom.attr), old(counter.incrementingId)), el, ManagerIdPrefix);
        store == old(store)[k := value] && dom.attr == tags.attr && counter.incrementingId == tags.next
      ensures forall d: Option<V> :: Get(el, d, dom) == Some(value)
    {
      var id := GetId(el, true, dom);
      store := store[id.value := value];
    }
  }

  /**
   * Two elements stored in turn, neither of which had an id, end up under different ids,
   * so the second `set` does not overwrite the first.
   */
  lemma {:induction false} SetsOnFreshElementsDoNotCollide<V>(tags: Tags, a: NodeId, b: NodeId, store: map<string, V>, va: V, vb: V)
    requires a != b && !Truthy(RcIdOf(tags.attr, a)) && !Truthy(RcIdOf(tags.attr, b))
    ensures var (t1, ka) := EnsureId(tags, a, ManagerIdPrefix);
      var (t2, kb) := EnsureId(t1, b, ManagerIdPrefix);
      var after := store[ka := va][kb := vb];
      ka in after && after[ka] == va && after[kb] == vb
  {
    IdsDistinct(tags, a, b, ManagerIdPrefix);
  }
}
