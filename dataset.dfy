/**
 * `DataSet`: a string-keyed store whose keys may also be given as elements, in which case
 * the element's `rcid` attribute is the key.
 */
module DataSets {
  import opened Wrappers
  import opened Dom
  import opened Utilities

  /** A key handed to the store: a plain string, or an element standing for its rcid. */
  datatype Key = Name(name: string) | Elem(node: NodeId)

  /**
   * The key `get` looks up. An element is read with `getRcId(el, false)`; when it has no
   * `rcid` attribute the lookup `null in store` uses the property name "null".
   */
  function GetKey(attr: map<NodeId, string>, key: Key): string {
    match key
    case Name(s) => s
    case Elem(n) => match RcIdOf(attr, n) { case Some(id) => id case None => "null" }
  }

  /**
   * The key `set` writes under, with the attribute state after `getRcId(el, true)`.
   * A later `get` with the same key reads exactly that entry.
   */
  function SetKey(tags: Tags, key: Key): (r: (Tags, string))
    ensures GetKey(r.0.attr, key) == r.1
    ensures key.Name? ==> r.0 == tags
    ensures key.Elem? ==> forall m :: m != key.node ==> RcIdOf(r.0.attr, m) == RcIdOf(tags.attr, m)
  {
    match key
    case Name(s) => (tags, s)
    case Elem(n) => EnsureId(tags, n, RcIdPrefix)
  }

  class DataSet<V> {
    var store: map<string, V>

    constructor ()
      ensures store == map[]
    {
      store := map[];
    }

    /** `get(key, defVal)`: the stored value, or `defVal` when nothing is stored under the key. */
    function Get(key: Key, defVal: V, dom: Document): (r: V)
      reads this, dom`attr
      ensures GetKey(dom.attr, key) !in store ==> r == defVal
      ensures GetKey(dom.attr, key) in store ==> r == store[GetKey(dom.attr, key)]
    {
      var k := GetKey(dom.attr, key);
      if k in store then store[k] else defVal
    }

    /** `get(key)` with the default left at null: the entry, or None when there is none. */
    function Find(key: Key, dom: Document): (r: Option<V>)
      reads this, dom`attr
      ensures r.Some? <==> GetKey(dom.attr, key) in store
      ensures r.Some? ==> r.value == store[GetKey(dom.attr, key)]
    {
      var k := GetKey(dom.attr, key);
      if k in store then Some(store[k]) else None
    }

    /**
     * `set(key, value)`: stores under the key, giving an element an rcid first when it has
     * none. Afterwards `get` with the same key returns `value`, whatever the default.
     */
    method Set(key: Key, value: V, dom: Document, ids: IdSource)
      modifies this, dom`attr, ids
      ensures var (tags, k) := SetKey(Tags(old(dom.attr), old(ids.incrementingId)), key);
        store == old(store)[k := value] && dom.attr == tags.attr && ids.incrementingId == tags.next && Keys() == old(Keys()) + {k}
      ensures forall d: V :: Get(key, d, dom) == value
    {
      var k: string;
      match key {
        case Name(s) =>
          k := s;
        case Elem(n) =>
          var r := GetRcId(dom, ids, Some(n), true);
          k := r.value.value;
      }
      store := store[k := value];
    }

    /** `keys()`. */
    function Keys(): set<string>
      reads this
    {
      store.Keys
    }

    /** `clear()`: forgets every entry; every `get` then returns its default. */
    method Clear()
      modifies this
      ensures store == map[] && Keys() == {}
      ensures forall key: Key, d: V, dom: Document :: Get(key, d, dom) == d
    {
      store := map[];
    }

    /**
     * Removing the entry for a key, as the index does when a target's last match goes.
     * Only that entry is dropped; the attribute is not touched.
     */
    method Remove(key: Key, dom: Document)
      modifies this
      ensures store == old(store) - {GetKey(dom.attr, key)}
      ensures forall d: V :: Get(key, d, dom) == d
    {
      store := store - {GetKey(dom.attr, key)};
    }
  }

  /** `get` never writes: an element without an id is looked up under "null" and keeps no id. */
  lemma ElementWithoutIdReadsNull<V>(ds: DataSet<V>, dom: Document, n: NodeId, d: V)
    requires RcIdOf(dom.attr, n).None?
    ensures ds.Get(Elem(n), d, dom) == ds.Get(Name("null"), d, dom)
  {
  }
}
