/** The store's `items` Map (src/lib/TreeStore.ts:14): a JavaScript Map from id to
    stored item. A JavaScript Map iterates in insertion order, `set` on a key
    that is already present keeps that key's position, and `delete` drops it. */
module ItemMap {
  import opened TreeItems
  import opened SeqExtras

  /** The entries and the order in which the Map enumerates their keys. */
  datatype Store = Store(items: map<Guid, FullItem>, order: seq<Guid>)

  /** The Map every store starts from. */
  function Empty(): Store {
    Store(map[], [])
  }

  /** The order lists each key once, exactly the keys present, and every
      entry is filed under its own item's id. */
  ghost predicate Wf(s: Store) {
    && Distinct(s.order)
    && (forall k :: k in s.items <==> k in s.order)
    && (forall k :: k in s.items ==> s.items[k].item.id == k)
  }

  /** `Map.prototype.set`: a new key goes to the end of the order, an existing
      one keeps its place; only entry `k` changes. */
  function Set(s: Store, k: Guid, v: FullItem): (r: Store)
    ensures r.items == s.items[k := v]
    ensures k in s.items ==> r.order == s.order
    ensures k !in s.items ==> r.order == s.order + [k]
    ensures Wf(s) && v.item.id == k ==> Wf(r)
  {
    if k in s.items then Store(s.items[k := v], s.order)
    else Store(s.items[k := v], s.order + [k])
  }

  /** `Map.prototype.delete`: entry `k` is gone and so is its place in the order. */
  function Delete(s: Store, k: Guid): (r: Store)
    ensures k !in r.items
    ensures forall j :: j in r.items <==> j in s.items && j != k
    ensures forall j :: j in r.items ==> r.items[j] == s.items[j]
    ensures r.order == Without(s.order, k)
    ensures Wf(s) ==> Wf(r)
  {
    Store(s.items - {k}, Without(s.order, k))
  }

  /** Deletes the keys of `ks`, first to last. */
  function DeleteEach(s: Store, ks: seq<Guid>): (r: Store)
    ensures forall j :: j in r.items <==> j in s.items && j !in ks
    ensures forall j :: j in r.items ==> r.items[j] == s.items[j]
    ensures r.order == Exclude(s.order, ks)
    ensures Wf(s) ==> Wf(r)
  {
    if ks == [] then
      assert Exclude(s.order, ks) == s.order by { ExcludeNothing(s.order, ks); }
      s
    else
      assert ks == DropLast(ks) + [Last(ks)];
      ExcludeThenWithout(s.order, DropLast(ks), Last(ks));
      Delete(DeleteEach(s, DropLast(ks)), Last(ks))
  }
}
