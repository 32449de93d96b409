/** The mutations of TreeStore. In the source they are placeholders: `addItem`
    returns its argument and `removeItem`/`updateItem` only log
    (src/lib/TreeStore.ts:75-86). What is modelled here is the behaviour their
    doc-comments (src/lib/TreeStore.ts:78-79, 82-83, 86) and the tests
    (src/test/TreeStore.test.ts:51-66) state: per doc-comment/test. */
module TreeMutation {
  import opened TreeItems
  import opened SeqExtras
  import opened ItemMap
  import opened TreeReads
  import opened TreeTraversal

  /** Intended `addItem` (per doc-comment/test): files the item under its id
      with an empty children list (a colliding id is overwritten, as `Map.set`
      does, keeping its place), then, as the constructor does for a stored
      parent, appends its id to the children of the parent it names when that
      parent value is truthy and resolves. */
  function AddItem(s: Store, x: Item): (r: Store)
    ensures Wf(s) ==> Wf(r)
    ensures forall k :: k in r.items <==> k in s.items || k == x.id
    ensures r.items[x.id].item == x
    ensures Truthy(x.parent) && x.parent.value in r.items ==> x.id in r.items[x.parent.value].children
  {
    var s1 := Set(s, x.id, FullItem(x, []));
    if Truthy(x.parent) && x.parent.value in s1.items then
      var p := x.parent.value;
      Set(s1, p, FullItem(s1.items[p].item, s1.items[p].children + [x.id]))
    else s1
  }

  /** What `addItem` does to a store that does not hold the id yet: the id is
      appended to the order with an empty children list (holding only itself
      when the item names itself as parent), the parent it names gets its id
      at the end of its children, and every other entry is left as it was. */
  lemma AddItemEffect(s: Store, x: Item)
    requires Wf(s) && x.id !in s.items
    ensures AddItem(s, x).order == s.order + [x.id]
    ensures AddItem(s, x).items[x.id] == FullItem(x, if RefersTo(x, x.id) then [x.id] else [])
    ensures forall k :: k in s.items ==>
      AddItem(s, x).items[k] ==
        FullItem(s.items[k].item, s.items[k].children + if RefersTo(x, k) then [x.id] else [])
  {
  }

  /** The ids `removeItem(id)` deletes: `id` and everything below it. */
  function Doomed(s: Store, id: Guid): seq<Guid> {
    [id] + Ids(GetAllChildren(s, id))
  }

  /** On an acyclic store the ids `removeItem(id)` deletes are exactly `id`
      and its descendants, `id` first. */
  lemma {:induction false} DoomedIsSubtree(s: Store, id: Guid)
    requires Wf(s) && ChildAcyclic(s)
    ensures Doomed(s, id)[0] == id
    ensures forall k :: k in Doomed(s, id) <==> k == id || IsDescendant(s, id, k)
  {
    GetAllChildrenExact(s, id);
  }

  /** Intended `removeItem` (per doc-comment/test): nothing for an unknown id;
      otherwise `id` is dropped from the children of the parent it names (when
      that resolves) by matching the id, and `id` and every item below it are
      deleted from the Map. */
  function RemoveItem(s: Store, id: Guid): (r: Store)
    ensures Wf(s) ==> Wf(r)
    ensures id !in s.items ==> r == s
    ensures id !in r.items
    ensures forall k :: k in r.items ==> k in s.items
    ensures id in s.items ==> r.order == Exclude(s.order, Doomed(s, id))
  {
    if id !in s.items then s
    else
      DeleteEach(CleanParent(s, id), Doomed(s, id))
  }

  /** `removeItem` on an acyclic store deletes exactly `id` and the items below
      it; every survivor keeps its record, and its children list too, except
      the resolved parent of `id`, which loses `id` and nothing else; the Map
      enumerates the survivors in their old order. */
  lemma {:induction false} RemoveItemCascades(s: Store, id: Guid)
    requires Wf(s) && ChildAcyclic(s) && id in s.items
    ensures forall k :: k in RemoveItem(s, id).items <==>
      k in s.items && k != id && !IsDescendant(s, id, k)
    ensures forall k :: k in RemoveItem(s, id).items ==>
      RemoveItem(s, id).items[k].item == s.items[k].item
    ensures forall k :: k in RemoveItem(s, id).items ==>
      RemoveItem(s, id).items[k].children ==
        if ParentOf(s, id) == Some(k) then Without(s.items[k].children, id) else s.items[k].children
    ensures RemoveItem(s, id).order == Exclude(s.order, Doomed(s, id))
  {
    GetAllChildrenExact(s, id);
  }

  /** After `removeItem(id)` no walk of the store reaches `id` or anything that
      was below it. */
  lemma {:induction false} RemovedIsUnreachable(s: Store, id: Guid, q: Guid)
    requires Wf(s) && ChildAcyclic(s) && id in s.items
    ensures forall it :: it in GetAllChildren(RemoveItem(s, id), q) ==>
      it.id != id && !IsDescendant(s, id, it.id)
  {
    RemoveItemCascades(s, id);
    GetAllChildrenSound(RemoveItem(s, id), q);
  }

  /** Intended `updateItem` (per doc-comment/test): nothing for an unknown id;
      otherwise the record is replaced and its children list and place in the
      order are kept. A changed `parent` is not re-indexed. */
  function UpdateItem(s: Store, x: Item): (r: Store)
    ensures Wf(s) ==> Wf(r)
    ensures x.id !in s.items ==> r == s
    ensures forall k :: k in r.items <==> k in s.items
    ensures r.order == s.order
    ensures x.id in s.items ==>
      r.items[x.id].item == x && r.items[x.id].children == s.items[x.id].children
    ensures forall k :: k in s.items && k != x.id ==> r.items[k] == s.items[k]
  {
    if x.id !in s.items then s
    else Set(s, x.id, FullItem(x, s.items[x.id].children))
  }

  /** Updating back to the previous record restores the store exactly. */
  lemma UpdateRoundTrip(s: Store, x: Item)
    requires Wf(s) && x.id in s.items
    ensures UpdateItem(UpdateItem(s, x), s.items[x.id].item) == s
  {
    var r := UpdateItem(UpdateItem(s, x), s.items[x.id].item);
    assert r.items == s.items;
  }

  /** A freshly added item has nothing below it (a self-reference is not
      expanded). */
  lemma {:induction false} FreshItemHasNothingBelow(s: Store, x: Item)
    requires Wf(s) && x.id !in s.items
    ensures GetAllChildren(AddItem(s, x), x.id) == []
  {
    var t := AddItem(s, x);
    AddItemEffect(s, x);
    var cs := t.items[x.id].children;
    assert Desc(t, x.id, t.items.Keys) == DescList(t, cs, t.items.Keys - {x.id});
    if cs != [] {
      assert cs == [x.id] && cs[1..] == [];
    }
  }

  /** The store `removeItem` deletes from after it has cleaned the parent's
      children list. */
  function CleanParent(s: Store, id: Guid): (r: Store)
    requires id in s.items
    ensures Wf(s) ==> Wf(r)
    ensures r.order == s.order
    ensures forall k :: k in r.items <==> k in s.items
    ensures forall k :: k in s.items ==> r.items[k].item == s.items[k].item
    ensures forall k :: k in s.items ==>
      r.items[k].children ==
        if ParentOf(s, id) == Some(k) then Without(s.items[k].children, id) else s.items[k].children
  {
    var p := s.items[id].item.parent;
    if Truthy(p) && p.value in s.items
    then Set(s, p.value, FullItem(s.items[p.value].item, Without(s.items[p.value].children, id)))
    else s
  }

  /** Cleaning the parent of a freshly added item gives back every old entry. */
  lemma {:induction false} CleanParentOfFresh(s: Store, x: Item)
    requires Wf(s) && x.id !in s.items
    requires forall k :: k in s.items ==> x.id !in s.items[k].children
    ensures forall k :: k in CleanParent(AddItem(s, x), x.id).items <==> k in s.items || k == x.id
    ensures forall k :: k in s.items ==> CleanParent(AddItem(s, x), x.id).items[k] == s.items[k]
    ensures CleanParent(AddItem(s, x), x.id).order == s.order + [x.id]
  {
    var t := AddItem(s, x);
    AddItemEffect(s, x);
    var p := x.parent;
    if Truthy(p) && p.value in s.items && p.value != x.id {
      var ch := s.items[p.value].children;
      assert t.items[p.value].children == ch + [x.id];
      assert DropLast(ch + [x.id]) == ch;
      assert Without(ch + [x.id], x.id) == ch;
    }
  }

  /** Removing a freshly added item restores the store exactly, provided no
      children list still mentions its id. */
  lemma {:induction false} AddRemoveRoundTrip(s: Store, x: Item)
    requires Wf(s) && x.id !in s.items
    requires forall k :: k in s.items ==> x.id !in s.items[k].children
    ensures RemoveItem(AddItem(s, x), x.id) == s
  {
    var t := AddItem(s, x);
    FreshItemHasNothingBelow(s, x);
    assert Doomed(t, x.id) == [x.id];
    var s1 := CleanParent(t, x.id);
    assert RemoveItem(t, x.id) == DeleteEach(s1, [x.id]);
    assert DropLast([x.id]) == [];
    assert DeleteEach(s1, [x.id]) == Delete(s1, x.id);
    CleanParentOfFresh(s, x);
    DeleteLastAdded(s1, s, x.id);
  }

  /** Deleting the key that was appended last gives back the earlier Map. */
  lemma DeleteLastAdded(s1: Store, s: Store, k: Guid)
    requires Wf(s) && k !in s.items
    requires forall j :: j in s1.items <==> j in s.items || j == k
    requires forall j :: j in s.items ==> s1.items[j] == s.items[j]
    requires s1.order == s.order + [k]
    ensures Delete(s1, k) == s
  {
    assert DropLast(s.order + [k]) == s.order;
    assert Without(s.order + [k], k) == s.order;
    assert Delete(s1, k).items == s.items;
  }
}
