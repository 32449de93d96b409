/** The read operations of TreeStore (src/lib/TreeStore.ts:33-53). Every one
    hands out the caller's record without the store's `children` field. */
module TreeReads {
  import opened TreeItems
  import opened SeqExtras
  import opened ItemMap

  /** `getAll`: every stored record, children stripped, in the Map's order. */
  function GetAll(s: Store): (r: seq<Item>)
    requires Wf(s)
    ensures |r| == |s.items| == |s.order|
    ensures forall i :: 0 <= i < |r| ==> r[i] == s.items[s.order[i]].item
    ensures forall k :: k in s.items ==> s.items[k].item in r
    ensures forall i :: 0 <= i < |r| ==> r[i].id in s.items
    ensures Distinct(Ids(r))
  {
    SizeIsOrderLength(s);
    var r := seq(|s.order|, i requires 0 <= i < |s.order| => s.items[s.order[i]].item);
    assert forall i :: 0 <= i < |r| ==> Ids(r)[i] == s.order[i];
    assert forall k :: k in s.items ==> s.items[k].item in r by {
      forall k | k in s.items
        ensures s.items[k].item in r
      {
        var i :| 0 <= i < |s.order| && s.order[i] == k;
        assert r[i] == s.items[k].item;
      }
    }
    r
  }

  /** The Map holds as many entries as its order lists keys. */
  lemma SizeIsOrderLength(s: Store)
    requires Wf(s)
    ensures |s.items| == |s.order|
  {
    DistinctCardinality(s.order);
    assert s.items.Keys == set k | k in s.order;
  }

  /** `getItem`: the stored record without children, or `undefined` (None)
      when no item has that id. */
  function GetItem(s: Store, id: Guid): (r: Option<Item>)
    ensures r.None? <==> id !in s.items
    ensures r.Some? ==> r.value == s.items[id].item
    ensures Wf(s) && r.Some? ==> r.value.id == id
  {
    if id in s.items then Some(s.items[id].item) else None
  }

  /** `getChildrenArray`: the raw child-id list, or `undefined` (None) for an
      unknown id. */
  function GetChildrenArray(s: Store, id: Guid): (r: Option<seq<Guid>>)
    ensures r.None? <==> id !in s.items
    ensures r.Some? ==> r.value == s.items[id].children
  {
    if id in s.items then Some(s.items[id].children) else None
  }

  /** `getChildren`: `[]` for an unknown or childless id; otherwise each child
      id looked up with `getItem` in order, an id that no longer resolves
      giving `undefined` (None) in its place rather than being skipped. */
  function GetChildren(s: Store, id: Guid): (r: seq<Option<Item>>)
    ensures id !in s.items ==> r == []
    ensures id in s.items ==> |r| == |s.items[id].children|
    ensures id in s.items ==> forall i :: 0 <= i < |r| ==>
      r[i] == GetItem(s, s.items[id].children[i])
    ensures id in s.items ==> forall i :: 0 <= i < |r| ==>
      (r[i].None? <==> s.items[id].children[i] !in s.items)
  {
    match GetChildrenArray(s, id)
    case None => []
    case Some(cs) =>
      if |cs| == 0 then []
      else seq(|cs|, i requires 0 <= i < |cs| => GetItem(s, cs[i]))
  }
}
