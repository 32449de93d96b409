/** The undo/redo history of UndoableTreeStore (src/lib/UndoableTreeStore.ts)
    as values: the store together with its two stacks of action records, and
    each public operation as a function from one such state to the next. */
module UndoModel {
  import opened TreeItems
  import opened SeqExtras
  import opened ItemMap
  import opened TreeReads
  import opened TreeTraversal
  import TreeBuild
  import TreeMutation

  /** An action record (src/lib/UndoableTreeStore.ts:4-10). The source's
      optional `previousItem` is always set by the operations that push a
      "remove" or "update" record, so here it is a plain field of those two;
      a remove record's `previousItem`, the removed record with a `children`
      field listing the ids of every item that was below it, is called
      `withChildren`, since a field shared by two constructors must have one
      type. */
  datatype Action =
    | AddAction(item: Item)
    | RemoveAction(item: Item, withChildren: FullItem)
    | UpdateAction(item: Item, previousItem: Item)

  /** The store and its two stacks, last element on top. */
  datatype History = History(store: Store, undoStack: seq<Action>, redoStack: seq<Action>)

  /** `new UndoableTreeStore(items)`: the built store and empty stacks. */
  function Init(tree: seq<Item>): (r: History)
    ensures Wf(r.store)
    ensures forall k :: k in r.store.items <==> k in Ids(tree)
    ensures !CanUndo(r) && !CanRedo(r)
  {
    TreeBuild.BuildContents(tree);
    History(TreeBuild.Build(tree), [], [])
  }

  /** `applyAction`: replays a record forward on the base store. */
  function ApplyAction(s: Store, a: Action): (r: Store)
    ensures Wf(s) ==> Wf(r)
  {
    match a
    case AddAction(x) => TreeMutation.AddItem(s, x)
    case RemoveAction(x, _) => TreeMutation.RemoveItem(s, x.id)
    case UpdateAction(x, _) => TreeMutation.UpdateItem(s, x)
  }

  /** `applyInverseAction`: undoes a record on the base store. A remove is
      undone by adding back its `previousItem` (`withChildren`), whose `children` field the
      add does not use. */
  function ApplyInverseAction(s: Store, a: Action): (r: Store)
    ensures Wf(s) ==> Wf(r)
  {
    match a
    case AddAction(x) => TreeMutation.RemoveItem(s, x.id)
    case RemoveAction(_, prev) => TreeMutation.AddItem(s, prev.item)
    case UpdateAction(_, prev) => TreeMutation.UpdateItem(s, prev)
  }

  /** `addItem`: add, record, forget the redo branch. */
  function AddItem(h: History, x: Item): (r: History)
    ensures Wf(h.store) ==> Wf(r.store)
    ensures CanUndo(r) && !CanRedo(r)
  {
    History(TreeMutation.AddItem(h.store, x), h.undoStack + [AddAction(x)], [])
  }

  /** The `forEach` of `addItemsWithUndo`: each item added and recorded, in
      order, the redo stack untouched. */
  function AddEach(h: History, xs: seq<Item>): (r: History)
    ensures r.redoStack == h.redoStack
    ensures Wf(h.store) ==> Wf(r.store)
  {
    if xs == [] then h
    else
      var g := AddEach(h, DropLast(xs));
      History(TreeMutation.AddItem(g.store, Last(xs)), g.undoStack + [AddAction(Last(xs))], g.redoStack)
  }

  /** `addItemsWithUndo`: every item added and recorded, then the redo stack
      cleared once (even for an empty list). */
  function AddItemsWithUndo(h: History, xs: seq<Item>): (r: History)
    ensures Wf(h.store) ==> Wf(r.store)
    ensures !CanRedo(r)
  {
    var g := AddEach(h, xs);
    History(g.store, g.undoStack, [])
  }

  /** `removeItem`: nothing for an unknown id; otherwise the record and the
      ids of its whole subtree are captured before the removal. */
  function RemoveItem(h: History, id: Guid): (r: History)
    ensures Wf(h.store) ==> Wf(r.store)
    ensures id !in h.store.items ==> r == h
    ensures id in h.store.items ==> CanUndo(r) && !CanRedo(r)
  {
    match GetItem(h.store, id)
    case None => h
    case Some(removed) =>
      var allChildren := GetAllChildren(h.store, id);
      History(TreeMutation.RemoveItem(h.store, id),
              h.undoStack + [RemoveAction(removed, FullItem(removed, Ids(allChildren)))],
              [])
  }

  /** `updateItem`: nothing for an unknown id; otherwise the old record is
      captured before the update. */
  function UpdateItem(h: History, x: Item): (r: History)
    ensures Wf(h.store) ==> Wf(r.store)
    ensures x.id !in h.store.items ==> r == h
    ensures x.id in h.store.items ==> CanUndo(r) && !CanRedo(r)
  {
    match GetItem(h.store, x.id)
    case None => h
    case Some(oldItem) =>
      History(TreeMutation.UpdateItem(h.store, x), h.undoStack + [UpdateAction(x, oldItem)], [])
  }

  /** `undo`: nothing on an empty undo stack; otherwise the top record moves
      to the redo stack and its inverse is applied. */
  function Undo(h: History): (r: History)
    ensures !CanUndo(h) ==> r == h
    ensures |r.undoStack| + |r.redoStack| == |h.undoStack| + |h.redoStack|
    ensures CanUndo(h) ==>
      h.undoStack == r.undoStack + [Last(h.undoStack)] &&
      r.redoStack == h.redoStack + [Last(h.undoStack)]
    ensures Wf(h.store) ==> Wf(r.store)
  {
    if h.undoStack == [] then h
    else
      assert h.undoStack == DropLast(h.undoStack) + [Last(h.undoStack)];
      var a := Last(h.undoStack);
      History(ApplyInverseAction(h.store, a), DropLast(h.undoStack), h.redoStack + [a])
  }

  /** `redo`: nothing on an empty redo stack; otherwise the top record moves
      back to the undo stack and is replayed. */
  function Redo(h: History): (r: History)
    ensures !CanRedo(h) ==> r == h
    ensures |r.undoStack| + |r.redoStack| == |h.undoStack| + |h.redoStack|
    ensures CanRedo(h) ==>
      h.redoStack == r.redoStack + [Last(h.redoStack)] &&
      r.undoStack == h.undoStack + [Last(h.redoStack)]
    ensures Wf(h.store) ==> Wf(r.store)
  {
    if h.redoStack == [] then h
    else
      assert h.redoStack == DropLast(h.redoStack) + [Last(h.redoStack)];
      var a := Last(h.redoStack);
      History(ApplyAction(h.store, a), h.undoStack + [a], DropLast(h.redoStack))
  }

  /** `canUndo`: true exactly when `undo` would do something. */
  function CanUndo(h: History): (r: bool)
    ensures r <==> h.undoStack != []
  {
    |h.undoStack| > 0
  }

  /** `canRedo`: true exactly when `redo` would do something. */
  function CanRedo(h: History): (r: bool)
    ensures r <==> h.redoStack != []
  {
    |h.redoStack| > 0
  }

  // ---------------------------------------------------------------------------
  // Properties of the history.

  /** `canUndo()` answers whether `undo()` changes anything, and `canRedo()`
      whether `redo()` does. */
  lemma CanMeansEffect(h: History)
    ensures CanUndo(h) <==> Undo(h) != h
    ensures CanRedo(h) <==> Redo(h) != h
  {
    if CanUndo(h) {
      assert |Undo(h).undoStack| < |h.undoStack|;
    }
    if CanRedo(h) {
      assert |Redo(h).redoStack| < |h.redoStack|;
    }
  }

  /** `undo(); redo()` puts both stacks back as they were and replays the
      record on top of the undo stack after its inverse. */
  lemma UndoThenRedo(h: History)
    requires CanUndo(h)
    ensures Redo(Undo(h)).undoStack == h.undoStack
    ensures Redo(Undo(h)).redoStack == h.redoStack
    ensures Redo(Undo(h)).store ==
      ApplyAction(ApplyInverseAction(h.store, Last(h.undoStack)), Last(h.undoStack))
  {
    var g := Undo(h);
    assert Last(g.redoStack) == Last(h.undoStack);
    assert DropLast(g.redoStack) == h.redoStack;
    assert DropLast(h.undoStack) + [Last(h.undoStack)] == h.undoStack;
  }

  /** `redo(); undo()` puts both stacks back as they were. */
  lemma RedoThenUndo(h: History)
    requires CanRedo(h)
    ensures Undo(Redo(h)).undoStack == h.undoStack
    ensures Undo(Redo(h)).redoStack == h.redoStack
    ensures Undo(Redo(h)).store ==
      ApplyInverseAction(ApplyAction(h.store, Last(h.redoStack)), Last(h.redoStack))
  {
    var g := Redo(h);
    assert Last(g.undoStack) == Last(h.redoStack);
    assert DropLast(g.undoStack) == h.undoStack;
    assert DropLast(h.redoStack) + [Last(h.redoStack)] == h.redoStack;
  }

  /** `updateItem(x); undo()` restores the store exactly, fields the update
      did not touch included, and `redo()` then gives back the updated state. */
  lemma {:induction false} UndoUpdate(h: History, x: Item)
    requires Wf(h.store) && x.id in h.store.items
    ensures Undo(UpdateItem(h, x)) ==
      History(h.store, h.undoStack, [UpdateAction(x, h.store.items[x.id].item)])
    ensures Redo(Undo(UpdateItem(h, x))) == UpdateItem(h, x)
  {
    var u := UpdateItem(h, x);
    assert Last(u.undoStack) == UpdateAction(x, h.store.items[x.id].item);
    assert DropLast(u.undoStack) == h.undoStack;
    TreeMutation.UpdateRoundTrip(h.store, x);
    var t := TreeMutation.UpdateItem(h.store, x);
    assert TreeMutation.UpdateItem(h.store, x).items == t.items;
  }

  /** `addItem(x); undo()` for a new id restores the store exactly (no item
      is left behind and no children list keeps the id), provided no stored
      children list already named `x.id`; `redo()` then gives back the state
      after the add. */
  lemma {:induction false} UndoAdd(h: History, x: Item)
    requires Wf(h.store) && x.id !in h.store.items
    requires forall k :: k in h.store.items ==> x.id !in h.store.items[k].children
    ensures Undo(AddItem(h, x)) == History(h.store, h.undoStack, [AddAction(x)])
    ensures Redo(Undo(AddItem(h, x))) == AddItem(h, x)
  {
    var a := AddItem(h, x);
    assert Last(a.undoStack) == AddAction(x);
    assert DropLast(a.undoStack) == h.undoStack;
    TreeMutation.AddRemoveRoundTrip(h.store, x);
  }

  /** `removeItem(id); undo()` on an acyclic store: the recorded children
      list names exactly the items that were below `id`, the item itself
      comes back with its record, but nothing that was below it does (the
      add that undoes a remove files the record with no children). */
  lemma {:induction false} UndoRemove(h: History, id: Guid)
    requires Wf(h.store) && ChildAcyclic(h.store) && id in h.store.items
    ensures Last(RemoveItem(h, id).undoStack).RemoveAction?
    ensures forall d :: d in Last(RemoveItem(h, id).undoStack).withChildren.children <==>
      IsDescendant(h.store, id, d)
    ensures id in Undo(RemoveItem(h, id)).store.items
    ensures Undo(RemoveItem(h, id)).store.items[id].item == h.store.items[id].item
    ensures forall d :: IsDescendant(h.store, id, d) ==> d !in Undo(RemoveItem(h, id)).store.items
    ensures Undo(RemoveItem(h, id)).undoStack == h.undoStack
  {
    var s := h.store;
    var x := s.items[id].item;
    var rm := RemoveItem(h, id);
    assert Last(rm.undoStack) == RemoveAction(x, FullItem(x, Ids(GetAllChildren(s, id))));
    assert DropLast(rm.undoStack) == h.undoStack;
    GetAllChildrenExact(s, id);
    TreeMutation.RemoveItemCascades(s, id);
  }

  /** `removeItem(id); undo(); redo()`: the replay removes `id` again (by
      `action.item.id`) and leaves the stacks as the remove did. */
  lemma {:induction false} RedoRemove(h: History, id: Guid)
    requires Wf(h.store) && id in h.store.items
    ensures Redo(Undo(RemoveItem(h, id))).undoStack == RemoveItem(h, id).undoStack
    ensures Redo(Undo(RemoveItem(h, id))).redoStack == []
    ensures Redo(Undo(RemoveItem(h, id))).store ==
      TreeMutation.RemoveItem(Undo(RemoveItem(h, id)).store, id)
    ensures id !in Redo(Undo(RemoveItem(h, id))).store.items
  {
    var rm := RemoveItem(h, id);
    UndoThenRedo(rm);
    assert Last(rm.undoStack).RemoveAction? && Last(rm.undoStack).item.id == id;
  }

  /** After any edit that does something, `canRedo()` is false: an undone
      branch can no longer be redone. */
  lemma NewEditClearsRedo(h: History, x: Item, xs: seq<Item>, id: Guid)
    requires CanRedo(h)
    ensures !CanRedo(AddItem(h, x))
    ensures !CanRedo(AddItemsWithUndo(h, xs))
    ensures id in h.store.items <==> !CanRedo(RemoveItem(h, id))
    ensures x.id in h.store.items <==> !CanRedo(UpdateItem(h, x))
  {
  }

  /** The actions `addItemsWithUndo(xs)` pushes: one add record per item, in
      the order of `xs`, above the existing stack. */
  function AddActions(xs: seq<Item>): (r: seq<Action>)
    ensures |r| == |xs|
    ensures forall i :: 0 <= i < |xs| ==> r[i] == AddAction(xs[i])
  {
    seq(|xs|, i requires 0 <= i < |xs| => AddAction(xs[i]))
  }

  lemma {:induction false} AddItemsPushesInOrder(h: History, xs: seq<Item>)
    ensures AddItemsWithUndo(h, xs).undoStack == h.undoStack + AddActions(xs)
  {
    if xs != [] {
      AddItemsPushesInOrder(h, DropLast(xs));
      assert AddActions(xs) == AddActions(DropLast(xs)) + [AddAction(Last(xs))];
    }
  }

  /** `addItem` called once per item, in order. */
  function AddSeparately(h: History, xs: seq<Item>): History {
    if xs == [] then h else AddItem(AddSeparately(h, DropLast(xs)), Last(xs))
  }

  /** `addItemsWithUndo(xs)` leaves the same store and stacks as calling
      `addItem` on each item of a non-empty `xs` in turn; on an empty list it
      only clears the redo stack. */
  lemma {:induction false} AddItemsIsRepeatedAdd(h: History, xs: seq<Item>)
    ensures xs != [] ==> AddItemsWithUndo(h, xs) == AddSeparately(h, xs)
    ensures xs == [] ==> AddItemsWithUndo(h, xs) == History(h.store, h.undoStack, [])
  {
    if xs != [] {
      AddEachMatches(h, xs);
    }
  }

  lemma {:induction false} AddEachMatches(h: History, xs: seq<Item>)
    ensures AddEach(h, xs).store == AddSeparately(h, xs).store
    ensures AddEach(h, xs).undoStack == AddSeparately(h, xs).undoStack
  {
    if xs != [] {
      AddEachMatches(h, DropLast(xs));
    }
  }
}
