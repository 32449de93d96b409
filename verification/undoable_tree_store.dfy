/** The UndoableTreeStore object (src/lib/UndoableTreeStore.ts:12-119). The
    source subclasses TreeStore and reaches the base operations through
    `super`; here the base store is a field the object owns, and `super.X`
    is a call of `X` on that field, which does not log. The two stacks are
    fields reassigned by every operation. Each method is proved to move the
    whole object as the function of UndoModel with the same name says. */
module UndoableTreeStoreClass {
  import opened TreeItems
  import opened SeqExtras
  import opened ItemMap
  import opened TreeReads
  import opened TreeTraversal
  import opened TreeStoreClass
  import UndoModel

  class UndoableTreeStore {
    /** The base TreeStore that `super` reaches. */
    const store: TreeStore
    var undoStack: seq<UndoModel.Action>
    var redoStack: seq<UndoModel.Action>

    /** The whole object as a value. */
    function Model(): UndoModel.History
      reads this, store
    {
      UndoModel.History(store.Model(), undoStack, redoStack)
    }

    ghost predicate Valid()
      reads this, store
    {
      store.Valid()
    }

    constructor (tree: seq<Item>)
      ensures Model() == UndoModel.Init(tree)
      ensures Valid()
      ensures fresh(store)
    {
      store := new TreeStore(tree);
      undoStack := [];
      redoStack := [];
    }

    method AddItem(x: Item)
      requires Valid()
      modifies this, store
      ensures Model() == UndoModel.AddItem(old(Model()), x)
      ensures Valid()
    {
      store.AddItem(x);
      undoStack := undoStack + [UndoModel.AddAction(x)];
      redoStack := [];
    }

    method AddItemsWithUndo(xs: seq<Item>)
      requires Valid()
      modifies this, store
      ensures Model() == UndoModel.AddItemsWithUndo(old(Model()), xs)
      ensures Valid()
    {
      ghost var h0 := Model();
      var i := 0;
      while i < |xs|
        invariant 0 <= i <= |xs|
        invariant Valid()
        invariant Model() == UndoModel.AddEach(h0, xs[..i])
      {
        assert DropLast(xs[..i + 1]) == xs[..i] && Last(xs[..i + 1]) == xs[i];
        store.AddItem(xs[i]);
        undoStack := undoStack + [UndoModel.AddAction(xs[i])];
        i := i + 1;
      }
      assert xs[..i] == xs;
      redoStack := [];
    }

    method RemoveItem(id: Guid)
      requires Valid()
      modifies this, store
      ensures Model() == UndoModel.RemoveItem(old(Model()), id)
      ensures Valid()
    {
      var removedItem := GetItem(store.Model(), id);
      if removedItem.None? {
        return;
      }
      var allChildren := GetAllChildren(store.Model(), id);
      store.RemoveItem(id);
      undoStack := undoStack +
        [UndoModel.RemoveAction(removedItem.value, FullItem(removedItem.value, Ids(allChildren)))];
      redoStack := [];
    }

    method UpdateItem(x: Item)
      requires Valid()
      modifies this, store
      ensures Model() == UndoModel.UpdateItem(old(Model()), x)
      ensures Valid()
    {
      var oldItem := GetItem(store.Model(), x.id);
      if oldItem.None? {
        return;
      }
      store.UpdateItem(x);
      undoStack := undoStack + [UndoModel.UpdateAction(x, oldItem.value)];
      redoStack := [];
    }

    method Undo()
      requires Valid()
      modifies this, store
      ensures Model() == UndoModel.Undo(old(Model()))
      ensures Valid()
    {
      if undoStack == [] {
        return;
      }
      var action := Last(undoStack);
      undoStack := DropLast(undoStack);
      ApplyInverseAction(action);
      redoStack := redoStack + [action];
    }

    method Redo()
      requires Valid()
      modifies this, store
      ensures Model() == UndoModel.Redo(old(Model()))
      ensures Valid()
    {
      if redoStack == [] {
        return;
      }
      var action := Last(redoStack);
      redoStack := DropLast(redoStack);
      ApplyAction(action);
      undoStack := undoStack + [action];
    }

    method CanUndo() returns (r: bool)
      ensures r == UndoModel.CanUndo(Model())
    {
      r := |undoStack| > 0;
    }

    method CanRedo() returns (r: bool)
      ensures r == UndoModel.CanRedo(Model())
    {
      r := |redoStack| > 0;
    }

    method ApplyAction(a: UndoModel.Action)
      requires Valid()
      modifies store
      ensures store.Model() == UndoModel.ApplyAction(old(store.Model()), a)
      ensures Valid()
    {
      match a
      case AddAction(x) => store.AddItem(x);
      case RemoveAction(x, _) => store.RemoveItem(x.id);
      case UpdateAction(x, _) => store.UpdateItem(x);
    }

    method ApplyInverseAction(a: UndoModel.Action)
      requires Valid()
      modifies store
      ensures store.Model() == UndoModel.ApplyInverseAction(old(store.Model()), a)
      ensures Valid()
    {
      match a
      case AddAction(x) => store.RemoveItem(x.id);
      case RemoveAction(_, prev) => store.AddItem(prev.item);
      case UpdateAction(_, prev) => store.UpdateItem(prev);
    }
  }
}
