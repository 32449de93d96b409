# TreeStore and UndoableTreeStore in Dafny

This project models an in-memory tree store and the undo/redo layer built on it.
`TreeStore` keeps caller items in a JavaScript `Map` keyed by id. Each stored item carries a derived `children` list of child ids. The store answers look-ups and traversals and accepts additions, removals and updates.
`UndoableTreeStore` wraps every mutation so that it records an action on an undo stack. `undo` and `redo` replay those actions backwards and forwards through the base store.

Layout, one module per file:

- `tree_items.dfy` (`TreeItems`): the values. `Guid` covers numbers and strings. `Item` is the caller record with a nullable `parent` and opaque extra fields. `FullItem` is a stored item with its `children`. `Truthy` is JavaScript truthiness of a parent reference.
- `item_map.dfy` (`ItemMap`): the `items` Map as entries plus insertion order, with `set` and `delete` semantics.
- `seq_extras.dfy` (`SeqExtras`): sequence helpers (`Without` is `filter(c => c !== x)`; `Dedup`, `Distinct`).
- `tree_build.dfy` (`TreeBuild`): the constructor as a fold over the input. `Describes` characterises its result without replaying the loop, including the pending-list quirks.
- `tree_reads.dfy` (`TreeReads`): `getAll`, `getItem`, `getChildrenArray`, `getChildren`.
- `tree_traversal.dfy` (`TreeTraversal`): `getAllChildren` and `getAllParents`, with soundness and completeness against the child and parent relations.
- `tree_mutation.dfy` (`TreeMutation`): `addItem`, `removeItem`, `updateItem`, and their round trips.
- `tree_store.dfy` (`TreeStoreClass`): the `TreeStore` class. Its fields are updated in place by the constructor loop and the mutation methods. Each method is proved to produce the state that the functions above describe.
- `undo_model.dfy` (`UndoModel`): the action records, the pair of stacks, every operation of the undo layer as a function, and the undo/redo properties.
- `undoable_tree_store.dfy` (`UndoableTreeStoreClass`): the `UndoableTreeStore` class. Each method is proved to move the object as `UndoModel` says.
- `fixture.dfy` (`Fixture`): the five-item tree of the test file and each expectation of that file.

In the source, `getAllChildren`, `getAllParents`, `addItem`, `removeItem` and `updateItem` of `TreeStore` are placeholders. The first two return their argument, `addItem` returns its item, and the other two only log. The model gives them the behaviour their doc-comments and the tests describe. Each is marked "per doc-comment/test" in the Dafny:

- `getAllChildren` walks the children lists depth first.
- `getAllParents` follows the `parent` fields up to the root.
- `addItem` files the item with an empty children list and attaches it to a stored parent, as the constructor does.
- `removeItem` takes the id out of its parent's children and deletes the id and every item below it.
- `updateItem` replaces the record and keeps its children list and position.

The test's `getChildrenIds` (src/test/TreeStore.test.ts:32) is `getChildrenArray`.

Undoing a remove does not restore the subtree:

- The remove record keeps the removed item and only the ids of its descendants, in the `children` field of `previousItem` (src/lib/UndoableTreeStore.ts:36-48).
- Undo re-adds that single `previousItem` through `addItem` (src/lib/UndoableTreeStore.ts:108-110), which files an item with an empty children list.
- So after the undo the item is back with no children, and the items that were below it stay gone. `UndoModel.UndoRemove` proves exactly this.

## Model

| member | source | states |
|---|---|---|
| TreeItems.Truthy | src/lib/TreeStore.ts:22-23 | a parent reference counts as present exactly when it is not `null`, not the number 0 and not the empty string |
| ItemMap.Set | src/lib/TreeStore.ts:14 | `Map.set`: only the entry under the key changes; a new key goes to the end of the enumeration order, an existing key keeps its place; the Map stays well formed when the item's id is its key |
| ItemMap.Delete | src/lib/TreeStore.ts:14 | `Map.delete`: the key and its place in the order are gone; every other entry is unchanged and the other keys keep their relative order (the order is filtered by `Without`); the Map stays well formed |
| ItemMap.DeleteEach | src/lib/TreeStore.ts:82-83 | deleting a list of keys leaves exactly the keys not in the list, with their entries unchanged, enumerated in their old relative order (`Exclude`) |
| SeqExtras.Without | src/lib/TreeStore.ts:82-83 | filtering an id out of a list keeps every other element and drops all copies of that id; a list without the id is unchanged; distinctness is kept |
| SeqExtras.WithoutConcat | src/lib/TreeStore.ts:82-83 | filtering `a + b` is filtering `a` followed by filtering `b`: the kept elements stay in their original order |
| SeqExtras.WithoutCutsOne | src/lib/TreeStore.ts:82-83 | in a duplicate-free list, filtering out a present id removes exactly its one position, `xs[..i] + xs[i + 1..]`, so sibling order is untouched |
| SeqExtras.ExcludeThenWithout | src/lib/TreeStore.ts:82-83 | filtering one more id out of an order-preserving `Exclude` is the `Exclude` of the longer list |
| TreeBuild.StepIsStepped | src/lib/TreeStore.ts:18-30 | one pass of the loop body (`Step`): the node is filed under its id with the pending list it adopts, a new id goes to the end of the order, a stored parent it names gains its id at the end, no other entry changes; its own pending list is consumed and a reference to an unseen parent opens an empty list or extends an open one |
| TreeBuild.StepDescribes | src/lib/TreeStore.ts:18-30 | one pass of the loop body takes a state matching the description of the input so far to one matching the input with the node appended |
| TreeBuild.BuildDescribes | src/lib/TreeStore.ts:16-31 | the working state after any prefix of the input (`BuildPrefix`, and so `Build`) matches `Describes`: order of first appearance, last record per id, `ExpectedChildren`, and the open pending lists are the forward references to still-unseen ids minus the first |
| TreeBuild.BuildContents | src/lib/TreeStore.ts:16-31 | after construction the keys are exactly the input ids, enumerated in order of first appearance; each entry holds the last input item with that id; the Map is well formed |
| TreeBuild.BuildChildren | src/lib/TreeStore.ts:16-31 | every id's children list is the one `ExpectedChildren` describes: for an id that occurs once, the forward references before it minus the first, then the ids of the nodes from it on that name it; a duplicate id starts from an empty list |
| TreeBuild.ChildrenInInputOrder | src/lib/TreeStore.ts:24-25 | when a parent occurs once and precedes every node that names it, its children are the ids of those nodes in input order |
| TreeBuild.FirstForwardChildDropped | src/lib/TreeStore.ts:19-20 | two children naming a later parent: the first opens an empty pending list, so the parent ends up with the second child only |
| TreeBuild.SelfParentIsOwnChild | src/lib/TreeStore.ts:23-25 | a node that names itself as parent has its own id in its children |
| TreeBuild.StepWithoutParent | src/lib/TreeStore.ts:22-23 | a node whose parent is `null`, 0 or `""` changes no other entry and no pending list except consuming its own |
| TreeBuild.BuildGetAllCount | src/lib/TreeStore.ts:18-19 | `getAll` after construction yields one item per distinct input id |
| TreeBuild.LastIndex | src/lib/TreeStore.ts:19 | the position found holds the id and no later input item has it (a later duplicate overwrites) |
| TreeReads.GetAll | src/lib/TreeStore.ts:33-35 | one record per entry, in Map order, children stripped; every stored record appears; the ids are distinct and stored |
| TreeReads.GetItem | src/lib/TreeStore.ts:37-43 | `undefined` exactly for an unknown id; otherwise the stored record without children, whose id is the one asked for |
| TreeReads.GetChildrenArray | src/lib/TreeStore.ts:44-46 | `undefined` exactly for an unknown id; otherwise the stored children list |
| TreeReads.GetChildren | src/lib/TreeStore.ts:48-53 | `[]` for an unknown id; otherwise one entry per child id, in order, each being `getItem` of that id and `undefined` exactly where the id no longer resolves |
| TreeTraversal.GetAllChildren | src/lib/TreeStore.ts:59-68 | per doc-comment/test: `[]` for an unknown id |
| TreeTraversal.DescSound | src/lib/TreeStore.ts:59-68 | the depth-first walk from an id (`Desc`, over the children lists through `DescList`) yields only stored records that lie below that id |
| TreeTraversal.DescComplete | src/lib/TreeStore.ts:59-68 | without child cycles, the walk from an id whose subtree is still unvisited yields every item below it at every depth |
| TreeTraversal.GetAllChildrenSound | src/lib/TreeStore.ts:59-68 | every item returned is a stored record and lies below the id at some depth |
| TreeTraversal.GetAllChildrenExact | src/lib/TreeStore.ts:59-68 | on a store without child cycles the ids returned are exactly the descendants at every depth, and never the id itself |
| TreeTraversal.ParentOf | src/lib/TreeStore.ts:69-74 | there is a parent step from an item exactly when it is stored and its parent is truthy and resolves, and the step leads to that parent |
| TreeTraversal.ChainShape | src/lib/TreeStore.ts:69-74 | the parent walk (`Chain`) is empty exactly when the start is unknown or already visited, starts at the item, follows parent steps, yields stored records and never repeats an id |
| TreeTraversal.ChainReachesRoot | src/lib/TreeStore.ts:69-74 | without parent cycles, the parent walk from a stored item ends at an item with no parent step |
| TreeTraversal.GetAllParentsSpec | src/lib/TreeStore.ts:69-74 | per doc-comment/test: empty exactly for an unknown id; starts with the item itself; each next item is the previous one's parent; no item repeats; without parent cycles it ends at a root |
| TreeMutation.AddItem | src/lib/TreeStore.ts:75-79 | per doc-comment/test: the new item is stored under its id, nothing else is added, and it appears in the children of the resolved parent it names; well-formedness is kept |
| TreeMutation.AddItemEffect | src/lib/TreeStore.ts:75-79 | for a new id: it goes to the end of the order with no children (itself only when self-parented), its parent's children gain its id at the end, every other entry is unchanged |
| TreeMutation.RemoveItem | src/lib/TreeStore.ts:80-83 | per doc-comment/test: an unknown id changes nothing; otherwise the id is gone, nothing new appears, and the order is the old order with the deleted ids dropped in place; well-formedness is kept |
| TreeMutation.CleanParent | src/lib/TreeStore.ts:80-83 | per doc-comment/test: the first stage of `removeItem` changes only the children list of the resolved parent of the id, which loses the id; keys, order and records are kept, and so is well-formedness |
| TreeMutation.DoomedIsSubtree | src/lib/TreeStore.ts:80-83 | per doc-comment/test: without child cycles the ids `removeItem` deletes (`Doomed`) are the id, listed first, and exactly its descendants |
| TreeMutation.RemoveItemCascades | src/lib/TreeStore.ts:80-83 | on an acyclic store exactly the id and its descendants are deleted; survivors keep their records and children, except the parent, which loses the id only; the Map enumerates the survivors in their old relative order |
| TreeMutation.RemovedIsUnreachable | src/lib/TreeStore.ts:80-83 | after a removal no traversal returns the removed id or anything that was below it |
| TreeMutation.UpdateItem | src/lib/TreeStore.ts:84-86 | per doc-comment/test: an unknown id changes nothing; otherwise the record is replaced and its children list, its place in the order and every other entry are kept |
| TreeMutation.UpdateRoundTrip | src/lib/TreeStore.ts:84-86 | updating back to the previous record restores the store exactly |
| TreeMutation.FreshItemHasNothingBelow | src/lib/TreeStore.ts:75-79 | a freshly added item has no descendants |
| TreeMutation.AddRemoveRoundTrip | src/lib/TreeStore.ts:75-83 | adding a new item and removing it restores the store exactly, provided no children list already named its id |
| TreeStoreClass.TreeStore.constructor | src/lib/TreeStore.ts:16-31 | the loop over the input with its local pending Map leaves exactly the Map `Build` describes, well formed, keyed by the input ids |
| TreeStoreClass.TreeStore.AddItem | src/lib/TreeStore.ts:75-79 | updates the Map in place to `TreeMutation.AddItem` of the old Map and keeps it well formed |
| TreeStoreClass.TreeStore.RemoveItem | src/lib/TreeStore.ts:80-83 | cleans the parent, then deletes key by key, ending at `TreeMutation.RemoveItem` of the old Map |
| TreeStoreClass.TreeStore.DeleteKeys | src/lib/TreeStore.ts:82-83 | the deletion loop ends at `DeleteEach` of the old Map |
| TreeStoreClass.TreeStore.UpdateItem | src/lib/TreeStore.ts:84-86 | updates the Map in place to `TreeMutation.UpdateItem` of the old Map |
| UndoModel.Init | src/lib/UndoableTreeStore.ts:16-18 | the built store, well formed, with nothing to undo or redo |
| UndoModel.ApplyAction | src/lib/UndoableTreeStore.ts:88-100 | replaying an action forward keeps the store well formed |
| UndoModel.ApplyInverseAction | src/lib/UndoableTreeStore.ts:102-118 | undoing an action keeps the store well formed |
| UndoModel.AddItem | src/lib/UndoableTreeStore.ts:20-24 | after an add there is something to undo and nothing to redo |
| UndoModel.AddEach | src/lib/UndoableTreeStore.ts:27-30 | the loop of `addItemsWithUndo` leaves the redo stack alone |
| UndoModel.AddItemsWithUndo | src/lib/UndoableTreeStore.ts:26-32 | the redo stack is empty afterwards, even for an empty list |
| UndoModel.AddItemsPushesInOrder | src/lib/UndoableTreeStore.ts:26-32 | one add record per item, in input order, on top of the old undo stack (the pushes of line 29, closed form `AddActions`) |
| UndoModel.AddItemsIsRepeatedAdd | src/lib/UndoableTreeStore.ts:20-32 | for a non-empty list, the result equals calling `addItem` on each item in turn; an empty list only clears redo |
| UndoModel.RemoveItem | src/lib/UndoableTreeStore.ts:34-52 | an id `getItem` does not find changes nothing; otherwise there is something to undo and nothing to redo |
| UndoModel.UpdateItem | src/lib/UndoableTreeStore.ts:54-62 | an id `getItem` does not find changes nothing; otherwise there is something to undo and nothing to redo |
| UndoModel.Undo | src/lib/UndoableTreeStore.ts:64-70 | nothing on an empty undo stack; otherwise the top undo record becomes the top redo record and the combined stack length is kept |
| UndoModel.Redo | src/lib/UndoableTreeStore.ts:72-78 | the mirror image of `undo` |
| UndoModel.CanUndo | src/lib/UndoableTreeStore.ts:80-82 | true exactly when the undo stack is non-empty |
| UndoModel.CanRedo | src/lib/UndoableTreeStore.ts:84-86 | true exactly when the redo stack is non-empty |
| UndoModel.CanMeansEffect | src/lib/UndoableTreeStore.ts:64-86 | `canUndo()` holds exactly when `undo()` changes something, and likewise for redo |
| UndoModel.UndoThenRedo | src/lib/UndoableTreeStore.ts:64-78 | `undo(); redo()` restores both stacks and replays the top record after its inverse |
| UndoModel.RedoThenUndo | src/lib/UndoableTreeStore.ts:64-78 | `redo(); undo()` restores both stacks and applies the inverse after the replay |
| UndoModel.UndoUpdate | src/lib/UndoableTreeStore.ts:54-70 | `updateItem(x); undo()` restores the store exactly, with the update record on the redo stack; `redo()` then gives back the updated state |
| UndoModel.UndoAdd | src/lib/UndoableTreeStore.ts:102-106 | `addItem(x); undo()` for a new id restores the store exactly; `redo()` then gives back the state after the add |
| UndoModel.UndoRemove | src/lib/UndoableTreeStore.ts:34-52 | the remove record lists exactly the descendants; `undo()` brings back the item's record but none of its descendants |
| UndoModel.RedoRemove | src/lib/UndoableTreeStore.ts:93-95 | `removeItem(id); undo(); redo()` removes the id again and leaves the stacks as the remove did |
| UndoModel.NewEditClearsRedo | src/lib/UndoableTreeStore.ts:20-62 | after any add, and after a remove or update of a known id, `canRedo()` is false; a remove or update of an unknown id keeps the redo stack |
| UndoableTreeStoreClass.UndoableTreeStore.constructor | src/lib/UndoableTreeStore.ts:16-18 | builds a new base store, owned by nobody else, and starts with empty stacks, as `UndoModel.Init` |
| UndoableTreeStoreClass.UndoableTreeStore.AddItem | src/lib/UndoableTreeStore.ts:20-24 | moves the store and both stacks as `UndoModel.AddItem` |
| UndoableTreeStoreClass.UndoableTreeStore.AddItemsWithUndo | src/lib/UndoableTreeStore.ts:26-32 | the loop moves the object as `UndoModel.AddItemsWithUndo` |
| UndoableTreeStoreClass.UndoableTreeStore.RemoveItem | src/lib/UndoableTreeStore.ts:34-52 | captures the record and the subtree ids before removing; moves the object as `UndoModel.RemoveItem` |
| UndoableTreeStoreClass.UndoableTreeStore.UpdateItem | src/lib/UndoableTreeStore.ts:54-62 | captures the old record before updating; moves the object as `UndoModel.UpdateItem` |
| UndoableTreeStoreClass.UndoableTreeStore.Undo | src/lib/UndoableTreeStore.ts:64-70 | moves the object as `UndoModel.Undo` |
| UndoableTreeStoreClass.UndoableTreeStore.Redo | src/lib/UndoableTreeStore.ts:72-78 | moves the object as `UndoModel.Redo` |
| UndoableTreeStoreClass.UndoableTreeStore.CanUndo | src/lib/UndoableTreeStore.ts:80-82 | answers `UndoModel.CanUndo` and changes nothing |
| UndoableTreeStoreClass.UndoableTreeStore.CanRedo | src/lib/UndoableTreeStore.ts:84-86 | answers `UndoModel.CanRedo` and changes nothing |
| UndoableTreeStoreClass.UndoableTreeStore.ApplyAction | src/lib/UndoableTreeStore.ts:88-100 | changes only the base store, as `UndoModel.ApplyAction` |
| UndoableTreeStoreClass.UndoableTreeStore.ApplyInverseAction | src/lib/UndoableTreeStore.ts:102-118 | changes only the base store, as `UndoModel.ApplyInverseAction` |
| Fixture.FixtureBuilt | src/test/TreeStore.test.ts:5-18 | the constructor on the five-item fixture yields the Map with children `1: [2, 3]`, `2: [4, 5]` |
| Fixture.FixtureGetAll | src/test/TreeStore.test.ts:20-24 | `getAll` has five items, among them item 1 named "root" |
| Fixture.FixtureGetItem | src/test/TreeStore.test.ts:26-29 | `getItem(2)` is the item named "child 1" |
| Fixture.FixtureChildren | src/test/TreeStore.test.ts:31-39 | the children ids of 2 are `[4, 5]` and `getChildren(2)` gives those two items |
| Fixture.FixtureAllChildren | src/test/TreeStore.test.ts:41-44 | `getAllChildren(1)` gives 2, 4, 5, 3 in depth-first order, which sorts to `[2, 3, 4, 5]` |
| Fixture.FixtureAllParents | src/test/TreeStore.test.ts:46-49 | `getAllParents(5)` gives `[5, 2, 1]` |
| Fixture.FixtureAdd | src/test/TreeStore.test.ts:51-54 | after adding item 6 under 3, `getChildren(3)` contains it |
| Fixture.FixtureUpdate | src/test/TreeStore.test.ts:56-59 | after updating item 3, `getItem(3)` is named "updated" |
| Fixture.FixtureRemove | src/test/TreeStore.test.ts:61-66 | after removing 2, the items 2, 4 and 5 are all gone |

## Left out

- The placeholder bodies are not modelled: `getAllChildren` and `getAllParents` return their argument, `addItem` returns its item, and `removeItem`/`updateItem` write to `console.log` (src/lib/TreeStore.ts:59-86). The model gives these operations the intended behaviour instead.
- Numeric ids are unbounded integers. JavaScript numbers are doubles: fractional numbers, `NaN` and `-0` are not modelled, nor the `SameValueZero` key comparison they would need, and integers beyond ±2^53 that JavaScript rounds to the same double (9007199254740992 and 9007199254740993, say) are one Map key in the source but two in the model.
- The extra fields of an item are a `map<string, string>`, compared only for equality. Their arbitrary JavaScript values are not modelled.
- TreeItems.Payload: the extra fields cannot be named `id`, `parent` or `children`. A caller item with its own `children` field, which the constructor would overwrite (src/lib/TreeStore.ts:19) and the read methods would strip (src/lib/TreeStore.ts:34, 41), is outside the model.
- Object spread, copying and aliasing are not modelled: records are values (src/lib/TreeStore.ts:19, 34, 41). In the constructor, the pending array is moved into the stored item rather than shared.
- TreeMutation.AddItem: an id colliding with a stored one overwrites the record and resets its children (like the constructor's duplicate case), and no pending list is kept for children added before their parent.
- TreeMutation.UpdateItem: a changed `parent` is not re-indexed in any children list, since nothing in the source asks for reparenting.
- TreeTraversal.GetAllChildren and TreeTraversal.GetAllParents: on a store with cycles they stop at the first repeated id. Completeness is proved only for stores without child cycles (`ChildAcyclic`) or parent cycles (`ParentAcyclic`).
- TreeMutation.RemoveItem: `RemoveItemCascades` assumes a store without child cycles; on a cyclic store the cascade is only as deep as the traversal reaches.
- UndoModel.UndoAdd: exact restoration is proved for a new id that no stored children list names. Re-adding an existing id is not undone exactly, because the overwritten record is not captured.
- UndoModel.Action: the source's optional `previousItem` is a required field of the remove and update records, since every push of those records sets it. The `if (action.previousItem)` guards (src/lib/UndoableTreeStore.ts:108, 113) therefore always pass.
- UndoableTreeStore subclasses TreeStore in the source. Here it owns a TreeStore field and calls it where the source calls `super`. The inherited read methods are the `TreeReads` and `TreeTraversal` functions applied to `store.Model()`.
- The read methods of the TreeStore class are not repeated as class members. `TreeReads` and `TreeTraversal` define them once, over `TreeStore.Model()`.
- The vitest harness (`describe`, `beforeEach`, `expect`) is not modelled. The fixture and its expectations are lemmas.
