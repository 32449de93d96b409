/** The TreeStore object (src/lib/TreeStore.ts:13-88): its `items` Map is the
    one piece of state, updated in place by the constructor and the three
    mutations. The Map's entries and their enumeration order are two fields;
    each method is proved to leave them as the functions of TreeBuild and
    TreeMutation say. */
module TreeStoreClass {
  import opened TreeItems
  import opened SeqExtras
  import opened ItemMap
  import TreeBuild
  import TreeMutation

  class TreeStore {
    /** The entries of the `items` Map. */
    var items: map<Guid, FullItem>
    /** The keys of `items` in the order the Map enumerates them. */
    var order: seq<Guid>

    /** The Map as a value. */
    function Model(): Store
      reads this
    {
      Store(items, order)
    }

    ghost predicate Valid()
      reads this
    {
      Wf(Model())
    }

    /** `new TreeStore(tree)`: one pass over `tree` with a local Map of
        pending child lists for parents not seen yet. */
    constructor (tree: seq<Item>)
      ensures Model() == TreeBuild.Build(tree)
      ensures Valid()
      ensures forall k :: k in items <==> k in Ids(tree)
    {
      var its: map<Guid, FullItem> := map[];
      var ord: seq<Guid> := [];
      var pending: map<Guid, seq<Guid>> := map[];
      var i := 0;
      while i < |tree|
        invariant 0 <= i <= |tree|
        invariant TreeBuild.Builder(Store(its, ord), pending) == TreeBuild.BuildPrefix(tree[..i])
      {
        var node := tree[i];
        assert DropLast(tree[..i + 1]) == tree[..i] && Last(tree[..i + 1]) == node;
        var adopted := if node.id in pending then pending[node.id] else [];
        if node.id !in its {
          ord := ord + [node.id];
        }
        its := its[node.id := FullItem(node, adopted)];
        pending := pending - {node.id};
        if Truthy(node.parent) {
          var p := node.parent.value;
          if p in its {
            its := its[p := FullItem(its[p].item, its[p].children + [node.id])];
          } else if p in pending {
            pending := pending[p := pending[p] + [node.id]];
          } else {
            pending := pending[p := []];
          }
        }
        i := i + 1;
      }
      assert tree[..i] == tree;
      items := its;
      order := ord;
      TreeBuild.BuildContents(tree);
    }

    /** Intended `addItem` (per doc-comment/test). */
    method AddItem(x: Item)
      requires Valid()
      modifies this
      ensures Model() == TreeMutation.AddItem(old(Model()), x)
      ensures Valid()
    {
      if x.id !in items {
        order := order + [x.id];
      }
      items := items[x.id := FullItem(x, [])];
      if Truthy(x.parent) && x.parent.value in items {
        var p := x.parent.value;
        items := items[p := FullItem(items[p].item, items[p].children + [x.id])];
      }
    }

    /** Intended `removeItem` (per doc-comment/test): the parent's children
        list is cleaned, then `id` and everything below it are deleted from
        the Map. */
    method RemoveItem(id: Guid)
      requires Valid()
      modifies this
      ensures Model() == TreeMutation.RemoveItem(old(Model()), id)
      ensures Valid()
    {
      ghost var s0 := Model();
      if id !in items {
        return;
      }
      var doomed := TreeMutation.Doomed(Model(), id);
      var p := items[id].item.parent;
      if Truthy(p) && p.value in items {
        items := items[p.value := FullItem(items[p.value].item, Without(items[p.value].children, id))];
      }
      assert Model() == TreeMutation.CleanParent(s0, id);
      DeleteKeys(doomed);
      assert TreeMutation.RemoveItem(s0, id) == DeleteEach(TreeMutation.CleanParent(s0, id), doomed);
    }

    /** `items.delete(k)` for each `k` of `ks`, first to last. */
    method DeleteKeys(ks: seq<Guid>)
      modifies this
      ensures Model() == DeleteEach(old(Model()), ks)
    {
      ghost var s0 := Model();
      var i := 0;
      while i < |ks|
        invariant 0 <= i <= |ks|
        invariant Model() == DeleteEach(s0, ks[..i])
      {
        assert DropLast(ks[..i + 1]) == ks[..i] && Last(ks[..i + 1]) == ks[i];
        items := items - {ks[i]};
        order := Without(order, ks[i]);
        i := i + 1;
      }
      assert ks[..i] == ks;
    }

    /** Intended `updateItem` (per doc-comment/test). */
    method UpdateItem(x: Item)
      requires Valid()
      modifies this
      ensures Model() == TreeMutation.UpdateItem(old(Model()), x)
      ensures Valid()
    {
      if x.id in items {
        items := items[x.id := FullItem(x, items[x.id].children)];
      }
    }
  }
}
