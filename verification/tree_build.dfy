/** What the TreeStore constructor builds (src/lib/TreeStore.ts:16-31): a single
    pass over the input that files each node under its id and attaches child
    ids to parents, buffering references to parents not seen yet in a local
    `children` Map of pending lists. */
module TreeBuild {
  import opened TreeItems
  import opened SeqExtras
  import opened ItemMap
  import opened TreeReads

  /** The constructor's working state: the store so far and the pending Map. */
  datatype Builder = Builder(store: Store, pending: map<Guid, seq<Guid>>)

  /** One iteration of the constructor's `forEach` (src/lib/TreeStore.ts:19-28),
      quirks included: the node adopts its pending list (or `[]`) and the
      pending entry is deleted; a falsy parent touches nothing else; a parent
      already stored gets the node's id appended (which includes the node
      itself when it names itself); otherwise the first reference to an unseen
      parent creates an EMPTY pending list, dropping this node's id, and later
      references append to it. */
  function Step(b: Builder, node: Item): Builder {
    var adopted := if node.id in b.pending then b.pending[node.id] else [];
    var s := Set(b.store, node.id, FullItem(node, adopted));
    var pending := b.pending - {node.id};
    if !Truthy(node.parent) then Builder(s, pending)
    else
      var p := node.parent.value;
      if p in s.items then
        Builder(Set(s, p, FullItem(s.items[p].item, s.items[p].children + [node.id])), pending)
      else if p in pending then Builder(s, pending[p := pending[p] + [node.id]])
      else Builder(s, pending[p := []])
  }

  /** The working state after the constructor has processed `tree`. */
  function BuildPrefix(tree: seq<Item>): Builder {
    if tree == [] then Builder(Empty(), map[])
    else Step(BuildPrefix(DropLast(tree)), Last(tree))
  }

  /** The store `new TreeStore(tree)` holds; the pending Map is discarded. */
  function Build(tree: seq<Item>): Store {
    BuildPrefix(tree).store
  }

  // ---------------------------------------------------------------------------
  // A description of the result that does not replay the loop.

  /** The id of `node`, as a list, when `node` names `p` as its parent. */
  function Link(node: Item, p: Guid): seq<Guid> {
    if RefersTo(node, p) then [node.id] else []
  }

  /** The ids, in input order, of the nodes of `ns` that name `p` as parent
      (with a truthy parent value). */
  function RefIds(ns: seq<Item>, p: Guid): (r: seq<Guid>)
    ensures |r| <= |ns|
  {
    if ns == [] then [] else RefIds(DropLast(ns), p) + Link(Last(ns), p)
  }

  /** The position of the last node of `ns` whose id is `p`. */
  function LastIndex(ns: seq<Item>, p: Guid): (i: nat)
    requires p in Ids(ns)
    ensures i < |ns| && ns[i].id == p
    ensures forall j :: i < j < |ns| ==> ns[j].id != p
  {
    if Last(ns).id == p then |ns| - 1
    else
      assert Ids(DropLast(ns)) == DropLast(Ids(ns));
      LastIndex(DropLast(ns), p)
  }

  /** Whether the node at LastIndex is the only one with id `p`. */
  predicate OccursOnce(ns: seq<Item>, p: Guid)
    requires p in Ids(ns)
  {
    p !in Ids(ns[..LastIndex(ns, p)])
  }

  /** The children list the constructor leaves for an id `p` of `tree`. With
      `l` its last occurrence: the ids of the nodes from `l` on that name `p`
      (`l` itself when `p` names itself), preceded, when `p` occurs only once,
      by the forward references before `l` minus the first one. When `p` occurs
      more than once, its last occurrence replaces the entry with a fresh
      empty list, and nothing earlier survives. */
  function ExpectedChildren(tree: seq<Item>, p: Guid): seq<Guid>
    requires p in Ids(tree)
  {
    var l := LastIndex(tree, p);
    (if OccursOnce(tree, p) then Tail(RefIds(tree[..l], p)) else []) + RefIds(tree[l..], p)
  }

  /** The working state after `tree`, described without replaying the loop. */
  ghost predicate Describes(tree: seq<Item>, b: Builder) {
    && b.store.order == Dedup(Ids(tree))
    && (forall k :: k in b.store.items <==> k in Ids(tree))
    && (forall k :: k in b.store.items ==>
          b.store.items[k] == FullItem(tree[LastIndex(tree, k)], ExpectedChildren(tree, k)))
    && (forall k :: k in b.pending <==> k !in Ids(tree) && RefIds(tree, k) != [])
    && (forall k :: k in b.pending ==> b.pending[k] == Tail(RefIds(tree, k)))
  }

  /** What one Step does to each entry and each pending list. */
  ghost predicate Stepped(b: Builder, node: Item, b': Builder) {
    StoreStepped(b, node, b') && PendingStepped(b, node, b')
  }

  /** What one Step does to the Map: the node is filed under its id with its
      adopted pending list, and the parent it names gains its id. */
  ghost predicate StoreStepped(b: Builder, node: Item, b': Builder) {
    var q := node.id;
    var adopted := if q in b.pending then b.pending[q] else [];
    && b'.store.order == (if q in b.store.items then b.store.order else b.store.order + [q])
    && (forall k :: k in b'.store.items <==> k in b.store.items || k == q)
    && q in b'.store.items
    && b'.store.items[q] == FullItem(node, adopted + Link(node, q))
    && (forall k :: k in b.store.items && k != q ==>
          b'.store.items[k] == FullItem(b.store.items[k].item, b.store.items[k].children + Link(node, k)))
  }

  /** What one Step does to the pending lists: the node's own list is
      consumed, and a reference to a parent not stored opens or extends one. */
  ghost predicate PendingStepped(b: Builder, node: Item, b': Builder) {
    var q := node.id;
    && (forall k :: k in b'.pending <==>
          k != q && (k in b.pending || (RefersTo(node, k) && k !in b'.store.items)))
    && (forall k :: k in b'.pending ==>
          b'.pending[k] ==
            (if RefersTo(node, k) && k !in b'.store.items
             then (if k in b.pending then b.pending[k] + [q] else [])
             else b.pending[k]))
  }

  lemma StepIsStepped(b: Builder, node: Item)
    ensures Stepped(b, node, Step(b, node))
  {
    var q := node.id;
    var adopted := if q in b.pending then b.pending[q] else [];
    var s := Set(b.store, q, FullItem(node, adopted));
    if !Truthy(node.parent) {
      SteppedNoParent(b, node, s);
    } else if node.parent.value in s.items {
      SteppedStoredParent(b, node, s);
    } else {
      SteppedUnseenParent(b, node, s);
    }
  }

  lemma SteppedNoParent(b: Builder, node: Item, s: Store)
    requires !Truthy(node.parent)
    requires s == Set(b.store, node.id, FullItem(node, if node.id in b.pending then b.pending[node.id] else []))
    ensures Stepped(b, node, Step(b, node))
  {
    assert forall k :: Link(node, k) == [];
  }

  lemma SteppedStoredParent(b: Builder, node: Item, s: Store)
    requires Truthy(node.parent) && node.parent.value in s.items
    requires s == Set(b.store, node.id, FullItem(node, if node.id in b.pending then b.pending[node.id] else []))
    ensures Stepped(b, node, Step(b, node))
  {
    var p, q := node.parent.value, node.id;
    var s' := Set(s, p, FullItem(s.items[p].item, s.items[p].children + [q]));
    assert Step(b, node) == Builder(s', b.pending - {q});
    StoredParentStore(b, node, s, s');
    assert PendingStepped(b, node, Step(b, node));
  }

  lemma StoredParentStore(b: Builder, node: Item, s: Store, s': Store)
    requires Truthy(node.parent) && node.parent.value in s.items
    requires s == Set(b.store, node.id, FullItem(node, if node.id in b.pending then b.pending[node.id] else []))
    requires s' == Set(s, node.parent.value, FullItem(s.items[node.parent.value].item, s.items[node.parent.value].children + [node.id]))
    ensures StoreStepped(b, node, Builder(s', b.pending - {node.id}))
  {
    var p, q := node.parent.value, node.id;
    assert forall k :: k != p ==> Link(node, k) == [];
    assert Link(node, p) == [q];
    if p == q {
      assert s'.items[q] == FullItem(node, s.items[q].children + [q]);
    } else {
      OtherParentStore(b, node, s, s');
    }
  }

  lemma OtherParentStore(b: Builder, node: Item, s: Store, s': Store)
    requires Truthy(node.parent) && node.parent.value in s.items && node.parent.value != node.id
    requires s == Set(b.store, node.id, FullItem(node, if node.id in b.pending then b.pending[node.id] else []))
    requires s' == Set(s, node.parent.value, FullItem(s.items[node.parent.value].item, s.items[node.parent.value].children + [node.id]))
    ensures StoreStepped(b, node, Builder(s', b.pending - {node.id}))
  {
    var p, q := node.parent.value, node.id;
    assert forall k :: k != p ==> Link(node, k) == [];
    assert Link(node, p) == [q];
    assert s'.items[q] == s.items[q];
    assert s'.items[p] == FullItem(b.store.items[p].item, b.store.items[p].children + [q]);
  }

  lemma SteppedUnseenParent(b: Builder, node: Item, s: Store)
    requires Truthy(node.parent) && node.parent.value !in s.items
    requires s == Set(b.store, node.id, FullItem(node, if node.id in b.pending then b.pending[node.id] else []))
    ensures Stepped(b, node, Step(b, node))
  {
    var p := node.parent.value;
    assert forall k :: k != p ==> Link(node, k) == [];
  }

  lemma AppendFacts(tree: seq<Item>, node: Item)
    ensures DropLast(tree + [node]) == tree && Last(tree + [node]) == node
    ensures Ids(tree + [node]) == Ids(tree) + [node.id]
    ensures forall k :: RefIds(tree + [node], k) == RefIds(tree, k) + Link(node, k)
  {
    assert DropLast(tree + [node]) == tree;
  }

  lemma SliceFacts(tree: seq<Item>, node: Item, l: nat)
    requires l <= |tree|
    ensures (tree + [node])[..l] == tree[..l]
    ensures (tree + [node])[l..] == tree[l..] + [node]
    ensures forall k :: RefIds((tree + [node])[l..], k) == RefIds(tree[l..], k) + Link(node, k)
  {
    assert (tree + [node])[l..] == tree[l..] + [node];
    AppendFacts(tree[l..], node);
  }

  /** The entry of the node just processed. */
  lemma {:induction false} StepOwnEntry(tree: seq<Item>, b: Builder, node: Item, b': Builder)
    requires Describes(tree, b) && Stepped(b, node, b')
    ensures node.id in Ids(tree + [node])
    ensures b'.store.items[node.id] == FullItem(node, ExpectedChildren(tree + [node], node.id))
  {
    var t := tree + [node];
    var q := node.id;
    AppendFacts(tree, node);
    SliceFacts(tree, node, |tree|);
    assert t[|tree|..] == [node];
    assert RefIds([node], q) == Link(node, q) by {
      assert DropLast([node]) == [];
    }
    assert LastIndex(t, q) == |tree|;
    var adopted := if q in b.pending then b.pending[q] else [];
    if q in Ids(tree) {
      assert !OccursOnce(t, q);
      assert adopted == [];
    } else {
      assert OccursOnce(t, q);
      assert adopted == Tail(RefIds(tree, q));
    }
  }

  /** Appending a node with another id leaves an id's last occurrence where it
      was and can only extend its expected children. */
  lemma {:induction false} ExpectedChildrenAppend(tree: seq<Item>, node: Item, k: Guid)
    requires k in Ids(tree) && k != node.id
    ensures k in Ids(tree + [node])
    ensures LastIndex(tree + [node], k) == LastIndex(tree, k)
    ensures ExpectedChildren(tree + [node], k) == ExpectedChildren(tree, k) + Link(node, k)
  {
    var t := tree + [node];
    AppendFacts(tree, node);
    var l := LastIndex(tree, k);
    assert LastIndex(t, k) == l;
    SliceFacts(tree, node, l);
    assert OccursOnce(t, k) == OccursOnce(tree, k);
  }

  /** The entries of ids processed earlier. */
  lemma {:induction false} StepOtherEntry(tree: seq<Item>, b: Builder, node: Item, b': Builder, k: Guid)
    requires Describes(tree, b) && Stepped(b, node, b')
    requires k in b.store.items && k != node.id
    ensures k in Ids(tree + [node])
    ensures b'.store.items[k] ==
      FullItem((tree + [node])[LastIndex(tree + [node], k)], ExpectedChildren(tree + [node], k))
  {
    assert k in Ids(tree);
    ExpectedChildrenAppend(tree, node, k);
    var l := LastIndex(tree, k);
    assert b.store.items[k] == FullItem(tree[l], ExpectedChildren(tree, k));
    assert (tree + [node])[l] == tree[l];
  }

  /** The pending list of one id after one more node. */
  lemma {:induction false} StepPendingAt(tree: seq<Item>, b: Builder, node: Item, b': Builder, k: Guid)
    requires Describes(tree, b) && Stepped(b, node, b')
    ensures k in b'.pending <==> k !in Ids(tree + [node]) && RefIds(tree + [node], k) != []
    ensures k in b'.pending ==> b'.pending[k] == Tail(RefIds(tree + [node], k))
  {
    AppendFacts(tree, node);
    var R := RefIds(tree, k);
    var inTree := k in Ids(tree);
    var inNew := k in Ids(tree + [node]);
    assert inNew <==> inTree || k == node.id;
    assert k in b.pending <==> !inTree && R != [];
    assert k in b.pending ==> b.pending[k] == Tail(R);
    assert k in b'.store.items <==> inNew;
    PendingArithmetic(k, node, R, inTree, inNew, b.pending, b'.pending, k in b'.store.items);
  }

  /** The case analysis of StepPendingAt with the facts it needs spelled out. */
  lemma PendingArithmetic(k: Guid, node: Item, R: seq<Guid>, inTree: bool, inNew: bool,
                          before: map<Guid, seq<Guid>>, after: map<Guid, seq<Guid>>, stored: bool)
    requires inNew <==> inTree || k == node.id
    requires stored <==> inNew
    requires k in before <==> !inTree && R != []
    requires k in before ==> before[k] == Tail(R)
    requires k in after <==> k != node.id && (k in before || (RefersTo(node, k) && !stored))
    requires k in after ==>
      after[k] == (if RefersTo(node, k) && !stored
                   then (if k in before then before[k] + [node.id] else [])
                   else before[k])
    ensures k in after <==> !inNew && R + Link(node, k) != []
    ensures k in after ==> after[k] == Tail(R + Link(node, k))
  {
    if k in after && RefersTo(node, k) && !stored && k in before {
      assert Tail(R + [node.id]) == Tail(R) + [node.id];
    }
  }

  /** The pending lists after one more node. */
  lemma {:induction false} StepPending(tree: seq<Item>, b: Builder, node: Item, b': Builder)
    requires Describes(tree, b) && Stepped(b, node, b')
    ensures forall k :: k in b'.pending <==> k !in Ids(tree + [node]) && RefIds(tree + [node], k) != []
    ensures forall k :: k in b'.pending ==> b'.pending[k] == Tail(RefIds(tree + [node], k))
  {
    forall k
      ensures k in b'.pending <==> k !in Ids(tree + [node]) && RefIds(tree + [node], k) != []
      ensures k in b'.pending ==> b'.pending[k] == Tail(RefIds(tree + [node], k))
    {
      StepPendingAt(tree, b, node, b', k);
    }
  }

  /** One step keeps the description true. */
  lemma {:induction false} StepDescribes(tree: seq<Item>, b: Builder, node: Item, b': Builder, t: seq<Item>)
    requires Describes(tree, b) && Stepped(b, node, b') && t == tree + [node]
    ensures Describes(t, b')
  {
    AppendFacts(tree, node);
    assert DropLast(Ids(t)) == Ids(tree);
    assert b'.store.order == Dedup(Ids(t));
    assert forall k :: k in b'.store.items <==> k in Ids(t);
    StepOwnEntry(tree, b, node, b');
    forall k | k in b'.store.items
      ensures b'.store.items[k] == FullItem(t[LastIndex(t, k)], ExpectedChildren(t, k))
    {
      if k != node.id {
        StepOtherEntry(tree, b, node, b', k);
      }
    }
    StepPending(tree, b, node, b');
  }

  /** Before the loop: the empty Map and no pending lists. */
  lemma DescribesStart()
    ensures Describes([], Builder(Empty(), map[]))
  {
  }

  /** The constructor's working state always matches the description. */
  lemma {:induction false} BuildDescribes(tree: seq<Item>)
    ensures Describes(tree, BuildPrefix(tree))
  {
    if tree == [] {
      DescribesStart();
    } else {
      var init, node := DropLast(tree), Last(tree);
      var b := BuildPrefix(init);
      assert tree == init + [node];
      assert BuildPrefix(tree) == Step(b, node);
      BuildDescribes(init);
      StepIsStepped(b, node);
      StepDescribes(init, b, node, Step(b, node), tree);
    }
  }

  // ---------------------------------------------------------------------------
  // What the constructor promises.

  /** After construction every input id is a key and nothing else is, each
      entry is filed under its own id and holds the LAST input node with that
      id (a later duplicate overwrites an earlier one), and the Map enumerates
      ids in order of first appearance. */
  lemma BuildContents(tree: seq<Item>)
    ensures Wf(Build(tree))
    ensures forall k :: k in Build(tree).items <==> k in Ids(tree)
    ensures Build(tree).order == Dedup(Ids(tree))
    ensures forall k :: k in Build(tree).items ==> Build(tree).items[k].item == tree[LastIndex(tree, k)]
  {
    BuildDescribes(tree);
  }

  /** The children list of every id is ExpectedChildren: the constructor's
      forward-reference and duplicate quirks, stated without the loop. */
  lemma BuildChildren(tree: seq<Item>, p: Guid)
    requires p in Ids(tree)
    ensures p in Build(tree).items
    ensures Build(tree).items[p].children == ExpectedChildren(tree, p)
  {
    BuildDescribes(tree);
  }

  /** `getAll` after construction yields exactly one record per distinct input id. */
  lemma {:induction false} BuildGetAllCount(tree: seq<Item>)
    ensures Wf(Build(tree))
    ensures |GetAll(Build(tree))| == |set k | k in Ids(tree)|
  {
    BuildContents(tree);
    var s := Build(tree);
    assert s.items.Keys == set k | k in Ids(tree);
  }

  lemma {:induction false} RefIdsConcat(xs: seq<Item>, ys: seq<Item>, p: Guid)
    ensures RefIds(xs + ys, p) == RefIds(xs, p) + RefIds(ys, p)
  {
    if ys != [] {
      assert DropLast(xs + ys) == xs + DropLast(ys);
      RefIdsConcat(xs, DropLast(ys), p);
    } else {
      assert xs + ys == xs;
    }
  }

  lemma {:induction false} RefIdsNone(ns: seq<Item>, p: Guid)
    requires forall i :: 0 <= i < |ns| ==> !RefersTo(ns[i], p)
    ensures RefIds(ns, p) == []
  {
    if ns != [] {
      RefIdsNone(DropLast(ns), p);
    }
  }

  /** When a parent occurs once and no node before it names it, its children
      are the ids of the nodes that name it, in input order. */
  lemma {:induction false} ChildrenInInputOrder(tree: seq<Item>, p: Guid)
    requires p in Ids(tree) && OccursOnce(tree, p)
    requires forall i :: 0 <= i < LastIndex(tree, p) ==> !RefersTo(tree[i], p)
    ensures p in Build(tree).items
    ensures Build(tree).items[p].children == RefIds(tree, p)
  {
    var l := LastIndex(tree, p);
    assert tree == tree[..l] + tree[l..];
    RefIdsConcat(tree[..l], tree[l..], p);
    RefIdsNone(tree[..l], p);
    assert ExpectedChildren(tree, p) == RefIds(tree[l..], p);
    BuildChildren(tree, p);
  }

  /** A node whose parent is `null`, `0` or `""` touches no other entry and no
      other pending list. */
  lemma StepWithoutParent(b: Builder, node: Item)
    requires !Truthy(node.parent)
    ensures forall k :: k in Step(b, node).store.items <==> k in b.store.items || k == node.id
    ensures forall k :: k in b.store.items && k != node.id ==>
      Step(b, node).store.items[k] == b.store.items[k]
    ensures Step(b, node).pending == b.pending - {node.id}
  {
  }

  /** A node naming itself as parent is already stored when its parent is
      looked up, so its own id is appended to its children. */
  lemma SelfParentIsOwnChild(tree: seq<Item>, node: Item)
    requires RefersTo(node, node.id)
    ensures node.id in Build(tree + [node]).items
    ensures node.id in Build(tree + [node]).items[node.id].children
  {
    assert DropLast(tree + [node]) == tree && Last(tree + [node]) == node;
  }

  /** The forward-reference quirk on the smallest input: two children `a` and
      `b` name a parent `c` that comes after them; the first reference only
      opens an empty pending list, so `c` ends up with `b` alone. */
  lemma FirstForwardChildDropped(a: Item, b: Item, c: Item)
    requires a.id != c.id && b.id != c.id && a.id != b.id
    requires RefersTo(a, c.id) && RefersTo(b, c.id) && !Truthy(c.parent)
    ensures Build([a, b, c]).items[c.id].children == [b.id]
  {
    var s0 := BuildPrefix([]);
    assert DropLast([a]) == [] && DropLast([a, b]) == [a] && DropLast([a, b, c]) == [a, b];
    var s1 := Step(s0, a);
    assert BuildPrefix([a]) == s1;
    assert s1.pending == map[c.id := []];
    var s2 := Step(s1, b);
    assert BuildPrefix([a, b]) == s2;
    assert s2.pending[c.id] == [b.id];
    var s3 := Step(s2, c);
    assert BuildPrefix([a, b, c]) == s3;
    assert s3.store.items[c.id].children == [b.id];
  }
}
