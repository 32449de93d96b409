/** The traversals of TreeStore. In the source both are placeholders that return
    their argument (src/lib/TreeStore.ts:59-64, 69-71); what is modelled here is
    the behaviour their doc-comments (src/lib/TreeStore.ts:65-68, 71-74) and the
    tests (src/test/TreeStore.test.ts:41-49) state: per doc-comment/test.

    Both walk a relation that the store does not keep acyclic, so each carries
    the set of ids not yet on the current path (`rest`) as its termination
    measure; an id met again is not expanded. Under the acyclicity predicates
    below that never happens, and the lemmas prove the walks complete. */
module TreeTraversal {
  import opened TreeItems
  import opened SeqExtras
  import opened ItemMap

  // ---------------------------------------------------------------------------
  // Descendants, following the stored children lists.

  /** `b` is a stored child of the stored item `a`. */
  ghost predicate ChildEdge(s: Store, a: Guid, b: Guid) {
    a in s.items && b in s.items && b in s.items[a].children
  }

  /** `d` is reached from `a` by `n + 1` child edges. */
  ghost predicate ReachesIn(s: Store, a: Guid, d: Guid, n: nat)
    decreases n
  {
    if n == 0 then ChildEdge(s, a, d)
    else exists c :: ChildEdge(s, a, c) && ReachesIn(s, c, d, n - 1)
  }

  /** `d` lies in the subtree below `a`, at any depth. */
  ghost predicate IsDescendant(s: Store, a: Guid, d: Guid) {
    exists n: nat :: ReachesIn(s, a, d, n)
  }

  /** No item lies below itself. */
  ghost predicate ChildAcyclic(s: Store) {
    forall k :: !IsDescendant(s, k, k)
  }

  /** The items below `x`, depth first, each child followed by its own subtree. */
  function Desc(s: Store, x: Guid, rest: set<Guid>): seq<Item>
    decreases rest, 0
  {
    if x in rest && x in s.items then DescList(s, s.items[x].children, rest - {x}) else []
  }

  /** The children of `cs` that resolve, each followed by its own subtree. */
  function DescList(s: Store, cs: seq<Guid>, rest: set<Guid>): seq<Item>
    decreases rest, |cs|
  {
    if cs == [] then []
    else
      (if cs[0] in rest && cs[0] in s.items then [s.items[cs[0]].item] + Desc(s, cs[0], rest) else [])
      + DescList(s, cs[1..], rest)
  }

  /** Intended `getAllChildren` (per doc-comment/test): every item below `id`
      at all depths, `[]` for an unknown id. */
  function GetAllChildren(s: Store, id: Guid): (r: seq<Item>)
    ensures id !in s.items ==> r == []
  {
    Desc(s, id, s.items.Keys)
  }

  lemma {:induction false} ChildThenDescendant(s: Store, x: Guid, c: Guid, y: Guid)
    requires ChildEdge(s, x, c) && IsDescendant(s, c, y)
    ensures IsDescendant(s, x, y)
  {
    var n: nat :| ReachesIn(s, c, y, n);
    assert ReachesIn(s, x, y, n + 1);
  }

  lemma {:induction false} DescendantIsStored(s: Store, a: Guid, d: Guid, n: nat)
    requires ReachesIn(s, a, d, n)
    ensures a in s.items && d in s.items
    decreases n
  {
    if n > 0 {
      var c :| ChildEdge(s, a, c) && ReachesIn(s, c, d, n - 1);
      DescendantIsStored(s, c, d, n - 1);
    }
  }

  /** Everything the walk from `x` yields is a stored item below `x`. */
  lemma {:induction false} DescSound(s: Store, x: Guid, rest: set<Guid>)
    requires Wf(s)
    ensures forall it :: it in Desc(s, x, rest) ==>
      it.id in s.items && s.items[it.id].item == it && IsDescendant(s, x, it.id)
    decreases rest, 0
  {
    if x in rest && x in s.items {
      var cs := s.items[x].children;
      DescListSound(s, cs, rest - {x});
      forall it | it in Desc(s, x, rest)
        ensures IsDescendant(s, x, it.id)
      {
        var c :| c in cs && c in s.items && (it.id == c || IsDescendant(s, c, it.id));
        assert ChildEdge(s, x, c);
        if it.id == c {
          assert ReachesIn(s, x, c, 0);
        } else {
          ChildThenDescendant(s, x, c, it.id);
        }
      }
    }
  }

  /** Everything the walk over `cs` yields is a stored item of `cs` or below one. */
  lemma {:induction false} DescListSound(s: Store, cs: seq<Guid>, rest: set<Guid>)
    requires Wf(s)
    ensures forall it :: it in DescList(s, cs, rest) ==>
      it.id in s.items && s.items[it.id].item == it &&
      exists c :: c in cs && c in s.items && (it.id == c || IsDescendant(s, c, it.id))
    decreases rest, |cs|
  {
    if cs != [] {
      DescListSound(s, cs[1..], rest);
      if cs[0] in rest && cs[0] in s.items {
        DescSound(s, cs[0], rest);
      }
      forall it | it in DescList(s, cs, rest)
        ensures it.id in s.items && s.items[it.id].item == it
        ensures exists c :: c in cs && c in s.items && (it.id == c || IsDescendant(s, c, it.id))
      {
        if it in DescList(s, cs[1..], rest) {
          var c :| c in cs[1..] && c in s.items && (it.id == c || IsDescendant(s, c, it.id));
          assert c in cs;
        } else {
          assert cs[0] in cs;
        }
      }
    }
  }

  /** Every item of `x`'s own walk shows up in the walk over a list holding `x`. */
  lemma {:induction false} DescListContains(s: Store, cs: seq<Guid>, rest: set<Guid>, c: Guid)
    requires c in cs && c in rest && c in s.items
    ensures s.items[c].item in DescList(s, cs, rest)
    ensures forall it :: it in Desc(s, c, rest) ==> it in DescList(s, cs, rest)
    decreases |cs|
  {
    if cs[0] != c {
      DescListContains(s, cs[1..], rest, c);
    }
  }

  /** Every id below `x` (and `x` itself) is still available to the walk. */
  ghost predicate Covers(s: Store, x: Guid, rest: set<Guid>) {
    forall y :: (y == x || IsDescendant(s, x, y)) && y in s.items ==> y in rest
  }

  /** With no cycle below `x`, the walk from `x` misses nothing. */
  lemma {:induction false} DescComplete(s: Store, x: Guid, rest: set<Guid>, d: Guid, n: nat)
    requires ChildAcyclic(s) && Covers(s, x, rest) && ReachesIn(s, x, d, n)
    ensures d in s.items && s.items[d].item in Desc(s, x, rest)
    decreases n
  {
    DescendantIsStored(s, x, d, n);
    var cs := s.items[x].children;
    var rest' := rest - {x};
    assert !IsDescendant(s, x, x);
    if n == 0 {
      assert IsDescendant(s, x, d);
      DescListContains(s, cs, rest', d);
    } else {
      var c :| ChildEdge(s, x, c) && ReachesIn(s, c, d, n - 1);
      assert ReachesIn(s, x, c, 0);
      assert IsDescendant(s, x, c);
      forall y | (y == c || IsDescendant(s, c, y)) && y in s.items
        ensures y in rest'
      {
        if y != c {
          ChildThenDescendant(s, x, c, y);
        }
      }
      DescComplete(s, c, rest', d, n - 1);
      DescListContains(s, cs, rest', c);
    }
  }

  /** `getAllChildren` returns stored items, each strictly below `id`. */
  lemma GetAllChildrenSound(s: Store, id: Guid)
    requires Wf(s)
    ensures forall it :: it in GetAllChildren(s, id) ==>
      it.id in s.items && s.items[it.id].item == it && IsDescendant(s, id, it.id)
  {
    DescSound(s, id, s.items.Keys);
  }

  /** On an acyclic store, `getAllChildren(id)` yields exactly the items below
      `id`, at every depth, and never `id` itself. */
  lemma {:induction false} GetAllChildrenExact(s: Store, id: Guid)
    requires Wf(s) && ChildAcyclic(s)
    ensures forall d :: d in Ids(GetAllChildren(s, id)) <==> IsDescendant(s, id, d)
    ensures id !in Ids(GetAllChildren(s, id))
  {
    var r := GetAllChildren(s, id);
    GetAllChildrenSound(s, id);
    forall d
      ensures d in Ids(r) <==> IsDescendant(s, id, d)
    {
      if IsDescendant(s, id, d) {
        var n: nat :| ReachesIn(s, id, d, n);
        DescComplete(s, id, s.items.Keys, d, n);
        var i :| 0 <= i < |r| && r[i] == s.items[d].item;
        assert Ids(r)[i] == d;
      }
      if d in Ids(r) {
        var i :| 0 <= i < |r| && Ids(r)[i] == d;
        assert r[i] in r;
      }
    }
    assert !IsDescendant(s, id, id);
  }

  // ---------------------------------------------------------------------------
  // Ancestors, following the `parent` fields.

  /** The parent of `a` when `a` is stored and its parent value is truthy and
      names a stored item. */
  function ParentOf(s: Store, a: Guid): (r: Option<Guid>)
    ensures r.Some? ==> a in s.items && r.value in s.items
    ensures r.Some? ==> RefersTo(s.items[a].item, r.value)
    ensures r.None? ==>
      a !in s.items || !Truthy(s.items[a].item.parent) || s.items[a].item.parent.value !in s.items
  {
    if a in s.items && Truthy(s.items[a].item.parent) && s.items[a].item.parent.value in s.items
    then Some(s.items[a].item.parent.value)
    else None
  }

  /** `b` is reached from `a` by `n + 1` parent steps. */
  ghost predicate AncestorIn(s: Store, a: Guid, b: Guid, n: nat)
    decreases n
  {
    ParentOf(s, a).Some? &&
    (if n == 0 then ParentOf(s, a).value == b else AncestorIn(s, ParentOf(s, a).value, b, n - 1))
  }

  ghost predicate IsAncestor(s: Store, a: Guid, b: Guid) {
    exists n: nat :: AncestorIn(s, a, b, n)
  }

  /** No item is its own ancestor. */
  ghost predicate ParentAcyclic(s: Store) {
    forall k :: !IsAncestor(s, k, k)
  }

  /** The item `x` followed by its ancestors, nearest first. */
  function Chain(s: Store, x: Guid, rest: set<Guid>): seq<Item>
    decreases rest
  {
    if x in rest && x in s.items then
      [s.items[x].item] +
      match ParentOf(s, x)
      case None => []
      case Some(p) => Chain(s, p, rest - {x})
    else []
  }

  /** Intended `getAllParents` (per doc-comment/test): the item itself and
      then each parent in turn up to the root; `[]` for an unknown id. */
  function GetAllParents(s: Store, id: Guid): seq<Item> {
    Chain(s, id, s.items.Keys)
  }

  /** The chain starts at `x`, holds stored items with distinct ids, and each
      next element is the parent of the one before. */
  lemma {:induction false} ChainShape(s: Store, x: Guid, rest: set<Guid>)
    requires Wf(s)
    ensures Chain(s, x, rest) == [] <==> x !in rest || x !in s.items
    ensures Chain(s, x, rest) != [] ==> Chain(s, x, rest)[0] == s.items[x].item
    ensures forall it :: it in Chain(s, x, rest) ==>
      it.id in rest && it.id in s.items && s.items[it.id].item == it
    ensures forall i :: 0 <= i < |Chain(s, x, rest)| - 1 ==>
      ParentOf(s, Chain(s, x, rest)[i].id) == Some(Chain(s, x, rest)[i + 1].id)
    ensures Distinct(Ids(Chain(s, x, rest)))
    decreases rest
  {
    var r := Chain(s, x, rest);
    if x in rest && x in s.items {
      match ParentOf(s, x)
      case None =>
        assert r == [s.items[x].item];
      case Some(p) =>
        var tail := Chain(s, p, rest - {x});
        ChainShape(s, p, rest - {x});
        assert r == [s.items[x].item] + tail;
        if tail != [] {
          assert r[1] == tail[0];
        } else {
          assert p !in rest - {x};
        }
        ConsDistinct(s.items[x].item, tail);
    }
  }

  /** Putting an item in front of items with other, distinct ids keeps the
      ids distinct. */
  lemma ConsDistinct(it: Item, tail: seq<Item>)
    requires Distinct(Ids(tail))
    requires forall t :: t in tail ==> t.id != it.id
    ensures Distinct(Ids([it] + tail))
  {
    var r := [it] + tail;
    forall i, j | 0 <= i < j < |r|
      ensures Ids(r)[i] != Ids(r)[j]
    {
      assert r[j] in tail;
      if i > 0 {
        assert Ids(tail)[i - 1] == Ids(r)[i] && Ids(tail)[j - 1] == Ids(r)[j];
      }
    }
  }

  lemma {:induction false} ParentThenAncestor(s: Store, x: Guid, y: Guid)
    requires ParentOf(s, x).Some? && IsAncestor(s, ParentOf(s, x).value, y)
    ensures IsAncestor(s, x, y)
  {
    var n: nat :| AncestorIn(s, ParentOf(s, x).value, y, n);
    assert AncestorIn(s, x, y, n + 1);
  }

  /** With no parent cycle, the chain from `x` ends at an item whose parent
      is falsy or does not resolve: the root of `x`'s path. */
  lemma {:induction false} ChainReachesRoot(s: Store, x: Guid, rest: set<Guid>)
    requires Wf(s) && ParentAcyclic(s) && x in s.items
    requires forall y :: (y == x || IsAncestor(s, x, y)) ==> y in rest
    ensures Chain(s, x, rest) != []
    ensures ParentOf(s, Last(Chain(s, x, rest)).id) == None
    decreases rest
  {
    ChainShape(s, x, rest);
    assert x in rest;
    match ParentOf(s, x)
    case None =>
    case Some(p) =>
      assert AncestorIn(s, x, p, 0);
      assert !IsAncestor(s, x, x);
      forall y | y == p || IsAncestor(s, p, y)
        ensures y in rest - {x}
      {
        if y != p {
          ParentThenAncestor(s, x, y);
        }
      }
      ChainReachesRoot(s, p, rest - {x});
      var tail := Chain(s, p, rest - {x});
      assert Chain(s, x, rest) == [s.items[x].item] + tail;
      assert Last(Chain(s, x, rest)) == Last(tail);
  }

  /** `getAllParents(id)`: empty exactly for an unknown id; otherwise it starts
      with the item itself, each next element is the previous one's parent,
      no item repeats, and on a store without parent cycles it stops at the
      root (an item whose parent is `null`, `0`, `""` or unresolved). */
  lemma GetAllParentsSpec(s: Store, id: Guid)
    requires Wf(s)
    ensures GetAllParents(s, id) == [] <==> id !in s.items
    ensures GetAllParents(s, id) != [] ==> GetAllParents(s, id)[0] == s.items[id].item
    ensures forall it :: it in GetAllParents(s, id) ==> it.id in s.items && s.items[it.id].item == it
    ensures forall i :: 0 <= i < |GetAllParents(s, id)| - 1 ==>
      ParentOf(s, GetAllParents(s, id)[i].id) == Some(GetAllParents(s, id)[i + 1].id)
    ensures Distinct(Ids(GetAllParents(s, id)))
    ensures ParentAcyclic(s) && id in s.items ==>
      ParentOf(s, Last(GetAllParents(s, id)).id) == None
  {
    ChainShape(s, id, s.items.Keys);
    if ParentAcyclic(s) && id in s.items {
      forall y | y == id || IsAncestor(s, id, y)
        ensures y in s.items.Keys
      {
        if y != id {
          var n: nat :| AncestorIn(s, id, y, n);
          AncestorIsStored(s, id, y, n);
        }
      }
      ChainReachesRoot(s, id, s.items.Keys);
    }
  }

  lemma {:induction false} AncestorIsStored(s: Store, a: Guid, b: Guid, n: nat)
    requires AncestorIn(s, a, b, n)
    ensures b in s.items
    decreases n
  {
    if n > 0 {
      AncestorIsStored(s, ParentOf(s, a).value, b, n - 1);
    }
  }
}
