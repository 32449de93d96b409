/** The five-item tree of src/test/TreeStore.test.ts:5-11 and what each test
    of that file (lines 20-66) expects of it, stated about the model. */
module Fixture {
  import opened TreeItems
  import opened SeqExtras
  import opened ItemMap
  import opened TreeReads
  import opened TreeBuild
  import opened TreeTraversal
  import TreeMutation

  function Named(id: int, parent: Option<Guid>, name: string): Item {
    Item(Num(id), parent, map["name" := name])
  }

  const Root := Named(1, None, "root")
  const Child1 := Named(2, Some(Num(1)), "child 1")
  const Child2 := Named(3, Some(Num(1)), "child 2")
  const Child11 := Named(4, Some(Num(2)), "child 1.1")
  const Child12 := Named(5, Some(Num(2)), "child 1.2")

  const Tree := [Root, Child1, Child2, Child11, Child12]

  /** The constructor's working state after each of the first `n` items:
      the Map so far and no pending lists (every parent precedes its
      children in the fixture). */
  function After(n: nat): Builder
    requires 1 <= n <= 5
  {
    match n
    case 1 => Builder(Store(map[Num(1) := FullItem(Root, [])], [Num(1)]), map[])
    case 2 => Builder(Store(map[Num(1) := FullItem(Root, [Num(2)]), Num(2) := FullItem(Child1, [])],
                            [Num(1), Num(2)]), map[])
    case 3 => Builder(Store(map[Num(1) := FullItem(Root, [Num(2), Num(3)]), Num(2) := FullItem(Child1, []),
                                Num(3) := FullItem(Child2, [])],
                            [Num(1), Num(2), Num(3)]), map[])
    case 4 => Builder(Store(map[Num(1) := FullItem(Root, [Num(2), Num(3)]), Num(2) := FullItem(Child1, [Num(4)]),
                                Num(3) := FullItem(Child2, []), Num(4) := FullItem(Child11, [])],
                            [Num(1), Num(2), Num(3), Num(4)]), map[])
    case _ => Builder(Store(map[Num(1) := FullItem(Root, [Num(2), Num(3)]), Num(2) := FullItem(Child1, [Num(4), Num(5)]),
                                Num(3) := FullItem(Child2, []), Num(4) := FullItem(Child11, []),
                                Num(5) := FullItem(Child12, [])],
                            [Num(1), Num(2), Num(3), Num(4), Num(5)]), map[])
  }

  lemma Step1()
    ensures Step(Builder(Empty(), map[]), Root) == After(1)
  {
  }

  lemma Step2()
    ensures Step(After(1), Child1) == After(2)
  {
    assert [] + [Num(2)] == [Num(2)];
    assert Step(After(1), Child1).store.items == After(2).store.items;
  }

  lemma Step3()
    ensures Step(After(2), Child2) == After(3)
  {
    assert [Num(2)] + [Num(3)] == [Num(2), Num(3)];
    assert Step(After(2), Child2).store.items == After(3).store.items;
  }

  lemma Step4()
    ensures Step(After(3), Child11) == After(4)
  {
    assert [] + [Num(4)] == [Num(4)];
    assert Step(After(3), Child11).store.items == After(4).store.items;
  }

  lemma Step5()
    ensures Step(After(4), Child12) == After(5)
  {
    assert [Num(4)] + [Num(5)] == [Num(4), Num(5)];
    assert Step(After(4), Child12).store.items == After(5).store.items;
  }

  /** The store the constructor builds from the fixture: every item under
      its id, in input order, children attached in input order. */
  lemma {:induction false} FixtureBuilt()
    ensures Build(Tree) == After(5).store
  {
    Step1(); Step2(); Step3(); Step4(); Step5();
    var t1, t2, t3, t4 := [Root], [Root, Child1], [Root, Child1, Child2], [Root, Child1, Child2, Child11];
    assert DropLast(t1) == [] && DropLast(t2) == t1 && DropLast(t3) == t2;
    assert DropLast(t4) == t3 && DropLast(Tree) == t4;
    assert BuildPrefix(t1) == After(1);
    assert BuildPrefix(t2) == After(2);
    assert BuildPrefix(t3) == After(3);
    assert BuildPrefix(t4) == After(4);
  }

  /** "should return all items with getAll" (src/test/TreeStore.test.ts:20-24):
      five items, among them item 1, named "root". */
  lemma FixtureGetAll()
    ensures Wf(Build(Tree))
    ensures |GetAll(Build(Tree))| == 5
    ensures Root in GetAll(Build(Tree))
  {
    FixtureBuilt();
    BuiltWf();
    assert After(5).store.items[Num(1)].item == Root;
  }

  lemma BuiltWf()
    ensures Wf(After(5).store)
  {
    var s := After(5).store;
    assert s.items.Keys == {Num(1), Num(2), Num(3), Num(4), Num(5)};
    assert forall k :: k in s.items <==> k in s.order;
    assert Distinct(s.order);
  }

  /** "should return a specific item with getItem" (src/test/TreeStore.test.ts:26-29). */
  lemma FixtureGetItem()
    ensures GetItem(Build(Tree), Num(2)) == Some(Child1)
  {
    FixtureBuilt();
  }

  /** "should return children ids" and "should return children items"
      (src/test/TreeStore.test.ts:31-39). */
  lemma FixtureChildren()
    ensures GetChildrenArray(Build(Tree), Num(2)) == Some([Num(4), Num(5)])
    ensures GetChildren(Build(Tree), Num(2)) == [Some(Child11), Some(Child12)]
  {
    FixtureBuilt();
    var r := GetChildren(Build(Tree), Num(2));
    assert |r| == 2 && r[0] == Some(Child11) && r[1] == Some(Child12);
  }

  /** The walk below 2 in the built fixture: its two leaves, in order. */
  lemma {:induction false} BelowChild1(rest: set<Guid>)
    requires Num(4) in rest && Num(5) in rest
    ensures Desc(After(5).store, Num(2), rest + {Num(2)}) == [Child11, Child12]
  {
    var s := After(5).store;
    var r := rest + {Num(2)} - {Num(2)};
    assert Num(4) in r && Num(5) in r;
    assert Desc(s, Num(4), r) == DescList(s, [], r - {Num(4)}) == [];
    assert Desc(s, Num(5), r) == DescList(s, [], r - {Num(5)}) == [];
    assert [Num(4), Num(5)][1..] == [Num(5)] && [Num(5)][1..] == [];
    assert DescList(s, [Num(5)], r) == [Child12] + [] + [];
    assert DescList(s, [Num(4), Num(5)], r) == [Child11] + [] + [Child12];
  }

  /** "should return all children recursively" (src/test/TreeStore.test.ts:41-44):
      the subtree in depth-first order, which sorts to [2, 3, 4, 5]. */
  lemma {:induction false} FixtureAllChildren()
    ensures GetAllChildren(Build(Tree), Num(1)) == [Child1, Child11, Child12, Child2]
  {
    FixtureBuilt();
    var s := After(5).store;
    var r1 := s.items.Keys - {Num(1)};
    assert r1 == {Num(2), Num(3), Num(4), Num(5)};
    BelowChild1(r1 - {Num(2)});
    assert r1 - {Num(2)} + {Num(2)} == r1;
    assert Desc(s, Num(3), r1) == DescList(s, [], r1 - {Num(3)}) == [];
    assert [Num(2), Num(3)][1..] == [Num(3)] && [Num(3)][1..] == [];
    assert DescList(s, [Num(3)], r1) == [Child2] + [] + [];
    assert DescList(s, [Num(2), Num(3)], r1) == [Child1] + [Child11, Child12] + [Child2];
  }

  /** "should return all parents up to root" (src/test/TreeStore.test.ts:46-49). */
  lemma {:induction false} FixtureAllParents()
    ensures GetAllParents(Build(Tree), Num(5)) == [Child12, Child1, Root]
  {
    FixtureBuilt();
    var s := After(5).store;
    var all := s.items.Keys;
    assert ParentOf(s, Num(5)) == Some(Num(2));
    assert ParentOf(s, Num(2)) == Some(Num(1));
    assert ParentOf(s, Num(1)) == None;
    assert Num(1) in all - {Num(5)} - {Num(2)};
    assert Chain(s, Num(1), all - {Num(5)} - {Num(2)}) == [Root];
    assert Chain(s, Num(2), all - {Num(5)}) == [Child1, Root];
  }

  const NewChild := Named(6, Some(Num(3)), "new child")

  /** "should add a new item" (src/test/TreeStore.test.ts:51-54). */
  lemma FixtureAdd()
    ensures GetChildren(TreeMutation.AddItem(Build(Tree), NewChild), Num(3)) == [Some(NewChild)]
  {
    FixtureBuilt();
    var r := GetChildren(TreeMutation.AddItem(Build(Tree), NewChild), Num(3));
    assert |r| == 1 && r[0] == Some(NewChild);
  }

  /** "should update an existing item" (src/test/TreeStore.test.ts:56-59). */
  lemma FixtureUpdate()
    ensures GetItem(TreeMutation.UpdateItem(Build(Tree), Named(3, Some(Num(1)), "updated")), Num(3))
      == Some(Named(3, Some(Num(1)), "updated"))
  {
    FixtureBuilt();
  }

  /** "should remove an item and its children" (src/test/TreeStore.test.ts:61-66). */
  lemma {:induction false} FixtureRemove()
    ensures GetItem(TreeMutation.RemoveItem(Build(Tree), Num(2)), Num(2)) == None
    ensures GetItem(TreeMutation.RemoveItem(Build(Tree), Num(2)), Num(4)) == None
    ensures GetItem(TreeMutation.RemoveItem(Build(Tree), Num(2)), Num(5)) == None
  {
    FixtureBuilt();
    var s := After(5).store;
    var r1 := s.items.Keys - {Num(2)};
    BelowChild1(r1);
    assert r1 + {Num(2)} == s.items.Keys;
    assert TreeMutation.Doomed(s, Num(2)) == [Num(2), Num(4), Num(5)];
  }
}
