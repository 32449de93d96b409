/** Sequence helpers shared by the tree store model. */
module SeqExtras {

  /** No element occurs twice. */
  ghost predicate Distinct<T>(xs: seq<T>) {
    forall i, j :: 0 <= i < j < |xs| ==> xs[i] != xs[j]
  }

  /** The last element of a non-empty sequence. */
  function Last<T>(xs: seq<T>): T
    requires xs != []
  {
    xs[|xs| - 1]
  }

  /** All but the last element of a non-empty sequence. */
  function DropLast<T>(xs: seq<T>): seq<T>
    requires xs != []
  {
    xs[..|xs| - 1]
  }

  /** `xs` without its first element; empty stays empty. */
  function Tail<T>(xs: seq<T>): seq<T> {
    if xs == [] then [] else xs[1..]
  }

  /** `xs` with every occurrence of `x` dropped, the rest in order
      (the shape of `children.filter(c => c !== x)`). */
  function Without<T(==,!new)>(xs: seq<T>, x: T): (r: seq<T>)
    ensures forall y :: y in r <==> y in xs && y != x
    ensures |r| <= |xs|
    ensures x !in xs ==> r == xs
    ensures Distinct(xs) ==> Distinct(r)
  {
    if xs == [] then []
    else
      var init := Without(DropLast(xs), x);
      assert xs == DropLast(xs) + [Last(xs)];
      assert Distinct(xs) ==> Distinct(DropLast(xs)) && Last(xs) !in DropLast(xs);
      if Last(xs) == x then init else init + [Last(xs)]
  }

  /** Filtering distributes over concatenation: what is kept from `a + b` is
      what is kept from `a` followed by what is kept from `b`, so the kept
      elements stay in their original order. */
  lemma {:induction false} WithoutConcat<T(!new)>(a: seq<T>, b: seq<T>, x: T)
    ensures Without(a + b, x) == Without(a, x) + Without(b, x)
    decreases |b|
  {
    if b == [] {
      assert a + b == a;
    } else {
      assert a + b == (a + DropLast(b)) + [Last(b)];
      assert DropLast(a + b) == a + DropLast(b) && Last(a + b) == Last(b);
      WithoutConcat(a, DropLast(b), x);
    }
  }

  /** In a duplicate-free sequence, filtering out a present element cuts out
      exactly its one position and leaves the others where they were. */
  lemma WithoutCutsOne<T(!new)>(xs: seq<T>, x: T)
    requires Distinct(xs) && x in xs
    ensures exists i :: 0 <= i < |xs| && xs[i] == x && Without(xs, x) == xs[..i] + xs[i + 1..]
  {
    var i :| 0 <= i < |xs| && xs[i] == x;
    assert xs == xs[..i] + [x] + xs[i + 1..];
    assert x !in xs[..i] && x !in xs[i + 1..];
    WithoutConcat(xs[..i] + [x], xs[i + 1..], x);
    WithoutConcat(xs[..i], [x], x);
    assert Without([x], x) == [];
  }

  /** The elements of `xs` not listed in `ks`, in their order in `xs`. */
  function Exclude<T(==,!new)>(xs: seq<T>, ks: seq<T>): (r: seq<T>)
    ensures forall y :: y in r <==> y in xs && y !in ks
    ensures Distinct(xs) ==> Distinct(r)
  {
    if xs == [] then []
    else
      assert xs == DropLast(xs) + [Last(xs)];
      assert Distinct(xs) ==> Distinct(DropLast(xs)) && Last(xs) !in DropLast(xs);
      Exclude(DropLast(xs), ks) + if Last(xs) in ks then [] else [Last(xs)]
  }

  /** Filtering out one more value after `Exclude` is excluding it too. */
  lemma {:induction false} ExcludeThenWithout<T(!new)>(xs: seq<T>, ks: seq<T>, k: T)
    ensures Without(Exclude(xs, ks), k) == Exclude(xs, ks + [k])
  {
    if xs != [] {
      ExcludeThenWithout(DropLast(xs), ks, k);
      var last := if Last(xs) in ks then [] else [Last(xs)];
      WithoutConcat(Exclude(DropLast(xs), ks), last, k);
    }
  }

  /** Excluding an empty list keeps everything. */
  lemma {:induction false} ExcludeNothing<T(!new)>(xs: seq<T>, ks: seq<T>)
    requires ks == []
    ensures Exclude(xs, ks) == xs
  {
    if xs != [] {
      ExcludeNothing(DropLast(xs), ks);
      assert xs == DropLast(xs) + [Last(xs)];
    }
  }

  /** The elements of `xs` in order of first occurrence, each once. */
  function Dedup<T(==,!new)>(xs: seq<T>): (r: seq<T>)
    ensures Distinct(r)
    ensures forall y :: y in r <==> y in xs
  {
    if xs == [] then []
    else
      var d := Dedup(DropLast(xs));
      assert xs == DropLast(xs) + [Last(xs)];
      if Last(xs) in d then d else d + [Last(xs)]
  }

  /** A duplicate-free sequence has as many elements as the set of its elements. */
  lemma {:induction false} DistinctCardinality<T>(xs: seq<T>)
    requires Distinct(xs)
    ensures |set y | y in xs| == |xs|
  {
    if xs != [] {
      var init := DropLast(xs);
      assert Distinct(init);
      DistinctCardinality(init);
      assert xs == init + [Last(xs)];
      assert (set y | y in xs) == (set y | y in init) + {Last(xs)};
      assert Last(xs) !in (set y | y in init);
    }
  }
}
