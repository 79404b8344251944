/** Python list and set operations that the models share. */
module Lists {

  datatype Option<+T> = None | Some(value: T)

  lemma SomeElement<T>(s: set<T>) returns (x: T)
    requires s != {}
    ensures x in s
  {
    x :| x in s;
  }

  predicate NoDuplicates<T(==)>(xs: seq<T>) {
    forall i, j :: 0 <= i < j < |xs| ==> xs[i] != xs[j]
  }

  predicate Ascending(xs: seq<int>) {
    forall i, j :: 0 <= i < j < |xs| ==> xs[i] <= xs[j]
  }

  predicate StrictlyAscending(xs: seq<int>) {
    forall i, j :: 0 <= i < j < |xs| ==> xs[i] < xs[j]
  }

  /** `[x for x in xs if x in keep]`. */
  function Filter(xs: seq<int>, keep: int -> bool): (r: seq<int>)
    ensures forall x :: x in r <==> x in xs && keep(x)
  {
    if xs == [] then []
    else
      var rest := Filter(xs[..|xs| - 1], keep);
      assert xs == xs[..|xs| - 1] + [xs[|xs| - 1]];
      if keep(xs[|xs| - 1]) then rest + [xs[|xs| - 1]] else rest
  }

  lemma {:induction false} FilterNoDuplicates(xs: seq<int>, keep: int -> bool)
    requires NoDuplicates(xs)
    ensures NoDuplicates(Filter(xs, keep))
  {
    if xs != [] { FilterNoDuplicates(xs[..|xs| - 1], keep); }
  }

  /** A filter that keeps the same elements gives the same list. */
  lemma {:induction false} FilterAgree(xs: seq<int>, keep: int -> bool, keep': int -> bool)
    requires forall x :: x in xs ==> keep(x) == keep'(x)
    ensures Filter(xs, keep) == Filter(xs, keep')
  {
    if xs != [] {
      FilterAgree(xs[..|xs| - 1], keep, keep');
      var y := xs[|xs| - 1];
      assert y in xs && keep(y) == keep'(y);
    }
  }

  /** How many of the first `n` elements are kept. */
  function Kept(xs: seq<int>, keep: int -> bool, n: nat): nat
    requires n <= |xs|
  {
    if n == 0 then 0 else Kept(xs, keep, n - 1) + (if keep(xs[n - 1]) then 1 else 0)
  }

  lemma {:induction false} KeptPrefix(xs: seq<int>, keep: int -> bool, m: nat, n: nat)
    requires n <= m <= |xs|
    ensures Kept(xs[..m], keep, n) == Kept(xs, keep, n)
  {
    if n > 0 { KeptPrefix(xs, keep, m, n - 1); }
  }

  lemma {:induction false} FilterLength(xs: seq<int>, keep: int -> bool)
    ensures |Filter(xs, keep)| == Kept(xs, keep, |xs|)
  {
    if xs != [] {
      FilterLength(xs[..|xs| - 1], keep);
      KeptPrefix(xs, keep, |xs| - 1, |xs| - 1);
    }
  }

  /** A filter keeps the order: a kept element stands behind the kept ones before it, and nothing else is there. */
  lemma {:induction false} FilterInOrder(xs: seq<int>, keep: int -> bool, j: nat)
    requires j < |xs| && keep(xs[j])
    ensures |Filter(xs, keep)| == Kept(xs, keep, |xs|) && Kept(xs, keep, j) < |Filter(xs, keep)|
    ensures Filter(xs, keep)[Kept(xs, keep, j)] == xs[j]
  {
    var n := |xs| - 1;
    FilterLength(xs, keep);
    FilterLength(xs[..n], keep);
    KeptPrefix(xs, keep, n, j);
    KeptPrefix(xs, keep, n, n);
    if j < n { FilterInOrder(xs[..n], keep, j); }
  }

  // ----- sorted(xs)

  function Insert(x: int, xs: seq<int>): seq<int> {
    if xs == [] || x <= xs[0] then [x] + xs else [xs[0]] + Insert(x, xs[1..])
  }

  lemma {:induction false} InsertMultiset(x: int, xs: seq<int>)
    ensures multiset(Insert(x, xs)) == multiset(xs) + multiset{x} && |Insert(x, xs)| == |xs| + 1
  {
    if xs != [] && xs[0] < x {
      InsertMultiset(x, xs[1..]);
      assert xs == [xs[0]] + xs[1..];
    }
  }

  lemma InsertElements(x: int, xs: seq<int>, y: int)
    ensures y in Insert(x, xs) <==> y == x || y in xs
  {
    InsertMultiset(x, xs);
    assert y in multiset(Insert(x, xs)) <==> y == x || y in multiset(xs);
  }

  lemma {:induction false} InsertAscending(x: int, xs: seq<int>)
    requires Ascending(xs)
    ensures Ascending(Insert(x, xs))
  {
    if xs != [] && xs[0] < x {
      InsertAscending(x, xs[1..]);
      var r := Insert(x, xs[1..]);
      forall i | 0 <= i < |r|
        ensures xs[0] <= r[i]
      {
        InsertElements(x, xs[1..], r[i]);
      }
    }
  }

  function Sorted(xs: seq<int>): seq<int> {
    if xs == [] then [] else Insert(xs[0], Sorted(xs[1..]))
  }

  /** Sorting orders the list and keeps every element as often as it occurs. */
  lemma {:induction false} SortedIs(xs: seq<int>)
    ensures Ascending(Sorted(xs)) && multiset(Sorted(xs)) == multiset(xs) && |Sorted(xs)| == |xs|
  {
    if xs != [] {
      SortedIs(xs[1..]);
      InsertAscending(xs[0], Sorted(xs[1..]));
      InsertMultiset(xs[0], Sorted(xs[1..]));
      assert xs == [xs[0]] + xs[1..];
    }
  }

  lemma SortedElements(xs: seq<int>, x: int)
    ensures x in Sorted(xs) <==> x in xs
  {
    SortedIs(xs);
    assert x in multiset(Sorted(xs)) <==> x in multiset(xs);
  }

  lemma {:induction false} InsertStrict(x: int, xs: seq<int>)
    requires StrictlyAscending(xs) && x !in xs
    ensures StrictlyAscending(Insert(x, xs))
  {
    if xs != [] && xs[0] < x {
      InsertStrict(x, xs[1..]);
      var r := Insert(x, xs[1..]);
      forall i | 0 <= i < |r|
        ensures xs[0] < r[i]
      {
        InsertElements(x, xs[1..], r[i]);
      }
    }
  }

  lemma {:induction false} SortedStrict(xs: seq<int>)
    requires NoDuplicates(xs)
    ensures StrictlyAscending(Sorted(xs))
  {
    if xs != [] {
      SortedStrict(xs[1..]);
      SortedElements(xs[1..], xs[0]);
      InsertStrict(xs[0], Sorted(xs[1..]));
    }
  }

  // ----- sorted(set(xs))

  function Unique(xs: seq<int>): (r: seq<int>)
    ensures NoDuplicates(r) && forall x :: x in r <==> x in xs
  {
    if xs == [] then []
    else
      var rest := Unique(xs[..|xs| - 1]);
      assert xs == xs[..|xs| - 1] + [xs[|xs| - 1]];
      if xs[|xs| - 1] in rest then rest else rest + [xs[|xs| - 1]]
  }

  function SortedSet(xs: seq<int>): seq<int> {
    Sorted(Unique(xs))
  }

  lemma SortedSetIs(xs: seq<int>)
    ensures StrictlyAscending(SortedSet(xs)) && forall x :: x in SortedSet(xs) <==> x in xs
  {
    SortedStrict(Unique(xs));
    forall x
      ensures x in SortedSet(xs) <==> x in xs
    {
      SortedElements(Unique(xs), x);
    }
  }

  /** Two strictly ascending lists with the same elements are equal. */
  lemma {:induction false} StrictlyAscendingUnique(xs: seq<int>, ys: seq<int>)
    requires StrictlyAscending(xs) && StrictlyAscending(ys)
    requires forall x :: x in xs <==> x in ys
    ensures xs == ys
  {
    if ys != [] {
      var y := ys[0];
      assert y in ys && y in xs;
    }
    if xs != [] {
      var x := xs[0];
      assert x in xs && x in ys;
      forall z
        ensures z in xs[1..] <==> z in ys[1..]
      {
        assert z in xs <==> z == xs[0] || z in xs[1..];
        assert z in ys <==> z == ys[0] || z in ys[1..];
      }
      StrictlyAscendingUnique(xs[1..], ys[1..]);
      assert xs == [xs[0]] + xs[1..] && ys == [ys[0]] + ys[1..];
    }
  }
}
