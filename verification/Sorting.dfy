/** Sorting by a comparator that orders the given elements strictly and totally, as the service's
    comparators do by falling back on the digest. */
module Sorting {

  predicate Sorted<T>(before: (T, T) -> bool, xs: seq<T>) {
    forall i, j :: 0 <= i < j < |xs| ==> before(xs[i], xs[j])
  }

  function Elements<T>(xs: seq<T>): set<T> {
    set x | x in xs
  }

  predicate Distinct<T(==)>(xs: seq<T>) {
    forall i, j :: 0 <= i < j < |xs| ==> xs[i] != xs[j]
  }

  ghost predicate StrictOrder<T(!new)>(before: (T, T) -> bool, s: set<T>) {
    && (forall a :: a in s ==> !before(a, a))
    && (forall a, b :: a in s && b in s && a != b ==> before(a, b) || before(b, a))
    && (forall a, b, c :: a in s && b in s && c in s && before(a, b) && before(b, c) ==> before(a, c))
  }

  lemma {:induction false} DistinctSize<T>(xs: seq<T>)
    requires Distinct(xs)
    ensures |Elements(xs)| == |xs|
  {
    if xs != [] {
      var n := |xs| - 1;
      DistinctSize(xs[..n]);
      assert xs == xs[..n] + [xs[n]];
      assert Elements(xs) == Elements(xs[..n]) + {xs[n]};
    }
  }

  lemma SortedIsDistinct<T(!new)>(before: (T, T) -> bool, xs: seq<T>)
    requires StrictOrder(before, Elements(xs)) && Sorted(before, xs)
    ensures Distinct(xs)
  {
    forall i, j | 0 <= i < j < |xs| ensures xs[i] != xs[j] { assert xs[i] in Elements(xs); }
  }

  /** There is only one sorted listing of a set, so any sorting algorithm gives the same one. */
  lemma SortedIsUnique<T(!new)>(before: (T, T) -> bool, a: seq<T>, b: seq<T>)
    requires Elements(a) == Elements(b) && StrictOrder(before, Elements(a))
    requires Sorted(before, a) && Sorted(before, b)
    ensures a == b
  {
    SortedIsDistinct(before, a);
    SortedIsDistinct(before, b);
    DistinctSize(a);
    DistinctSize(b);
    SameOrder(before, a, b, Elements(a));
  }

  lemma {:induction false} SameOrder<T(!new)>(before: (T, T) -> bool, a: seq<T>, b: seq<T>, s: set<T>)
    requires |a| == |b| && Elements(a) == Elements(b) <= s && StrictOrder(before, s)
    requires Sorted(before, a) && Sorted(before, b)
    ensures a == b
    decreases |a|
  {
    if a != [] {
      assert a[0] in Elements(b) && b[0] in Elements(a);
      var i :| 0 <= i < |b| && b[i] == a[0];
      var j :| 0 <= j < |a| && a[j] == b[0];
      assert a[0] in s && b[0] in s;
      assert a[0] == b[0];
      TailElements(before, a, s);
      TailElements(before, b, s);
      SameOrder(before, a[1..], b[1..], s);
    }
  }

  lemma TailElements<T(!new)>(before: (T, T) -> bool, a: seq<T>, s: set<T>)
    requires a != [] && Elements(a) <= s && StrictOrder(before, s) && Sorted(before, a)
    ensures Elements(a[1..]) == Elements(a) - {a[0]}
  {
    assert a == [a[0]] + a[1..];
    forall x | x in a[1..] ensures x != a[0] {
      var i :| 0 <= i < |a[1..]| && a[1..][i] == x;
      assert before(a[0], a[i + 1]);
      assert a[0] in Elements(a);
    }
  }

  function Insert<T>(before: (T, T) -> bool, xs: seq<T>, x: T): seq<T> {
    if xs == [] || !before(xs[0], x) then [x] + xs else [xs[0]] + Insert(before, xs[1..], x)
  }

  function Sort<T>(before: (T, T) -> bool, xs: seq<T>): seq<T> {
    if xs == [] then [] else Insert(before, Sort(before, xs[1..]), xs[0])
  }

  lemma {:induction false} InsertElements<T>(before: (T, T) -> bool, xs: seq<T>, x: T)
    ensures Elements(Insert(before, xs, x)) == Elements(xs) + {x} && |Insert(before, xs, x)| == |xs| + 1
  {
    if xs != [] && before(xs[0], x) {
      var rest := Insert(before, xs[1..], x);
      InsertElements(before, xs[1..], x);
      assert xs == [xs[0]] + xs[1..];
      assert Elements(xs) == {xs[0]} + Elements(xs[1..]);
      assert Elements([xs[0]] + rest) == {xs[0]} + Elements(rest);
    }
  }

  lemma {:induction false} SortElements<T>(before: (T, T) -> bool, xs: seq<T>)
    ensures Elements(Sort(before, xs)) == Elements(xs) && |Sort(before, xs)| == |xs|
  {
    if xs != [] {
      SortElements(before, xs[1..]);
      InsertElements(before, Sort(before, xs[1..]), xs[0]);
      assert xs == [xs[0]] + xs[1..];
    }
  }

  lemma {:induction false} InsertSorted<T(!new)>(before: (T, T) -> bool, xs: seq<T>, x: T, s: set<T>)
    requires StrictOrder(before, s) && Elements(xs) <= s && x in s && x !in xs && Sorted(before, xs)
    ensures Sorted(before, Insert(before, xs, x))
  {
    if xs != [] {
      assert xs[0] in Elements(xs);
      if before(xs[0], x) {
        InsertSorted(before, xs[1..], x, s);
        InsertElements(before, xs[1..], x);
        var rest := Insert(before, xs[1..], x);
        forall i | 0 <= i < |rest| ensures before(xs[0], rest[i]) {
          assert rest[i] in Elements(rest);
        }
      } else {
        forall i | 0 <= i < |xs| ensures before(x, xs[i]) {
          assert xs[i] in Elements(xs);
        }
      }
    }
  }

  lemma {:induction false} SortSorts<T(!new)>(before: (T, T) -> bool, xs: seq<T>, s: set<T>)
    requires Distinct(xs) && StrictOrder(before, s) && Elements(xs) <= s
    ensures Sorted(before, Sort(before, xs)) && Elements(Sort(before, xs)) == Elements(xs) && |Sort(before, xs)| == |xs|
  {
    SortElements(before, xs);
    if xs != [] {
      assert xs[0] in Elements(xs);
      SortSorts(before, xs[1..], s);
      var rest := Sort(before, xs[1..]);
      forall x | x in rest ensures x in xs[1..] { assert x in Elements(rest); }
      InsertSorted(before, Sort(before, xs[1..]), xs[0], s);
    }
  }

  /** With a transitive order it is enough to compare neighbours. */
  lemma {:induction false} NeighboursSort<T(!new)>(before: (T, T) -> bool, xs: seq<T>)
    requires forall a, b, c :: before(a, b) && before(b, c) ==> before(a, c)
    requires forall i, j :: 0 <= i && j == i + 1 < |xs| ==> before(xs[i], xs[j])
    ensures Sorted(before, xs)
  {
    if |xs| > 1 {
      var n := |xs| - 1;
      var front := xs[..n];
      NeighboursSort(before, front);
      forall i | 0 <= i < n ensures before(xs[i], xs[n]) {
        assert before(xs[n - 1], xs[n]);
        if i < n - 1 { assert before(front[i], front[n - 1]); }
      }
    }
  }
}
