/** Sorting by a strict order under which any two elements compare, as `sort_by` is used here. */
module Sorting {
  ghost predicate Ordered<T>(less: (T, T) -> bool, xs: seq<T>) {
    forall i, j :: 0 <= i < j < |xs| ==> less(xs[i], xs[j])
  }

  ghost predicate Comparable<T>(less: (T, T) -> bool, xs: seq<T>) {
    forall i, j :: 0 <= i < j < |xs| ==> less(xs[i], xs[j]) || less(xs[j], xs[i])
  }

  ghost predicate Transitive<T(!new)>(less: (T, T) -> bool) {
    forall a, b, c :: less(a, b) && less(b, c) ==> less(a, c)
  }

  function Insert<T>(less: (T, T) -> bool, x: T, sorted: seq<T>): (r: seq<T>)
    ensures multiset(r) == multiset(sorted) + multiset{x}
  {
    if sorted == [] || less(x, sorted[0]) then [x] + sorted
    else
      assert sorted == [sorted[0]] + sorted[1..];
      [sorted[0]] + Insert(less, x, sorted[1..])
  }

  function Sort<T>(less: (T, T) -> bool, xs: seq<T>): (r: seq<T>)
    ensures multiset(r) == multiset(xs)
  {
    if xs == [] then []
    else
      assert xs == xs[..|xs| - 1] + [xs[|xs| - 1]];
      Insert(less, xs[|xs| - 1], Sort(less, xs[..|xs| - 1]))
  }

  lemma SameMembers<T>(a: seq<T>, b: seq<T>)
    requires multiset(a) == multiset(b)
    ensures forall x :: x in a <==> x in b
  {
    assert forall x :: x in a <==> x in multiset(a);
    assert forall x :: x in b <==> x in multiset(b);
  }

  lemma SameLength<T>(a: seq<T>, b: seq<T>)
    requires multiset(a) == multiset(b)
    ensures |a| == |b|
  {
    assert |multiset(a)| == |a| && |multiset(b)| == |b|;
  }

  lemma WithoutOne<T>(xs: seq<T>, i: nat)
    requires i < |xs|
    ensures multiset(xs[..i] + xs[i + 1..]) == multiset(xs) - multiset{xs[i]}
  {
    assert xs == xs[..i] + [xs[i]] + xs[i + 1..];
  }

  /** `ys` is `xs` without its element at `i`. */
  lemma DroppedOne<T>(xs: seq<T>, ys: seq<T>, i: nat)
    requires i < |xs| == |ys| + 1 && forall k :: 0 <= k < |ys| ==> ys[k] == xs[if k < i then k else k + 1]
    ensures multiset(xs) == multiset(ys) + multiset{xs[i]}
  {
    assert ys == xs[..i] + xs[i + 1..];
    WithoutOne(xs, i);
  }

  lemma InsertMembers<T>(less: (T, T) -> bool, x: T, sorted: seq<T>, y: T)
    requires y in Insert(less, x, sorted)
    ensures y == x || y in sorted
  {
    assert y in multiset(Insert(less, x, sorted));
  }

  lemma {:induction false} InsertOrdered<T(!new)>(less: (T, T) -> bool, x: T, sorted: seq<T>)
    requires Transitive(less) && Ordered(less, sorted)
    requires forall y :: y in sorted ==> less(x, y) || less(y, x)
    ensures Ordered(less, Insert(less, x, sorted))
  {
    if sorted == [] {
    } else if less(x, sorted[0]) {
      assert forall j :: 1 <= j < |sorted| ==> less(sorted[0], sorted[j]) && less(x, sorted[j]);
    } else {
      InsertOrdered(less, x, sorted[1..]);
      var rest := Insert(less, x, sorted[1..]);
      forall y | y in rest ensures less(sorted[0], y) {
        InsertMembers(less, x, sorted[1..], y);
      }
    }
  }

  lemma {:induction false} SortOrdered<T(!new)>(less: (T, T) -> bool, xs: seq<T>)
    requires Transitive(less) && Comparable(less, xs)
    ensures Ordered(less, Sort(less, xs))
  {
    if xs != [] {
      var front, last := xs[..|xs| - 1], xs[|xs| - 1];
      SortOrdered(less, front);
      SameMembers(Sort(less, front), front);
      InsertOrdered(less, last, Sort(less, front));
    }
  }
}
