/** The standard library's sort, for any total order, and the uniqueness of its result. */
module Sorting {

  ghost predicate TotalOrder<T(!new)>(leq: (T, T) -> bool) {
    && (forall x, y :: leq(x, y) || leq(y, x))
    && (forall x, y :: leq(x, y) && leq(y, x) ==> x == y)
    && (forall x, y, z :: leq(x, y) && leq(y, z) ==> leq(x, z))
  }

  ghost predicate Sorted<T>(xs: seq<T>, leq: (T, T) -> bool) {
    forall i, j | 0 <= i < j < |xs| :: leq(xs[i], xs[j])
  }

  function Insert<T>(xs: seq<T>, x: T, leq: (T, T) -> bool): (r: seq<T>)
    ensures multiset(r) == multiset(xs) + multiset{x}
  {
    if |xs| == 0 then [x]
    else
      assert xs == [xs[0]] + xs[1..];
      if leq(x, xs[0]) then [x] + xs else [xs[0]] + Insert(xs[1..], x, leq)
  }

  function Sort<T>(xs: seq<T>, leq: (T, T) -> bool): (r: seq<T>)
    ensures multiset(r) == multiset(xs)
  {
    if |xs| == 0 then []
    else
      assert xs == [xs[0]] + xs[1..];
      Insert(Sort(xs[1..], leq), xs[0], leq)
  }

  lemma SameElements<T>(xs: seq<T>, ys: seq<T>)
    requires multiset(xs) == multiset(ys)
    ensures forall x :: x in xs <==> x in ys
    ensures |xs| == |ys|
  {
    assert forall x :: x in xs <==> x in multiset(xs);
    assert forall x :: x in ys <==> x in multiset(ys);
    assert |multiset(xs)| == |xs| && |multiset(ys)| == |ys|;
  }

  lemma {:induction false} InsertSorted<T(!new)>(xs: seq<T>, x: T, leq: (T, T) -> bool)
    requires TotalOrder(leq) && Sorted(xs, leq)
    ensures Sorted(Insert(xs, x, leq), leq)
  {
    if |xs| > 0 && !leq(x, xs[0]) {
      var rest := Insert(xs[1..], x, leq);
      InsertSorted(xs[1..], x, leq);
      assert multiset(rest) == multiset(xs[1..] + [x]);
      SameElements(rest, xs[1..] + [x]);
      assert forall k | 0 <= k < |rest| :: rest[k] in rest;
    }
  }

  lemma {:induction false} SortSorts<T(!new)>(xs: seq<T>, leq: (T, T) -> bool)
    requires TotalOrder(leq)
    ensures Sorted(Sort(xs, leq), leq)
  {
    if |xs| > 0 {
      SortSorts(xs[1..], leq);
      InsertSorted(Sort(xs[1..], leq), xs[0], leq);
    }
  }

  lemma TailElements<T>(xs: seq<T>)
    requires |xs| > 0
    ensures xs == [xs[0]] + xs[1..] && multiset(xs[1..]) == multiset(xs) - multiset{xs[0]}
  {
    assert xs == [xs[0]] + xs[1..];
  }

  lemma {:induction false} SameFirst<T(!new)>(xs: seq<T>, ys: seq<T>, leq: (T, T) -> bool)
    requires TotalOrder(leq) && Sorted(xs, leq) && Sorted(ys, leq)
    requires multiset(xs) == multiset(ys) && |xs| > 0
    ensures |ys| > 0 && xs[0] == ys[0]
  {
    SameElements(xs, ys);
    assert xs[0] in ys && ys[0] in xs;
    assert leq(xs[0], ys[0]) && leq(ys[0], xs[0]);
  }

  lemma TailSorted<T>(xs: seq<T>, leq: (T, T) -> bool)
    requires |xs| > 0 && Sorted(xs, leq)
    ensures Sorted(xs[1..], leq)
  {
  }

  /** Two sorted lists of the same elements are the same list. */
  lemma {:induction false} SortedUnique<T(!new)>(xs: seq<T>, ys: seq<T>, leq: (T, T) -> bool)
    requires TotalOrder(leq) && Sorted(xs, leq) && Sorted(ys, leq)
    requires multiset(xs) == multiset(ys)
    ensures xs == ys
    decreases |xs|
  {
    hide Sorted, TotalOrder;
    SameElements(xs, ys);
    if |xs| > 0 {
      SameFirst(xs, ys, leq);
      TailElements(xs);
      TailElements(ys);
      TailSorted(xs, leq);
      TailSorted(ys, leq);
      SortedUnique(xs[1..], ys[1..], leq);
    }
  }

  /** Sorting forgets the order of its input. */
  lemma SortForgetsOrder<T(!new)>(xs: seq<T>, ys: seq<T>, leq: (T, T) -> bool)
    requires TotalOrder(leq) && multiset(xs) == multiset(ys)
    ensures Sort(xs, leq) == Sort(ys, leq)
  {
    SortSorts(xs, leq);
    SortSorts(ys, leq);
    SortedUnique(Sort(xs, leq), Sort(ys, leq), leq);
  }
}
