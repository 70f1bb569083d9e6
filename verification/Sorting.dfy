/** sort.Slice and sort.SliceStable: stable insertion by any total order on keys. */
module Sorting {

  /** Any two elements compare, and comparison is transitive; different elements may tie. */
  ghost predicate IsOrder<T(!new)>(atMost: (T, T) -> bool) {
    && (forall a, b :: atMost(a, b) || atMost(b, a))
    && (forall a, b, c :: atMost(a, b) && atMost(b, c) ==> atMost(a, c))
  }

  ghost predicate Sorted<T>(xs: seq<T>, atMost: (T, T) -> bool) {
    forall i, j :: 0 <= i < j < |xs| ==> atMost(xs[i], xs[j])
  }

  /** Sorted, and no two elements tie. */
  ghost predicate StrictlyOrdered<T>(xs: seq<T>, atMost: (T, T) -> bool) {
    forall i, j :: 0 <= i < j < |xs| ==> !atMost(xs[j], xs[i])
  }

  /** x goes behind everything that may stand before it. */
  function Insert<T(!new)>(xs: seq<T>, x: T, atMost: (T, T) -> bool): (r: seq<T>)
    requires IsOrder(atMost) && Sorted(xs, atMost)
    ensures Sorted(r, atMost) && multiset(r) == multiset(xs) + multiset{x}
  {
    if xs == [] then [x]
    else
      var last, before := xs[|xs| - 1], xs[..|xs| - 1];
      assert xs == before + [last];
      if atMost(last, x) then xs + [x] else
      var r := Insert(before, x, atMost);
      assert forall i :: 0 <= i < |r| ==> atMost(r[i], last) by {
        forall i | 0 <= i < |r| ensures atMost(r[i], last) {
          assert r[i] in multiset(before) + multiset{x};
        }
      }
      r + [last]
  }

  function Sort<T(!new)>(xs: seq<T>, atMost: (T, T) -> bool): (r: seq<T>)
    requires IsOrder(atMost)
    ensures Sorted(r, atMost) && multiset(r) == multiset(xs)
  {
    if xs == [] then []
    else
      assert xs == xs[..|xs| - 1] + [xs[|xs| - 1]];
      Insert(Sort(xs[..|xs| - 1], atMost), xs[|xs| - 1], atMost)
  }

  /** The elements of a kind, in order. */
  function Chosen<T>(xs: seq<T>, kind: T -> bool): seq<T> {
    if xs == [] then []
    else Chosen(xs[..|xs| - 1], kind) + if kind(xs[|xs| - 1]) then [xs[|xs| - 1]] else []
  }

  lemma ChosenNext<T>(xs: seq<T>, x: T, kind: T -> bool)
    ensures Chosen(xs + [x], kind) == Chosen(xs, kind) + if kind(x) then [x] else []
  {
    assert (xs + [x])[..|xs|] == xs;
  }

  lemma {:induction false} InsertKeepsTies<T(!new)>(xs: seq<T>, x: T, atMost: (T, T) -> bool, kind: T -> bool)
    requires IsOrder(atMost) && Sorted(xs, atMost)
    requires forall a, b :: kind(a) && kind(b) ==> atMost(a, b)
    ensures Chosen(Insert(xs, x, atMost), kind) == Chosen(xs, kind) + if kind(x) then [x] else []
  {
    ChosenNext(xs, x, kind);
    if xs != [] && !atMost(xs[|xs| - 1], x) {
      var last, before := xs[|xs| - 1], xs[..|xs| - 1];
      InsertKeepsTies(before, x, atMost, kind);
      ChosenNext(Insert(before, x, atMost), last, kind);
    } else if xs == [] {
      assert [x] == [] + [x];
    }
  }

  /** Sorting is stable: elements that all tie keep their order. */
  lemma {:induction false} SortIsStable<T(!new)>(xs: seq<T>, atMost: (T, T) -> bool, kind: T -> bool)
    requires IsOrder(atMost) && forall a, b :: kind(a) && kind(b) ==> atMost(a, b)
    ensures Chosen(Sort(xs, atMost), kind) == Chosen(xs, kind)
  {
    if xs == [] {
    } else {
      SortIsStable(xs[..|xs| - 1], atMost, kind);
      InsertKeepsTies(Sort(xs[..|xs| - 1], atMost), xs[|xs| - 1], atMost, kind);
    }
  }

  lemma WithoutHead<T>(a: seq<T>)
    requires a != []
    ensures multiset(a[1..]) == multiset(a) - multiset{a[0]}
  {
    assert a == [a[0]] + a[1..];
  }

  /** A list without ties is the only way to sort its elements. */
  lemma {:induction false} SortedUniquely<T>(a: seq<T>, b: seq<T>, atMost: (T, T) -> bool)
    requires Sorted(a, atMost) && StrictlyOrdered(b, atMost) && multiset(a) == multiset(b)
    ensures a == b
  {
    assert |a| == |multiset(a)| == |multiset(b)| == |b|;
    if a == [] {
    } else {
      SameHead(a, b, atMost);
      WithoutHead(a);
      WithoutHead(b);
      SortedUniquely(a[1..], b[1..], atMost);
      assert a == [a[0]] + a[1..] && b == [b[0]] + b[1..];
    }
  }

  lemma SameHead<T>(a: seq<T>, b: seq<T>, atMost: (T, T) -> bool)
    requires Sorted(a, atMost) && StrictlyOrdered(b, atMost) && multiset(a) == multiset(b)
    requires a != [] && b != []
    ensures a[0] == b[0]
  {
    assert a[0] in multiset(b) && b[0] in multiset(a);
    var i :| 0 <= i < |b| && b[i] == a[0];
    var j :| 0 <= j < |a| && a[j] == b[0];
  }

  lemma {:induction false} OnceOnly<T>(a: seq<T>, x: T)
    requires forall i, j :: 0 <= i < j < |a| ==> a[i] != a[j]
    ensures multiset(a)[x] <= 1
  {
    if a == [] {
    } else {
      assert a == [a[0]] + a[1..];
      OnceOnly(a[1..], x);
      if a[0] == x {
        assert x !in a[1..];
      }
    }
  }
}
