/** `sort_by` as a stable insertion sort, and what sorting by a strict order determines. */
module Sorting {

  function Insert<T>(x: T, xs: seq<T>, before: (T, T) -> bool): seq<T> {
    if xs == [] || before(x, xs[0]) then [x] + xs else [xs[0]] + Insert(x, xs[1..], before)
  }

  function Sort<T>(xs: seq<T>, before: (T, T) -> bool): seq<T> {
    if xs == [] then [] else Insert(xs[0], Sort(xs[1..], before), before)
  }

  lemma {:induction false} InsertMembers<T>(x: T, xs: seq<T>, before: (T, T) -> bool, y: T)
    ensures y in Insert(x, xs, before) <==> y == x || y in xs
    ensures |Insert(x, xs, before)| == |xs| + 1
  {
    if xs != [] && !before(x, xs[0]) {
      InsertMembers(x, xs[1..], before, y);
      assert xs == [xs[0]] + xs[1..];
    }
  }

  lemma {:induction false} SortMembers<T>(xs: seq<T>, before: (T, T) -> bool, y: T)
    ensures y in Sort(xs, before) <==> y in xs
    ensures |Sort(xs, before)| == |xs|
  {
    if xs != [] {
      SortMembers(xs[1..], before, y);
      InsertMembers(xs[0], Sort(xs[1..], before), before, y);
      assert xs == [xs[0]] + xs[1..];
    }
  }

  ghost predicate Transitive<T(!new)>(less: (T, T) -> bool) {
    forall x, y, z :: less(x, y) && less(y, z) ==> less(x, z)
  }

  ghost predicate Irreflexive<T(!new)>(less: (T, T) -> bool) {
    forall x :: !less(x, x)
  }

  ghost predicate Ascending<T>(xs: seq<T>, less: (T, T) -> bool) {
    forall i, j :: 0 <= i < j < |xs| ==> less(xs[i], xs[j])
  }

  /** The order places `x` and `y` one way or the other. */
  ghost predicate Places<T>(before: (T, T) -> bool, less: (T, T) -> bool, x: T, y: T) {
    if before(x, y) then less(x, y) else less(y, x)
  }

  lemma {:induction false} InsertAscends<T(!new)>(x: T, xs: seq<T>, before: (T, T) -> bool, less: (T, T) -> bool)
    requires Transitive(less) && Ascending(xs, less)
    requires forall y :: y in xs ==> Places(before, less, x, y)
    ensures Ascending(Insert(x, xs, before), less)
  {
    if xs == [] {
    } else if before(x, xs[0]) {
      forall j | 0 <= j < |xs| ensures less(x, xs[j]) {
        assert Places(before, less, x, xs[0]);
        assert j > 0 ==> less(xs[0], xs[j]);
      }
    } else {
      var rest := Insert(x, xs[1..], before);
      InsertAscends(x, xs[1..], before, less);
      forall j | 0 <= j < |rest| ensures less(xs[0], rest[j]) {
        InsertMembers(x, xs[1..], before, rest[j]);
        assert Places(before, less, x, xs[0]);
      }
    }
  }

  /** Elements that the order places pairwise are sorted into ascending order. */
  lemma {:induction false} SortAscends<T(!new)>(xs: seq<T>, before: (T, T) -> bool, less: (T, T) -> bool)
    requires Transitive(less)
    requires forall i, j :: 0 <= i < j < |xs| ==> Places(before, less, xs[i], xs[j])
    ensures Ascending(Sort(xs, before), less)
  {
    if xs != [] {
      var sorted := Sort(xs[1..], before);
      SortAscends(xs[1..], before, less);
      forall y | y in sorted ensures Places(before, less, xs[0], y) {
        SortMembers(xs[1..], before, y);
      }
      InsertAscends(xs[0], sorted, before, less);
    }
  }

  lemma FirstComesFirst<T>(xs: seq<T>, x: T, less: (T, T) -> bool)
    requires Ascending(xs, less) && x in xs
    ensures x == xs[0] || less(xs[0], x)
  {}

  lemma FirstIsFirst<T(!new)>(a: seq<T>, b: seq<T>, less: (T, T) -> bool)
    requires Transitive(less) && Irreflexive(less) && Ascending(a, less) && Ascending(b, less)
    requires a != [] && b != [] && a[0] in b && b[0] in a
    ensures a[0] == b[0]
  {
    FirstComesFirst(a, b[0], less);
    FirstComesFirst(b, a[0], less);
  }

  /** Ascending sequences of the same elements are the same. */
  lemma {:induction false} AscendingIsUnique<T(!new)>(a: seq<T>, b: seq<T>, less: (T, T) -> bool)
    requires Transitive(less) && Irreflexive(less) && Ascending(a, less) && Ascending(b, less)
    requires forall x :: x in a <==> x in b
    ensures a == b
  {
    assert a != [] ==> a[0] in b;
    assert b != [] ==> b[0] in a;
    if a != [] {
      FirstIsFirst(a, b, less);
      var x := a[0];
      assert a == [x] + a[1..] && b == [x] + b[1..];
      assert x !in a[1..] && x !in b[1..];
      forall y ensures y in a[1..] <==> y in b[1..] {
        assert y in a <==> y == x || y in a[1..];
        assert y in b <==> y == x || y in b[1..];
      }
      AscendingIsUnique(a[1..], b[1..], less);
    }
  }

  /** What the elements amount to, all together. */
  ghost function Tally<T, U>(xs: seq<T>, worth: T -> multiset<U>): multiset<U> {
    if xs == [] then multiset{} else worth(xs[0]) + Tally(xs[1..], worth)
  }

  lemma TallyCons<T, U>(x: T, xs: seq<T>, worth: T -> multiset<U>)
    ensures Tally([x] + xs, worth) == worth(x) + Tally(xs, worth)
  {
    assert ([x] + xs)[1..] == xs;
  }

  lemma {:induction false} InsertTally<T, U>(x: T, xs: seq<T>, before: (T, T) -> bool, worth: T -> multiset<U>)
    ensures Tally(Insert(x, xs, before), worth) == worth(x) + Tally(xs, worth)
  {
    if xs == [] || before(x, xs[0]) {
      TallyCons(x, xs, worth);
    } else {
      InsertTally(x, xs[1..], before, worth);
      TallyCons(xs[0], Insert(x, xs[1..], before), worth);
    }
  }

  /** Sorting neither adds nor loses anything. */
  lemma {:induction false} SortTally<T, U>(xs: seq<T>, before: (T, T) -> bool, worth: T -> multiset<U>)
    ensures Tally(Sort(xs, before), worth) == Tally(xs, worth)
  {
    if xs != [] {
      SortTally(xs[1..], before, worth);
      InsertTally(xs[0], Sort(xs[1..], before), before, worth);
    }
  }
}
