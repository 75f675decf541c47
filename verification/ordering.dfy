/** Sorting under an abstract total order. The source sorts with
    `StringComparer.InvariantCulture` and `String.CompareTo` (culture-aware
    collation that cannot be reproduced) and with `ArrayList.Sort`, which is
    not stable, so the order is a parameter: `le(a, b)` means `a` sorts no
    later than `b`. */
module Ordering {

  ghost predicate Total<T(!new)>(le: (T, T) -> bool) {
    forall a, b :: le(a, b) || le(b, a)
  }

  predicate SortedBy<T>(xs: seq<T>, le: (T, T) -> bool) {
    forall i :: 0 <= i < |xs| - 1 ==> le(xs[i], xs[i + 1])
  }

  /** A comparer a sorted collection can rely on: the culture collations
      the source sorts with are transitive. */
  ghost predicate Transitive<T(!new)>(le: (T, T) -> bool) {
    forall a, b, c :: le(a, b) && le(b, c) ==> le(a, c)
  }

  /** Every element sorts no later than every element after it. */
  predicate Ascending<T>(xs: seq<T>, le: (T, T) -> bool) {
    forall i, j :: 0 <= i < j < |xs| ==> le(xs[i], xs[j])
  }

  /** Under a transitive order, neighbours in order means all pairs in order. */
  lemma SortedAscending<T(!new)>(xs: seq<T>, le: (T, T) -> bool)
    requires Transitive(le) && SortedBy(xs, le)
    ensures Ascending(xs, le)
  {
    forall i, j | 0 <= i < j < |xs|
      ensures le(xs[i], xs[j])
    {
      SortedChain(xs, le, i, j);
    }
  }

  lemma {:induction false} SortedChain<T(!new)>(xs: seq<T>, le: (T, T) -> bool, i: nat, j: nat)
    requires Transitive(le) && SortedBy(xs, le) && i < j < |xs|
    ensures le(xs[i], xs[j])
    decreases j - i
  {
    if i + 1 < j {
      SortedChain(xs, le, i + 1, j);
    }
  }

  /** `x` placed before the first element it sorts no later than. */
  function Insert<T(!new)>(x: T, xs: seq<T>, le: (T, T) -> bool): (r: seq<T>)
    requires Total(le)
    requires SortedBy(xs, le)
    ensures SortedBy(r, le)
    ensures multiset(r) == multiset(xs) + multiset{x}
    ensures r[0] == x || (|xs| > 0 && r[0] == xs[0])
    decreases |xs|
  {
    if |xs| == 0 then [x]
    else if le(x, xs[0]) then [x] + xs
    else
      var rest := Insert(x, xs[1..], le);
      assert xs == [xs[0]] + xs[1..];
      [xs[0]] + rest
  }

  /** A sorted permutation of `xs`. */
  function Sort<T(!new)>(xs: seq<T>, le: (T, T) -> bool): (r: seq<T>)
    requires Total(le)
    ensures SortedBy(r, le)
    ensures multiset(r) == multiset(xs)
    decreases |xs|
  {
    if |xs| == 0 then []
    else
      assert xs == [xs[0]] + xs[1..];
      Insert(xs[0], Sort(xs[1..], le), le)
  }

  /** A permutation keeps membership. */
  lemma SortKeepsElements<T(!new)>(xs: seq<T>, le: (T, T) -> bool, x: T)
    requires Total(le)
    ensures x in Sort(xs, le) <==> x in xs
  {
    var r := Sort(xs, le);
    assert x in r <==> x in multiset(r);
    assert x in xs <==> x in multiset(xs);
  }
}
