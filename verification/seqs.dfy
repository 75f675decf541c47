/** Sequence predicates shared by the registries: duplicate-freedom and the
    element set of a sequence. */
module Seqs {

  predicate NoDup<T(==)>(xs: seq<T>) {
    forall i, j :: 0 <= i < j < |xs| ==> xs[i] != xs[j]
  }

  function Elems<T>(xs: seq<T>): set<T> {
    set i | 0 <= i < |xs| :: xs[i]
  }

  lemma ElemsSnoc<T>(xs: seq<T>, x: T)
    ensures Elems(xs + [x]) == Elems(xs) + {x}
  {
    var ys := xs + [x];
    assert forall i :: 0 <= i < |xs| ==> ys[i] == xs[i];
    assert ys[|xs|] == x;
    forall y | y in Elems(ys)
      ensures y in Elems(xs) + {x}
    {
      var i :| 0 <= i < |ys| && ys[i] == y;
      if i < |xs| {
        assert xs[i] == y;
      }
    }
  }

  lemma NoDupSnoc<T>(xs: seq<T>, x: T)
    requires NoDup(xs)
    requires x !in Elems(xs)
    ensures NoDup(xs + [x])
  {
    var ys := xs + [x];
    forall i, j | 0 <= i < j < |ys|
      ensures ys[i] != ys[j]
    {
      if j == |xs| {
        assert ys[i] == xs[i];
        assert xs[i] in Elems(xs);
      }
    }
  }

  lemma NoDupCons<T>(x: T, xs: seq<T>)
    requires NoDup(xs)
    requires forall j :: 0 <= j < |xs| ==> xs[j] != x
    ensures NoDup([x] + xs)
  {
    var ys := [x] + xs;
    forall i, j | 0 <= i < j < |ys|
      ensures ys[i] != ys[j]
    {
      assert ys[j] == xs[j - 1];
      if i > 0 {
        assert ys[i] == xs[i - 1];
      }
    }
  }

  /** The key order of an insertion-ordered dictionary after storing `x`:
      a new key goes to the end, an existing one keeps its place. */
  function AppendNew<T(==)>(xs: seq<T>, x: T): (r: seq<T>)
    requires NoDup(xs)
    ensures NoDup(r) && Elems(r) == Elems(xs) + {x}
    ensures xs <= r
  {
    ElemsSnoc(xs, x);
    if x in Elems(xs) then xs
    else
      NoDupSnoc(xs, x);
      xs + [x]
  }
}
