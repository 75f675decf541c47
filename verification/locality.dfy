/** Whether a type is documented by this run (NDocProc.cs 238-240 and
    656-665). A type is local when the generic definition behind it was
    registered under its full name by `Reflect` and its namespace is not
    suppressed; an array or by-reference type is also local when its element
    type is. */
module Locality {
  import opened TypeModel
  import opened TypeGraph

  /** `NotSuppressed`: the namespace was not given with `/suppress:<namespace>`. */
  predicate NotSuppressed(suppressed: set<string>, ns: string) {
    ns !in suppressed
  }

  /** The first disjunct of `IsLocal` for the type itself: its full name is
      a key of the full-name registry and its namespace is shown. */
  predicate Shown(g: Graph, suppressed: set<string>, pt: TypeId)
    requires pt in g.universe && g.universe[pt].fullName.Some?
  {
    g.universe[pt].fullName.value in g.registry.types && NotSuppressed(suppressed, Namespace(g.universe[pt]))
  }

  /** `IsLocal` evaluates without a null dictionary key: each full name it
      looks up, left to right and stopping at the first success, is present.
      (`Dictionary.ContainsKey(null)` throws.) */
  predicate LocalDefined(g: Graph, suppressed: set<string>, t: TypeId)
    requires UniverseWF(g.universe) && t in g.universe
    decreases t
  {
    var u := g.universe;
    var pt := GenericBase(u, t);
    GenericBaseFacts(u, t);
    assert DescWF(u, t, u[t]);
    && u[pt].fullName.Some?
    && (Shown(g, suppressed, pt) || !IsIndirect(u[pt]) || LocalDefined(g, suppressed, ElementType(u[pt])))
  }

  /** `IsLocal`. */
  predicate IsLocal(g: Graph, suppressed: set<string>, t: TypeId)
    requires UniverseWF(g.universe) && t in g.universe
    requires LocalDefined(g, suppressed, t)
    decreases t
  {
    var u := g.universe;
    var pt := GenericBase(u, t);
    GenericBaseFacts(u, t);
    assert DescWF(u, t, u[t]);
    || Shown(g, suppressed, pt)
    || (IsIndirect(u[pt]) && IsLocal(g, suppressed, ElementType(u[pt])))
  }

  /** A named type (the only kind `GenerateTypeRef` asks about) can always
      be asked about: its generic definition has a full name. */
  lemma NamedLocalDefined(g: Graph, suppressed: set<string>, t: TypeId)
    requires UniverseWF(g.universe) && t in g.universe
    requires g.universe[t].shape.Named?
    ensures LocalDefined(g, suppressed, t)
  {
    GenericBaseFacts(g.universe, t);
  }

  /** A constructed generic type is local exactly when its generic
      definition is: the type arguments play no part, so `List<MyType>` is
      not local while `MyList<int>` is when `MyList` is documented. */
  lemma ConstructedLocality(g: Graph, suppressed: set<string>, t: TypeId)
    requires UniverseWF(g.universe) && t in g.universe
    requires g.universe[t].shape.Named? && g.universe[t].shape.generic.Constructed?
    ensures var def := g.universe[t].shape.generic.definition;
      && def in g.universe
      && LocalDefined(g, suppressed, t) && LocalDefined(g, suppressed, def)
      && (IsLocal(g, suppressed, t) <==> IsLocal(g, suppressed, def))
  {
    var def := g.universe[t].shape.generic.definition;
    assert DescWF(g.universe, t, g.universe[t]);
    NamedLocalDefined(g, suppressed, t);
    NamedLocalDefined(g, suppressed, def);
  }

  /** In a reflected graph, a registered type that is not a constructed
      generic is local exactly when its namespace is not suppressed. */
  lemma RegisteredLocality(g: Graph, suppressed: set<string>, k: string)
    requires GraphWF(g) && k in g.registry.types
    requires g.universe[g.registry.types[k]].shape.Named?
    requires !g.universe[g.registry.types[k]].shape.generic.Constructed?
    ensures LocalDefined(g, suppressed, g.registry.types[k])
    ensures IsLocal(g, suppressed, g.registry.types[k]) <==>
      NotSuppressed(suppressed, Namespace(g.universe[g.registry.types[k]]))
  {
    NamedLocalDefined(g, suppressed, g.registry.types[k]);
  }

  /** A type from a suppressed namespace is never local, registered or not,
      unless it is an array or by-reference type. */
  lemma SuppressedNotLocal(g: Graph, suppressed: set<string>, t: TypeId)
    requires UniverseWF(g.universe) && t in g.universe
    requires g.universe[t].shape.Named?
    requires Namespace(g.universe[GenericBase(g.universe, t)]) in suppressed
    ensures LocalDefined(g, suppressed, t) && !IsLocal(g, suppressed, t)
  {
    NamedLocalDefined(g, suppressed, t);
  }

  /** Every level of the array/by-reference chain above `t`, and the type
      under it, has a full name to look up. */
  predicate ChainNamed(u: Universe, t: TypeId)
    requires UniverseWF(u) && t in u
  {
    forall k :: 0 <= k <= Depth(u, t) ==> u[GenericBase(u, Peel(u, t, k))].fullName.Some?
  }

  /** Locality along an array/by-reference chain, as a reference definition:
      `t` is local exactly when some level of the chain, `t` itself down to
      the type under every array and by-reference level, is shown. */
  lemma {:induction false} LocalAlongChain(g: Graph, suppressed: set<string>, t: TypeId)
    requires UniverseWF(g.universe) && t in g.universe
    requires ChainNamed(g.universe, t)
    ensures LocalDefined(g, suppressed, t)
    ensures IsLocal(g, suppressed, t) <==>
      exists k :: 0 <= k <= Depth(g.universe, t) && Shown(g, suppressed, GenericBase(g.universe, Peel(g.universe, t, k)))
    decreases t
  {
    var u := g.universe;
    assert DescWF(u, t, u[t]);
    GenericBaseFacts(u, t);
    assert Peel(u, t, 0) == t;
    assert u[GenericBase(u, Peel(u, t, 0))].fullName.Some?;
    if Shown(g, suppressed, GenericBase(u, t)) {
      assert Shown(g, suppressed, GenericBase(u, Peel(u, t, 0)));
      assert LocalDefined(g, suppressed, t);
      assert IsLocal(g, suppressed, t);
    } else if IsIndirect(u[t]) {
      var e := ElementType(u[t]);
      assert ChainNamed(u, e) by {
        forall k | 0 <= k <= Depth(u, e)
          ensures u[GenericBase(u, Peel(u, e, k))].fullName.Some?
        {
          assert Peel(u, t, k + 1) == Peel(u, e, k);
        }
      }
      LocalAlongChain(g, suppressed, e);
      assert GenericBase(u, t) == t;
      assert LocalDefined(g, suppressed, t);
      assert IsLocal(g, suppressed, t) <==> IsLocal(g, suppressed, e);
      assert Depth(u, t) == 1 + Depth(u, e);
      assert forall k :: 0 <= k <= Depth(u, e) ==> Peel(u, t, k + 1) == Peel(u, e, k);
      if IsLocal(g, suppressed, t) {
        var k :| 0 <= k <= Depth(u, e) && Shown(g, suppressed, GenericBase(u, Peel(u, e, k)));
        assert Shown(g, suppressed, GenericBase(u, Peel(u, t, k + 1)));
        assert 0 <= k + 1 <= Depth(u, t);
        assert exists k :: 0 <= k <= Depth(g.universe, t) && Shown(g, suppressed, GenericBase(g.universe, Peel(g.universe, t, k)));
      }
      if !IsLocal(g, suppressed, t) {
        assert GenericBase(u, t) == t;
        assert !IsLocal(g, suppressed, e);
        forall k | 0 <= k <= Depth(u, t)
          ensures !Shown(g, suppressed, GenericBase(u, Peel(u, t, k)))
        {
          if k > 0 {
            assert Peel(u, t, k) == Peel(u, e, k - 1);
            assert !Shown(g, suppressed, GenericBase(u, Peel(u, e, k - 1)));
          }
        }
        assert !exists k :: 0 <= k <= Depth(g.universe, t) && Shown(g, suppressed, GenericBase(g.universe, Peel(g.universe, t, k)));
      }
    } else {
      assert LocalDefined(g, suppressed, t) && !IsLocal(g, suppressed, t);
      forall k | 0 <= k <= Depth(u, t)
        ensures !Shown(g, suppressed, GenericBase(u, Peel(u, t, k)))
      {
        assert k == 0;
      }
    }
  }
}
