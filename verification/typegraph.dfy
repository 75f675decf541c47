/** The type graph (NDocProc.cs 143-225): `Load` caches assemblies by name
    and collects documentation entries by DocID, last writer winning;
    `Reflect` registers every reflected type under its namespace and its
    full name (again last writer winning), then indexes direct subtypes
    through base types and direct interfaces. */
module TypeGraph {
  import opened Wrappers
  import opened Seqs
  import opened TypeModel

  /** An assembly as the metadata provider returns it: its name and the
      types `GetTypes()` lists, in order. */
  datatype Assembly = Assembly(name: string, types: seq<TypeId>)

  /** One child element of a documentation entry (`summary`, `remarks`,
      `param`, ...), kept as its element name and its opaque markup. */
  datatype Fragment = Fragment(element: string, markup: string)

  /** A `member` element of a documentation file: its `name` attribute (a
      DocID) and its child elements. */
  datatype MemberDoc = MemberDoc(name: string, fragments: seq<Fragment>)

  /** A compiler-written documentation file: the names under
      /doc/assembly/name and the `member` elements, in document order. */
  datatype DocFile = DocFile(assemblyNames: seq<string>, memberDocs: seq<MemberDoc>)

  /** An assembly name the metadata provider cannot resolve: fatal for the run. */
  datatype LoadError = MetadataLoadError(assemblyName: string)

  /** What the `Load` calls accumulate: the by-name assembly cache, with the
      order names were first cached in (a .NET `Dictionary` enumerates in that
      order), and the documentation entries by DocID. */
  datatype LoadState = LoadState(
    assemblyOrder: seq<string>,
    assemblies: map<string, Assembly>,
    docs: map<string, seq<Fragment>>)

  predicate CacheWF(s: LoadState) {
    NoDup(s.assemblyOrder) && Elems(s.assemblyOrder) == s.assemblies.Keys
  }

  /** A name the cache already holds or the provider can load. */
  predicate Resolvable(s: LoadState, available: map<string, Assembly>, n: string) {
    n in s.assemblies || n in available
  }

  /** The assembly loop of `Load`: an uncached name is loaded once from the
      provider (`available`) and cached; a cached name reuses its entry; an
      unresolvable name aborts with that name. */
  function LoadAssemblies(s: LoadState, names: seq<string>, available: map<string, Assembly>)
    : (r: Result<LoadState, LoadError>)
    requires CacheWF(s)
    ensures r.Success? <==> forall i :: 0 <= i < |names| ==> Resolvable(s, available, names[i])
    ensures r.Success? ==> CacheWF(r.value) && r.value.docs == s.docs
    decreases |names|
  {
    if |names| == 0 then Success(s)
    else
      var n := names[0];
      if n in s.assemblies then
        LoadAssemblies(s, names[1..], available)
      else if n in available then
        var s' := s.(assemblyOrder := AppendNew(s.assemblyOrder, n),
                     assemblies := s.assemblies[n := available[n]]);
        LoadAssemblies(s', names[1..], available)
      else
        Failure(MetadataLoadError(n))
  }

  /** The error names the first name that is neither cached nor loadable. */
  lemma {:induction false} LoadAssembliesFailsAtFirst(s: LoadState, names: seq<string>, available: map<string, Assembly>)
    requires CacheWF(s)
    requires LoadAssemblies(s, names, available).Failure?
    ensures exists i :: (0 <= i < |names| && names[i] == LoadAssemblies(s, names, available).error.assemblyName
                         && !Resolvable(s, available, names[i])
                         && (forall j :: 0 <= j < i ==> Resolvable(s, available, names[j])))
    decreases |names|
  {
    var n := names[0];
    if n in s.assemblies {
      LoadAssembliesFailsAtFirst(s, names[1..], available);
      var i :| 0 <= i < |names[1..]| && names[1..][i] == LoadAssemblies(s, names, available).error.assemblyName
        && !Resolvable(s, available, names[1..][i])
        && (forall j :: 0 <= j < i ==> Resolvable(s, available, names[1..][j]));
      assert names[i + 1] == names[1..][i];
      assert forall j :: 1 <= j < i + 1 ==> names[j] == names[1..][j - 1];
    } else if n in available {
      var s' := s.(assemblyOrder := AppendNew(s.assemblyOrder, n),
                   assemblies := s.assemblies[n := available[n]]);
      LoadAssembliesFailsAtFirst(s', names[1..], available);
      var i :| 0 <= i < |names[1..]| && names[1..][i] == LoadAssemblies(s, names, available).error.assemblyName
        && !Resolvable(s', available, names[1..][i])
        && (forall j :: 0 <= j < i ==> Resolvable(s', available, names[1..][j]));
      assert names[i + 1] == names[1..][i];
      assert forall j :: 1 <= j < i + 1 ==> names[j] == names[1..][j - 1];
    } else {
      assert names[0] == n;
    }
  }

  /** On success the cache holds every requested name; an entry that was
      cached keeps its assembly (it is not reloaded) and a new one is the
      provider's; earlier cache order is kept. */
  lemma {:induction false} LoadAssembliesCaches(s: LoadState, names: seq<string>, available: map<string, Assembly>)
    requires CacheWF(s)
    requires LoadAssemblies(s, names, available).Success?
    ensures var c := LoadAssemblies(s, names, available).value;
      && c.assemblies.Keys == s.assemblies.Keys + Elems(names)
      && (forall n :: n in s.assemblies ==> c.assemblies[n] == s.assemblies[n])
      && (forall n :: n in c.assemblies && n !in s.assemblies ==>
            n in available && c.assemblies[n] == available[n])
      && s.assemblyOrder <= c.assemblyOrder
    decreases |names|
  {
    if |names| > 0 {
      var n := names[0];
      assert Elems(names) == {n} + Elems(names[1..]) by {
        assert forall i :: 1 <= i < |names| ==> names[i] == names[1..][i - 1];
        assert forall i :: 0 <= i < |names[1..]| ==> names[1..][i] == names[i + 1];
      }
      if n in s.assemblies {
        LoadAssembliesCaches(s, names[1..], available);
      } else {
        var s' := s.(assemblyOrder := AppendNew(s.assemblyOrder, n),
                     assemblies := s.assemblies[n := available[n]]);
        LoadAssembliesCaches(s', names[1..], available);
      }
    }
  }

  /** The documentation entry named `key` that comes last in `nodes`. */
  function LastDoc(nodes: seq<MemberDoc>, key: string): (r: Option<seq<Fragment>>)
    ensures r.None? <==> key !in DocNames(nodes)
    decreases |nodes|
  {
    if |nodes| == 0 then None
    else if nodes[|nodes| - 1].name == key then Some(nodes[|nodes| - 1].fragments)
    else
      assert DocNames(nodes) == DocNames(nodes[..|nodes| - 1]) + {nodes[|nodes| - 1].name} by {
        assert forall i :: 0 <= i < |nodes| - 1 ==> nodes[..|nodes| - 1][i] == nodes[i];
      }
      LastDoc(nodes[..|nodes| - 1], key)
  }

  function DocNames(nodes: seq<MemberDoc>): set<string> {
    set i | 0 <= i < |nodes| :: nodes[i].name
  }

  /** The member loop of `Load`, `members[name] = node` in document order:
      every name ends up with its last entry in this file, and names the file
      does not mention keep what earlier files gave them. */
  function MergeDocs(docs: map<string, seq<Fragment>>, nodes: seq<MemberDoc>)
    : (r: map<string, seq<Fragment>>)
    ensures r.Keys == docs.Keys + DocNames(nodes)
    ensures forall k :: k in r && LastDoc(nodes, k).Some? ==> r[k] == LastDoc(nodes, k).value
    ensures forall k :: k in r && LastDoc(nodes, k).None? ==> k in docs && r[k] == docs[k]
    decreases |nodes|
  {
    if |nodes| == 0 then docs
    else
      var init := nodes[..|nodes| - 1];
      var last := nodes[|nodes| - 1];
      assert DocNames(nodes) == DocNames(init) + {last.name} by {
        assert forall i :: 0 <= i < |init| ==> init[i] == nodes[i];
      }
      MergeDocs(docs, init)[last.name := last.fragments]
  }

  /** `Load` of one documentation file: its assemblies, then its entries.
      An unresolvable assembly aborts before any entry is taken. */
  function Load(s: LoadState, file: DocFile, available: map<string, Assembly>)
    : (r: Result<LoadState, LoadError>)
    requires CacheWF(s)
    ensures r.Success? <==>
      forall i :: 0 <= i < |file.assemblyNames| ==> Resolvable(s, available, file.assemblyNames[i])
    ensures r.Success? ==> CacheWF(r.value)
    ensures r.Success? ==> r.value.docs == MergeDocs(s.docs, file.memberDocs)
  {
    match LoadAssemblies(s, file.assemblyNames, available)
    case Failure(e) => Failure(e)
    case Success(s') => Success(s'.(docs := MergeDocs(s'.docs, file.memberDocs)))
  }

  /** Loading names that are all cached changes nothing. */
  lemma {:induction false} LoadCachedIsIdentity(s: LoadState, names: seq<string>, available: map<string, Assembly>)
    requires CacheWF(s)
    requires forall i :: 0 <= i < |names| ==> names[i] in s.assemblies
    ensures LoadAssemblies(s, names, available) == Success(s)
    decreases |names|
  {
    if |names| > 0 {
      LoadCachedIsIdentity(s, names[1..], available);
    }
  }

  /** Merging the same entries twice is merging them once. */
  lemma MergeDocsIdempotent(docs: map<string, seq<Fragment>>, nodes: seq<MemberDoc>)
    ensures MergeDocs(MergeDocs(docs, nodes), nodes) == MergeDocs(docs, nodes)
  {
    var once := MergeDocs(docs, nodes);
    var twice := MergeDocs(once, nodes);
    assert twice.Keys == once.Keys;
    forall k | k in twice
      ensures twice[k] == once[k]
    {
    }
  }

  /** `Load` is idempotent: loading the same file again reuses every cached
      assembly and rewrites every entry with the value it already has. */
  lemma LoadIdempotent(s: LoadState, file: DocFile, available: map<string, Assembly>)
    requires CacheWF(s)
    requires Load(s, file, available).Success?
    ensures var s' := Load(s, file, available).value;
            Load(s', file, available) == Success(s')
  {
    var mid := LoadAssemblies(s, file.assemblyNames, available).value;
    var s' := Load(s, file, available).value;
    LoadAssembliesCaches(s, file.assemblyNames, available);
    assert forall i :: 0 <= i < |file.assemblyNames| ==> file.assemblyNames[i] in s'.assemblies by {
      forall i | 0 <= i < |file.assemblyNames|
        ensures file.assemblyNames[i] in s'.assemblies
      {
        assert file.assemblyNames[i] in Elems(file.assemblyNames);
      }
    }
    LoadCachedIsIdentity(s', file.assemblyNames, available);
    MergeDocsIdempotent(mid.docs, file.memberDocs);
  }

  /** The types of the cached assemblies in cache order, each assembly's in
      `GetTypes()` order: the order `Reflect` visits them. */
  function AllTypes(order: seq<string>, assemblies: map<string, Assembly>): seq<TypeId>
    requires Elems(order) <= assemblies.Keys
    decreases |order|
  {
    if |order| == 0 then []
    else
      assert order[|order| - 1] in Elems(order);
      assert Elems(order[..|order| - 1]) <= Elems(order) by {
        assert forall i :: 0 <= i < |order| - 1 ==> order[..|order| - 1][i] == order[i];
      }
      AllTypes(order[..|order| - 1], assemblies) + assemblies[order[|order| - 1]].types
  }

  /** The registries `Reflect` fills: types by namespace and by full name,
      with the orders in which each key was first inserted. */
  datatype Registry = Registry(
    nsOrder: seq<string>,
    namespaces: map<string, seq<TypeId>>,
    typeOrder: seq<string>,
    types: map<string, TypeId>)

  /** Reflection gives every type of an assembly a full name; a null one
      would make the source's dictionary insertion throw. */
  predicate Registrable(u: Universe, ts: seq<TypeId>) {
    forall i :: 0 <= i < |ts| ==> ts[i] in u && u[ts[i]].fullName.Some?
  }

  /** The last type in `ts` whose full name is `k`. */
  function LastNamed(u: Universe, ts: seq<TypeId>, k: string): (r: Option<TypeId>)
    requires Registrable(u, ts)
    ensures r.Some? ==> r.value in ts && u[r.value].fullName == Some(k)
    ensures r.None? <==> forall i :: 0 <= i < |ts| ==> u[ts[i]].fullName != Some(k)
    decreases |ts|
  {
    if |ts| == 0 then None
    else if u[ts[|ts| - 1]].fullName == Some(k) then Some(ts[|ts| - 1])
    else
      assert forall i :: 0 <= i < |ts| - 1 ==> ts[..|ts| - 1][i] == ts[i];
      LastNamed(u, ts[..|ts| - 1], k)
  }

  /** The types of `ts` in namespace `ns`, in order. */
  function InNamespace(u: Universe, ts: seq<TypeId>, ns: string): (r: seq<TypeId>)
    requires Registrable(u, ts)
    ensures forall i :: 0 <= i < |r| ==> r[i] in ts && Namespace(u[r[i]]) == ns
    ensures forall i :: 0 <= i < |ts| && Namespace(u[ts[i]]) == ns ==> ts[i] in r
    decreases |ts|
  {
    if |ts| == 0 then []
    else
      var init := ts[..|ts| - 1];
      var t := ts[|ts| - 1];
      assert forall i :: 0 <= i < |init| ==> init[i] == ts[i];
      InNamespace(u, init, ns) + (if Namespace(u[t]) == ns then [t] else [])
  }

  function FullNames(u: Universe, ts: seq<TypeId>): set<string>
    requires Registrable(u, ts)
  {
    set i | 0 <= i < |ts| :: u[ts[i]].fullName.value
  }

  function NamespacesOf(u: Universe, ts: seq<TypeId>): set<string>
    requires Registrable(u, ts)
  {
    set i | 0 <= i < |ts| :: Namespace(u[ts[i]])
  }

  /** The first loop of `Reflect` over `ts`: each type is appended to its
      namespace's list and stored under its full name, a later type with the
      same full name replacing the earlier one. */
  function Register(u: Universe, ts: seq<TypeId>): (r: Registry)
    requires Registrable(u, ts)
    ensures NoDup(r.typeOrder) && Elems(r.typeOrder) == r.types.Keys
    ensures NoDup(r.nsOrder) && Elems(r.nsOrder) == r.namespaces.Keys
    decreases |ts|
  {
    if |ts| == 0 then Registry([], map[], [], map[])
    else
      var t := ts[|ts| - 1];
      assert Registrable(u, ts[..|ts| - 1]) by {
        assert forall i :: 0 <= i < |ts| - 1 ==> ts[..|ts| - 1][i] == ts[i];
      }
      var prev := Register(u, ts[..|ts| - 1]);
      var ns := Namespace(u[t]);
      var k := u[t].fullName.value;
      Registry(
        AppendNew(prev.nsOrder, ns),
        prev.namespaces[ns := (if ns in prev.namespaces then prev.namespaces[ns] else []) + [t]],
        AppendNew(prev.typeOrder, k),
        prev.types[k := t])
  }

  /** The full-name registry maps exactly the full names occurring in `ts`,
      each to the last type carrying it. */
  lemma {:induction false} RegisterTypes(u: Universe, ts: seq<TypeId>)
    requires Registrable(u, ts)
    ensures Register(u, ts).types.Keys == FullNames(u, ts)
    ensures forall k :: k in Register(u, ts).types ==> LastNamed(u, ts, k) == Some(Register(u, ts).types[k])
    decreases |ts|
  {
    if |ts| > 0 {
      var init := ts[..|ts| - 1];
      assert forall i :: 0 <= i < |init| ==> init[i] == ts[i];
      assert FullNames(u, ts) == FullNames(u, init) + {u[ts[|ts| - 1]].fullName.value};
      RegisterTypes(u, init);
    }
  }

  /** The namespace registry maps exactly the namespaces occurring in `ts`,
      each to the types of `ts` in it, in order. */
  lemma {:induction false} RegisterNamespaces(u: Universe, ts: seq<TypeId>)
    requires Registrable(u, ts)
    ensures Register(u, ts).namespaces.Keys == NamespacesOf(u, ts)
    ensures forall ns :: ns in Register(u, ts).namespaces ==>
      Register(u, ts).namespaces[ns] == InNamespace(u, ts, ns)
    decreases |ts|
  {
    if |ts| > 0 {
      var init := ts[..|ts| - 1];
      var t := ts[|ts| - 1];
      assert forall i :: 0 <= i < |init| ==> init[i] == ts[i];
      assert NamespacesOf(u, ts) == NamespacesOf(u, init) + {Namespace(u[t])};
      RegisterNamespaces(u, init);
      var prev := Register(u, init);
      var r := Register(u, ts);
      forall ns | ns in r.namespaces
        ensures r.namespaces[ns] == InNamespace(u, ts, ns)
      {
        assert InNamespace(u, ts, ns) == InNamespace(u, init, ns) + (if Namespace(u[t]) == ns then [t] else []);
        if ns == Namespace(u[t]) && ns !in prev.namespaces {
          InNamespaceEmpty(u, init, ns);
        }
      }
    }
  }

  lemma {:induction false} InNamespaceEmpty(u: Universe, ts: seq<TypeId>, ns: string)
    requires Registrable(u, ts)
    requires ns !in NamespacesOf(u, ts)
    ensures InNamespace(u, ts, ns) == []
    decreases |ts|
  {
    if |ts| > 0 {
      var init := ts[..|ts| - 1];
      assert forall i :: 0 <= i < |init| ==> init[i] == ts[i];
      assert NamespacesOf(u, init) <= NamespacesOf(u, ts);
      InNamespaceEmpty(u, init, ns);
    }
  }

  /** `InterfaceRejector`: the filter `FindInterfaces` applies, accepting a
      candidate exactly when it is not among the interfaces to reject. */
  method InterfaceRejector(candidate: TypeId, interfacesToReject: set<TypeId>) returns (accept: bool)
    ensures accept <==> candidate !in interfacesToReject
  {
    var remaining := interfacesToReject;
    while remaining != {}
      invariant remaining <= interfacesToReject
      invariant candidate !in interfacesToReject - remaining
      decreases remaining
    {
      var t :| t in remaining;
      if candidate == t {
        return false;
      }
      remaining := remaining - {t};
    }
    return true;
  }

  /** The interfaces a type introduces itself: all of them when it has no
      base type, otherwise those its base type does not already implement. */
  function DirectInterfaces(u: Universe, t: TypeId): set<TypeId>
    requires UniverseWF(u) && t in u
  {
    match u[t].baseType
    case None => u[t].interfaces
    case Some(b) => u[t].interfaces - u[b].interfaces
  }

  /** `GetDirectInterfaces`: `t.GetInterfaces()` with no base type, otherwise
      `t.FindInterfaces(InterfaceRejector, base.GetInterfaces())`. The
      result is a subset of t's interfaces, disjoint from the base's, and
      misses none that the base lacks. */
  method GetDirectInterfaces(u: Universe, t: TypeId) returns (r: set<TypeId>)
    requires UniverseWF(u) && t in u
    ensures r == DirectInterfaces(u, t)
    ensures r <= u[t].interfaces
    ensures u[t].baseType.None? ==> r == u[t].interfaces
    ensures u[t].baseType.Some? ==>
      && r !! u[u[t].baseType.value].interfaces
      && u[t].interfaces - u[u[t].baseType.value].interfaces <= r
  {
    var d := u[t];
    if d.baseType.None? {
      return d.interfaces;
    }
    assert DescWF(u, t, d);
    var baseInterfaces := u[d.baseType.value].interfaces;
    r := {};
    var remaining := d.interfaces;
    while remaining != {}
      invariant remaining <= d.interfaces
      invariant r == (d.interfaces - remaining) - baseInterfaces
      decreases remaining
    {
      var i :| i in remaining;
      var keep := InterfaceRejector(i, baseInterfaces);
      if keep {
        r := r + {i};
      }
      remaining := remaining - {i};
    }
  }

  /** `b` is a direct supertype of `d`: its base type or one of its direct
      interfaces. */
  predicate DirectSupertype(u: Universe, b: TypeId, d: TypeId)
    requires UniverseWF(u) && d in u
  {
    u[d].baseType == Some(b) || b in DirectInterfaces(u, d)
  }

  function SubtypesOf(ks: map<TypeId, set<TypeId>>, b: TypeId): set<TypeId> {
    if b in ks then ks[b] else {}
  }

  predicate Edge(ks: map<TypeId, set<TypeId>>, b: TypeId, d: TypeId) {
    b in ks && d in ks[b]
  }

  /** `AddKnownSubtype`: record `derived` under `base`, creating the entry on
      first use; a null base adds nothing. No other entry changes. */
  function AddKnownSubtype(ks: map<TypeId, set<TypeId>>, base: Option<TypeId>, derived: TypeId)
    : (r: map<TypeId, set<TypeId>>)
    ensures base.None? ==> r == ks
    ensures base.Some? ==> r.Keys == ks.Keys + {base.value}
    ensures base.Some? ==> r[base.value] == SubtypesOf(ks, base.value) + {derived}
    ensures forall b :: b in ks && base != Some(b) ==> r[b] == ks[b]
    ensures forall b: TypeId, d: TypeId :: Edge(r, b, d) <==> Edge(ks, b, d) || (base == Some(b) && d == derived)
  {
    match base
    case None => ks
    case Some(b) => ks[b := SubtypesOf(ks, b) + {derived}]
  }

  /** The types stored under the first `i` keys of `order`. */
  function Visited(types: map<string, TypeId>, order: seq<string>, i: nat): set<TypeId>
    requires i <= |order|
    requires Elems(order) <= types.Keys
  {
    set j | 0 <= j < i :: (assert order[j] in Elems(order); types[order[j]])
  }

  /** The second loop of `Reflect`: for every registered type, an edge from
      its base type and one from each direct interface. The index holds
      exactly the direct edges into registered types, and no empty entry. */
  method IndexSubtypes(u: Universe, types: map<string, TypeId>, order: seq<string>)
    returns (ks: map<TypeId, set<TypeId>>)
    requires UniverseWF(u)
    requires forall k :: k in types ==> types[k] in u
    requires Elems(order) == types.Keys
    ensures forall b: TypeId, d: TypeId :: Edge(ks, b, d) <==> d in types.Values && DirectSupertype(u, b, d)
    ensures forall b :: b in ks ==> ks[b] != {}
  {
    ks := map[];
    var i := 0;
    while i < |order|
      invariant 0 <= i <= |order|
      invariant forall b: TypeId, d: TypeId :: Edge(ks, b, d) <==>
        d in Visited(types, order, i) && DirectSupertype(u, b, d)
      invariant forall b :: b in ks ==> ks[b] != {}
    {
      assert order[i] in Elems(order);
      var t := types[order[i]];
      ks := AddTypeEdges(u, ks, t);
      assert Visited(types, order, i + 1) == Visited(types, order, i) + {t};
      i := i + 1;
    }
    assert types.Values == Visited(types, order, |order|) by {
      forall d | d in types.Values
        ensures d in Visited(types, order, |order|)
      {
        var k :| k in types && types[k] == d;
        assert k in Elems(order);
        var j :| 0 <= j < |order| && order[j] == k;
      }
    }
  }

  /** The body of the second loop for one type `t`: exactly the edges into
      `t` are added. */
  method AddTypeEdges(u: Universe, ks0: map<TypeId, set<TypeId>>, t: TypeId)
    returns (ks: map<TypeId, set<TypeId>>)
    requires UniverseWF(u) && t in u
    requires forall b :: b in ks0 ==> ks0[b] != {}
    ensures forall b: TypeId, d: TypeId :: Edge(ks, b, d) <==> Edge(ks0, b, d) || (d == t && DirectSupertype(u, b, t))
    ensures forall b :: b in ks ==> ks[b] != {}
  {
    ks := AddKnownSubtype(ks0, u[t].baseType, t);
    var direct := GetDirectInterfaces(u, t);
    var remaining := direct;
    while remaining != {}
      invariant remaining <= direct
      invariant forall b: TypeId, d: TypeId :: Edge(ks, b, d) <==>
        Edge(ks0, b, d) || (d == t && (u[t].baseType == Some(b) || b in direct - remaining))
      invariant forall b :: b in ks ==> ks[b] != {}
      decreases remaining
    {
      var i :| i in remaining;
      ks := AddKnownSubtype(ks, Some(i), t);
      remaining := remaining - {i};
    }
  }

  /** What `Reflect` leaves behind: the registries and the index of known
      subtypes, over the universe of described types. */
  datatype Graph = Graph(universe: Universe, registry: Registry, knownSubtypes: map<TypeId, set<TypeId>>)

  /** The invariant of a reflected graph: registered types are described
      and sit under their own full name and namespace, the key orders list
      each key once, and the subtype index holds exactly the direct edges
      into registered types. */
  ghost predicate GraphWF(g: Graph) {
    var u := g.universe;
    var reg := g.registry;
    && UniverseWF(u)
    && (forall k :: k in reg.types ==> reg.types[k] in u && u[reg.types[k]].fullName == Some(k))
    && (forall ns, i :: ns in reg.namespaces && 0 <= i < |reg.namespaces[ns]| ==>
          reg.namespaces[ns][i] in u && Namespace(u[reg.namespaces[ns][i]]) == ns)
    && NoDup(reg.typeOrder) && Elems(reg.typeOrder) == reg.types.Keys
    && NoDup(reg.nsOrder) && Elems(reg.nsOrder) == reg.namespaces.Keys
    && (forall b: TypeId, d: TypeId :: Edge(g.knownSubtypes, b, d) <==>
          d in reg.types.Values && d in u && DirectSupertype(u, b, d))
  }

  /** `Reflect` over every loaded assembly: register all their types, then
      index the direct subtype edges of the registered ones. */
  method Reflect(u: Universe, s: LoadState) returns (g: Graph)
    requires UniverseWF(u) && CacheWF(s)
    requires Registrable(u, AllTypes(s.assemblyOrder, s.assemblies))
    ensures GraphWF(g) && g.universe == u
    ensures var ts := AllTypes(s.assemblyOrder, s.assemblies);
      && g.registry.types.Keys == FullNames(u, ts)
      && (forall k :: k in g.registry.types ==> LastNamed(u, ts, k) == Some(g.registry.types[k]))
      && g.registry.namespaces.Keys == NamespacesOf(u, ts)
      && (forall ns :: ns in g.registry.namespaces ==> g.registry.namespaces[ns] == InNamespace(u, ts, ns))
  {
    var ts := AllTypes(s.assemblyOrder, s.assemblies);
    var reg := Register(u, ts);
    RegisterTypes(u, ts);
    RegisterNamespaces(u, ts);
    var ks := IndexSubtypes(u, reg.types, reg.typeOrder);
    g := Graph(u, reg, ks);
  }
}
