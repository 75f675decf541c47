/** The pages `Generate` writes (NDocProc.cs 242-306 and 543-560): the
    configuration page, the index of namespaces and types, which types get a
    page of their own, and the namespace pages. Suppression acts only here:
    suppressed namespaces and their types stay in the registries and in the
    subtype index, and are only left off the pages. */
module Generate {
  import opened Wrappers
  import opened Seqs
  import opened Ordering
  import opened TypeModel
  import opened TypeGraph
  import opened Locality
  import opened Naming
  import opened XmlTree
  import opened Rendering

  /** `GenerateConfig`: config.xml records the googlenonlocaltypes setting, which `/nogoogledtypes` turns off. */
  function ConfigPage(googleNonlocalTypes: bool): Node {
    Element("options", [], [Element("option", [Attr("googlenonlocaltypes", BoolText(googleNonlocalTypes))], [])])
  }

  /** How the stylesheets read config.xml back. */
  function ReadConfig(n: Node): Option<bool> {
    if n.Element? && n.tag == "options" && |n.children| == 1 && n.children[0].Element? then
      match AttrValue(n.children[0].attrs, "googlenonlocaltypes")
      case Some(v) => if v == "true" then Some(true) else if v == "false" then Some(false) else None
      case None => None
    else None
  }

  lemma ConfigRoundTrip(googleNonlocalTypes: bool)
    ensures ReadConfig(ConfigPage(googleNonlocalTypes)) == Some(googleNonlocalTypes)
  {
    AttrValueAt(ConfigPage(googleNonlocalTypes).children[0].attrs, "googlenonlocaltypes", 0);
  }

  /** The namespaces of `names` that are not suppressed, in order. */
  function ShownNamespaces(names: seq<string>, suppressed: set<string>): (r: seq<string>)
    ensures forall n :: n in r <==> n in names && NotSuppressed(suppressed, n)
    ensures |r| <= |names|
    decreases |names|
  {
    if |names| == 0 then []
    else
      assert names == [names[0]] + names[1..];
      (if NotSuppressed(suppressed, names[0]) then [names[0]] else []) + ShownNamespaces(names[1..], suppressed)
  }

  /** Dropping the suppressed namespaces keeps the order of the rest. */
  lemma {:induction false} ShownNamespacesAscending(names: seq<string>, suppressed: set<string>,
                                                    le: (string, string) -> bool)
    requires Ascending(names, le)
    ensures Ascending(ShownNamespaces(names, suppressed), le)
    decreases |names|
  {
    if |names| > 0 {
      assert Ascending(names[1..], le) by {
        forall i, j | 0 <= i < j < |names| - 1
          ensures le(names[1..][i], names[1..][j])
        {
          assert names[1..][i] == names[i + 1] && names[1..][j] == names[j + 1];
        }
      }
      ShownNamespacesAscending(names[1..], suppressed, le);
      var rest := ShownNamespaces(names[1..], suppressed);
      var r := ShownNamespaces(names, suppressed);
      forall i, j | 0 <= i < j < |r|
        ensures le(r[i], r[j])
      {
        if NotSuppressed(suppressed, names[0]) {
          assert r[j] == rest[j - 1];
          if i == 0 {
            assert rest[j - 1] in rest;
            var k :| 0 <= k < |names[1..]| && names[1..][k] == rest[j - 1];
            assert names[k + 1] == rest[j - 1];
          } else {
            assert r[i] == rest[i - 1];
          }
        } else {
          assert r == rest;
        }
      }
    }
  }

  /** Every registered type is described in `u` and has a full name, as
      `GraphWF` guarantees. */
  predicate RegistryIn(u: Universe, types: map<string, TypeId>) {
    forall k :: k in types ==> types[k] in u && u[types[k]].fullName.Some?
  }

  /** The types stored under `keys` whose namespace is not suppressed, in
      key order. */
  function ShownTypes(u: Universe, types: map<string, TypeId>, suppressed: set<string>, keys: seq<string>)
    : (r: seq<TypeId>)
    requires RegistryIn(u, types)
    requires forall i :: 0 <= i < |keys| ==> keys[i] in types
    ensures forall i :: 0 <= i < |r| ==> r[i] in u
    ensures forall t :: t in r <==> exists i :: 0 <= i < |keys| && types[keys[i]] == t
                                      && NotSuppressed(suppressed, Namespace(u[t]))
    decreases |keys|
  {
    if |keys| == 0 then []
    else
      var t := types[keys[0]];
      var rest := ShownTypes(u, types, suppressed, keys[1..]);
      assert forall i :: 1 <= i < |keys| ==> keys[i] == keys[1..][i - 1];
      assert forall i :: 0 <= i < |keys| - 1 ==> keys[1..][i] == keys[i + 1];
      (if NotSuppressed(suppressed, Namespace(u[t])) then [t] else []) + rest
  }

  /** Under a transitive comparer, the namespaces shown from a sorted list
      are in order. */
  lemma ShownNamespacesSorted(names: seq<string>, suppressed: set<string>, le: (string, string) -> bool)
    requires SortedBy(names, le)
    ensures Transitive(le) ==> Ascending(ShownNamespaces(names, suppressed), le)
  {
    if Transitive(le) {
      SortedAscending(names, le);
      ShownNamespacesAscending(names, suppressed, le);
    }
  }

  /** Under a transitive comparer, the types shown along sorted keys are in
      the order of their full names. */
  lemma ShownTypesSorted(u: Universe, types: map<string, TypeId>, suppressed: set<string>,
                         keys: seq<string>, le: (string, string) -> bool)
    requires NamedAsKeys(u, types) && RegistryIn(u, types)
    requires forall i :: 0 <= i < |keys| ==> keys[i] in types
    requires SortedBy(keys, le)
    ensures Transitive(le) ==> NamesAscending(u, ShownTypes(u, types, suppressed, keys), le)
  {
    if Transitive(le) {
      SortedAscending(keys, le);
      ShownTypesAscending(u, types, suppressed, keys, le);
    }
  }

  /** Registered types sit under their own full name, as `GraphWF`
      guarantees. */
  predicate NamedAsKeys(u: Universe, types: map<string, TypeId>) {
    forall k :: k in types ==> types[k] in u && u[types[k]].fullName == Some(k)
  }

  /** The types of `ts` are listed in the order of their full names. */
  predicate NamesAscending(u: Universe, ts: seq<TypeId>, le: (string, string) -> bool)
    requires forall i :: 0 <= i < |ts| ==> ts[i] in u
  {
    forall i, j :: 0 <= i < j < |ts| ==> le(FullOrName(u[ts[i]]), FullOrName(u[ts[j]]))
  }

  lemma NamesAscendingCons(u: Universe, t: TypeId, rest: seq<TypeId>, le: (string, string) -> bool)
    requires t in u && forall i :: 0 <= i < |rest| ==> rest[i] in u
    requires NamesAscending(u, rest, le)
    requires forall j :: 0 <= j < |rest| ==> le(FullOrName(u[t]), FullOrName(u[rest[j]]))
    ensures NamesAscending(u, [t] + rest, le)
  {
    var r := [t] + rest;
    forall i, j | 0 <= i < j < |r|
      ensures le(FullOrName(u[r[i]]), FullOrName(u[r[j]]))
    {
      assert r[j] == rest[j - 1];
      if i > 0 {
        assert r[i] == rest[i - 1];
      }
    }
  }

  /** Selecting types along keys in order lists them in the order of their
      full names. */
  lemma {:induction false} ShownTypesAscending(u: Universe, types: map<string, TypeId>, suppressed: set<string>,
                                               keys: seq<string>, le: (string, string) -> bool)
    requires NamedAsKeys(u, types) && RegistryIn(u, types)
    requires forall i :: 0 <= i < |keys| ==> keys[i] in types
    requires Ascending(keys, le)
    ensures NamesAscending(u, ShownTypes(u, types, suppressed, keys), le)
    decreases |keys|
  {
    if |keys| > 0 {
      assert Ascending(keys[1..], le) by {
        forall i, j | 0 <= i < j < |keys| - 1
          ensures le(keys[1..][i], keys[1..][j])
        {
          assert keys[1..][i] == keys[i + 1] && keys[1..][j] == keys[j + 1];
        }
      }
      ShownTypesAscending(u, types, suppressed, keys[1..], le);
      var rest := ShownTypes(u, types, suppressed, keys[1..]);
      var t := types[keys[0]];
      if NotSuppressed(suppressed, Namespace(u[t])) {
        assert FullOrName(u[t]) == keys[0];
        forall j | 0 <= j < |rest|
          ensures le(FullOrName(u[t]), FullOrName(u[rest[j]]))
        {
          var k := KeyOfShown(u, types, suppressed, keys, j);
          assert le(keys[0], keys[k]);
        }
        NamesAscendingCons(u, t, rest, le);
      }
    }
  }

  /** An element of the selection along `keys[1..]` carries the full name
      of a later key. */
  lemma KeyOfShown(u: Universe, types: map<string, TypeId>, suppressed: set<string>, keys: seq<string>, j: nat)
    returns (k: nat)
    requires NamedAsKeys(u, types) && RegistryIn(u, types)
    requires forall i :: 0 <= i < |keys| ==> keys[i] in types
    requires |keys| > 0 && j < |ShownTypes(u, types, suppressed, keys[1..])|
    ensures 1 <= k < |keys| && FullOrName(u[ShownTypes(u, types, suppressed, keys[1..])[j]]) == keys[k]
  {
    var rest := ShownTypes(u, types, suppressed, keys[1..]);
    assert rest[j] in rest;
    var i :| 0 <= i < |keys[1..]| && types[keys[1..][i]] == rest[j] && NotSuppressed(suppressed, Namespace(u[rest[j]]));
    assert keys[i + 1] == keys[1..][i];
    k := i + 1;
  }

  /** Distinct keys select distinct types. */
  lemma {:induction false} ShownTypesNoDup(u: Universe, types: map<string, TypeId>, suppressed: set<string>,
                                           keys: seq<string>)
    requires NamedAsKeys(u, types) && RegistryIn(u, types)
    requires forall i :: 0 <= i < |keys| ==> keys[i] in types
    requires NoDup(keys)
    ensures NoDup(ShownTypes(u, types, suppressed, keys))
    decreases |keys|
  {
    if |keys| > 0 {
      assert NoDup(keys[1..]) by {
        assert forall i :: 0 <= i < |keys| - 1 ==> keys[1..][i] == keys[i + 1];
      }
      ShownTypesNoDup(u, types, suppressed, keys[1..]);
      var rest := ShownTypes(u, types, suppressed, keys[1..]);
      var r := ShownTypes(u, types, suppressed, keys);
      var t := types[keys[0]];
      assert FullOrName(u[t]) == keys[0];
      if NotSuppressed(suppressed, Namespace(u[t])) {
        assert r == [t] + rest;
        forall j | 0 <= j < |rest|
          ensures rest[j] != t
        {
          var k := KeyOfShown(u, types, suppressed, keys, j);
          assert keys[0] != keys[k];
        }
        NoDupCons(t, rest);
      } else {
        assert r == rest;
      }
    }
  }

  /** A `namespace` entry of the index: its name and the summary of its
      "N:" documentation entry. */
  function NamespaceEntry(c: Context, ns: string): Node {
    Element("namespace", [Attr("name", ns)], [ItemDocs(c.docs, "N:" + ns, ElementsNamed("summary"))])
  }

  /** A `typedoc` entry: the type reference and the summary of its DocID. */
  function TypeEntry(c: Context, t: TypeId): Node
    requires ContextWF(c) && t in c.graph.universe
  {
    Element("typedoc", [], [TypeRef(c, t, "", false),
                            ItemDocs(c.docs, TypeKey(c.graph.universe, t), ElementsNamed("summary"))])
  }

  function NamespaceEntries(c: Context, names: seq<string>): (r: seq<Node>)
    ensures |r| == |names|
  {
    seq(|names|, i requires 0 <= i < |names| => NamespaceEntry(c, names[i]))
  }

  function TypeEntries(c: Context, ts: seq<TypeId>): (r: seq<Node>)
    requires ContextWF(c)
    requires forall i :: 0 <= i < |ts| ==> ts[i] in c.graph.universe
    ensures |r| == |ts|
  {
    seq(|ts|, i requires 0 <= i < |ts| => TypeEntry(c, ts[i]))
  }

  /** The keys of the full-name registry, sorted (`Sorted(types, ...)`). */
  function SortedTypeKeys(g: Graph, le: (string, string) -> bool): (r: seq<string>)
    requires GraphWF(g) && Total(le)
    ensures forall i :: 0 <= i < |r| ==> r[i] in g.registry.types
    ensures SortedBy(r, le) && NoDup(r)
    ensures forall k :: k in g.registry.types ==> k in r
  {
    var r := Sort(g.registry.typeOrder, le);
    SortKeepsNoDup(g.registry.typeOrder, le);
    forall k
      ensures k in r <==> k in g.registry.typeOrder
    {
      SortKeepsElements(g.registry.typeOrder, le, k);
    }
    assert forall k :: k in g.registry.typeOrder <==> k in Elems(g.registry.typeOrder);
    r
  }

  /** The namespaces index.xml lists, sorted under the culture's collation
      `le`: exactly those some reflected type lives in that are not
      suppressed. */
  function IndexedNamespaces(c: Context, le: (string, string) -> bool): (r: seq<string>)
    requires GraphWF(c.graph) && Total(le)
    ensures forall ns :: ns in r <==> ns in c.graph.registry.namespaces && NotSuppressed(c.suppressed, ns)
    ensures NoDup(r)
    ensures Transitive(le) ==> Ascending(r, le)
  {
    var sorted := Sort(c.graph.registry.nsOrder, le);
    forall ns
      ensures ns in sorted <==> ns in c.graph.registry.namespaces
    {
      SortKeepsElements(c.graph.registry.nsOrder, le, ns);
      assert ns in c.graph.registry.nsOrder <==> ns in Elems(c.graph.registry.nsOrder);
    }
    SortKeepsNoDup(c.graph.registry.nsOrder, le);
    ShownNamespacesNoDup(sorted, c.suppressed);
    ShownNamespacesSorted(sorted, c.suppressed, le);
    ShownNamespaces(sorted, c.suppressed)
  }

  lemma {:induction false} ShownNamespacesNoDup(names: seq<string>, suppressed: set<string>)
    requires NoDup(names)
    ensures NoDup(ShownNamespaces(names, suppressed))
    decreases |names|
  {
    if |names| > 0 {
      assert NoDup(names[1..]) by {
        assert forall i :: 0 <= i < |names| - 1 ==> names[1..][i] == names[i + 1];
      }
      ShownNamespacesNoDup(names[1..], suppressed);
      var rest := ShownNamespaces(names[1..], suppressed);
      assert names[0] !in names[1..] by {
        assert forall i :: 0 <= i < |names| - 1 ==> names[1..][i] == names[i + 1];
      }
      var r := ShownNamespaces(names, suppressed);
      forall i, j | 0 <= i < j < |r|
        ensures r[i] != r[j]
      {
        if NotSuppressed(suppressed, names[0]) && i == 0 {
          assert r[j] == rest[j - 1];
          assert rest[j - 1] in rest;
        }
      }
    }
  }

  /** Sorting keeps a duplicate-free sequence duplicate-free. */
  lemma SortKeepsNoDup<T(!new)>(xs: seq<T>, le: (T, T) -> bool)
    requires Total(le) && NoDup(xs)
    ensures NoDup(Sort(xs, le))
  {
    var r := Sort(xs, le);
    forall i, j | 0 <= i < j < |r|
      ensures r[i] != r[j]
    {
      if r[i] == r[j] {
        MultisetOfNoDup(xs, r[i]);
        assert multiset(r)[r[i]] >= 2 by {
          MultisetCountTwo(r, i, j);
        }
      }
    }
  }

  lemma MultisetOfNoDup<T>(xs: seq<T>, x: T)
    requires NoDup(xs)
    ensures multiset(xs)[x] <= 1
  {
    if |xs| > 0 {
      assert xs == [xs[0]] + xs[1..];
      assert NoDup(xs[1..]) by {
        assert forall i :: 0 <= i < |xs| - 1 ==> xs[1..][i] == xs[i + 1];
      }
      MultisetOfNoDup(xs[1..], x);
      if x == xs[0] {
        assert x !in xs[1..] by {
          assert forall i :: 0 <= i < |xs| - 1 ==> xs[1..][i] == xs[i + 1];
        }
      }
    }
  }

  lemma MultisetCountTwo<T>(xs: seq<T>, i: nat, j: nat)
    requires i < j < |xs| && xs[i] == xs[j]
    ensures multiset(xs)[xs[i]] >= 2
  {
    assert xs == xs[..i] + [xs[i]] + xs[i + 1..j] + [xs[j]] + xs[j + 1..];
  }

  /** The types index.xml lists, in the order of their full names under
      `le`: exactly the registered types outside suppressed namespaces. */
  function IndexedTypes(c: Context, le: (string, string) -> bool): (r: seq<TypeId>)
    requires GraphWF(c.graph) && Total(le)
    ensures forall i :: 0 <= i < |r| ==> r[i] in c.graph.universe
    ensures forall t :: t in r <==>
      t in c.graph.registry.types.Values && NotSuppressed(c.suppressed, Namespace(c.graph.universe[t]))
    ensures NoDup(r)
    ensures Transitive(le) ==> NamesAscending(c.graph.universe, r, le)
  {
    var g := c.graph;
    var keys := SortedTypeKeys(g, le);
    var r := ShownTypes(g.universe, g.registry.types, c.suppressed, keys);
    assert NamedAsKeys(g.universe, g.registry.types);
    ShownTypesNoDup(g.universe, g.registry.types, c.suppressed, keys);
    ShownTypesSorted(g.universe, g.registry.types, c.suppressed, keys, le);
    forall t | t in g.registry.types.Values && NotSuppressed(c.suppressed, Namespace(g.universe[t]))
      ensures t in r
    {
      var k :| k in g.registry.types && g.registry.types[k] == t;
      var j :| 0 <= j < |keys| && keys[j] == k;
    }
    r
  }

  /** index.xml. */
  function IndexPage(c: Context, le: (string, string) -> bool): (r: Node)
    requires ContextWF(c) && GraphWF(c.graph) && Total(le)
    ensures IsElement(r, "index") && |r.children| == 2
    ensures r.children[0] == Element("namespaces", [], NamespaceEntries(c, IndexedNamespaces(c, le)))
    ensures r.children[1] == Element("types", [], TypeEntries(c, IndexedTypes(c, le)))
  {
    Element("index", [], [Element("namespaces", [], NamespaceEntries(c, IndexedNamespaces(c, le))),
                          Element("types", [], TypeEntries(c, IndexedTypes(c, le)))])
  }

  /** The types that get a page of their own, in registry order: registered
      types outside suppressed namespaces whose full name has no '<' (the
      compiler-generated ones do). */
  function PagedTypes(g: Graph, suppressed: set<string>): (r: seq<TypeId>)
    requires GraphWF(g)
    ensures forall i :: 0 <= i < |r| ==> r[i] in g.universe && g.universe[r[i]].fullName.Some?
    ensures forall t :: t in r <==>
      && t in g.registry.types.Values
      && '<' !in g.universe[t].fullName.value
      && NotSuppressed(suppressed, Namespace(g.universe[t]))
  {
    var r := PagedAmong(g.universe, g.registry.types, suppressed, g.registry.typeOrder);
    forall t | t in g.registry.types.Values
      ensures exists i :: 0 <= i < |g.registry.typeOrder| && g.registry.types[g.registry.typeOrder[i]] == t
    {
      var k :| k in g.registry.types && g.registry.types[k] == t;
      assert k in Elems(g.registry.typeOrder);
    }
    r
  }

  /** `types.Values` with the '<' names removed, then filtered by namespace. */
  function PagedAmong(u: Universe, types: map<string, TypeId>, suppressed: set<string>, keys: seq<string>)
    : (r: seq<TypeId>)
    requires RegistryIn(u, types)
    requires forall i :: 0 <= i < |keys| ==> keys[i] in types
    ensures forall i :: 0 <= i < |r| ==> r[i] in u && u[r[i]].fullName.Some?
    ensures forall t :: t in r <==> exists i :: (0 <= i < |keys| && types[keys[i]] == t
                                                 && '<' !in u[t].fullName.value
                                                 && NotSuppressed(suppressed, Namespace(u[t])))
    decreases |keys|
  {
    if |keys| == 0 then []
    else
      var t := types[keys[0]];
      var rest := PagedAmong(u, types, suppressed, keys[1..]);
      assert forall i :: 1 <= i < |keys| ==> keys[i] == keys[1..][i - 1];
      assert forall i :: 0 <= i < |keys| - 1 ==> keys[1..][i] == keys[i + 1];
      (if '<' !in u[t].fullName.value && NotSuppressed(suppressed, Namespace(u[t]))
       then [t] else []) + rest
  }

  /** The file a type page is written to. */
  function TypePageFile(g: Graph, t: TypeId): string
    requires t in g.universe && g.universe[t].fullName.Some?
  {
    "type-" + g.universe[t].fullName.value + ".xml"
  }

  /** `GenerateNamespacePage`: the namespace's full documentation, then one
      entry per type reflected into it (every one, compiler-generated types
      included), ordered by `typeLe`. */
  function NamespacePage(c: Context, ns: string, typeLe: (TypeId, TypeId) -> bool): (r: Node)
    requires ContextWF(c) && Total(typeLe)
    requires ns in c.graph.registry.namespaces && MembersIn(c.graph.universe, c.graph.registry.namespaces[ns])
    ensures IsElement(r, "namespace") && AttrValue(r.attrs, "name") == Some(ns)
    ensures |r.children| == 1 + |c.graph.registry.namespaces[ns]|
    ensures r.children[0] == ItemDocs(c.docs, "N:" + ns, AllElements)
    ensures r.children[1..] == TypeEntries(c, SortedMembers(c, ns, typeLe))
  {
    var ts := SortedMembers(c, ns, typeLe);
    var r := Element("namespace", [Attr("name", ns)],
                     [ItemDocs(c.docs, "N:" + ns, AllElements)] + TypeEntries(c, ts));
    AttrValueAt(r.attrs, "name", 0);
    r
  }

  /** The types of a namespace in page order. */
  function SortedMembers(c: Context, ns: string, typeLe: (TypeId, TypeId) -> bool): (r: seq<TypeId>)
    requires Total(typeLe)
    requires ns in c.graph.registry.namespaces && MembersIn(c.graph.universe, c.graph.registry.namespaces[ns])
    ensures MembersIn(c.graph.universe, r) && multiset(r) == multiset(c.graph.registry.namespaces[ns])
    ensures |r| == |c.graph.registry.namespaces[ns]|
    ensures SortedBy(r, typeLe)
  {
    SortedWithin(c.graph.registry.namespaces[ns], typeLe, c.graph.universe.Keys);
    Sort(c.graph.registry.namespaces[ns], typeLe)
  }

  /** A namespace page lists every type reflected into the namespace, and
      nothing else. */
  lemma NamespacePageCovers(c: Context, ns: string, typeLe: (TypeId, TypeId) -> bool)
    requires ContextWF(c) && Total(typeLe)
    requires ns in c.graph.registry.namespaces && MembersIn(c.graph.universe, c.graph.registry.namespaces[ns])
    ensures ListsExactly(c, NamespacePage(c, ns, typeLe).children, c.graph.registry.namespaces[ns])
  {
    NamespaceEntriesCover(c, c.graph.registry.namespaces[ns], SortedMembers(c, ns, typeLe), NamespacePage(c, ns, typeLe).children);
  }

  /** After their first child, `children` hold an entry for every type of
      `members` and for no other type. */
  predicate ListsExactly(c: Context, children: seq<Node>, members: seq<TypeId>)
    requires ContextWF(c)
  {
    && (forall t :: t in members ==>
          t in c.graph.universe && exists i :: 1 <= i < |children| && children[i] == TypeEntry(c, t))
    && (forall i :: 1 <= i < |children| ==>
          exists t :: t in members && t in c.graph.universe && children[i] == TypeEntry(c, t))
  }

  /** Every type reflected into a namespace is in the universe. */
  predicate MembersIn(u: Universe, ts: seq<TypeId>) {
    forall i :: 0 <= i < |ts| ==> ts[i] in u
  }

  /** Sorting keeps every element within a set that held them all. */
  lemma SortedWithin<T(!new)>(xs: seq<T>, le: (T, T) -> bool, within: set<T>)
    requires Total(le)
    requires forall i :: 0 <= i < |xs| ==> xs[i] in within
    ensures multiset(Sort(xs, le)) == multiset(xs) && |Sort(xs, le)| == |xs|
    ensures forall i :: 0 <= i < |Sort(xs, le)| ==> Sort(xs, le)[i] in within
  {
    var ts := Sort(xs, le);
    forall i | 0 <= i < |ts|
      ensures ts[i] in within
    {
      SortKeepsElements(xs, le, ts[i]);
    }
    assert |ts| == |multiset(ts)|;
  }

  /** The entries written for a permutation `ts` of a namespace's types
      cover exactly those types. */
  lemma NamespaceEntriesCover(c: Context, members: seq<TypeId>, ts: seq<TypeId>, children: seq<Node>)
    requires ContextWF(c)
    requires MembersIn(c.graph.universe, ts)
    requires multiset(ts) == multiset(members)
    requires |children| == 1 + |ts| && children[1..] == TypeEntries(c, ts)
    ensures ListsExactly(c, children, members)
  {
    forall t | t in members
      ensures t in c.graph.universe && exists i :: 1 <= i < |children| && children[i] == TypeEntry(c, t)
    {
      assert t in multiset(ts);
      var j :| 0 <= j < |ts| && ts[j] == t;
      EntryAt(c, ts, children, j);
    }
    forall i | 1 <= i < |children|
      ensures exists t :: t in members && t in c.graph.universe && children[i] == TypeEntry(c, t)
    {
      EntryAt(c, ts, children, i - 1);
      assert ts[i - 1] in multiset(members);
    }
  }

  lemma EntryAt(c: Context, ts: seq<TypeId>, children: seq<Node>, j: int)
    requires ContextWF(c)
    requires forall i :: 0 <= i < |ts| ==> ts[i] in c.graph.universe
    requires |children| == 1 + |ts| && children[1..] == TypeEntries(c, ts)
    requires 0 <= j < |ts|
    ensures children[j + 1] == TypeEntry(c, ts[j])
  {
    assert children[j + 1] == children[1..][j];
  }

  /** The namespaces that get a page, in registry order. */
  function PagedNamespaces(g: Graph, suppressed: set<string>): (r: seq<string>)
    requires GraphWF(g)
    ensures forall i :: 0 <= i < |r| ==> r[i] in g.registry.namespaces
    ensures forall ns :: ns in r <==> ns in g.registry.namespaces && NotSuppressed(suppressed, ns)
  {
    var r := ShownNamespaces(g.registry.nsOrder, suppressed);
    assert forall ns :: ns in g.registry.nsOrder <==> ns in Elems(g.registry.nsOrder);
    r
  }

  datatype Page = Page(file: string, root: Node)

  /** What one run writes: config.xml, index.xml, one page per paged type
      (its contents are not modelled), and the namespace pages. */
  datatype Site = Site(config: Page, index: Page, typePages: seq<string>, namespacePages: seq<Page>)

  /** `p` is the page of namespace `ns`: its file is named after it and so
      is its root element. */
  predicate PageOf(c: Context, p: Page, ns: string) {
    p.file == "namespace-" + ns + ".xml" && IsElement(p.root, "namespace") && AttrValue(p.root.attrs, "name") == Some(ns)
  }

  /** `Generate`. */
  function GenerateSite(c: Context, googleNonlocalTypes: bool, le: (string, string) -> bool,
                        typeLe: (TypeId, TypeId) -> bool): (r: Site)
    requires ContextWF(c) && GraphWF(c.graph) && Total(le) && Total(typeLe)
    ensures r.config.file == "config.xml" && ReadConfig(r.config.root) == Some(googleNonlocalTypes)
    ensures r.index.file == "index.xml" && IsElement(r.index.root, "index")
    ensures |r.typePages| == |PagedTypes(c.graph, c.suppressed)|
    ensures forall t :: t in PagedTypes(c.graph, c.suppressed) ==>
      "type-" + c.graph.universe[t].fullName.value + ".xml" in r.typePages
    ensures |r.namespacePages| == |PagedNamespaces(c.graph, c.suppressed)|
    ensures forall i :: 0 <= i < |r.namespacePages| ==> PageOf(c, r.namespacePages[i], PagedNamespaces(c.graph, c.suppressed)[i])
  {
    var g := c.graph;
    ConfigRoundTrip(googleNonlocalTypes);
    Site(Page("config.xml", ConfigPage(googleNonlocalTypes)), Page("index.xml", IndexPage(c, le)),
         TypePages(g, PagedTypes(g, c.suppressed)), NamespacePages(c, PagedNamespaces(g, c.suppressed), typeLe))
  }

  /** The file of each paged type, in order. */
  function TypePages(g: Graph, types: seq<TypeId>): (r: seq<string>)
    requires forall i :: 0 <= i < |types| ==> types[i] in g.universe && g.universe[types[i]].fullName.Some?
    ensures |r| == |types|
    ensures forall t :: t in types ==> "type-" + g.universe[t].fullName.value + ".xml" in r
  {
    var r := seq(|types|, i requires 0 <= i < |types| => TypePageFile(g, types[i]));
    forall t | t in types
      ensures "type-" + g.universe[t].fullName.value + ".xml" in r
    {
      var i :| 0 <= i < |types| && types[i] == t;
      assert r[i] == TypePageFile(g, t);
    }
    r
  }

  /** The page of each namespace of `nss`, in order, each named after it. */
  function NamespacePages(c: Context, nss: seq<string>, typeLe: (TypeId, TypeId) -> bool): (r: seq<Page>)
    requires ContextWF(c) && GraphWF(c.graph) && Total(typeLe)
    requires forall i :: 0 <= i < |nss| ==> nss[i] in c.graph.registry.namespaces
    ensures |r| == |nss|
    ensures forall i :: 0 <= i < |r| ==> PageOf(c, r[i], nss[i])
  {
    assert forall i :: 0 <= i < |nss| ==> MembersIn(c.graph.universe, c.graph.registry.namespaces[nss[i]]);
    seq(|nss|, i requires 0 <= i < |nss| => Page("namespace-" + nss[i] + ".xml", NamespacePage(c, nss[i], typeLe)))
  }

  /** A run writes one page per namespace that is reflected and not
      suppressed, and no other namespace page. */
  lemma NamespacePagesCover(c: Context, le: (string, string) -> bool, typeLe: (TypeId, TypeId) -> bool,
                            googleNonlocalTypes: bool, ns: string)
    requires ContextWF(c) && GraphWF(c.graph) && Total(le) && Total(typeLe)
    ensures var pages := GenerateSite(c, googleNonlocalTypes, le, typeLe).namespacePages;
      (exists i :: 0 <= i < |pages| && PageOf(c, pages[i], ns)) <==>
        ns in c.graph.registry.namespaces && NotSuppressed(c.suppressed, ns)
  {
    var pages := GenerateSite(c, googleNonlocalTypes, le, typeLe).namespacePages;
    var nss := PagedNamespaces(c.graph, c.suppressed);
    if ns in c.graph.registry.namespaces && NotSuppressed(c.suppressed, ns) {
      var i :| 0 <= i < |nss| && nss[i] == ns;
      assert PageOf(c, pages[i], ns);
    }
    if i :| 0 <= i < |pages| && PageOf(c, pages[i], ns) {
      assert PageOf(c, pages[i], nss[i]);
      assert nss[i] in nss;
    }
  }

  /** Suppression hides a namespace's types from the pages but not from the
      model: they stay registered, their subtype edges stay indexed, and a
      reference to one renders with local="false". */
  lemma SuppressionIsPageLevel(c: Context, le: (string, string) -> bool, k: string)
    requires ContextWF(c) && GraphWF(c.graph) && Total(le)
    requires k in c.graph.registry.types
    requires Namespace(c.graph.universe[c.graph.registry.types[k]]) in c.suppressed
    ensures var t := c.graph.registry.types[k];
      && t !in IndexedTypes(c, le)
      && t !in PagedTypes(c.graph, c.suppressed)
      && Namespace(c.graph.universe[t]) !in IndexedNamespaces(c, le)
      && Namespace(c.graph.universe[t]) !in PagedNamespaces(c.graph, c.suppressed)
      && (forall b: TypeId :: DirectSupertype(c.graph.universe, b, t) ==> Edge(c.graph.knownSubtypes, b, t))
      && (c.graph.universe[t].shape.Named? && !c.graph.universe[t].shape.generic.Constructed? ==>
            AttrValue(TypeRef(c, t, "", false).attrs, "local") == Some("false"))
  {
    var t := c.graph.registry.types[k];
    if c.graph.universe[t].shape.Named? && !c.graph.universe[t].shape.generic.Constructed? {
      SuppressedRendersNonLocal(c, t);
    }
  }

  /** The converse for a shown namespace: a registered type outside the
      suppressed namespaces is listed on index.xml, and gets a page of its
      own unless its full name holds '<'. */
  lemma ShownTypeIsListed(c: Context, le: (string, string) -> bool, k: string)
    requires ContextWF(c) && GraphWF(c.graph) && Total(le)
    requires k in c.graph.registry.types
    requires NotSuppressed(c.suppressed, Namespace(c.graph.universe[c.graph.registry.types[k]]))
    ensures c.graph.registry.types[k] in IndexedTypes(c, le)
    ensures c.graph.registry.types[k] in PagedTypes(c.graph, c.suppressed) <==> '<' !in k
  {
    var t := c.graph.registry.types[k];
    assert t in c.graph.registry.types.Values;
    assert c.graph.universe[t].fullName == Some(k);
  }

  /** A reference to a non-constructed type of a suppressed namespace is
      marked non-local. */
  lemma SuppressedRendersNonLocal(c: Context, t: TypeId)
    requires ContextWF(c) && t in c.graph.universe
    requires c.graph.universe[t].shape.Named? && !c.graph.universe[t].shape.generic.Constructed?
    requires Namespace(c.graph.universe[t]) in c.suppressed
    ensures AttrValue(TypeRef(c, t, "", false).attrs, "local") == Some("false")
  {
    var g := c.graph;
    assert GenericBase(g.universe, t) == t;
    SuppressedNotLocal(g, c.suppressed, t);
    CoreAttrs(c, t, "", false);
    AttrValueAt(TypeAttrs(c, t, ""), "local", 4);
    GenericBaseFacts(g.universe, t);
  }
}
