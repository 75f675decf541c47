/** Concrete scenarios taken from the repository's example sources
    (src/examples), checked against the model. */
module Examples {
  import opened Wrappers
  import opened Text
  import opened TypeModel
  import opened TypeGraph
  import opened Locality
  import opened Naming
  import opened XmlTree
  import opened Rendering
  import opened Seqs
  import opened Ordering
  import opened Generate

  const TwoPointOh := "net.lshift" + ".ndocproc" + ".examples" + ".twopointoh"

  /** `Node<K,T> : ICloneable where K : struct, IComparable<K> where T :
      class, new()` (ExamplesTwoPointOh.cs), with the types it mentions. The
      compiler records `struct` as the not-nullable-value-type flag together
      with the default-constructor flag and a `System.ValueType` constraint
      after the declared ones, so reflection reports all three for `K`, and
      gives `System.ValueType` as `K`'s base type. */
  function NodeUniverse(): Universe {
    map[
      0 := TypeDesc("Object", Some("System.Object"), Some("System"), None, None, {}, Named(NonGeneric)),
      1 := TypeDesc("ICloneable", Some("System.ICloneable"), Some("System"), None, None, {}, Named(NonGeneric)),
      2 := TypeDesc("T", None, Some("System"), Some(3), None, {},
                    GenericParameter(0, false, Constraints(false, false, false, []))),
      3 := TypeDesc("IComparable`1", Some("System.IComparable`1"), Some("System"), None, None, {},
                    Named(Definition([2]))),
      4 := TypeDesc("K", None, Some(TwoPointOh), Some(7), Some(8), {},
                    GenericParameter(0, false, Constraints(true, false, true, [6, 8]))),
      5 := TypeDesc("T", None, Some(TwoPointOh), Some(7), Some(0), {},
                    GenericParameter(1, false, Constraints(false, true, true, []))),
      6 := TypeDesc("IComparable`1", None, Some("System"), None, None, {}, Named(Constructed(3, [4]))),
      7 := NodeDesc(),
      8 := TypeDesc("ValueType", Some("System.ValueType"), Some("System"), None, Some(0), {}, Named(NonGeneric))
    ]
  }

  function NodeDesc(): TypeDesc {
    TypeDesc("Node`2", Some(TwoPointOh + ".Node`2"), Some(TwoPointOh), None, Some(0), {1}, Named(Definition([4, 5])))
  }

  lemma NodeUniverseWF()
    ensures UniverseWF(NodeUniverse())
  {
    var u := NodeUniverse();
    assert u.Keys == {0, 1, 2, 3, 4, 5, 6, 7, 8};
    NodeLibraryTypesWF(u);
    NodeOwnTypesWF(u);
  }

  lemma NodeLibraryTypesWF(u: Universe)
    requires u == NodeUniverse()
    ensures DescWF(u, 0, u[0]) && DescWF(u, 1, u[1]) && DescWF(u, 2, u[2]) && DescWF(u, 3, u[3])
  {
  }

  lemma NodeOwnTypesWF(u: Universe)
    requires u == NodeUniverse()
    ensures DescWF(u, 4, u[4]) && DescWF(u, 5, u[5]) && DescWF(u, 6, u[6]) && DescWF(u, 7, u[7])
    ensures DescWF(u, 8, u[8])
  {
  }

  lemma NodeParameterNames(u: Universe)
    requires u == NodeUniverse()
    ensures UniverseWF(u)
    ensures TypeName(u, 4) == "`0"
    ensures TypeName(u, 5) == "`1"
  {
    NodeUniverseWF();
    assert NatToString(0) == "0";
    assert NatToString(1) == "1";
  }

  lemma NodeLeaf()
    ensures GenericBaseName("Node`2") == "Node"
  {
    var n := "Node`2";
    assert n[1..][1..][1..][1..] == "`2";
  }

  lemma NodeArguments(u: Universe)
    requires u == NodeUniverse()
    ensures UniverseWF(u)
    ensures TypeNames(u, [4, 5], 7) == ["`0", "`1"]
  {
    NodeParameterNames(u);
  }

  /** The ID text of a generic type definition with its parts already
      known. */
  lemma DefinitionTypeName(u: Universe, t: TypeId, ns: string, leaf: string, args: seq<string>)
    requires UniverseWF(u) && t in u && u[t].shape.Named? && u[t].shape.generic.Definition?
    requires |u[t].shape.generic.parameters| > 0
    requires u[t].ns == Some(ns) && GenericBaseName(u[t].name) == leaf
    requires TypeNames(u, u[t].shape.generic.parameters, t) == args
    ensures TypeName(u, t) == ns + "." + leaf + "{" + Join(",", args) + "}"
  {
    GenericArgumentsBelow(u, t);
    var d := u[t];
    assert GenericBase(u, t) == t;
    assert GenericArguments(d) == d.shape.generic.parameters;
    assert ConcatNamespace(d, leaf) == ns + "." + leaf;
    assert Braced(args) == "{" + Join(",", args) + "}";
    assert TypeName(u, t) == (ns + "." + leaf) + ("{" + Join(",", args) + "}");
  }

  /** Inside a DocID, `Node<K,T>` reads "...Node{`0,`1}". */
  lemma NodeTypeName(u: Universe)
    requires u == NodeUniverse()
    ensures UniverseWF(u)
    ensures TypeName(u, 7) == TwoPointOh + "." + "Node" + "{" + "`0,`1" + "}"
  {
    NodeArguments(u);
    assert u[7] == NodeDesc();
    NodeDefinitionName(u);
  }

  lemma NodeDefinitionName(u: Universe)
    requires UniverseWF(u) && 7 in u && u[7] == NodeDesc()
    requires TypeNames(u, [4, 5], 7) == ["`0", "`1"]
    ensures TypeName(u, 7) == TwoPointOh + "." + "Node" + "{" + "`0,`1" + "}"
  {
    NodeLeaf();
    DefinitionTypeName(u, 7, TwoPointOh, "Node", ["`0", "`1"]);
    JoinTwo(",", "`0", "`1");
  }

  /** A type's DocID from its full name. */
  lemma TypeKeyOf(u: Universe, t: TypeId, name: string)
    requires UniverseWF(u) && t in u && MaybeInnerFullName(u[t]) == name
    ensures TypeKey(u, t) == "T:" + name
  {
  }

  lemma NodeFullName()
    ensures MaybeInnerFullName(NodeDesc()) == TwoPointOh + ".Node`2"
  {
    MaybeInnerFullNameOfTopLevel(NodeDesc());
  }

  /** The type's own DocID keeps the arity marker. */
  lemma NodeTypeKey(u: Universe)
    requires u == NodeUniverse()
    ensures UniverseWF(u)
    ensures TypeKey(u, 7) == "T:" + (TwoPointOh + ".Node`2")
  {
    NodeUniverseWF();
    NodeFullName();
    assert u[7] == NodeDesc();
    TypeKeyOf(u, 7, TwoPointOh + ".Node`2");
  }

  /** The rendering context over `NodeUniverse` with `Node`2` registered
      and nothing suppressed. */
  function NodeContext(): Context {
    var k := TwoPointOh + ".Node`2";
    Context(Graph(NodeUniverse(), Registry([TwoPointOh], map[TwoPointOh := [7]], [k], map[k := 7]), map[]),
            {}, map[])
  }

  /** On a type page the parameters of `Node<K,T>` carry their constraints:
      `K` the struct and new() flags and its constraint types
      (`IComparable<K>` and `System.ValueType`), `T` the class and new()
      flags. */
  lemma NodeConstraints()
    ensures ContextWF(NodeContext())
    ensures var kc := TypeConstraints(NodeContext(), 4).children;
      && SomeElement(kc, "notnullablevaluetype") && SomeElement(kc, "type")
      && !SomeElement(kc, "referencetype") && SomeElement(kc, "defaultconstructor")
    ensures var tc := TypeConstraints(NodeContext(), 5).children;
      && !SomeElement(tc, "notnullablevaluetype") && !SomeElement(tc, "type")
      && SomeElement(tc, "referencetype") && SomeElement(tc, "defaultconstructor")
  {
    NodeUniverseWF();
    KeyConstraints();
    ValueConstraints();
  }

  lemma KeyConstraints()
    ensures ContextWF(NodeContext())
    ensures var kc := TypeConstraints(NodeContext(), 4).children;
      && SomeElement(kc, "notnullablevaluetype") && SomeElement(kc, "type")
      && !SomeElement(kc, "referencetype") && SomeElement(kc, "defaultconstructor")
  {
    NodeUniverseWF();
    var c := NodeContext();
    ConstraintsOffer(c, 4, "notnullablevaluetype");
    ConstraintsOffer(c, 4, "type");
    ConstraintsOffer(c, 4, "referencetype");
    ConstraintsOffer(c, 4, "defaultconstructor");
  }

  /** K's `typeconstraints` in full: the struct flag, references to
      `IComparable<K>` (id 6) and `System.ValueType` (id 8) in the order
      reflection gives them, then the new() flag. */
  lemma KeyConstraintTypes(c: Context)
    requires c == NodeContext()
    ensures ContextWF(c)
    ensures TypeConstraints(c, 4).children ==
      [ Element("notnullablevaluetype", [], []),
        TypeRef(c, 6, "", false),
        TypeRef(c, 8, "", false),
        Element("defaultconstructor", [], []) ]
  {
    NodeUniverseWF();
    StructConstraintChildren(c, 4, 6, 8);
  }

  lemma StructConstraintChildren(c: Context, t: TypeId, a: TypeId, b: TypeId)
    requires ContextWF(c) && t in c.graph.universe && IsGenericParameter(c.graph.universe[t])
    requires c.graph.universe[t].shape.constraints == Constraints(true, false, true, [a, b])
    ensures a in c.graph.universe && b in c.graph.universe
    ensures TypeConstraints(c, t).children ==
      [ Element("notnullablevaluetype", [], []),
        TypeRef(c, a, "", false),
        TypeRef(c, b, "", false),
        Element("defaultconstructor", [], []) ]
  {
    var p := ConstraintParts(c, t);
    var refA, refB := TypeRef(c, a, "", false), TypeRef(c, b, "", false);
    assert p.2[0] == refA && p.2[1] == refB;
    assert p.2 == [refA, refB];
    assert p.0 == [Element("notnullablevaluetype", [], [])] && p.1 == [];
    assert p.3 == [Element("defaultconstructor", [], [])];
    assert p.0 + p.1 + p.2 + p.3 == [p.0[0], refA, refB, p.3[0]];
  }

  lemma ValueConstraints()
    ensures ContextWF(NodeContext())
    ensures var tc := TypeConstraints(NodeContext(), 5).children;
      && !SomeElement(tc, "notnullablevaluetype") && !SomeElement(tc, "type")
      && SomeElement(tc, "referencetype") && SomeElement(tc, "defaultconstructor")
  {
    NodeUniverseWF();
    var c := NodeContext();
    ConstraintsOffer(c, 5, "notnullablevaluetype");
    ConstraintsOffer(c, 5, "type");
    ConstraintsOffer(c, 5, "referencetype");
    ConstraintsOffer(c, 5, "defaultconstructor");
  }

  /** `Node`2` is local; `IComparable<K>`, whose definition lives outside
      the documented assemblies, is not. */
  lemma NodeLocality()
    ensures UniverseWF(NodeUniverse())
    ensures LocalDefined(NodeContext().graph, {}, 7) && IsLocal(NodeContext().graph, {}, 7)
    ensures LocalDefined(NodeContext().graph, {}, 6) && !IsLocal(NodeContext().graph, {}, 6)
  {
    NodeUniverseWF();
    var g := NodeContext().graph;
    NamedLocalDefined(g, {}, 7);
    NamedLocalDefined(g, {}, 6);
    assert GenericBase(g.universe, 6) == 3;
  }

  /** Written in short pieces, which keeps character-level facts about the
      name cheap to check. */
  const GenericDelegates := "net.lshift" + ".ndocproc" + ".examples" + ".genericdelegates"

  /** A delegate `name<TResult, TArg>(TimeSpan timeout, ... arg0)` from
      GenericDelegates.cs, with the parameter types of its `Invoke`: id 4 is
      the type of `arg0`, built on `TArg` by `argShape`. */
  function DelegateUniverse(name: string, argName: string, argShape: Shape): Universe {
    map[
      0 := TimeSpan(),
      1 := TypeDesc("TResult", None, Some(GenericDelegates), Some(3), None, {},
                    GenericParameter(0, false, Constraints(false, false, false, []))),
      2 := TypeDesc("TArg", None, Some(GenericDelegates), Some(3), None, {},
                    GenericParameter(1, false, Constraints(false, false, false, []))),
      3 := TypeDesc(name + "`2", Some(GenericDelegates + "." + name + "`2"), Some(GenericDelegates), None, None, {},
                    Named(Definition([1, 2]))),
      4 := TypeDesc(argName, None, Some(GenericDelegates), None, None, {}, argShape)
    ]
  }

  /** `delegate TResult Foo2<TResult, TArg>(TimeSpan timeout, out TArg arg0)`. */
  function Foo2(): Universe {
    DelegateUniverse("Foo2", "TArg&", ByRefTo(2))
  }

  /** `delegate TResult Foo4<TResult, TArg>(TimeSpan timeout, TArg[] arg0)`. */
  function Foo4(): Universe {
    DelegateUniverse("Foo4", "TArg[]", ArrayOf(2))
  }

  lemma DelegateUniverseWF(name: string, argName: string, argShape: Shape)
    requires argShape == ByRefTo(2) || argShape == ArrayOf(2)
    ensures UniverseWF(DelegateUniverse(name, argName, argShape))
  {
    var u := DelegateUniverse(name, argName, argShape);
    forall id | id in u
      ensures DescWF(u, id, u[id])
    {
    }
  }

  function Invoke(isOut: bool): MethodBase {
    MethodBase(3, "Invoke", true, [], [Parameter("timeout", 0, false, false, 0), Parameter("arg0", 4, false, isOut, 1)])
  }

  lemma DelegateName(name: string, argName: string, argShape: Shape)
    requires '+' !in name
    ensures MaybeInnerFullName(DelegateUniverse(name, argName, argShape)[3]) == GenericDelegates + "." + name + "`2"
  {
    MaybeInnerFullNameOfTopLevel(DelegateUniverse(name, argName, argShape)[3]);
  }

  function TimeSpan(): TypeDesc {
    TypeDesc("TimeSpan", Some("System.TimeSpan"), Some("System"), None, None, {}, Named(NonGeneric))
  }

  lemma TimeSpanFullName()
    ensures MaybeInnerFullName(TimeSpan()) == "System.TimeSpan"
  {
    MaybeInnerFullNameOfTopLevel(TimeSpan());
  }

  lemma TimeSpanLeaf()
    ensures GenericBaseName("System.TimeSpan") == "System.TimeSpan"
  {
    GenericBaseNameOfPlainName("System.TimeSpan");
  }

  /** `System.TimeSpan` is written by its full name. */
  lemma TimeSpanEntry(u: Universe, p: Parameter)
    requires UniverseWF(u) && 0 in u && u[0] == TimeSpan()
    requires p == Parameter("timeout", 0, false, false, 0)
    ensures Nameable(u, p) && ParameterEntry(u, p) == "System.TimeSpan"
  {
    TimeSpanTypeName(u);
  }

  lemma TimeSpanTypeName(u: Universe)
    requires UniverseWF(u) && 0 in u && u[0] == TimeSpan()
    ensures TypeName(u, 0) == "System.TimeSpan"
  {
    TimeSpanFullName();
    TimeSpanLeaf();
    PlainTypeName(u, 0);
  }

  /** An `out TArg` parameter is written as its element type and '@'. */
  lemma OutParameterEntry(u: Universe, p: Parameter)
    requires UniverseWF(u) && 2 in u && 4 in u
    requires u[2].shape == GenericParameter(1, false, Constraints(false, false, false, []))
    requires u[4].shape == ByRefTo(2)
    requires p == Parameter("arg0", 4, false, true, 1)
    ensures Nameable(u, p) && ParameterEntry(u, p) == "`1@"
  {
    assert NatToString(1) == "1";
  }

  /** A `TArg[]` parameter has no full name, so its entry is the bare
      "TArg[]" rather than "`1[]". */
  lemma ArrayOfParameterEntry(u: Universe, p: Parameter)
    requires UniverseWF(u) && 4 in u
    requires u[4] == TypeDesc("TArg[]", None, Some(GenericDelegates), None, None, {}, ArrayOf(2))
    requires p == Parameter("arg0", 4, false, false, 1)
    ensures Nameable(u, p) && ParameterEntry(u, p) == "TArg[]"
  {
    ArrayOfTypeName(u);
  }

  lemma ArrayOfTypeName(u: Universe)
    requires UniverseWF(u) && 4 in u
    requires u[4] == TypeDesc("TArg[]", None, Some(GenericDelegates), None, None, {}, ArrayOf(2))
    ensures TypeName(u, 4) == "TArg[]"
  {
    var d := u[4];
    var name := "TArg[]";
    assert FullOrName(d) == name;
    assert name == ['T', 'A', 'r', 'g', '[', ']'];
    assert '+' !in name && '`' !in name;
    MaybeInnerFullNameOfTopLevel(d);
    PlainTypeName(u, 4);
  }

  /** `Y` declared inside the non-generic `A.X`: the metadata full name
      "A.X+Y" is written "A.X.Y", keeping the enclosing type's name that a
      nested generic type loses. */
  function NestedUniverse(): Universe {
    map[
      0 := TypeDesc("X", Some("A.X"), Some("A"), None, None, {}, Named(NonGeneric)),
      1 := TypeDesc("Y", Some("A.X+Y"), Some("A"), Some(0), None, {}, Named(NonGeneric))
    ]
  }

  lemma NestedTypeName(u: Universe)
    requires u == NestedUniverse()
    ensures UniverseWF(u)
    ensures TypeName(u, 1) == "A.X.Y"
    ensures TypeKey(u, 1) == "T:A.X.Y"
  {
    assert DescWF(u, 0, u[0]) && DescWF(u, 1, u[1]);
    NestedInnerName(u[1]);
    PlainTypeName(u, 1);
    TypeKeyKeepsArity(u, 1);
  }

  lemma NestedInnerName(d: TypeDesc)
    requires d.fullName == Some("A.X+Y")
    ensures '`' !in FullOrName(d)
    ensures MaybeInnerFullName(d) == "A.X.Y"
  {
    var full := "A.X+Y";
    assert FullOrName(d) == full;
    assert full == ['A', '.', 'X', '+', 'Y'];
    assert '`' !in full;
    assert MaybeInnerFullName(d) == ['A', '.', 'X', '.', 'Y'];
  }

  /** Parameters marked `[Out]` without being `out` or `ref`:
      `[Out] byte[] buffer` and `[Out] StringBuilder text` of a method
      `Reader.Fill`. */
  function OutFlagUniverse(): Universe {
    map[
      0 := TypeDesc("Byte", Some("System.Byte"), Some("System"), None, None, {}, Named(NonGeneric)),
      1 := TypeDesc("Byte[]", Some("System.Byte[]"), Some("System"), None, None, {}, ArrayOf(0)),
      2 := TypeDesc("StringBuilder", Some("System.Text.StringBuilder"), Some("System.Text"), None, None, {},
                    Named(NonGeneric)),
      3 := TypeDesc("Reader", Some("Reader"), None, None, None, {}, Named(NonGeneric))
    ]
  }

  lemma OutFlagUniverseWF(u: Universe)
    requires u == OutFlagUniverse()
    ensures UniverseWF(u)
  {
    assert DescWF(u, 0, u[0]) && DescWF(u, 1, u[1]) && DescWF(u, 2, u[2]) && DescWF(u, 3, u[3]);
  }

  lemma ByteTypeName(u: Universe)
    requires UniverseWF(u) && 0 in u
    requires u[0] == TypeDesc("Byte", Some("System.Byte"), Some("System"), None, None, {}, Named(NonGeneric))
    ensures TypeName(u, 0) == "System.Byte"
  {
    ByteFullName(u[0]);
    PlainTypeName(u, 0);
  }

  lemma ByteFullName(d: TypeDesc)
    requires d.fullName == Some("System.Byte")
    ensures '`' !in FullOrName(d)
    ensures MaybeInnerFullName(d) == "System.Byte"
  {
    var name := "System.Byte";
    assert FullOrName(d) == name;
    assert name == ['S', 'y', 's', 't', 'e', 'm', '.', 'B', 'y', 't', 'e'];
    assert '+' !in name && '`' !in name;
    MaybeInnerFullNameOfTopLevel(d);
  }

  /** The `[Out]` array is entered as its element type and '@'. */
  lemma OutArrayEntry(u: Universe, buffer: Parameter)
    requires u == OutFlagUniverse()
    requires buffer == Parameter("buffer", 1, false, true, 0)
    ensures UniverseWF(u) && Nameable(u, buffer)
    ensures ParameterEntry(u, buffer) == "System.Byte@"
  {
    OutFlagUniverseWF(u);
    ByteArrayEntry(u, buffer);
  }

  lemma ByteArrayEntry(u: Universe, p: Parameter)
    requires UniverseWF(u) && 0 in u && 1 in u && p.parameterType == 1 && p.isOut
    requires u[0] == TypeDesc("Byte", Some("System.Byte"), Some("System"), None, None, {}, Named(NonGeneric))
    requires u[1].shape == ArrayOf(0)
    ensures Nameable(u, p) && ParameterEntry(u, p) == "System.Byte@"
  {
    ParameterEntryCases(u, p);
    ByteTypeName(u);
  }

  /** A method with the `[Out] StringBuilder` cannot be named, and the
      failure names that parameter. */
  lemma OutFlagFailure(u: Universe, buffer: Parameter, text: Parameter)
    requires u == OutFlagUniverse()
    requires buffer == Parameter("buffer", 1, false, true, 0) && text == Parameter("text", 2, false, true, 1)
    ensures UniverseWF(u) && Nameable(u, buffer) && !Nameable(u, text)
    ensures MethodFullName(u, MethodBase(3, "Fill", false, [], [buffer, text]), false, "Fill")
      == Failure(NullElementType(text))
  {
    OutFlagUniverseWF(u);
    var ps := [buffer, text];
    assert ps[1..] == [text];
    assert FirstUnnameable(u, ps[1..]) == 0;
    assert FirstUnnameable(u, ps) == 1;
  }

  lemma TwoEntries(u: Universe, p0: Parameter, p1: Parameter)
    requires UniverseWF(u) && Nameable(u, p0) && Nameable(u, p1)
    ensures ParameterEntries(u, [p0, p1]) == [ParameterEntry(u, p0), ParameterEntry(u, p1)]
  {
  }

  lemma JoinTwo(sep: string, a: string, b: string)
    ensures Join(sep, [a, b]) == a + sep + b
  {
    assert [a, b][..1] == [a];
  }

  /** The ID of a method without type parameters of its own, assembled from
      its parts. */
  lemma PlainMethodFullName(u: Universe, m: MethodBase, declName: string, e0: string, e1: string)
    requires MethodWF(u, m) && |m.genericArguments| == 0 && |m.parameters| == 2
    requires Nameable(u, m.parameters[0]) && Nameable(u, m.parameters[1])
    requires MaybeInnerFullName(u[m.declaringType]) == declName
    requires ParameterEntry(u, m.parameters[0]) == e0 && ParameterEntry(u, m.parameters[1]) == e1
    ensures MethodFullName(u, m, false, m.name) == Success(declName + "." + m.name + "(" + (e0 + "," + e1) + ")")
  {
    var ps := m.parameters;
    assert ps == [ps[0], ps[1]];
    assert FirstUnnameable(u, ps) == 2;
    assert MethodNameHead(u, m, false, m.name) == declName + "." + m.name;
    TwoEntries(u, ps[0], ps[1]);
    JoinTwo(",", e0, e1);
    assert ParameterList(u, ps) == "(" + (e0 + "," + e1) + ")";
    var head := declName + "." + m.name;
    var list := "(" + (e0 + "," + e1) + ")";
    assert MethodFullName(u, m, false, m.name) == Success(head + list);
    assert head + list == declName + "." + m.name + "(" + (e0 + "," + e1) + ")";
  }

  lemma InvokeWF(u: Universe, m: MethodBase, name: string, argName: string, argShape: Shape)
    requires argShape == ByRefTo(2) || argShape == ArrayOf(2)
    requires u == DelegateUniverse(name, argName, argShape) && m == Invoke(argShape.ByRefTo?)
    ensures MethodWF(u, m)
  {
    DelegateUniverseWF(name, argName, argShape);
  }

  lemma InvokeDeclaringName(u: Universe, m: MethodBase, name: string, argName: string, argShape: Shape)
    requires argShape == ByRefTo(2) || argShape == ArrayOf(2)
    requires '+' !in name
    requires u == DelegateUniverse(name, argName, argShape) && m == Invoke(argShape.ByRefTo?)
    ensures MethodWF(u, m)
    ensures MaybeInnerFullName(u[m.declaringType]) == GenericDelegates + "." + name + "`2"
  {
    InvokeWF(u, m, name, argName, argShape);
    DelegateName(name, argName, argShape);
  }

  lemma Foo2InvokeEntries(u: Universe, m: MethodBase)
    requires u == Foo2() && m == Invoke(true)
    ensures MethodWF(u, m) && Nameable(u, m.parameters[0]) && Nameable(u, m.parameters[1])
    ensures ParameterEntry(u, m.parameters[0]) == "System.TimeSpan"
    ensures ParameterEntry(u, m.parameters[1]) == "`1@"
  {
    InvokeWF(u, m, "Foo2", "TArg&", ByRefTo(2));
    TimeSpanEntry(u, m.parameters[0]);
    OutParameterEntry(u, m.parameters[1]);
  }

  lemma Foo4InvokeEntries(u: Universe, m: MethodBase)
    requires u == Foo4() && m == Invoke(false)
    ensures MethodWF(u, m) && Nameable(u, m.parameters[0]) && Nameable(u, m.parameters[1])
    ensures ParameterEntry(u, m.parameters[0]) == "System.TimeSpan"
    ensures ParameterEntry(u, m.parameters[1]) == "TArg[]"
  {
    InvokeWF(u, m, "Foo4", "TArg[]", ArrayOf(2));
    TimeSpanEntry(u, m.parameters[0]);
    ArrayOfParameterEntry(u, m.parameters[1]);
  }

  /** The member ID of `Foo2.Invoke`: no "``n" marker, since `Invoke`
      declares no type parameters of its own, and the `out` parameter
      marked with '@'. */
  lemma Foo2InvokeId(u: Universe, m: MethodBase)
    requires u == Foo2() && m == Invoke(true)
    ensures MethodWF(u, m)
    ensures MethodFullName(u, m, false, "Invoke")
      == Success((GenericDelegates + "." + "Foo2" + "`2") + "." + "Invoke" + "(" + ("System.TimeSpan" + "," + "`1@") + ")")
  {
    InvokeDeclaringName(u, m, "Foo2", "TArg&", ByRefTo(2));
    Foo2InvokeEntries(u, m);
    PlainMethodFullName(u, m, GenericDelegates + "." + "Foo2" + "`2", "System.TimeSpan", "`1@");
  }

  /** The member ID of `Foo4.Invoke`, whose array parameter is written by
      its bare name. */
  lemma Foo4InvokeId(u: Universe, m: MethodBase)
    requires u == Foo4() && m == Invoke(false)
    ensures MethodWF(u, m)
    ensures MethodFullName(u, m, false, "Invoke")
      == Success((GenericDelegates + "." + "Foo4" + "`2") + "." + "Invoke" + "(" + ("System.TimeSpan" + "," + "TArg[]") + ")")
  {
    InvokeDeclaringName(u, m, "Foo4", "TArg[]", ArrayOf(2));
    Foo4InvokeEntries(u, m);
    PlainMethodFullName(u, m, GenericDelegates + "." + "Foo4" + "`2", "System.TimeSpan", "TArg[]");
  }

  const SuppressedNs := "net.lshift" + ".ndocproc" + ".examples" + ".suppressed"
  const NotSuppressedNs := "net.lshift" + ".ndocproc" + ".examples" + ".notsuppressed"
  const ShouldNotAppear := SuppressedNs + ".ShouldNotAppear"
  const ShouldAppear := NotSuppressedNs + ".ShouldAppear"

  /** Suppressed.cs: `ShouldNotAppear` in the namespace given with `/suppress:<namespace>`,
      `ShouldAppear` in another, both deriving from `System.Object`. */
  function SuppressedUniverse(): Universe {
    map[
      0 := TypeDesc("Object", Some("System.Object"), Some("System"), None, None, {}, Named(NonGeneric)),
      1 := TypeDesc("ShouldNotAppear", Some(ShouldNotAppear), Some(SuppressedNs), None, Some(0), {}, Named(NonGeneric)),
      2 := TypeDesc("ShouldAppear", Some(ShouldAppear), Some(NotSuppressedNs), None, Some(0), {}, Named(NonGeneric))
    ]
  }

  /** The graph `Reflect` builds from the example assembly: both classes
      registered, each recorded as a known subtype of `Object`. */
  function SuppressedGraph(): Graph {
    Graph(SuppressedUniverse(),
          Registry([SuppressedNs, NotSuppressedNs],
                   map[SuppressedNs := [1], NotSuppressedNs := [2]],
                   [ShouldNotAppear, ShouldAppear],
                   map[ShouldNotAppear := 1, ShouldAppear := 2]),
          map[0 := {1, 2}])
  }

  lemma SuppressedNamesDiffer()
    ensures SuppressedNs != NotSuppressedNs && ShouldNotAppear != ShouldAppear
  {
    assert |SuppressedNs| == 39 && |NotSuppressedNs| == 42;
    assert SuppressedNs[29] == 's' && NotSuppressedNs[29] == 'n';
    assert ShouldNotAppear[29] == 's' && ShouldAppear[29] == 'n';
    assert SuppressedNs[29] != NotSuppressedNs[29] && ShouldNotAppear[29] != ShouldAppear[29];
  }

  lemma ElemsOfTwo<T>(a: T, b: T)
    ensures Elems([a, b]) == {a, b}
  {
    assert Elems<T>([]) == {};
    ElemsSnoc([], a);
    assert [a, b] == [a] + [b];
    ElemsSnoc([a], b);
  }

  lemma SuppressedUniverseWF(u: Universe)
    requires u == SuppressedUniverse()
    ensures UniverseWF(u)
  {
    forall id | id in u
      ensures DescWF(u, id, u[id])
    {
    }
  }

  lemma SuppressedRegistryWF(u: Universe, reg: Registry)
    requires u == SuppressedUniverse() && reg == SuppressedGraph().registry
    ensures reg.types.Values == {1, 2}
    ensures forall k :: k in reg.types ==> reg.types[k] in u && u[reg.types[k]].fullName == Some(k)
    ensures forall ns, i :: ns in reg.namespaces && 0 <= i < |reg.namespaces[ns]| ==>
          reg.namespaces[ns][i] in u && Namespace(u[reg.namespaces[ns][i]]) == ns
    ensures NoDup(reg.typeOrder) && Elems(reg.typeOrder) == reg.types.Keys
    ensures NoDup(reg.nsOrder) && Elems(reg.nsOrder) == reg.namespaces.Keys
  {
    SuppressedNamesDiffer();
    var types := reg.types;
    assert types[ShouldNotAppear] == 1 && types[ShouldAppear] == 2;
    assert types.Keys == {ShouldNotAppear, ShouldAppear};
    assert reg.namespaces[SuppressedNs] == [1] && reg.namespaces[NotSuppressedNs] == [2];
    ElemsOfTwo(ShouldNotAppear, ShouldAppear);
    ElemsOfTwo(SuppressedNs, NotSuppressedNs);
  }

  lemma SuppressedEdges(u: Universe, ks: map<TypeId, set<TypeId>>, values: set<TypeId>)
    requires u == SuppressedUniverse() && ks == map[0 := {1, 2}] && values == {1, 2}
    requires UniverseWF(u)
    ensures forall b: TypeId, d: TypeId :: Edge(ks, b, d) <==> d in values && d in u && DirectSupertype(u, b, d)
  {
    forall b: TypeId, d: TypeId
      ensures Edge(ks, b, d) <==> d in values && d in u && DirectSupertype(u, b, d)
    {
    }
  }

  lemma SuppressedGraphWF(g: Graph)
    requires g == SuppressedGraph()
    ensures GraphWF(g)
  {
    SuppressedUniverseWF(g.universe);
    SuppressedRegistryWF(g.universe, g.registry);
    SuppressedEdges(g.universe, g.knownSubtypes, g.registry.types.Values);
  }

  /** With its namespace suppressed, `ShouldNotAppear` has no index entry
      and no page of its own, yet stays a known subtype of `Object`, and a
      reference to it (the parameter of `ShouldAppear.Operation`) is not a
      local link; `ShouldAppear` is indexed and local. */
  lemma SuppressedScenario(c: Context, le: (string, string) -> bool)
    requires c == Context(SuppressedGraph(), {SuppressedNs}, map[]) && Total(le)
    ensures GraphWF(c.graph)
    ensures 1 !in IndexedTypes(c, le) && 1 !in PagedTypes(c.graph, c.suppressed)
    ensures 2 in IndexedTypes(c, le) && 2 in PagedTypes(c.graph, c.suppressed)
    ensures Edge(c.graph.knownSubtypes, 0, 1) && Edge(c.graph.knownSubtypes, 0, 2)
    ensures AttrValue(TypeRef(c, 1, "", false).attrs, "local") == Some("false")
    ensures AttrValue(TypeRef(c, 2, "", false).attrs, "local") == Some("true")
  {
    SuppressedGraphWF(c.graph);
    SuppressedEntries(c);
    SuppressionIsPageLevel(c, le, ShouldNotAppear);
    ShownTypeIsListed(c, le, ShouldAppear);
    ShouldAppearLocal(c);
  }

  /** Where the two example types are registered and what is suppressed. */
  lemma SuppressedEntries(c: Context)
    requires c == Context(SuppressedGraph(), {SuppressedNs}, map[])
    ensures ShouldNotAppear in c.graph.registry.types && c.graph.registry.types[ShouldNotAppear] == 1
    ensures ShouldAppear in c.graph.registry.types && c.graph.registry.types[ShouldAppear] == 2
    ensures 1 in c.graph.universe && Namespace(c.graph.universe[1]) in c.suppressed
    ensures 2 in c.graph.universe && NotSuppressed(c.suppressed, Namespace(c.graph.universe[2]))
    ensures '<' !in ShouldAppear
  {
    SuppressedNamesDiffer();
  }

  lemma ShouldAppearLocal(c: Context)
    requires c == Context(SuppressedGraph(), {SuppressedNs}, map[]) && GraphWF(c.graph)
    ensures AttrValue(TypeRef(c, 2, "", false).attrs, "local") == Some("true")
  {
    SuppressedNamesDiffer();
    assert c.graph.registry.types[ShouldAppear] == 2;
    RegisteredLocality(c.graph, c.suppressed, ShouldAppear);
    TypeRefLocality(c, 2, "", false);
  }

  const InterfacesNs := "net.lshift" + ".ndocproc" + ".examples" + ".interfaces"

  /** Interfaces.cs: `C12A` and `C12B` implement `I1` and `I2`. Id 5 is an
      illustration not in the example sources: a class deriving from `C12A`
      that names `I1` and `I2` again. */
  function InterfacesUniverse(): Universe {
    map[
      0 := TypeDesc("Object", Some("System.Object"), Some("System"), None, None, {}, Named(NonGeneric)),
      1 := TypeDesc("I1", Some(InterfacesNs + ".I1"), Some(InterfacesNs), None, None, {}, Named(NonGeneric)),
      2 := TypeDesc("I2", Some(InterfacesNs + ".I2"), Some(InterfacesNs), None, None, {}, Named(NonGeneric)),
      3 := TypeDesc("C12A", Some(InterfacesNs + ".C12A"), Some(InterfacesNs), None, Some(0), {1, 2}, Named(NonGeneric)),
      4 := TypeDesc("C12B", Some(InterfacesNs + ".C12B"), Some(InterfacesNs), None, Some(0), {1, 2}, Named(NonGeneric)),
      5 := TypeDesc("C12ASub", Some(InterfacesNs + ".C12ASub"), Some(InterfacesNs), None, Some(3), {1, 2}, Named(NonGeneric))
    ]
  }

  /** Both classes are direct subtypes of each interface and of `Object`;
      an interface has no supertype at all; the subclass inherits both
      interfaces through `C12A` and so is a direct subtype of `C12A` only. */
  lemma InterfacesScenario(u: Universe)
    requires u == InterfacesUniverse()
    ensures UniverseWF(u)
    ensures DirectInterfaces(u, 3) == {1, 2} && DirectInterfaces(u, 4) == {1, 2}
    ensures forall b: TypeId :: DirectSupertype(u, b, 3) <==> b in {0, 1, 2}
    ensures forall b: TypeId :: !DirectSupertype(u, b, 1)
    ensures DirectInterfaces(u, 5) == {}
    ensures forall b: TypeId :: DirectSupertype(u, b, 5) <==> b == 3
  {
    forall id | id in u
      ensures DescWF(u, id, u[id])
    {
    }
  }
}
