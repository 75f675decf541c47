/** Rendering of type references and documentation (NDocProc.cs 645-779):
    `GenerateTypeRef` and the functions it calls, as a pure function from a
    type to the `type` element it writes, and `WriteItemDocs`. */
module Rendering {
  import opened Wrappers
  import opened Text
  import opened TypeModel
  import opened TypeGraph
  import opened Locality
  import opened Naming
  import opened XmlTree

  /** What the renderers read: the reflected graph, the suppressed
      namespaces, and the documentation entries by DocID. */
  datatype Context = Context(graph: Graph, suppressed: set<string>, docs: map<string, seq<Fragment>>)

  predicate ContextWF(c: Context) {
    UniverseWF(c.graph.universe)
  }

  /** Which child elements of a documentation entry `SelectNodes` picks:
      "*" (all of them) or one element name such as "summary". */
  datatype Subset = AllElements | ElementsNamed(element: string)

  predicate Selects(subset: Subset, f: Fragment) {
    subset.AllElements? || f.element == subset.element
  }

  /** The fragments `subset` picks, in document order. */
  function Select(fs: seq<Fragment>, subset: Subset): (r: seq<Fragment>)
    ensures forall f :: f in r <==> f in fs && Selects(subset, f)
    ensures subset.AllElements? ==> r == fs
    decreases |fs|
  {
    if |fs| == 0 then []
    else
      assert fs == [fs[0]] + fs[1..];
      (if Selects(subset, fs[0]) then [fs[0]] else []) + Select(fs[1..], subset)
  }

  /** `Select` is an order-preserving filter: it picks each fragment on its
      own merits and keeps the picked ones in document order, once each. */
  lemma SelectFilters(a: seq<Fragment>, b: seq<Fragment>, subset: Subset)
    ensures Select(a + b, subset) == Select(a, subset) + Select(b, subset)
    ensures forall f :: Select([f], subset) == if Selects(subset, f) then [f] else []
  {
    forall f
      ensures Select([f], subset) == if Selects(subset, f) then [f] else []
    {
      SelectOne(f, subset);
    }
    SelectAppend(a, b, subset);
  }

  lemma SelectOne(f: Fragment, subset: Subset)
    ensures Select([f], subset) == if Selects(subset, f) then [f] else []
  {
    assert [f][1..] == [];
  }

  lemma {:induction false} SelectAppend(a: seq<Fragment>, b: seq<Fragment>, subset: Subset)
    ensures Select(a + b, subset) == Select(a, subset) + Select(b, subset)
    decreases |a|
  {
    if |a| == 0 {
      assert a + b == b;
    } else {
      assert (a + b)[0] == a[0];
      assert (a + b)[1..] == a[1..] + b;
      SelectAppend(a[1..], b, subset);
    }
  }

  function RawAll(fs: seq<Fragment>): (r: seq<Node>)
    ensures |r| == |fs|
    ensures forall i :: 0 <= i < |r| ==> r[i] == Raw(fs[i].markup)
  {
    seq(|fs|, i requires 0 <= i < |fs| => Raw(fs[i].markup))
  }

  /** `WriteItemDocs(w, key, subsetSpec)`: a `doc` element holding, verbatim,
      the selected children of the entry for `key`; empty when no entry has
      that key. */
  function ItemDocs(docs: map<string, seq<Fragment>>, key: string, subset: Subset): (r: Node)
    ensures r.Element? && r.tag == "doc" && r.attrs == []
    ensures key !in docs ==> r.children == []
    ensures key in docs ==> |r.children| == |Select(docs[key], subset)|
    ensures key in docs ==> forall i :: 0 <= i < |r.children| ==>
      r.children[i] == Raw(Select(docs[key], subset)[i].markup)
    ensures key in docs && subset.AllElements? ==> r.children == RawAll(docs[key])
    ensures forall i :: 0 <= i < |r.children| ==> key in docs && IsSelectedMarkup(docs[key], subset, r.children[i])
    ensures key in docs ==> forall f :: f in docs[key] && Selects(subset, f) ==> Raw(f.markup) in r.children
  {
    if key in docs then
      SelectedMarkup(docs[key], subset);
      Element("doc", [], RawAll(Select(docs[key], subset)))
    else Element("doc", [], [])
  }

  /** `n` is the verbatim markup of a fragment of `fs` that `subset` picks. */
  ghost predicate IsSelectedMarkup(fs: seq<Fragment>, subset: Subset, n: Node) {
    exists f :: f in fs && Selects(subset, f) && n == Raw(f.markup)
  }

  /** The raw nodes of the selection are exactly the markup of the selected
      fragments. */
  lemma SelectedMarkup(fs: seq<Fragment>, subset: Subset)
    ensures forall i :: 0 <= i < |RawAll(Select(fs, subset))| ==>
      IsSelectedMarkup(fs, subset, RawAll(Select(fs, subset))[i])
    ensures forall f :: f in fs && Selects(subset, f) ==> Raw(f.markup) in RawAll(Select(fs, subset))
  {
    var sel := Select(fs, subset);
    var ns := RawAll(sel);
    forall i | 0 <= i < |ns|
      ensures IsSelectedMarkup(fs, subset, ns[i])
    {
      assert sel[i] in sel;
      assert sel[i] in fs && Selects(subset, sel[i]) && ns[i] == Raw(sel[i].markup);
    }
    forall f | f in fs && Selects(subset, f)
      ensures Raw(f.markup) in ns
    {
      var i :| 0 <= i < |sel| && sel[i] == f;
      assert ns[i] == Raw(f.markup);
    }
  }

  /** The summary written on index and namespace pages is part of the full
      documentation written on the item's own page. */
  lemma SummaryWithinFullDocs(docs: map<string, seq<Fragment>>, key: string)
    ensures forall n :: n in ItemDocs(docs, key, ElementsNamed("summary")).children ==>
      n in ItemDocs(docs, key, AllElements).children
  {
    var s := ItemDocs(docs, key, ElementsNamed("summary"));
    var a := ItemDocs(docs, key, AllElements);
    forall n | n in s.children
      ensures n in a.children
    {
      var i :| 0 <= i < |s.children| && s.children[i] == n;
      assert IsSelectedMarkup(docs[key], ElementsNamed("summary"), s.children[i]);
      var f :| f in docs[key] && Selects(ElementsNamed("summary"), f) && s.children[i] == Raw(f.markup);
      assert Selects(AllElements, f);
    }
  }

  function BoolText(b: bool): string {
    if b then "true" else "false"
  }

  /** The `local` attribute of a type that is not an array or by-reference:
      "genericparameter" for a generic parameter, otherwise whether
      `IsLocal` holds. */
  function LocalText(c: Context, t: TypeId): (r: string)
    requires ContextWF(c) && t in c.graph.universe && !IsIndirect(c.graph.universe[t])
    ensures c.graph.universe[t].shape.Named? ==> LocalDefined(c.graph, c.suppressed, t)
    ensures r == "genericparameter" <==> IsGenericParameter(c.graph.universe[t])
    ensures r == "true" <==> c.graph.universe[t].shape.Named? && IsLocal(c.graph, c.suppressed, t)
  {
    if IsGenericParameter(c.graph.universe[t]) then "genericparameter"
    else
      NamedLocalDefined(c.graph, c.suppressed, t);
      BoolText(IsLocal(c.graph, c.suppressed, t))
  }

  /** The generic definition behind `t`, or `t` itself when it is not a
      constructed generic type: what the name attributes describe. */
  function GenericBaseDesc(c: Context, t: TypeId): TypeDesc
    requires ContextWF(c) && t in c.graph.universe
  {
    GenericBaseFacts(c.graph.universe, t);
    c.graph.universe[GenericBase(c.graph.universe, t)]
  }

  /** The eight attributes every `type` element carries, in the order they
      are written; `name` is the generic definition's `FullName` (written
      empty when null, as for a generic parameter). */
  function CommonAttrs(c: Context, t: TypeId, chain: string): (r: seq<Attr>)
    requires ContextWF(c) && t in c.graph.universe && !IsIndirect(c.graph.universe[t])
    ensures |r| == |CommonAttrNames|
    ensures forall i :: 0 <= i < |r| ==> r[i].name == CommonAttrNames[i]
  {
    var d := c.graph.universe[t];
    var b := GenericBaseDesc(c, t);
    [ Attr("name", b.fullName.GetOr("")),
      Attr("referenceChain", chain),
      Attr("leaf", GenericBaseName(b.name)),
      Attr("namespace", Namespace(b)),
      Attr("local", LocalText(c, t)),
      Attr("generictype", BoolText(IsGenericType(d))),
      Attr("generictypedefinition", BoolText(IsGenericTypeDefinition(d))),
      Attr("genericparameter", BoolText(IsGenericParameter(d))) ]
  }

  const CommonAttrNames: seq<string> := ["name", "referenceChain", "leaf", "namespace", "local",
    "generictype", "generictypedefinition", "genericparameter"]

  /** The attributes only a generic parameter carries. */
  function ParameterAttrs(d: TypeDesc): seq<Attr> {
    if IsGenericParameter(d) then
      (if d.shape.onMethod then [Attr("methodgenericparameter", "true")] else [])
      + [Attr("genericparameterposition", NatToString(d.shape.position))]
    else []
  }

  function TypeAttrs(c: Context, t: TypeId, chain: string): seq<Attr>
    requires ContextWF(c) && t in c.graph.universe && !IsIndirect(c.graph.universe[t])
  {
    CommonAttrs(c, t, chain) + ParameterAttrs(c.graph.universe[t])
  }

  /** A bound above every id in `ts`. */
  function UpperBound(ts: seq<TypeId>): (b: TypeId)
    ensures forall i :: 0 <= i < |ts| ==> ts[i] < b
    decreases |ts|
  {
    if |ts| == 0 then 0
    else
      var rest := UpperBound(ts[1..]);
      assert forall i :: 1 <= i < |ts| ==> ts[i] == ts[1..][i - 1];
      if ts[0] < rest then rest else ts[0] + 1
  }

  /** `GenerateTypeRef(w, t, referenceChain, emitTypeConstraints)`. Array and
      by-reference levels are peeled into `referenceChain` ('A' and 'R'),
      and one `type` element is written for what remains. */
  function TypeRef(c: Context, t: TypeId, chain: string, emitConstraints: bool): (r: Node)
    requires ContextWF(c) && t in c.graph.universe
    ensures IsElement(r, "type")
    decreases if emitConstraints then 1 else 0, t, 3, 0
  {
    var u := c.graph.universe;
    var d := u[t];
    assert DescWF(u, t, d);
    match d.shape
    case ArrayOf(e) => TypeRef(c, e, chain + "A", emitConstraints)
    case ByRefTo(e) => TypeRef(c, e, chain + "R", emitConstraints)
    case _ =>
      Element("type", TypeAttrs(c, t, chain),
        TypeRefHead(c, t, emitConstraints) + TypeGenericArguments(c, t, emitConstraints))
  }

  /** The children a `type` element has before its generic arguments: the
      constraints of a generic parameter when asked for, or the declaring
      type of a nested type. */
  function TypeRefHead(c: Context, t: TypeId, emitConstraints: bool): (r: seq<Node>)
    requires ContextWF(c) && t in c.graph.universe
    ensures IsGenericParameter(c.graph.universe[t]) && emitConstraints ==>
      |r| == 1 && IsElement(r[0], "typeconstraints")
    ensures IsGenericParameter(c.graph.universe[t]) && emitConstraints ==> r == [TypeConstraints(c, t)]
    ensures !IsGenericParameter(c.graph.universe[t]) && c.graph.universe[t].declaringType.Some? ==>
      |r| == 1 && IsElement(r[0], "declaringtype")
    ensures var d := c.graph.universe[t];
      !IsGenericParameter(d) && d.declaringType.Some? ==>
        && d.declaringType.value in c.graph.universe
        && r[0].attrs == []
        && r[0].children == [TypeRef(c, d.declaringType.value, "", false)]
    ensures |r| <= 1
    ensures |r| == 1 <==> (if IsGenericParameter(c.graph.universe[t]) then emitConstraints
                           else c.graph.universe[t].declaringType.Some?)
    decreases if emitConstraints then 1 else 0, t, 2, 0
  {
    var u := c.graph.universe;
    var d := u[t];
    assert DescWF(u, t, d);
    if IsGenericParameter(d) then
      (if emitConstraints then [TypeConstraints(c, t)] else [])
    else if d.declaringType.Some? then
      [Element("declaringtype", [], [TypeRef(c, d.declaringType.value, "", false)])]
    else []
  }

  /** `GenerateTypeConstraints`: the constraint flags and the constraint
      types, which are rendered without constraints of their own. */
  function TypeConstraints(c: Context, t: TypeId): (r: Node)
    requires ContextWF(c) && t in c.graph.universe && IsGenericParameter(c.graph.universe[t])
    ensures IsElement(r, "typeconstraints") && r.attrs == []
    decreases 1, t, 1, 0
  {
    var u := c.graph.universe;
    var gc := u[t].shape.constraints;
    assert DescWF(u, t, u[t]);
    Element("typeconstraints", [],
      (if gc.notNullableValueType then [Element("notnullablevaluetype", [], [])] else [])
      + (if gc.referenceType then [Element("referencetype", [], [])] else [])
      + TypeRefs(c, gc.constraintTypes, false, UpperBound(gc.constraintTypes))
      + (if gc.defaultConstructor then [Element("defaultconstructor", [], [])] else []))
  }

  /** The number of generic arguments that belong to the declaring type and
      are skipped. */
  function OuterArgumentCount(u: Universe, t: TypeId): nat
    requires UniverseWF(u) && t in u
  {
    assert DescWF(u, t, u[t]);
    if u[t].declaringType.Some? then |GenericArguments(u[u[t].declaringType.value])| else 0
  }

  /** `GenerateGenericArguments(w, t, emitTypeConstraints)`. */
  function TypeGenericArguments(c: Context, t: TypeId, emitConstraints: bool): seq<Node>
    requires ContextWF(c) && t in c.graph.universe
    decreases if emitConstraints then 1 else 0, t, 2, 0
  {
    GenericArgumentsBelow(c.graph.universe, t);
    ArgumentList(c, GenericArguments(c.graph.universe[t]), OuterArgumentCount(c.graph.universe, t), emitConstraints, t)
  }

  /** `GenerateGenericArguments(w, genericArguments, startOffset, ...)`: one
      `genericarguments` element for the arguments from `start` on, or
      nothing when there are none. */
  function ArgumentList(c: Context, args: seq<TypeId>, start: nat, emitConstraints: bool, ghost bound: TypeId)
    : (r: seq<Node>)
    requires ContextWF(c)
    requires forall i :: 0 <= i < |args| ==> args[i] in c.graph.universe && args[i] < bound
    ensures |r| <= 1
    ensures |r| == 1 <==> start < |args|
    ensures |r| == 1 ==> IsElement(r[0], "genericarguments") && r[0].attrs == []
    ensures |r| == 1 ==> |r[0].children| == |args| - start
    ensures |r| == 1 ==> forall i :: 0 <= i < |r[0].children| ==>
      args[start + i] in c.graph.universe && r[0].children[i] == TypeRef(c, args[start + i], "", emitConstraints)
    decreases if emitConstraints then 1 else 0, bound, 1, 0
  {
    if start < |args| then
      [Element("genericarguments", [], TypeRefs(c, args[start..], emitConstraints, bound))]
    else []
  }

  /** One `type` element per type, in order. */
  function TypeRefs(c: Context, ts: seq<TypeId>, emitConstraints: bool, ghost bound: TypeId): (r: seq<Node>)
    requires ContextWF(c)
    requires forall i :: 0 <= i < |ts| ==> ts[i] in c.graph.universe && ts[i] < bound
    ensures |r| == |ts|
    ensures forall i :: 0 <= i < |r| ==> IsElement(r[i], "type")
    ensures forall i :: 0 <= i < |r| ==> r[i] == TypeRef(c, ts[i], "", emitConstraints)
    decreases if emitConstraints then 1 else 0, bound, 0, |ts|
  {
    if |ts| == 0 then []
    else
      var rest := TypeRefs(c, ts[1..], emitConstraints, bound);
      assert forall i :: 1 <= i < |ts| ==> ts[1..][i - 1] == ts[i];
      [TypeRef(c, ts[0], "", emitConstraints)] + rest
  }

  /** `GenerateGenericArguments(w, mi)`: the type parameters of a generic
      method, without constraints; nothing for a constructor. */
  function MethodGenericArguments(c: Context, m: MethodBase, isConstructor: bool): (r: seq<Node>)
    requires ContextWF(c)
    requires forall i :: 0 <= i < |m.genericArguments| ==> m.genericArguments[i] in c.graph.universe
    ensures |r| == 1 <==> m.containsGenericParameters && !isConstructor && |m.genericArguments| > 0
    ensures !MentionsAny(r, "typeconstraints")
    ensures |r| == 1 ==> IsElement(r[0], "genericarguments") && |r[0].children| == |m.genericArguments|
    ensures |r| == 1 ==> forall i :: 0 <= i < |m.genericArguments| ==>
      r[0].children[i] == TypeRef(c, m.genericArguments[i], "", false)
  {
    if m.containsGenericParameters && !isConstructor then
      var r := ArgumentList(c, m.genericArguments, 0, false, UpperBound(m.genericArguments));
      ArgumentListNoConstraints(c, m.genericArguments, 0, UpperBound(m.genericArguments));
      r
    else []
  }

  /** The 'A'/'R' letters `TypeRef` records for the array and by-reference
      levels above `t`, outermost first. */
  function RefChain(u: Universe, t: TypeId): (r: string)
    requires UniverseWF(u) && t in u
    ensures |r| == Depth(u, t)
    decreases t
  {
    assert DescWF(u, t, u[t]);
    match u[t].shape
    case ArrayOf(e) => "A" + RefChain(u, e)
    case ByRefTo(e) => "R" + RefChain(u, e)
    case _ => ""
  }

  /** Letter `k` of the reference chain says how level `k` is reached. */
  lemma {:induction false} RefChainLetters(u: Universe, t: TypeId, k: nat)
    requires UniverseWF(u) && t in u && k < Depth(u, t)
    ensures IsIndirect(u[Peel(u, t, k)])
    ensures RefChain(u, t)[k] == (if u[Peel(u, t, k)].shape.ArrayOf? then 'A' else 'R')
    decreases t
  {
    assert DescWF(u, t, u[t]);
    if k > 0 {
      RefChainLetters(u, ElementType(u[t]), k - 1);
    }
  }

  /** `GenerateTypeRef` renders an array or by-reference type as the type
      under all such levels, with the levels appended to the chain. */
  lemma {:induction false} TypeRefPeels(c: Context, t: TypeId, chain: string, emitConstraints: bool)
    requires ContextWF(c) && t in c.graph.universe
    ensures TypeRef(c, t, chain, emitConstraints)
      == TypeRef(c, Peel(c.graph.universe, t, Depth(c.graph.universe, t)),
                 chain + RefChain(c.graph.universe, t), emitConstraints)
    decreases t
  {
    var u := c.graph.universe;
    assert DescWF(u, t, u[t]);
    if IsIndirect(u[t]) {
      var e := ElementType(u[t]);
      var letter := if u[t].shape.ArrayOf? then "A" else "R";
      TypeRefPeels(c, e, chain + letter, emitConstraints);
      assert RefChain(u, t) == letter + RefChain(u, e);
      assert chain + letter + RefChain(u, e) == chain + RefChain(u, t);
      assert Peel(u, t, Depth(u, t)) == Peel(u, e, Depth(u, e));
    } else {
      assert chain + RefChain(u, t) == chain;
    }
  }

  /** The single `type` element written for any type records in
      `referenceChain` one letter per array or by-reference level. */
  lemma ReferenceChainAttr(c: Context, t: TypeId)
    requires ContextWF(c) && t in c.graph.universe
    ensures AttrValue(TypeRef(c, t, "", false).attrs, "referenceChain") == Some(RefChain(c.graph.universe, t))
    ensures |RefChain(c.graph.universe, t)| == Depth(c.graph.universe, t)
  {
    var u := c.graph.universe;
    var chain := RefChain(u, t);
    assert "" + chain == chain;
    TypeRefPeels(c, t, "", false);
    PeelAll(u, t);
    ChainAttrOfCore(c, Peel(u, t, Depth(u, t)), chain);
  }

  /** The chain a non-indirect type is rendered with is its
      `referenceChain` attribute. */
  lemma ChainAttrOfCore(c: Context, t: TypeId, chain: string)
    requires ContextWF(c) && t in c.graph.universe && !IsIndirect(c.graph.universe[t])
    ensures AttrValue(TypeRef(c, t, chain, false).attrs, "referenceChain") == Some(chain)
  {
    CoreAttrs(c, t, chain, false);
    AttrValueAt(TypeAttrs(c, t, chain), "referenceChain", 1);
  }

  /** The attribute list of the element written for a type that is not an
      array or by-reference. */
  lemma CoreAttrs(c: Context, t: TypeId, chain: string, emitConstraints: bool)
    requires ContextWF(c) && t in c.graph.universe && !IsIndirect(c.graph.universe[t])
    ensures TypeRef(c, t, chain, emitConstraints).attrs == TypeAttrs(c, t, chain)
  {
  }

  /** The attributes of the element written for a type that is not an array
      or by-reference do not depend on the constraints flag. `name`, `leaf`
      and `namespace` describe the generic definition behind the type: its
      full name (empty when null), its simple name without the arity marker,
      and its namespace. `generictype`, `generictypedefinition` and
      `genericparameter` are "true" exactly for that kind of type. */
  lemma TypeRefAttrs(c: Context, t: TypeId, chain: string, emitConstraints: bool)
    requires ContextWF(c) && t in c.graph.universe && !IsIndirect(c.graph.universe[t])
    ensures TypeRef(c, t, chain, true).attrs == TypeRef(c, t, chain, false).attrs
    ensures var b := GenericBaseDesc(c, t);
      var attrs := TypeRef(c, t, chain, emitConstraints).attrs;
      && AttrValue(attrs, "name") == Some(b.fullName.GetOr(""))
      && AttrValue(attrs, "leaf") == Some(GenericBaseName(b.name))
      && AttrValue(attrs, "namespace") == Some(Namespace(b))
    ensures var d := c.graph.universe[t];
      var attrs := TypeRef(c, t, chain, emitConstraints).attrs;
      && (AttrValue(attrs, "generictype") == Some("true") <==> IsGenericType(d))
      && (AttrValue(attrs, "generictypedefinition") == Some("true") <==> IsGenericTypeDefinition(d))
      && (AttrValue(attrs, "genericparameter") == Some("true") <==> IsGenericParameter(d))
  {
    CoreAttrs(c, t, chain, true);
    CoreAttrs(c, t, chain, false);
    CoreAttrs(c, t, chain, emitConstraints);
    NameAttrValues(c, t, chain);
    FlagAttrValues(c, t, chain);
  }

  lemma NameAttrValues(c: Context, t: TypeId, chain: string)
    requires ContextWF(c) && t in c.graph.universe && !IsIndirect(c.graph.universe[t])
    ensures var b := GenericBaseDesc(c, t);
      var attrs := TypeAttrs(c, t, chain);
      && AttrValue(attrs, "name") == Some(b.fullName.GetOr(""))
      && AttrValue(attrs, "leaf") == Some(GenericBaseName(b.name))
      && AttrValue(attrs, "namespace") == Some(Namespace(b))
  {
    CommonAttrValue(c, t, chain, 0);
    CommonAttrValue(c, t, chain, 2);
    CommonAttrValue(c, t, chain, 3);
  }

  lemma FlagAttrValues(c: Context, t: TypeId, chain: string)
    requires ContextWF(c) && t in c.graph.universe && !IsIndirect(c.graph.universe[t])
    ensures var d := c.graph.universe[t];
      var attrs := TypeAttrs(c, t, chain);
      && AttrValue(attrs, "generictype") == Some(BoolText(IsGenericType(d)))
      && AttrValue(attrs, "generictypedefinition") == Some(BoolText(IsGenericTypeDefinition(d)))
      && AttrValue(attrs, "genericparameter") == Some(BoolText(IsGenericParameter(d)))
  {
    CommonAttrValue(c, t, chain, 5);
    CommonAttrValue(c, t, chain, 6);
    CommonAttrValue(c, t, chain, 7);
  }

  /** Each common attribute is the first of its name in a `type` element. */
  lemma CommonAttrValue(c: Context, t: TypeId, chain: string, i: nat)
    requires ContextWF(c) && t in c.graph.universe && !IsIndirect(c.graph.universe[t])
    requires i < |CommonAttrNames|
    ensures AttrValue(TypeAttrs(c, t, chain), CommonAttrNames[i]) == Some(CommonAttrs(c, t, chain)[i].value)
  {
    var common := CommonAttrs(c, t, chain);
    var attrs := TypeAttrs(c, t, chain);
    assert forall j :: 0 <= j < |common| ==> attrs[j] == common[j];
    CommonAttrNamesDistinct();
    AttrValueAt(attrs, CommonAttrNames[i], i);
  }

  lemma CommonAttrNamesDistinct()
    ensures forall j, k :: 0 <= j < k < |CommonAttrNames| ==> CommonAttrNames[j] != CommonAttrNames[k]
  {
  }

  /** `typeconstraints` appears nowhere in a reference rendered without the
      constraints flag, however deep the declaring types and generic
      arguments go. */
  lemma {:induction false} TypeRefNoConstraints(c: Context, t: TypeId, chain: string)
    requires ContextWF(c) && t in c.graph.universe
    ensures !Mentions(TypeRef(c, t, chain, false), "typeconstraints")
    decreases t, 3
  {
    var u := c.graph.universe;
    var d := u[t];
    assert DescWF(u, t, d);
    if d.shape.ArrayOf? {
      TypeRefNoConstraints(c, d.shape.element, chain + "A");
    } else if d.shape.ByRefTo? {
      TypeRefNoConstraints(c, d.shape.element, chain + "R");
    } else {
      var head := TypeRefHead(c, t, false);
      var args := TypeGenericArguments(c, t, false);
      if !IsGenericParameter(d) && d.declaringType.Some? {
        TypeRefNoConstraints(c, d.declaringType.value, "");
        var decl := head[0];
        assert !MentionsAny(decl.children, "typeconstraints");
      }
      assert !MentionsAny(head, "typeconstraints");
      GenericArgumentsBelow(u, t);
      ArgumentListNoConstraints(c, GenericArguments(d), OuterArgumentCount(u, t), t);
      MentionsAnyConcat(head, args, "typeconstraints");
    }
  }

  lemma {:induction false} ArgumentListNoConstraints(c: Context, args: seq<TypeId>, start: nat, bound: TypeId)
    requires ContextWF(c)
    requires forall i :: 0 <= i < |args| ==> args[i] in c.graph.universe && args[i] < bound
    ensures !MentionsAny(ArgumentList(c, args, start, false, bound), "typeconstraints")
    decreases bound, 1
  {
    if start < |args| {
      TypeRefsNoConstraints(c, args[start..], bound);
    }
  }

  lemma {:induction false} TypeRefsNoConstraints(c: Context, ts: seq<TypeId>, bound: TypeId)
    requires ContextWF(c)
    requires forall i :: 0 <= i < |ts| ==> ts[i] in c.graph.universe && ts[i] < bound
    ensures !MentionsAny(TypeRefs(c, ts, false, bound), "typeconstraints")
    decreases bound, 0, |ts|
  {
    if |ts| > 0 {
      TypeRefNoConstraints(c, ts[0], "");
      TypeRefsNoConstraints(c, ts[1..], bound);
      MentionsAnyConcat([TypeRef(c, ts[0], "", false)], TypeRefs(c, ts[1..], false, bound), "typeconstraints");
    }
  }

  /** The child elements of a `type` element: `typeconstraints` exactly for
      a generic parameter rendered with the flag, `declaringtype` exactly for
      a nested type that is not a generic parameter, and `genericarguments`
      exactly when arguments remain past the declaring type's. */
  lemma TypeRefChildren(c: Context, t: TypeId, chain: string, emitConstraints: bool)
    requires ContextWF(c) && t in c.graph.universe && !IsIndirect(c.graph.universe[t])
    ensures var d := c.graph.universe[t];
      var r := TypeRef(c, t, chain, emitConstraints);
      && (SomeElement(r.children, "typeconstraints") <==> IsGenericParameter(d) && emitConstraints)
      && (SomeElement(r.children, "declaringtype") <==> !IsGenericParameter(d) && d.declaringType.Some?)
      && (SomeElement(r.children, "genericarguments") <==>
            |GenericArguments(d)| > OuterArgumentCount(c.graph.universe, t))
  {
    var u := c.graph.universe;
    var d := u[t];
    var head := TypeRefHead(c, t, emitConstraints);
    var args := TypeGenericArguments(c, t, emitConstraints);
    assert TypeRef(c, t, chain, emitConstraints).children == head + args;
    var headTag := if IsGenericParameter(d) then "typeconstraints" else "declaringtype";
    forall tag | tag in {"typeconstraints", "declaringtype", "genericarguments"}
      ensures SomeElement(head + args, tag) <==>
        (|head| == 1 && tag == headTag) || (|args| == 1 && tag == "genericarguments")
    {
      SomeElementConcat(head, args, tag);
      SomeElementOfOne(head, tag, headTag);
      SomeElementOfOne(args, tag, "genericarguments");
    }
  }

  /** The `local` attribute of a `type` element. */
  lemma TypeRefLocality(c: Context, t: TypeId, chain: string, emitConstraints: bool)
    requires ContextWF(c) && t in c.graph.universe && !IsIndirect(c.graph.universe[t])
    ensures c.graph.universe[t].shape.Named? ==> LocalDefined(c.graph, c.suppressed, t)
    ensures var local := AttrValue(TypeRef(c, t, chain, emitConstraints).attrs, "local");
      && (local == Some("genericparameter") <==> IsGenericParameter(c.graph.universe[t]))
      && (local == Some("true") <==>
            c.graph.universe[t].shape.Named? && IsLocal(c.graph, c.suppressed, t))
  {
    CoreAttrs(c, t, chain, emitConstraints);
    AttrValueAt(TypeAttrs(c, t, chain), "local", 4);
  }

  /** None of the eight common attributes is called `name`. */
  lemma CommonAttrsLack(c: Context, t: TypeId, chain: string, name: string)
    requires ContextWF(c) && t in c.graph.universe && !IsIndirect(c.graph.universe[t])
    requires name !in CommonAttrNames
    ensures AttrValue(CommonAttrs(c, t, chain), name) == None
  {
    var common := CommonAttrs(c, t, chain);
    forall i | 0 <= i < |common|
      ensures common[i].name != name
    {
      assert common[i].name == CommonAttrNames[i];
    }
  }

  lemma ParameterAttrValues(d: TypeDesc)
    ensures (AttrValue(ParameterAttrs(d), "methodgenericparameter") == Some("true")) <==>
      IsGenericParameter(d) && d.shape.onMethod
    ensures AttrValue(ParameterAttrs(d), "genericparameterposition") ==
      if IsGenericParameter(d) then Some(NatToString(d.shape.position)) else None
  {
    var extra := ParameterAttrs(d);
    if IsGenericParameter(d) {
      if d.shape.onMethod {
        AttrValueAt(extra, "methodgenericparameter", 0);
        AttrValueAt(extra, "genericparameterposition", 1);
      } else {
        AttrValueAt(extra, "genericparameterposition", 0);
      }
    }
  }

  /** A generic parameter's element says whether a method declares it and
      gives its position; no other element has either attribute. */
  lemma TypeRefParameterAttrs(c: Context, t: TypeId, chain: string, emitConstraints: bool)
    requires ContextWF(c) && t in c.graph.universe && !IsIndirect(c.graph.universe[t])
    ensures var d := c.graph.universe[t];
      var attrs := TypeRef(c, t, chain, emitConstraints).attrs;
      && (AttrValue(attrs, "methodgenericparameter") == Some("true") <==>
            IsGenericParameter(d) && d.shape.onMethod)
      && (AttrValue(attrs, "genericparameterposition").Some? <==> IsGenericParameter(d))
      && (IsGenericParameter(d) ==>
            AttrValue(attrs, "genericparameterposition") == Some(NatToString(d.shape.position)))
  {
    CoreAttrs(c, t, chain, emitConstraints);
    TypeAttrsParameter(c, t, chain, "methodgenericparameter");
    TypeAttrsParameter(c, t, chain, "genericparameterposition");
    ParameterAttrValues(c.graph.universe[t]);
  }

  /** An attribute that `CommonAttrs` never writes is read from the
      parameter attributes. */
  lemma TypeAttrsParameter(c: Context, t: TypeId, chain: string, name: string)
    requires ContextWF(c) && t in c.graph.universe && !IsIndirect(c.graph.universe[t])
    requires name !in CommonAttrNames
    ensures AttrValue(TypeAttrs(c, t, chain), name) == AttrValue(ParameterAttrs(c.graph.universe[t]), name)
  {
    var common := CommonAttrs(c, t, chain);
    AttrValueConcat(common, ParameterAttrs(c.graph.universe[t]), name);
    CommonAttrsLack(c, t, chain, name);
  }

  /** The children of `typeconstraints`: the flag elements around the
      constraint types. */
  function ConstraintParts(c: Context, t: TypeId): (r: (seq<Node>, seq<Node>, seq<Node>, seq<Node>))
    requires ContextWF(c) && t in c.graph.universe && IsGenericParameter(c.graph.universe[t])
    ensures TypeConstraints(c, t).children == r.0 + r.1 + r.2 + r.3
    ensures var gc := c.graph.universe[t].shape.constraints;
      && r.0 == (if gc.notNullableValueType then [Element("notnullablevaluetype", [], [])] else [])
      && r.1 == (if gc.referenceType then [Element("referencetype", [], [])] else [])
      && |r.2| == |gc.constraintTypes| && (forall i :: 0 <= i < |r.2| ==> IsElement(r.2[i], "type"))
      && (forall i :: 0 <= i < |r.2| ==>
            gc.constraintTypes[i] in c.graph.universe && r.2[i] == TypeRef(c, gc.constraintTypes[i], "", false))
      && r.3 == (if gc.defaultConstructor then [Element("defaultconstructor", [], [])] else [])
  {
    var u := c.graph.universe;
    var gc := u[t].shape.constraints;
    assert DescWF(u, t, u[t]);
    ( if gc.notNullableValueType then [Element("notnullablevaluetype", [], [])] else [],
      if gc.referenceType then [Element("referencetype", [], [])] else [],
      TypeRefs(c, gc.constraintTypes, false, UpperBound(gc.constraintTypes)),
      if gc.defaultConstructor then [Element("defaultconstructor", [], [])] else [] )
  }

  lemma SomeElementOfFour(a: seq<Node>, b: seq<Node>, m: seq<Node>, z: seq<Node>, tag: string)
    ensures SomeElement(a + b + m + z, tag) <==>
      SomeElement(a, tag) || SomeElement(b, tag) || SomeElement(m, tag) || SomeElement(z, tag)
  {
    SomeElementConcat(a, b, tag);
    SomeElementConcat(a + b, m, tag);
    SomeElementConcat(a + b + m, z, tag);
  }

  /** A flag element, present or not, is the only element it offers. */
  lemma FlagElement(flag: bool, tag: string, wanted: string)
    ensures SomeElement(if flag then [Element(tag, [], [])] else [], wanted) <==> flag && tag == wanted
  {
    if flag && tag == wanted {
      assert IsElement([Element(tag, [], [])][0], wanted);
    }
  }

  /** A run of `type` elements offers no other element. */
  lemma OnlyTypeElements(ns: seq<Node>, wanted: string)
    requires forall i :: 0 <= i < |ns| ==> IsElement(ns[i], "type")
    ensures SomeElement(ns, wanted) <==> |ns| > 0 && wanted == "type"
  {
    if |ns| > 0 && wanted == "type" {
      assert IsElement(ns[0], wanted);
    }
  }

  /** `typeconstraints` holds one flag element per constraint flag that is
      set, a `type` element exactly when there are constraint types, and
      nothing else. */
  lemma ConstraintsOffer(c: Context, t: TypeId, wanted: string)
    requires ContextWF(c) && t in c.graph.universe && IsGenericParameter(c.graph.universe[t])
    ensures var gc := c.graph.universe[t].shape.constraints;
      SomeElement(TypeConstraints(c, t).children, wanted) <==>
        || (gc.notNullableValueType && wanted == "notnullablevaluetype")
        || (gc.referenceType && wanted == "referencetype")
        || (|gc.constraintTypes| > 0 && wanted == "type")
        || (gc.defaultConstructor && wanted == "defaultconstructor")
  {
    var gc := c.graph.universe[t].shape.constraints;
    var p := ConstraintParts(c, t);
    SomeElementOfFour(p.0, p.1, p.2, p.3, wanted);
    FlagElement(gc.notNullableValueType, "notnullablevaluetype", wanted);
    FlagElement(gc.referenceType, "referencetype", wanted);
    OnlyTypeElements(p.2, wanted);
    FlagElement(gc.defaultConstructor, "defaultconstructor", wanted);
  }

  /** Constraint types are rendered without constraints of their own, so
      the recursion through `K : IComparable<K>` stops after one level. */
  lemma ConstraintsNotNested(c: Context, t: TypeId)
    requires ContextWF(c) && t in c.graph.universe && IsGenericParameter(c.graph.universe[t])
    ensures !MentionsAny(TypeConstraints(c, t).children, "typeconstraints")
  {
    var u := c.graph.universe;
    var gc := u[t].shape.constraints;
    assert DescWF(u, t, u[t]);
    var p := ConstraintParts(c, t);
    TypeRefsNoConstraints(c, gc.constraintTypes, UpperBound(gc.constraintTypes));
    MentionsAnyConcat(p.0, p.1, "typeconstraints");
    MentionsAnyConcat(p.0 + p.1, p.2, "typeconstraints");
    MentionsAnyConcat(p.0 + p.1 + p.2, p.3, "typeconstraints");
  }
}
