/** The abstract stand-in for `System.Type`: every type the source reflects on
    (named classes, interfaces, structs, enums and delegates, generic
    parameters, arrays and by-reference types) is a `TypeDesc` in a
    `Universe` indexed by `TypeId`. The identity of a `TypeId` plays the role of
    .NET's reference identity of `Type` objects. */
module TypeModel {
  import opened Wrappers

  type TypeId = nat

  /** Generic-parameter constraints (`GenericParameterAttributes` flags and
      `GetGenericParameterConstraints()`). */
  datatype Constraints = Constraints(
    notNullableValueType: bool,
    referenceType: bool,
    defaultConstructor: bool,
    constraintTypes: seq<TypeId>)

  /** How a named type takes part in generics. `Definition` is an unbound
      generic type (its own `GetGenericTypeDefinition()`); `Constructed` is an
      instantiation of `definition` with `arguments`. */
  datatype Generic =
    | NonGeneric
    | Definition(parameters: seq<TypeId>)
    | Constructed(definition: TypeId, arguments: seq<TypeId>)

  datatype Shape =
    | GenericParameter(position: nat, onMethod: bool, constraints: Constraints)
    | ArrayOf(element: TypeId)
    | ByRefTo(element: TypeId)
    | Named(generic: Generic)

  /** One type: `Name`, `FullName` (null for generic parameters and for types
      built from them), `Namespace`, `DeclaringType`, `BaseType`, the full
      `GetInterfaces()` set, and its shape. */
  datatype TypeDesc = TypeDesc(
    name: string,
    fullName: Option<string>,
    ns: Option<string>,
    declaringType: Option<TypeId>,
    baseType: Option<TypeId>,
    interfaces: set<TypeId>,
    shape: Shape)

  type Universe = map<TypeId, TypeDesc>

  /** Every reference of `d` resolves in `u`, and the references the renderers
      recurse through (element types, generic arguments, and the declaring
      type of anything but a generic parameter) point to smaller ids: the
      numbering witnesses that these references are acyclic. Named types that
      are not constructed carry a `FullName`, as reflection guarantees. */
  predicate DescWF(u: Universe, id: TypeId, d: TypeDesc) {
    && (d.declaringType.Some? ==>
          d.declaringType.value in u && (!d.shape.GenericParameter? ==> d.declaringType.value < id))
    && (d.baseType.Some? ==> d.baseType.value in u)
    && d.interfaces <= u.Keys
    && match d.shape
       case GenericParameter(_, _, c) =>
         forall i :: 0 <= i < |c.constraintTypes| ==> c.constraintTypes[i] in u
       case ArrayOf(e) => e in u && e < id
       case ByRefTo(e) => e in u && e < id
       case Named(NonGeneric) => d.fullName.Some?
       case Named(Definition(ps)) =>
         && d.fullName.Some?
         && forall i :: 0 <= i < |ps| ==> ps[i] in u && ps[i] < id
       case Named(Constructed(def, args)) =>
         && def in u
         && u[def].shape.Named? && u[def].shape.generic.Definition?
         && u[def].fullName.Some?
         && forall i :: 0 <= i < |args| ==> args[i] in u && args[i] < id
  }

  predicate UniverseWF(u: Universe) {
    forall id :: id in u ==> DescWF(u, id, u[id])
  }

  /** `Namespace(Type)`: the namespace, or "" when reflection reports null. */
  function Namespace(d: TypeDesc): string {
    d.ns.GetOr("")
  }

  predicate IsGenericParameter(d: TypeDesc) {
    d.shape.GenericParameter?
  }

  predicate IsGenericType(d: TypeDesc) {
    d.shape.Named? && !d.shape.generic.NonGeneric?
  }

  predicate IsGenericTypeDefinition(d: TypeDesc) {
    d.shape.Named? && d.shape.generic.Definition?
  }

  /** `IsIndirect`: arrays and by-reference types. */
  predicate IsIndirect(d: TypeDesc) {
    d.shape.ArrayOf? || d.shape.ByRefTo?
  }

  /** `GetElementType()` of an array or by-reference type. */
  function ElementType(d: TypeDesc): TypeId
    requires IsIndirect(d)
  {
    d.shape.element
  }

  /** `GetGenericArguments()`: the parameters of a definition, the arguments
      of a constructed type, and nothing for every other type. */
  function GenericArguments(d: TypeDesc): seq<TypeId> {
    match d.shape
    case Named(Definition(ps)) => ps
    case Named(Constructed(_, args)) => args
    case _ => []
  }

  /** `t.IsGenericType ? t.GetGenericTypeDefinition() : t`. */
  function GenericBase(u: Universe, t: TypeId): TypeId
    requires t in u
  {
    match u[t].shape
    case Named(Constructed(def, _)) => def
    case _ => t
  }

  lemma GenericBaseFacts(u: Universe, t: TypeId)
    requires UniverseWF(u) && t in u
    ensures GenericBase(u, t) in u
    ensures u[GenericBase(u, t)].fullName.Some? || !u[t].shape.Named?
    ensures IsIndirect(u[GenericBase(u, t)]) ==> GenericBase(u, t) == t
  {
    assert DescWF(u, t, u[t]);
  }

  /** Every generic argument of `t` precedes `t` in the numbering. */
  lemma GenericArgumentsBelow(u: Universe, t: TypeId)
    requires UniverseWF(u) && t in u
    ensures forall i :: 0 <= i < |GenericArguments(u[t])| ==>
      GenericArguments(u[t])[i] in u && GenericArguments(u[t])[i] < t
  {
    assert DescWF(u, t, u[t]);
  }

  /** The number of array and by-reference levels wrapped around the first
      type that is neither. */
  function Depth(u: Universe, t: TypeId): nat
    requires UniverseWF(u) && t in u
    decreases t
  {
    assert DescWF(u, t, u[t]);
    if IsIndirect(u[t]) then 1 + Depth(u, ElementType(u[t])) else 0
  }

  /** `t` with its outermost `k` array or by-reference levels removed. */
  function Peel(u: Universe, t: TypeId, k: nat): (r: TypeId)
    requires UniverseWF(u) && t in u && k <= Depth(u, t)
    ensures r in u && r <= t
    ensures Depth(u, r) == Depth(u, t) - k
    decreases k
  {
    assert DescWF(u, t, u[t]);
    if k == 0 then t else Peel(u, ElementType(u[t]), k - 1)
  }

  /** What remains once every array and by-reference level is removed. */
  lemma PeelAll(u: Universe, t: TypeId)
    requires UniverseWF(u) && t in u
    ensures !IsIndirect(u[Peel(u, t, Depth(u, t))])
  {
    var r := Peel(u, t, Depth(u, t));
    assert Depth(u, r) == 0;
  }
}
