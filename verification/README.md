# NDocProc core, modelled in Dafny

NDocProc turns the XML documentation file that the C# compiler writes into a set of XML pages for
XSLT stylesheets to render. It works in three stages:

- `Load` reads a documentation file. It loads each assembly the file names, reusing any already
  loaded, and records every `<member name="...">` entry under its documentation ID.
- `Reflect` walks the loaded assemblies. It registers each type under its full name and under its
  namespace, then indexes each type as a known subtype of its base type and of each interface it
  implements directly.
- `Generate` writes:
  - config.xml;
  - index.xml, with the namespaces and types sorted by name;
  - one page per type;
  - one page per namespace.

  Namespaces given with `/suppress:<namespace>` are left off the index and get no pages.

Every reference to a type is written as a `type` element:

- array and by-reference levels are folded into a `referenceChain` of 'A' and 'R' letters;
- a `local` attribute says whether the referenced type is documented by this run;
- the element may hold a declaring type, generic arguments and, on request, the constraints of a
  generic parameter.

Documentation IDs ("T:", "M:", "F:", "P:", "E:" keys) are computed from reflection data the way
NDocProc computes them, imitating the compiler's output. That includes the compiler's quirks:

- "{`0,`1}" for generic arguments;
- "``n" for the type parameters of a generic method;
- '@' for `out` and by-reference parameters;
- the enclosing type dropped from the name of a nested generic type.

It differs from the compiler in two places. An array of a generic parameter, whose type has no
full name, is written by its simple name ("TArg[]" where the compiler writes "`1[]"). A method
with a non-array parameter marked `[Out]` cannot be named at all: NDocProc dereferences the
parameter type's missing element type.

The model has these modules:

| module | contents |
|---|---|
| `TypeModel` | Reflection data. A `Universe` maps type ids to descriptions, and a type refers only to smaller ids through its element type, generic arguments and declaring type. |
| `TypeGraph` | `Load`, `Reflect`, `AddKnownSubtype`, `GetDirectInterfaces` and `InterfaceRejector`. |
| `Locality` | `NotSuppressed`, `IsIndirect` and `IsLocal`. |
| `Naming` | `GenericBaseName`, `MaybeInnerFullName`, `ConcatNamespace`, `AppendTypeName`, `MethodFullName`, `MemberFullName` and `KeyForMember`. Each `StringBuilder` loop is a method, proved equal to a declarative definition. |
| `XmlTree` | A small XML element tree. |
| `Rendering` | `WriteItemDocs`, `GenerateTypeRef`, the three `GenerateGenericArguments` and `GenerateTypeConstraints`, producing that tree. |
| `Generate` | `GenerateConfig`, the filters and sorts of `Generate`, and `GenerateNamespacePage`. |
| `Ordering`, `Seqs`, `Text`, `Wrappers` | Insertion sort, insertion-ordered key lists, string helpers and `Option`/`Result`. |
| `Examples` | Scenarios from the repository's example sources, stated over concrete universes. |

## Model

Source paths below are relative to the repository root: `projects/ndocproc/src/NDocProc.cs` and
`src/examples/*.cs`.

| member | source | states |
|---|---|---|
| TypeGraph.LoadAssemblies | projects/ndocproc/src/NDocProc.cs:148-159 | The assembly loop succeeds exactly when every named assembly is already cached or can be loaded; on success the cache stays consistent and no documentation entry is touched |
| TypeGraph.LoadAssembliesFailsAtFirst | projects/ndocproc/src/NDocProc.cs:148-159 | A failed load reports the first assembly name that is neither cached nor loadable, and every name before it was resolvable |
| TypeGraph.LoadAssembliesCaches | projects/ndocproc/src/NDocProc.cs:151-158 | After a successful loop the cache holds exactly the old names plus the requested ones; cached assemblies are not reloaded, new ones come from the loader, and the earlier cache order is kept |
| TypeGraph.LoadCachedIsIdentity | projects/ndocproc/src/NDocProc.cs:151-158 | Requesting only assemblies that are already cached changes nothing |
| TypeGraph.MergeDocs | projects/ndocproc/src/NDocProc.cs:161-163 | After the member loop each ID holds the last entry the file gives it, IDs the file does not mention keep their earlier entry, and the key set is the union |
| TypeGraph.MergeDocsIdempotent | projects/ndocproc/src/NDocProc.cs:161-163 | Merging the same member entries a second time changes nothing |
| TypeGraph.Load | projects/ndocproc/src/NDocProc.cs:143-164 | Loading a file succeeds exactly when all its assemblies resolve, keeps the cache consistent, and on success merges the file's member entries into the documentation map, each ID keeping its last entry |
| TypeGraph.LoadIdempotent | projects/ndocproc/src/NDocProc.cs:143-164 | Loading the same documentation file twice leaves the state as after the first load |
| TypeGraph.LastDoc | projects/ndocproc/src/NDocProc.cs:161-163 | There is no last entry for an ID exactly when the file never mentions it |
| TypeGraph.LastNamed | projects/ndocproc/src/NDocProc.cs:193 | The type that wins a full name is one of the reflected types with that name; there is none only when no reflected type has it |
| TypeGraph.InNamespace | projects/ndocproc/src/NDocProc.cs:189-192 | A namespace's list holds every reflected type of that namespace and only such types |
| TypeGraph.Register | projects/ndocproc/src/NDocProc.cs:186-195 | The two registries' key orders are duplicate-free and list exactly their keys |
| TypeGraph.RegisterTypes | projects/ndocproc/src/NDocProc.cs:193 | The full-name registry has exactly the full names of the reflected types, each mapped to the last type carrying it |
| TypeGraph.RegisterNamespaces | projects/ndocproc/src/NDocProc.cs:189-192 | The namespace registry has exactly the namespaces of the reflected types, each listing its types in reflection order |
| TypeGraph.InterfaceRejector | projects/ndocproc/src/NDocProc.cs:218-225 | A candidate interface is accepted exactly when it is not among those to reject |
| TypeGraph.GetDirectInterfaces | projects/ndocproc/src/NDocProc.cs:205-211 | With no base type the result is all of the type's interfaces. Otherwise it is the type's interfaces minus the base's: none of the base's, and every one the base lacks |
| TypeGraph.AddKnownSubtype | projects/ndocproc/src/NDocProc.cs:172-179 | A null base adds nothing. Otherwise it adds exactly the edge base-to-derived, creating the entry on first use, and leaves every other entry as it was |
| TypeGraph.AddTypeEdges | projects/ndocproc/src/NDocProc.cs:197-201 | For one type, exactly the edges from its base type and its direct interfaces are added |
| TypeGraph.IndexSubtypes | projects/ndocproc/src/NDocProc.cs:196-202 | The known-subtype index holds exactly the direct-supertype edges into registered types, and no empty entry |
| TypeGraph.Reflect | projects/ndocproc/src/NDocProc.cs:185-203 | The reflected graph is well formed. Its registries map exactly the reflected full names (each to the last type) and namespaces (each to its types in order) |
| Locality.NotSuppressed | projects/ndocproc/src/NDocProc.cs:238-240 | A namespace is shown unless it was given with `/suppress:<namespace>`; its use in the index and pages is stated by Generate.ShownNamespaces and Generate.ShownTypes |
| Locality.IsLocal | projects/ndocproc/src/NDocProc.cs:660-665 | Whether a type is documented by this run; characterised by Locality.LocalAlongChain, Locality.ConstructedLocality and Locality.RegisteredLocality |
| Locality.NamedLocalDefined | projects/ndocproc/src/NDocProc.cs:660-665 | For a named type, `IsLocal` never looks up a null full name |
| Locality.ConstructedLocality | projects/ndocproc/src/NDocProc.cs:661 | A constructed generic type is local exactly when its generic definition is; the type arguments play no part |
| Locality.RegisteredLocality | projects/ndocproc/src/NDocProc.cs:660-665 | A registered, non-constructed type is local exactly when its namespace is not suppressed |
| Locality.SuppressedNotLocal | projects/ndocproc/src/NDocProc.cs:660-665 | A named type whose namespace is suppressed is never local |
| Locality.LocalAlongChain | projects/ndocproc/src/NDocProc.cs:656-665 | A type is local exactly when some level of its array/by-reference chain, down to the innermost element type, is registered in a namespace that is not suppressed |
| Naming.GenericBaseName | projects/ndocproc/src/NDocProc.cs:375-377 | The result is the longest backtick-free prefix of the name |
| Naming.GenericBaseNameOfPlainName | projects/ndocproc/src/NDocProc.cs:375-377 | A name without an arity marker is left unchanged |
| Naming.GenericBaseNameIdempotent | projects/ndocproc/src/NDocProc.cs:375-377 | Stripping the arity marker twice strips nothing more |
| Naming.MaybeInnerFullName | projects/ndocproc/src/NDocProc.cs:379-381 | The full name (or the simple name when there is none) with every '+' turned into '.' and every other character kept |
| Naming.MaybeInnerFullNameOfTopLevel | projects/ndocproc/src/NDocProc.cs:379-381 | A name without '+' is left unchanged |
| Naming.ConcatNamespace | projects/ndocproc/src/NDocProc.cs:383-389 | A name qualified by the namespace of the generic definition, with no leading '.' when the namespace is null; its use is stated by Naming.GenericTypeName |
| Naming.TypeName | projects/ndocproc/src/NDocProc.cs:391-423 | The declarative type ID; Naming.AppendTypeName is proved to append exactly it, and Naming.GenericParameterNameRoundTrip, Naming.GenericTypeName and Naming.PlainTypeName state it case by case |
| Naming.AppendTypeName | projects/ndocproc/src/NDocProc.cs:391-423 | The `StringBuilder` procedure appends exactly the declarative type ID |
| Naming.AppendArguments | projects/ndocproc/src/NDocProc.cs:408-418 | The needComma loop appends the argument IDs joined by commas |
| Naming.GenericParameterNameRoundTrip | projects/ndocproc/src/NDocProc.cs:392-398 | A generic parameter's ID decodes back to whether a method declares it and to its position, so type and method parameters never collide |
| Naming.GenericTypeName | projects/ndocproc/src/NDocProc.cs:400-418 | A generic type's ID starts with its definition's namespace and arity-free name and ends with a braced argument list exactly when it has arguments |
| Naming.NestedGenericNameIgnoresDeclaringType | projects/ndocproc/src/NDocProc.cs:400-406 | Two generic types with the same namespace, simple name and arguments get the same ID, whatever their declaring types |
| Naming.PlainTypeName | projects/ndocproc/src/NDocProc.cs:419-421 | Any other type's ID holds neither '+' nor a backtick and is a prefix of its name with '.' for '+' that ends with the name or just before its first backtick, so it is the whole name when there is no backtick |
| Naming.BuildMethodFullName | projects/ndocproc/src/NDocProc.cs:425-454 | The `StringBuilder` procedure builds exactly the declarative method name, and fails exactly where it does |
| Naming.AppendParameterList | projects/ndocproc/src/NDocProc.cs:436-452 | The parameter loop writes "(" instead of the first comma and ")" only when some parameter was written. It succeeds exactly when every parameter can be named, and otherwise stops at the first one that cannot, naming it |
| Naming.AppendParameter | projects/ndocproc/src/NDocProc.cs:443-448 | A parameter flagged out (by C# `out` or by `[Out]`) or of by-reference type is written as its element type followed by '@'. When its type has no element type, the step fails naming the parameter, as the source's null dereference does. Any other parameter is written as its type's ID |
| Naming.ParameterListShape | projects/ndocproc/src/NDocProc.cs:425-454 | When the name can be built, it is the head followed by the parameter list. Zero parameters give no parentheses; n parameters give one parenthesised list with n-1 separating commas beyond those inside the entries, and a parameter passed by reference is entered as its element type's ID followed by '@' |
| Naming.FirstUnnameable | projects/ndocproc/src/NDocProc.cs:436-448 | The position of the first parameter the loop cannot name: every parameter before it can be named, and it equals the number of parameters exactly when all can be named |
| Naming.MethodFullName | projects/ndocproc/src/NDocProc.cs:425-454 | A method's name can be built exactly when every parameter can be named |
| Naming.MethodFullNameFailsAtFirst | projects/ndocproc/src/NDocProc.cs:436-448 | A failed method name reports an unnameable parameter, and every parameter before it can be named |
| Naming.ParameterEntryCases | projects/ndocproc/src/NDocProc.cs:443-448 | A by-value parameter is written as its type's ID. A parameter flagged out or of by-reference type can be named exactly when its type is an array or by-reference type, so an `[Out]` array is written as its element's ID followed by '@' |
| Naming.GenericMethodSuffixShape | projects/ndocproc/src/NDocProc.cs:428-434 | The "``n" marker appears exactly for a non-constructor with generic parameters of its own, and n decodes to their count |
| Naming.MemberFullNameByKind | projects/ndocproc/src/NDocProc.cs:456-467 | Constructors, when nameable, are named "#ctor" with no generic marker; fields, properties and events can always be named, as the declaring type's name, '.', and their own name |
| Naming.KeyForMemberDecodes | projects/ndocproc/src/NDocProc.cs:622-629 | A documentation ID decodes to its member's kind, and what follows the "X:" prefix is exactly the member's full name. When the full name cannot be built, the ID fails with the same error |
| Naming.MemberFullName | projects/ndocproc/src/NDocProc.cs:456-467 | A member's full name can be built exactly when it is not a method or constructor with an unnameable parameter |
| Naming.KeyForMember | projects/ndocproc/src/NDocProc.cs:622-629 | A documentation ID can be built exactly when the member's full name can |
| Naming.TypeKey | projects/ndocproc/src/NDocProc.cs:622-629 | The ID of a type can always be built |
| Naming.TypeKeyKeepsArity | projects/ndocproc/src/NDocProc.cs:622-629 | A type's own ID keeps the arity marker that type references strip |
| Ordering.Sort | projects/ndocproc/src/NDocProc.cs:227-231 | The result is a sorted permutation of the input |
| Ordering.SortKeepsElements | projects/ndocproc/src/NDocProc.cs:227-231 | Sorting keeps exactly the same elements |
| Seqs.AppendNew | projects/ndocproc/src/NDocProc.cs:189-193 | Storing a key in an insertion-ordered dictionary appends it only when it is new, keeping the key list duplicate-free |
| Rendering.Select | projects/ndocproc/src/NDocProc.cs:649 | The selected fragments are exactly those the subset picks, and "*" picks all of them, in document order |
| Rendering.SelectFilters | projects/ndocproc/src/NDocProc.cs:649-651 | The selection is an order-preserving filter: selecting from a concatenation concatenates the selections, and one fragment is kept exactly when the subset picks it |
| Rendering.ItemDocs | projects/ndocproc/src/NDocProc.cs:645-654 | A `doc` element with no attributes that holds, verbatim and in document order, one node per selected part of the entry for the key; all of the entry's parts for "*"; and nothing when there is no such entry |
| Rendering.SummaryWithinFullDocs | projects/ndocproc/src/NDocProc.cs:641-654 | The summary written on index and namespace pages is part of the full documentation |
| Rendering.LocalText | projects/ndocproc/src/NDocProc.cs:729-732 | The `local` attribute is "genericparameter" exactly for generic parameters and "true" exactly for named local types |
| Rendering.TypeRef | projects/ndocproc/src/NDocProc.cs:705-754 | One `type` element per reference; its behaviour is stated by Rendering.TypeRefPeels, Rendering.TypeRefAttrs, Rendering.TypeRefChildren and Rendering.TypeRefHead |
| Rendering.TypeConstraints | projects/ndocproc/src/NDocProc.cs:756-779 | A `typeconstraints` element with no attributes; its contents are stated by Rendering.ConstraintParts and Rendering.ConstraintsOffer |
| Rendering.RefChain | projects/ndocproc/src/NDocProc.cs:715-721 | One letter per array or by-reference level |
| Rendering.RefChainLetters | projects/ndocproc/src/NDocProc.cs:715-721 | Letter k is 'A' when level k is an array and 'R' when it is by-reference |
| Rendering.TypeRefPeels | projects/ndocproc/src/NDocProc.cs:713-722 | Rendering an array or by-reference type is rendering the innermost element type with all the levels added to the chain |
| Rendering.ReferenceChainAttr | projects/ndocproc/src/NDocProc.cs:713-726 | The single `type` element written for any type records its whole array/by-reference chain in `referenceChain` |
| Rendering.TypeRefAttrs | projects/ndocproc/src/NDocProc.cs:723-735 | The element's attributes do not depend on the constraints flag. `name` is the generic definition's full name (empty when null), `leaf` its name without the arity marker, and `namespace` its namespace. `generictype`, `generictypedefinition` and `genericparameter` are "true" exactly for that kind of type |
| Rendering.TypeRefChildren | projects/ndocproc/src/NDocProc.cs:736-752 | `typeconstraints` appears exactly for a generic parameter rendered with the flag, `declaringtype` exactly for a nested type that is not a generic parameter, and `genericarguments` exactly when arguments remain past the declaring type's |
| Rendering.TypeRefLocality | projects/ndocproc/src/NDocProc.cs:729-732 | The `local` attribute of a `type` element agrees with `IsLocal`, and is "genericparameter" exactly for generic parameters |
| Rendering.TypeRefParameterAttrs | projects/ndocproc/src/NDocProc.cs:736-741 | `methodgenericparameter` marks exactly the method type parameters, and `genericparameterposition` appears exactly on generic parameters, giving the position |
| Rendering.TypeRefNoConstraints | projects/ndocproc/src/NDocProc.cs:705-711 | Without the flag, no `typeconstraints` appears anywhere in the reference, however deep |
| Rendering.ArgumentList | projects/ndocproc/src/NDocProc.cs:686-703 | One `genericarguments` element, with no attributes, is written exactly when arguments remain from the start offset on. It holds one `type` reference per remaining argument, in order, each with the same constraints flag |
| Rendering.TypeRefs | projects/ndocproc/src/NDocProc.cs:692-699 | One `type` element per argument, in order, each the argument's reference with an empty chain and the given constraints flag |
| Rendering.MethodGenericArguments | projects/ndocproc/src/NDocProc.cs:677-684 | A method's type parameters are listed exactly for a non-constructor with generic parameters: one `genericarguments` element holding a reference to each of them, in order, never with constraints |
| Rendering.TypeRefHead | projects/ndocproc/src/NDocProc.cs:736-751 | At most one child before the arguments. For a generic parameter rendered with the flag it is the parameter's `typeconstraints`. For a nested non-parameter it is a `declaringtype` element holding the declaring type's reference, always rendered without constraints |
| Rendering.ConstraintParts | projects/ndocproc/src/NDocProc.cs:756-779 | `typeconstraints` holds the struct flag, the class flag, the reference to each constraint type in order and rendered without constraints, then the new() flag |
| Rendering.ConstraintsOffer | projects/ndocproc/src/NDocProc.cs:756-779 | Each flag element appears exactly when its flag is set, a `type` exactly when there are constraint types, and nothing else |
| Rendering.ConstraintsNotNested | projects/ndocproc/src/NDocProc.cs:767-772 | Constraint types are rendered without constraints of their own, so `K : IComparable<K>` stops after one level |
| Generate.ConfigRoundTrip | projects/ndocproc/src/NDocProc.cs:242-253 | Reading config.xml back gives the googlenonlocaltypes setting that was written (`/nogoogledtypes` turns it off) |
| Generate.ShownNamespaces | projects/ndocproc/src/NDocProc.cs:265 | Exactly the given namespaces that are not suppressed |
| Generate.ShownTypes | projects/ndocproc/src/NDocProc.cs:276-277 | Exactly the types stored under the given keys whose namespace is not suppressed |
| Generate.SortedTypeKeys | projects/ndocproc/src/NDocProc.cs:275 | All registered full names, sorted |
| Generate.IndexedNamespaces | projects/ndocproc/src/NDocProc.cs:262-272 | index.xml lists each reflected namespace that is not suppressed, exactly once, in ascending order under a transitive comparer |
| Generate.IndexedTypes | projects/ndocproc/src/NDocProc.cs:274-285 | index.xml lists exactly the registered types outside suppressed namespaces, each once, in ascending order of full name under a transitive comparer |
| Generate.ShownTypesNoDup | projects/ndocproc/src/NDocProc.cs:276-277 | Distinct full names select distinct types, so no type is listed twice |
| Generate.ShownTypesSorted | projects/ndocproc/src/NDocProc.cs:275-277 | Filtering sorted full names keeps the selected types in ascending order of full name when the comparer is transitive |
| Generate.IndexPage | projects/ndocproc/src/NDocProc.cs:258-290 | index.xml is an `index` element with the namespace list, then the type list |
| Generate.PagedTypes | projects/ndocproc/src/NDocProc.cs:291-298 | A type page is written exactly for each registered type outside suppressed namespaces whose full name has no '<' |
| Generate.PagedNamespaces | projects/ndocproc/src/NDocProc.cs:300-305 | A namespace page is written exactly for each reflected namespace that is not suppressed |
| Generate.NamespacePage | projects/ndocproc/src/NDocProc.cs:543-560 | A namespace page names its namespace and holds its full documentation, then one entry per type of the namespace |
| Generate.SortedMembers | projects/ndocproc/src/NDocProc.cs:544-550 | A namespace's types in page order: a sorted permutation of them |
| Generate.NamespacePageCovers | projects/ndocproc/src/NDocProc.cs:550-555 | Every type of the namespace has an entry on its page, and every entry is for a type of the namespace |
| Generate.TypePages | projects/ndocproc/src/NDocProc.cs:308-309 | Every paged type's file "type-" + full name + ".xml" is written |
| Generate.NamespacePages | projects/ndocproc/src/NDocProc.cs:300-305 | Each namespace page's file is "namespace-" + name + ".xml" and its root names that namespace |
| Generate.GenerateSite | projects/ndocproc/src/NDocProc.cs:255-306 | A run writes config.xml, which reads back as the option; index.xml; one file per paged type; and one page per paged namespace, each named after it |
| Generate.NamespacePagesCover | projects/ndocproc/src/NDocProc.cs:300-305 | A run writes a page for a namespace exactly when the namespace is reflected and not suppressed |
| Generate.SuppressionIsPageLevel | projects/ndocproc/src/NDocProc.cs:255-306 | A registered type of a suppressed namespace gets no index entry and no page, and neither does its namespace. It stays in the subtype index, and a reference to it renders with local="false" |
| Generate.ShownTypeIsListed | projects/ndocproc/src/NDocProc.cs:274-298 | A registered type outside the suppressed namespaces is listed on index.xml, and gets a page of its own exactly when its full name has no '<' |
| Examples.NodeTypeName | src/examples/ExamplesTwoPointOh.cs:6-9 | Inside a documentation ID, `Node<K,T>` reads "net.lshift.ndocproc.examples.twopointoh.Node{`0,`1}" |
| Examples.NodeTypeKey | src/examples/ExamplesTwoPointOh.cs:6-9 | The type's own ID is "T:net.lshift.ndocproc.examples.twopointoh.Node`2" |
| Examples.NodeConstraints | src/examples/ExamplesTwoPointOh.cs:6-8 | K's constraints show the struct flag, the new() flag that a struct constraint implies, and its constraint types; T's show the class and new() flags and no constraint type |
| Examples.KeyConstraintTypes | src/examples/ExamplesTwoPointOh.cs:7 | K's `typeconstraints` is exactly the struct flag, the references to `IComparable<K>` and `System.ValueType`, and the new() flag, in that order |
| Examples.NodeLocality | src/examples/ExamplesTwoPointOh.cs:6-7 | `Node`2` is local; `IComparable<K>` from outside the documented assemblies is not |
| Examples.Foo2InvokeId | src/examples/GenericDelegates.cs:15 | `Foo2.Invoke`'s ID has no "``n" marker, and its `out TArg` parameter is written "`1@" |
| Examples.Foo4InvokeId | src/examples/GenericDelegates.cs:21 | `Foo4.Invoke`'s `TArg[]` parameter is written by its bare name "TArg[]" |
| Examples.NestedTypeName | projects/ndocproc/src/NDocProc.cs:419-421 | A nested non-generic type `A.X+Y` is written "A.X.Y" in references and has the ID "T:A.X.Y" |
| Examples.OutArrayEntry | projects/ndocproc/src/NDocProc.cs:443-445 | A parameter `[Out] byte[] buffer` is written "System.Byte@" |
| Examples.OutFlagFailure | projects/ndocproc/src/NDocProc.cs:443-445 | A method with a parameter `[Out] StringBuilder text` cannot be named, and the failure names that parameter |
| Examples.SuppressedScenario | src/examples/Suppressed.cs:1-15 | With its namespace suppressed, `ShouldNotAppear` gets no index entry or page but stays a subtype of `Object`, and the reference to it is non-local; `ShouldAppear` is indexed, paged and local |
| Examples.InterfacesScenario | src/examples/Interfaces.cs:5-48 | C12A and C12B have I1 and I2 as direct interfaces, with Object as their other direct supertype; an interface has no supertype; a subclass of C12A has no direct interfaces |

## Left out

- The command line, options parsing, logging and file output (`OpenOut`, `XmlWriter`). The model
  produces element trees and file names instead.
- Reading XML documentation files. A file is given as its assembly names and its member entries in
  document order.
- Loading assemblies from disk (`MakeAssemblyPath`, `LoadAssembly` with its directory fallback).
  Both are one map from assembly name to assembly, passed as a parameter. A name missing from it
  is the load failure, reported as an error value naming the assembly. No other exception is
  modelled.
- .NET reflection. The types of an assembly, their names, base types, interfaces, generic shape
  and constraints are given data (`TypeModel`). Unmanaged types of the form `int*` are not modelled. The interface set
  of a type is taken as its full set, as `GetInterfaces` returns it.
- `WriteItemAttributes` and the contents of type pages: `GenerateTypePage` and the member-page
  writers. Only the type page's file name is modelled.
- The culture-sensitive `StringComparer.InvariantCulture`, `TypeComparer` and
  `MemberInfoNameComparer`. They are an abstract total order, and sorting is an insertion sort
  against it. The unstable `ArrayList.Sort` may order equal keys differently.
- XPath in `WriteItemDocs`. Only the two subsets used here, "*" and "summary", are modelled, as
  element-name filtering of the entry's children.
- The `NullReferenceException` raised when a parameter flagged out, or of by-reference type, has
  no element type. It is modelled as the error value `NullElementType` naming that parameter.
  It happens for a non-array parameter marked `[Out]`. No other exception of the naming code is
  modelled.
- The exception `KeyForMember` throws for an unsupported member kind. The model's member type
  has only the five supported kinds.
- A null `FullName` written as the `name` attribute is written as an empty string.
- `Examples.Foo4InvokeId`: records the ID as the code writes it. `TArg[]` has no full name, so the
  parameter appears under its simple name rather than as "`1[]".
- `Examples.InterfacesScenario`: the subclass of C12A is an extra case, not one of the example
  sources.
- `Generate.IndexedNamespaces`: the ascending order is stated only for a transitive comparer.
  The culture-aware comparer is not modelled, and without transitivity an insertion sort
  promises only that neighbours are in order. The `ArgumentException` is not modelled either.
  `Sorted` (NDocProc.cs:233-236) builds a `SortedDictionary` with the culture comparer, and
  that throws when two distinct keys compare equal (for example "Café" written precomposed and
  decomposed). The model lists both tied keys instead of failing.
- `Generate.IndexedTypes`: as for `Generate.IndexedNamespaces`, the order of full names is stated
  only for a transitive comparer. The exception on two distinct full names that the comparer
  ties is not modelled; both types are listed.
- `Generate.SortedTypeKeys`: the duplicate-key exception of `SortedDictionary` on comparer ties
  is not modelled; tied keys are all kept.
- `Generate.IndexPage`: built from `Generate.IndexedNamespaces` and `Generate.IndexedTypes`, so
  the duplicate-key exception on comparer ties is not modelled; the page lists both tied entries.
- `Generate.GenerateSite`: a run whose namespace or type keys tie under the comparer fails in
  the source with the duplicate-key exception, and the model produces a site instead. Otherwise
  it states the file names and page roots of a run, and the order and
  contents of namespace pages only through `Generate.NamespacePage`.
  `Generate.NamespacePageCovers` states the entries' membership, but not their exact sort order
  under the name comparer.
