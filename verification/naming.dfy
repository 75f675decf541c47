/** Symbol naming: the documentation-comment ID strings ("DocIDs") the C#
    compiler writes into its XML documentation, reproduced bug for bug so that
    documentation entries keyed by those IDs can be found (NDocProc.cs
    375-467 and 622-629). The ID format is approximately that of Annex D.4.2
    of ECMA-334, with the compiler's quirks: a nested generic type drops its
    enclosing type's name, a nested non-generic one keeps it. */
module Naming {
  import opened Wrappers
  import opened Text
  import opened TypeModel

  /** `GenericBaseName`: the text before the first '`', which strips an
      arity marker such as "Node`2" down to "Node". The three ensures pin the
      result down: the longest prefix of `n` without a backtick. */
  function GenericBaseName(n: string): (r: string)
    ensures r <= n
    ensures '`' !in r
    ensures |r| == |n| || n[|r|] == '`'
    decreases |n|
  {
    if |n| == 0 || n[0] == '`' then ""
    else [n[0]] + GenericBaseName(n[1..])
  }

  /** A name without an arity marker is its own base name. */
  lemma GenericBaseNameOfPlainName(n: string)
    requires '`' !in n
    ensures GenericBaseName(n) == n
  {
  }

  /** Stripping the arity marker twice strips nothing more. */
  lemma GenericBaseNameIdempotent(n: string)
    ensures GenericBaseName(GenericBaseName(n)) == GenericBaseName(n)
  {
    GenericBaseNameOfPlainName(GenericBaseName(n));
  }

  /** `FullName`, or `Name` when reflection reports a null `FullName`. */
  function FullOrName(d: TypeDesc): string {
    d.fullName.GetOr(d.name)
  }

  /** `MaybeInnerFullName`: the full name with the metadata nesting separator
      '+' turned into '.', so "A.X+Y" reads "A.X.Y". Nothing else changes. */
  function MaybeInnerFullName(d: TypeDesc): (r: string)
    ensures '+' !in r
    ensures |r| == |FullOrName(d)|
    ensures forall i :: 0 <= i < |r| ==>
      r[i] == (if FullOrName(d)[i] == '+' then '.' else FullOrName(d)[i])
  {
    ReplaceChar(FullOrName(d), '+', '.')
  }

  /** A top-level type's name is its full name unchanged. */
  lemma MaybeInnerFullNameOfTopLevel(d: TypeDesc)
    requires '+' !in FullOrName(d)
    ensures MaybeInnerFullName(d) == FullOrName(d)
  {
  }

  /** `ConcatNamespace`: `suffix` qualified by the namespace of `d`, with no
      leading "." when the namespace is null. */
  function ConcatNamespace(d: TypeDesc, suffix: string): string {
    if d.ns.Some? then d.ns.value + "." + suffix else suffix
  }

  /** The ID text of one type, as `AppendTypeName` appends it. */
  function TypeName(u: Universe, t: TypeId): string
    requires UniverseWF(u) && t in u
    decreases t, 1
  {
    var d := u[t];
    if d.shape.GenericParameter? then
      (if d.shape.onMethod then "``" else "`") + NatToString(d.shape.position)
    else if IsGenericType(d) then
      var ptBase := u[GenericBase(u, t)];
      GenericArgumentsBelow(u, t);
      ConcatNamespace(ptBase, GenericBaseName(ptBase.name))
        + Braced(TypeNames(u, GenericArguments(d), t))
    else
      GenericBaseName(MaybeInnerFullName(d))
  }

  /** The ID texts of `ts`, each below `bound` in the numbering. */
  function TypeNames(u: Universe, ts: seq<TypeId>, ghost bound: TypeId): (r: seq<string>)
    requires UniverseWF(u)
    requires forall i :: 0 <= i < |ts| ==> ts[i] in u && ts[i] < bound
    ensures |r| == |ts|
    decreases bound, 0
  {
    seq(|ts|, i requires 0 <= i < |ts| => TypeName(u, ts[i]))
  }

  /** A generic argument list "{a,b}", or nothing when there are no arguments. */
  function Braced(names: seq<string>): string {
    if |names| > 0 then "{" + Join(",", names) + "}" else ""
  }

  /** `AppendTypeName` as the source writes it: a `StringBuilder` appended to
      piece by piece. It appends exactly the declarative `TypeName`. */
  method AppendTypeName(u: Universe, sb: string, pt: TypeId) returns (r: string)
    requires UniverseWF(u) && pt in u
    ensures r == sb + TypeName(u, pt)
    decreases pt, 1
  {
    var d := u[pt];
    if d.shape.GenericParameter? {
      r := sb + (if d.shape.onMethod then "``" else "`");
      r := r + NatToString(d.shape.position);
      AppendAssoc(sb, if d.shape.onMethod then "``" else "`", NatToString(d.shape.position));
    } else if IsGenericType(d) {
      var ptBase := u[GenericBase(u, pt)];
      var head := ConcatNamespace(ptBase, GenericBaseName(ptBase.name));
      r := sb + head;
      var ptArgs := GenericArguments(d);
      GenericArgumentsBelow(u, pt);
      ghost var names := TypeNames(u, ptArgs, pt);
      assert TypeName(u, pt) == head + Braced(names);
      if |ptArgs| > 0 {
        r := r + "{";
        r := AppendArguments(u, r, ptArgs, pt);
        r := r + "}";
        AppendAssoc4(sb + head, "{", Join(",", names), "}");
        AppendAssoc(sb, head, Braced(names));
      } else {
        assert Braced(names) == "";
        assert r == sb + (head + Braced(names));
      }
    } else {
      r := sb + GenericBaseName(MaybeInnerFullName(d));
    }
  }

  /** The `needComma` loop of `AppendTypeName`: the argument IDs separated by
      commas. */
  method AppendArguments(u: Universe, sb: string, args: seq<TypeId>, ghost bound: TypeId)
    returns (r: string)
    requires UniverseWF(u)
    requires forall i :: 0 <= i < |args| ==> args[i] in u && args[i] < bound
    ensures r == sb + Join(",", TypeNames(u, args, bound))
    decreases bound, 0
  {
    ghost var names := TypeNames(u, args, bound);
    r := sb;
    var needComma := false;
    var i := 0;
    while i < |args|
      invariant 0 <= i <= |args|
      invariant needComma == (i > 0)
      invariant r == sb + Join(",", names[..i])
    {
      ghost var before := r;
      if needComma {
        r := r + ",";
      }
      needComma := true;
      r := AppendTypeName(u, r, args[i]);
      assert names[i] == TypeName(u, args[i]);
      JoinStep(",", names, i);
      if i > 0 {
        AppendAssoc4(sb, Join(",", names[..i]), ",", names[i]);
      }
      i := i + 1;
    }
    assert names[..|args|] == names;
  }

  /** A generic parameter reference decoded from its ID text: "`n" is the
      parameter at position n of the enclosing type, "``n" of the enclosing
      method. */
  datatype ParamRef = ParamRef(onMethod: bool, position: nat)

  function ParseGenericParameterName(s: string): Option<ParamRef> {
    if |s| >= 3 && s[0] == '`' && s[1] == '`' && AllDigits(s[2..]) then
      Some(ParamRef(true, ParseNat(s[2..])))
    else if |s| >= 2 && s[0] == '`' && AllDigits(s[1..]) then
      Some(ParamRef(false, ParseNat(s[1..])))
    else None
  }

  /** A generic parameter's ID text is "`" + position, or "``" + position
      when a method declares it: decoding it gives back both facts, so type
      and method parameters never share an ID. */
  lemma GenericParameterNameRoundTrip(u: Universe, t: TypeId)
    requires UniverseWF(u) && t in u && u[t].shape.GenericParameter?
    ensures ParseGenericParameterName(TypeName(u, t))
         == Some(ParamRef(u[t].shape.onMethod, u[t].shape.position))
  {
    var p := u[t].shape;
    var digits := NatToString(p.position);
    ParseNatToString(p.position);
    if p.onMethod {
      assert TypeName(u, t) == "``" + digits;
      assert TypeName(u, t)[2..] == digits;
    } else {
      assert TypeName(u, t) == "`" + digits;
      assert TypeName(u, t)[1..] == digits;
      assert TypeName(u, t)[1] == digits[0];
    }
  }

  /** A constructed or unbound generic type is named by its definition's
      namespace and arity-stripped simple name followed by the braced
      argument IDs. Nothing of the declaring type enters: a nested generic
      A.X+Y`1 comes out "A.Y{...}". */
  lemma GenericTypeName(u: Universe, t: TypeId)
    requires UniverseWF(u) && t in u && IsGenericType(u[t])
    ensures var def := u[GenericBase(u, t)];
            var args := GenericArguments(u[t]);
            var leaf := GenericBaseName(def.name);
            && '`' !in leaf
            && (def.ns.Some? ==> TypeName(u, t)[..|def.ns.value| + 1 + |leaf|] == def.ns.value + "." + leaf)
            && (def.ns.None? ==> TypeName(u, t)[..|leaf|] == leaf)
            && (|args| == 0 <==> |TypeName(u, t)| == |ConcatNamespace(def, leaf)|)
            && (|args| > 0 ==> TypeName(u, t)[|TypeName(u, t)| - 1] == '}')
  {
    GenericArgumentsBelow(u, t);
  }

  /** Two generic types whose definitions share namespace and simple name and
      whose arguments agree get the same ID, whatever their declaring types
      and full names: the compiler quirk that drops the enclosing type. */
  lemma NestedGenericNameIgnoresDeclaringType(u: Universe, t1: TypeId, t2: TypeId)
    requires UniverseWF(u) && t1 in u && t2 in u
    requires IsGenericType(u[t1]) && IsGenericType(u[t2])
    requires u[GenericBase(u, t1)].ns == u[GenericBase(u, t2)].ns
    requires u[GenericBase(u, t1)].name == u[GenericBase(u, t2)].name
    requires GenericArguments(u[t1]) == GenericArguments(u[t2])
    ensures TypeName(u, t1) == TypeName(u, t2)
  {
    GenericArgumentsBelow(u, t1);
    GenericArgumentsBelow(u, t2);
    var args := GenericArguments(u[t1]);
    assert TypeNames(u, args, t1) == TypeNames(u, args, t2);
  }

  /** Any other type (non-generic named types, arrays, by-reference types) is
      named by its full name with '.' for '+', cut at the first '`': the ID
      text holds neither separator and is a prefix of that name. */
  lemma PlainTypeName(u: Universe, t: TypeId)
    requires UniverseWF(u) && t in u
    requires !u[t].shape.GenericParameter? && !IsGenericType(u[t])
    ensures '+' !in TypeName(u, t) && '`' !in TypeName(u, t)
    ensures TypeName(u, t) <= MaybeInnerFullName(u[t])
    ensures |TypeName(u, t)| == |FullOrName(u[t])| || FullOrName(u[t])[|TypeName(u, t)|] == '`'
    ensures '`' !in FullOrName(u[t]) ==> TypeName(u, t) == MaybeInnerFullName(u[t])
  {
    var m := MaybeInnerFullName(u[t]);
    if '`' !in FullOrName(u[t]) {
      assert forall i :: 0 <= i < |m| ==> m[i] != '`' by {
        forall i | 0 <= i < |m|
          ensures m[i] != '`'
        {
          assert FullOrName(u[t])[i] != '`';
        }
      }
      GenericBaseNameOfPlainName(m);
    }
  }

  /** A method or constructor parameter. */
  datatype Parameter = Parameter(
    name: string,
    parameterType: TypeId,
    isIn: bool,
    isOut: bool,
    position: nat)

  /** The `MethodBase` facts the naming and rendering read. */
  datatype MethodBase = MethodBase(
    declaringType: TypeId,
    name: string,
    containsGenericParameters: bool,
    genericArguments: seq<TypeId>,
    parameters: seq<Parameter>)

  /** A parameter's type is one the universe describes. */
  predicate ParameterWF(u: Universe, p: Parameter) {
    p.parameterType in u
  }

  predicate MethodWF(u: Universe, m: MethodBase) {
    && UniverseWF(u)
    && m.declaringType in u
    && (forall i :: 0 <= i < |m.genericArguments| ==> m.genericArguments[i] in u)
    && forall i :: 0 <= i < |m.parameters| ==> ParameterWF(u, m.parameters[i])
  }

  /** Whether the source renders the parameter through its element type with
      a trailing '@'. `IsOut` is the parameter's `Out` flag: a C# `out`
      parameter, whose type is by-reference, or any parameter marked `[Out]`,
      such as a by-value `[Out] byte[]`. */
  predicate PassedByReference(u: Universe, p: Parameter)
    requires p.parameterType in u
  {
    p.isOut || u[p.parameterType].shape.ByRefTo?
  }

  /** The source can name the parameter: wherever it asks for the element
      type, there is one. An `[Out]` parameter whose type is neither an array
      nor by-reference has a null element type, which `AppendTypeName`
      dereferences. */
  predicate Nameable(u: Universe, p: Parameter) {
    && p.parameterType in u
    && (PassedByReference(u, p) ==> IsIndirect(u[p.parameterType]))
  }

  /** Why no name can be built: the parameter whose null element type the
      source dereferences, a `NullReferenceException` that ends the run. */
  datatype NamingError = NullElementType(parameter: Parameter)

  /** One entry of a method ID's parameter list. */
  function ParameterEntry(u: Universe, p: Parameter): string
    requires UniverseWF(u) && Nameable(u, p)
  {
    var pt := u[p.parameterType];
    if PassedByReference(u, p) then
      assert DescWF(u, p.parameterType, pt);
      TypeName(u, ElementType(pt)) + "@"
    else
      TypeName(u, p.parameterType)
  }

  function ParameterEntries(u: Universe, ps: seq<Parameter>): (r: seq<string>)
    requires UniverseWF(u)
    requires forall i :: 0 <= i < |ps| ==> Nameable(u, ps[i])
    ensures |r| == |ps|
  {
    seq(|ps|, i requires 0 <= i < |ps| => ParameterEntry(u, ps[i]))
  }

  /** "(a,b,c)" for a non-empty parameter list; nothing at all for none. */
  function ParameterList(u: Universe, ps: seq<Parameter>): string
    requires UniverseWF(u)
    requires forall i :: 0 <= i < |ps| ==> Nameable(u, ps[i])
  {
    Parenthesized(ParameterEntries(u, ps))
  }

  function Parenthesized(entries: seq<string>): string {
    if |entries| == 0 then "" else "(" + Join(",", entries) + ")"
  }

  /** The position of the first parameter the source cannot name, or the
      number of parameters when it can name them all. */
  function FirstUnnameable(u: Universe, ps: seq<Parameter>): (r: nat)
    ensures r <= |ps|
    ensures forall i :: 0 <= i < r ==> Nameable(u, ps[i])
    ensures r < |ps| ==> !Nameable(u, ps[r])
    decreases |ps|
  {
    if |ps| == 0 || !Nameable(u, ps[0]) then 0
    else
      var rest := FirstUnnameable(u, ps[1..]);
      assert forall i :: 1 <= i < 1 + rest ==> ps[i] == ps[1..][i - 1];
      1 + rest
  }

  /** The "``" + count marker of a generic method; constructors and methods
      without generic parameters of their own get none. */
  function GenericMethodSuffix(m: MethodBase, isConstructor: bool): string {
    if m.containsGenericParameters && !isConstructor && |m.genericArguments| > 0 then
      "``" + NatToString(|m.genericArguments|)
    else ""
  }

  /** The declaring type's name, "." and the short name, then the generic
      marker: everything `MethodFullName` writes before the parameters. */
  function MethodNameHead(u: Universe, m: MethodBase, isConstructor: bool, shortName: string): string
    requires MethodWF(u, m)
  {
    MaybeInnerFullName(u[m.declaringType]) + "." + shortName + GenericMethodSuffix(m, isConstructor)
  }

  /** The declarative form of `MethodFullName`: the name fails exactly when
      some parameter cannot be named, and then with the first such one. */
  function MethodFullName(u: Universe, m: MethodBase, isConstructor: bool, shortName: string)
    : (r: Result<string, NamingError>)
    requires MethodWF(u, m)
    ensures r.Success? <==> forall i :: 0 <= i < |m.parameters| ==> Nameable(u, m.parameters[i])
  {
    var k := FirstUnnameable(u, m.parameters);
    if k < |m.parameters| then Failure(NullElementType(m.parameters[k]))
    else Success(MethodNameHead(u, m, isConstructor, shortName) + ParameterList(u, m.parameters))
  }

  /** A method's name fails at the first parameter the source cannot name:
      every parameter before it is nameable. */
  lemma MethodFullNameFailsAtFirst(u: Universe, m: MethodBase, isConstructor: bool, shortName: string)
    requires MethodWF(u, m)
    requires MethodFullName(u, m, isConstructor, shortName).Failure?
    ensures exists i :: && 0 <= i < |m.parameters|
                        && MethodFullName(u, m, isConstructor, shortName).error == NullElementType(m.parameters[i])
                        && !Nameable(u, m.parameters[i])
                        && forall j :: 0 <= j < i ==> Nameable(u, m.parameters[j])
  {
    var k := FirstUnnameable(u, m.parameters);
    assert MethodFullName(u, m, isConstructor, shortName).error == NullElementType(m.parameters[k]);
  }

  /** `MethodFullName` as the source writes it, appending to a
      `StringBuilder`. */
  method BuildMethodFullName(u: Universe, m: MethodBase, isConstructor: bool, shortName: string)
    returns (r: Result<string, NamingError>)
    requires MethodWF(u, m)
    ensures r == MethodFullName(u, m, isConstructor, shortName)
  {
    var sb := MaybeInnerFullName(u[m.declaringType]) + "." + shortName;
    if m.containsGenericParameters && !isConstructor {
      var genArgCount := |m.genericArguments|;
      if genArgCount > 0 {
        sb := sb + "``";
        sb := sb + NatToString(genArgCount);
      }
    }
    assert sb == MethodNameHead(u, m, isConstructor, shortName);
    r := AppendParameterList(u, sb, m.parameters);
  }

  /** The text written after the parameters with these entries: nothing yet
      for none, otherwise "(" and the entries separated by commas. */
  function OpenList(sb: string, entries: seq<string>): string {
    if |entries| == 0 then sb else sb + "(" + Join(",", entries)
  }

  lemma OpenListStep(sb: string, entries: seq<string>, e: string, before: string, after: string)
    requires before == OpenList(sb, entries)
    requires after == (if |entries| == 0 then before + "(" else before + ",") + e
    ensures after == OpenList(sb, entries + [e])
  {
    JoinSnoc(",", entries, e);
  }

  /** The parameter loop of `MethodFullName`: the "(" is emitted in place of
      the first comma and the ")" only when some parameter was written. The
      loop stops with the first parameter whose element type is null. */
  method AppendParameterList(u: Universe, sb: string, ps: seq<Parameter>)
    returns (r: Result<string, NamingError>)
    requires UniverseWF(u)
    requires forall i :: 0 <= i < |ps| ==> ParameterWF(u, ps[i])
    ensures r.Success? <==> forall i :: 0 <= i < |ps| ==> Nameable(u, ps[i])
    ensures r.Success? ==> r.value == sb + ParameterList(u, ps)
    ensures r.Failure? ==> r.error == NullElementType(ps[FirstUnnameable(u, ps)])
  {
    ghost var entries: seq<string> := [];
    var out := sb;
    var needComma := false;
    var i := 0;
    while i < |ps|
      invariant 0 <= i <= |ps| && |entries| == i
      invariant needComma == (i > 0)
      invariant Collected(u, ps, entries)
      invariant out == OpenList(sb, entries)
    {
      ghost var before := out;
      if needComma {
        out := out + ",";
      } else {
        out := out + "(";
        needComma := true;
      }
      var entry := AppendParameter(u, out, ps[i]);
      if entry.Failure? {
        FirstUnnameableAt(u, ps, entries);
        return Failure(entry.error);
      }
      out := entry.value;
      OpenListStep(sb, entries, ParameterEntry(u, ps[i]), before, out);
      CollectedStep(u, ps, entries);
      entries := entries + [ParameterEntry(u, ps[i])];
      i := i + 1;
    }
    EntriesComplete(u, ps, entries);
    if needComma {
      out := out + ")";
    }
    CloseList(sb, entries, out, needComma);
    r := Success(out);
  }

  /** The entries the parameter loop has collected: one for each leading
      parameter, every one of them nameable. */
  ghost predicate Collected(u: Universe, ps: seq<Parameter>, entries: seq<string>)
    requires UniverseWF(u)
  {
    && |entries| <= |ps|
    && forall j :: 0 <= j < |entries| ==> Nameable(u, ps[j]) && entries[j] == ParameterEntry(u, ps[j])
  }

  lemma CollectedStep(u: Universe, ps: seq<Parameter>, entries: seq<string>)
    requires UniverseWF(u) && Collected(u, ps, entries)
    requires |entries| < |ps| && Nameable(u, ps[|entries|])
    ensures Collected(u, ps, entries + [ParameterEntry(u, ps[|entries|])])
  {
  }

  /** The loop meets an unnameable parameter only at the first one. */
  lemma FirstUnnameableAt(u: Universe, ps: seq<Parameter>, entries: seq<string>)
    requires UniverseWF(u) && Collected(u, ps, entries)
    requires |entries| < |ps| && !Nameable(u, ps[|entries|])
    ensures FirstUnnameable(u, ps) == |entries|
    ensures !forall i :: 0 <= i < |ps| ==> Nameable(u, ps[i])
  {
  }

  /** The entries the loop collected for every parameter are the parameter
      list's entries. */
  lemma EntriesComplete(u: Universe, ps: seq<Parameter>, entries: seq<string>)
    requires UniverseWF(u) && Collected(u, ps, entries) && |entries| == |ps|
    ensures forall i :: 0 <= i < |ps| ==> Nameable(u, ps[i])
    ensures entries == ParameterEntries(u, ps)
  {
  }

  lemma CloseList(sb: string, entries: seq<string>, r: string, needComma: bool)
    requires needComma == (|entries| > 0)
    requires r == OpenList(sb, entries) + (if needComma then ")" else "")
    ensures r == sb + Parenthesized(entries)
  {
  }

  /** One parameter of `MethodFullName`'s loop: an `out` or by-reference
      parameter is written as its element type followed by '@'; with no
      element type, the name cannot be built. */
  method AppendParameter(u: Universe, sb: string, p: Parameter) returns (r: Result<string, NamingError>)
    requires UniverseWF(u) && ParameterWF(u, p)
    ensures r.Success? <==> Nameable(u, p)
    ensures r.Success? ==> r.value == sb + ParameterEntry(u, p)
    ensures r.Failure? ==> r.error == NullElementType(p)
  {
    if p.isOut || u[p.parameterType].shape.ByRefTo? {
      if !IsIndirect(u[p.parameterType]) {
        return Failure(NullElementType(p));
      }
      assert DescWF(u, p.parameterType, u[p.parameterType]);
      var s := AppendTypeName(u, sb, ElementType(u[p.parameterType]));
      r := Success(s + "@");
    } else {
      var s := AppendTypeName(u, sb, p.parameterType);
      r := Success(s);
    }
  }

  /** Which parameters can be named, and how: a by-value parameter by its
      own type; one passed by reference (`out`, `ref`, or marked `[Out]`) by
      its element type and '@', which exists exactly when its type is an
      array or by-reference type. So `[Out] byte[]` is entered as
      "System.Byte@" and `[Out] StringBuilder` cannot be named. */
  lemma ParameterEntryCases(u: Universe, p: Parameter)
    requires UniverseWF(u) && ParameterWF(u, p)
    ensures !PassedByReference(u, p) ==> Nameable(u, p) && ParameterEntry(u, p) == TypeName(u, p.parameterType)
    ensures PassedByReference(u, p) ==> (Nameable(u, p) <==> IsIndirect(u[p.parameterType]))
    ensures p.isOut && u[p.parameterType].shape.ArrayOf? ==>
      Nameable(u, p) && ParameterEntry(u, p) == TypeName(u, u[p.parameterType].shape.element) + "@"
  {
  }

  /** Zero parameters give no parentheses at all; n > 0 parameters give one
      "(...)" of n entries holding n - 1 separating commas beyond those inside
      the entries, a parameter passed by reference entered as its element
      type followed by '@'. */
  lemma ParameterListShape(u: Universe, m: MethodBase, isConstructor: bool, shortName: string)
    requires MethodWF(u, m)
    ensures var ps := m.parameters;
            var full := MethodFullName(u, m, isConstructor, shortName);
            full.Success? ==>
              var list := ParameterList(u, ps);
              && full.value == MethodNameHead(u, m, isConstructor, shortName) + list
              && (|ps| == 0 <==> list == "")
              && (|ps| > 0 ==>
                    && list[0] == '(' && list[|list| - 1] == ')'
                    && Count(list, ',') == CountAll(ParameterEntries(u, ps), ',') + |ps| - 1)
              && (forall i :: 0 <= i < |ps| && PassedByReference(u, ps[i]) ==>
                    ParameterEntries(u, ps)[i] == TypeName(u, ElementType(u[ps[i].parameterType])) + "@")
  {
    var ps := m.parameters;
    if MethodFullName(u, m, isConstructor, shortName).Success? && |ps| > 0 {
      var entries := ParameterEntries(u, ps);
      var joined := Join(",", entries);
      CountJoin(',', entries);
      CountConcat("(", joined, ',');
      CountConcat("(" + joined, ")", ',');
      assert Count("(", ',') == 0 by { assert "("[..0] == ""; }
      assert Count(")", ',') == 0 by { assert ")"[..0] == ""; }
    }
  }

  /** The "``" + count marker appears exactly for a non-constructor that
      contains generic parameters and declares at least one of its own. */
  lemma GenericMethodSuffixShape(m: MethodBase, isConstructor: bool)
    ensures var s := GenericMethodSuffix(m, isConstructor);
            && (s != "" <==> m.containsGenericParameters && !isConstructor && |m.genericArguments| > 0)
            && (s != "" ==> s[..2] == "``" && AllDigits(s[2..]) && ParseNat(s[2..]) == |m.genericArguments|)
  {
    var s := GenericMethodSuffix(m, isConstructor);
    if s != "" {
      var digits := NatToString(|m.genericArguments|);
      assert s[2..] == digits;
      ParseNatToString(|m.genericArguments|);
    }
  }

  /** The member kinds reflection reports; the source's "Unsupported member
      kind" exception cannot arise over this closed sum. */
  datatype Member =
    | FieldMember(declaringType: TypeId, name: string)
    | PropertyMember(declaringType: TypeId, name: string)
    | EventMember(declaringType: TypeId, name: string)
    | MethodMember(methodBase: MethodBase)
    | ConstructorMember(methodBase: MethodBase)
    | TypeMember(typeId: TypeId)

  predicate MemberWF(u: Universe, m: Member) {
    && UniverseWF(u)
    && match m
       case FieldMember(t, _) => t in u
       case PropertyMember(t, _) => t in u
       case EventMember(t, _) => t in u
       case MethodMember(mb) => MethodWF(u, mb)
       case ConstructorMember(mb) => MethodWF(u, mb)
       case TypeMember(t) => t in u
  }

  /** Only methods and constructors have parameters, so only their names
      can fail. */
  predicate MemberNameable(m: Member, u: Universe) {
    (m.MethodMember? || m.ConstructorMember?) ==>
      forall i :: 0 <= i < |m.methodBase.parameters| ==> Nameable(u, m.methodBase.parameters[i])
  }

  /** `MemberFullName`: a type keeps its full name (arity marker included);
      a method is named by `MethodFullName`, a constructor under "#ctor";
      fields, properties and events are the declaring type's name + "." + name. */
  function MemberFullName(u: Universe, m: Member): (r: Result<string, NamingError>)
    requires MemberWF(u, m)
    ensures r.Success? <==> MemberNameable(m, u)
  {
    match m
    case TypeMember(t) => Success(MaybeInnerFullName(u[t]))
    case MethodMember(mb) => MethodFullName(u, mb, false, mb.name)
    case ConstructorMember(mb) => MethodFullName(u, mb, true, "#ctor")
    case FieldMember(t, n) => Success(MaybeInnerFullName(u[t]) + "." + n)
    case PropertyMember(t, n) => Success(MaybeInnerFullName(u[t]) + "." + n)
    case EventMember(t, n) => Success(MaybeInnerFullName(u[t]) + "." + n)
  }

  datatype MemberKind = FieldKind | PropertyKind | EventKind | MethodKind | TypeKind

  /** Constructors are methods as far as IDs go. */
  function KindOf(m: Member): MemberKind {
    match m
    case FieldMember(_, _) => FieldKind
    case PropertyMember(_, _) => PropertyKind
    case EventMember(_, _) => EventKind
    case MethodMember(_) => MethodKind
    case ConstructorMember(_) => MethodKind
    case TypeMember(_) => TypeKind
  }

  function KindLetter(k: MemberKind): char {
    match k
    case FieldKind => 'F'
    case PropertyKind => 'P'
    case EventKind => 'E'
    case MethodKind => 'M'
    case TypeKind => 'T'
  }

  /** `KeyForMember`: the DocID, a kind letter and ':' before the member's
      full name; it fails where the full name does. */
  function KeyForMember(u: Universe, m: Member): (r: Result<string, NamingError>)
    requires MemberWF(u, m)
    ensures r.Success? <==> MemberNameable(m, u)
  {
    match MemberFullName(u, m)
    case Success(name) => Success([KindLetter(KindOf(m)), ':'] + name)
    case Failure(e) => Failure(e)
  }

  /** Reading a DocID's kind back from its prefix. */
  function KindOfKey(key: string): Option<MemberKind> {
    if |key| < 2 || key[1] != ':' then None
    else if key[0] == 'F' then Some(FieldKind)
    else if key[0] == 'P' then Some(PropertyKind)
    else if key[0] == 'E' then Some(EventKind)
    else if key[0] == 'M' then Some(MethodKind)
    else if key[0] == 'T' then Some(TypeKind)
    else None
  }

  /** A DocID decodes to its member's kind, and what follows the "X:" prefix
      is exactly the member's full name; a failing name fails the DocID
      with the same error. */
  lemma KeyForMemberDecodes(u: Universe, m: Member)
    requires MemberWF(u, m)
    ensures KeyForMember(u, m).Success? ==> KindOfKey(KeyForMember(u, m).value) == Some(KindOf(m))
    ensures KeyForMember(u, m).Success? ==> KeyForMember(u, m).value[2..] == MemberFullName(u, m).value
    ensures KeyForMember(u, m).Failure? ==> KeyForMember(u, m).error == MemberFullName(u, m).error
  {
  }

  /** The DocID of a type, which can always be built. */
  function TypeKey(u: Universe, t: TypeId): (r: string)
    requires UniverseWF(u) && t in u
    ensures KeyForMember(u, TypeMember(t)) == Success(r)
  {
    KeyForMember(u, TypeMember(t)).value
  }

  /** Type IDs keep the arity marker that type references strip: the key of a
      generic type definition is "T:" + its full name with '.' for '+'. */
  lemma TypeKeyKeepsArity(u: Universe, t: TypeId)
    requires UniverseWF(u) && t in u
    ensures TypeKey(u, t) == "T:" + MaybeInnerFullName(u[t])
    ensures '`' in FullOrName(u[t]) ==> '`' in TypeKey(u, t)
  {
    var f := FullOrName(u[t]);
    if '`' in f {
      var i :| 0 <= i < |f| && f[i] == '`';
      assert MaybeInnerFullName(u[t])[i] == '`';
      assert TypeKey(u, t)[i + 2] == '`';
    }
  }

  /** Constructors are named "#ctor"; fields, properties and events are the
      declaring type's name, ".", and their own name. */
  lemma MemberFullNameByKind(u: Universe, m: Member)
    requires MemberWF(u, m)
    ensures m.ConstructorMember? && MemberFullName(u, m).Success? ==>
      MemberFullName(u, m).value[..|MaybeInnerFullName(u[m.methodBase.declaringType])| + 6]
        == MaybeInnerFullName(u[m.methodBase.declaringType]) + ".#ctor"
    ensures m.ConstructorMember? ==> GenericMethodSuffix(m.methodBase, true) == ""
    ensures (m.FieldMember? || m.PropertyMember? || m.EventMember?) ==>
      MemberFullName(u, m) == Success(MaybeInnerFullName(u[m.declaringType]) + "." + m.name)
  {
  }
}
