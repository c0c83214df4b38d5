/**
 * The type-alias serializer: the alias's type parameters, its type (raw and rendered) and the
 * one-line `type Name<T, U> = ...` text.
 */
module TypeAliasSerializer {
  import opened Wrappers
  import opened Text
  import opened Records
  import opened TypeDocModel
  import opened TypeRender
  import opened Json
  import MethodSerializer

  function TypeParameterNames(ps: seq<TypeParameterReflection>): seq<string>
  {
    seq(|ps|, i requires 0 <= i < |ps| => ps[i].name)
  }

  /** `decl.typeParameter?.map((s) => ({ name: s.name }))`. */
  function TypeParamsValue(ps: Option<seq<TypeParameterReflection>>): Value
  {
    if ps.Some? then Arr(seq(|ps.value|, i requires 0 <= i < |ps.value| => Obj([Entry("name", Str(ps.value[i].name))])))
    else Undefined
  }

  /** `type Name<T, U> = R`; the angle brackets appear exactly when the alias has a type-parameter
      list, even an empty one. */
  function AsString(decl: DeclarationReflection): string
  {
    "type " + decl.name
    + (if decl.typeParameter.Some? then "<" + Join(TypeParameterNames(decl.typeParameter.value), ", ") + ">" else "")
    + " = " + RenderMaybe(decl.typ)
  }

  /** `TypeAliasSerializer.serialize(decl)`. A missing `type` renders as "unknown" and leaves the
      raw `type.type` undefined. */
  function Serialize(decl: DeclarationReflection): (r: seq<Entry<Value>>)
    ensures Keys(r) == ["type_params", "type", "as_string"]
    ensures Find(r, "type") == Some(MethodSerializer.TypeObject(decl.typ))
  {
    [Entry("type_params", TypeParamsValue(decl.typeParameter)),
     Entry("type", MethodSerializer.TypeObject(decl.typ)),
     Entry("as_string", Str(AsString(decl)))]
  }

  // ---------------------------------------------------------------------------------------------

  /** The text starts with `type Name` and ends with ` = ` and the rendered type; without
      type parameters it is exactly `type Name = R`. */
  lemma AsStringShape(decl: DeclarationReflection)
    ensures StartsWith(AsString(decl), "type " + decl.name)
    ensures EndsWith(AsString(decl), " = " + RenderMaybe(decl.typ))
    ensures decl.typeParameter.None? ==> AsString(decl) == "type " + decl.name + " = " + RenderMaybe(decl.typ)
  {
    var params := if decl.typeParameter.Some? then "<" + Join(TypeParameterNames(decl.typeParameter.value), ", ") + ">" else "";
    assert AsString(decl) == ("type " + decl.name) + params + (" = " + RenderMaybe(decl.typ));
  }

  /** `type_params` reaches the written JSON exactly when the alias has a type-parameter list,
      and then holds one `{ name }` object per parameter, in order. */
  lemma TypeParamsWritten(decl: DeclarationReflection)
    ensures "type_params" in WrittenKeys(Serialize(decl)) <==> decl.typeParameter.Some?
    ensures decl.typeParameter.Some? ==>
      var v := TypeParamsValue(decl.typeParameter);
      v.Arr? && |v.items| == |decl.typeParameter.value|
      && forall i :: 0 <= i < |v.items| ==> v.items[i] == Obj([Entry("name", Str(decl.typeParameter.value[i].name))])
  {
    var r := Serialize(decl);
    WrittenKeysMembers(r, "type_params");
    if decl.typeParameter.Some? {
      assert r[0].key == "type_params" && !r[0].value.Undefined?;
    }
  }

  /** An alias without a type is still serialized: its type renders as "unknown". */
  lemma MissingType(decl: DeclarationReflection)
    requires decl.typ.None?
    ensures AsString(decl) == "type " + decl.name
      + (if decl.typeParameter.Some? then "<" + Join(TypeParameterNames(decl.typeParameter.value), ", ") + ">" else "")
      + " = unknown"
  {
  }

  lemma AsStringExample()
    ensures AsString(DeclarationReflection("Pair", TypeAlias, "Type alias", None,
      Some(TupleType(TypesDefined([ReferenceType("A", TypesUndefined), ReferenceType("B", TypesUndefined)]))),
      DeclarationsUndefined, SignaturesUndefined, None, None,
      Some([TypeParameterReflection("A"), TypeParameterReflection("B")]))) == "type Pair<A, B> = [A, B]"
  {
    var ts := [ReferenceType("A", TypesUndefined), ReferenceType("B", TypesUndefined)];
    assert Render(ts[0]) == "A" && Render(ts[1]) == "B";
    assert seq(|ts|, i requires 0 <= i < |ts| => Render(ts[i])) == ["A", "B"];
    var ps := [TypeParameterReflection("A"), TypeParameterReflection("B")];
    assert TypeParameterNames(ps) == ["A", "B"];
    assert Join(["A", "B"], ", ") == "A" + ", " + Join(["B"], ", ");
  }
}
