/**
 * The method serializer: one entry per call signature of a method, each with its return type
 * (raw and rendered), a one-line `name(params): ret` text, its parameters and its comment.
 */
module MethodSerializer {
  import opened Wrappers
  import opened Text
  import opened Records
  import opened TypeDocModel
  import opened TypeRender
  import opened Json

  /** `{ type: t, value: parseType(t!) }`: the raw descriptor beside its rendering. */
  function TypeObject(t: Option<SomeType>): (v: Value)
    ensures v.Obj? && Keys(v.fields) == ["type", "value"]
    ensures Find(v.fields, "type") == Some(OptDescriptor(t))
    ensures Find(v.fields, "value") == Some(Str(RenderMaybe(t)))
  {
    Obj([Entry("type", OptDescriptor(t)), Entry("value", Str(RenderMaybe(t)))])
  }

  /** The `name: type` texts of a parameter list. */
  function ParameterTexts(ps: seq<ParameterReflection>): seq<string>
  {
    seq(|ps|, i requires 0 <= i < |ps| => ParameterText(ps[i]))
  }

  /** `name(p1: T1, p2: T2): R`, or `name(): R` without a parameter list. */
  function AsString(s: SignatureReflection): string
  {
    s.name + (if s.parameters.ParametersDefined? then "(" + Join(ParameterTexts(s.parameters.items), ", ") + "): " + RenderMaybe(s.typ)
              else "(): " + RenderMaybe(s.typ))
  }

  /** One parameter: name, type, default value (`undefined` when there is none), and the comment
      when there is one. */
  function ParamValue(p: ParameterReflection): Value
  {
    Obj([Entry("name", Str(p.name)), Entry("type", TypeObject(p.typ)), Entry("default_value", OptStr(p.defaultValue))]
        + CommentEntry(p.comment))
  }

  /** `signature.parameters?.map(...)`: `undefined` without a parameter list. */
  function ParamsValue(s: SignatureReflection): Value
  {
    if s.parameters.ParametersDefined? then
      Arr(seq(|s.parameters.items|, i requires 0 <= i < |s.parameters.items| => ParamValue(s.parameters.items[i])))
    else Undefined
  }

  /** The serialized form of one call signature. */
  function SignatureValue(s: SignatureReflection): Value
  {
    Obj([Entry("type", TypeObject(s.typ)), Entry("as_string", Str(AsString(s))), Entry("params", ParamsValue(s)),
         Entry("return_type", TypeObject(s.typ))] + CommentEntry(s.comment))
  }

  /** The signatures the loop visits: none when the list is absent. */
  function SignaturesOf(decl: DeclarationReflection): seq<SignatureReflection>
  {
    if decl.signatures.SignaturesDefined? then decl.signatures.items else []
  }

  /** The fragment the serializer returns: a single `signatures` key holding one serialized entry
      per signature, in order. */
  function Fragment(decl: DeclarationReflection): seq<Entry<Value>>
  {
    [Entry("signatures", Arr(seq(|SignaturesOf(decl)|, i requires 0 <= i < |SignaturesOf(decl)| => SignatureValue(SignaturesOf(decl)[i]))))]
  }

  /** `MethodSerializer.serialize(decl)`. */
  method Serialize(decl: DeclarationReflection) returns (result: seq<Entry<Value>>)
    ensures result == Fragment(decl)
  {
    var signatures: seq<Value> := [];
    if decl.signatures.SignaturesDefined? && |decl.signatures.items| > 0 {
      var items := decl.signatures.items;
      for i := 0 to |items|
        invariant signatures == seq(i, k requires 0 <= k < i => SignatureValue(items[k]))
      {
        var res := Obj([Entry("type", TypeObject(items[i].typ)), Entry("as_string", Str(AsString(items[i]))),
                        Entry("params", ParamsValue(items[i])), Entry("return_type", TypeObject(items[i].typ))]);
        if items[i].comment.Some? {
          assert Keys(res.fields) == ["type", "as_string", "params", "return_type"];
          PutNew(res.fields, "comment", CommentValue(items[i].comment.value));
          res := Obj(Put(res.fields, "comment", CommentValue(items[i].comment.value)));
        }
        assert res == SignatureValue(items[i]);
        signatures := signatures + [res];
      }
    }
    assert signatures == seq(|SignaturesOf(decl)|, i requires 0 <= i < |SignaturesOf(decl)| => SignatureValue(SignaturesOf(decl)[i]));
    result := [Entry("signatures", Arr(signatures))];
  }

  // ---------------------------------------------------------------------------------------------

  /** Every serialized signature has the keys type, as_string, params and return_type, in that
      order, then `comment` exactly when the signature has one; `type` and `return_type` are the
      same object. */
  lemma SignatureFields(s: SignatureReflection)
    ensures SignatureValue(s).Obj?
    ensures Keys(SignatureValue(s).fields) == ["type", "as_string", "params", "return_type"] + (if s.comment.Some? then ["comment"] else [])
    ensures Find(SignatureValue(s).fields, "type") == Find(SignatureValue(s).fields, "return_type") == Some(TypeObject(s.typ))
    ensures Find(SignatureValue(s).fields, "comment").Some? <==> s.comment.Some?
  {
    var fs := SignatureValue(s).fields;
    FindPresent(fs, "comment");
    assert Keys(fs) == ["type", "as_string", "params", "return_type"] + (if s.comment.Some? then ["comment"] else []);
    FindAt(fs, 0);
    FindAt(fs, 3);
  }

  /** The one-line text names the signature, opens the parameter list and ends with the rendered
      return type; without a parameter list it is `name(): R`. */
  lemma AsStringShape(s: SignatureReflection)
    ensures StartsWith(AsString(s), s.name + "(")
    ensures EndsWith(AsString(s), "): " + RenderMaybe(s.typ))
    ensures s.parameters.ParametersUndefined? ==> AsString(s) == s.name + "(): " + RenderMaybe(s.typ)
  {
    var a := AsString(s);
    if s.parameters.ParametersDefined? {
      var mid := Join(ParameterTexts(s.parameters.items), ", ");
      assert a == (s.name + "(") + mid + ("): " + RenderMaybe(s.typ));
    } else {
      assert a == (s.name + "(") + ("): " + RenderMaybe(s.typ));
    }
  }

  /** An empty parameter list and an absent one give the same text but different `params`: an
      empty array in one case, no key at all in the written JSON in the other. */
  lemma EmptyAndAbsentParameters(s: SignatureReflection)
    ensures AsString(s.(parameters := ParametersDefined([]))) == AsString(s.(parameters := ParametersUndefined))
    ensures ParamsValue(s.(parameters := ParametersDefined([]))) == Arr([])
    ensures "params" !in WrittenKeys(SignatureValue(s.(parameters := ParametersUndefined)).fields)
  {
    var e := s.(parameters := ParametersDefined([]));
    assert ParameterTexts([]) == [];
    ParamsWritten(s.(parameters := ParametersUndefined));
  }

  /** The `params` key reaches the written JSON exactly when the signature has a parameter list,
      and then holds one object per parameter, in order. */
  lemma ParamsWritten(s: SignatureReflection)
    ensures "params" in WrittenKeys(SignatureValue(s).fields) <==> s.parameters.ParametersDefined?
    ensures s.parameters.ParametersDefined? ==>
      ParamsValue(s).Arr? && |ParamsValue(s).items| == |s.parameters.items|
      && forall i :: 0 <= i < |s.parameters.items| ==> ParamsValue(s).items[i] == ParamValue(s.parameters.items[i])
  {
    var fs := SignatureValue(s).fields;
    WrittenKeysMembers(fs, "params");
    if s.parameters.ParametersDefined? {
      assert fs[2].key == "params" && !fs[2].value.Undefined?;
    }
  }

  /** A parameter's `default_value` is written exactly when it has a default, and `comment`
      exactly when it has a comment. */
  lemma ParamWrittenKeys(p: ParameterReflection)
    ensures "default_value" in WrittenKeys(ParamValue(p).fields) <==> p.defaultValue.Some?
    ensures "comment" in WrittenKeys(ParamValue(p).fields) <==> p.comment.Some?
    ensures "name" in WrittenKeys(ParamValue(p).fields) && "type" in WrittenKeys(ParamValue(p).fields)
  {
    var fs := ParamValue(p).fields;
    WrittenKeysMembers(fs, "default_value");
    WrittenKeysMembers(fs, "comment");
    WrittenKeysMembers(fs, "name");
    WrittenKeysMembers(fs, "type");
    assert fs[0].key == "name" && !fs[0].value.Undefined?;
    assert fs[1].key == "type" && !fs[1].value.Undefined?;
    if p.defaultValue.Some? {
      assert fs[2].key == "default_value" && !fs[2].value.Undefined?;
    }
    if p.comment.Some? {
      assert fs[3].key == "comment" && !fs[3].value.Undefined?;
    }
  }

  /** The fragment has the one key `signatures`, holding as many entries as the declaration has
      signatures; without signatures (no list, or an empty one) it is `{ signatures: [] }`. */
  lemma FragmentShape(decl: DeclarationReflection)
    ensures Keys(Fragment(decl)) == ["signatures"]
    ensures Fragment(decl)[0].value.Arr? && |Fragment(decl)[0].value.items| == |SignaturesOf(decl)|
    ensures decl.signatures.SignaturesUndefined? || decl.signatures.items == [] ==> Fragment(decl) == [Entry("signatures", Arr([]))]
  {
  }
}
