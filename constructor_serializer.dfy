/**
 * The constructor serializer: one entry per construct signature that has a type (the others are
 * skipped with a warning), each with the descriptor's tag and rendering and a one-line
 * `name(params)` text; the constructor's own comment follows.
 */
module ConstructorSerializer {
  import opened Wrappers
  import opened Text
  import opened Records
  import opened TypeDocModel
  import opened TypeRender
  import opened Json
  import TypeGuards
  import MethodSerializer

  /** The signatures the loop keeps: those with a type, in order. */
  function TypedSignatures(ss: seq<SignatureReflection>): seq<SignatureReflection>
  {
    if ss == [] then []
    else TypedSignatures(ss[..|ss| - 1]) + (if ss[|ss| - 1].typ.Some? then [ss[|ss| - 1]] else [])
  }

  /** `signature.type!.type`: the descriptor's tag, `undefined` when it has none. */
  function TagValue(t: SomeType): (v: Value)
    ensures v.Undefined? <==> TypeGuards.TypeField(t).None?
  {
    var tag := TypeGuards.TypeField(t);
    if tag.Some? then Str(tag.value) else Undefined
  }

  /** `name(p1: T1, p2: T2)`, or `name()` without a parameter list. */
  function AsString(s: SignatureReflection): string
  {
    s.name + (if s.parameters.ParametersDefined? then "(" + Join(MethodSerializer.ParameterTexts(s.parameters.items), ", ") + ")"
              else "()")
  }

  /** The serialized form of one typed construct signature. */
  function SignatureValue(s: SignatureReflection): Value
    requires s.typ.Some?
  {
    Obj([Entry("type", Obj([Entry("type", TagValue(s.typ.value)), Entry("value", Str(Render(s.typ.value)))])),
         Entry("as_string", Str(AsString(s)))] + CommentEntry(s.comment))
  }

  function SignatureValues(ss: seq<SignatureReflection>): seq<Value>
    requires forall i :: 0 <= i < |ss| ==> ss[i].typ.Some?
  {
    seq(|ss|, i requires 0 <= i < |ss| => SignatureValue(ss[i]))
  }

  /** The fragment the serializer returns: the typed signatures, then the comment. */
  function Fragment(decl: DeclarationReflection): seq<Entry<Value>>
    requires decl.signatures.SignaturesDefined?
  {
    TypedSignaturesMembers(decl.signatures.items);
    [Entry("signatures", Arr(SignatureValues(TypedSignatures(decl.signatures.items))))] + CommentEntry(decl.comment)
  }

  /** `ConstructorSerializer.serialize(declaration)`; iterating `declaration.signatures!` throws
      when the list is absent, so the serializer needs one. */
  method Serialize(decl: DeclarationReflection) returns (result: seq<Entry<Value>>)
    requires decl.signatures.SignaturesDefined?
    ensures result == Fragment(decl)
  {
    var items := decl.signatures.items;
    var signatures: seq<Value> := [];
    for i := 0 to |items|
      invariant TypedSignaturesOnly(TypedSignatures(items[..i]))
      invariant signatures == SignatureValues(TypedSignatures(items[..i]))
    {
      assert items[..i + 1][..i] == items[..i];
      if items[i].typ.None? {
        continue;
      }
      var t := items[i].typ.value;
      var sign := Obj([Entry("type", Obj([Entry("type", TagValue(t)), Entry("value", Str(Render(t)))])),
                       Entry("as_string", Str(AsString(items[i])))]);
      if items[i].comment.Some? {
        assert Keys(sign.fields) == ["type", "as_string"];
        PutNew(sign.fields, "comment", CommentValue(items[i].comment.value));
        sign := Obj(Put(sign.fields, "comment", CommentValue(items[i].comment.value)));
      }
      assert sign == SignatureValue(items[i]);
      signatures := signatures + [sign];
    }
    assert items[..|items|] == items;
    result := [Entry("signatures", Arr(signatures))];
    if decl.comment.Some? {
      PutNew(result, "comment", CommentValue(decl.comment.value));
      result := Put(result, "comment", CommentValue(decl.comment.value));
    }
  }

  predicate TypedSignaturesOnly(ss: seq<SignatureReflection>)
  {
    forall i :: 0 <= i < |ss| ==> ss[i].typ.Some?
  }

  // ---------------------------------------------------------------------------------------------

  /** The loop keeps exactly the signatures with a type, in their order, and only those. */
  lemma {:induction false} TypedSignaturesMembers(ss: seq<SignatureReflection>)
    ensures TypedSignaturesOnly(TypedSignatures(ss))
    ensures forall s :: s in TypedSignatures(ss) <==> s in ss && s.typ.Some?
    ensures |TypedSignatures(ss)| <= |ss|
  {
    if ss != [] {
      var init := ss[..|ss| - 1];
      TypedSignaturesMembers(init);
      assert ss == init + [ss[|ss| - 1]];
    }
  }

  /** When every signature has a type none is skipped. */
  lemma {:induction false} TypedSignaturesAll(ss: seq<SignatureReflection>)
    requires forall i :: 0 <= i < |ss| ==> ss[i].typ.Some?
    ensures TypedSignatures(ss) == ss
  {
    if ss != [] {
      TypedSignaturesAll(ss[..|ss| - 1]);
      assert ss == ss[..|ss| - 1] + [ss[|ss| - 1]];
    }
  }

  /** A constructor's text is the method text without the `: R` return suffix. */
  lemma MethodTextExtendsConstructorText(s: SignatureReflection)
    ensures MethodSerializer.AsString(s) == AsString(s) + ": " + RenderMaybe(s.typ)
  {
  }

  /** The `type.type` entry is the tag the matching guard tests for. */
  lemma TagValueMatchesGuard(t: SomeType, tag: string)
    requires TypeGuards.CreateIsType(t, tag)
    ensures TagValue(t) == Str(tag)
  {
  }

  /** The fragment's keys are `signatures`, then `comment` exactly when the constructor has one. */
  lemma FragmentKeys(decl: DeclarationReflection)
    requires decl.signatures.SignaturesDefined?
    ensures Keys(Fragment(decl)) == ["signatures"] + (if decl.comment.Some? then ["comment"] else [])
    ensures Find(Fragment(decl), "comment") == if decl.comment.Some? then Some(CommentValue(decl.comment.value)) else None
  {
    if decl.comment.Some? {
      FindAt(Fragment(decl), 1);
    }
  }

  /** The `signatures` array has one entry per typed signature: skipped ones leave no trace. */
  lemma FragmentSignatures(decl: DeclarationReflection)
    requires decl.signatures.SignaturesDefined?
    ensures Find(Fragment(decl), "signatures").Some?
    ensures Find(Fragment(decl), "signatures").value.Arr?
    ensures |Find(Fragment(decl), "signatures").value.items| == |TypedSignatures(decl.signatures.items)| <= |decl.signatures.items|
  {
    TypedSignaturesMembers(decl.signatures.items);
  }

  /** Each serialized signature has the keys type and as_string, then `comment` exactly when the
      signature has one; the text is `name(...)`. */
  lemma SignatureFields(s: SignatureReflection)
    requires s.typ.Some?
    ensures SignatureValue(s).Obj?
    ensures Keys(SignatureValue(s).fields) == ["type", "as_string"] + (if s.comment.Some? then ["comment"] else [])
    ensures StartsWith(AsString(s), s.name + "(") && EndsWith(AsString(s), ")")
  {
    var fs := SignatureValue(s).fields;
    assert Keys(fs) == ["type", "as_string"] + (if s.comment.Some? then ["comment"] else []);
    if s.parameters.ParametersDefined? {
      assert AsString(s) == (s.name + "(") + Join(MethodSerializer.ParameterTexts(s.parameters.items), ", ") + ")";
    } else {
      assert AsString(s) == (s.name + "(") + ")";
    }
  }
}
