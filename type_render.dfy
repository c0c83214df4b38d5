/**
 * The type renderer (`parseType`): a type descriptor to the TypeScript-like text the documentation
 * shows. `Render` is the recursive function; the reflection branch, which the source writes as
 * two loops, is also given as the methods `RenderObjectMembers` and `RenderCallSignatures`, and
 * the lemmas below state the rule of every branch.
 */
module TypeRender {
  import opened Wrappers
  import opened Text
  import opened Records
  import opened TypeDocModel
  import TypeGuards

  /** `parseType(type)`. The match follows the guards' order; a value that no guard accepts
      renders as "unknown". */
  function Render(t: SomeType): string
  {
    match t
    case ArrayType(element) => Render(element) + "[]"
    case ConditionalType(check, ext, whenTrue, whenFalse) =>
      Render(check) + " extends " + Render(ext) + " ? " + Render(whenTrue) + " : " + Render(whenFalse)
    case IndexedAccessType(obj, index) => Render(obj) + "[" + Render(index) + "]"
    case IntersectionType(ts) => Join(seq(|ts|, i requires 0 <= i < |ts| => Render(ts[i])), " & ")
    case PredicateType(name, asserts, target) =>
      (if asserts then "asserts " else "") + name + (if target.Some? then " is " + Render(target.value) else "")
    case ReferenceType(name, args) =>
      name + (if args.TypesDefined? then
                "<" + Join(seq(|args.items|, i requires 0 <= i < |args.items| => Render(args.items[i])), ", ") + ">"
              else "")
    case ReflectionType(decl) =>
      if decl.children.DeclarationsDefined? && |decl.children.items| > 0 then
        var cs := decl.children.items;
        ObjectText(seq(|cs|, i requires 0 <= i < |cs| => MemberEntry(cs[i])))
      else if decl.signatures.SignaturesDefined? && |decl.signatures.items| > 0 then
        var ss := decl.signatures.items;
        Join(seq(|ss|, i requires 0 <= i < |ss| => CallSignatureText(ss[i])), "\n")
      else "{}"
    case LiteralType(value) => LiteralText(value)
    case TupleType(elements) =>
      "[" + (if elements.TypesDefined? then
               Join(seq(|elements.items|, i requires 0 <= i < |elements.items| => Render(elements.items[i])), ", ")
             else "") + "]"
    case TypeOperatorType(operator, target) => operator + " " + Render(target)
    case UnionType(ts) => Join(KeepNonBlank(seq(|ts|, i requires 0 <= i < |ts| => Render(ts[i]))), " | ")
    case InferredType(name) => name
    case IntrinsicType(name) => name
    case UnknownType(name) => name
    case OtherValue(_) => "unknown"
  }

  /** A string literal in single quotes, without escaping; any other value as `String(value)`. */
  function LiteralText(v: LiteralValue): string
  {
    match v
    case StringLiteral(s) => "'" + s + "'"
    case NumberLiteral(n) => IntToString(n)
    case BooleanLiteral(b) => if b then "true" else "false"
    case NullLiteral => "null"
  }

  /** `ts.map(parseType)`. */
  function RenderAll(ts: seq<SomeType>): seq<string>
  {
    seq(|ts|, i requires 0 <= i < |ts| => Render(ts[i]))
  }

  /** `parseType(x!)` on a field that may be undefined: `undefined` is no object, so it falls
      through every guard. */
  function RenderMaybe(t: Option<SomeType>): string
  {
    Render(if t.Some? then t.value else OtherValue(NotAnObject))
  }

  lemma RenderMaybeUndefined()
    ensures RenderMaybe(None) == "unknown"
  {
  }

  // ---------------------------------------------------------------------------------------------
  // the reflection branch

  /** `block[name] = text`: a string assigned to `__proto__` goes to the prototype setter, which
      ignores it, so no property is created. */
  function AssignProperty(block: seq<Entry<string>>, name: string, text: string): seq<Entry<string>>
  {
    if name == "__proto__" then block else Put(block, name, text)
  }

  /** The `block` record after the members loop: each typed member assigns its rendered type. */
  function MemberBlock(entries: seq<(string, Option<string>)>): seq<Entry<string>>
  {
    if entries == [] then []
    else
      var block := MemberBlock(entries[..|entries| - 1]);
      var (name, text) := entries[|entries| - 1];
      if text.Some? then AssignProperty(block, name, text.value) else block
  }

  /** `{\n` + the `key: value` lines of the block in `Object.keys` order, joined by `,\n`, + `\n}`. */
  function ObjectText(entries: seq<(string, Option<string>)>): string
  {
    var ordered := OwnPropertyOrder(MemberBlock(entries));
    "{\n" + Join(MemberLines(ordered), ",\n") + "\n}"
  }

  function MemberLines(es: seq<Entry<string>>): seq<string>
  {
    seq(|es|, i requires 0 <= i < |es| => es[i].key + ": " + es[i].value)
  }

  /** A member's name with its rendered type, when it has one. */
  function MemberEntry(c: DeclarationReflection): (string, Option<string>)
  {
    (c.name, if c.typ.Some? then Some(Render(c.typ.value)) else None)
  }

  /** `name: type` of one parameter of a call signature; a missing type is "unknown". */
  function ParameterText(p: ParameterReflection): string
  {
    p.name + ": " + (if p.typ.Some? then Render(p.typ.value) else "unknown")
  }

  /** `(params) => ret` of one call signature; without a parameter list, `...args: any[]`, and
      without a return type, "unknown". */
  function CallSignatureText(s: SignatureReflection): string
  {
    var ps := s.parameters;
    ArrowText(if ps.ParametersDefined? then
                Join(seq(|ps.items|, j requires 0 <= j < |ps.items| => ParameterText(ps.items[j])), ", ")
              else "...args: any[]",
              if s.typ.Some? then Render(s.typ.value) else "unknown")
  }

  /** `(params) => ret`. */
  function ArrowText(params: string, ret: string): string
  {
    "(" + params + ") => " + ret
  }

  lemma ArrowTextEnds()
    ensures forall params, ret :: StartsWith(ArrowText(params, ret), "(") && EndsWith(ArrowText(params, ret), ") => " + ret)
  {
    forall params, ret ensures StartsWith(ArrowText(params, ret), "(") && EndsWith(ArrowText(params, ret), ") => " + ret) {
      ConcatEnds("(", params, ") => " + ret);
      assert ArrowText(params, ret) == "(" + params + (") => " + ret);
    }
  }

  /** The members loop: fill `block`, then list its keys. */
  method RenderObjectMembers(children: seq<DeclarationReflection>) returns (text: string)
    ensures text == ObjectText(seq(|children|, i requires 0 <= i < |children| => MemberEntry(children[i])))
  {
    ghost var entries := seq(|children|, i requires 0 <= i < |children| => MemberEntry(children[i]));
    var block: seq<Entry<string>> := [];
    for i := 0 to |children|
      invariant block == MemberBlock(entries[..i])
    {
      assert entries[..i + 1][..i] == entries[..i];
      var typ := children[i].typ;
      if typ.Some? {
        block := AssignProperty(block, children[i].name, Render(typ.value));
      }
    }
    assert entries[..|children|] == entries;
    var ordered := OwnPropertyOrder(block);
    text := "{\n" + Join(MemberLines(ordered), ",\n") + "\n}";
  }

  /** The signatures loop: push one `(params) => ret` per signature, then join with newlines. */
  method RenderCallSignatures(signatures: seq<SignatureReflection>) returns (text: string)
    ensures text == Join(seq(|signatures|, i requires 0 <= i < |signatures| => CallSignatureText(signatures[i])), "\n")
  {
    var list: seq<string> := [];
    for i := 0 to |signatures|
      invariant list == seq(i, k requires 0 <= k < i => CallSignatureText(signatures[k]))
    {
      list := list + [CallSignatureText(signatures[i])];
    }
    text := Join(list, "\n");
  }

  /** The reflection branch as the source runs it: the members of an inline object type first,
      else its call signatures, else `{}`. */
  method RenderReflection(decl: DeclarationReflection) returns (text: string)
    ensures text == Render(ReflectionType(decl))
  {
    if decl.children.DeclarationsDefined? && |decl.children.items| > 0 {
      text := RenderObjectMembers(decl.children.items);
    } else if decl.signatures.SignaturesDefined? && |decl.signatures.items| > 0 {
      text := RenderCallSignatures(decl.signatures.items);
    } else {
      text := "{}";
    }
  }

  // ---------------------------------------------------------------------------------------------
  // one lemma per branch

  lemma RenderArray(element: SomeType)
    ensures Render(ArrayType(element)) == Render(element) + "[]"
  {
  }

  lemma RenderIndexedAccess(obj: SomeType, index: SomeType)
    ensures Render(IndexedAccessType(obj, index)) == Render(obj) + "[" + Render(index) + "]"
  {
  }

  lemma RenderConditional(check: SomeType, ext: SomeType, whenTrue: SomeType, whenFalse: SomeType)
    ensures Render(ConditionalType(check, ext, whenTrue, whenFalse))
         == Render(check) + " extends " + Render(ext) + " ? " + Render(whenTrue) + " : " + Render(whenFalse)
  {
  }

  /** Intersection members are joined with " & " and none is dropped. */
  lemma RenderIntersection(ts: seq<SomeType>)
    ensures Render(IntersectionType(ts)) == Join(RenderAll(ts), " & ")
  {
  }

  predicate NoSpace(s: string)
  {
    forall i :: 0 <= i < |s| ==> s[i] != ' '
  }

  /** For a subject name without spaces, the predicate text starts with "asserts " exactly when
      `asserts` is set, or in the one ambiguous case of a subject named `asserts` with a target
      type ("asserts is T"). */
  lemma RenderPredicateAsserts(name: string, asserts: bool, target: Option<SomeType>)
    requires NoSpace(name)
    ensures StartsWith(Render(PredicateType(name, asserts, target)), "asserts ")
        <==> asserts || (name == "asserts" && target.Some?)
  {
    var r := Render(PredicateType(name, asserts, target));
    var tail := if target.Some? then " is " + Render(target.value) else "";
    if asserts {
      assert r == "asserts " + name + tail;
      assert r[..8] == "asserts ";
    } else {
      assert r == name + tail;
      if name == "asserts" && target.Some? {
        assert r[..8] == "asserts ";
      }
      if StartsWith(r, "asserts ") {
        assert r[0] == 'a' && r[1] == 's' && r[2] == 's' && r[3] == 'e' && r[4] == 'r' && r[5] == 't';
        assert r[6] == 's' && r[7] == ' ';
        assert |name| <= 7;
        assert target.Some? ==> r[|name|] == ' ';
        assert name == r[..7];
      }
    }
  }

  /** A target type is rendered as a trailing " is T"; without one, and with a subject name
      without spaces, " is " occurs nowhere in the text. */
  lemma RenderPredicateTarget(name: string, asserts: bool, target: Option<SomeType>)
    ensures target.Some? ==> EndsWith(Render(PredicateType(name, asserts, target)), " is " + Render(target.value))
    ensures target.None? && NoSpace(name) ==> !Contains(Render(PredicateType(name, asserts, target)), " is ")
  {
    var r := Render(PredicateType(name, asserts, target));
    var head := if asserts then "asserts " else "";
    if target.None? && NoSpace(name) {
      assert r == head + name;
      forall k | 0 <= k < |r| && r[k] == ' ' ensures asserts && k == 7 {
      }
      forall i | 0 <= i <= |r| - 4 ensures !StartsWith(r[i..], " is ") {
        assert r[i..][0] == r[i] && r[i..][3] == r[i + 3];
      }
    }
  }

  /** A reference is its name, followed by its rendered arguments in angle brackets exactly when
      the argument list is defined, even when it is empty. */
  lemma RenderReference(name: string, args: OptTypes)
    ensures args.TypesUndefined? ==> Render(ReferenceType(name, args)) == name
    ensures args.TypesDefined? ==> Render(ReferenceType(name, args)) == name + "<" + Join(RenderAll(args.items), ", ") + ">"
    ensures args == TypesDefined([]) ==> Render(ReferenceType(name, args)) == name + "<>"
  {
  }

  /** Literal text: strings in single quotes (not escaped), numbers in decimal. */
  lemma RenderLiteral(v: LiteralValue)
    ensures v.StringLiteral? ==> Render(LiteralType(v)) == "'" + v.s + "'"
    ensures v.NumberLiteral? ==> Render(LiteralType(v)) == IntToString(v.n)
    ensures v.BooleanLiteral? ==> Render(LiteralType(v)) == (if v.b then "true" else "false")
    ensures v.NullLiteral? ==> Render(LiteralType(v)) == "null"
  {
  }

  /** A tuple is its rendered elements in brackets; an undefined element list gives "[]". */
  lemma RenderTuple(elements: OptTypes)
    ensures elements.TypesDefined? ==> Render(TupleType(elements)) == "[" + Join(RenderAll(elements.items), ", ") + "]"
    ensures elements.TypesUndefined? ==> Render(TupleType(elements)) == "[]"
  {
  }

  lemma RenderTypeOperator(operator: string, target: SomeType)
    ensures Render(TypeOperatorType(operator, target)) == operator + " " + Render(target)
  {
  }

  /** A union joins with " | " the renderings of its members that are not blank, in order: no
      joined part is blank, and every member that renders non-blank is among them. */
  lemma RenderUnion(ts: seq<SomeType>)
    ensures Render(UnionType(ts)) == Join(KeepNonBlank(RenderAll(ts)), " | ")
    ensures forall p :: p in KeepNonBlank(RenderAll(ts)) ==> !IsBlank(p)
    ensures forall i :: 0 <= i < |ts| && !IsBlank(Render(ts[i])) ==> Render(ts[i]) in KeepNonBlank(RenderAll(ts))
  {
    KeepNonBlankMembers(RenderAll(ts));
    forall i | 0 <= i < |ts| ensures Render(ts[i]) in RenderAll(ts) {
      assert RenderAll(ts)[i] == Render(ts[i]);
    }
  }

  /** With no blank member the union is the plain " | " join; with only blank members it is "". */
  lemma RenderUnionCases(ts: seq<SomeType>)
    ensures (forall i :: 0 <= i < |ts| ==> !IsBlank(Render(ts[i]))) ==> Render(UnionType(ts)) == Join(RenderAll(ts), " | ")
    ensures (forall i :: 0 <= i < |ts| ==> IsBlank(Render(ts[i]))) ==> Render(UnionType(ts)) == ""
  {
    if forall i :: 0 <= i < |ts| ==> !IsBlank(Render(ts[i])) {
      KeepNonBlankIdentity(RenderAll(ts));
    }
    if forall i :: 0 <= i < |ts| ==> IsBlank(Render(ts[i])) {
      KeepNonBlankAllBlank(RenderAll(ts));
    }
  }

  /** The asymmetry between the two: a member that renders as "" is dropped from a union but kept
      in an intersection. */
  lemma UnionIntersectionAsymmetry(t: SomeType)
    requires !IsBlank(Render(t))
    ensures Render(UnionType([IntrinsicType(""), t])) == Render(t)
    ensures Render(IntersectionType([IntrinsicType(""), t])) == " & " + Render(t)
  {
    var parts := RenderAll([IntrinsicType(""), t]);
    assert parts == ["", Render(t)];
    assert parts[..1] == [""];
    assert KeepNonBlank(parts[..1]) == [];
    assert Join(parts, " & ") == "" + " & " + Join(parts[1..], " & ");
  }

  /** Inferred, intrinsic and unknown-tagged descriptors render as their name. */
  lemma RenderNamed(name: string)
    ensures Render(InferredType(name)) == name
    ensures Render(IntrinsicType(name)) == name
    ensures Render(UnknownType(name)) == name
  {
  }

  /** A value that no guard accepts (for one, anything that is not an object) renders as
      "unknown". */
  lemma RenderUnmatched(v: SomeType)
    requires forall i :: 0 <= i < |TypeGuards.KnownTags| ==> !TypeGuards.CreateIsType(v, TypeGuards.KnownTags[i])
    ensures Render(v) == "unknown"
  {
    var tags := TypeGuards.KnownTags;
    assert !TypeGuards.CreateIsType(v, tags[0]) && !TypeGuards.CreateIsType(v, tags[1]);
    assert !TypeGuards.CreateIsType(v, tags[2]) && !TypeGuards.CreateIsType(v, tags[3]);
    assert !TypeGuards.CreateIsType(v, tags[4]) && !TypeGuards.CreateIsType(v, tags[5]);
    assert !TypeGuards.CreateIsType(v, tags[6]) && !TypeGuards.CreateIsType(v, tags[7]);
    assert !TypeGuards.CreateIsType(v, tags[8]) && !TypeGuards.CreateIsType(v, tags[9]);
    assert !TypeGuards.CreateIsType(v, tags[10]) && !TypeGuards.CreateIsType(v, tags[11]);
    assert !TypeGuards.CreateIsType(v, tags[12]) && !TypeGuards.CreateIsType(v, tags[13]);
  }

  lemma RenderNonObject()
    ensures Render(OtherValue(NotAnObject)) == "unknown"
  {
  }

  // ---------------------------------------------------------------------------------------------
  // the members of an inline object type

  /** Each member's name with its rendered type, when it has one. */
  function MemberEntries(cs: seq<DeclarationReflection>): seq<(string, Option<string>)>
  {
    seq(|cs|, i requires 0 <= i < |cs| => MemberEntry(cs[i]))
  }

  /** The typed members as `key: value` entries, in declaration order. */
  function TypedEntries(entries: seq<(string, Option<string>)>): seq<Entry<string>>
  {
    if entries == [] then []
    else
      var init := TypedEntries(entries[..|entries| - 1]);
      var (name, text) := entries[|entries| - 1];
      if text.Some? then init + [Entry(name, text.value)] else init
  }

  predicate PlainMemberNames(entries: seq<(string, Option<string>)>)
  {
    (forall i, j :: 0 <= i < j < |entries| ==> entries[i].0 != entries[j].0)
    && (forall i :: 0 <= i < |entries| ==> entries[i].0 != "__proto__" && !IsArrayIndex(entries[i].0))
  }

  lemma {:induction false} TypedEntriesKeys(entries: seq<(string, Option<string>)>)
    ensures forall k :: k in Keys(TypedEntries(entries)) ==> exists i :: 0 <= i < |entries| && entries[i].0 == k
    ensures forall e :: e in TypedEntries(entries) ==> exists i :: 0 <= i < |entries| && entries[i].0 == e.key
  {
    if entries != [] {
      var init := entries[..|entries| - 1];
      TypedEntriesKeys(init);
      var te := TypedEntries(entries);
      forall k | k in Keys(te) ensures exists i :: 0 <= i < |entries| && entries[i].0 == k {
        var n :| 0 <= n < |te| && te[n].key == k;
        if n < |TypedEntries(init)| {
          assert te[n] == TypedEntries(init)[n];
          assert Keys(TypedEntries(init))[n] == k;
          var i :| 0 <= i < |init| && init[i].0 == k;
          assert entries[i] == init[i];
        } else {
          assert entries[|entries| - 1].0 == k;
        }
      }
      forall e | e in te ensures exists i :: 0 <= i < |entries| && entries[i].0 == e.key {
        var n :| 0 <= n < |te| && te[n] == e;
        assert Keys(te)[n] == e.key;
      }
    }
  }

  /** With distinct member names, none of them `__proto__`, the members loop only appends: the
      block holds the typed members in declaration order. */
  lemma {:induction false} MemberBlockPlain(entries: seq<(string, Option<string>)>)
    requires PlainMemberNames(entries)
    ensures MemberBlock(entries) == TypedEntries(entries)
  {
    if entries != [] {
      var init := entries[..|entries| - 1];
      assert PlainMemberNames(init);
      MemberBlockPlain(init);
      var (name, text) := entries[|entries| - 1];
      if text.Some? {
        TypedEntriesKeys(init);
        PutNew(TypedEntries(init), name, text.value);
      }
    }
  }

  /** An inline object type whose members have distinct ordinary names renders as one
      `name: type` line per typed member, in declaration order; untyped members leave no line. */
  lemma RenderObjectPlain(decl: DeclarationReflection)
    requires decl.children.DeclarationsDefined? && |decl.children.items| > 0
    requires PlainMemberNames(MemberEntries(decl.children.items))
    ensures Render(ReflectionType(decl)) == "{\n" + Join(MemberLines(TypedEntries(MemberEntries(decl.children.items))), ",\n") + "\n}"
  {
    var cs := decl.children.items;
    var entries := MemberEntries(cs);
    assert Render(ReflectionType(decl)) == ObjectText(entries);
    MemberBlockPlain(entries);
    var te := TypedEntries(entries);
    TypedEntriesKeys(entries);
    forall i | 0 <= i < |te| ensures !IsArrayIndex(te[i].key) {
      assert te[i] in te;
    }
    OwnPropertyOrderNamed(te);
  }

  /** A member named `__proto__` never shows up in the object text. */
  lemma {:induction false} MemberBlockSkipsProto(entries: seq<(string, Option<string>)>)
    ensures "__proto__" !in Keys(MemberBlock(entries))
  {
    if entries != [] {
      var init := entries[..|entries| - 1];
      MemberBlockSkipsProto(init);
      var (name, text) := entries[|entries| - 1];
      if text.Some? && name != "__proto__" {
        PutKeys(MemberBlock(init), name, text.value);
      }
    }
  }

  /** When no member has a type the object text is empty braces around a blank line. */
  lemma RenderObjectUntyped(decl: DeclarationReflection)
    requires decl.children.DeclarationsDefined? && |decl.children.items| > 0
    requires forall i :: 0 <= i < |decl.children.items| ==> decl.children.items[i].typ.None?
    ensures Render(ReflectionType(decl)) == "{\n\n}"
  {
    var cs := decl.children.items;
    MemberBlockUntyped(seq(|cs|, i requires 0 <= i < |cs| => MemberEntry(cs[i])));
  }

  lemma {:induction false} MemberBlockUntyped(entries: seq<(string, Option<string>)>)
    requires forall i :: 0 <= i < |entries| ==> entries[i].1.None?
    ensures MemberBlock(entries) == []
  {
    if entries != [] {
      MemberBlockUntyped(entries[..|entries| - 1]);
    }
  }

  /** A reflection without members or call signatures renders as `{}`. */
  lemma RenderEmptyReflection(decl: DeclarationReflection)
    requires !(decl.children.DeclarationsDefined? && |decl.children.items| > 0)
    requires !(decl.signatures.SignaturesDefined? && |decl.signatures.items| > 0)
    ensures Render(ReflectionType(decl)) == "{}"
  {
  }

  /** Each call signature reads `(` ... `) => ret`. */
  lemma CallSignatureShape(s: SignatureReflection)
    ensures StartsWith(CallSignatureText(s), "(")
    ensures EndsWith(CallSignatureText(s), ") => " + RenderMaybe(s.typ))
  {
    assert RenderMaybe(s.typ) == (if s.typ.Some? then Render(s.typ.value) else "unknown") by {
      RenderMaybeUndefined();
    }
    ArrowTextEnds();
  }

  /** `...args: any[]` stands for a missing parameter list. */
  lemma CallSignatureWithoutParameters(s: SignatureReflection)
    requires s.parameters.ParametersUndefined?
    ensures CallSignatureText(s) == "(...args: any[]) => " + RenderMaybe(s.typ)
  {
    RenderMaybeUndefined();
  }

  // ---------------------------------------------------------------------------------------------
  // worked examples

  lemma RenderExampleReference()
    ensures Render(ReferenceType("Foo", TypesDefined([ReferenceType("T", TypesUndefined)]))) == "Foo<T>"
  {
    var args := [ReferenceType("T", TypesUndefined)];
    assert Render(args[0]) == "T";
    assert seq(|args|, i requires 0 <= i < |args| => Render(args[i])) == ["T"];
  }

  lemma RenderExampleArrayAndLiterals()
    ensures Render(ArrayType(IntrinsicType("string"))) == "string[]"
    ensures Render(LiteralType(StringLiteral("hello"))) == "'hello'"
    ensures Render(LiteralType(NumberLiteral(42))) == "42"
  {
    assert NatToString(42) == NatToString(4) + [DigitChar(2)];
  }

  lemma RenderExampleUnion()
    ensures Render(UnionType([IntrinsicType("string"), LiteralType(NullLiteral)])) == "string | null"
  {
    var ts := [IntrinsicType("string"), LiteralType(NullLiteral)];
    RenderNamed("string");
    RenderLiteral(NullLiteral);
    RenderUnion(ts);
    var parts := ["string", "null"];
    assert RenderAll(ts) == parts;
    assert !IsBlank("string") by { assert !IsWhitespace("string"[0]); }
    assert !IsBlank("null") by { assert !IsWhitespace("null"[0]); }
    KeepNonBlankIdentity(parts);
    assert Join(parts, " | ") == "string" + " | " + Join(parts[1..], " | ");
  }
}
