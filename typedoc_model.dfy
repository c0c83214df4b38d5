/**
 * The reflection tree TypeDoc hands to the serializer (its `JSONOutput` shapes), reduced to the
 * fields the documentation serializer reads. Every `?:` field of TypeDoc is an `Option`, or one
 * of the `...Undefined | ...Defined` lists below for the lists that hold descriptors or
 * declarations.
 */
module TypeDocModel {
  import opened Wrappers

  /** A type descriptor: one variant per `type` tag TypeDoc emits, carrying the fields the
      renderer reads, and `OtherValue` for anything that is none of them. */
  datatype SomeType =
    | ArrayType(elementType: SomeType)
    | ConditionalType(checkType: SomeType, extendsType: SomeType, trueType: SomeType, falseType: SomeType)
    | IndexedAccessType(objectType: SomeType, indexType: SomeType)
    | InferredType(name: string)
    | IntersectionType(types: seq<SomeType>)
    | IntrinsicType(name: string)
    | PredicateType(name: string, asserts: bool, targetType: Option<SomeType>)
    | ReferenceType(name: string, typeArguments: OptTypes)
    | ReflectionType(declaration: DeclarationReflection)
    | LiteralType(value: LiteralValue)
    | TupleType(elements: OptTypes)
    | TypeOperatorType(operator: string, target: SomeType)
    | UnionType(types: seq<SomeType>)
    | UnknownType(name: string)
    | OtherValue(raw: OtherRaw)

  /** A value that is not one of TypeDoc's descriptors: not an object at all (`undefined`, `null`,
      a number, ...) or an object whose `type` field is missing, is some other string, or is a
      known tag on an object without that variant's fields. The renderer gives `unknown` for all of
      these; for a known tag the source instead follows that tag's branch. */
  datatype OtherRaw = NotAnObject | ObjectWithTag(tag: Option<string>)

  /** The value of a literal type; TypeDoc emits strings, numbers, booleans and null. */
  datatype LiteralValue = StringLiteral(s: string) | NumberLiteral(n: int) | BooleanLiteral(b: bool) | NullLiteral

  datatype OptTypes = TypesUndefined | TypesDefined(items: seq<SomeType>)
  datatype OptDeclarations = DeclarationsUndefined | DeclarationsDefined(items: seq<DeclarationReflection>)
  datatype OptSignatures = SignaturesUndefined | SignaturesDefined(items: seq<SignatureReflection>)
  datatype OptParameters = ParametersUndefined | ParametersDefined(items: seq<ParameterReflection>)

  /** TypeDoc's `ReflectionKind`. */
  datatype ReflectionKind =
    | Project | Module | Namespace | Enum | EnumMember | Variable | Function | Class | Interface
    | Constructor | Property | Method | CallSignature | IndexSignature | ConstructorSignature
    | Parameter | TypeLiteral | TypeParameter | Accessor | GetSignature | SetSignature
    | ObjectLiteral | TypeAlias | Event | Reference

  datatype CommentTag = CommentTag(tagName: string, text: string, paramName: Option<string>)

  datatype Comment = Comment(shortText: string, text: string, tags: seq<CommentTag>, returnsText: Option<string>)

  /** One declaration: a class, a method, a property, a member of an inline object type, ... */
  datatype DeclarationReflection = DeclarationReflection(
    name: string,
    kind: ReflectionKind,
    kindString: string,
    comment: Option<Comment>,
    typ: Option<SomeType>,
    children: OptDeclarations,
    signatures: OptSignatures,
    getSignature: Option<SignatureReflection>,
    setSignature: Option<SignatureReflection>,
    typeParameter: Option<seq<TypeParameterReflection>>)

  /** One call, construct or accessor signature; `typ` is its return type. */
  datatype SignatureReflection = SignatureReflection(
    name: string,
    typ: Option<SomeType>,
    parameters: OptParameters,
    comment: Option<Comment>)

  datatype ParameterReflection = ParameterReflection(
    name: string,
    typ: Option<SomeType>,
    defaultValue: Option<string>,
    comment: Option<Comment>)

  datatype TypeParameterReflection = TypeParameterReflection(name: string)
}
