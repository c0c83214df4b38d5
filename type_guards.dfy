/**
 * The type-descriptor guards (`is.arrayType`, `is.conditional`, ...): each holds of a value
 * exactly when the value is an object whose `type` field equals the guard's fixed tag.
 */
module TypeGuards {
  import opened Wrappers
  import opened TypeDocModel

  const ArrayTag: string := "array"
  const ConditionalTag: string := "conditional"
  const IndexedAccessTag: string := "indexedAccess"
  const InferredTag: string := "inferred"
  const IntersectionTag: string := "intersection"
  const IntrinsicTag: string := "intrinsic"
  const PredicateTag: string := "predicate"
  const ReferenceTag: string := "reference"
  const ReflectionTag: string := "reflection"
  const LiteralTag: string := "literal"
  const TupleTag: string := "tuple"
  const TypeOperatorTag: string := "typeOperator"
  const UnionTag: string := "union"
  const UnknownTag: string := "unknown"

  /** The fourteen tags, in the order the guards are declared. */
  const KnownTags: seq<string> := [
    ArrayTag, ConditionalTag, IndexedAccessTag, InferredTag, IntersectionTag, IntrinsicTag,
    PredicateTag, ReferenceTag, ReflectionTag, LiteralTag, TupleTag, TypeOperatorTag, UnionTag,
    UnknownTag]

  /** Whether the value is an object (`isObject`). */
  predicate IsObject(v: SomeType)
  {
    !(v.OtherValue? && v.raw.NotAnObject?)
  }

  /** The value's `type` field, when it is an object that has one. */
  function TypeField(v: SomeType): Option<string>
  {
    match v
    case ArrayType(_) => Some(ArrayTag)
    case ConditionalType(_, _, _, _) => Some(ConditionalTag)
    case IndexedAccessType(_, _) => Some(IndexedAccessTag)
    case InferredType(_) => Some(InferredTag)
    case IntersectionType(_) => Some(IntersectionTag)
    case IntrinsicType(_) => Some(IntrinsicTag)
    case PredicateType(_, _, _) => Some(PredicateTag)
    case ReferenceType(_, _) => Some(ReferenceTag)
    case ReflectionType(_) => Some(ReflectionTag)
    case LiteralType(_) => Some(LiteralTag)
    case TupleType(_) => Some(TupleTag)
    case TypeOperatorType(_, _) => Some(TypeOperatorTag)
    case UnionType(_) => Some(UnionTag)
    case UnknownType(_) => Some(UnknownTag)
    case OtherValue(raw) => if raw.ObjectWithTag? then raw.tag else None
  }

  /** `createIsType(value, type)`. */
  predicate CreateIsType(v: SomeType, tag: string)
  {
    IsObject(v) && TypeField(v) == Some(tag)
  }

  predicate IsArrayType(v: SomeType) { CreateIsType(v, ArrayTag) }
  predicate IsConditional(v: SomeType) { CreateIsType(v, ConditionalTag) }
  predicate IsIndexedAccess(v: SomeType) { CreateIsType(v, IndexedAccessTag) }
  predicate IsInferred(v: SomeType) { CreateIsType(v, InferredTag) }
  predicate IsIntersection(v: SomeType) { CreateIsType(v, IntersectionTag) }
  predicate IsIntrinsic(v: SomeType) { CreateIsType(v, IntrinsicTag) }
  predicate IsPredicate(v: SomeType) { CreateIsType(v, PredicateTag) }
  predicate IsReference(v: SomeType) { CreateIsType(v, ReferenceTag) }
  predicate IsReflection(v: SomeType) { CreateIsType(v, ReflectionTag) }
  predicate IsLiteral(v: SomeType) { CreateIsType(v, LiteralTag) }
  predicate IsTuple(v: SomeType) { CreateIsType(v, TupleTag) }
  predicate IsTypeOperator(v: SomeType) { CreateIsType(v, TypeOperatorTag) }
  predicate IsUnion(v: SomeType) { CreateIsType(v, UnionTag) }
  predicate IsUnknown(v: SomeType) { CreateIsType(v, UnknownTag) }

  /** The datatype can also hold an object whose tag is a known one but that lacks the variant's
      fields; the guards are only tied to the variants for values that are not of that kind. */
  predicate WellTagged(v: SomeType)
  {
    v.OtherValue? && v.raw.ObjectWithTag? && v.raw.tag.Some? ==> v.raw.tag.value !in KnownTags
  }

  /** The position of a tag in `KnownTags`, by the order the guards are tried. */
  function TagPosition(tag: string): nat
  {
    if tag == ArrayTag then 0 else if tag == ConditionalTag then 1
    else if tag == IndexedAccessTag then 2 else if tag == InferredTag then 3
    else if tag == IntersectionTag then 4 else if tag == IntrinsicTag then 5
    else if tag == PredicateTag then 6 else if tag == ReferenceTag then 7
    else if tag == ReflectionTag then 8 else if tag == LiteralTag then 9
    else if tag == TupleTag then 10 else if tag == TypeOperatorTag then 11
    else if tag == UnionTag then 12 else if tag == UnknownTag then 13 else 14
  }

  lemma TagPositionOfKnownTag(i: nat)
    requires i < |KnownTags|
    ensures TagPosition(KnownTags[i]) == i
  {
    if i == 0 {} else if i == 1 {} else if i == 2 {} else if i == 3 {}
    else if i == 4 {} else if i == 5 {} else if i == 6 {} else if i == 7 {}
    else if i == 8 {} else if i == 9 {} else if i == 10 {} else if i == 11 {}
    else if i == 12 {} else {}
  }

  /** No two of the fourteen tags are equal. */
  lemma TagsPairwiseDistinct()
    ensures forall i, j :: 0 <= i < j < |KnownTags| ==> KnownTags[i] != KnownTags[j]
  {
    forall i, j | 0 <= i < j < |KnownTags| ensures KnownTags[i] != KnownTags[j] {
      TagPositionOfKnownTag(i);
      TagPositionOfKnownTag(j);
    }
  }

  /** Hence at most one guard holds of any value. */
  lemma {:induction false} AtMostOneGuard(v: SomeType, i: nat, j: nat)
    requires i < j < |KnownTags|
    ensures !(CreateIsType(v, KnownTags[i]) && CreateIsType(v, KnownTags[j]))
  {
    TagsPairwiseDistinct();
  }

  /** A value that is not an object satisfies no guard. */
  lemma NonObjectSatisfiesNoGuard(v: SomeType, tag: string)
    requires !IsObject(v)
    ensures !CreateIsType(v, tag)
  {
  }

  /** A guard reads nothing but objecthood and the `type` field. */
  lemma GuardReadsOnlyTypeField(u: SomeType, v: SomeType, tag: string)
    requires IsObject(u) == IsObject(v) && TypeField(u) == TypeField(v)
    ensures CreateIsType(u, tag) == CreateIsType(v, tag)
  {
  }

  /** For a well-tagged value each guard holds exactly for its own variant. */
  lemma GuardsMatchVariants(v: SomeType)
    requires WellTagged(v)
    ensures IsArrayType(v) <==> v.ArrayType?
    ensures IsConditional(v) <==> v.ConditionalType?
    ensures IsIndexedAccess(v) <==> v.IndexedAccessType?
    ensures IsInferred(v) <==> v.InferredType?
    ensures IsIntersection(v) <==> v.IntersectionType?
    ensures IsIntrinsic(v) <==> v.IntrinsicType?
    ensures IsPredicate(v) <==> v.PredicateType?
    ensures IsReference(v) <==> v.ReferenceType?
    ensures IsReflection(v) <==> v.ReflectionType?
    ensures IsLiteral(v) <==> v.LiteralType?
    ensures IsTuple(v) <==> v.TupleType?
    ensures IsTypeOperator(v) <==> v.TypeOperatorType?
    ensures IsUnion(v) <==> v.UnionType?
    ensures IsUnknown(v) <==> v.UnknownType?
  {
    TagsPairwiseDistinct();
    if v.OtherValue? && v.raw.ObjectWithTag? && v.raw.tag.Some? {
      var t := v.raw.tag.value;
      assert t != KnownTags[0] && t != KnownTags[1] && t != KnownTags[2] && t != KnownTags[3];
      assert t != KnownTags[4] && t != KnownTags[5] && t != KnownTags[6] && t != KnownTags[7];
      assert t != KnownTags[8] && t != KnownTags[9] && t != KnownTags[10] && t != KnownTags[11];
      assert t != KnownTags[12] && t != KnownTags[13];
    }
  }
}
