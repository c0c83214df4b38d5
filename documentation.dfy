/**
 * The documentation walker: every top-level declaration becomes a block holding its name, kind
 * and comment, merged with what the serializer for its kind returns; classes and interfaces
 * recurse into their members; the blocks are collected under `children` of the `docs.json`
 * object beside the format version and the generation time.
 */
module Documentation {
  import opened Wrappers
  import opened Records
  import opened TypeDocModel
  import opened Json
  import MethodSerializer
  import ConstructorSerializer
  import TypeAliasSerializer

  /** The `format_version` written to `docs.json`. */
  const FormatVersion: int := 1

  /** The serializers for properties, variables, enums, functions and accessors, whose code is not
      part of this model: they are taken as given functions. */
  datatype Serializers = Serializers(
    property: DeclarationReflection -> seq<Entry<Value>>,
    variable: DeclarationReflection -> seq<Entry<Value>>,
    enumeration: DeclarationReflection -> seq<Entry<Value>>,
    func: DeclarationReflection -> seq<Entry<Value>>,
    getter: SignatureReflection -> Value,
    setter: SignatureReflection -> Value)

  /** `{ name, kind }` plus `comment` when the declaration has one. */
  function Base(d: DeclarationReflection): (b: seq<Entry<Value>>)
    ensures Keys(b) == ["name", "kind"] + (if d.comment.Some? then ["comment"] else [])
  {
    [Entry("name", Str(d.name)), Entry("kind", Str(d.kindString))] + CommentEntry(d.comment)
  }

  /** What the walker can serialize without throwing: the constructor serializer iterates the
      signature list unguarded, so every constructor reached must have one. The walk reaches the
      members of classes and interfaces only. */
  predicate Serializable(d: DeclarationReflection)
    decreases d
  {
    (d.kind == Constructor ==> d.signatures.SignaturesDefined?)
    && ((d.kind == Class || d.kind == Interface) && d.children.DeclarationsDefined? ==>
          forall i :: 0 <= i < |d.children.items| ==> Serializable(d.children.items[i]))
  }

  /** The fragment the kind's serializer returns, for the kinds whose block is a spread merge. */
  function KindFragment(ser: Serializers, d: DeclarationReflection): Option<seq<Entry<Value>>>
    requires d.kind == Constructor ==> d.signatures.SignaturesDefined?
  {
    match d.kind
    case Constructor => Some(ConstructorSerializer.Fragment(d))
    case Property => Some(ser.property(d))
    case Variable => Some(ser.variable(d))
    case Enum => Some(ser.enumeration(d))
    case Function => Some(ser.func(d))
    case Method => Some(MethodSerializer.Fragment(d))
    case TypeAlias => Some(TypeAliasSerializer.Serialize(d))
    case _ => None
  }

  /** An accessor's block: `getters` and `setters` hold the serialized accessor signatures. */
  function AccessorBlock(ser: Serializers, d: DeclarationReflection, base: seq<Entry<Value>>): seq<Entry<Value>>
  {
    var withGetter := if d.getSignature.Some? then Put(base, "getters", ser.getter(d.getSignature.value)) else base;
    if d.setSignature.Some? then Put(withGetter, "setters", ser.setter(d.setSignature.value)) else withGetter
  }

  /** `_traverseChild(child)`. */
  function ChildBlock(ser: Serializers, d: DeclarationReflection): seq<Entry<Value>>
    requires Serializable(d)
    decreases d
  {
    var base := Base(d);
    if d.kind == Class || d.kind == Interface then
      if d.children.DeclarationsDefined? then
        var cs := d.children.items;
        Put(base, "children", Arr(seq(|cs|, i requires 0 <= i < |cs| => Obj(ChildBlock(ser, cs[i])))))
      else base
    else if d.kind == Accessor then AccessorBlock(ser, d, base)
    else if KindFragment(ser, d).Some? then Spread(base, KindFragment(ser, d).value)
    else base
  }

  /** The blocks of a list of declarations, in order. */
  function ChildBlocks(ser: Serializers, cs: seq<DeclarationReflection>): seq<Value>
    requires forall i :: 0 <= i < |cs| ==> Serializable(cs[i])
  {
    seq(|cs|, i requires 0 <= i < |cs| => Obj(ChildBlock(ser, cs[i])))
  }

  /** `_traverseChild(child)` as the source runs it. */
  method TraverseChild(ser: Serializers, d: DeclarationReflection) returns (block: seq<Entry<Value>>)
    requires Serializable(d)
    ensures block == ChildBlock(ser, d)
    decreases d, 1
  {
    block := [Entry("name", Str(d.name)), Entry("kind", Str(d.kindString))];
    if d.comment.Some? {
      PutNew(block, "comment", CommentValue(d.comment.value));
      block := Put(block, "comment", CommentValue(d.comment.value));
    }
    assert block == Base(d);
    match d.kind {
      case Class =>
        if d.children.DeclarationsDefined? {
          block := TraverseMembers(ser, d, block);
        }
      case Interface =>
        if d.children.DeclarationsDefined? {
          block := TraverseMembers(ser, d, block);
        }
      case Constructor =>
        var result := ConstructorSerializer.Serialize(d);
        block := Spread(block, result);
      case Property =>
        block := Spread(block, ser.property(d));
      case Variable =>
        block := Spread(block, ser.variable(d));
      case Enum =>
        block := Spread(block, ser.enumeration(d));
      case Function =>
        block := Spread(block, ser.func(d));
      case Method =>
        var result := MethodSerializer.Serialize(d);
        block := Spread(block, result);
      case Accessor =>
        if d.getSignature.Some? {
          block := Put(block, "getters", ser.getter(d.getSignature.value));
        }
        if d.setSignature.Some? {
          block := Put(block, "setters", ser.setter(d.setSignature.value));
        }
      case TypeAlias =>
        block := Spread(block, TypeAliasSerializer.Serialize(d));
      case _ =>
    }
  }

  /** The members loop of a class or interface: `block.children` collects their blocks. */
  method TraverseMembers(ser: Serializers, d: DeclarationReflection, base: seq<Entry<Value>>) returns (block: seq<Entry<Value>>)
    requires Serializable(d) && (d.kind == Class || d.kind == Interface) && d.children.DeclarationsDefined?
    ensures block == Put(base, "children", Arr(ChildBlocks(ser, d.children.items)))
    decreases d, 0
  {
    var cs := d.children.items;
    var children: seq<Value> := [];
    for i := 0 to |cs|
      invariant children == ChildBlocks(ser, cs[..i])
    {
      var child := TraverseChild(ser, cs[i]);
      children := children + [Obj(child)];
    }
    assert cs[..|cs|] == cs;
    block := Put(base, "children", Arr(children));
  }

  /** The `docs.json` object. */
  function Output(ser: Serializers, children: OptDeclarations, now: int): seq<Entry<Value>>
    requires children.DeclarationsDefined? ==> forall i :: 0 <= i < |children.items| ==> Serializable(children.items[i])
  {
    [Entry("format_version", Num(FormatVersion)),
     Entry("children", Arr(if children.DeclarationsDefined? then ChildBlocks(ser, children.items) else [])),
     Entry("date", Num(now))]
  }

  /** `serialize()` after the project has been converted: `now` is the clock reading, and
      `children` the root declarations read back from TypeDoc's JSON. */
  method Serialize(ser: Serializers, children: OptDeclarations, now: int) returns (output: seq<Entry<Value>>)
    requires children.DeclarationsDefined? ==> forall i :: 0 <= i < |children.items| ==> Serializable(children.items[i])
    ensures output == Output(ser, children, now)
  {
    var blocks: seq<Value> := [];
    if children.DeclarationsDefined? {
      var cs := children.items;
      for i := 0 to |cs|
        invariant blocks == ChildBlocks(ser, cs[..i])
      {
        var block := TraverseChild(ser, cs[i]);
        blocks := blocks + [Obj(block)];
      }
      assert cs[..|cs|] == cs;
    }
    output := [Entry("format_version", Num(FormatVersion)), Entry("children", Arr(blocks)), Entry("date", Num(now))];
  }

  // ---------------------------------------------------------------------------------------------

  /** Every block starts with `name` and `kind`, then `comment` when the declaration has one:
      no serializer moves these keys. */
  lemma BaseKeysLead(ser: Serializers, d: DeclarationReflection)
    requires Serializable(d)
    ensures StartsWithKeys(Keys(ChildBlock(ser, d)), Keys(Base(d)))
  {
    var base := Base(d);
    if d.kind == Class || d.kind == Interface {
      if d.children.DeclarationsDefined? {
        PutKeys(base, "children", Arr(ChildBlocks(ser, d.children.items)));
      }
    } else if d.kind == Accessor {
      var withGetter := if d.getSignature.Some? then Put(base, "getters", ser.getter(d.getSignature.value)) else base;
      if d.getSignature.Some? {
        PutKeys(base, "getters", ser.getter(d.getSignature.value));
      }
      if d.setSignature.Some? {
        PutKeys(withGetter, "setters", ser.setter(d.setSignature.value));
      }
    } else if KindFragment(ser, d).Some? {
      SpreadKeys(base, KindFragment(ser, d).value);
    }
  }

  /** In a spread-merged block the serializer's fragment wins: a key it has reads as its (last)
      value there, any other key as in the base block. */
  lemma FragmentWins(ser: Serializers, d: DeclarationReflection, x: string)
    requires Serializable(d)
    requires d.kind !in {Class, Interface, Accessor}
    requires KindFragment(ser, d).Some?
    ensures Find(ChildBlock(ser, d), x)
         == if FindLast(KindFragment(ser, d).value, x).Some? then FindLast(KindFragment(ser, d).value, x) else Find(Base(d), x)
  {
    SpreadFind(Base(d), KindFragment(ser, d).value, x);
  }

  /** A method's block is the base block followed by `signatures`. */
  lemma MethodBlock(ser: Serializers, d: DeclarationReflection)
    requires d.kind == Method
    ensures Keys(ChildBlock(ser, d)) == Keys(Base(d)) + ["signatures"]
    ensures Find(ChildBlock(ser, d), "signatures") == Some(MethodSerializer.Fragment(d)[0].value)
  {
    var base := Base(d);
    var f := MethodSerializer.Fragment(d);
    assert Spread(base, f) == Spread(Put(base, "signatures", f[0].value), []);
    PutKeys(base, "signatures", f[0].value);
    PutFind(base, "signatures", f[0].value, "signatures");
  }

  /** A constructor's block is the base block followed by `signatures`: the constructor's comment
      is written again by the serializer, in the place it already had. */
  lemma ConstructorBlock(ser: Serializers, d: DeclarationReflection)
    requires d.kind == Constructor && d.signatures.SignaturesDefined?
    ensures Keys(ChildBlock(ser, d)) == Keys(Base(d)) + ["signatures"]
    ensures Find(ChildBlock(ser, d), "comment") == Find(Base(d), "comment")
  {
    var base := Base(d);
    var f := ConstructorSerializer.Fragment(d);
    ConstructorSerializer.FragmentKeys(d);
    var b1 := Put(base, "signatures", f[0].value);
    PutKeys(base, "signatures", f[0].value);
    PutFind(base, "signatures", f[0].value, "comment");
    if d.comment.Some? {
      assert Spread(base, f) == Spread(b1, f[1..]);
      assert f[1..][1..] == [];
      assert Spread(b1, f[1..]) == Spread(Put(b1, "comment", f[1].value), []);
      PutKeys(b1, "comment", f[1].value);
      PutFind(b1, "comment", f[1].value, "comment");
      FindAt(base, 2);
    } else {
      assert Spread(base, f) == Spread(b1, []);
      FindPresent(base, "comment");
    }
  }

  /** A type alias's block is the base block followed by its three keys. */
  lemma TypeAliasBlock(ser: Serializers, d: DeclarationReflection)
    requires d.kind == TypeAlias
    ensures Keys(ChildBlock(ser, d)) == Keys(Base(d)) + ["type_params", "type", "as_string"]
  {
    var base := Base(d);
    var f := TypeAliasSerializer.Serialize(d);
    assert ChildBlock(ser, d) == Spread(base, f);
    assert Keys(f) == ["type_params", "type", "as_string"];
    assert f[0].key == "type_params" && f[1].key == "type" && f[2].key == "as_string";
    SpreadFresh(base, f);
    assert Keys(base + f) == Keys(base) + Keys(f);
  }

  /** A class or interface block has `children` exactly when the declaration has a member list
      (an empty list gives an empty array), holding one block per member, in order. */
  lemma ContainerChildren(ser: Serializers, d: DeclarationReflection)
    requires Serializable(d) && (d.kind == Class || d.kind == Interface)
    ensures Find(ChildBlock(ser, d), "children").Some? <==> d.children.DeclarationsDefined?
    ensures d.children.DeclarationsDefined? ==>
      Find(ChildBlock(ser, d), "children") == Some(Arr(ChildBlocks(ser, d.children.items)))
      && Keys(ChildBlock(ser, d)) == Keys(Base(d)) + ["children"]
  {
    var base := Base(d);
    if d.children.DeclarationsDefined? {
      PutFind(base, "children", Arr(ChildBlocks(ser, d.children.items)), "children");
      PutKeys(base, "children", Arr(ChildBlocks(ser, d.children.items)));
    } else {
      FindPresent(base, "children");
    }
  }

  /** An accessor block has `getters` exactly when there is a get signature and `setters` exactly
      when there is a set signature, holding their serialized forms, after the base keys and with
      no other key added. */
  lemma AccessorKeys(ser: Serializers, d: DeclarationReflection)
    requires d.kind == Accessor
    ensures Find(ChildBlock(ser, d), "getters") == if d.getSignature.Some? then Some(ser.getter(d.getSignature.value)) else None
    ensures Find(ChildBlock(ser, d), "setters") == if d.setSignature.Some? then Some(ser.setter(d.setSignature.value)) else None
    ensures Find(ChildBlock(ser, d), "name") == Some(Str(d.name))
    ensures Keys(ChildBlock(ser, d))
         == Keys(Base(d)) + (if d.getSignature.Some? then ["getters"] else []) + (if d.setSignature.Some? then ["setters"] else [])
  {
    var base := Base(d);
    var withGetter := if d.getSignature.Some? then Put(base, "getters", ser.getter(d.getSignature.value)) else base;
    assert Keys(withGetter) == Keys(base) + (if d.getSignature.Some? then ["getters"] else []) by {
      if d.getSignature.Some? {
        PutKeys(base, "getters", ser.getter(d.getSignature.value));
      }
    }
    if d.setSignature.Some? {
      assert "setters" !in Keys(withGetter);
      PutKeys(withGetter, "setters", ser.setter(d.setSignature.value));
    }
    FindPresent(base, "getters");
    FindPresent(base, "setters");
    FindAt(base, 0);
    if d.getSignature.Some? {
      PutFind(base, "getters", ser.getter(d.getSignature.value), "getters");
      PutFind(base, "getters", ser.getter(d.getSignature.value), "setters");
      PutFind(base, "getters", ser.getter(d.getSignature.value), "name");
    }
    if d.setSignature.Some? {
      PutFind(withGetter, "setters", ser.setter(d.setSignature.value), "getters");
      PutFind(withGetter, "setters", ser.setter(d.setSignature.value), "setters");
      PutFind(withGetter, "setters", ser.setter(d.setSignature.value), "name");
    }
  }

  /** A kind the walker does not handle keeps the base block unchanged. */
  lemma UnhandledKind(ser: Serializers, d: DeclarationReflection)
    requires d.kind !in {Class, Interface, Constructor, Property, Variable, Enum, Function, Method, Accessor, TypeAlias}
    ensures ChildBlock(ser, d) == Base(d)
  {
  }

  /** The output holds the format version 1, one block per root declaration (none when the
      project has no children) and the clock reading, in that order. */
  lemma OutputShape(ser: Serializers, children: OptDeclarations, now: int)
    requires children.DeclarationsDefined? ==> forall i :: 0 <= i < |children.items| ==> Serializable(children.items[i])
    ensures Keys(Output(ser, children, now)) == ["format_version", "children", "date"]
    ensures Find(Output(ser, children, now), "format_version") == Some(Num(1))
    ensures Output(ser, children, now)[1].value.Arr?
    ensures |Output(ser, children, now)[1].value.items| == if children.DeclarationsDefined? then |children.items| else 0
  {
  }
}
