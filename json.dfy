/**
 * The JavaScript values the serializers build before `JSON.stringify` writes them: objects keep
 * their keys in creation order (see `Records`), a key may hold `undefined` (the stringifier then
 * leaves the key out), and TypeDoc's own descriptor and comment objects are embedded as they are.
 */
module Json {
  import opened Wrappers
  import opened Records
  import opened TypeDocModel

  datatype Value =
    | Undefined
    | Null
    | Bool(b: bool)
    | Num(n: int)
    | Str(s: string)
    | Arr(items: seq<Value>)
    | Obj(fields: seq<Entry<Value>>)
    | Descriptor(t: SomeType)
    | CommentValue(c: Comment)

  /** An optional TypeDoc field read into a property: `undefined` when it is absent. */
  function OptDescriptor(t: Option<SomeType>): (v: Value)
    ensures v.Undefined? <==> t.None?
    ensures t.Some? ==> v == Descriptor(t.value)
  {
    if t.Some? then Descriptor(t.value) else Undefined
  }

  function OptStr(s: Option<string>): (v: Value)
    ensures v.Undefined? <==> s.None?
    ensures s.Some? ==> v == Str(s.value)
  {
    if s.Some? then Str(s.value) else Undefined
  }

  /** `if (x.comment !== undefined) obj.comment = x.comment`, for an object that has no `comment`
      key yet: one entry more exactly when there is a comment. */
  function CommentEntry(c: Option<Comment>): (es: seq<Entry<Value>>)
    ensures |es| <= 1
    ensures es != [] <==> c.Some?
    ensures c.Some? ==> es == [Entry("comment", CommentValue(c.value))]
  {
    if c.Some? then [Entry("comment", CommentValue(c.value))] else []
  }

  /** The keys `JSON.stringify` writes for an object: those whose value is not `undefined`, in
      order. */
  function WrittenKeys(fields: seq<Entry<Value>>): seq<string>
  {
    if fields == [] then []
    else
      var last := fields[|fields| - 1];
      WrittenKeys(fields[..|fields| - 1]) + (if last.value.Undefined? then [] else [last.key])
  }

  /** A key is written exactly when some entry carries it with a value other than `undefined`. */
  lemma {:induction false} WrittenKeysMembers(fields: seq<Entry<Value>>, k: string)
    ensures k in WrittenKeys(fields) <==> exists i :: 0 <= i < |fields| && fields[i].key == k && !fields[i].value.Undefined?
  {
    if fields != [] {
      var init := fields[..|fields| - 1];
      WrittenKeysMembers(init, k);
      if k in WrittenKeys(init) {
        var i :| 0 <= i < |init| && init[i].key == k && !init[i].value.Undefined?;
        assert fields[i] == init[i];
      }
      if exists i :: 0 <= i < |fields| && fields[i].key == k && !fields[i].value.Undefined? {
        var i :| 0 <= i < |fields| && fields[i].key == k && !fields[i].value.Undefined?;
        if i < |init| {
          assert init[i] == fields[i];
        }
      }
    }
  }
}
