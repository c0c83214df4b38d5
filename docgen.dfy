/**
 * The internal documentation generator: it refuses workspace projects, needs a readable
 * tsconfig and a converted project, and then writes `docs.json` with one flat block per root
 * declaration (name, kind, whether it is public, and its comment when that has something to
 * show).
 */
module Docgen {
  import opened Wrappers
  import opened Records
  import opened TypeDocModel
  import opened Json

  const FormatVersion: int := 1

  /** TypeDoc's reflection flags. */
  datatype ReflectionFlag =
    | Private | Protected | Public | Static | ExportAssignment | External | Optional | DefaultValue
    | Rest | Abstract | Const | Let | Readonly

  /** A root declaration as the generator reads it. `commentVisible` is what TypeDoc's
      `hasVisibleComponent` answers for the comment. */
  datatype GeneratorReflection = GeneratorReflection(
    name: string,
    kindString: string,
    flags: set<ReflectionFlag>,
    comment: Option<Comment>,
    commentVisible: bool)

  /** The converted project; `children` is absent for a project without root declarations. */
  datatype Project = Project(children: Option<seq<GeneratorReflection>>)

  datatype Options = Options(workspaces: Option<bool>, tsconfig: Option<string>, entryPoints: Option<seq<string>>)

  datatype Outcome =
    | WorkspacesUnsupported
    | TsconfigUnavailable
    | ReflectionUnavailable
    | Written(doc: seq<Entry<Value>>)

  /** `child.hasComment()`. */
  predicate HasComment(r: GeneratorReflection)
  {
    r.comment.Some? && r.commentVisible
  }

  /** `{ param, text, tag }` of one comment tag. */
  function TagObject(t: CommentTag): Value
  {
    Obj([Entry("param", OptStr(t.paramName)), Entry("text", Str(t.text)), Entry("tag", Str(t.tagName))])
  }

  /** The comment block: the short text, the tags when there are any, the `@returns` text when
      there is one. */
  function CommentObject(c: Comment): seq<Entry<Value>>
  {
    [Entry("text", Str(c.shortText))]
    + (if |c.tags| > 0 then [Entry("tags", Arr(seq(|c.tags|, i requires 0 <= i < |c.tags| => TagObject(c.tags[i]))))] else [])
    + (if c.returnsText.Some? then [Entry("returns", Str(c.returnsText.value))] else [])
  }

  /** The block of one root declaration. */
  function Block(r: GeneratorReflection): seq<Entry<Value>>
  {
    [Entry("name", Str(r.name)), Entry("kind", Str(r.kindString)), Entry("flags", Obj([Entry("public", Bool(Public in r.flags))]))]
    + (if HasComment(r) then [Entry("comment", Obj(CommentObject(r.comment.value)))] else [])
  }

  /** `_traverseChild(child)`. */
  method TraverseChild(r: GeneratorReflection) returns (block: seq<Entry<Value>>)
    ensures block == Block(r)
  {
    block := [Entry("name", Str(r.name)), Entry("kind", Str(r.kindString)), Entry("flags", Obj([Entry("public", Bool(Public in r.flags))]))];
    if HasComment(r) {
      var c := r.comment.value;
      var comment := [Entry("text", Str(c.shortText))];
      if |c.tags| > 0 {
        var tags := Arr(seq(|c.tags|, i requires 0 <= i < |c.tags| => TagObject(c.tags[i])));
        PutNew(comment, "tags", tags);
        comment := Put(comment, "tags", tags);
      }
      if c.returnsText.Some? {
        assert Keys(comment) == ["text"] + (if |c.tags| > 0 then ["tags"] else []);
        PutNew(comment, "returns", Str(c.returnsText.value));
        comment := Put(comment, "returns", Str(c.returnsText.value));
      }
      assert comment == CommentObject(c);
      assert "comment" !in Keys(block);
      PutNew(block, "comment", Obj(comment));
      block := Put(block, "comment", Obj(comment));
    }
  }

  /** The options `run` uses when it is called without any: only the tsconfig path. */
  const DefaultOptions: Options := Options(None, Some("./tsconfig.json"), None)

  /** The entry points handed to TypeDoc: `src/index.ts` unless the options name some. */
  function EntryPoints(options: Options): (eps: seq<string>)
    ensures options.entryPoints.None? ==> eps == ["src/index.ts"]
    ensures options.entryPoints.Some? ==> eps == options.entryPoints.value
  {
    options.entryPoints.GetOr(["src/index.ts"])
  }

  /** The written document. */
  function Document(project: Project, generatedAt: string): seq<Entry<Value>>
  {
    var cs := project.children.GetOr([]);
    [Entry("format_version", Num(FormatVersion)), Entry("generated_at", Str(generatedAt)), Entry("workspaces", Bool(false)),
     Entry("children", Arr(seq(|cs|, i requires 0 <= i < |cs| => Obj(Block(cs[i])))))]
  }

  /** What `run` ends with. */
  function RunOutcome(options: Options, tsconfigFound: bool, tsconfigFatal: bool, reflection: Option<Project>, generatedAt: string): Outcome
  {
    if options.workspaces.Some? then WorkspacesUnsupported
    else if !tsconfigFound || tsconfigFatal then TsconfigUnavailable
    else if reflection.None? then ReflectionUnavailable
    else Written(Document(reflection.value, generatedAt))
  }

  /** `run(options)`. Reading the tsconfig and converting the project are done by TypeScript and
      TypeDoc: their answers are the parameters `tsconfigFound`, `tsconfigFatal` and
      `reflection`; `generatedAt` is the clock reading. */
  method Run(options: Options, tsconfigFound: bool, tsconfigFatal: bool, reflection: Option<Project>, generatedAt: string)
    returns (outcome: Outcome)
    ensures outcome == RunOutcome(options, tsconfigFound, tsconfigFatal, reflection, generatedAt)
  {
    if options.workspaces.Some? {
      return WorkspacesUnsupported;
    }
    if !tsconfigFound || tsconfigFatal {
      return TsconfigUnavailable;
    }
    if reflection.None? {
      return ReflectionUnavailable;
    }
    var children: seq<Value> := [];
    if reflection.value.children.Some? {
      var cs := reflection.value.children.value;
      for i := 0 to |cs|
        invariant children == seq(i, k requires 0 <= k < i => Obj(Block(cs[k])))
      {
        var block := TraverseChild(cs[i]);
        children := children + [Obj(block)];
      }
    }
    ghost var all := reflection.value.children.GetOr([]);
    assert children == seq(|all|, i requires 0 <= i < |all| => Obj(Block(all[i])));
    var serialized := [Entry("format_version", Num(FormatVersion)), Entry("generated_at", Str(generatedAt)),
                       Entry("workspaces", Bool(false)), Entry("children", Arr(children))];
    return Written(serialized);
  }

  // ---------------------------------------------------------------------------------------------

  /** Any `workspaces` option, even `false`, stops the generator before anything else. */
  lemma WorkspacesRefused(options: Options, tsconfigFound: bool, tsconfigFatal: bool, reflection: Option<Project>, generatedAt: string)
    ensures RunOutcome(options, tsconfigFound, tsconfigFatal, reflection, generatedAt) == WorkspacesUnsupported
        <==> options.workspaces.Some?
  {
  }

  /** Called without options, `run` is not refused as a workspace, reads `./tsconfig.json` and
      hands TypeDoc `src/index.ts`. */
  lemma DefaultOptionsRun(tsconfigFound: bool, tsconfigFatal: bool, reflection: Option<Project>, generatedAt: string)
    ensures RunOutcome(DefaultOptions, tsconfigFound, tsconfigFatal, reflection, generatedAt) != WorkspacesUnsupported
    ensures DefaultOptions.tsconfig == Some("./tsconfig.json")
    ensures EntryPoints(DefaultOptions) == ["src/index.ts"]
  {
  }

  /** A document is written exactly when there is no workspaces option, the tsconfig was read
      without a fatal error and the project was converted. */
  lemma WrittenExactly(options: Options, tsconfigFound: bool, tsconfigFatal: bool, reflection: Option<Project>, generatedAt: string)
    ensures RunOutcome(options, tsconfigFound, tsconfigFatal, reflection, generatedAt).Written?
        <==> options.workspaces.None? && tsconfigFound && !tsconfigFatal && reflection.Some?
  {
  }

  /** The document holds the format version, the time, `workspaces: false` and one block per root
      declaration (none when the project has no children). */
  lemma DocumentShape(project: Project, generatedAt: string)
    ensures Keys(Document(project, generatedAt)) == ["format_version", "generated_at", "workspaces", "children"]
    ensures Document(project, generatedAt)[0].value == Num(1)
    ensures Document(project, generatedAt)[2].value == Bool(false)
    ensures Document(project, generatedAt)[3].value.Arr?
    ensures |Document(project, generatedAt)[3].value.items| == if project.children.Some? then |project.children.value| else 0
  {
  }

  /** A block has name, kind and flags, then `comment` exactly when the declaration has a visible
      comment; unlike the documentation walker, it never has `children`. */
  lemma BlockKeys(r: GeneratorReflection)
    ensures Keys(Block(r)) == ["name", "kind", "flags"] + (if HasComment(r) then ["comment"] else [])
    ensures "children" !in Keys(Block(r))
    ensures Block(r)[2].value == Obj([Entry("public", Bool(Public in r.flags))])
  {
    assert Keys(Block(r)) == ["name", "kind", "flags"] + (if HasComment(r) then ["comment"] else []);
  }

  /** The comment block has `tags` exactly when the comment has tags, one object per tag in order,
      and `returns` exactly when it has a `@returns` text. */
  lemma CommentObjectKeys(c: Comment)
    ensures Keys(CommentObject(c)) == ["text"] + (if |c.tags| > 0 then ["tags"] else []) + (if c.returnsText.Some? then ["returns"] else [])
    ensures |c.tags| > 0 ==> CommentObject(c)[1] == Entry("tags", Arr(seq(|c.tags|, i requires 0 <= i < |c.tags| => TagObject(c.tags[i]))))
  {
    assert Keys(CommentObject(c)) == ["text"] + (if |c.tags| > 0 then ["tags"] else []) + (if c.returnsText.Some? then ["returns"] else []);
  }

  /** A tag's `param` is written only when the tag names a parameter. */
  lemma TagParamWritten(t: CommentTag)
    ensures "param" in WrittenKeys(TagObject(t).fields) <==> t.paramName.Some?
  {
    var fs := TagObject(t).fields;
    WrittenKeysMembers(fs, "param");
    if t.paramName.Some? {
      assert fs[0].key == "param" && !fs[0].value.Undefined?;
    }
  }
}
