# Tanuki docs.json serializer, modelled in Dafny

Tanuki is a build tool for TypeScript libraries. This project models the part of it that turns
TypeDoc's reflection of a project into `docs.json`. Dafny checks that model against the properties
stated below. The model covers:

- **Type rendering** (`parseType`). A TypeDoc type descriptor becomes one line of TypeScript-like
  text. The type guards in `is.ts` pick the branch by the descriptor's `type` tag.
- **Serializers** for methods, constructors and type aliases. Each returns the fragment of a
  declaration's block that belongs to its kind.
- **The documentation walker** (`Documentation._traverseChild` and `serialize`). It builds one
  block per declaration. Classes and interfaces nest their members. Serializer fragments are merged
  in with object spread.
- **The internal generator** (`DocumentationGenerator.run` and `_traverseChild`). It refuses
  workspace projects and writes a flat block per root declaration.
- **The lint report** (`ESLint._prettifySource` and the totals in `lint`). This covers the numbered
  source frame around a message, the caret line, and the warning and error totals.
- **The ES-module wrapper** (`cjsToEsm`). It re-exports the own names of a CommonJS module, sorted.

JavaScript semantics the code relies on are written out rather than assumed:

- **`slice`**: negative indices count from the end, and bounds are clamped.
- **`join`**, `String(n)`, and `JSON.stringify`'s quoting and escaping.
- **Plain objects** are sequences of key–value entries in insertion order:
  - assignment overwrites in place, and `{ ...a, ...b }` lets `b` win;
  - `Object.keys` lists array-index keys first;
  - assigning `__proto__` adds no key;
  - `JSON.stringify` drops keys whose value is `undefined`.

Modules:

| file | module | what it holds |
|---|---|---|
| `wrappers.dfy` | `Wrappers` | `Option` |
| `text.dfy` | `Text` | join, slice, blankness, decimal text, JSON string quoting |
| `records.dfy` | `Records` | ordered objects: assignment, spread, `Object.keys` order |
| `typedoc_model.dfy` | `TypeDocModel` | TypeDoc's type descriptors, reflections, comments |
| `type_guards.dfy` | `TypeGuards` | `createIsType` and the fourteen guards |
| `type_render.dfy` | `TypeRender` | `parseType` |
| `json.dfy` | `Json` | the values a block holds; which keys `JSON.stringify` writes |
| `method_serializer.dfy` | `MethodSerializer` | `MethodSerializer.serialize` |
| `constructor_serializer.dfy` | `ConstructorSerializer` | `ConstructorSerializer.serialize` |
| `type_alias_serializer.dfy` | `TypeAliasSerializer` | `TypeAliasSerializer.serialize` |
| `documentation.dfy` | `Documentation` | the walker and the `docs.json` object |
| `docgen.dfy` | `Docgen` | the internal generator's `run` and `_traverseChild` |
| `eslint_frame.dfy` | `ESLintFrame` | the source frame, caret line and totals |
| `esm_wrapper.dfy` | `EsmWrapper` | `cjsToEsm` after the module is loaded |

Code that works by updating state step by step is modelled as methods with loops. Each method's
postcondition ties its result to a specification function, and lemmas prove the properties of that
function. This covers:

- the member and signature loops of `parseType`;
- the serializers' loops;
- the walker;
- the generator's `run`;
- `cjsToEsm`, which builds and shrinks a key set, sorts it and appends lines.

Pure code is written as functions.

## Model

| member | source | states |
|---|---|---|
| `TypeGuards.AtMostOneGuard` | src/lib/docs/util/is.ts:13-15 | no value satisfies two of the fourteen guards, because the tags are pairwise distinct |
| `TypeGuards.NonObjectSatisfiesNoGuard` | src/lib/docs/util/is.ts:13-15 | a value that is not an object satisfies no guard, whatever the tag |
| `TypeGuards.GuardReadsOnlyTypeField` | src/lib/docs/util/is.ts:14 | two values alike in objecthood and in their `type` field satisfy the same guards |
| `TypeGuards.GuardsMatchVariants` | src/lib/docs/util/is.ts:17-38 | for a well-tagged descriptor, each guard holds exactly for its own variant |
| `TypeGuards.TagsPairwiseDistinct` | src/lib/docs/util/is.ts:17-38 | the fourteen tag strings are pairwise different |
| `TypeRender.Render` | src/lib/docs/util/parse.ts:6-73 | `parseType` itself, one case per guard in the guards' order and `unknown` for a value no guard accepts; the rule of each branch is stated by the `TypeRender.Render…` lemmas below |
| `TypeRender.RenderArray` | src/lib/docs/util/parse.ts:7 | an array type renders as its element followed by `[]` |
| `TypeRender.RenderConditional` | src/lib/docs/util/parse.ts:8-13 | `C extends E ? T : F`, built from the four rendered parts |
| `TypeRender.RenderIndexedAccess` | src/lib/docs/util/parse.ts:15 | `O[I]` |
| `TypeRender.RenderIntersection` | src/lib/docs/util/parse.ts:16 | all members joined with ` & `, none dropped |
| `TypeRender.RenderPredicateAsserts` | src/lib/docs/util/parse.ts:17-18 | for a subject name without spaces, the text starts with `asserts ` if and only if `asserts` is set, or the subject is named `asserts` and has a target |
| `TypeRender.RenderPredicateTarget` | src/lib/docs/util/parse.ts:18 | a target type gives a trailing ` is T`; without a target (and with a subject name without spaces) ` is ` occurs nowhere |
| `TypeRender.RenderReference` | src/lib/docs/util/parse.ts:20-21 | the name, plus `<args>` exactly when the argument list is defined; an empty list gives `Name<>` |
| `TypeRender.RenderObjectMembers` | src/lib/docs/util/parse.ts:26-34 | the members loop produces the object text of the member entries |
| `TypeRender.RenderCallSignatures` | src/lib/docs/util/parse.ts:37-51 | the signatures loop produces the newline-joined call-signature texts |
| `TypeRender.RenderReflection` | src/lib/docs/util/parse.ts:23-55 | the reflection branch as run equals the rendering function on that descriptor |
| `TypeRender.RenderObjectPlain` | src/lib/docs/util/parse.ts:26-34 | with distinct ordinary member names, the text is one `name: type` line per typed member, in order, joined by `,\n` inside `{\n…\n}` |
| `TypeRender.MemberBlockPlain` | src/lib/docs/util/parse.ts:27-30 | with distinct ordinary names, the member loop only appends, in declaration order |
| `TypeRender.MemberBlockSkipsProto` | src/lib/docs/util/parse.ts:29 | a member named `__proto__` never becomes a key of the block |
| `TypeRender.RenderObjectUntyped` | src/lib/docs/util/parse.ts:26-34 | when no member has a type, the text is `{\n\n}` |
| `TypeRender.RenderEmptyReflection` | src/lib/docs/util/parse.ts:54 | a reflection with no members and no signatures renders as `{}` |
| `TypeRender.CallSignatureShape` | src/lib/docs/util/parse.ts:42-47 | each signature reads `(…) => R`, R the rendered return type or `unknown` |
| `TypeRender.CallSignatureWithoutParameters` | src/lib/docs/util/parse.ts:42-47 | a signature without a parameter list reads `(...args: any[]) => R` |
| `TypeRender.RenderLiteral` | src/lib/docs/util/parse.ts:57-60 | strings in single quotes without escaping; integers in decimal; `true`/`false`; `null` |
| `TypeRender.RenderTuple` | src/lib/docs/util/parse.ts:62 | the elements in brackets, joined with `, `; undefined elements give `[]` |
| `TypeRender.RenderTypeOperator` | src/lib/docs/util/parse.ts:63 | the operator, a space, then the target |
| `TypeRender.RenderUnion` | src/lib/docs/util/parse.ts:64-68 | the non-blank member texts joined with the spaced bar separator, in order; every non-blank member text is kept and no blank one is |
| `TypeRender.RenderUnionCases` | src/lib/docs/util/parse.ts:64-68 | with no blank member it is the plain join; with only blank members it is the empty string |
| `TypeRender.UnionIntersectionAsymmetry` | src/lib/docs/util/parse.ts:16 | a member rendering as `""` is dropped from a union but leaves a leading ` & ` in an intersection |
| `TypeRender.RenderNamed` | src/lib/docs/util/parse.ts:70 | inferred, intrinsic and unknown-tagged descriptors render as their name |
| `TypeRender.RenderUnmatched` | src/lib/docs/util/parse.ts:72 | a value that no guard accepts renders as `unknown` |
| `TypeRender.RenderNonObject` | src/lib/docs/util/parse.ts:72 | a non-object (such as `undefined` from `type!`) renders as `unknown` |
| `TypeRender.RenderMaybeUndefined` | src/lib/docs/util/parse.ts:72 | rendering an absent type gives `unknown` |
| `TypeRender.RenderExampleReference` | src/lib/docs/util/parse.ts:20-21 | `Foo<T>` for a reference with one argument |
| `TypeRender.RenderExampleArrayAndLiterals` | src/lib/docs/util/parse.ts:7 | `string[]`, `'hello'` and `42` |
| `TypeRender.RenderExampleUnion` | src/lib/docs/util/parse.ts:64-68 | a union of `string` and `null` renders as those two names around the spaced bar separator |
| `Text.KeepNonBlankMembers` | src/lib/docs/util/parse.ts:67 | the union filter keeps exactly the parts that are not blank after trimming, in order |
| `Text.NatToStringRoundTrip` | src/lib/docs/util/parse.ts:59 | reading back the decimal text of `String(n)` gives `n` |
| `Text.RelativeIndex` | src/lib/ESLint.ts:89 | a `slice` bound lies in `[0, len]`, equals the index inside that range, and counts from the end when negative |
| `Text.JsonQuotePlain` | src/internal/utils.ts:61 | `JSON.stringify` of a string with no quote, backslash or control character is the string in double quotes |
| `Records.PutFind` | src/lib/docs/util/parse.ts:29 | after `obj[k] = v`, `k` reads `v` and every other key reads as before |
| `Records.PutKeys` | src/lib/docs/util/parse.ts:29 | assignment keeps every key in place and appends a new key at the end |
| `Records.SpreadFind` | src/lib/Documentation.ts:149-152 | in `{ ...base, ...fragment }` a key of the fragment reads its last value there; any other key reads as in `base` |
| `Records.SpreadKeys` | src/lib/Documentation.ts:149-152 | the spread keeps `base`'s keys first, in order, and has exactly the keys of both |
| `Records.OwnPropertyOrderNamed` | src/lib/docs/util/parse.ts:32 | without array-index keys, `Object.keys` is creation order |
| `Json.CommentEntry` | src/lib/docs/MethodSerializer.ts:71 | the conditional comment assignment adds one `comment` entry exactly when there is a comment |
| `Json.WrittenKeysMembers` | src/lib/docs/MethodSerializer.ts:58 | a key is written by `JSON.stringify` exactly when some entry carries it with a value other than `undefined` |
| `MethodSerializer.TypeObject` | src/lib/docs/MethodSerializer.ts:37-40 | `{ type, value }`: the raw descriptor and its rendering |
| `MethodSerializer.Serialize` | src/lib/docs/MethodSerializer.ts:29-77 | the loop produces `{ signatures: [...] }` with one serialized entry per signature, in order |
| `MethodSerializer.SignatureFields` | src/lib/docs/MethodSerializer.ts:36-71 | the keys are `type`, `as_string`, `params`, `return_type`, then `comment` exactly when the signature has one; `type` and `return_type` are the same object |
| `MethodSerializer.AsStringShape` | src/lib/docs/MethodSerializer.ts:42-48 | `name(…): R`; without a parameter list it is `name(): R` |
| `MethodSerializer.EmptyAndAbsentParameters` | src/lib/docs/MethodSerializer.ts:42-50 | an empty and an absent parameter list give the same text, but `params: []` against no `params` key |
| `MethodSerializer.ParamsWritten` | src/lib/docs/MethodSerializer.ts:50-63 | `params` is written exactly when there is a parameter list, and then holds one object per parameter, in order |
| `MethodSerializer.ParamWrittenKeys` | src/lib/docs/MethodSerializer.ts:51-61 | `default_value` is written exactly when there is a default, and `comment` exactly when there is a comment; `name` and `type` are always written |
| `MethodSerializer.FragmentShape` | src/lib/docs/MethodSerializer.ts:30-34 | one key `signatures`, one entry per signature; with no or an empty signature list it is `{ signatures: [] }` |
| `ConstructorSerializer.Serialize` | src/lib/docs/ConstructorSerializer.ts:30-61 | the loop produces the fragment of the typed signatures, then the constructor's comment |
| `ConstructorSerializer.TypedSignaturesMembers` | src/lib/docs/ConstructorSerializer.ts:36-40 | the loop keeps exactly the signatures that have a type, and only those |
| `ConstructorSerializer.TypedSignaturesAll` | src/lib/docs/ConstructorSerializer.ts:36-40 | when every signature has a type, none is skipped |
| `ConstructorSerializer.TagValue` | src/lib/docs/ConstructorSerializer.ts:44 | `type.type` is `undefined` exactly when the descriptor has no tag |
| `ConstructorSerializer.TagValueMatchesGuard` | src/lib/docs/ConstructorSerializer.ts:44 | `type.type` is the tag that the matching guard tests for |
| `ConstructorSerializer.MethodTextExtendsConstructorText` | src/lib/docs/ConstructorSerializer.ts:48-52 | a constructor's text is the method text without the `: R` suffix |
| `ConstructorSerializer.FragmentKeys` | src/lib/docs/ConstructorSerializer.ts:32-59 | the keys are `signatures`, then `comment` exactly when the constructor has one, holding that comment |
| `ConstructorSerializer.FragmentSignatures` | src/lib/docs/ConstructorSerializer.ts:36-56 | `signatures` has one entry per typed signature, at most as many as there are signatures |
| `ConstructorSerializer.SignatureFields` | src/lib/docs/ConstructorSerializer.ts:42-55 | the keys are `type`, `as_string`, then `comment` exactly when there is one; the text is `name(…)` |
| `TypeAliasSerializer.Serialize` | src/lib/docs/TypeAliasSerializer.ts:29-41 | the keys are `type_params`, `type`, `as_string`; `type` is the descriptor beside its rendering |
| `TypeAliasSerializer.AsStringShape` | src/lib/docs/TypeAliasSerializer.ts:37-39 | the text starts with `type Name` and ends with ` = R`; without type parameters it is exactly `type Name = R` |
| `TypeAliasSerializer.TypeParamsWritten` | src/lib/docs/TypeAliasSerializer.ts:31 | `type_params` is written exactly when there is a type-parameter list, one `{ name }` per parameter, in order |
| `TypeAliasSerializer.MissingType` | src/lib/docs/TypeAliasSerializer.ts:33-39 | an alias without a type is still serialized, with its type text `unknown` |
| `TypeAliasSerializer.AsStringExample` | src/lib/docs/TypeAliasSerializer.ts:37-39 | `type Pair<A, B> = [A, B]` |
| `Documentation.Base` | src/lib/Documentation.ts:128-133 | the base block's keys are `name`, `kind`, then `comment` when the declaration has one |
| `Documentation.TraverseChild` | src/lib/Documentation.ts:127-245 | the walker as run produces the block function's result |
| `Documentation.TraverseMembers` | src/lib/Documentation.ts:139-142 | the members loop sets `children` to the members' blocks, in order |
| `Documentation.ChildBlock` | src/lib/Documentation.ts:127-245 | the block of one declaration: the base block, with `children` for classes and interfaces, `getters`/`setters` for accessors, the serializer's fragment spread over it for the serialized kinds, unchanged otherwise; `Documentation.TraverseChild` is proved equal to it and the lemmas below state its keys |
| `Documentation.Output` | src/lib/Documentation.ts:99-120 | the `docs.json` object: format version, the root blocks in order, the clock reading; `Documentation.OutputShape` states its shape |
| `Documentation.Serialize` | src/lib/Documentation.ts:99-120 | the output is the `docs.json` object function of the root declarations and the clock |
| `Documentation.BaseKeysLead` | src/lib/Documentation.ts:128-133 | every block starts with the base keys, in order; no serializer moves them |
| `Documentation.FragmentWins` | src/lib/Documentation.ts:146-228 | in a spread-merged block, a key of the fragment reads the fragment's value; any other key reads as in the base |
| `Documentation.MethodBlock` | src/lib/Documentation.ts:196-204 | a method's keys are the base keys followed by `signatures`, holding the method serializer's array |
| `Documentation.ConstructorBlock` | src/lib/Documentation.ts:146-154 | a constructor's keys are the base keys followed by `signatures`; the comment keeps its place and value |
| `Documentation.TypeAliasBlock` | src/lib/Documentation.ts:220-228 | a type alias's keys are the base keys followed by `type_params`, `type`, `as_string` |
| `Documentation.ContainerChildren` | src/lib/Documentation.ts:137-144 | a class or interface has `children` exactly when it has a member list, one block per member, in order |
| `Documentation.AccessorKeys` | src/lib/Documentation.ts:206-218 | `getters` exactly when there is a get signature and `setters` exactly when there is a set signature, holding the serialized signatures; the keys are the base keys followed by those two and no other |
| `Documentation.UnhandledKind` | src/lib/Documentation.ts:239-241 | a kind the walker does not handle keeps the base block unchanged |
| `Documentation.OutputShape` | src/lib/Documentation.ts:99-120 | the keys are `format_version` (1), `children`, `date`, with one block per root declaration (none without children) |
| `Docgen.TraverseChild` | src/internal/Docgen.ts:171-198 | the block as run equals the block function |
| `Docgen.Block` | src/internal/Docgen.ts:171-198 | one root declaration's block: name, kind, `flags.public`, then the comment object when the comment is visible; `Docgen.BlockKeys` states its keys |
| `Docgen.Document` | src/internal/Docgen.ts:147-165 | the written document: format version, time, `workspaces: false`, one block per root declaration; `Docgen.DocumentShape` states its shape |
| `Docgen.RunOutcome` | src/internal/Docgen.ts:108-169 | the outcome of `run` in the order of its early returns; `Docgen.WorkspacesRefused` and `Docgen.WrittenExactly` state when each happens |
| `Docgen.Run` | src/internal/Docgen.ts:108-169 | `run`'s outcome equals the outcome function of the options and TypeScript's and TypeDoc's answers |
| `Docgen.EntryPoints` | src/internal/Docgen.ts:127 | the entry points are `src/index.ts` unless the options name some |
| `Docgen.DefaultOptionsRun` | src/internal/Docgen.ts:108-132 | without options, `run` uses `./tsconfig.json`, is not refused as a workspace and hands TypeDoc `src/index.ts` |
| `Docgen.WorkspacesRefused` | src/internal/Docgen.ts:117-120 | any `workspaces` option, even `false`, stops the run, and nothing else does that |
| `Docgen.WrittenExactly` | src/internal/Docgen.ts:117-145 | a document is written exactly when there is no workspaces option, the tsconfig was read without a fatal error, and the project was converted |
| `Docgen.DocumentShape` | src/internal/Docgen.ts:148-165 | the keys are `format_version` (1), `generated_at`, `workspaces` (false), `children`, with one block per root declaration |
| `Docgen.BlockKeys` | src/internal/Docgen.ts:172-194 | `name`, `kind`, `flags` (holding `public`), then `comment` exactly when the declaration has a visible comment; never `children` |
| `Docgen.CommentObjectKeys` | src/internal/Docgen.ts:181-193 | `text`, then `tags` exactly when there are tags (one object each, in order), then `returns` exactly when there is a returns text |
| `Docgen.TagParamWritten` | src/internal/Docgen.ts:186-190 | a tag's `param` is written exactly when the tag names a parameter |
| `ESLintFrame.SplitLines` | src/lib/ESLint.ts:82 | splitting always gives at least one line |
| `ESLintFrame.SplitLinesJoin` | src/lib/ESLint.ts:82 | no line holds a line feed, and a text without carriage returns is its lines joined by line feeds |
| `ESLintFrame.PrettifySource` | src/lib/ESLint.ts:78-103 | `_prettifySource`: empty without output text, else the frame lines joined by line feeds; `ESLintFrame.NoOutputNoFrame`, `FrameWindow`, `OneCaret` and `FrameGuttersAligned` state its properties |
| `ESLintFrame.CaretLine` | src/lib/ESLint.ts:94-97 | the caret line as written: the gutter without digits, the tabs among the first `column - 1` characters, then `^`; `ESLintFrame.CaretLineShape` and `CaretMissesColumn` state its shape and its misalignment |
| `ESLintFrame.NoOutputNoFrame` | src/lib/ESLint.ts:79 | without output text, or with an empty one, there is no frame |
| `ESLintFrame.FrameWindow` | src/lib/ESLint.ts:83-91 | for a line inside the text, the frame shows lines `max(line-3,0)` to `min(line+2,#lines)`, numbered from one more than the start |
| `ESLintFrame.OneCaret` | src/lib/ESLint.ts:93-100 | only the reported line is followed by a caret line; every other line is its gutter and its text |
| `ESLintFrame.CaretLineShape` | src/lib/ESLint.ts:94-97 | the caret line is the gutter without digits, then only tab characters, then `^` |
| `ESLintFrame.GutterAligned` | src/lib/ESLint.ts:92 | a number whose length is the width, or one less, gets a gutter of width + 4 characters ending in the number, a space, a bar and a space |
| `ESLintFrame.FrameGuttersAligned` | src/lib/ESLint.ts:85-92 | every gutter of a frame has the same length, so the source lines start in one column |
| `ESLintFrame.CaretMissesColumn` | src/lib/ESLint.ts:94-97 | for `let x = y;` at line 1, column 5, the caret stands at index 5 of its line while the `x` stands at index 9 of the numbered line |
| `ESLintFrame.AlignedCaretUnderColumn` | src/lib/ESLint.ts:94-97 | the corrected caret line is blank up to the caret, which is exactly under the reported column |
| `ESLintFrame.Summary` | src/lib/ESLint.ts:56-59 | the summary line with the warning total and the reported error total, without colours; `ESLintFrame.ReportedErrorsMissError` shows it reporting no error for a file with one |
| `ESLintFrame.ReportedErrorsAreWarnings` | src/lib/ESLint.ts:56-57 | as written, the reported error total always equals the warning total |
| `ESLintFrame.ReportedErrorsMissError` | src/lib/ESLint.ts:57-59 | one file with one error and no warning is reported with zero errors, and the summary line shows 0 warnings and 0 errors |
| `ESLintFrame.ErrorTotalAppend` | src/lib/ESLint.ts:57 | the corrected error total adds up over any split of the results |
| `ESLintFrame.ErrorTotalZero` | src/lib/ESLint.ts:57 | the corrected error total is zero exactly when no file has an error |
| `EsmWrapper.ExportedKeys` | src/internal/utils.ts:51-58 | a name is kept if and only if it is an own name, is not `__esModule`, the module is a function or an object, and for a function it is not a built-in |
| `EsmWrapper.CollectKeys` | src/internal/utils.ts:51-58 | building the set, deleting, and clearing give exactly the kept names |
| `EsmWrapper.NormalizeRelPath` | src/internal/utils.ts:60 | the path starts with `./` or `../` or is `..`; a path already in that form is unchanged; any other path gets `./` in front |
| `EsmWrapper.NormalizeIdempotent` | src/internal/utils.ts:60 | normalising twice is normalising once |
| `EsmWrapper.SortKeys` | src/internal/utils.ts:64 | the sort produces the one strictly increasing listing of the key set |
| `EsmWrapper.SortedUnique` | src/internal/utils.ts:64 | two strictly sorted listings of the same set are equal |
| `EsmWrapper.LessTransitive` | src/internal/utils.ts:64 | the default string order is transitive |
| `EsmWrapper.LessTotal` | src/internal/utils.ts:64 | of two different strings, one sorts before the other |
| `EsmWrapper.AppendExports` | src/internal/utils.ts:64-66 | the loop appends one export line per key that is a valid identifier, in order |
| `EsmWrapper.CjsToEsm` | src/internal/utils.ts:48-70 | the text built step by step is the import, the export block of the sorted valid keys, and the default export |
| `EsmWrapper.ValidKeysMembers` | src/internal/utils.ts:65 | the identifier test keeps exactly the valid keys, and keeps them sorted |
| `EsmWrapper.ExportedNames` | src/internal/utils.ts:51-66 | exactly the valid own names are exported, other than `__esModule`, a function's built-ins, and all names of a non-object module; each once, in sorted order |
| `EsmWrapper.OtherModuleExportsNothing` | src/internal/utils.ts:56-57 | a module that is neither a function nor an object gets only the import and the default export |
| `EsmWrapper.WrapperFrame` | src/internal/utils.ts:61-68 | the text starts with the import from the normalised, quoted path, and ends with `export default mod;` |

## Left out

- **I/O, clocks and logging.** Not modelled:
  - printing, spinners and colours;
  - creating and deleting the `docs` directory;
  - writing and reading `tmp.json` and `docs.json`;
  - `Date.now()` and `new Date()`, which become parameters;
  - the message-logging loop of `lint`, and the summary line's colours.
- **TypeDoc and TypeScript calls.** Bootstrapping TypeDoc, `convert`, and reading a tsconfig
  (`_findTsconfig`, `getTsConfig`) are calls into libraries that are not part of this model.
  `Docgen.Run` takes their answers as parameters: tsconfig found, fatal diagnostic, and the
  converted project. The `tsconfig` option is passed through only. `run`'s default argument
  `{ tsconfig: './tsconfig.json' }` is `Docgen.DefaultOptions`, which a caller passes explicitly.
- **Other serializers.** The property, variable, enum, function, getter and setter serializers are
  not part of this model. `Documentation` takes them as given functions, so what they return is
  arbitrary there.
- **Module loading.** `require.resolve` and `require` in `cjsToEsm` are not modelled. The caller
  passes what `typeof` says of the module and its own property names.
  - `is-valid-identifier` is a parameter.
  - Sorting compares characters by code point, where JavaScript compares UTF-16 code units. The two
    orders differ only for characters outside the Basic Multilingual Plane.
- **Numbers.** Numeric literal types are integers: floating-point and `bigint` literals, and their
  `String` forms, are not modelled.
- `TypeDocModel`: `kindString` is always present. A literal's value is a string, an integer, a
  boolean or `null`.
- `TypeRender.Render`: an object whose `type` is a known tag but that lacks the variant's fields
  (`OtherValue(ObjectWithTag(Some("array")))`, say) renders as `unknown`. The source follows the
  tag's branch instead: `unknown[]` for an `array` tag, and a TypeError for a `union` or
  `intersection` tag without `types`. `TypeGuards.GuardsMatchVariants` assumes well-tagged
  descriptors for that reason.
- `TypeRender.Render`: a reflection descriptor always has its declaration here. The source
  destructures `type.declaration!`, which throws a TypeError when the declaration is missing; that
  throwing case is excluded from the model.
- `ConstructorSerializer.TagValue`: a signature type that is `null` is not modelled as the source
  runs it. The `=== undefined` test lets `null` through, and `signature.type!.type` then throws a
  TypeError. In the model such a type is a value without a tag, and the signature gets an
  undefined `type.type` and the text `unknown` instead of the throw.
- `Docgen.TagObject`: a tag's parameter name is optional here, where TypeDoc may always supply a
  string, possibly empty. In that case `param` is always written.
- `Docgen.HasComment`: what TypeDoc's `hasComment()` (its `hasVisibleComponent`) answers is the
  `commentVisible` field, not computed.
- `TypeAliasSerializer.Serialize`: the source writes `decl.type!`. The assertion has no effect when
  the code runs, so the serializer is total here: a missing type gives an undefined `type.type`
  and the text `unknown`. It does not require a type.
- `ConstructorSerializer.Serialize` requires a signature list, because iterating
  `declaration.signatures!` throws without one. `Documentation.Serializable` carries that demand up
  through classes and interfaces.
- `ESLintFrame.CaretLine`: columns and the slice of the line before the column count code points
  (characters of `string`), where `line.slice(0, column - 1)` and ESLint's columns count UTF-16
  code units. For a line holding a character outside the Basic Multilingual Plane, such as
  `"😀\tx"` at column 3, the source slices the surrogate pair alone and keeps no tab, while the
  model keeps one. `ESLintFrame.PrettifySource` inherits this.
- `ESLintFrame.CaretLine` and `ESLintFrame.PrettifySource` follow the code as written. The
  corrected caret (`ESLintFrame.AlignedCaretLine`) and the corrected total
  (`ESLintFrame.ErrorTotal`) stand beside them; they are not substituted into the report text.

## Findings

| source | as written | input that shows it | evidently intended | confidence | as-written member | corrected member |
|---|---|---|---|---|---|---|
| src/lib/ESLint.ts:57 | the error total sums `warningCount` | one result with `errorCount` 1 and `warningCount` 0: the summary reports 0 errors | sum `errorCount` | high, not executed | `ESLintFrame.ReportedErrorsMissError` | `ESLintFrame.ErrorTotalZero` |
| src/lib/ESLint.ts:94-97 | the caret padding deletes the gutter's digits and every non-tab character of the code before the column, and adds one space of its own | line 1 `let x = y;`, column 5: the caret sits at index 5 of its line (three spaces, a bar, a space), while the `x` sits at index 9 of the numbered line | blank those characters instead of deleting them, so the caret sits under the column | medium, not executed | `ESLintFrame.CaretMissesColumn` | `ESLintFrame.AlignedCaretUnderColumn` |
