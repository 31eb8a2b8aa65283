# parseJsDoc, modelled in Dafny

This project models `src/utils/parseJsDoc.js` from react-docgen. That file turns
one JSDoc comment into the record `{ description, params, returns }` that the
documentation generator attaches to a component's methods. It has two halves:

- **The type normaliser** (`getType`). It takes the annotation tree that the
  jsdoctypeparser grammar builds for a type expression such as `{Array<string>}`.
  It turns that tree into a minimal recursive shape `{ name, elements? }`:
  - `NAME` gives the identifier.
  - `UNION` gives `"union"` with its two branches, left then right.
  - `OPTIONAL` gives the expression text without its trailing `=`.
  - `ANY` gives `"mixed"`.
  - `GENERIC` gives the subject's name and the normalised type arguments.
  - `TUPLE` gives `"tuple"` and the normalised entries.
  - Every other kind gives `null`.
- **The assembly** (`getOptional`, `getReturnsJsDoc`, `getParamsJsDoc`,
  `parseJsDoc`). It takes the first comment block that comment-parser
  produces. It keeps the block's description. It builds one parameter
  descriptor per `@param` tag, in source order. It builds a returns descriptor
  from the first `@returns`/`@return` tag.

Modules:

- `Results` (results.dfy): `Option` for `null`, and `Result` for a value or an
  escaping exception. It also holds `MapResult`, which is `Array.prototype.map`
  with a callback that may throw.
- `Text` (text.dfy): `s || null`, the first-occurrence `String.prototype.replace`,
  and `replace(/=$/, '')`.
- `TypeNormalizer` (type_normalizer.dfy): the annotation tree `Node`, the
  normalised shape `NType`, and the two entry points of `getType`.
  `NormalizeNode` takes a parsed tree. `Normalize` takes a type string.
- `TypeNormalizerProps` (type_normalizer_props.dfy): the normaliser's properties.
- `DocAssembler` (doc_assembler.dfy): tags, blocks, descriptors and the four
  assembly functions.
- `DocAssemblerProps` (doc_assembler_props.dfy): the assembly's properties.

The two libraries the file imports are outside the model:

- **jsdoctypeparser** enters as the parameter `parse: Parser`. It is a total
  function from the expression text to either a tree or the message of the
  syntax error it throws. Every property holds for every such function.
- **comment-parser** is not modelled. Its output, a sequence of blocks each with
  a description and its tags, is the input of `ParseJsDoc`.

Exceptions that escape the source become `Failure` values of type `Error`:

- `SyntaxError`: the grammar parser rejects a type expression.
- `ReplaceOnNode`: an `OPTIONAL` node is reached below the root. The source then
  calls `replace` on a tree object instead of a string.
- `TagsMissing`: a block has no `tags`, and `tags.find` fails.
- `BlockMissing`: comment-parser returns no block, and the source reads `tags`
  of `undefined`.

When several errors are possible, the model raises the one JavaScript's
evaluation order raises first:

- params are built before returns;
- within a parameter, the type is built before its optionality;
- a map stops at its first failing element.

Some consequences of following the code closely:

- `parseJsDoc` throws when comment-parser returns no block, and when the block
  has no `tags` (the throw comes from `getReturnsJsDoc`).
- A normalised `name` can be `undefined`: `GENERIC` reads `subject.name`, and
  some subject nodes have no `name` field. So `NType.name` is an `Option`.
- An entry of `elements` is `null` when its child has an unsupported kind, so
  elements are `Option<NType>`.
- The overall description is the description of the first comment block.

## Model

| member | source | states |
|---|---|---|
| TypeNormalizer.NormalizeNode | src/utils/parseJsDoc.js:37-70 | A `NAME` node gives `{name}` with no elements. `ANY` gives exactly `{name: "mixed"}`. Any other kind gives `null`. An `OPTIONAL` node reached as a node throws. A union has name `"union"` and exactly two elements. A generic keeps its subject's name and one element per argument. A tuple is named `"tuple"` with one element per entry. Only these three composite kinds carry `elements`. Every error is the failed `replace`. |
| TypeNormalizer.NormalizeAll | src/utils/parseJsDoc.js:59 | `objects.map(getType)` returns one result per node, or else the failed `replace`. |
| TypeNormalizer.Normalize | src/utils/parseJsDoc.js:27-51 | An empty type string gives `null`. For a non-empty string, a syntax error from the grammar parser escapes as that error with its message. A `SyntaxError` result always carries the parser's message. A string that parses as `OPTIONAL` gives the flat name of the string with at most one trailing `=` removed, and unchanged if it has no trailing `=`. A result without elements always has a name. |
| TypeNormalizerProps.NormalizeParsedTree | src/utils/parseJsDoc.js:32-37 | A non-empty string whose parse is a tree other than `OPTIONAL` normalises exactly as that tree does. So the node-level properties hold for the types the assembly produces. |
| TypeNormalizerProps.NormalizeNodeFailsIff | src/utils/parseJsDoc.js:41-66 | Normalising a parsed tree throws exactly when the tree has an `OPTIONAL` node under a union branch, a generic argument or a tuple entry, or at its root. The error is then always the failed `replace`. |
| TypeNormalizerProps.NormalizeAllFailsIff | src/utils/parseJsDoc.js:59 | Mapping a list of nodes throws exactly when one of them reaches an `OPTIONAL` node. |
| TypeNormalizerProps.NormalizeAllPointwise | src/utils/parseJsDoc.js:59 | The map succeeds exactly when every node normalises. Its k-th element is then the k-th node normalised, so count and order are kept. |
| TypeNormalizerProps.NormalizeUnion | src/utils/parseJsDoc.js:41-48 | A union normalises exactly when both branches do. Its elements are then the left branch, then the right branch, each normalised and not reordered. |
| TypeNormalizerProps.NormalizeGeneric | src/utils/parseJsDoc.js:55-60 | A normalised generic has the subject's name, `|elements| == |objects|`, and `elements[i]` is the normalised `objects[i]`. |
| TypeNormalizerProps.NormalizeTuple | src/utils/parseJsDoc.js:61-66 | A normalised tuple has name `"tuple"`, `|elements| == |entries|`, and `elements[i]` is the normalised `entries[i]`. |
| TypeNormalizerProps.NormalizeOptionalIsFlat | src/utils/parseJsDoc.js:49-51 | When `t=` parses as `OPTIONAL`, the result is the flat name `t` with no elements. The tree under the marker is not normalised. |
| TypeNormalizerProps.NormalizeSucceedsIff | src/utils/parseJsDoc.js:27-70 | The string entry point returns normally exactly when: the string is empty; or it parses to a tree with `OPTIONAL` at the root; or it parses to a tree that reaches no `OPTIONAL` node. |
| Text.OrNull | src/utils/parseJsDoc.js:107 | `s \|\| null` is `null` exactly for the empty string, and `s` otherwise. |
| Text.IndexOf | src/utils/parseJsDoc.js:89 | The index found is an occurrence of the pattern with no earlier one. There is no index exactly when the pattern occurs nowhere. |
| Text.RemoveFirst | src/utils/parseJsDoc.js:89 | Without an occurrence the string is unchanged. Otherwise it loses exactly the pattern's length. |
| Text.RemoveFirstReinsert | src/utils/parseJsDoc.js:89 | Putting the pattern back at the first occurrence's index restores the original string. |
| Text.RemoveFirstPrefix | src/utils/parseJsDoc.js:89 | A string that starts with the pattern loses exactly that prefix. |
| Text.StripOptionalMarker | src/utils/parseJsDoc.js:51 | A string ending in `=` equals the result followed by one `=`. Any other string is returned unchanged. |
| Text.StripOptionalMarkerAppended | src/utils/parseJsDoc.js:51 | Stripping undoes appending `=`, and removes only one `=`: `t==` becomes `t=`. |
| DocAssembler.GetOptional | src/utils/parseJsDoc.js:73-78 | The result is true exactly when the tag has a type and either its bracket flag is set or its type parses as `OPTIONAL`. So a tag without a type is never optional, whatever its flag says. A syntax error escapes exactly when the type is present, the flag is unset and the type does not parse. |
| DocAssembler.FindReturnTag | src/utils/parseJsDoc.js:82-84 | The index found holds a `returns` or `return` tag and no earlier tag is one. There is no index exactly when no tag is a return tag. |
| DocAssembler.ReturnDescription | src/utils/parseJsDoc.js:86-89 | For a typed tag, the description is the tag's own, with empty becoming `null`. For an untyped tag, it is the raw tag text with the first `@<tag> ` cut out, with empty becoming `null`. It is never longer than the raw text. |
| DocAssembler.GetReturns | src/utils/parseJsDoc.js:81-96 | A block without tags throws. The result is `null` exactly when the tags hold no return tag. |
| DocAssembler.ParamTags | src/utils/parseJsDoc.js:104 | Every tag kept is a `param` tag taken from the input. Every `param` tag of the input is kept. |
| DocAssembler.ParamDocOf | src/utils/parseJsDoc.js:105-110 | A descriptor carries the tag's name, its description with empty becoming `null`, its normalised type and its optionality. It fails exactly when the type or the optionality throws. The type is built first: a type error is the one that escapes, and an optionality error escapes only when the type succeeded. |
| DocAssembler.GetParams | src/utils/parseJsDoc.js:99-111 | Absent tags give no params. Otherwise there is one descriptor per `param` tag. |
| DocAssembler.ParseJsDoc | src/utils/parseJsDoc.js:113-122 | No block throws, and a block without tags throws. A block with an empty tag list gives its description, no params and no returns. Given a block, the result succeeds exactly when both the params and the returns of the first block succeed. Params are built first: their error is the one that escapes, and a returns error escapes only when the params succeeded. On success the description, params and returns are those of the first block. |
| DocAssemblerProps.ParamTagsAppend | src/utils/parseJsDoc.js:103-104 | Filtering a concatenation is the concatenation of the filtered parts, so source order is kept. |
| DocAssemblerProps.ParamTagsCounts | src/utils/parseJsDoc.js:104 | Each `param` tag is kept as often as it occurs, and every other tag is dropped. |
| DocAssemblerProps.GetParamsPointwise | src/utils/parseJsDoc.js:103-110 | The params are built exactly when every `param` tag can be described. The k-th descriptor then has the k-th `param` tag's name, description (empty becoming `null`), normalised type and optionality. |
| DocAssemblerProps.GetParamsFirstFailure | src/utils/parseJsDoc.js:103-110 | When the params cannot be built, the error is that of the first `param` tag that cannot be described, and every `param` tag before it can be described. |
| DocAssemblerProps.GetParamsAppend | src/utils/parseJsDoc.js:99-111 | The params of concatenated tag lists are the params of each list, in order. |
| DocAssemblerProps.GetReturnsFirst | src/utils/parseJsDoc.js:82-93 | The returns descriptor is built from the first return tag alone. It holds that tag's description and normalised type, or the normaliser's error. |
| DocAssemblerProps.GetReturnsIgnoresLater | src/utils/parseJsDoc.js:82-84 | Once a list has a return tag, appending more tags, including further return tags, does not change the descriptor. |
| DocAssemblerProps.ReturnDescriptionUntyped | src/utils/parseJsDoc.js:87-89 | For an untyped return tag whose raw text is `@<tag> ` followed by `rest`, the description is `rest`, with empty becoming `null`. |
| DocAssemblerProps.ReturnDescriptionNoMarker | src/utils/parseJsDoc.js:87-89 | For an untyped return tag whose raw text has no `@<tag> ` anywhere, the description is the whole raw text, with empty becoming `null`. |
| DocAssemblerProps.BareReturnsTag | src/utils/parseJsDoc.js:87-89 | An untyped tag `returns` whose raw text is exactly `@returns` has no trailing space to match, so its description is `"@returns"`. |
| DocAssemblerProps.GetReturnsUntypedHasNoType | src/utils/parseJsDoc.js:92 | A first return tag without a type gives a `null` type, with the fallback description. |
| DocAssemblerProps.ParamOptionalConventions | src/utils/parseJsDoc.js:105-110 | A `param` tag typed `t=` that parses as `OPTIONAL` is optional without the bracket flag, and its type is the flat name `t`. |
| DocAssemblerProps.AddsTwoNumbers | src/utils/parseJsDoc.js:113-122 | A block described as `Adds two numbers.` holds three tag records: `param` `a` and `param` `b`, both typed `number` with descriptions, then `returns` typed `number` with description `the sum`. For any parser that reads `number` as a name, the result has two params `a` and `b` of type `{name: "number"}`, not optional, with their descriptions. Its returns is `{description: "the sum", type: {name: "number"}}`. |
| Results.MapResult | src/utils/parseJsDoc.js:105-110 | A successful map has one entry per element. |
| Results.MapResultPointwise | src/utils/parseJsDoc.js:105-110 | The map succeeds exactly when every callback does. Its k-th entry is then the callback's result for the k-th element. |
| Results.MapResultFirstFailure | src/utils/parseJsDoc.js:105-110 | A failing map fails with the error of the first element whose callback throws. Every element before it succeeds. |
| Results.MapResultAppend | src/utils/parseJsDoc.js:105-110 | Mapping a concatenation gives the concatenation of the mapped parts. |

## Left out

- comment-parser's tokenisation, and the `/** … */` wrapping of the docblock (src/utils/parseJsDoc.js:114). These are foreign text processing. `ParseJsDoc` takes the blocks comment-parser would return. Tag fields that comment-parser leaves empty are `""`.
- The jsdoctypeparser grammar (src/utils/parseJsDoc.js:10, 34, 76). It is the `parse` parameter, with its thrown error as a `Failure` result. Properties hold for every parser function. The parser is assumed deterministic: `getOptional` re-parses the same string.
- Node kinds other than the six the switch names are one constructor, `Unsupported`. It keeps only the `name` field that a generic subject may read. Their other fields are never looked at.
- The runtime check `tagType?.type` (src/utils/parseJsDoc.js:32-34) is two entry points. `Normalize` takes a string. `NormalizeNode` takes a tree. The source only ever passes strings from outside and trees from inside.
- The Flow type `JsDoc` (src/utils/parseJsDoc.js:13-25) is a declaration with no behaviour. The datatypes `JsDoc`, `ParamDoc` and `ReturnDoc` take its place. In the model the `optional` field is always present, because the source always sets it.
- DocAssembler.GetParams: its own contract gives only the count. The per-descriptor content and the success condition are stated by `DocAssemblerProps.GetParamsPointwise`. The error that escapes is stated by `DocAssemblerProps.GetParamsFirstFailure`.
- Results.MapResult: its own contract gives only the length. The pointwise content, first-failure and concatenation statements are in the three `MapResult…` lemmas.
