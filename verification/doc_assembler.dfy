/**
 The assembly half of `src/utils/parseJsDoc.js`: from the blocks that
 comment-parser returns for a docblock, it builds the record
 `{ description, params, returns }`.

 comment-parser is not part of this model; its output is the input here. It
 reports a missing type, name or description as the empty string, and the
 source tests those fields for truthiness, so `""` plays the part of "absent".
 */
module DocAssembler {
  import opened Results
  import opened Text
  import opened TypeNormalizer

  /** One tag as comment-parser reports it (`@param {number=} [a] first`). */
  datatype Tag = Tag(
    tag: string,          // keyword without `@`: "param", "returns", ...
    name: string,         // parameter name
    typeExpr: string,     // text between the braces, "" when there is none
    optional: bool,       // the name was written in square brackets
    description: string,  // free text after the name
    source: string)       // the raw text of the tag, starting at `@`

  /** One comment block; `tags` is `None` for a block without that property. */
  datatype Block = Block(description: string, tags: Option<seq<Tag>>)

  datatype ParamDoc = ParamDoc(
    name: string,
    description: Option<string>,
    paramType: Option<NType>,
    optional: bool)

  datatype ReturnDoc = ReturnDoc(description: Option<string>, returnType: Option<NType>)

  datatype JsDoc = JsDoc(description: Option<string>, params: seq<ParamDoc>, returnsDoc: Option<ReturnDoc>)

  /** `getOptional`: a tag with a type is optional when it carries the bracket flag
      or its type expression parses to an OPTIONAL tree (`T=`); a tag without a
      type never is, whatever its flag says. Parsing happens only when the flag is
      not set, so only then can a syntax error escape. */
  function GetOptional(parse: Parser, tag: Tag): (r: Result<bool, Error>)
    ensures r == Success(true) <==>
              && tag.typeExpr != ""
              && (tag.optional || (parse(tag.typeExpr).Success? && parse(tag.typeExpr).value.Optional?))
    ensures r.Failure? <==> tag.typeExpr != "" && !tag.optional && parse(tag.typeExpr).Failure?
    ensures r.Failure? ==> r.error == SyntaxError(parse(tag.typeExpr).error)
  {
    if tag.typeExpr == "" then Success(false)
    else if tag.optional then Success(true)
    else
      match parse(tag.typeExpr)
      case Failure(message) => Failure(SyntaxError(message))
      case Success(node) => Success(node.Optional?)
  }

  predicate IsReturnTag(t: Tag) {
    t.tag == "returns" || t.tag == "return"
  }

  /** `tags.find(...)` for a return tag, as the index of the tag found. */
  function FindReturnTag(tags: seq<Tag>): (r: Option<nat>)
    ensures r.Some? ==> r.value < |tags| && IsReturnTag(tags[r.value])
    ensures r.Some? ==> forall j :: 0 <= j < r.value ==> !IsReturnTag(tags[j])
    ensures r.None? <==> forall j :: 0 <= j < |tags| ==> !IsReturnTag(tags[j])
  {
    if tags == [] then None
    else if IsReturnTag(tags[0]) then Some(0)
    else
      match FindReturnTag(tags[1..])
      case None => None
      case Some(i) => Some(i + 1)
  }

  /** The description of a return tag. With a type, it is the description
      comment-parser separated out; without one, it is the raw tag text with the
      first `@<tag> ` cut out. Either way an empty string becomes `null`. */
  function ReturnDescription(t: Tag): (r: Option<string>)
    ensures t.typeExpr != "" ==> r == OrNull(t.description)
    ensures t.typeExpr == "" ==> r == OrNull(RemoveFirst(t.source, "@" + t.tag + " "))
    ensures t.typeExpr == "" && r.Some? ==> |r.value| <= |t.source|
  {
    if t.typeExpr != "" then OrNull(t.description)
    else OrNull(RemoveFirst(t.source, "@" + t.tag + " "))
  }

  /** `getReturnsJsDoc`: the first `returns`/`return` tag gives the descriptor; with
      none there is no descriptor; a block without `tags` throws. */
  function GetReturns(parse: Parser, tags: Option<seq<Tag>>): (r: Result<Option<ReturnDoc>, Error>)
    ensures tags.None? ==> r == Failure(TagsMissing)
    ensures r == Success(None) <==>
              tags.Some? && forall j :: 0 <= j < |tags.value| ==> !IsReturnTag(tags.value[j])
  {
    match tags
    case None => Failure(TagsMissing)
    case Some(ts) =>
      match FindReturnTag(ts)
      case None => Success(None)
      case Some(i) =>
        var returnType :- Normalize(parse, ts[i].typeExpr);
        Success(Some(ReturnDoc(ReturnDescription(ts[i]), returnType)))
  }

  /** `tags.filter(tag => tag.tag === 'param')`. */
  function ParamTags(tags: seq<Tag>): (ps: seq<Tag>)
    ensures |ps| <= |tags|
    ensures forall k :: 0 <= k < |ps| ==> ps[k].tag == "param" && ps[k] in tags
    ensures forall t :: t in tags && t.tag == "param" ==> t in ps
  {
    if tags == [] then []
    else if tags[0].tag == "param" then [tags[0]] + ParamTags(tags[1..])
    else ParamTags(tags[1..])
  }

  /** The descriptor of one parameter tag; its type is normalised before its
      optionality is worked out, so a normaliser error wins over a parse error. */
  function ParamDocOf(parse: Parser, t: Tag): (r: Result<ParamDoc, Error>)
    ensures r.Success? ==>
              && r.value.name == t.name
              && r.value.description == OrNull(t.description)
              && Normalize(parse, t.typeExpr) == Success(r.value.paramType)
              && GetOptional(parse, t) == Success(r.value.optional)
    ensures r.Failure? <==> Normalize(parse, t.typeExpr).Failure? || GetOptional(parse, t).Failure?
    ensures Normalize(parse, t.typeExpr).Failure? ==> r == Failure(Normalize(parse, t.typeExpr).error)
    ensures Normalize(parse, t.typeExpr).Success? && GetOptional(parse, t).Failure? ==>
              r == Failure(GetOptional(parse, t).error)
  {
    match Normalize(parse, t.typeExpr)
    case Failure(e) => Failure(e)
    case Success(paramType) =>
      match GetOptional(parse, t)
      case Failure(e) => Failure(e)
      case Success(optional) => Success(ParamDoc(t.name, OrNull(t.description), paramType, optional))
  }

  /** `getParamsJsDoc`: one descriptor per `param` tag, in source order; a block
      without `tags` has none. */
  function GetParams(parse: Parser, tags: Option<seq<Tag>>): (r: Result<seq<ParamDoc>, Error>)
    ensures tags.None? ==> r == Success([])
    ensures tags.Some? && r.Success? ==> |r.value| == |ParamTags(tags.value)|
  {
    match tags
    case None => Success([])
    case Some(ts) => MapResult(t => ParamDocOf(parse, t), ParamTags(ts))
  }

  /** `parseJsDoc` after comment-parser has run: the first block gives the
      description, the params and the returns. With no block at all the source
      reads `tags` of `undefined` and throws. Params are built before returns, so
      their error is the one that escapes. */
  function ParseJsDoc(parse: Parser, blocks: seq<Block>): (r: Result<JsDoc, Error>)
    ensures blocks == [] ==> r == Failure(BlockMissing)
    ensures blocks != [] && blocks[0].tags.None? ==> r == Failure(TagsMissing)
    ensures blocks != [] && blocks[0].tags == Some([]) ==>
              r == Success(JsDoc(OrNull(blocks[0].description), [], None))
    ensures blocks != [] ==>
              (r.Success? <==> GetParams(parse, blocks[0].tags).Success? && GetReturns(parse, blocks[0].tags).Success?)
    ensures blocks != [] && GetParams(parse, blocks[0].tags).Failure? ==>
              r == Failure(GetParams(parse, blocks[0].tags).error)
    ensures blocks != [] && GetParams(parse, blocks[0].tags).Success? && GetReturns(parse, blocks[0].tags).Failure? ==>
              r == Failure(GetReturns(parse, blocks[0].tags).error)
    ensures r.Success? ==>
              && r.value.description == OrNull(blocks[0].description)
              && GetParams(parse, blocks[0].tags) == Success(r.value.params)
              && GetReturns(parse, blocks[0].tags) == Success(r.value.returnsDoc)
  {
    if blocks == [] then Failure(BlockMissing)
    else
      var first := blocks[0];
      var params :- GetParams(parse, first.tags);
      var returnsDoc :- GetReturns(parse, first.tags);
      Success(JsDoc(OrNull(first.description), params, returnsDoc))
  }
}
