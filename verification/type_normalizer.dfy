/**
 The type normaliser of `src/utils/parseJsDoc.js` (`getType`): it turns the
 annotation tree that the jsdoctypeparser grammar produces for a JSDoc type
 expression into a small recursive shape `{ name, elements? }`.

 The grammar parser is not part of this model. It enters as a parameter of
 type `Parser`, a total function from the expression text to either a tree or
 the message of the syntax error it throws.
 */
module TypeNormalizer {
  import opened Results
  import opened Text

  /** A jsdoctypeparser tree, restricted to the kinds the normaliser tells apart. */
  datatype Node =
    | Name(name: string)                           // NAME: `Foo`
    | Union(left: Node, right: Node)               // UNION: `A|B`
    | Optional(value: Node)                        // OPTIONAL: `T=`
    | Any                                          // ANY: `*`
    | Generic(subject: Node, objects: seq<Node>)   // GENERIC: `Array<T>`, `T[]`
    | Tuple(entries: seq<Node>)                    // TUPLE: `[A, B]`
    | Unsupported(nameField: Option<string>)       // every other kind, with its `name` field if it has one

  /** The normalised shape. `name` is `None` only where the source reads the
      `name` of a node that has none (`undefined`); `elements` is absent for
      simple types, and an element is `None` where the child normalised to `null`. */
  datatype NType = NType(name: Option<string>, elements: Option<seq<Option<NType>>>)

  /** What escapes the normaliser and the rest of the parser as an exception. */
  datatype Error =
    | SyntaxError(message: string)   // thrown by the grammar parser
    | ReplaceOnNode                  // `tagType.replace` called on an OPTIONAL node object
    | TagsMissing                    // `jsDoc.tags.find` on a block without `tags`
    | BlockMissing                   // `jsDoc.tags` read from an absent block

  /** The grammar parser: a tree, or the message of the error it throws. */
  type Parser = string -> Result<Node, string>

  /** A simple type `{ name }` with no `elements`. */
  function Simple(name: string): NType {
    NType(Some(name), None)
  }

  /** The `name` property of a node as JavaScript reads it. */
  function NameField(n: Node): Option<string> {
    match n
    case Name(id) => Some(id)
    case Unsupported(field) => field
    case _ => None
  }

  /** `getType` on a node that is already parsed. */
  function NormalizeNode(n: Node): (r: Result<Option<NType>, Error>)
    ensures n.Name? ==> r == Success(Some(Simple(n.name)))
    ensures n.Any? ==> r == Success(Some(Simple("mixed")))
    ensures n.Unsupported? ==> r == Success(None)
    ensures n.Optional? ==> r == Failure(ReplaceOnNode)
    ensures n.Union? && r.Success? ==>
              && r.value.Some? && r.value.value.name == Some("union")
              && r.value.value.elements.Some? && |r.value.value.elements.value| == 2
    ensures n.Generic? && r.Success? ==>
              && r.value.Some? && r.value.value.name == NameField(n.subject)
              && r.value.value.elements.Some? && |r.value.value.elements.value| == |n.objects|
    ensures n.Tuple? && r.Success? ==>
              && r.value.Some? && r.value.value.name == Some("tuple")
              && r.value.value.elements.Some? && |r.value.value.elements.value| == |n.entries|
    ensures r.Failure? ==> r.error == ReplaceOnNode
    ensures r.Success? && r.value.Some? && r.value.value.elements.Some? ==>
              n.Union? || n.Generic? || n.Tuple?
    decreases n, 1
  {
    match n
    case Name(id) => Success(Some(Simple(id)))
    case Union(left, right) =>
      var l :- NormalizeNode(left);
      var r :- NormalizeNode(right);
      Success(Some(NType(Some("union"), Some([l, r]))))
    case Optional(_) => Failure(ReplaceOnNode)
    case Any => Success(Some(Simple("mixed")))
    case Generic(subject, objects) =>
      var es :- NormalizeAll(objects);
      Success(Some(NType(NameField(subject), Some(es))))
    case Tuple(entries) =>
      var es :- NormalizeAll(entries);
      Success(Some(NType(Some("tuple"), Some(es))))
    case Unsupported(_) => Success(None)
  }

  /** `ns.map(getType)`: left to right, the first exception ends the map. */
  function NormalizeAll(ns: seq<Node>): (r: Result<seq<Option<NType>>, Error>)
    ensures r.Success? ==> |r.value| == |ns|
    ensures r.Failure? ==> r.error == ReplaceOnNode
    decreases ns, 0
  {
    if ns == [] then Success([])
    else
      var head :- NormalizeNode(ns[0]);
      var tail :- NormalizeAll(ns[1..]);
      Success([head] + tail)
  }

  /** `getType` on a type-expression string: the empty string gives `null`; otherwise
      the string is parsed, an OPTIONAL result gives the string itself without its
      trailing `=`, and any other tree is normalised as a node. */
  function Normalize(parse: Parser, s: string): (r: Result<Option<NType>, Error>)
    ensures s == "" ==> r == Success(None)
    ensures s != "" && parse(s).Failure? ==> r == Failure(SyntaxError(parse(s).error))
    ensures s != "" && parse(s).Success? && parse(s).value.Optional? ==>
              r == Success(Some(Simple(StripOptionalMarker(s))))
    ensures r.Failure? && r.error.SyntaxError? ==> parse(s) == Failure(r.error.message)
    ensures r.Success? && r.value.Some? && r.value.value.elements.None? ==> r.value.value.name.Some?
  {
    if s == "" then Success(None)
    else
      match parse(s)
      case Failure(message) => Failure(SyntaxError(message))
      case Success(node) =>
        if node.Optional? then Success(Some(Simple(StripOptionalMarker(s))))
        else NormalizeNode(node)
  }
}
