/**
 Properties of the type normaliser: which trees it can normalise at all, how
 composite kinds keep the number and order of their children, and how the
 string entry point treats the trailing-`=` optional marker.
 */
module TypeNormalizerProps {
  import opened Results
  import opened Text
  import opened TypeNormalizer

  /** The tree has an OPTIONAL node that `getType` reaches as a node: the root
      itself, or one below a union branch, a generic argument or a tuple entry.
      A generic's subject is only read for its name, so it does not count. */
  predicate ReachesOptional(n: Node)
    decreases n, 1
  {
    match n
    case Optional(_) => true
    case Union(left, right) => ReachesOptional(left) || ReachesOptional(right)
    case Generic(_, objects) => SomeReachesOptional(objects)
    case Tuple(entries) => SomeReachesOptional(entries)
    case _ => false
  }

  predicate SomeReachesOptional(ns: seq<Node>)
    decreases ns, 0
  {
    ns != [] && (ReachesOptional(ns[0]) || SomeReachesOptional(ns[1..]))
  }

  /** Normalising a parsed tree throws exactly when it reaches an OPTIONAL node,
      and the error is then the failed `replace` call. */
  lemma {:induction false} NormalizeNodeFailsIff(n: Node)
    ensures NormalizeNode(n).Failure? <==> ReachesOptional(n)
    ensures NormalizeNode(n).Failure? ==> NormalizeNode(n).error == ReplaceOnNode
    decreases n, 1
  {
    match n
    case Union(left, right) =>
      NormalizeNodeFailsIff(left);
      NormalizeNodeFailsIff(right);
    case Generic(_, objects) =>
      NormalizeAllFailsIff(objects);
    case Tuple(entries) =>
      NormalizeAllFailsIff(entries);
    case _ =>
  }

  lemma {:induction false} NormalizeAllFailsIff(ns: seq<Node>)
    ensures NormalizeAll(ns).Failure? <==> SomeReachesOptional(ns)
    decreases ns, 0
  {
    if ns != [] {
      NormalizeNodeFailsIff(ns[0]);
      NormalizeAllFailsIff(ns[1..]);
    }
  }

  /** `ns.map(getType)` keeps count and order: the k-th element of the result is
      the normalised k-th node, and the map succeeds exactly when each node does. */
  lemma {:induction false} NormalizeAllPointwise(ns: seq<Node>)
    ensures NormalizeAll(ns).Success? <==> forall i :: 0 <= i < |ns| ==> NormalizeNode(ns[i]).Success?
    ensures NormalizeAll(ns).Success? ==>
              && |NormalizeAll(ns).value| == |ns|
              && forall i :: 0 <= i < |ns| ==> NormalizeNode(ns[i]) == Success(NormalizeAll(ns).value[i])
  {
    if ns != [] {
      NormalizeAllPointwise(ns[1..]);
      assert forall i :: 1 <= i < |ns| ==> ns[1..][i - 1] == ns[i];
    }
  }

  /** A union normalises to `"union"` with its left branch, then its right branch,
      each normalised; neither branch is reordered. */
  lemma NormalizeUnion(left: Node, right: Node)
    ensures NormalizeNode(Union(left, right)).Success? <==>
              NormalizeNode(left).Success? && NormalizeNode(right).Success?
    ensures NormalizeNode(Union(left, right)).Success? ==>
              NormalizeNode(Union(left, right)).value ==
                Some(NType(Some("union"), Some([NormalizeNode(left).value, NormalizeNode(right).value])))
  {
  }

  /** A generic keeps the subject's name and one element per type argument, in order. */
  lemma NormalizeGeneric(subject: Node, objects: seq<Node>)
    requires NormalizeNode(Generic(subject, objects)).Success?
    ensures var t := NormalizeNode(Generic(subject, objects)).value;
            && t.Some? && t.value.name == NameField(subject)
            && t.value.elements.Some? && |t.value.elements.value| == |objects|
            && forall i :: 0 <= i < |objects| ==> NormalizeNode(objects[i]) == Success(t.value.elements.value[i])
  {
    NormalizeAllPointwise(objects);
  }

  /** A tuple is named `"tuple"` and keeps one element per entry, in order. */
  lemma NormalizeTuple(entries: seq<Node>)
    requires NormalizeNode(Tuple(entries)).Success?
    ensures var t := NormalizeNode(Tuple(entries)).value;
            && t.Some? && t.value.name == Some("tuple")
            && t.value.elements.Some? && |t.value.elements.value| == |entries|
            && forall i :: 0 <= i < |entries| ==> NormalizeNode(entries[i]) == Success(t.value.elements.value[i])
  {
    NormalizeAllPointwise(entries);
  }

  /** When the expression `t=` parses as OPTIONAL, the string entry point returns
      the flat name `t`; the tree under the marker is not normalised. */
  lemma NormalizeOptionalIsFlat(parse: Parser, t: string, inner: Node)
    requires parse(t + "=") == Success(Optional(inner))
    ensures Normalize(parse, t + "=") == Success(Some(Simple(t)))
  {
    StripOptionalMarkerAppended(t);
  }

  /** A string that parses to a tree other than OPTIONAL normalises exactly as
      that tree does, so the node-level properties carry over to type strings. */
  lemma NormalizeParsedTree(parse: Parser, s: string, n: Node)
    requires s != "" && parse(s) == Success(n) && !n.Optional?
    ensures Normalize(parse, s) == NormalizeNode(n)
  {
  }

  /** The string entry point returns normally exactly when the string is empty, or
      it parses and its tree is OPTIONAL at the root or reaches no OPTIONAL node. */
  lemma NormalizeSucceedsIff(parse: Parser, s: string)
    ensures Normalize(parse, s).Success? <==>
              || s == ""
              || (parse(s).Success? && (parse(s).value.Optional? || !ReachesOptional(parse(s).value)))
  {
    if s != "" && parse(s).Success? {
      NormalizeNodeFailsIff(parse(s).value);
    }
  }
}
