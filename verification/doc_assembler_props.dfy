/**
 Properties of the assembly: the params list is exactly the `param` tags in
 source order, the returns descriptor comes from the first return tag, and the
 two ways of marking a parameter optional agree with the type normaliser.
 */
module DocAssemblerProps {
  import opened Results
  import opened Text
  import opened TypeNormalizer
  import opened DocAssembler
  import TypeNormalizerProps

  /** Filtering a concatenation filters each part in turn: the order of the
      `param` tags is the order in the source. */
  lemma {:induction false} ParamTagsAppend(a: seq<Tag>, b: seq<Tag>)
    ensures ParamTags(a + b) == ParamTags(a) + ParamTags(b)
  {
    if a == [] {
      assert a + b == b;
    } else {
      assert (a + b)[0] == a[0] && (a + b)[1..] == a[1..] + b;
      ParamTagsAppend(a[1..], b);
    }
  }

  /** Each `param` tag is kept as often as it occurs, every other tag is dropped. */
  lemma {:induction false} ParamTagsCounts(tags: seq<Tag>, t: Tag)
    ensures multiset(ParamTags(tags))[t] == if t.tag == "param" then multiset(tags)[t] else 0
  {
    if tags != [] {
      ParamTagsCounts(tags[1..], t);
      assert tags == [tags[0]] + tags[1..];
      assert multiset(tags) == multiset([tags[0]]) + multiset(tags[1..]);
    }
  }

  /** The k-th descriptor describes the k-th `param` tag: its name, its description
      with `""` as `null`, its normalised type and its optionality. The params
      are built exactly when every `param` tag can be described. */
  lemma GetParamsPointwise(parse: Parser, tags: seq<Tag>)
    ensures var ps := ParamTags(tags);
            GetParams(parse, Some(tags)).Success? <==>
              forall k :: 0 <= k < |ps| ==> ParamDocOf(parse, ps[k]).Success?
    ensures var ps, r := ParamTags(tags), GetParams(parse, Some(tags));
            r.Success? ==>
              && |r.value| == |ps|
              && forall k :: 0 <= k < |ps| ==>
                   && r.value[k].name == ps[k].name
                   && r.value[k].description == OrNull(ps[k].description)
                   && Normalize(parse, ps[k].typeExpr) == Success(r.value[k].paramType)
                   && GetOptional(parse, ps[k]) == Success(r.value[k].optional)
  {
    MapResultPointwise(t => ParamDocOf(parse, t), ParamTags(tags));
  }

  /** When the params cannot be built, the error that escapes is the one of the
      first `param` tag that cannot be described; every tag before it can be. */
  lemma GetParamsFirstFailure(parse: Parser, tags: seq<Tag>) returns (k: nat)
    requires GetParams(parse, Some(tags)).Failure?
    ensures k < |ParamTags(tags)|
    ensures ParamDocOf(parse, ParamTags(tags)[k]) == Failure(GetParams(parse, Some(tags)).error)
    ensures forall j :: 0 <= j < k ==> ParamDocOf(parse, ParamTags(tags)[j]).Success?
  {
    var f := t => ParamDocOf(parse, t);
    var ps := ParamTags(tags);
    MapResultFirstFailure(f, ps);
    k :| && 0 <= k < |ps|
         && f(ps[k]) == Failure(MapResult(f, ps).error)
         && forall j :: 0 <= j < k ==> f(ps[j]).Success?;
  }

  /** Params of a concatenation are the params of each part, in order. */
  lemma GetParamsAppend(parse: Parser, a: seq<Tag>, b: seq<Tag>)
    requires GetParams(parse, Some(a)).Success? && GetParams(parse, Some(b)).Success?
    ensures GetParams(parse, Some(a + b)) ==
              Success(GetParams(parse, Some(a)).value + GetParams(parse, Some(b)).value)
  {
    ParamTagsAppend(a, b);
    MapResultAppend(t => ParamDocOf(parse, t), ParamTags(a), ParamTags(b));
  }

  /** The tag at `i` is a return tag and none comes before it. */
  predicate FirstReturnTagAt(tags: seq<Tag>, i: nat) {
    && i < |tags|
    && IsReturnTag(tags[i])
    && forall j :: 0 <= j < i ==> !IsReturnTag(tags[j])
  }

  /** The returns descriptor is built from the first return tag alone: its
      description and its normalised type, or the normaliser's error. */
  lemma GetReturnsFirst(parse: Parser, tags: seq<Tag>, i: nat)
    requires FirstReturnTagAt(tags, i)
    ensures GetReturns(parse, Some(tags)) ==
              match Normalize(parse, tags[i].typeExpr)
              case Failure(e) => Failure(e)
              case Success(returnType) => Success(Some(ReturnDoc(ReturnDescription(tags[i]), returnType)))
  {
    var k := FindReturnTag(tags).value;
    assert !(k < i) && !(i < k);
  }

  /** Tags after the first return tag do not change the returns descriptor. */
  lemma GetReturnsIgnoresLater(parse: Parser, a: seq<Tag>, b: seq<Tag>)
    requires exists j :: 0 <= j < |a| && IsReturnTag(a[j])
    ensures GetReturns(parse, Some(a + b)) == GetReturns(parse, Some(a))
  {
    var i := FindReturnTag(a).value;
    assert FirstReturnTagAt(a + b, i) by {
      assert forall j :: 0 <= j <= i ==> (a + b)[j] == a[j];
    }
    GetReturnsFirst(parse, a + b, i);
    GetReturnsFirst(parse, a, i);
  }

  /** A return tag without a type takes its description from the raw tag text:
      what follows `@<tag> ` becomes the description, and nothing becomes `null`. */
  lemma ReturnDescriptionUntyped(t: Tag, rest: string)
    requires t.typeExpr == "" && t.source == "@" + t.tag + " " + rest
    ensures ReturnDescription(t) == OrNull(rest)
  {
    RemoveFirstPrefix("@" + t.tag + " ", rest);
  }

  /** A return tag without a type whose raw text lacks `@<tag> ` (a bare
      `@returns` with no trailing space, say) keeps its whole raw text as the
      description. */
  lemma ReturnDescriptionNoMarker(t: Tag)
    requires t.typeExpr == "" && IndexOf(t.source, "@" + t.tag + " ").None?
    ensures ReturnDescription(t) == OrNull(t.source)
  {
  }

  /** The bare tag `@returns`: its description is the text `@returns` itself. */
  lemma BareReturnsTag(t: Tag)
    requires t == Tag("returns", "", "", false, "", "@returns")
    ensures ReturnDescription(t) == Some("@returns")
  {
  }

  /** A return tag without a type has a `null` type. */
  lemma GetReturnsUntypedHasNoType(parse: Parser, tags: seq<Tag>, i: nat)
    requires FirstReturnTagAt(tags, i) && tags[i].typeExpr == ""
    ensures GetReturns(parse, Some(tags)) == Success(Some(ReturnDoc(ReturnDescription(tags[i]), None)))
  {
    GetReturnsFirst(parse, tags, i);
  }

  /** A type `T=` marks the parameter optional without the bracket flag, and its
      type is then the flat name `T`. */
  lemma ParamOptionalConventions(parse: Parser, t: Tag, base: string, inner: Node)
    requires t.typeExpr == base + "=" && parse(t.typeExpr) == Success(Optional(inner))
    ensures ParamDocOf(parse, t) ==
              Success(ParamDoc(t.name, OrNull(t.description), Some(Simple(base)), true))
  {
    TypeNormalizerProps.NormalizeOptionalIsFlat(parse, base, inner);
  }

  /** A worked example: a block described as "Adds two numbers." whose tag
      records are two typed `param` tags and a typed `returns` tag. */
  lemma AddsTwoNumbers(parse: Parser)
    requires parse("number") == Success(Name("number"))
    ensures
      var a := Tag("param", "a", "number", false, "first operand", "@param {number} a first operand");
      var b := Tag("param", "b", "number", false, "second operand", "@param {number} b second operand");
      var ret := Tag("returns", "", "number", false, "the sum", "@returns {number} the sum");
      ParseJsDoc(parse, [Block("Adds two numbers.", Some([a, b, ret]))]) ==
        Success(JsDoc(
          Some("Adds two numbers."),
          [ ParamDoc("a", Some("first operand"), Some(Simple("number")), false),
            ParamDoc("b", Some("second operand"), Some(Simple("number")), false)],
          Some(ReturnDoc(Some("the sum"), Some(Simple("number"))))))
  {
    var a := Tag("param", "a", "number", false, "first operand", "@param {number} a first operand");
    var b := Tag("param", "b", "number", false, "second operand", "@param {number} b second operand");
    var ret := Tag("returns", "", "number", false, "the sum", "@returns {number} the sum");
    var tags := [a, b, ret];
    assert ParamTags(tags) == [a, b] by {
      assert tags[1..] == [b, ret] && tags[1..][1..] == [ret] && tags[1..][1..][1..] == [];
    }
    var pa := ParamDoc("a", Some("first operand"), Some(Simple("number")), false);
    var pb := ParamDoc("b", Some("second operand"), Some(Simple("number")), false);
    assert ParamDocOf(parse, a) == Success(pa);
    assert ParamDocOf(parse, b) == Success(pb);
    GetParamsPointwise(parse, tags);
    var r := GetParams(parse, Some(tags));
    assert r.Success? && |r.value| == 2;
    assert r.value[0] == pa && r.value[1] == pb;
    assert r.value == [pa, pb];
    GetReturnsFirst(parse, tags, 2);
    assert GetReturns(parse, Some(tags)) == Success(Some(ReturnDoc(Some("the sum"), Some(Simple("number")))));
  }
}
