/**
 Option and Result values, standing in for JavaScript's `null` and for the
 exceptions the documentation parser lets escape. `Result` supports `:-`, so
 a thrown error propagates the way it does in the source: the first one raised
 wins and nothing after it is evaluated.
 */
module Results {

  /** `None` is JavaScript's `null` (or `undefined`); `Some(v)` is a present value. */
  datatype Option<+T> = None | Some(value: T)

  /** `Failure(e)` is an exception `e` escaping the call; `Success(v)` a normal return. */
  datatype Result<+T, +E> = Success(value: T) | Failure(error: E) {

    predicate IsFailure() {
      Failure?
    }

    function PropagateFailure<U>(): Result<U, E>
      requires Failure?
    {
      Failure(error)
    }

    function Extract(): T
      requires Success?
    {
      value
    }
  }

  /** `xs.map(f)` where `f` may throw: the elements are mapped left to right and
      the first exception ends the whole map. */
  function MapResult<A, B, E>(f: A -> Result<B, E>, xs: seq<A>): (r: Result<seq<B>, E>)
    ensures r.Success? ==> |r.value| == |xs|
  {
    if xs == [] then Success([])
    else
      var head :- f(xs[0]);
      var tail :- MapResult(f, xs[1..]);
      Success([head] + tail)
  }

  /** The map succeeds exactly when every element maps without throwing, and then
      its k-th entry is the image of the k-th element. */
  lemma {:induction false} MapResultPointwise<A, B, E>(f: A -> Result<B, E>, xs: seq<A>)
    ensures MapResult(f, xs).Success? <==> forall i :: 0 <= i < |xs| ==> f(xs[i]).Success?
    ensures MapResult(f, xs).Success? ==>
              forall i :: 0 <= i < |xs| ==> f(xs[i]) == Success(MapResult(f, xs).value[i])
  {
    if xs != [] {
      MapResultPointwise(f, xs[1..]);
      assert forall i :: 1 <= i < |xs| ==> xs[1..][i - 1] == xs[i];
    }
  }

  /** When the map throws, it throws the error of the first element that fails. */
  lemma {:induction false} MapResultFirstFailure<A, B, E>(f: A -> Result<B, E>, xs: seq<A>)
    requires MapResult(f, xs).Failure?
    ensures exists i :: && 0 <= i < |xs|
                        && f(xs[i]) == Failure(MapResult(f, xs).error)
                        && forall j :: 0 <= j < i ==> f(xs[j]).Success?
  {
    if f(xs[0]).Success? {
      MapResultFirstFailure(f, xs[1..]);
      var i :| && 0 <= i < |xs[1..]|
               && f(xs[1..][i]) == Failure(MapResult(f, xs[1..]).error)
               && forall j :: 0 <= j < i ==> f(xs[1..][j]).Success?;
      assert f(xs[i + 1]) == Failure(MapResult(f, xs).error);
      assert forall j :: 0 <= j < i + 1 ==> f(xs[j]).Success? by {
        forall j | 0 <= j < i + 1
          ensures f(xs[j]).Success?
        {
          if j > 0 {
            assert xs[j] == xs[1..][j - 1];
          }
        }
      }
    }
  }

  /** Mapping a concatenation maps each part in turn: order is kept. */
  lemma {:induction false} MapResultAppend<A, B, E>(f: A -> Result<B, E>, a: seq<A>, b: seq<A>)
    requires MapResult(f, a).Success? && MapResult(f, b).Success?
    ensures MapResult(f, a + b) == Success(MapResult(f, a).value + MapResult(f, b).value)
  {
    if a == [] {
      assert a + b == b;
      assert MapResult(f, a) == Success([]);
      assert [] + MapResult(f, b).value == MapResult(f, b).value;
    } else {
      MapResultCons(f, a);
      MapResultAppend(f, a[1..], b);
      MapResultCons(f, a + b);
      assert (a + b)[0] == a[0] && (a + b)[1..] == a[1..] + b;
      var head, ta, tb := f(a[0]).value, MapResult(f, a[1..]).value, MapResult(f, b).value;
      assert [head] + (ta + tb) == ([head] + ta) + tb;
    }
  }

  /** A successful map of a non-empty sequence is the head's image before the tail's. */
  lemma MapResultCons<A, B, E>(f: A -> Result<B, E>, xs: seq<A>)
    requires xs != []
    ensures MapResult(f, xs).Success? <==> f(xs[0]).Success? && MapResult(f, xs[1..]).Success?
    ensures MapResult(f, xs).Success? ==>
              MapResult(f, xs).value == [f(xs[0]).value] + MapResult(f, xs[1..]).value
  {
  }
}
