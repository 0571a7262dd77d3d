/** Failure-carrying datatypes shared by the model, and a traversal that
    stops at the first failure (the way `Array.prototype.map` stops once its
    callback ends the process). */
module Wrappers {

  datatype Option<+T> = None | Some(value: T)

  datatype Result<+T, +E> = Success(value: T) | Failure(error: E) {

    predicate IsFailure() {
      Failure?
    }

    function PropagateFailure<U>(): Result<U, E>
      requires Failure?
    {
      Failure(error)
    }

    function Extract(): T
      requires Success?
    {
      value
    }
  }

  /** Applies `f` to every element in order; the first failure is the result. */
  function MapAll<A, B, E>(xs: seq<A>, f: A -> Result<B, E>): (r: Result<seq<B>, E>)
    ensures r.Success? ==>
              && |r.value| == |xs|
              && forall i :: 0 <= i < |xs| ==> f(xs[i]) == Success(r.value[i])
    ensures r.Failure? ==>
              exists i :: && 0 <= i < |xs|
                          && f(xs[i]) == Failure(r.error)
                          && forall j :: 0 <= j < i ==> f(xs[j]).Success?
    ensures (forall i :: 0 <= i < |xs| ==> f(xs[i]).Success?) <==> r.Success?
  {
    if |xs| == 0 then Success([])
    else
      match f(xs[0])
      case Failure(e) => Failure(e)
      case Success(y) =>
        match MapAll(xs[1..], f)
        case Failure(e) =>
          assert forall j :: 1 <= j < |xs| ==> xs[j] == xs[1..][j - 1];
          Failure(e)
        case Success(ys) =>
          assert forall j :: 1 <= j < |xs| ==> xs[j] == xs[1..][j - 1];
          Success([y] + ys)
  }

  /** One failing element makes the whole map fail. */
  lemma {:induction false} MapAllFailsAt<A, B, E>(xs: seq<A>, f: A -> Result<B, E>, i: int)
    requires 0 <= i < |xs| && f(xs[i]).Failure?
    ensures MapAll(xs, f).Failure?
  {
  }

  lemma {:induction false} MapAllOne<A, B, E>(x: A, f: A -> Result<B, E>)
    ensures MapAll([x], f) == match f(x) case Success(y) => Success([y]) case Failure(e) => Failure(e)
  {
    assert [x][1..] == [];
    match f(x)
    case Success(y) =>
      assert [y] + [] == [y];
    case Failure(e) =>
  }
}
