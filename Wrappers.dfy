/** Optional values, results, and the exceptions the modelled code raises. */
module Wrappers {

  datatype Option<+T> = None | Some(value: T)

  datatype Result<+R, +E> = Success(value: R) | Failure(error: E)

  /** The exceptions that escape the modelled functions, by their Python class. */
  datatype Raised =
    | ConfigError(message: string)
    | RuntimeError(message: string)
    | AttributeError(message: string)
    | TypeError(message: string)
    | KeyError(message: string)

  /** `f` applied to each element in turn, as a Python loop that appends
      each result: the results in order, or the first failure. */
  function MapAll<A, B, E>(xs: seq<A>, f: A -> Result<B, E>): Result<seq<B>, E>
    decreases |xs|
  {
    if xs == [] then Success([])
    else
      match MapAll(xs[..|xs| - 1], f)
      case Failure(e) => Failure(e)
      case Success(done) =>
        match f(xs[|xs| - 1])
        case Failure(e) => Failure(e)
        case Success(y) => Success(done + [y])
  }

  /** The loop succeeds iff every element succeeds, and then yields one
      result per element, in order; otherwise it fails as the first
      failing element does. */
  lemma {:induction false} MapAllOnePerItem<A, B, E>(xs: seq<A>, f: A -> Result<B, E>)
    ensures MapAll(xs, f).Success? <==> forall i :: 0 <= i < |xs| ==> f(xs[i]).Success?
    ensures MapAll(xs, f).Success? ==>
              |MapAll(xs, f).value| == |xs|
              && forall i :: 0 <= i < |xs| ==> MapAll(xs, f).value[i] == f(xs[i]).value
    ensures MapAll(xs, f).Failure? ==>
              exists k :: 0 <= k < |xs| && f(xs[k]) == Failure(MapAll(xs, f).error)
                          && forall i :: 0 <= i < k ==> f(xs[i]).Success?
    decreases |xs|
  {
    if xs != [] {
      var init := xs[..|xs| - 1];
      MapAllOnePerItem(init, f);
      assert forall i :: 0 <= i < |init| ==> xs[i] == init[i];
      if MapAll(init, f).Failure? {
        var k :| 0 <= k < |init| && f(init[k]) == Failure(MapAll(init, f).error)
                 && forall i :: 0 <= i < k ==> f(init[i]).Success?;
        assert f(xs[k]) == Failure(MapAll(xs, f).error);
      }
    }
  }

  /** Once a prefix fails, the whole sequence fails the same way: the loop
      stops at the first failure. */
  lemma {:induction false} MapAllFailureStays<A, B, E>(xs: seq<A>, f: A -> Result<B, E>, n: nat)
    requires n <= |xs|
    requires MapAll(xs[..n], f).Failure?
    ensures MapAll(xs, f) == MapAll(xs[..n], f)
    decreases |xs| - n
  {
    if n < |xs| {
      assert xs[..n + 1][..n] == xs[..n];
      MapAllFailureStays(xs, f, n + 1);
    } else {
      assert xs[..n] == xs;
    }
  }
}
