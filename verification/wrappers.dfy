/** Option and Result values for the fallible operations of the model, and the
    "convert every element, stop at the first failure" combinator that both the
    row tokenizer and the table builder are made of. */
module Wrappers {

  datatype Option<+T> = None | Some(value: T)

  /** A conversion that either produced a value or raised an error. */
  datatype Result<+T, +E> = Success(value: T) | Failure(error: E) {

    predicate IsFailure() {
      Failure?
    }

    function PropagateFailure<U>(): Result<U, E>
      requires Failure?
    {
      Failure(error)
    }

    function Extract(): T
      requires Success?
    {
      value
    }
  }

  /** Converts `xs` element by element, left to right. The first element whose
      conversion fails decides the error; no partial result is returned. */
  function MapResult<A, B, E>(xs: seq<A>, f: A -> Result<B, E>): (r: Result<seq<B>, E>)
    ensures r.Success? <==> forall i :: 0 <= i < |xs| ==> f(xs[i]).Success?
    ensures r.Success? ==> |r.value| == |xs|
    ensures r.Success? ==> forall i :: 0 <= i < |xs| ==> r.value[i] == f(xs[i]).value
    ensures r.Failure? ==>
      exists i :: 0 <= i < |xs| && f(xs[i]) == Failure(r.error)
                  && forall j :: 0 <= j < i ==> f(xs[j]).Success?
  {
    if |xs| == 0 then Success([])
    else
      match f(xs[0])
      case Failure(e) => Failure(e)
      case Success(y) =>
        match MapResult(xs[1..], f)
        case Failure(e) =>
          assert forall i :: 1 <= i <= |xs[1..]| ==> xs[1..][i - 1] == xs[i];
          Failure(e)
        case Success(ys) => Success([y] + ys)
  }

  /** Converting a concatenation converts the first part, then the second;
      the first failure met decides. */
  lemma {:induction false} MapResultAppend<A, B, E>(xs: seq<A>, ys: seq<A>, f: A -> Result<B, E>)
    ensures MapResult(xs + ys, f) ==
      match MapResult(xs, f)
      case Failure(e) => Failure(e)
      case Success(a) =>
        match MapResult(ys, f)
        case Failure(e) => Failure(e)
        case Success(b) => Success(a + b)
  {
    if |xs| == 0 {
      assert xs + ys == ys;
      assert MapResult(xs, f) == Success([]);
      match MapResult(ys, f)
      case Failure(e) =>
      case Success(b) => assert [] + b == b;
    } else {
      assert (xs + ys)[0] == xs[0];
      assert (xs + ys)[1..] == xs[1..] + ys;
      MapResultAppend(xs[1..], ys, f);
      match f(xs[0])
      case Failure(e) =>
      case Success(y) =>
        match MapResult(xs[1..], f)
        case Failure(e) =>
        case Success(a) =>
          match MapResult(ys, f)
          case Failure(e) =>
          case Success(b) =>
            assert [y] + (a + b) == ([y] + a) + b;
    }
  }

  /** Converting one more element at the end. */
  lemma MapResultSnoc<A, B, E>(xs: seq<A>, x: A, f: A -> Result<B, E>)
    ensures MapResult(xs + [x], f) ==
      match MapResult(xs, f)
      case Failure(e) => Failure(e)
      case Success(a) =>
        match f(x)
        case Failure(e) => Failure(e)
        case Success(b) => Success(a + [b])
  {
    MapResultAppend(xs, [x], f);
    assert [x][1..] == [];
    match f(x)
    case Failure(e) =>
    case Success(b) => assert [b] + [] == [b];
  }

  /** Once a prefix fails, nothing appended to it changes the error. */
  lemma MapResultFailurePrefix<A, B, E>(xs: seq<A>, ys: seq<A>, f: A -> Result<B, E>)
    requires MapResult(xs, f).Failure?
    ensures MapResult(xs + ys, f) == MapResult(xs, f)
  {
    MapResultAppend(xs, ys, f);
  }

  /** Converting a growing prefix one element at a time, as a loop does:
      the next element extends the result or fails it, a failure of a prefix
      is the failure of the whole, and the full prefix is the whole. */
  lemma MapResultPrefix<A, B, E>(xs: seq<A>, i: nat, f: A -> Result<B, E>)
    requires i < |xs|
    ensures MapResult(xs[..i + 1], f) ==
      match MapResult(xs[..i], f)
      case Failure(e) => Failure(e)
      case Success(a) =>
        match f(xs[i])
        case Failure(e) => Failure(e)
        case Success(b) => Success(a + [b])
    ensures MapResult(xs[..i + 1], f).Failure? ==> MapResult(xs, f) == MapResult(xs[..i + 1], f)
    ensures MapResult(xs[..|xs|], f) == MapResult(xs, f)
  {
    TakeFacts(xs, i);
    MapResultSnoc(xs[..i], xs[i], f);
    if MapResult(xs[..i + 1], f).Failure? {
      MapResultFailurePrefix(xs[..i + 1], xs[i + 1..], f);
    }
  }

  lemma TakeFacts<A>(xs: seq<A>, i: nat)
    requires i < |xs|
    ensures xs[..i + 1] == xs[..i] + [xs[i]]
    ensures xs == xs[..i + 1] + xs[i + 1..]
    ensures xs[..|xs|] == xs
  {
  }

  /** Two conversions that agree on every element convert alike. */
  lemma {:induction false} MapResultCongruence<A, B, E>(xs: seq<A>, f: A -> Result<B, E>, g: A -> Result<B, E>)
    requires forall i :: 0 <= i < |xs| ==> f(xs[i]) == g(xs[i])
    ensures MapResult(xs, f) == MapResult(xs, g)
  {
    if |xs| > 0 {
      assert forall i :: 0 <= i < |xs[1..]| ==> xs[1..][i] == xs[i + 1];
      MapResultCongruence(xs[1..], f, g);
    }
  }

  /** A conversion whose every element gives the expected value. */
  lemma MapResultAllSucceed<A, B, E>(xs: seq<A>, f: A -> Result<B, E>, ys: seq<B>)
    requires |ys| == |xs|
    requires forall i :: 0 <= i < |xs| ==> f(xs[i]) == Success(ys[i])
    ensures MapResult(xs, f) == Success(ys)
  {
    var r := MapResult(xs, f);
    assert r.Success?;
    assert r.value == ys;
  }
}
