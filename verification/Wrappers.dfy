/** Option and Result, the two failure shapes every module here uses. */
module Wrappers {

  datatype Option<+T> = None | Some(value: T)

  /** A Go `(T, error)` pair of which exactly one half is meaningful. */
  datatype Result<+T, +E> = Success(value: T) | Failure(error: E) {
    predicate IsFailure() {
      Failure?
    }

    function PropagateFailure<U>(): Result<U, E>
      requires Failure?
    {
      Failure(error)
    }

    function Extract(): T
      requires Success?
    {
      value
    }
  }

  /** Elements read before the ones in `r`. */
  function Prepend<T, E>(xs: seq<T>, r: Result<seq<T>, E>): Result<seq<T>, E>
  {
    match r
    case Success(ys) => Success(xs + ys)
    case Failure(e) => Failure(e)
  }

  lemma PrependNothing<T, E>(r: Result<seq<T>, E>)
    ensures Prepend([], r) == r
  {
    assert r.Success? ==> [] + r.value == r.value;
  }

  lemma PrependOne<T, E>(xs: seq<T>, x: T, r: Result<seq<T>, E>)
    ensures Prepend(xs, Prepend([x], r)) == Prepend(xs + [x], r)
  {
    if r.Success? {
      assert xs + ([x] + r.value) == xs + [x] + r.value;
    }
  }

  /** The same for readers that also return what they left unread. */
  function PrependTo<T, U, E>(xs: seq<T>, r: Result<(seq<T>, U), E>): Result<(seq<T>, U), E>
  {
    match r
    case Success((ys, rest)) => Success((xs + ys, rest))
    case Failure(e) => Failure(e)
  }

  lemma PrependNothingTo<T, U, E>(r: Result<(seq<T>, U), E>)
    ensures PrependTo([], r) == r
  {
    assert r.Success? ==> [] + r.value.0 == r.value.0;
  }

  lemma PrependOneTo<T, U, E>(xs: seq<T>, x: T, r: Result<(seq<T>, U), E>)
    ensures PrependTo(xs, PrependTo([x], r)) == PrependTo(xs + [x], r)
  {
    if r.Success? {
      assert xs + ([x] + r.value.0) == xs + [x] + r.value.0;
    }
  }
}
