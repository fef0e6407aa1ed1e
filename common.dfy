/** Small value types shared by every part of the calculator model. */
module Common {

  /** A value that may be absent (Python's `None`). */
  datatype Option<+T> = None | Some(value: T)

  /** The outcome of an operation that either produces a value or raises. */
  datatype Result<+T, +E> = Ok(value: T) | Err(error: E)

  /** Absolute value over the reals (Python's `abs`). */
  function Abs(x: real): (r: real)
    ensures r >= 0.0
    ensures r == x || r == -x
  {
    if x < 0.0 then -x else x
  }

  function Min(x: real, y: real): real
  {
    if x <= y then x else y
  }

  function Max(x: real, y: real): real
  {
    if x <= y then y else x
  }

  /**
    A successful run whose trace is preceded by `prefix`; a failure carries
    no trace, so it is left as it is.
  */
  function Prefixed<R, T, E>(prefix: seq<T>, r: Result<(R, seq<T>), E>): Result<(R, seq<T>), E>
  {
    match r
    case Ok(v) => Ok((v.0, prefix + v.1))
    case Err(e) => Err(e)
  }

  lemma PrefixedTwice<R, T, E>(p: seq<T>, q: seq<T>, r: Result<(R, seq<T>), E>)
    ensures Prefixed(p, Prefixed(q, r)) == Prefixed(p + q, r)
  {
    if r.Ok? {
      AppendAssoc(p, q, r.value.1);
    }
  }

  lemma PrefixedNothing<R, T, E>(r: Result<(R, seq<T>), E>)
    ensures Prefixed([], r) == r
  {
    if r.Ok? {
      assert [] + r.value.1 == r.value.1;
    }
  }

  lemma AppendAssoc<T>(x: seq<T>, y: seq<T>, z: seq<T>)
    ensures (x + y) + z == x + (y + z)
  {
  }
}
