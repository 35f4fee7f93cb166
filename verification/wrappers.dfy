/** Option/Result carriers for the Java nulls and exceptions of the pantheon libraries. */
module Wrappers {

  /** A value that may be absent; stands in for a nullable Java reference. */
  datatype Option<+T> = None | Some(value: T)

  /** The outcome of an operation that can throw: a value, or the exception it raised. */
  datatype Result<+T, +E> = Ok(value: T) | Err(error: E) {

    predicate IsFailure() {
      Err?
    }

    function PropagateFailure<U>(): Result<U, E>
      requires Err?
    {
      Err(error)
    }

    function Extract(): T
      requires Ok?
    {
      value
    }
  }

  /** The Java exception classes the modelled code throws, with their messages. */
  datatype Failure =
    | NullPointer(message: string)
    | IllegalArgument(message: string)
    | NumberFormat(message: string)
    | IllegalState(message: string)
    | Arithmetic(message: string)
    | UnsupportedOperation(message: string)

  /** Java's `int` range; arguments the source declares as `int` are kept inside it. */
  const MinInt: int := -0x8000_0000
  const MaxInt: int := 0x7fff_ffff

  predicate IsJavaInt(x: int) {
    MinInt <= x <= MaxInt
  }

  /** The Java `int` that an arithmetic result wraps around to. */
  function WrapInt(x: int): (r: int)
    ensures IsJavaInt(r)
    ensures (r - x) % 0x1_0000_0000 == 0
    ensures IsJavaInt(x) ==> r == x
  {
    (x - MinInt) % 0x1_0000_0000 + MinInt
  }

  /** `Integer.compare`-style sign of a difference. */
  function Sign(x: int): (s: int)
    ensures s == -1 || s == 0 || s == 1
    ensures s < 0 <==> x < 0
    ensures s > 0 <==> x > 0
  {
    if x < 0 then -1 else if x > 0 then 1 else 0
  }

  function Max(a: int, b: int): int {
    if a < b then b else a
  }

  function Min(a: int, b: int): int {
    if a < b then a else b
  }
}
