/** The few pieces of the .NET runtime the library leans on: nullable references,
    exceptions as values, and the 32-bit integers that comparison results are. */
module DotNet {

  const Int32MinValue: int := -0x8000_0000
  const Int32MaxValue: int := 0x7fff_ffff

  /** A 32-bit signed integer, the type of every `CompareTo` and `GetHashCode` result. */
  type int32 = x: int | Int32MinValue <= x <= Int32MaxValue

  /** A reference that may be null. */
  datatype Nullable<+T> = Null | NonNull(value: T)

  /** A call that either returns a value or throws. */
  datatype Result<+T, +E> = Success(value: T) | Failure(error: E)

  /** The exceptions the modelled code throws or lets through. */
  datatype Exception =
    | ArgumentNullException
    | ArgumentException
    | InvalidCastException
    | InvalidOperationException(message: string)

  /** The sign of a comparison result: -1, 0 or 1. */
  function Sign(x: int): (s: int)
    ensures s == -1 || s == 0 || s == 1
    ensures (s < 0 <==> x < 0) && (s == 0 <==> x == 0) && (s > 0 <==> x > 0)
  {
    if x < 0 then -1 else if x == 0 then 0 else 1
  }

  /** Two comparison outcomes are mirror images: both throw, or both return
      and their signs are opposite. This is what `IComparable` asks of
      `x.CompareTo(y)` against `y.CompareTo(x)`. */
  predicate Opposite(r1: Result<int32, Exception>, r2: Result<int32, Exception>)
  {
    (r1.Success? <==> r2.Success?) &&
    (r1.Success? ==> Sign(r1.value) == -Sign(r2.value))
  }

  /** A comparison outcome that says "not greater": returned, and at most 0. */
  predicate NotGreater(r: Result<int32, Exception>)
  {
    r.Success? && r.value <= 0
  }

  /** A comparison outcome that says "less": returned, and below 0. */
  predicate Less(r: Result<int32, Exception>)
  {
    r.Success? && r.value < 0
  }

  /** `x.CompareTo(y)` is antisymmetric over every pair of values. */
  ghost predicate Antisymmetric<C(!new)>(compareTo: (C, C) -> Result<int32, Exception>)
  {
    forall x, y :: Opposite(compareTo(x, y), compareTo(y, x))
  }

  /** Every value compares equal to itself. */
  ghost predicate Reflexive<C(!new)>(compareTo: (C, C) -> Result<int32, Exception>)
  {
    forall x :: compareTo(x, x) == Success(0)
  }
}
