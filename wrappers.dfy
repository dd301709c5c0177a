/** Failure-carrying values shared by every module of the model.
    A .NET exception becomes a `Failure` carrying an `Exception` value;
    a reference that may be null becomes an `Option`. */
module Wrappers {

  datatype Option<+T> = None | Some(value: T)

  /** The exceptions the modelled code throws (or lets escape from the
      framework calls it makes). */
  datatype Exception =
    | ArgumentNull(paramName: string)
    | ArgumentOutOfRange(paramName: string)
    | NullReference
    | InvalidOperation(message: string)
    | Format
    | Overflow

  datatype Result<+T> = Success(value: T) | Failure(error: Exception)

  /** The range of C#'s `int`. */
  const Int32Max: int := 0x7FFF_FFFF
  const Int32Min: int := -0x8000_0000

  /** C#'s unchecked `int` arithmetic: x reduced modulo 2^32 into [-2^31, 2^31). */
  function Wrap32(x: int): (r: int)
    ensures Int32Min <= r <= Int32Max
    ensures Int32Min <= x <= Int32Max ==> r == x
    ensures (r - x) % 0x1_0000_0000 == 0
    decreases if x > Int32Max then x - Int32Max else if x < Int32Min then Int32Min - x else 0
  {
    if x > Int32Max then Wrap32(x - 0x1_0000_0000)
    else if x < Int32Min then Wrap32(x + 0x1_0000_0000)
    else x
  }
}
