/** Bytes, .NET integers, the failures a read can raise, and the raw byte copy
    (`new byte[size]` followed by `Array.Copy`) that `ReadBytes` performs. */
module Bytes {

  /** An unsigned 8-bit value, an element of a .NET `byte[]`. */
  newtype byte = x: int | 0 <= x < 0x100

  /** A .NET `int` (System.Int32), the type of every offset, size and count parameter. */
  type int32 = x: int | -0x8000_0000 <= x < 0x8000_0000

  /** The exceptions the mapper's reads can raise, named after their .NET types. */
  datatype Error =
    | Overflow            // `new byte[size]` with a negative size (System.OverflowException)
    | ArgumentOutOfRange  // a negative index, or a range that leaves the array (System.ArgumentOutOfRangeException)
    | Argument            // `Array.Copy` asked to copy past the end of its source (System.ArgumentException)

  /** A value, or the exception that was thrown instead of returning one. */
  datatype Result<T> = Ok(value: T) | Err(error: Error)

  /** The bytes `[offset, offset + size)` lie inside a buffer of `length` bytes. */
  predicate InSpan(length: int, offset: int, size: int) {
    0 <= offset && 0 <= size && offset + size <= length
  }

  /** What `ReadBytes(offset, size)` produces from a buffer holding `buf`: the array is
      allocated first (a negative size fails there), then `Array.Copy` checks the source
      index and the length before it copies anything. */
  function Slice(buf: seq<byte>, offset: int, size: int): (r: Result<seq<byte>>)
    ensures r.Ok? <==> InSpan(|buf|, offset, size)
    ensures r.Ok? ==> |r.value| == size && forall i :: 0 <= i < size ==> r.value[i] == buf[offset + i]
    ensures r.Err? && size < 0 ==> r.error == Overflow
  {
    if size < 0 then Err(Overflow)
    else if offset < 0 then Err(ArgumentOutOfRange)
    else if offset > |buf| - size then Err(Argument)
    else Ok(buf[offset..offset + size])
  }

  /** Allocates a `size`-byte array and has `Array.Copy` fill it from `src` at `offset`.
      The copy is a fresh array, so later writes to it never reach `src`, and nothing
      is copied when a check fails. */
  method CopyOut(src: array<byte>, offset: int32, size: int32) returns (r: Result<array<byte>>)
    ensures r.Ok? ==> fresh(r.value)
    ensures r.Ok? == Slice(src[..], offset, size).Ok?
    ensures r.Ok? ==> r.value[..] == Slice(src[..], offset, size).value
    ensures r.Err? ==> r.error == Slice(src[..], offset, size).error
  {
    if size < 0 {
      return Err(Overflow);
    }
    var result := new byte[size];
    if offset < 0 {
      return Err(ArgumentOutOfRange);
    }
    if offset > src.Length - size {
      return Err(Argument);
    }
    var i := 0;
    while i < size
      invariant 0 <= i <= size
      invariant result[..i] == src[offset..offset + i]
    {
      result[i] := src[offset + i];
      i := i + 1;
    }
    return Ok(result);
  }
}
