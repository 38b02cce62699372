/** Bytes as Python's `bytes` objects hold them: integers 0..255. */
module Bytes {

  type byte = x: int | 0 <= x < 256

  /** A byte sequence holds only 7-bit ASCII codes. */
  predicate IsAsciiBytes(s: seq<byte>)
  {
    forall i :: 0 <= i < |s| ==> s[i] < 128
  }
}
