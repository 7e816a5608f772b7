/** Machine-level building blocks: unsigned 8-bit values and C strings. */
module Bytes {

  /** An unsigned 8-bit value (`uint8_t`, or a `char` read through a `uint8_t` cast). */
  type byte = b: int | 0 <= b < 256

  /** ASCII codes the firmware writes into its strings. */
  const LF: byte := 10
  const CR: byte := 13
  const DIGIT_ZERO: byte := 48

  /** `strlen`: the number of bytes before the first NUL, or the whole buffer
      when it holds no NUL. */
  function CLength(s: seq<byte>): (n: nat)
    ensures n <= |s|
    ensures forall i :: 0 <= i < n ==> s[i] != 0
    ensures n < |s| ==> s[n] == 0
  {
    if |s| == 0 || s[0] == 0 then 0 else 1 + CLength(s[1..])
  }

  /** A buffer without NUL is read by `strlen` in full. */
  lemma CLengthOfNulFree(s: seq<byte>)
    requires forall i :: 0 <= i < |s| ==> s[i] != 0
    ensures CLength(s) == |s|
  {
  }
}
