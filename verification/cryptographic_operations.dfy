/** .NET's `CryptographicOperations.FixedTimeEquals`, reduced to the boolean it returns: it
    rejects sequences of different lengths, otherwise ORs together the 32-bit differences of
    all byte pairs, without stopping early, and accepts when that accumulator is zero. */
module CryptographicOperations {
  import opened Types

  /** The OR of `left[i] - right[i]` over every position, each difference computed in 32-bit
      two's complement as the C# `int` subtraction of two bytes is. */
  function Differences(left: seq<byte>, right: seq<byte>): bv32
    requires |left| == |right|
  {
    if |left| == 0 then 0
    else ((left[0] as bv32) - (right[0] as bv32)) | Differences(left[1..], right[1..])
  }

  /** The difference of two bytes is zero in 32 bits exactly when the bytes are equal. */
  lemma ByteDifferenceZero(a: byte, b: byte)
    ensures (a as bv32) - (b as bv32) == 0 <==> a == b
  {
  }

  /** The accumulator stays zero exactly when no byte pair differs. */
  lemma {:induction false} NoDifferencesIffEqual(left: seq<byte>, right: seq<byte>)
    requires |left| == |right|
    ensures Differences(left, right) == 0 <==> left == right
  {
    if |left| > 0 {
      ByteDifferenceZero(left[0], right[0]);
      NoDifferencesIffEqual(left[1..], right[1..]);
      if left[0] == right[0] && left[1..] == right[1..] {
        assert left == [left[0]] + left[1..];
        assert right == [right[0]] + right[1..];
      }
    }
  }

  /** True exactly when both sequences have the same length and the same bytes. */
  function FixedTimeEquals(left: seq<byte>, right: seq<byte>): (equal: bool)
    ensures equal <==> left == right
  {
    if |left| != |right| then false
    else
      NoDifferencesIffEqual(left, right);
      Differences(left, right) == 0
  }
}
