/** The ZigZag mapping of Protocol Buffers ("Signed Integers", sint64): it interleaves
    signed 64-bit integers into unsigned ones, 0, -1, 1, -2, 2, ... to 0, 1, 2, 3, 4, ... */
module ZigZag {
  import opened BitStream

  /** A signed 64-bit integer (C# `long`). */
  type I64 = x: int | -0x8000_0000_0000_0000 <= x < 0x8000_0000_0000_0000

  /** Decoding, given by the number each word stands for rather than by the C# decoder's
      bit operations: even words are the non-negative integers, odd words the negative
      ones. The model does not prove that this is what those bit operations compute. */
  function Decode(n: U64): (r: I64)
    ensures r >= 0 <==> n % 2 == 0
    ensures n == if r >= 0 then 2 * r else -2 * r - 1
  {
    if n % 2 == 0 then n / 2 else -(n / 2) - 1
  }

  /** Encoding, likewise given by numbers rather than by the C# encoder's shifts and XOR. */
  function Encode(x: I64): (r: U64)
    ensures r % 2 == 0 <==> x >= 0
  {
    if x >= 0 then 2 * x else -2 * x - 1
  }

  lemma {:induction false} DecodeEncode(x: I64)
    ensures Decode(Encode(x)) == x
  {
  }

  lemma {:induction false} EncodeDecode(n: U64)
    ensures Encode(Decode(n)) == n
  {
  }

  /** Encoding orders integers by magnitude, a negative value just before its opposite. */
  lemma {:induction false} EncodeOrder(x: I64, y: I64)
    ensures Encode(x) < Encode(y) <==>
      (Abs(x) < Abs(y) || (Abs(x) == Abs(y) && x < 0 && y > 0))
  {
  }

  function Abs(x: int): nat
  {
    if x < 0 then -x else x
  }
}
