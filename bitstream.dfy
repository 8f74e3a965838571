/** The bit-level foundation shared by the codecs: unsigned 64-bit words, bytes, bit
    sequences written most-significant bit first, and the packing of a bit sequence into
    bytes, where the final partial byte is padded with zero bits. */
module BitStream {

  type Byte = x: nat | x < 256

  /** An unsigned 64-bit integer (C# `ulong`). */
  type U64 = x: nat | x < 0x1_0000_0000_0000_0000

  const U64_MODULUS: nat := 0x1_0000_0000_0000_0000

  /** A stream of bits in the order they are written or read. */
  type Bits = seq<bool>

  function Pow2(n: nat): (r: nat)
    ensures r >= 1
  {
    if n == 0 then 1 else 2 * Pow2(n - 1)
  }

  lemma {:induction false} Pow2Add(a: nat, b: nat)
    ensures Pow2(a + b) == Pow2(a) * Pow2(b)
  {
    if a > 0 {
      Pow2Add(a - 1, b);
    }
  }

  lemma {:induction false} Pow2Monotone(a: nat, b: nat)
    requires a <= b
    ensures Pow2(a) <= Pow2(b)
  {
    if a < b {
      Pow2Monotone(a, b - 1);
    }
  }

  lemma {:induction false} Pow2Byte()
    ensures Pow2(7) == 128 && Pow2(8) == 256
  {
  }

  lemma {:induction false} Pow2Half()
    ensures Pow2(32) == 0x1_0000_0000
  {
    Pow2Byte();
    Pow2Add(8, 8);
    Pow2Add(16, 16);
  }

  lemma {:induction false} Pow2Constants()
    ensures Pow2(7) == 128 && Pow2(8) == 256 && Pow2(64) == U64_MODULUS
  {
    Pow2Byte();
    Pow2Half();
    Pow2Add(32, 32);
  }

  lemma {:induction false} MulMonotone(d: int, a: int, b: int)
    requires d > 0 && a <= b
    ensures d * a <= d * b
  {
  }

  /** Division with remainder has a unique answer. */
  lemma {:induction false} DivModUnique(v: int, d: int, q: int, r: int)
    requires d > 0 && 0 <= r < d && v == d * q + r
    ensures v / d == q && v % d == r
  {
    var q', r' := v / d, v % d;
    assert v == d * q' + r';
    if q < q' {
      MulMonotone(d, q + 1, q');
    } else if q' < q {
      MulMonotone(d, q' + 1, q);
    }
  }

  function BitValue(b: bool): nat
  {
    if b then 1 else 0
  }

  /** The number whose binary digits, most significant first, are `bits`. */
  function ValueOf(bits: Bits): nat
  {
    if |bits| == 0 then 0
    else 2 * ValueOf(bits[..|bits| - 1]) + BitValue(bits[|bits| - 1])
  }

  /** `n` bits stand for a number below `2^n`. */
  lemma {:induction false} ValueOfBound(bits: Bits)
    ensures ValueOf(bits) < Pow2(|bits|)
    decreases |bits|
  {
    if |bits| > 0 {
      ValueOfBound(bits[..|bits| - 1]);
    }
  }

  /** The `n` least-significant bits of `v`, most significant first: what the bit writer
      appends for a call `Write(v, n)`. */
  function LowBits(v: nat, n: nat): (r: Bits)
    ensures |r| == n
  {
    if n == 0 then [] else LowBits(v / 2, n - 1) + [v % 2 == 1]
  }

  lemma {:induction false} DivModStep(v: nat, m: nat)
    requires m >= 1
    ensures 2 * ((v / 2) % m) + v % 2 == v % (2 * m)
  {
    var q, r := v / 2, v % 2;
    var a, c := q / m, q % m;
    assert v == 2 * m * a + (2 * c + r);
    DivModUnique(v, 2 * m, a, 2 * c + r);
  }

  lemma {:induction false} ValueOfLowBits(v: nat, n: nat)
    ensures ValueOf(LowBits(v, n)) == v % Pow2(n)
  {
    if n > 0 {
      var bits := LowBits(v, n);
      assert bits[..n - 1] == LowBits(v / 2, n - 1);
      ValueOfLowBits(v / 2, n - 1);
      DivModStep(v, Pow2(n - 1));
    }
  }

  lemma {:induction false} LowBitsOfValue(bits: Bits)
    ensures LowBits(ValueOf(bits), |bits|) == bits
  {
    if |bits| > 0 {
      var init := bits[..|bits| - 1];
      var v := ValueOf(bits);
      assert v == 2 * ValueOf(init) + BitValue(bits[|bits| - 1]);
      assert v / 2 == ValueOf(init) && (v % 2 == 1) == bits[|bits| - 1];
      LowBitsOfValue(init);
      assert bits == init + [bits[|bits| - 1]];
    }
  }

  lemma {:induction false} ShiftDistributes(va: nat, p: nat, vb: nat, x: nat)
    ensures 2 * (va * p + vb) + x == va * (2 * p) + (2 * vb + x)
  {
  }

  lemma {:induction false} ValueOfAppend(a: Bits, b: Bits)
    ensures ValueOf(a + b) == ValueOf(a) * Pow2(|b|) + ValueOf(b)
  {
    if |b| == 0 {
      assert a + b == a;
    } else {
      var b' := b[..|b| - 1];
      var x := BitValue(b[|b| - 1]);
      assert (a + b)[..|a + b| - 1] == a + b';
      assert (a + b)[|a + b| - 1] == b[|b| - 1];
      ValueOfAppend(a, b');
      assert ValueOf(a + b) == 2 * ValueOf(a + b') + x;
      assert ValueOf(b) == 2 * ValueOf(b') + x;
      assert Pow2(|b|) == 2 * Pow2(|b'|);
      ShiftDistributes(ValueOf(a), Pow2(|b'|), ValueOf(b'), x);
    }
  }

  function Zeros(n: nat): (r: Bits)
    ensures |r| == n && forall i :: 0 <= i < n ==> !r[i]
  {
    seq(n, i => false)
  }

  /** The number of zero bits that pad `n` bits to a whole number of bytes. */
  function PadLength(n: nat): nat
  {
    (8 - n % 8) % 8
  }

  lemma {:induction false} PadLengthPartial(n: nat)
    requires 0 < n < 8
    ensures PadLength(n) == 8 - n
  {
    DivModUnique(n, 8, 0, n);
    DivModUnique(8 - n, 8, 0, 8 - n);
  }

  lemma {:induction false} PadLengthStep(n: nat)
    ensures PadLength(n + 8) == PadLength(n)
  {
    DivModUnique(n + 8, 8, n / 8 + 1, n % 8);
  }

  /** The bytes a bit writer emits for `bits` once finished: eight bits per byte, most
      significant first, the last byte padded with zero bits. */
  function Pack(bits: Bits): (r: seq<Byte>)
    ensures |r| == (|bits| + 7) / 8
    decreases |bits|
  {
    Pow2Byte();
    if |bits| == 0 then []
    else if |bits| < 8 then
      ValueOfBound(bits + Zeros(8 - |bits|));
      [ValueOf(bits + Zeros(8 - |bits|))]
    else
      ValueOfBound(bits[..8]);
      [ValueOf(bits[..8])] + Pack(bits[8..])
  }

  lemma {:induction false} PackByte(bits: Bits)
    requires |bits| == 8
    ensures Pack(bits) == [ValueOf(bits)]
  {
    assert bits[..8] == bits && bits[8..] == [];
  }

  /** The bits a bit reader yields for `bytes`, most significant bit of each byte first. */
  function Unpack(bytes: seq<Byte>): (r: Bits)
    ensures |r| == 8 * |bytes|
  {
    if |bytes| == 0 then [] else LowBits(bytes[0], 8) + Unpack(bytes[1..])
  }

  lemma {:induction false} UnpackOne(b: Byte)
    ensures Unpack([b]) == LowBits(b, 8)
  {
    assert [b][1..] == [];
  }

  /** Eight bits make a byte whose bits they are. */
  lemma {:induction false} UnpackByte(bits: Bits)
    requires |bits| == 8
    ensures ValueOf(bits) < 256 && Unpack([ValueOf(bits)]) == bits
  {
    Pow2Byte();
    ValueOfBound(bits);
    var b: Byte := ValueOf(bits);
    LowBitsOfValue(bits);
    UnpackOne(b);
  }

  /** A byte is the value of its bits. */
  lemma {:induction false} ValueOfByteBits(b: Byte)
    ensures ValueOf(LowBits(b, 8)) == b
  {
    ValueOfLowBits(b, 8);
    Pow2Byte();
    DivModUnique(b, 256, 0, b);
  }

  lemma {:induction false} UnpackPackPartial(bits: Bits)
    requires 0 < |bits| < 8
    ensures Unpack(Pack(bits)) == bits + Zeros(PadLength(|bits|))
  {
    var full := bits + Zeros(8 - |bits|);
    UnpackByte(full);
    assert Pack(bits) == [ValueOf(full)];
    PadLengthPartial(|bits|);
  }

  lemma {:induction false} UnpackPack(bits: Bits)
    ensures Unpack(Pack(bits)) == bits + Zeros(PadLength(|bits|))
    decreases |bits|
  {
    if |bits| == 0 {
    } else if |bits| < 8 {
      UnpackPackPartial(bits);
    } else {
      var head, tail := bits[..8], bits[8..];
      LowBitsOfValue(head);
      UnpackPack(tail);
      var p := Pack(bits);
      assert p == [ValueOf(head)] + Pack(tail);
      assert p[0] == ValueOf(head) && p[1..] == Pack(tail);
      assert Unpack(p) == LowBits(p[0], 8) + Unpack(p[1..]);
      PadLengthStep(|tail|);
      assert bits == head + tail;
    }
  }

  lemma {:induction false} PackUnpack(bytes: seq<Byte>)
    ensures Pack(Unpack(bytes)) == bytes
  {
    if |bytes| > 0 {
      var u := Unpack(bytes);
      ValueOfByteBits(bytes[0]);
      assert u[..8] == LowBits(bytes[0], 8);
      assert u[8..] == Unpack(bytes[1..]);
      PackUnpack(bytes[1..]);
    }
  }

  lemma {:induction false} PackAppend(a: Bits, b: Bits)
    requires |a| % 8 == 0
    ensures Pack(a + b) == Pack(a) + Pack(b)
    decreases |a|
  {
    if |a| == 0 {
      assert a + b == b;
    } else {
      assert (a + b)[..8] == a[..8];
      assert (a + b)[8..] == a[8..] + b;
      PackAppend(a[8..], b);
    }
  }
}
