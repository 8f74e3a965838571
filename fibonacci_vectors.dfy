/** The literal vectors that fix the layout of `FibonacciCodec`'s output, proved against
    the model: single symbols, several symbols packed back to back, the optional header,
    the empty set and the decoder's treatment of trailing bits. Each vector is stated in
    both directions where the tests check both: `Compress` gives the bytes and
    `Decompress` gives the values back. */
module FibonacciVectors {
  import opened BitStream
  import opened Wrappers
  import opened Fibonacci

  /** No "11" ends at any index from `k` on: a form the verifier can evaluate on literals. */
  predicate NoPairFrom(d: Bits, k: nat)
    decreases |d| - k
  {
    k >= |d| || (!PairEndsAt(d, k) && NoPairFrom(d, k + 1))
  }

  lemma {:induction false} NoPairFromSound(d: Bits, k: nat)
    requires k >= 1 && NoPairFrom(d, k)
    ensures forall j :: k <= j < |d| ==> !PairEndsAt(d, j)
    decreases |d| - k
  {
    if k < |d| {
      NoPairFromSound(d, k + 1);
    }
  }

  /** The weight of the digits from `k` on, summed forwards: a form the verifier can
      evaluate on literals. */
  function WeightFrom(d: Bits, k: nat): nat
    decreases |d| - k
  {
    if k >= |d| then 0 else (if d[k] then Fib(k) else 0) + WeightFrom(d, k + 1)
  }

  lemma {:induction false} WeightFromSound(d: Bits, k: nat)
    requires k <= |d|
    ensures Weight(d) == Weight(d[..k]) + WeightFrom(d, k)
    decreases |d| - k
  {
    if k == |d| {
      assert d[..k] == d;
    } else {
      WeightFromSound(d, k + 1);
      assert d[..k + 1][..k] == d[..k];
    }
  }

  /** A symbol given by its digits: the digits have no adjacent ones, end with a one and
      are worth `v + 1`. */
  lemma {:induction false} SymbolOf(v: nat, d: Bits, c: Bits)
    requires NoPairFrom(d, 1) && |d| > 0 && d[|d| - 1]
    requires WeightFrom(d, 0) == v + 1 && c == d + [true]
    ensures Symbol(v) == c
  {
    NoPairFromSound(d, 1);
    WeightFromSound(d, 0);
    assert d[..0] == [];
    CanonicalDigits(d);
  }

  /** At most eight bits pack into the byte whose bits they are, padded with zeros. */
  lemma {:induction false} PackedByte(c: Bits, padded: Bits, b: Byte)
    requires 0 < |c| <= 8 && padded == c + Zeros(8 - |c|) && LowBits(b, 8) == padded
    ensures Pack(c) == [b]
  {
    ValueOfByteBits(b);
    PackByte(padded);
    if |c| == 8 {
      assert padded == c;
    }
  }

  /** A vector without a header: `values` have the symbols `bits`, which pack to `bytes`. */
  lemma {:induction false} HeaderlessVector(values: seq<nat>, bits: Bits, bytes: seq<Byte>)
    requires |values| > 0 && Encodable(values)
    requires Symbols(values) == bits && Pack(bits) == bytes
    ensures CompressSet(values, false) == Ok(bytes)
    ensures DecompressSet(bytes, false) == Ok(values)
  {
    CompressAccepted(values, false, []);
    assert [] + bits == bits;
    DecompressHeaderless(values);
  }

  /** A vector with a header: the code of the count and the symbols pack to `bytes`. */
  lemma {:induction false} HeaderVector(values: seq<nat>, bits: Bits, bytes: seq<Byte>)
    requires |values| > 0 && Encodable(values)
    requires Code(|values|) + Symbols(values) == bits && Pack(bits) == bytes
    ensures CompressSet(values, true) == Ok(bytes)
    ensures DecompressSet(bytes, true) == Ok(values)
  {
    CompressAccepted(values, true, Code(|values|));
    DecompressWithHeader(values);
  }

  /** Two bytes: the first eight bits and the rest, padded. */
  lemma {:induction false} PackedTwo(head: Bits, tail: Bits, padded: Bits, b0: Byte, b1: Byte)
    requires |head| == 8 && LowBits(b0, 8) == head
    requires 0 < |tail| <= 8 && padded == tail + Zeros(8 - |tail|) && LowBits(b1, 8) == padded
    ensures Pack(head + tail) == [b0, b1]
  {
    PackAppend(head, tail);
    assert head + Zeros(0) == head;
    PackedByte(head, head, b0);
    PackedByte(tail, padded, b1);
  }

  /** The symbols of a single value are its symbol. */
  lemma {:induction false} SymbolsOne(v: nat)
    requires v <= MAX_VALUE
    ensures Encodable([v]) && Symbols([v]) == Symbol(v)
  {
    var values := [v];
    SymbolsCons(values);
    assert values[1..] == [];
    assert Symbol(v) + [] == Symbol(v);
  }

  /** The symbols of three values, back to back. */
  lemma {:induction false} SymbolsThree(a: nat, b: nat, c: nat)
    requires a <= MAX_VALUE && b <= MAX_VALUE && c <= MAX_VALUE
    ensures Encodable([a, b, c]) && Symbols([a, b, c]) == Symbol(a) + (Symbol(b) + Symbol(c))
  {
    var values: seq<nat> := [a, b, c];
    assert values[1..] == [b, c] && values[1..][1..] == [c];
    SymbolsCons(values);
    SymbolsCons(values[1..]);
    SymbolsOne(c);
  }

  /** A single value whose symbol fits in one byte: `Compress` gives that byte and
      `Decompress` gives the value back. */
  lemma {:induction false} SingleVector(v: nat, c: Bits, padded: Bits, b: Byte)
    requires v <= MAX_VALUE && Symbol(v) == c
    requires |c| <= 8 && padded == c + Zeros(8 - |c|) && LowBits(b, 8) == padded
    ensures CompressSet([v], false) == Ok([b])
    ensures DecompressSet([b], false) == Ok([v])
  {
    PackedByte(c, padded, b);
    SymbolsOne(v);
    HeaderlessVector([v], c, [b]);
  }

  /** Values that are all 0 have the symbols of as many pairs of ones. */
  lemma {:induction false} SymbolsOfZeros(values: seq<nat>)
    requires forall i :: 0 <= i < |values| ==> values[i] == 0
    ensures Encodable(values) && Symbols(values) == seq(2 * |values|, i => true)
    decreases |values|
  {
    if |values| > 0 {
      SymbolsOfZeros(values[1..]);
      SymbolsCons(values);
      Symbol0();
      assert Symbols(values) == seq(2 * |values|, i => true);
    }
  }

  lemma {:induction false} Symbol0()
    ensures Symbol(0) == [true, true]
  {
    SymbolOf(0, [true], [true, true]);
  }

  lemma {:induction false} Symbol1()
    ensures Symbol(1) == [false, true, true]
  {
    SymbolOf(1, [false, true], [false, true, true]);
  }

  lemma {:induction false} Symbol2()
    ensures Symbol(2) == [false, false, true, true]
  {
    SymbolOf(2, [false, false, true], [false, false, true, true]);
  }

  lemma {:induction false} Symbol3()
    ensures Symbol(3) == [true, false, true, true]
  {
    SymbolOf(3, [true, false, true], [true, false, true, true]);
  }

  lemma {:induction false} Symbol4()
    ensures Symbol(4) == [false, false, false, true, true]
  {
    SymbolOf(4, [false, false, false, true], [false, false, false, true, true]);
  }

  lemma {:induction false} Symbol5()
    ensures Symbol(5) == [true, false, false, true, true]
  {
    SymbolOf(5, [true, false, false, true], [true, false, false, true, true]);
  }

  lemma {:induction false} Symbol6()
    ensures Symbol(6) == [false, true, false, true, true]
  {
    SymbolOf(6, [false, true, false, true], [false, true, false, true, true]);
  }

  lemma {:induction false} Symbol7()
    ensures Symbol(7) == [false, false, false, false, true, true]
  {
    SymbolOf(7, [false, false, false, false, true], [false, false, false, false, true, true]);
  }

  lemma {:induction false} Symbol8()
    ensures Symbol(8) == [true, false, false, false, true, true]
  {
    SymbolOf(8, [true, false, false, false, true], [true, false, false, false, true, true]);
  }

  lemma {:induction false} Symbol9()
    ensures Symbol(9) == [false, true, false, false, true, true]
  {
    SymbolOf(9, [false, true, false, false, true], [false, true, false, false, true, true]);
  }

  lemma {:induction false} Symbol10()
    ensures Symbol(10) == [false, false, true, false, true, true]
  {
    SymbolOf(10, [false, false, true, false, true], [false, false, true, false, true, true]);
  }

  lemma {:induction false} Symbol11()
    ensures Symbol(11) == [true, false, true, false, true, true]
  {
    SymbolOf(11, [true, false, true, false, true], [true, false, true, false, true, true]);
  }

  lemma {:induction false} Symbol12()
    ensures Symbol(12) == [false, false, false, false, false, true, true]
  {
    SymbolOf(12, [false, false, false, false, false, true], [false, false, false, false, false, true, true]);
  }

  lemma {:induction false} Symbol13()
    ensures Symbol(13) == [true, false, false, false, false, true, true]
  {
    SymbolOf(13, [true, false, false, false, false, true], [true, false, false, false, false, true, true]);
  }

  /** `Compress_0` and `Decompress_0`: 0 is `11000000`. */
  lemma {:induction false} Vector0()
    ensures CompressSet([0], false) == Ok([0xC0])
    ensures DecompressSet([0xC0], false) == Ok([0])
  {
    Symbol0();
    BitsC0();
    SingleVector(0, [true, true], [true, true, false, false, false, false, false, false], 0xC0);
  }

  /** `Compress_1` and `Decompress_1`: 1 is `01100000`. */
  lemma {:induction false} Vector1()
    ensures CompressSet([1], false) == Ok([0x60])
    ensures DecompressSet([0x60], false) == Ok([1])
  {
    Symbol1();
    Bits60();
    SingleVector(1, [false, true, true], [false, true, true, false, false, false, false, false], 0x60);
  }

  /** `Compress_2` and `Decompress_2`: 2 is `00110000`. */
  lemma {:induction false} Vector2()
    ensures CompressSet([2], false) == Ok([0x30])
    ensures DecompressSet([0x30], false) == Ok([2])
  {
    Symbol2();
    Bits30();
    SingleVector(2, [false, false, true, true], [false, false, true, true, false, false, false, false], 0x30);
  }

  /** `Compress_3` and `Decompress_3`: 3 is `10110000`. */
  lemma {:induction false} Vector3()
    ensures CompressSet([3], false) == Ok([0xB0])
    ensures DecompressSet([0xB0], false) == Ok([3])
  {
    Symbol3();
    BitsB0();
    SingleVector(3, [true, false, true, true], [true, false, true, true, false, false, false, false], 0xB0);
  }

  /** `Compress_4` and `Decompress_4`: 4 is `00011000`. */
  lemma {:induction false} Vector4()
    ensures CompressSet([4], false) == Ok([0x18])
    ensures DecompressSet([0x18], false) == Ok([4])
  {
    Symbol4();
    Bits18();
    SingleVector(4, [false, false, false, true, true], [false, false, false, true, true, false, false, false], 0x18);
  }

  /** `Compress_5` and `Decompress_5`: 5 is `10011000`. */
  lemma {:induction false} Vector5()
    ensures CompressSet([5], false) == Ok([0x98])
    ensures DecompressSet([0x98], false) == Ok([5])
  {
    Symbol5();
    Bits98();
    SingleVector(5, [true, false, false, true, true], [true, false, false, true, true, false, false, false], 0x98);
  }

  /** `Compress_6` and `Decompress_6`: 6 is `01011000`. */
  lemma {:induction false} Vector6()
    ensures CompressSet([6], false) == Ok([0x58])
    ensures DecompressSet([0x58], false) == Ok([6])
  {
    Symbol6();
    Bits58();
    SingleVector(6, [false, true, false, true, true], [false, true, false, true, true, false, false, false], 0x58);
  }

  /** `Compress_7` and `Decompress_7`: 7 is `00001100`. */
  lemma {:induction false} Vector7()
    ensures CompressSet([7], false) == Ok([0x0C])
    ensures DecompressSet([0x0C], false) == Ok([7])
  {
    Symbol7();
    Bits0C();
    SingleVector(7, [false, false, false, false, true, true], [false, false, false, false, true, true, false, false], 0x0C);
  }

  /** `Compress_8` and `Decompress_8`: 8 is `10001100`. */
  lemma {:induction false} Vector8()
    ensures CompressSet([8], false) == Ok([0x8C])
    ensures DecompressSet([0x8C], false) == Ok([8])
  {
    Symbol8();
    Bits8C();
    SingleVector(8, [true, false, false, false, true, true], [true, false, false, false, true, true, false, false], 0x8C);
  }

  /** `Compress_9` and `Decompress_9`: 9 is `01001100`. */
  lemma {:induction false} Vector9()
    ensures CompressSet([9], false) == Ok([0x4C])
    ensures DecompressSet([0x4C], false) == Ok([9])
  {
    Symbol9();
    Bits4C();
    SingleVector(9, [false, true, false, false, true, true], [false, true, false, false, true, true, false, false], 0x4C);
  }

  /** `Compress_10` and `Decompress_10`: 10 is `00101100`. */
  lemma {:induction false} Vector10()
    ensures CompressSet([10], false) == Ok([0x2C])
    ensures DecompressSet([0x2C], false) == Ok([10])
  {
    Symbol10();
    Bits2C();
    SingleVector(10, [false, false, true, false, true, true], [false, false, true, false, true, true, false, false], 0x2C);
  }

  /** `Compress_11` and `Decompress_11`: 11 is `10101100`. */
  lemma {:induction false} Vector11()
    ensures CompressSet([11], false) == Ok([0xAC])
    ensures DecompressSet([0xAC], false) == Ok([11])
  {
    Symbol11();
    BitsAC();
    SingleVector(11, [true, false, true, false, true, true], [true, false, true, false, true, true, false, false], 0xAC);
  }

  /** `Compress_12`: 12 is `00000110`. */
  lemma {:induction false} Vector12()
    ensures CompressSet([12], false) == Ok([0x06])
    ensures DecompressSet([0x06], false) == Ok([12])
  {
    Symbol12();
    Bits06();
    SingleVector(12, [false, false, false, false, false, true, true], [false, false, false, false, false, true, true, false], 0x06);
  }

  /** `Compress_13`: 13 is `10000110`. */
  lemma {:induction false} Vector13()
    ensures CompressSet([13], false) == Ok([0x86])
    ensures DecompressSet([0x86], false) == Ok([13])
  {
    Symbol13();
    Bits86();
    SingleVector(13, [true, false, false, false, false, true, true], [true, false, false, false, false, true, true, false], 0x86);
  }

  /** `Compress_0_1_2` and `Decompress_0_1_2`: 0, 1, 2 are `11011001 10000000`. */
  lemma {:induction false} Vector012()
    ensures CompressSet([0, 1, 2], false) == Ok([0xD9, 0x80])
    ensures DecompressSet([0xD9, 0x80], false) == Ok([0, 1, 2])
  {
    var head, tail := [true, true, false, true, true, false, false, true], [true];
    SymbolsThree(0, 1, 2);
    Symbol0();
    Symbol1();
    Symbol2();
    assert Symbols([0, 1, 2]) == head + tail;
    BitsD9();
    Bits80();
    PackedTwo(head, tail, [true, false, false, false, false, false, false, false], 0xD9, 0x80);
    HeaderlessVector([0, 1, 2], head + tail, [0xD9, 0x80]);
  }

  /** `Compress_10x1` and `Compress_10xSize`: ten zeros are twenty ones, in three bytes. */
  lemma {:induction false} VectorTenZeros(values: seq<nat>)
    requires |values| == 10 && forall i :: 0 <= i < |values| ==> values[i] == 0
    ensures CompressSet(values, false) == Ok([0xFF, 0xFF, 0xF0])
  {
    SymbolsOfZeros(values);
    var ones, four := [true, true, true, true, true, true, true, true], [true, true, true, true];
    assert seq(20, i => true) == ones + (ones + four);
    BitsFF();
    BitsF0();
    PackedTwo(ones, four, [true, true, true, true, false, false, false, false], 0xFF, 0xF0);
    PackAppend(ones, ones + four);
    assert ones + Zeros(0) == ones;
    PackedByte(ones, ones, 0xFF);
    HeaderlessVector(values, ones + (ones + four), [0xFF, 0xFF, 0xF0]);
  }

  /** `Decompress_0_0_0_0`: a full byte of ones is four zeros, with no value made up from
      padding. */
  lemma {:induction false} VectorFourZeros(values: seq<nat>)
    requires |values| == 4 && forall i :: 0 <= i < |values| ==> values[i] == 0
    ensures DecompressSet([0xFF], false) == Ok(values)
  {
    SymbolsOfZeros(values);
    var ones := [true, true, true, true, true, true, true, true];
    assert seq(8, i => true) == ones;
    BitsFF();
    assert ones + Zeros(0) == ones;
    PackedByte(ones, ones, 0xFF);
    HeaderlessVector(values, ones, [0xFF]);
  }

  /** `Compress_0_WithHeader` and `Decompress_0_WithHeader`: the header 11 declares one
      value, then 0. */
  lemma {:induction false} HeaderVector0()
    ensures CompressSet([0], true) == Ok([0xF0])
    ensures DecompressSet([0xF0], true) == Ok([0])
  {
    Symbol0();
    SymbolsOne(0);
    BitsF0();
    PackedByte([true, true, true, true], [true, true, true, true, false, false, false, false], 0xF0);
    HeaderVector([0], [true, true, true, true], [0xF0]);
  }

  /** `Compress_1_WithHeader` and `Decompress_1_WithHeader`: the header 11 declares one
      value, then 1. */
  lemma {:induction false} HeaderVector1()
    ensures CompressSet([1], true) == Ok([0xD8])
    ensures DecompressSet([0xD8], true) == Ok([1])
  {
    Symbol0();
    Symbol1();
    SymbolsOne(1);
    BitsD8();
    PackedByte([true, true, false, true, true], [true, true, false, true, true, false, false, false], 0xD8);
    HeaderVector([1], [true, true, false, true, true], [0xD8]);
  }

  /** `Compress_2_WithHeader` and `Decompress_2_WithHeader`: the header 11 declares one
      value, then 2. */
  lemma {:induction false} HeaderVector2()
    ensures CompressSet([2], true) == Ok([0xCC])
    ensures DecompressSet([0xCC], true) == Ok([2])
  {
    Symbol0();
    Symbol2();
    SymbolsOne(2);
    BitsCC();
    PackedByte([true, true, false, false, true, true], [true, true, false, false, true, true, false, false], 0xCC);
    HeaderVector([2], [true, true, false, false, true, true], [0xCC]);
  }

  /** `Compress_0_1_2_WithHeader` and `Decompress_0_1_2_WithHeader`: the header 0011
      declares three values, then 0, 1, 2. */
  lemma {:induction false} HeaderVector012()
    ensures CompressSet([0, 1, 2], true) == Ok([0x3D, 0x98])
    ensures DecompressSet([0x3D, 0x98], true) == Ok([0, 1, 2])
  {
    var head, tail := [false, false, true, true, true, true, false, true], [true, false, false, true, true];
    SymbolsThree(0, 1, 2);
    Symbol0();
    Symbol1();
    Symbol2();
    assert Code(3) + Symbols([0, 1, 2]) == head + tail;
    Bits3D();
    Bits98();
    PackedTwo(head, tail, [true, false, false, true, true, false, false, false], 0x3D, 0x98);
    HeaderVector([0, 1, 2], head + tail, [0x3D, 0x98]);
  }

  /** `Decompress_0_WithHeader_WithTrailingJunk`: with a header, `11111111` is the header
      for one value and the value 0; the four ones after them are ignored. */
  lemma {:induction false} HeaderVectorTrailingJunk()
    ensures DecompressSet([0xFF], true) == Ok([0])
  {
    BitsFF();
    UnpackOne(0xFF);
    Symbol0();
    SymbolsOne(0);
    assert Unpack([0xFF]) == Code(1) + Symbols([0]) + [true, true, true, true];
    DecodeHeaderAndSymbols([0], [0xFF], [true, true, true, true]);
  }

  /** `Compress_NoParams`: an empty set is refused. The test has no header; refusing it
      with a header as well is the model's reading. */
  lemma {:induction false} VectorEmpty()
    ensures CompressSet([], false) == Err(EmptySet)
    ensures CompressSet([], true) == Err(EmptySet)
  {
  }

  // The bits of the bytes above, most significant first.

  lemma {:induction false} Bits06()
    ensures LowBits(0x06, 8) == [false, false, false, false, false, true, true, false]
  {
  }

  lemma {:induction false} Bits0C()
    ensures LowBits(0x0C, 8) == [false, false, false, false, true, true, false, false]
  {
  }

  lemma {:induction false} Bits18()
    ensures LowBits(0x18, 8) == [false, false, false, true, true, false, false, false]
  {
  }

  lemma {:induction false} Bits2C()
    ensures LowBits(0x2C, 8) == [false, false, true, false, true, true, false, false]
  {
  }

  lemma {:induction false} Bits30()
    ensures LowBits(0x30, 8) == [false, false, true, true, false, false, false, false]
  {
  }

  lemma {:induction false} Bits3D()
    ensures LowBits(0x3D, 8) == [false, false, true, true, true, true, false, true]
  {
  }

  lemma {:induction false} Bits4C()
    ensures LowBits(0x4C, 8) == [false, true, false, false, true, true, false, false]
  {
  }

  lemma {:induction false} Bits58()
    ensures LowBits(0x58, 8) == [false, true, false, true, true, false, false, false]
  {
  }

  lemma {:induction false} Bits60()
    ensures LowBits(0x60, 8) == [false, true, true, false, false, false, false, false]
  {
  }

  lemma {:induction false} Bits80()
    ensures LowBits(0x80, 8) == [true, false, false, false, false, false, false, false]
  {
  }

  lemma {:induction false} Bits86()
    ensures LowBits(0x86, 8) == [true, false, false, false, false, true, true, false]
  {
  }

  lemma {:induction false} Bits8C()
    ensures LowBits(0x8C, 8) == [true, false, false, false, true, true, false, false]
  {
  }

  lemma {:induction false} Bits98()
    ensures LowBits(0x98, 8) == [true, false, false, true, true, false, false, false]
  {
  }

  lemma {:induction false} BitsAC()
    ensures LowBits(0xAC, 8) == [true, false, true, false, true, true, false, false]
  {
  }

  lemma {:induction false} BitsB0()
    ensures LowBits(0xB0, 8) == [true, false, true, true, false, false, false, false]
  {
  }

  lemma {:induction false} BitsC0()
    ensures LowBits(0xC0, 8) == [true, true, false, false, false, false, false, false]
  {
  }

  lemma {:induction false} BitsCC()
    ensures LowBits(0xCC, 8) == [true, true, false, false, true, true, false, false]
  {
  }

  lemma {:induction false} BitsD8()
    ensures LowBits(0xD8, 8) == [true, true, false, true, true, false, false, false]
  {
  }

  lemma {:induction false} BitsD9()
    ensures LowBits(0xD9, 8) == [true, true, false, true, true, false, false, true]
  {
  }

  lemma {:induction false} BitsF0()
    ensures LowBits(0xF0, 8) == [true, true, true, true, false, false, false, false]
  {
  }

  lemma {:induction false} BitsFF()
    ensures LowBits(0xFF, 8) == [true, true, true, true, true, true, true, true]
  {
  }
}
