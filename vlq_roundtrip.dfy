/** The VLQ writer and reader are inverses: what `WriteAll` produces with the default packet
    size, the standard reader reads back value for value, and a signed reader reads back the
    ZigZag encodings of signed values. */
module VlqRoundTrip {
  import opened BitStream
  import opened Wrappers
  import ZigZag
  import opened VlqWriter
  import opened VlqReader
  import opened VlqSignedReader
  import opened VlqFraming

  lemma {:induction false} DefaultSinglePacketMax()
    ensures SinglePacketMax(7) == 127
  {
    Pow2Byte();
  }

  /** The bytes of one value written with the default packet size: a value up to 127 is
      the single byte `0x80 + v`, a larger one is the byte of its low seven bits followed
      by the bytes of what remains. */
  function Written(v: nat): (r: seq<Byte>)
    ensures |r| >= 1
    decreases v
  {
    if v <= 127 then [0x80 + v]
    else
      DefaultSinglePacketMax();
      [v % 128] + Written(Remaining(v, 7))
  }

  /** `Written` is what the bit writer emits for the value's packets. */
  lemma {:induction false} PackWritten(v: nat)
    ensures Pack(EncodeBits(v, 7)) == Written(v)
    decreases v
  {
    PackedPackets(v);
    DefaultSinglePacketMax();
    if v > 127 {
      PackWritten(Remaining(v, 7));
    }
  }

  /** The bytes of several values written one after another. */
  function WrittenAll(values: seq<U64>): (r: seq<Byte>)
    ensures |r| >= |values|
  {
    if |values| == 0 then [] else Written(values[0]) + WrittenAll(values[1..])
  }

  lemma {:induction false} PackWrittenAll(values: seq<U64>)
    ensures Pack(EncodeAll(values, 7)) == WrittenAll(values)
    decreases |values|
  {
    if |values| == 0 {
      assert Pack([]) == [];
    } else {
      PackEncodeAll(values);
      PackWritten(values[0]);
      PackWrittenAll(values[1..]);
    }
  }

  lemma {:induction false} ShiftBound(x: nat, c: nat)
    requires x >= 1 && x * Pow2(c) < U64_MODULUS
    ensures c < 64
  {
    Pow2Constants();
    if c >= 64 {
      Pow2Monotone(64, c);
      MulMonotone(Pow2(c), 1, x);
    }
  }

  /** A shift that loses no bits is a multiplication. */
  lemma {:induction false} ShiftExact(x: nat, c: nat)
    requires x >= 1 && x * Pow2(c) < U64_MODULUS
    ensures c < 64 && ShiftLeft(x, c) == x * Pow2(c)
  {
    ShiftBound(x, c);
    DivModUnique(c, 64, 0, c);
    var p := x * Pow2(c);
    DivModUnique(p, U64_MODULUS, 0, p);
  }

  lemma {:induction false} SmallShift(x: nat)
    requires x < 128
    ensures ShiftLeft(x, 0) == x
  {
    Pow2Constants();
    DivModUnique(x, U64_MODULUS, 0, x);
  }

  lemma {:induction false} NoWrap(a: U64, b: U64)
    requires a + b < U64_MODULUS
    ensures WrappingAdd(a, b) == a + b
  {
    DivModUnique(a + b, U64_MODULUS, 0, a + b);
  }

  lemma {:induction false} Regroup(a: nat, q: nat, p: nat)
    ensures (a + 1) * p + q * (p * 128) == (a + q * 128 + 1) * p
  {
  }

  /** A larger value splits into its first byte's payload and the value that follows. */
  lemma {:induction false} Split(w: nat)
    requires w > 127
    ensures w == w % 128 + (Remaining(w, 7) + 1) * 128
  {
    Pow2Constants();
    Recombine(w, 7);
    ValueOfLowBits(w, 7);
  }

  /** One turn of the body loop. */
  lemma {:induction false} BodyStep(s: seq<Byte>, at: nat, acc: U64, pos: nat, current: Byte)
    requires !IsLastByte(current) && at < |s|
    ensures ReadBody(s, at, acc, pos, current)
         == ReadBody(s, at + 1, WrappingAdd(acc, ShiftLeft(Payload(s[at]) + 1, pos + 7)), pos + 7, s[at])
  {
  }

  lemma {:induction false} ReadBodyOfWrittenSmall(w: nat, s: seq<Byte>, at: nat, acc: U64, pos: nat, current: Byte)
    requires !IsLastByte(current) && w <= 127 && at < |s| && s[at] == 0x80 + w
    requires acc + (w + 1) * Pow2(pos + 7) < U64_MODULUS
    ensures ReadBody(s, at, acc, pos, current) == Ok(Value(acc + (w + 1) * Pow2(pos + 7), at + 1))
  {
    BodyStep(s, at, acc, pos, current);
    DivModUnique(s[at], 128, 1, w);
    ShiftExact(w + 1, pos + 7);
    NoWrap(acc, (w + 1) * Pow2(pos + 7));
  }

  /** The body loop over the bytes of a value `w` that follows seven bits higher up. */
  lemma {:induction false} ReadBodyOfWritten(w: nat, s: seq<Byte>, at: nat, acc: U64, pos: nat, current: Byte)
    requires !IsLastByte(current)
    requires at + |Written(w)| <= |s| && s[at..at + |Written(w)|] == Written(w)
    requires acc + (w + 1) * Pow2(pos + 7) < U64_MODULUS
    ensures ReadBody(s, at, acc, pos, current) == Ok(Value(acc + (w + 1) * Pow2(pos + 7), at + |Written(w)|))
    decreases w
  {
    var e := Written(w);
    DefaultSinglePacketMax();
    SliceTail(s, at, e);
    if w <= 127 {
      ReadBodyOfWrittenSmall(w, s, at, acc, pos, current);
    } else {
      var r := Remaining(w, 7);
      var tail := Written(r);
      assert e == [w % 128] + tail;
      assert e[1..] == tail;
      ReadBodyOfWrittenLarge(w, s, at, acc, pos, current);
    }
  }

  /** The arithmetic of a non-final byte: its payload plus one, shifted, loses no bits, and
      with what follows it makes up the value. */
  lemma {:induction false} LargeArith(w: nat, acc: U64, pos: nat)
    requires w > 127 && acc + (w + 1) * Pow2(pos + 7) < U64_MODULUS
    ensures acc + (w % 128 + 1) * Pow2(pos + 7) < U64_MODULUS
    ensures ShiftLeft(w % 128 + 1, pos + 7) == (w % 128 + 1) * Pow2(pos + 7)
    ensures WrappingAdd(acc, ShiftLeft(w % 128 + 1, pos + 7)) == acc + (w % 128 + 1) * Pow2(pos + 7)
    ensures acc + (w % 128 + 1) * Pow2(pos + 7) + (Remaining(w, 7) + 1) * Pow2(pos + 7 + 7)
         == acc + (w + 1) * Pow2(pos + 7)
  {
    var p := Pow2(pos + 7);
    LargeSum(w, acc, pos);
    assert acc + (w % 128 + 1) * p < U64_MODULUS;
    ShiftExact(w % 128 + 1, pos + 7);
    NoWrap(acc, (w % 128 + 1) * p);
  }

  lemma {:induction false} LargeSum(w: nat, acc: nat, pos: nat)
    requires w > 127
    ensures acc + (w % 128 + 1) * Pow2(pos + 7) + (Remaining(w, 7) + 1) * Pow2(pos + 7 + 7)
         == acc + (w + 1) * Pow2(pos + 7)
  {
    var r := Remaining(w, 7);
    var p := Pow2(pos + 7);
    Split(w);
    Pow2Byte();
    Pow2Add(pos + 7, 7);
    Regroup(w % 128, r + 1, p);
  }

  lemma {:induction false} ReadBodyOfWrittenLarge(w: nat, s: seq<Byte>, at: nat, acc: U64, pos: nat, current: Byte)
    requires !IsLastByte(current) && w > 127 && at < |s| && s[at] == w % 128
    requires at + 1 + |Written(Remaining(w, 7))| <= |s|
    requires s[at + 1..at + 1 + |Written(Remaining(w, 7))|] == Written(Remaining(w, 7))
    requires acc + (w + 1) * Pow2(pos + 7) < U64_MODULUS
    ensures ReadBody(s, at, acc, pos, current)
         == Ok(Value(acc + (w + 1) * Pow2(pos + 7), at + 1 + |Written(Remaining(w, 7))|))
    decreases w, 0
  {
    BodyStep(s, at, acc, pos, current);
    DivModUnique(s[at], 128, 0, s[at]);
    LargeArith(w, acc, pos);
    ReadBodyOfWritten(Remaining(w, 7), s, at + 1, acc + (w % 128 + 1) * Pow2(pos + 7), pos + 7, s[at]);
  }

  /** Without prefix bytes a value starts with its first body byte, payload unshifted. */
  lemma {:induction false} FirstBodyByte(s: seq<Byte>, at: nat)
    requires at < |s|
    ensures ReadValue(s, at, 0) == ReadBody(s, at + 1, Payload(s[at]), 0, s[at])
  {
    assert ReadValue(s, at, 0) == ReadFirstBodyByte(s, at, 0, 0, 0);
    SmallShift(Payload(s[at]));
    NoWrap(0, Payload(s[at]));
  }

  lemma {:induction false} ReadWrittenSmall(v: nat, s: seq<Byte>, at: nat)
    requires v <= 127 && at < |s| && s[at] == 0x80 + v
    ensures ReadValue(s, at, 0) == Ok(Value(v, at + 1))
  {
    FirstBodyByte(s, at);
    DivModUnique(s[at], 128, 1, v);
  }

  lemma {:induction false} ReadWrittenLarge(v: U64, s: seq<Byte>, at: nat)
    requires v > 127 && at < |s| && s[at] == v % 128
    requires at + 1 + |Written(Remaining(v, 7))| <= |s|
    requires s[at + 1..at + 1 + |Written(Remaining(v, 7))|] == Written(Remaining(v, 7))
    ensures ReadValue(s, at, 0) == Ok(Value(v, at + 1 + |Written(Remaining(v, 7))|))
  {
    var r := Remaining(v, 7);
    var acc: U64 := v % 128;
    FirstBodyByte(s, at);
    DivModUnique(s[at], 128, 0, s[at]);
    assert ReadValue(s, at, 0) == ReadBody(s, at + 1, acc, 0, s[at]);
    Split(v);
    Pow2Constants();
    assert acc + (r + 1) * Pow2(0 + 7) == v;
    ReadBodyOfWritten(r, s, at + 1, acc, 0, s[at]);
  }

  /** Dropping the first element of a matching slice. */
  lemma {:induction false} SliceTail(s: seq<Byte>, at: nat, e: seq<Byte>)
    requires |e| >= 1 && at + |e| <= |s| && s[at..at + |e|] == e
    ensures s[at] == e[0] && s[at + 1..at + |e|] == e[1..]
  {
    assert s[at] == s[at..at + |e|][0];
  }

  /** One value written with the default packet size reads back, and the reader stops
      right after its last byte. */
  lemma {:induction false} ReadWritten(v: U64, s: seq<Byte>, at: nat)
    requires at + |Written(v)| <= |s| && s[at..at + |Written(v)|] == Written(v)
    ensures ReadValue(s, at, 0) == Ok(Value(v, at + |Written(v)|))
  {
    var e := Written(v);
    DefaultSinglePacketMax();
    SliceTail(s, at, e);
    if v > 127 {
      var tail := Written(Remaining(v, 7));
      assert e == [v % 128] + tail;
      assert e[1..] == tail;
      ReadWrittenLarge(v, s, at);
    } else {
      ReadWrittenSmall(v, s, at);
    }
  }

  /** After `prefix` prefix bytes, the bytes written for `w` read back as `w` placed above
      the little-endian prefix value, as long as the sum fits in a `ulong`. */
  lemma {:induction false} ReadPrefixedWritten(s: seq<Byte>, at: nat, prefix: nat, w: nat)
    requires prefix <= 8
    requires at + prefix + |Written(w)| <= |s|
    requires s[at + prefix..at + prefix + |Written(w)|] == Written(w)
    requires LittleEndian(s[at..at + prefix]) + w * Pow2(8 * prefix) < U64_MODULUS
    ensures ReadValue(s, at, prefix)
         == Ok(Value(LittleEndian(s[at..at + prefix]) + w * Pow2(8 * prefix), at + prefix + |Written(w)|))
  {
    var b := at + prefix;
    ReadValuePrefix(s, at, prefix);
    PrefixedBody(s, b, prefix, LittleEndian(s[at..b]), w);
  }

  /** Two prefix bytes are the low sixteen bits, least significant first, and the body
      byte `0x80 + q` supplies the bits above them. */
  lemma {:induction false} TwoPrefixBytes(b0: Byte, b1: Byte, q: nat)
    requires q <= 127
    ensures ReadValue([b0, b1, 0x80 + q], 0, 2) == Ok(Value(b0 + 256 * b1 + 65536 * q, 3))
  {
    var s: seq<Byte> := [b0, b1, 0x80 + q];
    LittleEndianTwo(s, b0, b1);
    Pow2Sixteen();
    assert s[2..3] == Written(q);
    ReadPrefixedWritten(s, 0, 2, q);
  }

  lemma {:induction false} LittleEndianTwo(s: seq<Byte>, b0: Byte, b1: Byte)
    requires |s| >= 2 && s[0] == b0 && s[1] == b1
    ensures LittleEndian(s[0..2]) == b0 + 256 * b1
  {
    var t := s[0..2];
    assert t[1..][1..] == [];
  }

  lemma {:induction false} Pow2Sixteen()
    ensures Pow2(8 * 2) == 65536
  {
    Pow2Add(8, 8);
    Pow2Byte();
  }

  /** The body bytes written for `w`, read after the prefix bytes. */
  lemma {:induction false} PrefixedBody(s: seq<Byte>, b: nat, prefix: nat, acc: U64, w: nat)
    requires b + |Written(w)| <= |s| && s[b..b + |Written(w)|] == Written(w)
    requires acc + w * Pow2(8 * prefix) < U64_MODULUS
    ensures ReadFirstBodyByte(s, b, prefix, acc, 8 * prefix)
         == Ok(Value(acc + w * Pow2(8 * prefix), b + |Written(w)|))
  {
    var e := Written(w);
    DefaultSinglePacketMax();
    SliceTail(s, b, e);
    if w <= 127 {
      PrefixedSmall(s, b, prefix, acc, w);
    } else {
      var tail := Written(Remaining(w, 7));
      assert e == [w % 128] + tail;
      assert e[1..] == tail;
      PrefixedLarge(s, b, prefix, acc, w);
    }
  }

  /** The first body byte's payload, `pos` bits up, lands without loss or wrap-around. */
  lemma {:induction false} FirstPayloadExact(acc: U64, x: nat, pos: nat)
    requires acc + x * Pow2(pos) < U64_MODULUS
    ensures WrappingAdd(acc, ShiftLeft(x, pos)) == acc + x * Pow2(pos)
  {
    if x > 0 {
      ShiftExact(x, pos);
    }
    NoWrap(acc, x * Pow2(pos));
  }

  lemma {:induction false} PrefixedSmall(s: seq<Byte>, b: nat, prefix: nat, acc: U64, w: nat)
    requires w <= 127 && b < |s| && s[b] == 0x80 + w
    requires acc + w * Pow2(8 * prefix) < U64_MODULUS
    ensures ReadFirstBodyByte(s, b, prefix, acc, 8 * prefix) == Ok(Value(acc + w * Pow2(8 * prefix), b + 1))
  {
    DivModUnique(s[b], 128, 1, w);
    FirstPayloadExact(acc, w, 8 * prefix);
  }

  lemma {:induction false} PrefixedLarge(s: seq<Byte>, b: nat, prefix: nat, acc: U64, w: nat)
    requires w > 127 && b < |s| && s[b] == w % 128
    requires b + 1 + |Written(Remaining(w, 7))| <= |s|
    requires s[b + 1..b + 1 + |Written(Remaining(w, 7))|] == Written(Remaining(w, 7))
    requires acc + w * Pow2(8 * prefix) < U64_MODULUS
    ensures ReadFirstBodyByte(s, b, prefix, acc, 8 * prefix)
         == Ok(Value(acc + w * Pow2(8 * prefix), b + 1 + |Written(Remaining(w, 7))|))
  {
    var pos := 8 * prefix;
    var p, x, r := Pow2(pos), w % 128, Remaining(w, 7);
    DivModUnique(s[b], 128, 0, s[b]);
    Split(w);
    Pow2Add(pos, 7);
    Pow2Constants();
    PrefixedArith(acc, w, x, r, p);
    FirstPayloadExact(acc, x, pos);
    ReadBodyOfWritten(r, s, b + 1, acc + x * p, pos, s[b]);
  }

  lemma {:induction false} PrefixedArith(acc: nat, w: nat, x: nat, r: nat, p: nat)
    requires w == x + (r + 1) * 128
    ensures x * p <= w * p
    ensures acc + x * p + (r + 1) * (p * 128) == acc + w * p
  {
    MulMonotone(p + 1, x, w);
  }

  /** A written value followed by input that reads as `rest`. */
  lemma {:induction false} ReadAllCons(v: U64, s: seq<Byte>, at: nat, rest: seq<U64>)
    requires at + |Written(v)| <= |s| && s[at..at + |Written(v)|] == Written(v)
    requires ReadAllFrom(s, at + |Written(v)|, 0) == Ok(rest)
    ensures ReadAllFrom(s, at, 0) == Ok([v] + rest)
  {
    ReadWritten(v, s, at);
  }

  /** Splitting the input after a known prefix. */
  lemma {:induction false} SliceCons(s: seq<Byte>, at: nat, e: seq<Byte>, tail: seq<Byte>)
    requires at <= |s| && s[at..] == e + tail
    ensures at + |e| <= |s| && s[at..at + |e|] == e && s[at + |e|..] == tail
  {
    assert s[at..][..|e|] == e;
    assert s[at..][|e|..] == tail;
  }

  /** The input after `at` is the first value's bytes, then the rest's. */
  lemma {:induction false} WrittenSplit(values: seq<U64>, s: seq<Byte>, at: nat)
    requires |values| > 0 && at <= |s| && s[at..] == WrittenAll(values)
    ensures at + |Written(values[0])| <= |s|
    ensures s[at..at + |Written(values[0])|] == Written(values[0])
    ensures s[at + |Written(values[0])|..] == WrittenAll(values[1..])
  {
    SliceCons(s, at, Written(values[0]), WrittenAll(values[1..]));
  }

  lemma {:induction false} ReadAllOfWritten(values: seq<U64>, s: seq<Byte>, at: nat)
    requires at <= |s| && s[at..] == WrittenAll(values)
    ensures ReadAllFrom(s, at, 0) == Ok(values)
    decreases |values|, 1
  {
    if values == [] {
      ReadAllAtEnd(s, at);
    } else {
      ReadAllOfWrittenCons(values, s, at);
    }
  }

  lemma {:induction false} ReadAllAtEnd(s: seq<Byte>, at: nat)
    requires at == |s|
    ensures ReadAllFrom(s, at, 0) == Ok([])
  {
    assert ReadValue(s, at, 0) == Ok(NoValue);
  }

  lemma {:induction false} ReadAllOfWrittenCons(values: seq<U64>, s: seq<Byte>, at: nat)
    requires |values| > 0 && at <= |s| && s[at..] == WrittenAll(values)
    ensures ReadAllFrom(s, at, 0) == Ok(values)
    decreases |values|, 0
  {
    var v, rest := values[0], values[1..];
    WrittenSplit(values, s, at);
    ReadAllOfWritten(rest, s, at + |Written(v)|);
    ReadAllCons(v, s, at, rest);
    assert [v] + rest == values;
  }

  /** What `VLQUnsignedWriter.WriteAll` produces, `VLQUnsignedReader.ReadAll` reads back. */
  lemma {:induction false} UnsignedRoundTrip(values: seq<U64>)
    ensures ReadAllFrom(Pack(EncodeAll(values, DEFAULT_PACKET_SIZE)), 0, PrefixBytesFor(0)) == Ok(values)
  {
    var s := Pack(EncodeAll(values, 7));
    PackWrittenAll(values);
    assert s[0..] == s;
    ReadAllOfWritten(values, s, 0);
  }

  /** ZigZag encoding of every value. */
  function EncodeAllSigned(xs: seq<ZigZag.I64>): (r: seq<U64>)
    ensures |r| == |xs|
    ensures forall i :: 0 <= i < |xs| ==> r[i] == ZigZag.Encode(xs[i])
  {
    if xs == [] then [] else [ZigZag.Encode(xs[0])] + EncodeAllSigned(xs[1..])
  }

  lemma {:induction false} DecodeEncodeAll(xs: seq<ZigZag.I64>)
    ensures DecodeAll(EncodeAllSigned(xs)) == xs
  {
    var d := DecodeAll(EncodeAllSigned(xs));
    forall i | 0 <= i < |xs|
      ensures d[i] == xs[i]
    {
      ZigZag.DecodeEncode(xs[i]);
    }
  }

  /** Signed values, ZigZag-encoded and written with the default packet size, are read
      back by `VLQSignedReader.ReadAll`. */
  lemma {:induction false} SignedRoundTrip(xs: seq<ZigZag.I64>)
    ensures SignedReadAllFrom(Pack(EncodeAll(EncodeAllSigned(xs), DEFAULT_PACKET_SIZE)), 0) == Ok(xs)
  {
    UnsignedRoundTrip(EncodeAllSigned(xs));
    DecodeEncodeAll(xs);
  }
}
