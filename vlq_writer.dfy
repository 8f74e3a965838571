/** The VLQ (variable-length quantity) writer. A value is cut into packets of `PacketSize`
    bits, lowest packet first; each packet is preceded by a continuity bit, 0 when more
    packets follow and 1 on the last packet. After each non-final packet the remaining value
    is shifted right by `PacketSize` and decremented, which makes the encoding a bijection. */
module VlqWriter {
  import opened BitStream
  import opened Wrappers

  /** The packet widths for which the C# writer's `byte` cast and its shift by
      `64 - PacketSize` are meaningful. */
  type PacketSize = x: nat | 1 <= x <= 63 witness 7

  const DEFAULT_PACKET_SIZE: PacketSize := 7

  /** The largest value written as a single packet. */
  function SinglePacketMax(ps: PacketSize): nat
  {
    Pow2(ps) - 1
  }

  /** The C# writer computes that bound as `ulong.MaxValue >> 64 - PacketSize`. */
  lemma {:induction false} ShiftedMaxIsSinglePacketMax(ps: PacketSize)
    ensures (U64_MODULUS - 1) / Pow2(64 - ps) == SinglePacketMax(ps)
  {
    var p, q := Pow2(64 - ps), Pow2(ps);
    Pow2Add(64 - ps, ps);
    Pow2Constants();
    assert U64_MODULUS == p * q;
    MinusOne(p, q);
    DivModUnique(U64_MODULUS - 1, p, q - 1, p - 1);
  }

  lemma {:induction false} MinusOne(p: nat, q: nat)
    requires p >= 1 && q >= 1
    ensures p * q - 1 == p * (q - 1) + (p - 1)
  {
  }

  /** The value left for the next packet after a non-final one: `(value >> PacketSize) - 1`.
      It never underflows and is smaller than `v`. */
  function Remaining(v: nat, ps: PacketSize): (r: nat)
    requires v > SinglePacketMax(ps)
    ensures r < v
  {
    Pow2Monotone(1, ps);
    QuotientFacts(v, Pow2(ps));
    v / Pow2(ps) - 1
  }

  lemma {:induction false} QuotientFacts(v: nat, p: nat)
    requires p >= 2 && v >= p
    ensures 1 <= v / p < v && v == (v / p) * p + v % p
  {
    var q, m := v / p, v % p;
    assert v == p * q + m && 0 <= m < p;
    MulMonotone(q, 2, p);
    assert q * 2 <= q * p;
  }

  lemma {:induction false} Distribute(n: nat, k: nat)
    ensures (1 + n) * k == k + n * k
  {
  }

  /** The bits `Write(v)` hands to the bit writer. */
  function EncodeBits(v: nat, ps: PacketSize): (r: Bits)
    decreases v
  {
    if v <= SinglePacketMax(ps) then [true] + LowBits(v, ps)
    else [false] + LowBits(v, ps) + EncodeBits(Remaining(v, ps), ps)
  }

  /** How many packets `v` takes. */
  function PacketCount(v: nat, ps: PacketSize): (n: nat)
    ensures n >= 1
    decreases v
  {
    if v <= SinglePacketMax(ps) then 1 else 1 + PacketCount(Remaining(v, ps), ps)
  }

  lemma {:induction false} EncodeBitsLength(v: nat, ps: PacketSize)
    ensures |EncodeBits(v, ps)| == PacketCount(v, ps) * (ps + 1)
    decreases v
  {
    if v > SinglePacketMax(ps) {
      var r := Remaining(v, ps);
      EncodeBitsLength(r, ps);
      assert |EncodeBits(v, ps)| == (ps + 1) + |EncodeBits(r, ps)|;
      Distribute(PacketCount(r, ps), ps + 1);
    }
  }

  /** Cuts a bit sequence into consecutive packets of `ps + 1` bits (continuity bit and
      payload); a shorter tail forms a last, incomplete packet. */
  function Packets(bits: Bits, ps: PacketSize): (r: seq<Bits>)
    decreases |bits|
  {
    if |bits| == 0 then []
    else if |bits| <= ps + 1 then [bits]
    else [bits[..ps + 1]] + Packets(bits[ps + 1..], ps)
  }

  /** Every packet written is complete, and exactly one carries continuity bit 1: the last. */
  lemma {:induction false} ContinuityBits(v: nat, ps: PacketSize)
    ensures |Packets(EncodeBits(v, ps), ps)| == PacketCount(v, ps)
    ensures forall i :: 0 <= i < |Packets(EncodeBits(v, ps), ps)| ==>
      |Packets(EncodeBits(v, ps), ps)[i]| == ps + 1 &&
      (Packets(EncodeBits(v, ps), ps)[i][0] <==> i == PacketCount(v, ps) - 1)
    decreases v
  {
    var bits := EncodeBits(v, ps);
    var head := [v <= SinglePacketMax(ps)] + LowBits(v, ps);
    if v <= SinglePacketMax(ps) {
      assert Packets(bits, ps) == [bits];
    } else {
      var r := Remaining(v, ps);
      var rest := EncodeBits(r, ps);
      assert bits == head + rest;
      assert |rest| > 0 by {
        EncodeBitsLength(r, ps);
      }
      assert bits[..ps + 1] == head && bits[ps + 1..] == rest;
      ContinuityBits(r, ps);
      var packets := Packets(bits, ps);
      assert packets == [head] + Packets(rest, ps);
      forall i | 0 <= i < |packets|
        ensures |packets[i]| == ps + 1 && (packets[i][0] <==> i == PacketCount(v, ps) - 1)
      {
        if i > 0 {
          assert packets[i] == Packets(rest, ps)[i - 1];
        }
      }
    }
  }

  /** The number that `bits[lo..hi]` stands for, most significant bit first. */
  function ValueAt(bits: Bits, lo: nat, hi: nat): nat
    requires lo <= hi <= |bits|
    decreases hi - lo
  {
    if hi == lo then 0 else 2 * ValueAt(bits, lo, hi - 1) + BitValue(bits[hi - 1])
  }

  /** Reference decoder for any packet size: reads packets from position `at` until one
      whose continuity bit is 1, adding one to every packet after the first, and returns
      the value together with the position after its last packet. */
  function DecodeFrom(bits: Bits, at: nat, ps: PacketSize): (r: Option<(nat, nat)>)
    requires at <= |bits|
    ensures r.Some? ==> at < r.value.1 <= |bits|
    decreases |bits| - at
  {
    if |bits| - at < ps + 1 then None
    else
      var payload := ValueAt(bits, at + 1, at + ps + 1);
      if bits[at] then Some((payload, at + ps + 1))
      else match DecodeFrom(bits, at + ps + 1, ps)
        case None => None
        case Some((w, end)) => Some((payload + (w + 1) * Pow2(ps), end))
  }

  /** The reference decoder from the start: the value and the number of bits read. */
  function DecodeBits(bits: Bits, ps: PacketSize): (r: Option<(nat, nat)>)
    ensures r.Some? ==> 0 < r.value.1 <= |bits|
  {
    DecodeFrom(bits, 0, ps)
  }

  /** `e` occurs in `bits` at position `at`. */
  predicate Occurs(bits: Bits, at: nat, e: Bits)
  {
    at + |e| <= |bits| && forall i :: 0 <= i < |e| ==> bits[at + i] == e[i]
  }

  lemma {:induction false} OccursSplit(bits: Bits, at: nat, a: Bits, b: Bits)
    requires Occurs(bits, at, a + b)
    ensures Occurs(bits, at, a) && Occurs(bits, at + |a|, b)
  {
    forall i | 0 <= i < |a|
      ensures bits[at + i] == a[i]
    {
      assert (a + b)[i] == a[i];
    }
    forall i | 0 <= i < |b|
      ensures bits[at + |a| + i] == b[i]
    {
      assert (a + b)[|a| + i] == b[i];
    }
  }

  /** Where `e` occurs, its bits are read as the value of `e`. */
  lemma {:induction false} ValueAtOccurs(bits: Bits, lo: nat, e: Bits)
    requires Occurs(bits, lo, e)
    ensures ValueAt(bits, lo, lo + |e|) == ValueOf(e)
    decreases |e|
  {
    if |e| > 0 {
      var init := e[..|e| - 1];
      assert Occurs(bits, lo, init) by {
        forall i | 0 <= i < |init|
          ensures bits[lo + i] == init[i]
        {
          assert init[i] == e[i];
        }
      }
      ValueAtOccurs(bits, lo, init);
      assert bits[lo + |e| - 1] == e[|e| - 1];
    }
  }

  /** The packet bits of `v` occur at `at`: its first packet's continuity bit and payload,
      and when it is not final, the packets of what remains right after it. */
  lemma {:induction false} PacketOccurs(bits: Bits, at: nat, v: nat, ps: PacketSize)
    requires Occurs(bits, at, EncodeBits(v, ps))
    ensures at + ps + 1 <= |bits| && (bits[at] <==> v <= SinglePacketMax(ps))
    ensures ValueAt(bits, at + 1, at + ps + 1) == v % Pow2(ps)
    ensures v <= SinglePacketMax(ps) ==> |EncodeBits(v, ps)| == ps + 1
    ensures v > SinglePacketMax(ps) ==>
      Occurs(bits, at + ps + 1, EncodeBits(Remaining(v, ps), ps)) &&
      |EncodeBits(v, ps)| == ps + 1 + |EncodeBits(Remaining(v, ps), ps)|
  {
    var head := [v <= SinglePacketMax(ps)];
    var low := LowBits(v, ps);
    if v <= SinglePacketMax(ps) {
      assert EncodeBits(v, ps) == head + low;
    } else {
      var tail := EncodeBits(Remaining(v, ps), ps);
      assert EncodeBits(v, ps) == (head + low) + tail;
      OccursSplit(bits, at, head + low, tail);
    }
    OccursSplit(bits, at, head, low);
    assert bits[at + 0] == head[0];
    ValueAtOccurs(bits, at + 1, low);
    ValueOfLowBits(v, ps);
  }

  /** Round trip at any position: where the packets of `v` occur, the reference decoder
      reads back `v` and stops right after them. */
  lemma {:induction false} DecodeEncodeFrom(bits: Bits, at: nat, v: nat, ps: PacketSize)
    requires Occurs(bits, at, EncodeBits(v, ps))
    ensures DecodeFrom(bits, at, ps) == Some((v, at + |EncodeBits(v, ps)|))
    decreases v
  {
    PacketOccurs(bits, at, v, ps);
    if v <= SinglePacketMax(ps) {
      FinalPacketDecoded(bits, at, ps, v);
    } else {
      DecodeEncodeFrom(bits, at + ps + 1, Remaining(v, ps), ps);
      InnerPacketDecoded(bits, at, ps, v, at + |EncodeBits(v, ps)|);
    }
  }

  /** A final packet holding `v` decodes to `v`. */
  lemma {:induction false} FinalPacketDecoded(bits: Bits, at: nat, ps: PacketSize, v: nat)
    requires at + ps + 1 <= |bits| && bits[at] && v <= SinglePacketMax(ps)
    requires ValueAt(bits, at + 1, at + ps + 1) == v % Pow2(ps)
    ensures DecodeFrom(bits, at, ps) == Some((v, at + ps + 1))
  {
    DivModUnique(v, Pow2(ps), 0, v);
  }

  /** A non-final packet holding the low bits of `v`, followed by packets that decode to
      what remains of `v`, decodes to `v`. */
  lemma {:induction false} InnerPacketDecoded(bits: Bits, at: nat, ps: PacketSize, v: nat, end: nat)
    requires at + ps + 1 <= |bits| && !bits[at] && v > SinglePacketMax(ps)
    requires ValueAt(bits, at + 1, at + ps + 1) == v % Pow2(ps)
    requires DecodeFrom(bits, at + ps + 1, ps) == Some((Remaining(v, ps), end))
    ensures DecodeFrom(bits, at, ps) == Some((v, end))
  {
    QuotientRecombine(v, ps);
  }

  /** Round trip: decoding what was written gives back the value and stops exactly at the
      end of its packets, whatever follows. */
  lemma {:induction false} DecodeEncodeBits(v: nat, ps: PacketSize, rest: Bits)
    ensures DecodeBits(EncodeBits(v, ps) + rest, ps) == Some((v, |EncodeBits(v, ps)|))
  {
    var e := EncodeBits(v, ps);
    forall i | 0 <= i < |e|
      ensures (e + rest)[0 + i] == e[i]
    {
    }
    DecodeEncodeFrom(e + rest, 0, v, ps);
  }

  /** The payload of a non-final packet and the remaining value give back the value. */
  lemma {:induction false} Recombine(v: nat, ps: PacketSize)
    requires v > SinglePacketMax(ps)
    ensures ValueOf(LowBits(v, ps)) + (Remaining(v, ps) + 1) * Pow2(ps) == v
  {
    ValueOfLowBits(v, ps);
    QuotientRecombine(v, ps);
  }

  lemma {:induction false} QuotientRecombine(v: nat, ps: PacketSize)
    requires v > SinglePacketMax(ps)
    ensures v % Pow2(ps) + (Remaining(v, ps) + 1) * Pow2(ps) == v
  {
    Pow2Monotone(1, ps);
    QuotientFacts(v, Pow2(ps));
  }

  /** No value has two encodings. */
  lemma {:induction false} EncodeBitsInjective(a: nat, b: nat, ps: PacketSize)
    requires EncodeBits(a, ps) == EncodeBits(b, ps)
    ensures a == b
  {
    DecodeEncodeBits(a, ps, []);
    DecodeEncodeBits(b, ps, []);
    assert EncodeBits(a, ps) + [] == EncodeBits(a, ps);
    assert EncodeBits(b, ps) + [] == EncodeBits(b, ps);
  }

  /** The payload bits of a packet are the low bits of the number they stand for. */
  lemma {:induction false} ValueAtLowBits(bits: Bits, lo: nat, hi: nat)
    requires lo <= hi <= |bits|
    ensures ValueAt(bits, lo, hi) < Pow2(hi - lo)
    ensures Occurs(bits, lo, LowBits(ValueAt(bits, lo, hi), hi - lo))
    decreases hi - lo
  {
    if hi > lo {
      var v := ValueAt(bits, lo, hi);
      var init := ValueAt(bits, lo, hi - 1);
      ValueAtLowBits(bits, lo, hi - 1);
      assert v / 2 == init && (v % 2 == 1) == bits[hi - 1];
      var low := LowBits(v, hi - lo);
      assert low == LowBits(init, hi - 1 - lo) + [bits[hi - 1]];
      forall i | 0 <= i < |low|
        ensures bits[lo + i] == low[i]
      {
        if i < hi - 1 - lo {
          assert low[i] == LowBits(init, hi - 1 - lo)[i];
        }
      }
    }
  }

  /** Only the low `n` bits of a value are written. */
  lemma {:induction false} LowBitsMod(v: nat, n: nat)
    ensures LowBits(v, n) == LowBits(v % Pow2(n), n)
  {
    ValueOfLowBits(v, n);
    LowBitsOfValue(LowBits(v, n));
  }

  /** A non-final packet with payload `p` in front of packets holding `w`: together they
      stand for a value that does not fit one packet, whose low bits are `p` and whose
      remaining value is `w`. */
  lemma {:induction false} SameLow(v: nat, p: nat, ps: PacketSize, w: nat)
    requires p < Pow2(ps) && v == p + (w + 1) * Pow2(ps)
    ensures v > SinglePacketMax(ps) && Remaining(v, ps) == w && LowBits(v, ps) == LowBits(p, ps)
  {
    var m := Pow2(ps);
    MulMonotone(m, 1, w + 1);
    assert v >= m;
    DivModUnique(v, m, w + 1, p);
    assert v / m == w + 1 && v % m == p;
    LowBitsMod(v, ps);
    LowBitsMod(p, ps);
    DivModUnique(p, m, 0, p);
  }

  lemma {:induction false} OccursJoin(bits: Bits, at: nat, a: Bits, b: Bits)
    requires Occurs(bits, at, a) && Occurs(bits, at + |a|, b)
    ensures Occurs(bits, at, a + b)
  {
    forall i | 0 <= i < |a + b|
      ensures bits[at + i] == (a + b)[i]
    {
      if i >= |a| {
        assert bits[at + |a| + (i - |a|)] == b[i - |a|];
      }
    }
  }

  /** Whatever the reference decoder accepts at `at` is exactly the encoding of the value
      it returns: the offset leaves no second way of writing a value. */
  lemma {:induction false} DecodedIsEncoding(bits: Bits, at: nat, ps: PacketSize)
    requires at <= |bits| && DecodeFrom(bits, at, ps).Some?
    ensures IsEncodingAt(bits, at, ps, DecodeFrom(bits, at, ps).value)
    decreases |bits| - at
  {
    if bits[at] {
      FinalDecoded(bits, at, ps);
    } else {
      DecodedIsEncoding(bits, at + ps + 1, ps);
      InnerDecoded(bits, at, ps);
    }
  }

  /** The decoder's answer `r` at `at` is the encoding of `r.0`, ending at `r.1`. */
  predicate IsEncodingAt(bits: Bits, at: nat, ps: PacketSize, r: (nat, nat))
  {
    r.1 == at + |EncodeBits(r.0, ps)| && Occurs(bits, at, EncodeBits(r.0, ps))
  }

  lemma {:induction false} FinalDecoded(bits: Bits, at: nat, ps: PacketSize)
    requires at <= |bits| && DecodeFrom(bits, at, ps).Some? && bits[at]
    ensures IsEncodingAt(bits, at, ps, DecodeFrom(bits, at, ps).value)
  {
    var p := ValueAt(bits, at + 1, at + ps + 1);
    ValueAtLowBits(bits, at + 1, at + ps + 1);
    assert DecodeFrom(bits, at, ps).value == (p, at + ps + 1);
    FinalPacketOccurs(bits, at, ps, p);
  }

  lemma {:induction false} InnerDecoded(bits: Bits, at: nat, ps: PacketSize)
    requires at <= |bits| && DecodeFrom(bits, at, ps).Some? && !bits[at]
    requires at + ps + 1 <= |bits| && DecodeFrom(bits, at + ps + 1, ps).Some?
    requires IsEncodingAt(bits, at + ps + 1, ps, DecodeFrom(bits, at + ps + 1, ps).value)
    ensures IsEncodingAt(bits, at, ps, DecodeFrom(bits, at, ps).value)
  {
    var p := ValueAt(bits, at + 1, at + ps + 1);
    ValueAtLowBits(bits, at + 1, at + ps + 1);
    var r, r' := DecodeFrom(bits, at, ps).value, DecodeFrom(bits, at + ps + 1, ps).value;
    assert r == (p + (r'.0 + 1) * Pow2(ps), r'.1);
    SameLow(r.0, p, ps, r'.0);
    InnerPacketOccurs(bits, at, ps, p, r.0);
  }

  lemma {:induction false} FinalPacketOccurs(bits: Bits, at: nat, ps: PacketSize, p: nat)
    requires at < |bits| && bits[at] && p < Pow2(ps) && Occurs(bits, at + 1, LowBits(p, ps))
    ensures |EncodeBits(p, ps)| == ps + 1 && Occurs(bits, at, EncodeBits(p, ps))
  {
    assert Occurs(bits, at, [true]);
    assert EncodeBits(p, ps) == [true] + LowBits(p, ps);
    OccursJoin(bits, at, [true], LowBits(p, ps));
  }

  /** A non-final packet with the low bits of `v`, followed by the encoding of what remains
      of `v`, is the encoding of `v`. */
  lemma {:induction false} InnerPacketOccurs(bits: Bits, at: nat, ps: PacketSize, p: nat, v: nat)
    requires at < |bits| && !bits[at] && Occurs(bits, at + 1, LowBits(p, ps))
    requires v > SinglePacketMax(ps) && LowBits(v, ps) == LowBits(p, ps)
    requires Occurs(bits, at + ps + 1, EncodeBits(Remaining(v, ps), ps))
    ensures var e := EncodeBits(v, ps);
      |e| == ps + 1 + |EncodeBits(Remaining(v, ps), ps)| && Occurs(bits, at, e)
  {
    var low, tail := LowBits(p, ps), EncodeBits(Remaining(v, ps), ps);
    assert EncodeBits(v, ps) == [false] + low + tail;
    assert Occurs(bits, at, [false]);
    OccursJoin(bits, at, [false], low);
    OccursJoin(bits, at, [false] + low, tail);
  }

  /** No redundant encodings: every packet sequence the reference decoder accepts is the
      encoding of its value. With `DecodeEncodeBits`, the encoding is a bijection between
      the values and the accepted packet sequences. */
  lemma {:induction false} NoRedundantEncodings(bits: Bits, ps: PacketSize)
    requires DecodeBits(bits, ps).Some?
    ensures bits[..DecodeBits(bits, ps).value.1] == EncodeBits(DecodeBits(bits, ps).value.0, ps)
  {
    DecodedIsEncoding(bits, 0, ps);
    var (w, n) := DecodeBits(bits, ps).value;
    var e := EncodeBits(w, ps);
    assert bits[..n] == e by {
      forall i | 0 <= i < n
        ensures bits[..n][i] == e[i]
      {
        assert bits[0 + i] == e[i];
      }
    }
  }

  /** The bits `WriteAll` writes for `values`, one encoding after another. */
  function EncodeAll(values: seq<U64>, ps: PacketSize): Bits
  {
    if |values| == 0 then [] else EncodeBits(values[0], ps) + EncodeAll(values[1..], ps)
  }

  lemma {:induction false} EncodeAllSnoc(values: seq<U64>, v: U64, ps: PacketSize)
    ensures EncodeAll(values + [v], ps) == EncodeAll(values, ps) + EncodeBits(v, ps)
  {
    if |values| == 0 {
      assert EncodeAll([v], ps) == EncodeBits(v, ps) + EncodeAll([], ps);
    } else {
      assert (values + [v])[1..] == values[1..] + [v];
      EncodeAllSnoc(values[1..], v, ps);
    }
  }

  /** With the default packet size every value fills whole bytes: a value no greater than
      127 is the single byte `0x80 | v`, a larger one starts with the byte `v & 0x7F`. */
  lemma {:induction false} PackedPackets(v: nat)
    ensures Pack(EncodeBits(v, 7)) ==
      if v <= 127 then [0x80 + v] else [v % 128] + Pack(EncodeBits(Remaining(v, 7), 7))
  {
    Pow2Constants();
    var group := [v <= 127] + LowBits(v, 7);
    PacketByte(v <= 127, v);
    PackByte(group);
    if v > 127 {
      assert EncodeBits(v, 7) == group + EncodeBits(Remaining(v, 7), 7);
      PackAppend(group, EncodeBits(Remaining(v, 7), 7));
    } else {
      assert EncodeBits(v, 7) == group;
    }
  }

  /** The byte holding a continuity bit and seven payload bits. */
  lemma {:induction false} PacketByte(last: bool, v: nat)
    ensures ValueOf([last] + LowBits(v, 7)) == (if last then 128 else 0) + v % 128
    ensures last && v <= 127 ==> ValueOf([last] + LowBits(v, 7)) == 0x80 + v
  {
    Pow2Constants();
    ValueOfAppend([last], LowBits(v, 7));
    assert ValueOf([last]) == BitValue(last) by {
      assert [last][..0] == [];
    }
    ValueOfLowBits(v, 7);
    if v <= 127 {
      DivModUnique(v, 128, 0, v);
    }
  }

  /** With the default packet size a value's packets fill whole bytes. */
  lemma {:induction false} ByteAligned(v: nat)
    ensures |EncodeBits(v, 7)| % 8 == 0
  {
    EncodeBitsLength(v, 7);
    DivModUnique(|EncodeBits(v, 7)|, 8, PacketCount(v, 7), 0);
  }

  /** `WriteAll` output is the in-order concatenation of the bytes of each value. */
  lemma {:induction false} PackEncodeAll(values: seq<U64>)
    requires |values| > 0
    ensures Pack(EncodeAll(values, 7)) == Pack(EncodeBits(values[0], 7)) + Pack(EncodeAll(values[1..], 7))
  {
    ByteAligned(values[0]);
    PackAppend(EncodeBits(values[0], 7), EncodeAll(values[1..], 7));
  }

  /** The bits of a non-final packet, appended to `o`, followed by the packets of what
      remains, are `o` followed by the packets of `v`. */
  lemma {:induction false} InnerPacketWritten(o: Bits, v: nat, ps: PacketSize)
    requires v > SinglePacketMax(ps)
    ensures o + LowBits(0, 1) + LowBits(v, ps) + EncodeBits(Remaining(v, ps), ps) == o + EncodeBits(v, ps)
  {
    var low, tail := LowBits(v, ps), EncodeBits(Remaining(v, ps), ps);
    assert LowBits(0, 1) == [false];
    assert EncodeBits(v, ps) == [false] + low + tail;
    AppendThree(o, [false], low, tail);
  }

  lemma {:induction false} AppendThree(o: Bits, a: Bits, b: Bits, c: Bits)
    ensures o + a + b + c == o + (a + b + c)
  {
  }

  /** The bits of the final packet of `v`, appended to `o`. */
  lemma {:induction false} FinalPacketWritten(o: Bits, v: nat, ps: PacketSize)
    requires v <= SinglePacketMax(ps)
    ensures o + LowBits(1, 1) + LowBits(v, ps) == o + EncodeBits(v, ps)
  {
    assert LowBits(1, 1) == [true];
    assert EncodeBits(v, ps) == [true] + LowBits(v, ps);
  }

  /** `VLQUnsignedWriter`: writes values to a bit writer, modelled as the sequence of bits
      written so far. */
  class UnsignedWriter {
    const packetSize: PacketSize
    /** The bits handed to the bit writer so far. */
    var output: Bits
    var isDisposed: bool

    constructor (packetSize: PacketSize)
      ensures this.packetSize == packetSize && output == [] && !isDisposed
    {
      this.packetSize := packetSize;
      output := [];
      isDisposed := false;
    }

    /** The standard writer, with packets of 7 bits. */
    constructor Default()
      ensures packetSize == DEFAULT_PACKET_SIZE && output == [] && !isDisposed
    {
      packetSize := DEFAULT_PACKET_SIZE;
      output := [];
      isDisposed := false;
    }

    /** The bit writer's `Write(value, count)`: appends the `count` low bits of `value`,
        most significant first. */
    method WriteBits(value: nat, count: nat)
      modifies this`output
      ensures output == old(output) + LowBits(value, count)
    {
      output := output + LowBits(value, count);
    }

    /** `Write`: appends the packets of `value`, or fails once disposed. */
    method Write(value: U64) returns (r: Outcome<Fault>)
      modifies this`output
      ensures old(isDisposed) ==> r == Fail(ObjectDisposed) && output == old(output)
      ensures !old(isDisposed) ==> r == Pass && output == old(output) + EncodeBits(value, packetSize)
    {
      if isDisposed {
        return Fail(ObjectDisposed);
      }
      var min := (U64_MODULUS - 1) / Pow2(64 - packetSize);
      ShiftedMaxIsSinglePacketMax(packetSize);
      var v: nat := value;
      while v > min
        invariant v <= value
        invariant old(output) + EncodeBits(value, packetSize) == output + EncodeBits(v, packetSize)
        decreases v
      {
        InnerPacketWritten(output, v, packetSize);
        WriteBits(0, 1);
        WriteBits(v, packetSize);
        ghost var next := Remaining(v, packetSize);
        v := v / Pow2(packetSize);
        v := v - 1;
        assert v == next;
      }
      FinalPacketWritten(output, v, packetSize);
      WriteBits(1, 1);
      WriteBits(v, packetSize);
      r := Pass;
    }

    /** `Dispose`: marks the writer disposed; a second call changes nothing. */
    method Dispose()
      modifies this`isDisposed
      ensures isDisposed
    {
      if isDisposed {
        return;
      }
      isDisposed := true;
    }
  }

  /** `WriteAll`: the bytes of all `values`, written with the standard writer. */
  method WriteAll(values: seq<U64>) returns (bytes: seq<Byte>)
    ensures bytes == Pack(EncodeAll(values, DEFAULT_PACKET_SIZE))
  {
    var writer := new UnsignedWriter.Default();
    for i := 0 to |values|
      invariant !writer.isDisposed && writer.packetSize == DEFAULT_PACKET_SIZE
      invariant writer.output == EncodeAll(values[..i], DEFAULT_PACKET_SIZE)
    {
      var r := writer.Write(values[i]);
      EncodeAllSnoc(values[..i], values[i], DEFAULT_PACKET_SIZE);
      assert values[..i + 1] == values[..i] + [values[i]];
    }
    writer.Dispose();
    assert values[..|values|] == values;
    bytes := Pack(writer.output);
  }
}
