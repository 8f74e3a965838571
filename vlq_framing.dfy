/** How much input one `TryRead` of the VLQ reader consumes and which exception it raises,
    over any byte sequence, and the value its prefix bytes add up to. */
module VlqFraming {
  import opened BitStream
  import opened Wrappers
  import opened VlqReader

  /** The position of the first byte at or after `from` whose top bit is set, or `|s|` when
      there is none. */
  function NextLastByte(s: seq<Byte>, from: nat): (k: nat)
    requires from <= |s|
    ensures from <= k <= |s|
    ensures k < |s| ==> IsLastByte(s[k])
    ensures forall j :: from <= j < k ==> !IsLastByte(s[j])
    decreases |s| - from
  {
    if from == |s| || IsLastByte(s[from]) then from else NextLastByte(s, from + 1)
  }

  /** The body loop reads up to and including the first byte from `at` on whose top bit is
      set, and stops right after it; when the input holds no such byte the loop runs out of
      input and raises "Missing body byte". */
  lemma {:induction false} ReadBodyFraming(s: seq<Byte>, at: nat, value: U64, pos: nat, current: Byte)
    requires at <= |s| && !IsLastByte(current)
    ensures NextLastByte(s, at) == |s| ==> ReadBody(s, at, value, pos, current) == Err(MissingBodyByte)
    ensures NextLastByte(s, at) < |s| ==>
      ReadBody(s, at, value, pos, current).Ok? &&
      ReadBody(s, at, value, pos, current).value.next == NextLastByte(s, at) + 1
    decreases |s| - at
  {
    if at < |s| {
      var value' := WrappingAdd(value, ShiftLeft(Payload(s[at]) + 1, pos + 7));
      assert ReadBody(s, at, value, pos, current) == ReadBody(s, at + 1, value', pos + 7, s[at]);
      if !IsLastByte(s[at]) {
        ReadBodyFraming(s, at + 1, value', pos + 7, s[at]);
      }
    }
  }

  /** From the first body byte on, a value ends right after the first byte with its top bit
      set, or the input runs out with "Missing body byte". */
  lemma {:induction false} FirstBodyByteFraming(s: seq<Byte>, at: nat, prefix: nat, value: U64, pos: nat)
    requires at < |s|
    ensures NextLastByte(s, at) == |s| ==> ReadFirstBodyByte(s, at, prefix, value, pos) == Err(MissingBodyByte)
    ensures NextLastByte(s, at) < |s| ==>
      ReadFirstBodyByte(s, at, prefix, value, pos).Ok? &&
      ReadFirstBodyByte(s, at, prefix, value, pos).value.Value? &&
      ReadFirstBodyByte(s, at, prefix, value, pos).value.next == NextLastByte(s, at) + 1
  {
    var value' := WrappingAdd(value, ShiftLeft(Payload(s[at]), pos));
    assert ReadFirstBodyByte(s, at, prefix, value, pos) == ReadBody(s, at + 1, value', pos, s[at]);
    if !IsLastByte(s[at]) {
      ReadBodyFraming(s, at + 1, value', pos, s[at]);
    }
  }

  /** The value after `k` prefix bytes from `at` are added to `acc`, the first one shifted by
      `pos` bits and each next one eight bits higher, in `ulong` arithmetic. */
  function PrefixValue(s: seq<Byte>, at: nat, k: nat, acc: U64, pos: nat): U64
    requires at + k <= |s|
    decreases k
  {
    if k == 0 then acc
    else PrefixValue(s, at + 1, k - 1, WrappingAdd(acc, ShiftLeft(s[at], pos)), pos + 8)
  }

  /** When the input holds the remaining prefix bytes, the prefix loop reads exactly them
      and hands their sum to the first body byte. */
  lemma {:induction false} PrefixComplete(s: seq<Byte>, at: nat, i: nat, prefix: nat, acc: U64, pos: nat)
    requires i <= prefix && at + (prefix - i) <= |s|
    ensures ReadPrefix(s, at, i, prefix, acc, pos)
         == ReadFirstBodyByte(s, at + (prefix - i), prefix, PrefixValue(s, at, prefix - i, acc, pos), pos + 8 * (prefix - i))
    decreases prefix - i
  {
    if i < prefix {
      PrefixComplete(s, at + 1, i + 1, prefix, WrappingAdd(acc, ShiftLeft(s[at], pos)), pos + 8);
    }
  }

  /** When the input ends inside the prefix, `TryRead` raises "Missing initial byte" with
      the number of prefix bytes it did read, or reports a clean end if it read none. */
  lemma {:induction false} PrefixTruncated(s: seq<Byte>, at: nat, i: nat, prefix: nat, acc: U64, pos: nat)
    requires i <= prefix && at <= |s| < at + (prefix - i)
    ensures ReadPrefix(s, at, i, prefix, acc, pos)
         == if i + (|s| - at) == 0 then Ok(NoValue) else Err(MissingInitialByte(i + (|s| - at)))
    decreases prefix - i
  {
    if at < |s| {
      PrefixTruncated(s, at + 1, i + 1, prefix, WrappingAdd(acc, ShiftLeft(s[at], pos)), pos + 8);
    }
  }

  /** Every way one `TryRead` from `at` can end: a clean end of input; "Missing initial
      byte" with the count of prefix bytes read; "Missing initial body byte" when the input
      ends right after the prefix; "Missing body byte" when no byte after the prefix has its
      top bit set; otherwise a value, after which the reader stands right behind the first
      such byte. The five cases cover every input. */
  lemma {:induction false} ReadValueFraming(s: seq<Byte>, at: nat, prefix: nat)
    requires at <= |s|
    ensures at == |s| ==> ReadValue(s, at, prefix) == Ok(NoValue)
    ensures 0 < |s| - at < prefix ==> ReadValue(s, at, prefix) == Err(MissingInitialByte(|s| - at))
    ensures 0 < |s| - at == prefix ==> ReadValue(s, at, prefix) == Err(MissingInitialBodyByte)
    ensures at + prefix < |s| && NextLastByte(s, at + prefix) == |s| ==>
      ReadValue(s, at, prefix) == Err(MissingBodyByte)
    ensures at + prefix < |s| && NextLastByte(s, at + prefix) < |s| ==>
      ReadValue(s, at, prefix).Ok? && ReadValue(s, at, prefix).value.Value? &&
      ReadValue(s, at, prefix).value.next == NextLastByte(s, at + prefix) + 1
  {
    if |s| - at < prefix {
      PrefixTruncated(s, at, 0, prefix, 0, 0);
    } else {
      CompletePrefixFraming(s, at, prefix);
    }
  }

  lemma {:induction false} CompletePrefixFraming(s: seq<Byte>, at: nat, prefix: nat)
    requires at + prefix <= |s|
    ensures at + prefix == |s| ==>
      ReadValue(s, at, prefix) == if prefix > 0 then Err(MissingInitialBodyByte) else Ok(NoValue)
    ensures at + prefix < |s| && NextLastByte(s, at + prefix) == |s| ==>
      ReadValue(s, at, prefix) == Err(MissingBodyByte)
    ensures at + prefix < |s| && NextLastByte(s, at + prefix) < |s| ==>
      ReadValue(s, at, prefix).Ok? && ReadValue(s, at, prefix).value.Value? &&
      ReadValue(s, at, prefix).value.next == NextLastByte(s, at + prefix) + 1
  {
    PrefixComplete(s, at, 0, prefix, 0, 0);
    if at + prefix < |s| {
      FirstBodyByteFraming(s, at + prefix, prefix, PrefixValue(s, at, prefix, 0, 0), 8 * prefix);
    }
  }

  /** A value that reads is framed: it takes all its prefix bytes and at least one body
      byte, every body byte but the last has its top bit clear, and the reader stops right
      after the last. */
  lemma {:induction false} ReadValueConsumes(s: seq<Byte>, at: nat, prefix: nat)
    requires at <= |s| && ReadValue(s, at, prefix).Ok? && ReadValue(s, at, prefix).value.Value?
    ensures var next := ReadValue(s, at, prefix).value.next;
      at + prefix < next <= |s| && IsLastByte(s[next - 1]) &&
      forall j :: at + prefix <= j < next - 1 ==> !IsLastByte(s[j])
  {
    ReadValueFraming(s, at, prefix);
  }

  /** The number that `bytes` stand for, least significant byte first. */
  function LittleEndian(bytes: seq<Byte>): (n: nat)
    ensures n < Pow2(8 * |bytes|)
  {
    if |bytes| == 0 then 0
    else
      var rest := LittleEndian(bytes[1..]);
      LittleEndianStep(bytes[0], rest, 8 * (|bytes| - 1));
      bytes[0] + 256 * rest
  }

  lemma {:induction false} LittleEndianStep(b: Byte, rest: nat, n: nat)
    requires rest < Pow2(n)
    ensures b + 256 * rest < Pow2(n + 8)
  {
    Pow2Add(8, n);
    Pow2Byte();
    assert rest + 1 <= Pow2(n);
    MulMonotone(256, rest + 1, Pow2(n));
  }

  /** One prefix byte added `pos` bits up, below the first bit of any later byte, neither
      loses bits nor wraps. */
  lemma {:induction false} PrefixByteExact(acc: U64, b: Byte, pos: nat)
    requires acc < Pow2(pos) && pos + 8 <= 64
    ensures ShiftLeft(b, pos) == b * Pow2(pos)
    ensures WrappingAdd(acc, ShiftLeft(b, pos)) == acc + b * Pow2(pos)
    ensures acc + b * Pow2(pos) < Pow2(pos + 8)
  {
    var p := Pow2(pos);
    Pow2Add(pos, 8);
    Pow2Constants();
    ByteBelow(acc, b, p);
    Pow2Monotone(pos + 8, 64);
    assert pos % 64 == pos;
    BelowModulus(b * p);
    BelowModulus(acc + b * p);
  }

  lemma {:induction false} ByteBelow(acc: nat, b: Byte, p: nat)
    requires acc < p
    ensures acc + b * p < p * 256
  {
    MulMonotone(p, b, 255);
  }

  lemma {:induction false} BelowModulus(x: nat)
    requires x < U64_MODULUS
    ensures x % U64_MODULUS == x
  {
    DivModUnique(x, U64_MODULUS, 0, x);
  }

  lemma {:induction false} PrefixRegroup(acc: nat, b: nat, rest: nat, p: nat)
    ensures acc + b * p + rest * (p * 256) == acc + (b + 256 * rest) * p
  {
  }

  /** With room for the bytes in 64 bits, the prefix loop adds them up little-endian,
      without wrapping. */
  lemma {:induction false} PrefixValueExact(s: seq<Byte>, at: nat, k: nat, acc: U64, pos: nat)
    requires at + k <= |s| && acc < Pow2(pos) && pos + 8 * k <= 64
    ensures PrefixValue(s, at, k, acc, pos) == acc + LittleEndian(s[at..at + k]) * Pow2(pos)
    decreases k
  {
    if k > 0 {
      var bytes := s[at..at + k];
      SliceFirst(s, at, k);
      PrefixByteExact(acc, s[at], pos);
      var acc' := acc + s[at] * Pow2(pos);
      PrefixValueExact(s, at + 1, k - 1, acc', pos + 8);
      Pow2Add(pos, 8);
      Pow2Byte();
      PrefixRegroup(acc, s[at], LittleEndian(bytes[1..]), Pow2(pos));
    }
  }

  lemma {:induction false} SliceFirst(s: seq<Byte>, at: nat, k: nat)
    requires 0 < k && at + k <= |s|
    ensures s[at..at + k][0] == s[at] && s[at..at + k][1..] == s[at + 1..at + k]
  {
  }

  /** The prefix bytes of one value are read as a little-endian number; the first body
      byte's payload then goes in `(8 * prefix) % 64` bits up, because C# takes a `ulong`
      shift count modulo 64 (see `EightPrefixBytesOverlay`). */
  lemma {:induction false} ReadValuePrefix(s: seq<Byte>, at: nat, prefix: nat)
    requires at + prefix <= |s| && prefix <= 8
    ensures LittleEndian(s[at..at + prefix]) < U64_MODULUS
    ensures ReadValue(s, at, prefix)
         == ReadFirstBodyByte(s, at + prefix, prefix, LittleEndian(s[at..at + prefix]), 8 * prefix)
  {
    Pow2Monotone(8 * prefix, 64);
    Pow2Constants();
    PrefixComplete(s, at, 0, prefix, 0, 0);
    PrefixValueExact(s, at, prefix, 0, 0);
    assert PrefixValue(s, at, prefix, 0, 0) == LittleEndian(s[at..at + prefix]);
  }

  lemma {:induction false} Pow255Monotone(a: nat, b: nat)
    requires a <= b
    ensures Pow255(a) <= Pow255(b)
    decreases b
  {
    if a < b {
      Pow255Monotone(a, b - 1);
    }
  }

  lemma {:induction false} Pow255Eight()
    ensures 256 * Pow255(8) > U64_MODULUS
  {
    assert Pow255(8) == 17878103347812890625;
  }

  /** A `ulong` expected minimum value asks for at most eight prefix bytes, so the prefix
      of a value fits the 64 bits it is added into. */
  lemma {:induction false} PrefixBytesAtMostEight(e: U64)
    ensures PrefixBytesFor(e) <= 8
  {
    var p := PrefixBytesFor(e);
    Pow255Eight();
    if p > 8 {
      Pow255Monotone(8, p - 1);
    }
  }

  /** With eight prefix bytes the first body byte's shift count is 64, which C# reduces to
      0: its payload is added to the low bits of the prefix instead of above it. */
  lemma {:induction false} EightPrefixBytesOverlay(s: seq<Byte>, at: nat)
    requires at + 9 <= |s| && IsLastByte(s[at + 8])
    requires LittleEndian(s[at..at + 8]) + Payload(s[at + 8]) < U64_MODULUS
    ensures ReadValue(s, at, 8) == Ok(Value(LittleEndian(s[at..at + 8]) + Payload(s[at + 8]), at + 9))
  {
    ReadValuePrefix(s, at, 8);
    FirstBodyOverlay(s, at + 8, LittleEndian(s[at..at + 8]));
  }

  lemma {:induction false} FirstBodyOverlay(s: seq<Byte>, at: nat, v: U64)
    requires at < |s| && IsLastByte(s[at]) && v + Payload(s[at]) < U64_MODULUS
    ensures ReadFirstBodyByte(s, at, 8, v, 64) == Ok(Value(v + Payload(s[at]), at + 1))
  {
    ShiftByZero(Payload(s[at]));
    BelowModulus(v + Payload(s[at]));
  }

  lemma {:induction false} ShiftByZero(x: nat)
    requires x < U64_MODULUS
    ensures ShiftLeft(x, 64) == x
  {
    assert 64 % 64 == 0;
    assert Pow2(0) == 1;
    BelowModulus(x);
  }

  /** So two different inputs read as the same value: eight zero prefix bytes followed by
      the body byte `0x81`, and the prefix bytes `1, 0, ..., 0` followed by `0x80`. */
  lemma {:induction false} EightPrefixBytesCollide()
    ensures ReadValue([0, 0, 0, 0, 0, 0, 0, 0, 0x81], 0, 8) == Ok(Value(1, 9))
    ensures ReadValue([1, 0, 0, 0, 0, 0, 0, 0, 0x80], 0, 8) == Ok(Value(1, 9))
  {
    ReadsAsOne([0, 0, 0, 0, 0, 0, 0, 0, 0x81]);
    ReadsAsOne([1, 0, 0, 0, 0, 0, 0, 0, 0x80]);
  }

  lemma {:induction false} ReadsAsOne(s: seq<Byte>)
    requires |s| == 9 && IsLastByte(s[8]) && s[0] + Payload(s[8]) == 1
    requires forall i :: 1 <= i < 8 ==> s[i] == 0
    ensures ReadValue(s, 0, 8) == Ok(Value(1, 9))
  {
    var prefix := s[0..8];
    assert forall i :: 1 <= i < 8 ==> prefix[i] == s[i];
    LowByteOnly(prefix);
    EightPrefixBytesOverlay(s, 0);
  }

  /** Bytes that are zero past the first read as the first byte alone. */
  lemma {:induction false} LowByteOnly(bytes: seq<Byte>)
    requires |bytes| > 0 && forall i :: 1 <= i < |bytes| ==> bytes[i] == 0
    ensures LittleEndian(bytes) == bytes[0]
  {
    ZeroBytes(bytes[1..]);
  }

  lemma {:induction false} ZeroBytes(bytes: seq<Byte>)
    requires forall i :: 0 <= i < |bytes| ==> bytes[i] == 0
    ensures LittleEndian(bytes) == 0
    decreases |bytes|
  {
    if |bytes| > 0 {
      ZeroBytes(bytes[1..]);
    }
  }
}
