/** The VLQ reader. Each value may start with a fixed number of full 8-bit prefix bytes,
    little-endian, derived from an expected minimum value; then come body bytes whose low
    seven bits (mask 0x7F) are payload and whose top bit (mask 0x80) marks the last byte.
    Every body byte after the first has one added to its payload, undoing the writer's
    decrement. Arithmetic is that of C# `ulong`: shifts count modulo 64 and additions wrap. */
module VlqReader {
  import opened BitStream
  import opened Wrappers

  /** `b & 0x7F`: the payload of a body byte. */
  function Payload(b: Byte): nat
  {
    b % 128
  }

  /** `(b & 0x80) != 0`: the byte is the last of its value. */
  predicate IsLastByte(b: Byte)
  {
    b >= 128
  }

  /** The C# reader's masks, on 8-bit words, are the arithmetic above. */
  lemma {:induction false} MasksAgree(w: bv8)
    ensures (w & 0x7F) as int == Payload(w as int)
    ensures (w & 0x80 != 0) <==> IsLastByte(w as int)
  {
  }

  /** C# `(ulong)x << count`: the shift count is taken modulo 64, bits shifted out are lost. */
  function ShiftLeft(x: nat, count: nat): U64
  {
    (x * Pow2(count % 64)) % U64_MODULUS
  }

  /** C# `ulong` addition, which wraps around. */
  function WrappingAdd(a: U64, b: U64): U64
  {
    (a + b) % U64_MODULUS
  }

  function Pow255(n: nat): (r: nat)
    ensures r >= 1
  {
    if n == 0 then 1 else 255 * Pow255(n - 1)
  }

  /** The number of prefix bytes for `expectedMinValue`: how often it can be divided by 255
      while it exceeds 255. It is the least `p` with `e < 256 * 255^p`. */
  function PrefixBytesFor(e: nat): (p: nat)
    ensures p == 0 <==> e <= 255
    ensures e < 256 * Pow255(p)
    ensures p > 0 ==> 256 * Pow255(p - 1) <= e
    decreases e
  {
    if e > 255 then
      var p' := PrefixBytesFor(e / 255);
      DivModUnique(e, 255, e / 255, e % 255);
      1 + p'
    else 0
  }

  /** What one `TryRead` finds: a clean end of input, or a value and the position after it. */
  datatype Step = NoValue | Value(value: U64, next: nat)

  /** The prefix loop of `TryRead`, from prefix byte `i` on, reading at `at`. */
  function ReadPrefix(s: seq<Byte>, at: nat, i: nat, prefix: nat, value: U64, pos: nat): (r: Result<Step, Fault>)
    requires at <= |s| && i <= prefix
    ensures r.Ok? && r.value.Value? ==> at < r.value.next <= |s|
    ensures r.Ok? && r.value.NoValue? ==> at == |s| && i == 0
    decreases prefix - i
  {
    if i < prefix then
      if at == |s| then
        if i > 0 then Err(MissingInitialByte(i)) else Ok(NoValue)
      else
        ReadPrefix(s, at + 1, i + 1, prefix, WrappingAdd(value, ShiftLeft(s[at], pos)), pos + 8)
    else
      ReadFirstBodyByte(s, at, prefix, value, pos)
  }

  /** The first body byte of a value: its payload is added as it is. */
  function ReadFirstBodyByte(s: seq<Byte>, at: nat, prefix: nat, value: U64, pos: nat): (r: Result<Step, Fault>)
    requires at <= |s|
    ensures r.Ok? && r.value.Value? ==> at < r.value.next <= |s|
    ensures r.Ok? && r.value.NoValue? ==> at == |s| && prefix == 0
  {
    if at == |s| then
      if prefix > 0 then Err(MissingInitialBodyByte) else Ok(NoValue)
    else
      ReadBody(s, at + 1, WrappingAdd(value, ShiftLeft(Payload(s[at]), pos)), pos, s[at])
  }

  /** The body loop of `TryRead`: `current` is the byte just read and `at` the position
      after it; each further byte adds its payload plus one, seven bits higher. */
  function ReadBody(s: seq<Byte>, at: nat, value: U64, pos: nat, current: Byte): (r: Result<Step, Fault>)
    requires at <= |s|
    ensures r.Ok? ==> r.value.Value? && at <= r.value.next <= |s|
    decreases |s| - at
  {
    if IsLastByte(current) then Ok(Value(value, at))
    else if at == |s| then Err(MissingBodyByte)
    else ReadBody(s, at + 1, WrappingAdd(value, ShiftLeft(Payload(s[at]) + 1, pos + 7)), pos + 7, s[at])
  }

  /** What `TryRead` does on `s` from position `at` with `prefix` prefix bytes. */
  function ReadValue(s: seq<Byte>, at: nat, prefix: nat): (r: Result<Step, Fault>)
    requires at <= |s|
    ensures r == Ok(NoValue) <==> at == |s|
    ensures r.Ok? && r.value.Value? ==> at < r.value.next <= |s|
  {
    ReadPrefix(s, at, 0, prefix, 0, 0)
  }

  /** What `ReadAll` yields from position `at`: successive values up to a clean end, or the
      first exception. */
  function ReadAllFrom(s: seq<Byte>, at: nat, prefix: nat): (r: Result<seq<U64>, Fault>)
    requires at <= |s|
    decreases |s| - at
  {
    match ReadValue(s, at, prefix)
    case Err(e) => Err(e)
    case Ok(NoValue) => Ok([])
    case Ok(Value(v, next)) =>
      match ReadAllFrom(s, next, prefix)
      case Err(e) => Err(e)
      case Ok(vs) => Ok([v] + vs)
  }

  /** `values` in front of a result. */
  function Prepend(values: seq<U64>, r: Result<seq<U64>, Fault>): Result<seq<U64>, Fault>
  {
    match r
    case Err(e) => Err(e)
    case Ok(vs) => Ok(values + vs)
  }

  lemma {:induction false} PrependNothing(r: Result<seq<U64>, Fault>)
    ensures Prepend([], r) == r
  {
    if r.Ok? {
      assert [] + r.value == r.value;
    }
  }

  lemma {:induction false} PrependTwice(a: seq<U64>, b: seq<U64>, r: Result<seq<U64>, Fault>)
    ensures Prepend(a, Prepend(b, r)) == Prepend(a + b, r)
  {
    if r.Ok? {
      assert a + (b + r.value) == (a + b) + r.value;
    }
  }

  /** After a value comes the rest of the input's values. */
  lemma {:induction false} ReadAllStep(s: seq<Byte>, at: nat, prefix: nat)
    requires at <= |s| && ReadValue(s, at, prefix).Ok? && ReadValue(s, at, prefix).value.Value?
    ensures ReadAllFrom(s, at, prefix)
         == Prepend([ReadValue(s, at, prefix).value.value], ReadAllFrom(s, ReadValue(s, at, prefix).value.next, prefix))
  {
  }

  /** `VLQUnsignedReader` over an input stream, modelled as the byte sequence and a cursor. */
  class UnsignedReader {
    const input: seq<Byte>
    const prefixBytes: nat
    /** The stream position: the bytes before it have been read. */
    var position: nat
    /** The last byte read, or -1 once the stream is exhausted. */
    var currentByte: int
    var isDisposed: bool

    ghost predicate Valid()
      reads this
    {
      position <= |input|
    }

    constructor (input: seq<Byte>, expectedMinValue: U64)
      ensures Valid() && this.input == input && position == 0 && !isDisposed
      ensures prefixBytes == PrefixBytesFor(expectedMinValue)
    {
      this.input := input;
      var e: nat := expectedMinValue;
      var p := 0;
      while e > 255
        invariant PrefixBytesFor(expectedMinValue) == p + PrefixBytesFor(e)
        decreases e
      {
        p := p + 1;
        e := e / 255;
      }
      prefixBytes := p;
      position := 0;
      currentByte := 0;
      isDisposed := false;
    }

    /** The standard reader, `expectedMinValue` 0: no prefix bytes. */
    constructor Default(input: seq<Byte>)
      ensures Valid() && this.input == input && position == 0 && !isDisposed
      ensures prefixBytes == PrefixBytesFor(0) == 0
    {
      this.input := input;
      prefixBytes := 0;
      position := 0;
      currentByte := 0;
      isDisposed := false;
    }

    /** `ReadByte`: takes the next byte into `currentByte`, or records -1 at the end. */
    method ReadByte() returns (ok: bool)
      requires Valid()
      modifies this`position, this`currentByte
      ensures Valid()
      ensures ok <==> old(position) < |input|
      ensures ok ==> currentByte == input[old(position)] && position == old(position) + 1
      ensures !ok ==> currentByte == -1 && position == old(position)
    {
      if position == |input| {
        currentByte := -1;
        return false;
      }
      currentByte := input[position];
      position := position + 1;
      return true;
    }

    /** `TryRead`: `Ok(false)` with value 0 at a clean end of input, `Ok(true)` with the
        value read, or the exception. */
    method TryRead() returns (r: Result<bool, Fault>, value: U64)
      requires Valid()
      modifies this`position, this`currentByte
      ensures Valid()
      ensures old(isDisposed) ==> r == Err(ObjectDisposed) && position == old(position)
      ensures !old(isDisposed) ==>
        match ReadValue(input, old(position), prefixBytes)
        case Ok(NoValue) => r == Ok(false) && value == 0 && position == old(position)
        case Ok(Value(v, next)) => r == Ok(true) && value == v && position == next
        case Err(e) => r == Err(e) && position == |input|
    {
      if isDisposed {
        return Err(ObjectDisposed), 0;
      }
      ghost var spec := ReadValue(input, position, prefixBytes);
      ghost var start := position;
      var outputPosition := 0;
      value := 0;
      for i := 0 to prefixBytes
        invariant Valid() && position == start + i
        invariant spec == ReadPrefix(input, position, i, prefixBytes, value, outputPosition)
        invariant i == 0 ==> value == 0
      {
        var ok := ReadByte();
        if !ok {
          if i > 0 {
            return Err(MissingInitialByte(i)), value;
          }
          return Ok(false), value;
        }
        value := WrappingAdd(value, ShiftLeft(currentByte, outputPosition));
        outputPosition := outputPosition + 8;
      }
      var ok := ReadByte();
      if !ok {
        if prefixBytes > 0 {
          return Err(MissingInitialBodyByte), value;
        }
        return Ok(false), value;
      }
      value := WrappingAdd(value, ShiftLeft(Payload(currentByte), outputPosition));
      while currentByte < 128
        invariant Valid() && 0 <= currentByte < 256
        invariant spec == ReadBody(input, position, value, outputPosition, currentByte)
        decreases |input| - position
      {
        outputPosition := outputPosition + 7;
        ok := ReadByte();
        if !ok {
          return Err(MissingBodyByte), value;
        }
        value := WrappingAdd(value, ShiftLeft(Payload(currentByte) + 1, outputPosition));
      }
      r := Ok(true);
    }

    /** `Read`: the next value; `EndOfStream` where `TryRead` returns false. */
    method Read() returns (r: Result<U64, Fault>)
      requires Valid()
      modifies this`position, this`currentByte
      ensures Valid()
      ensures old(isDisposed) ==> r == Err(ObjectDisposed) && position == old(position)
      ensures !old(isDisposed) ==>
        match ReadValue(input, old(position), prefixBytes)
        case Ok(NoValue) => r == Err(EndOfStream) && position == old(position)
        case Ok(Value(v, next)) => r == Ok(v) && position == next
        case Err(e) => r == Err(e) && position == |input|
    {
      var ok, value := TryRead();
      match ok
      case Err(e) => return Err(e);
      case Ok(success) =>
        if !success {
          return Err(EndOfStream);
        }
        return Ok(value);
    }

    /** `Dispose`: marks the reader disposed; a second call changes nothing. */
    method Dispose()
      modifies this`isDisposed
      ensures isDisposed
    {
      if isDisposed {
        return;
      }
      isDisposed := true;
    }
  }

  /** `ReadAll`: every value in `input`, read with the given expected minimum value. */
  method ReadAll(expectedMinValue: U64, input: seq<Byte>) returns (r: Result<seq<U64>, Fault>)
    ensures r == ReadAllFrom(input, 0, PrefixBytesFor(expectedMinValue))
  {
    var reader := new UnsignedReader(input, expectedMinValue);
    ghost var prefix := reader.prefixBytes;
    var values: seq<U64> := [];
    PrependNothing(ReadAllFrom(input, 0, prefix));
    while true
      invariant reader.Valid() && !reader.isDisposed
      invariant reader.input == input && reader.prefixBytes == prefix
      invariant ReadAllFrom(input, 0, prefix) == Prepend(values, ReadAllFrom(input, reader.position, prefix))
      decreases |input| - reader.position
    {
      ghost var at := reader.position;
      var ok, value := reader.TryRead();
      match ok
      case Err(e) =>
        return Err(e);
      case Ok(success) =>
        if !success {
          assert ReadAllFrom(input, reader.position, prefix) == Ok([]);
          assert values + [] == values;
          break;
        }
        ReadAllStep(input, at, prefix);
        PrependTwice(values, [value], ReadAllFrom(input, reader.position, prefix));
        values := values + [value];
    }
    reader.Dispose();
    r := Ok(values);
  }
}
