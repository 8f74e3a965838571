/** The VLQ signed reader: an unsigned VLQ reader whose values pass through ZigZag decoding. */
module VlqSignedReader {
  import opened BitStream
  import opened Wrappers
  import ZigZag
  import opened VlqReader

  /** ZigZag decoding of every value. */
  function DecodeAll(values: seq<U64>): (r: seq<ZigZag.I64>)
    ensures |r| == |values|
    ensures forall i :: 0 <= i < |values| ==> r[i] == ZigZag.Decode(values[i])
  {
    if values == [] then [] else [ZigZag.Decode(values[0])] + DecodeAll(values[1..])
  }

  /** What the signed `ReadAll` yields: the unsigned values of the standard reader, decoded. */
  function SignedReadAllFrom(s: seq<Byte>, at: nat): (r: Result<seq<ZigZag.I64>, Fault>)
    requires at <= |s|
  {
    match ReadAllFrom(s, at, 0)
    case Err(e) => Err(e)
    case Ok(vs) => Ok(DecodeAll(vs))
  }

  /** `VLQSignedReader`. Its disposed flag is kept together with the underlying reader's. */
  class SignedReader {
    const underlying: UnsignedReader
    var isDisposed: bool

    ghost predicate Valid()
      reads this, underlying
    {
      underlying.Valid() && isDisposed == underlying.isDisposed
    }

    /** The standard reader: no prefix bytes. */
    constructor (input: seq<Byte>)
      ensures Valid() && fresh(underlying) && !isDisposed
      ensures underlying.input == input && underlying.position == 0 && underlying.prefixBytes == 0
    {
      underlying := new UnsignedReader.Default(input);
      isDisposed := false;
    }

    /** The `packetSize` argument reaches the unsigned reader as its expected minimum value,
        so it only sets the number of prefix bytes, and none for sizes up to 255. */
    constructor WithPacketSize(input: seq<Byte>, packetSize: nat)
      requires packetSize < 0x8000_0000
      ensures Valid() && fresh(underlying) && !isDisposed
      ensures underlying.input == input && underlying.position == 0
      ensures underlying.prefixBytes == PrefixBytesFor(packetSize)
      ensures packetSize <= 255 ==> underlying.prefixBytes == 0
    {
      underlying := new UnsignedReader(input, packetSize);
      isDisposed := false;
    }

    /** `TryRead`: the underlying value, ZigZag-decoded; 0 when no value was read. */
    method TryRead() returns (r: Result<bool, Fault>, value: ZigZag.I64)
      requires Valid()
      modifies underlying`position, underlying`currentByte
      ensures Valid()
      ensures isDisposed ==> r == Err(ObjectDisposed) && underlying.position == old(underlying.position)
      ensures !isDisposed ==>
        match ReadValue(underlying.input, old(underlying.position), underlying.prefixBytes)
        case Ok(NoValue) => r == Ok(false) && value == 0 && underlying.position == old(underlying.position)
        case Ok(Value(v, next)) => r == Ok(true) && value == ZigZag.Decode(v) && underlying.position == next
        case Err(e) => r == Err(e) && underlying.position == |underlying.input|
    {
      var success, innerValue := underlying.TryRead();
      value := ZigZag.Decode(innerValue);
      r := success;
    }

    /** `Read`: the next signed value; `EndOfStream` where `TryRead` returns false. */
    method Read() returns (r: Result<ZigZag.I64, Fault>)
      requires Valid()
      modifies underlying`position, underlying`currentByte
      ensures Valid()
      ensures isDisposed ==> r == Err(ObjectDisposed) && underlying.position == old(underlying.position)
      ensures !isDisposed ==>
        match ReadValue(underlying.input, old(underlying.position), underlying.prefixBytes)
        case Ok(NoValue) => r == Err(EndOfStream) && underlying.position == old(underlying.position)
        case Ok(Value(v, next)) => r == Ok(ZigZag.Decode(v)) && underlying.position == next
        case Err(e) => r == Err(e) && underlying.position == |underlying.input|
    {
      var success, value := TryRead();
      match success
      case Err(e) => return Err(e);
      case Ok(ok) =>
        if !ok {
          return Err(EndOfStream);
        }
        return Ok(value);
    }

    /** `Dispose`: disposes this reader and the underlying one; a second call changes nothing. */
    method Dispose()
      requires Valid()
      modifies this`isDisposed, underlying`isDisposed
      ensures Valid() && isDisposed
    {
      if isDisposed {
        return;
      }
      isDisposed := true;
      underlying.Dispose();
    }
  }

  lemma {:induction false} DecodeAllAppend(a: seq<U64>, b: seq<U64>)
    ensures DecodeAll(a + b) == DecodeAll(a) + DecodeAll(b)
  {
  }

  /** The signed `ReadAll`: every value of `input`, decoded. */
  method ReadAll(input: seq<Byte>) returns (r: Result<seq<ZigZag.I64>, Fault>)
    ensures r == SignedReadAllFrom(input, 0)
  {
    var reader := new SignedReader(input);
    ghost var raw: seq<U64> := [];
    var values: seq<ZigZag.I64> := [];
    PrependNothing(ReadAllFrom(input, 0, 0));
    while true
      invariant reader.Valid() && !reader.isDisposed
      invariant reader.underlying.input == input && reader.underlying.prefixBytes == 0
      invariant ReadAllFrom(input, 0, 0) == Prepend(raw, ReadAllFrom(input, reader.underlying.position, 0))
      invariant values == DecodeAll(raw)
      decreases |input| - reader.underlying.position
    {
      ghost var at := reader.underlying.position;
      var ok, value := reader.TryRead();
      match ok
      case Err(e) =>
        return Err(e);
      case Ok(success) =>
        if !success {
          assert ReadAllFrom(input, reader.underlying.position, 0) == Ok([]);
          assert raw + [] == raw;
          break;
        }
        ghost var inner := ReadValue(input, at, 0).value.value;
        ReadAllStep(input, at, 0);
        PrependTwice(raw, [inner], ReadAllFrom(input, reader.underlying.position, 0));
        DecodeAllAppend(raw, [inner]);
        raw := raw + [inner];
        values := values + [value];
    }
    reader.Dispose();
    r := Ok(values);
  }
}
