# InvertedTomato integer compression: VLQ and Fibonacci codecs in Dafny

This project models three integer codecs from the InvertedTomato integer-compression
library and proves properties of them.

- **VLQ (variable-length quantity), unsigned.**
  - `VLQUnsignedWriter` splits a `ulong` into packets of `PacketSize` bits (7 by default).
    Each packet is preceded by a continuity bit: 0 means more packets follow, 1 means it is
    the last one. After every packet that is not the last, the rest of the value is shifted
    right and decremented. With this offset, every packet sequence a decoder accepts is the
    encoding of exactly one value, and no two values share an encoding.
  - `VLQUnsignedReader` reads bytes with the 0x80 continuity mask and the 0x7F payload mask.
    It adds 1 to every packet after the first, which undoes the writer's decrement.
  - The reader also supports full-byte little-endian prefix bytes. Their number is derived
    from `expectedMinValue` in the constructor.
  - The reader tells a clean end of input (`TryRead` returns false) from an input cut off
    in the middle of a value (an `InvalidOperationException`).
- **VLQ, signed.** `VLQSignedReader` applies Protocol Buffers' ZigZag decoding to the
  values of an unsigned reader. ZigZag is the `sint32`/`sint64` mapping of the "Signed
  Integers" section of the Protocol Buffers encoding guide: 0, 1, 2, 3, 4 map to
  0, -1, 1, -2, 2.
- **Fibonacci (Zeckendorf) coding.**
  - Its behaviour is the one fixed by the literal vectors of `FibbonaciCodecTests.cs`.
  - A value `v` is written as the Fibonacci code of `v + 1`: the Zeckendorf digits over
    1, 2, 3, 5, 8, … with the lowest term first, then one extra 1 bit. Two adjacent 1 bits
    therefore end each symbol.
  - Symbols are packed back to back, most-significant bit first. Only the last byte is
    padded with zeros.
  - An optional header gives the symbol count, as the Fibonacci code of the count.
  - An empty set is refused. The tests check this without a header only.

The project has these modules, one per file:

| module | file | models |
|---|---|---|
| `Wrappers` | wrappers.dfy | `Option`, `Result`/`Outcome`; `Fault`, the exceptions the VLQ classes throw |
| `BitStream` | bitstream.dfy | bytes, `ulong`, bit sequences written MSB first, `Pack`/`Unpack` of bits into bytes |
| `ZigZag` | zigzag.dfy | ZigZag decoding and encoding on 64-bit values |
| `VlqWriter` | vlq_writer.dfy | `VLQUnsignedWriter` as a class whose output is the bit sequence handed to its bit writer |
| `VlqReader` | vlq_reader.dfy | `VLQUnsignedReader` as a class with a cursor into its input; `ReadAll` |
| `VlqFraming` | vlq_framing.dfy | how much input one read of `VLQUnsignedReader` takes, which exception it raises, and the value of its prefix bytes |
| `VlqSignedReader` | vlq_signed_reader.dfy | `VLQSignedReader` as a class over an `UnsignedReader` |
| `VlqRoundTrip` | vlq_roundtrip.dfy | the bytes the writer produces, read back by the readers |
| `Fibonacci` | fibonacci.dfy | the Fibonacci codec: Zeckendorf digits, symbols, header, `Compress`/`Decompress` |
| `FibonacciVectors` | fibonacci_vectors.dfy | the literal vectors of the codec's tests, proved of the model |

The model follows these conventions:

- The VLQ classes keep their state in fields:
  - `UnsignedWriter.output` is the bit sequence written so far;
  - `UnsignedReader.position` and `UnsignedReader.currentByte` are the stream cursor and the
    last byte read;
  - `isDisposed` is the disposed flag.
- Each method is proved against a specification function:
  - `EncodeBits` for the writer;
  - `ReadValue` and `ReadAllFrom` for the reader;
  - `CompressSet` and `DecompressSet` for the Fibonacci codec.
- The properties the code promises are proved as lemmas about those functions.
- A thrown exception is an `Err`/`Fail` result carrying a `Fault` or `CodecError`.
- The reader's `ulong` arithmetic is written out: a shift count is taken modulo 64 and an
  addition wraps at 2^64, as in C#.

The bit writer behind `VLQUnsignedWriter` is not part of this model. `Write(v, n)` is taken
to append the `n` low bits of `v`, most-significant first, and the bytes of a stream are
`Pack` of its bits, with the last byte padded with zeros. The writer's `Dispose`
(InvertedTomato.IntegerCompression/VLQUnsignedWriter.cs:110-119) neither flushes nor disposes
its output, so a partial last byte may never reach the stream. That case arises only when
the encoded bits are not a whole number of bytes; packet size 7, the only size every
byte-level statement here uses, always gives whole bytes. Under this reading, packet size 7
gives the bytes `flag << 7 | payload`, which are exactly the bytes the reader's masks take
apart. `FibonacciCodec.cs` is not part of this model either: the class `FibonacciCodec` is
modelled from the layout its tests fix.

## Model

| member | source | states |
|---|---|---|
| VlqWriter.ShiftedMaxIsSinglePacketMax | InvertedTomato.IntegerCompression/VLQUnsignedWriter.cs:84 | `ulong.MaxValue >> (64 - PacketSize)` is `2^PacketSize - 1`, the largest value that fits one packet |
| VlqWriter.Remaining | InvertedTomato.IntegerCompression/VLQUnsignedWriter.cs:95-96 | the value carried to the next packet is strictly smaller than the current one, so the loop ends and the decrement never underflows |
| VlqWriter.EncodeBitsLength | InvertedTomato.IntegerCompression/VLQUnsignedWriter.cs:87-103 | an encoding is one packet of `PacketSize + 1` bits per loop pass plus the final packet |
| VlqWriter.ContinuityBits | InvertedTomato.IntegerCompression/VLQUnsignedWriter.cs:89 | the encoding splits into packets of `PacketSize + 1` bits, and exactly the last one starts with continuity bit 1 (see also line 100) |
| VlqWriter.DecodeEncodeBits | InvertedTomato.IntegerCompression/VLQUnsignedWriter.cs:87-103 | for every packet size, decoding the packets (a 1 flag ends, each later packet adds its payload plus 1) gives back the value and stops at the end of its encoding, whatever follows |
| VlqWriter.DecodeEncodeFrom | InvertedTomato.IntegerCompression/VLQUnsignedWriter.cs:87-103 | the same round trip for an encoding found anywhere inside a longer bit sequence |
| VlqWriter.EncodeBitsInjective | InvertedTomato.IntegerCompression/VLQUnsignedWriter.cs:87-103 | two values never share an encoding |
| VlqWriter.DecodedIsEncoding | InvertedTomato.IntegerCompression/VLQUnsignedWriter.cs:94-96 | whatever packets the decoder accepts at a position are exactly the encoding of the value it returns, and it stops at their end: the decrement after each non-final packet leaves no second way of writing a value |
| VlqWriter.NoRedundantEncodings | InvertedTomato.IntegerCompression/VLQUnsignedWriter.cs:87-103 | every accepted packet sequence, up to where decoding stops, is the encoding of its value; with `DecodeEncodeBits` the encoding is a bijection onto the accepted sequences |
| VlqWriter.PackedPackets | InvertedTomato.IntegerCompression/VLQUnsignedWriter.cs:87-103 | with packet size 7 a value up to 127 is the single byte `0x80 + v`; a larger value is the byte `v % 128` followed by the bytes of the remaining value |
| VlqWriter.EncodeAllSnoc | InvertedTomato.IntegerCompression/VLQUnsignedWriter.cs:19-21 | writing one more value appends exactly its encoding |
| VlqWriter.UnsignedWriter.constructor | InvertedTomato.IntegerCompression/VLQUnsignedWriter.cs:64-72 | a new writer has the given packet size, has written nothing and is not disposed |
| VlqWriter.UnsignedWriter.Default | InvertedTomato.IntegerCompression/VLQUnsignedWriter.cs:57 | the standard writer uses packet size 7 |
| VlqWriter.UnsignedWriter.WriteBits | InvertedTomato.IntegerCompression/VLQUnsignedWriter.cs:89 | the bit writer appends the requested number of low bits of the value (see also lines 92, 100, 103) |
| VlqWriter.UnsignedWriter.Write | InvertedTomato.IntegerCompression/VLQUnsignedWriter.cs:78-104 | after `Dispose` it fails with `ObjectDisposed` and writes nothing; otherwise it appends exactly the encoding of the value |
| VlqWriter.UnsignedWriter.Dispose | InvertedTomato.IntegerCompression/VLQUnsignedWriter.cs:110-127 | the writer is disposed afterwards; a second call changes nothing |
| VlqWriter.WriteAll | InvertedTomato.IntegerCompression/VLQUnsignedWriter.cs:16-26 | the bytes are the packed concatenation of the encodings of the values, in order |
| VlqWriter.PackEncodeAll | InvertedTomato.IntegerCompression/VLQUnsignedWriter.cs:16-26 | with packet size 7 every encoding is whole bytes, so the bytes of a list are the bytes of its first value followed by the bytes of the rest |
| VlqReader.MasksAgree | InvertedTomato.IntegerCompression/VLQUnsignedReader.cs:43 | `b & 0x7F` is the payload and `b & 0x80 != 0` the last-byte flag of the model (see also line 48) |
| VlqReader.PrefixBytesFor | InvertedTomato.IntegerCompression/VLQUnsignedReader.cs:91-94 | the prefix count is 0 exactly when `expectedMinValue <= 255`; otherwise it is the number of divisions by 255 needed to bring the value down to 255 or less |
| VlqReader.ReadValue | InvertedTomato.IntegerCompression/VLQUnsignedReader.cs:102-153 | `TryRead` returns false exactly at the end of input; a value advances the cursor within the input (how far, and each truncation fault, is `VlqFraming.ReadValueFraming`) |
| VlqFraming.NextLastByte | InvertedTomato.IntegerCompression/VLQUnsignedReader.cs:139 | the first position from a start whose byte has the 0x80 bit set, or the end of input when no byte has it |
| VlqFraming.ReadBodyFraming | InvertedTomato.IntegerCompression/VLQUnsignedReader.cs:139-150 | the body loop stops right after the first byte with the 0x80 bit set, and raises "Missing body byte" exactly when there is none |
| VlqFraming.FirstBodyByteFraming | InvertedTomato.IntegerCompression/VLQUnsignedReader.cs:128-150 | from the first body byte on, a value ends right after the first byte with the 0x80 bit set, or fails with "Missing body byte" when there is none |
| VlqFraming.PrefixComplete | InvertedTomato.IntegerCompression/VLQUnsignedReader.cs:114-126 | when the input holds the remaining prefix bytes, the prefix loop reads exactly them and passes their `ulong` sum on to the first body byte |
| VlqFraming.PrefixTruncated | InvertedTomato.IntegerCompression/VLQUnsignedReader.cs:114-121 | when the input ends inside the prefix, the read fails with "Missing initial byte (i)", `i` the number of prefix bytes read, or is a clean end when none was read |
| VlqFraming.ReadValueFraming | InvertedTomato.IntegerCompression/VLQUnsignedReader.cs:102-153 | the five outcomes of one `TryRead`, which cover every input: clean end at the end of input; "Missing initial byte" with the count read; "Missing initial body byte" right after the prefix; "Missing body byte" when no later byte has the 0x80 bit; otherwise a value ending right after the first such byte |
| VlqFraming.ReadValueConsumes | InvertedTomato.IntegerCompression/VLQUnsignedReader.cs:114-150 | a value read takes all its prefix bytes and at least one body byte, only its last body byte has the 0x80 bit set, and the cursor stops right after it |
| VlqFraming.LittleEndian | InvertedTomato.IntegerCompression/VLQUnsignedReader.cs:124 | the number of `k` prefix bytes, least significant first, is below `2^(8k)` |
| VlqFraming.PrefixValueExact | InvertedTomato.IntegerCompression/VLQUnsignedReader.cs:123-125 | while the bytes fit in 64 bits, the prefix loop's shifts and additions compute the little-endian number of the bytes, without wrap-around |
| VlqFraming.ReadValuePrefix | InvertedTomato.IntegerCompression/VLQUnsignedReader.cs:114-137 | with at most eight prefix bytes, the prefix is read as its little-endian number and the first body byte's payload is added `(8 * prefix) % 64` bits up, the shift count being taken modulo 64 as C# does |
| VlqFraming.PrefixBytesAtMostEight | InvertedTomato.IntegerCompression/VLQUnsignedReader.cs:91-94 | a `ulong` expected minimum value gives at most eight prefix bytes |
| VlqFraming.EightPrefixBytesOverlay | InvertedTomato.IntegerCompression/VLQUnsignedReader.cs:137 | with eight prefix bytes the shift count 64 is reduced to 0, so the first body byte's payload is added to the prefix's low bits, not above them |
| VlqFraming.EightPrefixBytesCollide | InvertedTomato.IntegerCompression/VLQUnsignedReader.cs:114-137 | consequently `0,0,0,0,0,0,0,0,0x81` and `1,0,0,0,0,0,0,0,0x80` both read, with eight prefix bytes, as the value 1 ending at offset 9 |
| VlqReader.UnsignedReader.constructor | InvertedTomato.IntegerCompression/VLQUnsignedReader.cs:81-95 | a new reader starts at the beginning of its input, is not disposed, and has `PrefixBytesFor(expectedMinValue)` prefix bytes |
| VlqReader.UnsignedReader.Default | InvertedTomato.IntegerCompression/VLQUnsignedReader.cs:74 | the standard reader has no prefix bytes |
| VlqReader.UnsignedReader.ReadByte | InvertedTomato.IntegerCompression/VLQUnsignedReader.cs:172-180 | it succeeds exactly when input remains; it then stores the next byte and advances, and otherwise stores -1 and stays |
| VlqReader.UnsignedReader.TryRead | InvertedTomato.IntegerCompression/VLQUnsignedReader.cs:102-153 | after `Dispose` it fails with `ObjectDisposed`; otherwise it returns false and 0 at a clean end, or the value `ReadValue` gives with the cursor just past its bytes, or the truncation fault |
| VlqReader.UnsignedReader.Read | InvertedTomato.IntegerCompression/VLQUnsignedReader.cs:160-166 | it fails with `EndOfStream` exactly when `TryRead` returns false; otherwise it gives `TryRead`'s value or fault. The cursor is unchanged when disposed or at a clean end, is just past the value after a read, and is at the end of input after a fault |
| VlqReader.UnsignedReader.Dispose | InvertedTomato.IntegerCompression/VLQUnsignedReader.cs:186-202 | the reader is disposed afterwards; a second call changes nothing |
| VlqReader.ReadAll | InvertedTomato.IntegerCompression/VLQUnsignedReader.cs:15-38 | the values are the successive `TryRead` results up to a clean end, or the fault that stops them |
| ZigZag.Decode | InvertedTomato.IntegerCompression/VLQSignedReader.cs:7 | the result is non-negative exactly for even input; even `2r` decodes to `r` and odd `2k+1` to `-k-1` (see also line 65) |
| ZigZag.Encode | InvertedTomato.IntegerCompression/VLQSignedReader.cs:7 | non-negative values get even codes and negative values odd codes |
| ZigZag.DecodeEncode | InvertedTomato.IntegerCompression/VLQSignedReader.cs:7 | decoding undoes encoding on every `long` |
| ZigZag.EncodeDecode | InvertedTomato.IntegerCompression/VLQSignedReader.cs:7 | encoding undoes decoding on every `ulong`, so ZigZag is a bijection |
| ZigZag.EncodeOrder | InvertedTomato.IntegerCompression/VLQSignedReader.cs:7 | codes are ordered by magnitude, and a negative value comes just before the positive value of the same magnitude |
| VlqSignedReader.DecodeAll | InvertedTomato.IntegerCompression/VLQSignedReader.cs:23 | each signed value is the ZigZag decoding of the unsigned value at the same place (see also line 65) |
| VlqSignedReader.DecodeAllAppend | InvertedTomato.IntegerCompression/VLQSignedReader.cs:23-25 | decoding distributes over concatenation, so values can be decoded as they are read |
| VlqSignedReader.SignedReader.constructor | InvertedTomato.IntegerCompression/VLQSignedReader.cs:44-46 | the reader wraps a fresh standard unsigned reader over the same input |
| VlqSignedReader.SignedReader.WithPacketSize | InvertedTomato.IntegerCompression/VLQSignedReader.cs:53-55 | `packetSize` becomes the unsigned reader's `expectedMinValue`, so only sizes above 255 add prefix bytes |
| VlqSignedReader.SignedReader.TryRead | InvertedTomato.IntegerCompression/VLQSignedReader.cs:62-67 | it reports the unsigned reader's success flag or fault; the value is the ZigZag decoding of the unsigned value, and 0 when nothing was read. The cursor is unchanged when disposed or at a clean end, is just past the value after a read, and is at the end of input after a fault |
| VlqSignedReader.SignedReader.Read | InvertedTomato.IntegerCompression/VLQSignedReader.cs:74-80 | it fails with `EndOfStream` exactly when `TryRead` returns false; otherwise it gives the decoded value or the fault. The cursor is unchanged when disposed or at a clean end, is just past the value after a read, and is at the end of input after a fault |
| VlqSignedReader.SignedReader.Dispose | InvertedTomato.IntegerCompression/VLQSignedReader.cs:86-97 | the reader and the unsigned reader under it are disposed afterwards; a second call changes nothing |
| VlqSignedReader.ReadAll | InvertedTomato.IntegerCompression/VLQSignedReader.cs:15-28 | the values are the decoded successive values of the unsigned reader, or its fault |
| VlqRoundTrip.PackWritten | InvertedTomato.IntegerCompression/VLQUnsignedWriter.cs:87-103 | the packed bits of one value are the bytes `Written`: `0x80 + v` for the last packet and `v % 128` for each earlier one |
| VlqRoundTrip.PackWrittenAll | InvertedTomato.IntegerCompression/VLQUnsignedWriter.cs:16-26 | the bytes of `WriteAll` are the bytes of each value, concatenated |
| VlqRoundTrip.ReadBodyOfWritten | InvertedTomato.IntegerCompression/VLQUnsignedReader.cs:139-150 | the body loop adds back, without wrap-around, the part of a value the writer put in its later packets, and stops at the end of those bytes |
| VlqRoundTrip.ReadWritten | InvertedTomato.IntegerCompression/VLQUnsignedReader.cs:102-153 | a reader without prefix bytes, at the start of the bytes written for `v`, reads `v` and stops right after them |
| VlqRoundTrip.ReadPrefixedWritten | InvertedTomato.IntegerCompression/VLQUnsignedReader.cs:114-150 | after at most eight prefix bytes with little-endian number `L`, the bytes written for `w` read as `L + w * 2^(8 * prefix)` when that fits a `ulong`, and the cursor stops right after them |
| VlqRoundTrip.TwoPrefixBytes | InvertedTomato.IntegerCompression/VLQUnsignedReader.cs:114-137 | with two prefix bytes, `[b0, b1, 0x80 + q]` reads as `b0 + 256 * b1 + 65536 * q` and ends after three bytes |
| VlqRoundTrip.ReadAllOfWritten | InvertedTomato.IntegerCompression/VLQUnsignedReader.cs:25-38 | reading all values from where written bytes begin gives exactly the written values |
| VlqRoundTrip.UnsignedRoundTrip | InvertedTomato.IntegerCompression/VLQUnsignedWriter.cs:16-26 | `ReadAll(0, WriteAll(values))` gives `values` for every list of `ulong` |
| VlqRoundTrip.EncodeAllSigned | InvertedTomato.IntegerCompression/VLQSignedReader.cs:7 | the unsigned list a signed list is written as: the ZigZag codes, place by place |
| VlqRoundTrip.DecodeEncodeAll | InvertedTomato.IntegerCompression/VLQSignedReader.cs:65 | decoding the codes of a signed list gives the list back |
| VlqRoundTrip.SignedRoundTrip | InvertedTomato.IntegerCompression/VLQSignedReader.cs:15-28 | the signed `ReadAll` of the written ZigZag codes of a list gives the list back |
| Fibonacci.DigitsFacts | Tests/Compression/Integers/FibbonaciCodecTests.cs:22-76 | the greedy digits of `n` weigh `n`, have no two adjacent 1s, and the top digit is 1 exactly when `n` reaches the top term |
| Fibonacci.WeightBound | Tests/Compression/Integers/FibbonaciCodecTests.cs:22-76 | `k` digits without adjacent 1s always weigh less than term `k` |
| Fibonacci.ZeckendorfUnique | Tests/Compression/Integers/FibbonaciCodecTests.cs:22-76 | any digit string without adjacent 1s is the greedy digit string of its weight (Zeckendorf's theorem) |
| Fibonacci.TopIndex | Tests/Compression/Integers/FibbonaciCodecTests.cs:22-76 | the largest term not above `n`, the top digit of the code of `n` |
| Fibonacci.TopIndexUnique | Tests/Compression/Integers/FibbonaciCodecTests.cs:22-76 | only one term index brackets `n` |
| Fibonacci.CodeFacts | Tests/Compression/Integers/FibbonaciCodecTests.cs:22-76 | the code of `n` has no adjacent 1s before its final extra 1, and its digits weigh `n` |
| Fibonacci.CanonicalDigits | Tests/Compression/Integers/FibbonaciCodecTests.cs:150-196 | any digit string without adjacent 1s that ends in 1, followed by one more 1, is the code of its weight |
| Fibonacci.Terminator | Tests/Compression/Integers/FibbonaciCodecTests.cs:150-196 | the end a search finds is a pair of adjacent 1s no earlier than where it starts |
| Fibonacci.TerminatorFirstPair | Tests/Compression/Integers/FibbonaciCodecTests.cs:150-196 | the search finds the first pair of adjacent 1s, and finds none only when there is none |
| Fibonacci.DecodeSymbol | Tests/Compression/Integers/FibbonaciCodecTests.cs:150-196 | a decoded symbol is at least two bits long and lies within the input; there is none exactly when no pair of adjacent 1s exists |
| Fibonacci.DecodeSymbolOfSymbol | Tests/Compression/Integers/FibbonaciCodecTests.cs:150-196 | the symbol of `v`, whatever follows it, decodes to `v` and to its own length |
| Fibonacci.DecodeSymbolCanonical | Tests/Compression/Integers/FibbonaciCodecTests.cs:150-196 | whatever the decoder reads as a symbol is exactly the symbol of the value it returns |
| Fibonacci.DecodeCount | Tests/Compression/Integers/FibbonaciCodecTests.cs:235-249 | with a header, decoding yields exactly the declared number of values, or fails for a missing symbol |
| Fibonacci.NoSymbolInZeros | Tests/Compression/Integers/FibbonaciCodecTests.cs:212-219 | zero padding decodes to no symbol |
| Fibonacci.DecodeAllSymbols | Tests/Compression/Integers/FibbonaciCodecTests.cs:204-219 | the symbols of a list, followed by zero padding, decode to exactly the list |
| Fibonacci.DecodeCountSymbols | Tests/Compression/Integers/FibbonaciCodecTests.cs:235-249 | the symbols of a list, followed by any bits, decode to the list when its length is the count |
| Fibonacci.CompressSet | Tests/Compression/Integers/FibbonaciCodecTests.cs:103-107 | `Compress` fails with `EmptySet` exactly for an empty set (the test is headerless; the model refuses it in header mode too), and succeeds exactly when the set is non-empty and every value is at most `ulong.MaxValue - 1` |
| Fibonacci.CompressRefused | Tests/Compression/Integers/FibbonaciCodecTests.cs:77-80 | any value above `ulong.MaxValue - 1` makes `Compress` fail |
| Fibonacci.DecompressSet | Tests/Compression/Integers/FibbonaciCodecTests.cs:131-137 | headerless `Decompress` always succeeds; with a header a success yields as many values as the header declares (see also lines 221-249) |
| Fibonacci.DecompressHeaderless | Tests/Compression/Integers/FibbonaciCodecTests.cs:204-219 | headerless `Decompress` of packed symbols returns exactly their values, with no trailing symbol from the padding; the tests also allow one spurious trailing 0 (line 142), and the model's choice of none is listed under Left out |
| Fibonacci.DecompressWithHeader | Tests/Compression/Integers/FibbonaciCodecTests.cs:221-240 | `Decompress` of a header and its symbols returns exactly the values |
| Fibonacci.DecodeHeaderAndSymbols | Tests/Compression/Integers/FibbonaciCodecTests.cs:244-249 | with a header, any bits after the declared symbols are ignored |
| Fibonacci.RoundTrip | Tests/Compression/Integers/FibbonaciCodecTests.cs:10-16 | in both modes, `Decompress` of what `Compress` produced gives back the set (see also lines 131-137) |
| Fibonacci.SymbolsSnoc | Tests/Compression/Integers/FibbonaciCodecTests.cs:81-84 | compressing one more value appends its symbol |
| Fibonacci.FibonacciCodec.constructor | Tests/Compression/Integers/FibbonaciCodecTests.cs:11 | a new codec has no header and empty buffers |
| Fibonacci.FibonacciCodec.Compress | Tests/Compression/Integers/FibbonaciCodecTests.cs:10-16 | it stores `CompressSet` of the decompressed set in the compressed buffer, or fails with its error and leaves the buffer alone |
| Fibonacci.FibonacciCodec.Decompress | Tests/Compression/Integers/FibbonaciCodecTests.cs:131-137 | it stores `DecompressSet` of the compressed buffer in the decompressed set, or fails with its error and leaves the set alone |
| FibonacciVectors.Vector0 | Tests/Compression/Integers/FibbonaciCodecTests.cs:22-24 | [0] compresses to `11000000`, and that byte decompresses to [0] (see also lines 150-152) |
| FibonacciVectors.Vector1 | Tests/Compression/Integers/FibbonaciCodecTests.cs:26-28 | [1] compresses to `01100000` and back (see also lines 154-156) |
| FibonacciVectors.Vector2 | Tests/Compression/Integers/FibbonaciCodecTests.cs:30-32 | [2] compresses to `00110000` and back (see also lines 158-160) |
| FibonacciVectors.Vector3 | Tests/Compression/Integers/FibbonaciCodecTests.cs:34-36 | [3] compresses to `10110000` and back (see also lines 162-164) |
| FibonacciVectors.Vector4 | Tests/Compression/Integers/FibbonaciCodecTests.cs:38-40 | [4] compresses to `00011000` and back (see also lines 166-168) |
| FibonacciVectors.Vector5 | Tests/Compression/Integers/FibbonaciCodecTests.cs:42-44 | [5] compresses to `10011000` and back (see also lines 170-172) |
| FibonacciVectors.Vector6 | Tests/Compression/Integers/FibbonaciCodecTests.cs:46-48 | [6] compresses to `01011000` and back (see also lines 174-176) |
| FibonacciVectors.Vector7 | Tests/Compression/Integers/FibbonaciCodecTests.cs:50-52 | [7] compresses to `00001100` and back (see also lines 178-180) |
| FibonacciVectors.Vector8 | Tests/Compression/Integers/FibbonaciCodecTests.cs:54-56 | [8] compresses to `10001100` and back (see also lines 182-184) |
| FibonacciVectors.Vector9 | Tests/Compression/Integers/FibbonaciCodecTests.cs:58-60 | [9] compresses to `01001100` and back (see also lines 186-188) |
| FibonacciVectors.Vector10 | Tests/Compression/Integers/FibbonaciCodecTests.cs:62-64 | [10] compresses to `00101100` and back (see also lines 190-192) |
| FibonacciVectors.Vector11 | Tests/Compression/Integers/FibbonaciCodecTests.cs:66-68 | [11] compresses to `10101100` and back (see also lines 194-196) |
| FibonacciVectors.Vector12 | Tests/Compression/Integers/FibbonaciCodecTests.cs:70-72 | [12] compresses to `00000110` and back |
| FibonacciVectors.Vector13 | Tests/Compression/Integers/FibbonaciCodecTests.cs:74-76 | [13] compresses to `10000110` and back |
| FibonacciVectors.Vector012 | Tests/Compression/Integers/FibbonaciCodecTests.cs:81-84 | [0, 1, 2] compresses to `11011001 10000000` and back (see also lines 203-209) |
| FibonacciVectors.VectorTenZeros | Tests/Compression/Integers/FibbonaciCodecTests.cs:111-122 | ten zeros compress to `11111111 11111111 11110000`, three bytes |
| FibonacciVectors.VectorFourZeros | Tests/Compression/Integers/FibbonaciCodecTests.cs:211-219 | headerless, `11111111` decompresses to exactly four zeros |
| FibonacciVectors.HeaderVector0 | Tests/Compression/Integers/FibbonaciCodecTests.cs:86-89 | with a header, [0] compresses to `11110000` and back (see also lines 221-224) |
| FibonacciVectors.HeaderVector1 | Tests/Compression/Integers/FibbonaciCodecTests.cs:90-93 | with a header, [1] compresses to `11011000` and back (see also lines 225-228) |
| FibonacciVectors.HeaderVector2 | Tests/Compression/Integers/FibbonaciCodecTests.cs:94-97 | with a header, [2] compresses to `11001100` and back (see also lines 229-232) |
| FibonacciVectors.HeaderVector012 | Tests/Compression/Integers/FibbonaciCodecTests.cs:98-101 | with a header, [0, 1, 2] compresses to `00111101 10011000` and back (see also lines 234-240) |
| FibonacciVectors.HeaderVectorTrailingJunk | Tests/Compression/Integers/FibbonaciCodecTests.cs:244-249 | with a header, `11111111` decompresses to exactly [0] |
| FibonacciVectors.VectorEmpty | Tests/Compression/Integers/FibbonaciCodecTests.cs:103-107 | compressing an empty set without a header fails with `EmptySet`; refusing it with a header too is the model's reading |

## Left out

- With eight prefix bytes the C# reader overlays the first body byte's payload on the low bits of the prefix (its `<<` takes the count 64 modulo 64), so two different inputs can read as the same value. The model keeps that behaviour and does not promise that reads with eight prefix bytes are unambiguous.
- `VLQUnsignedWriter.CalculateBitLength` (InvertedTomato.IntegerCompression/VLQUnsignedWriter.cs:34-38) is not modelled. It computes with floating point and calls `Bits.CountUsed`, which is not part of this model.
- The `Compress_Max` and `Decompress_Max` vectors (Tests/Compression/Integers/FibbonaciCodecTests.cs:77-80, 197-200) are not proved. The model has `ulong.MaxValue - 1` as its largest codable value, but the 12-byte literal is too large to evaluate in the proof. `CompressRefused` covers the values above it.
- The packet size is limited to 1..63. Outside that range the writer's `byte` cast and its shift `64 - PacketSize` lose their meaning.
- The bit writer, `Stream`/`MemoryStream`, `ToArray`, and the test helpers `ParseToBytes`/`ToBinaryString` are not modelled as I/O. Streams are byte sequences, the bit writer is a bit sequence, and a byte string in a vector is a byte literal.
- `ZigZag.cs` is not part of this model. ZigZag follows the Protocol Buffers definition that the reader's documentation names.
- `ZigZag.Decode` and `ZigZag.Encode` are defined on numbers (even words are the non-negative values, odd words the negative ones). The model does not prove that the bit formulas `(n >> 1) ^ -(n & 1)` and `(x << 1) ^ (x >> 63)` compute them.
- `FibonacciCodec.cs` is not part of this model. The codec is modelled from its tests.
- Headerless decoding of padding: the tests let a one-symbol input decode to up to two values and check only the first (Tests/Compression/Integers/FibbonaciCodecTests.cs:142). Their comments (lines 214 and 247) say a trailing 0 appears when the last byte is incomplete, so the C# decoder evidently yields a spurious 0 from zero padding. The model deliberately decodes no symbol from padding: `DecompressSet([0xC0], false) == Ok([0])`. The single-value "and back" lemmas (`Vector0`–`Vector13`) therefore fix the exact list where the tests check only its first value.
- Where the tests are silent, the model does this:
  - decoding with a header fails if the header, or one of the declared symbols, is missing;
  - values above `ulong.MaxValue - 1` are refused;
  - an empty set is refused with a header as well as without one.
- `Fibonacci.DecompressSet`: decoded values are natural numbers, not capped at 64 bits. A symbol of an out-of-range value is decoded rather than refused.
- `Decompress`'s integer return value (the tests expect 0) is not modelled. The model returns `Pass` or a `CodecError`.
- `ReadAll` is lazy in C# (`yield return`). The model returns the whole list, or the fault that stops the enumeration, and it does not model values already delivered before a fault.
- Null-argument checks and the empty `if (disposing)` blocks are not modelled, since they have no behaviour here.
- `VlqReader.ReadBody`: the reader's `ulong` wrap-around on over-long continuation chains is modelled (shift counts modulo 64, additions modulo 2^64). How far a read goes and which exception it raises is proved for every input (`ReadValueFraming`), but the value a wrapped read yields is not characterised. The round-trip lemmas cover written input, where no wrap-around occurs.
- `VlqSignedReader.SignedReader.WithPacketSize`: the `int` argument is limited to non-negative values. A negative `int` converted to `ulong` is not modelled.
- `FibonacciVectors.VectorTenZeros` and `FibonacciVectors.VectorFourZeros` take the all-zero list as a parameter, constrained by their preconditions, instead of a literal list.
- The prefix bytes the reader accepts are never produced by the writer, which has no `expectedMinValue`. The list round trips are therefore stated for readers without prefix bytes; `ReadPrefixedWritten` covers one value after arbitrary prefix bytes.
