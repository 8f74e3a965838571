/** Fibonacci coding of unsigned integers. Every positive integer is a unique sum of
    non-consecutive terms of 1, 2, 3, 5, 8, 13, ... (Zeckendorf's theorem); its Fibonacci code
    lists those terms as bits, lowest term first, and ends with an extra 1. As the highest
    term is always present and no two terms are adjacent, "11" occurs only at the end,
    so codes written back to back are self-delimiting. `FibonacciCodec` writes a value `v`
    as the code of `v + 1`, so that 0 is representable, optionally preceded by the code of the
    number of values. */
module Fibonacci {
  import opened BitStream
  import opened Wrappers

  /** The terms 1, 2, 3, 5, 8, ...: `Fib(i)` is the weight of bit `i` of a code. */
  function Fib(i: nat): (r: nat)
    ensures r >= i + 1
  {
    if i == 0 then 1 else if i == 1 then 2 else Fib(i - 1) + Fib(i - 2)
  }

  lemma {:induction false} FibStep(i: nat)
    ensures Fib(i) < Fib(i + 1)
    ensures i >= 1 ==> Fib(i + 1) == Fib(i) + Fib(i - 1)
  {
  }

  lemma {:induction false} FibMonotone(i: nat, j: nat)
    requires i < j
    ensures Fib(i) < Fib(j)
    decreases j - i
  {
    FibStep(i);
    if i + 1 < j {
      FibMonotone(i + 1, j);
    }
  }

  /** The value that digits `d` stand for: the sum of the terms whose bits are set. */
  function Weight(d: Bits): nat
  {
    if |d| == 0 then 0 else Weight(d[..|d| - 1]) + (if d[|d| - 1] then Fib(|d| - 1) else 0)
  }

  /** Bits `k - 1` and `k` are both set: a "11" ends at `k`. */
  predicate PairEndsAt(bits: Bits, k: nat)
  {
    1 <= k < |bits| && bits[k - 1] && bits[k]
  }

  /** No two consecutive terms are used. */
  predicate NoAdjacentOnes(d: Bits)
  {
    forall k :: 1 <= k < |d| ==> !PairEndsAt(d, k)
  }

  lemma {:induction false} PrefixNoAdjacent(d: Bits, m: nat)
    requires NoAdjacentOnes(d) && m <= |d|
    ensures NoAdjacentOnes(d[..m])
  {
    var p := d[..m];
    forall k | 1 <= k < m
      ensures !PairEndsAt(p, k)
    {
      assert !PairEndsAt(d, k);
      assert p[k - 1] == d[k - 1] && p[k] == d[k];
    }
  }

  lemma {:induction false} AppendNoAdjacent(d: Bits, b: bool)
    requires NoAdjacentOnes(d) && (b && |d| > 0 ==> !d[|d| - 1])
    ensures NoAdjacentOnes(d + [b])
  {
    var e := d + [b];
    forall k | 1 <= k < |e|
      ensures !PairEndsAt(e, k)
    {
      if k < |d| {
        assert !PairEndsAt(d, k);
        assert e[k - 1] == d[k - 1] && e[k] == d[k];
      }
    }
  }

  lemma {:induction false} WeightSnoc(d: Bits, b: bool)
    ensures Weight(d + [b]) == Weight(d) + (if b then Fib(|d|) else 0)
  {
    assert (d + [b])[..|d|] == d;
  }

  /** The greedy (Zeckendorf) digits of `n` over the first `k` terms: from the top down,
      each term is used when it fits in what is left. */
  function Digits(n: nat, k: nat): (d: Bits)
    requires n < Fib(k)
    ensures |d| == k
  {
    if k == 0 then []
    else
      var top := n >= Fib(k - 1);
      var rest := if top then n - Fib(k - 1) else n;
      RestBound(n, k);
      Digits(rest, k - 1) + [top]
  }

  /** The greedy digits are worth `n`, use no two consecutive terms, and use the top
      term exactly when it fits. */
  lemma {:induction false} DigitsFacts(n: nat, k: nat)
    requires n < Fib(k)
    ensures Weight(Digits(n, k)) == n && NoAdjacentOnes(Digits(n, k))
    ensures k > 0 ==> (Digits(n, k)[k - 1] <==> n >= Fib(k - 1))
    decreases k
  {
    if k > 0 {
      var top := n >= Fib(k - 1);
      var rest := if top then n - Fib(k - 1) else n;
      RestBound(n, k);
      DigitsFacts(rest, k - 1);
      var d := Digits(rest, k - 1);
      assert Digits(n, k) == d + [top];
      GreedyStep(d, top, rest, n);
    }
  }

  /** What is left after the top term fits below it, and below the term under it. */
  lemma {:induction false} RestBound(n: nat, k: nat)
    requires 0 < k && n < Fib(k)
    ensures n >= Fib(k - 1) ==> n - Fib(k - 1) < Fib(k - 1)
    ensures n >= Fib(k - 1) && k >= 2 ==> n - Fib(k - 1) < Fib(k - 2)
  {
    if k >= 2 {
      FibStep(k - 1);
    }
  }

  /** Adding the top digit to the greedy digits of what is left after it. */
  lemma {:induction false} GreedyStep(d: Bits, top: bool, rest: nat, n: nat)
    requires Weight(d) == rest && NoAdjacentOnes(d)
    requires n == rest + (if top then Fib(|d|) else 0)
    requires top && |d| > 0 ==> rest < Fib(|d| - 1)
    requires |d| > 0 ==> (d[|d| - 1] <==> rest >= Fib(|d| - 1))
    ensures Weight(d + [top]) == n && NoAdjacentOnes(d + [top]) && (d + [top])[|d|] == top
  {
    WeightSnoc(d, top);
    AppendNoAdjacent(d, top);
  }

  /** Digits without adjacent ones are worth less than the next term. */
  lemma {:induction false} WeightBound(d: Bits)
    requires NoAdjacentOnes(d)
    ensures Weight(d) < Fib(|d|)
    decreases |d|
  {
    var k := |d|;
    if k > 0 {
      var init := d[..k - 1];
      PrefixNoAdjacent(d, k - 1);
      WeightBound(init);
      FibStep(k - 1);
      if d[k - 1] && k >= 2 {
        var init2 := d[..k - 2];
        assert !PairEndsAt(d, k - 1);
        assert init[..k - 2] == init2;
        assert Weight(init) == Weight(init2);
        PrefixNoAdjacent(d, k - 2);
        WeightBound(init2);
      }
    }
  }

  lemma {:induction false} SnocLast(d: Bits)
    requires |d| > 0
    ensures d == d[..|d| - 1] + [d[|d| - 1]]
  {
  }

  /** One step of the greedy digits: the top digit is set exactly when its term fits. */
  lemma {:induction false} DigitsStep(n: nat, k: nat)
    requires k > 0 && n < Fib(k)
    ensures n >= Fib(k - 1) ==> n - Fib(k - 1) < Fib(k - 1)
    ensures n >= Fib(k - 1) ==> Digits(n, k) == Digits(n - Fib(k - 1), k - 1) + [true]
    ensures n < Fib(k - 1) ==> Digits(n, k) == Digits(n, k - 1) + [false]
  {
  }

  /** Zeckendorf's uniqueness: digits without adjacent ones are the greedy digits of
      their weight. */
  lemma {:induction false} ZeckendorfUnique(d: Bits)
    requires NoAdjacentOnes(d)
    ensures Weight(d) < Fib(|d|)
    ensures d == Digits(Weight(d), |d|)
    decreases |d|
  {
    WeightBound(d);
    var k := |d|;
    if k > 0 {
      var init := d[..k - 1];
      PrefixNoAdjacent(d, k - 1);
      ZeckendorfUnique(init);
      var n := Weight(d);
      DigitsStep(n, k);
      SnocLast(d);
      if d[k - 1] {
        assert n - Fib(k - 1) == Weight(init);
      } else {
        assert n == Weight(init) < Fib(k - 1);
      }
    }
  }

  /** The index of the largest term not above `n`, searched downwards from `k`. */
  function TopIndexBelow(n: nat, k: nat): (t: nat)
    requires 1 <= n < Fib(k + 1)
    ensures t <= k && Fib(t) <= n < Fib(t + 1)
    decreases k
  {
    if k == 0 || Fib(k) <= n then k else TopIndexBelow(n, k - 1)
  }

  /** The index of the largest term not above `n`. */
  function TopIndex(n: nat): (t: nat)
    requires n >= 1
    ensures Fib(t) <= n < Fib(t + 1)
  {
    TopIndexBelow(n, n)
  }

  lemma {:induction false} TopIndexUnique(n: nat, t: nat)
    requires Fib(t) <= n < Fib(t + 1)
    ensures TopIndex(n) == t
  {
    var u := TopIndex(n);
    if u < t {
      FibMonotone(u + 1, t);
    } else if t < u {
      FibMonotone(t + 1, u);
    }
  }

  /** The Fibonacci code of a positive integer: its Zeckendorf digits up to the highest
      term used, then the terminating 1. */
  function Code(n: nat): (c: Bits)
    requires n >= 1
    ensures |c| >= 2
  {
    Digits(n, TopIndex(n) + 1) + [true]
  }

  /** The largest value `FibonacciCodec` accepts: one less than `ulong.MaxValue`, since
      value `v` is coded as `v + 1`. */
  const MAX_VALUE: nat := 0xFFFF_FFFF_FFFF_FFFE

  /** The symbol of a value. */
  function Symbol(v: nat): Bits
  {
    Code(v + 1)
  }

  /** The first `k >= j` at which "11" ends, if any. */
  function Terminator(bits: Bits, j: nat): (r: Option<nat>)
    requires j >= 1
    ensures r.Some? ==> j <= r.value && PairEndsAt(bits, r.value)
    decreases |bits| - j
  {
    if j >= |bits| then None
    else if bits[j - 1] && bits[j] then Some(j)
    else Terminator(bits, j + 1)
  }

  /** `Terminator` finds the first "11" from `j` on, and reports none only when there is
      none. */
  lemma {:induction false} TerminatorFirstPair(bits: Bits, j: nat)
    requires j >= 1
    ensures Terminator(bits, j).Some? ==>
      forall k :: j <= k < Terminator(bits, j).value ==> !PairEndsAt(bits, k)
    ensures Terminator(bits, j).None? ==> forall k :: j <= k < |bits| ==> !PairEndsAt(bits, k)
    decreases |bits| - j
  {
    if j < |bits| && !(bits[j - 1] && bits[j]) {
      TerminatorFirstPair(bits, j + 1);
    }
  }

  /** The first symbol of `bits`: its value and its length, or `None` when no "11" occurs. */
  function DecodeSymbol(bits: Bits): (r: Option<(nat, nat)>)
    ensures r.Some? ==> 2 <= r.value.1 <= |bits|
    ensures r.None? <==> Terminator(bits, 1).None?
  {
    match Terminator(bits, 1)
    case None => None
    case Some(t) =>
      Some((Weight(bits[..t]) - 1, t + 1))
  }

  /** Headerless decoding: the values of all complete symbols; trailing bits without a
      terminator, such as the zero padding, yield nothing. */
  function DecodeAll(bits: Bits): seq<nat>
    decreases |bits|
  {
    match DecodeSymbol(bits)
    case None => []
    case Some((v, len)) => [v] + DecodeAll(bits[len..])
  }

  datatype CodecError =
    | EmptySet        // Compress with no values: InvalidOperationException
    | ValueTooLarge   // a value above MAX_VALUE has no code
    | MissingHeader   // Decompress with a header but no complete header symbol
    | MissingSymbol   // fewer complete symbols than the header declares

  /** Decoding with a header: exactly `count` symbols, bits after them ignored. */
  function DecodeCount(bits: Bits, count: nat): (r: Result<seq<nat>, CodecError>)
    ensures r.Ok? ==> |r.value| == count
    ensures r.Err? ==> r.error == MissingSymbol
    decreases count
  {
    if count == 0 then Ok([])
    else match DecodeSymbol(bits)
      case None => Err(MissingSymbol)
      case Some((v, len)) =>
        match DecodeCount(bits[len..], count - 1)
        case Err(e) => Err(e)
        case Ok(vs) => Ok([v] + vs)
  }

  /** The symbols of `values`, back to back. */
  function Symbols(values: seq<nat>): Bits
    requires Encodable(values)
  {
    if |values| == 0 then [] else Symbol(values[0]) + Symbols(values[1..])
  }

  predicate Encodable(values: seq<nat>)
  {
    forall i :: 0 <= i < |values| ==> values[i] <= MAX_VALUE
  }

  /** The optional header: the code of the number of values. */
  function Header(count: nat, includeHeader: bool): Bits
    requires count >= 1
  {
    if includeHeader then Code(count) else []
  }

  /** The bits `Compress` writes before packing. */
  function CompressedBits(values: seq<nat>, includeHeader: bool): Bits
    requires |values| > 0 && Encodable(values)
  {
    Header(|values|, includeHeader) + Symbols(values)
  }

  /** `Compress`: the bytes of the optional header and the symbols, zero-padded. */
  function CompressSet(values: seq<nat>, includeHeader: bool): (r: Result<seq<Byte>, CodecError>)
    ensures r == Err(EmptySet) <==> |values| == 0
    ensures r.Ok? <==> |values| > 0 && Encodable(values)
  {
    if |values| == 0 then Err(EmptySet)
    else if !Encodable(values) then Err(ValueTooLarge)
    else Ok(Pack(CompressedBits(values, includeHeader)))
  }

  /** `Decompress`: the values of all complete symbols, or with a header exactly as many
      symbols as it declares. */
  function DecompressSet(bytes: seq<Byte>, includeHeader: bool): (r: Result<seq<nat>, CodecError>)
    ensures !includeHeader ==> r.Ok?
    ensures includeHeader && r.Ok? ==>
      DecodeSymbol(Unpack(bytes)).Some? && |r.value| == DecodeSymbol(Unpack(bytes)).value.0 + 1
  {
    var bits := Unpack(bytes);
    if !includeHeader then Ok(DecodeAll(bits))
    else match DecodeSymbol(bits)
      case None => Err(MissingHeader)
      case Some((count, len)) => DecodeCount(bits[len..], count + 1)
  }

  lemma {:induction false} TerminatorFirst(bits: Bits, j: nat, t: nat)
    requires 1 <= j <= t && PairEndsAt(bits, t)
    requires forall k :: j <= k < t ==> !PairEndsAt(bits, k)
    ensures Terminator(bits, j) == Some(t)
    decreases t - j
  {
    if j < t {
      TerminatorFirst(bits, j + 1, t);
    }
  }

  /** A codeword: digits without adjacent ones whose last digit is set, then the
      terminating 1. */
  predicate IsCodeword(c: Bits)
  {
    |c| >= 2 && c[|c| - 2] && c[|c| - 1] && NoAdjacentOnes(c[..|c| - 1])
  }

  /** The first "11" after a codeword and anything is the codeword's own end. */
  lemma {:induction false} TerminatorOfCodeword(c: Bits, rest: Bits)
    requires IsCodeword(c)
    ensures Terminator(c + rest, 1) == Some(|c| - 1)
  {
    var x := c + rest;
    var m := |c| - 1;
    var d := c[..m];
    forall k | 1 <= k < m
      ensures !PairEndsAt(x, k)
    {
      assert !PairEndsAt(d, k);
      assert x[k - 1] == d[k - 1] && x[k] == d[k];
    }
    TerminatorFirst(x, 1, m);
  }

  lemma {:induction false} DecodeCodeword(c: Bits, rest: Bits)
    requires IsCodeword(c)
    ensures DecodeSymbol(c + rest) == Some((Weight(c[..|c| - 1]) - 1, |c|))
  {
    TerminatorOfCodeword(c, rest);
    assert (c + rest)[..|c| - 1] == c[..|c| - 1];
  }

  /** The code of `n` is a codeword worth `n`. */
  lemma {:induction false} CodeFacts(n: nat)
    requires n >= 1
    ensures IsCodeword(Code(n)) && Weight(Code(n)[..|Code(n)| - 1]) == n
  {
    var t := TopIndex(n);
    var d := Digits(n, t + 1);
    DigitsFacts(n, t + 1);
    assert (d + [true])[..|d|] == d;
  }

  lemma {:induction false} SymbolIsCodeword(v: nat)
    ensures IsCodeword(Symbol(v)) && Weight(Symbol(v)[..|Symbol(v)| - 1]) == v + 1
  {
    CodeFacts(v + 1);
  }

  /** A symbol followed by anything decodes to its value and is consumed whole. */
  lemma {:induction false} DecodeSymbolOfSymbol(v: nat, rest: Bits)
    ensures DecodeSymbol(Symbol(v) + rest) == Some((v, |Symbol(v)|))
  {
    var c := Symbol(v);
    SymbolIsCodeword(v);
    DecodeCodeword(c, rest);
  }

  /** The digits before the first "11" have no adjacent ones and end with a one. */
  lemma {:induction false} TerminatorDigits(bits: Bits)
    requires Terminator(bits, 1).Some?
    ensures var t := Terminator(bits, 1).value;
      t < |bits| && bits[t - 1] && bits[t] && NoAdjacentOnes(bits[..t])
  {
    var t := Terminator(bits, 1).value;
    var d := bits[..t];
    TerminatorFirstPair(bits, 1);
    forall k | 1 <= k < |d|
      ensures !PairEndsAt(d, k)
    {
      assert !PairEndsAt(bits, k);
      assert d[k - 1] == bits[k - 1] && d[k] == bits[k];
    }
  }

  /** Digits without adjacent ones that end with a one, and a terminating one, are the
      code of their weight. */
  lemma {:induction false} CanonicalDigits(d: Bits)
    requires NoAdjacentOnes(d) && |d| > 0 && d[|d| - 1]
    ensures Weight(d) >= 1 && Code(Weight(d)) == d + [true]
  {
    var t := |d|;
    ZeckendorfUnique(d);
    var w := Weight(d);
    assert w >= Fib(t - 1);
    TopIndexUnique(w, t - 1);
  }

  /** Every symbol the decoder accepts is the encoder's symbol of its value: there are no
      other encodings. */
  lemma {:induction false} DecodeSymbolCanonical(bits: Bits)
    requires DecodeSymbol(bits).Some?
    ensures bits[..DecodeSymbol(bits).value.1] == Symbol(DecodeSymbol(bits).value.0)
  {
    TerminatorDigits(bits);
    SymbolOfPrefix(bits, Terminator(bits, 1).value);
  }

  /** Digits without adjacent ones that end with a one, then a terminating one, form the
      symbol of one less than their weight. */
  lemma {:induction false} SymbolOfPrefix(bits: Bits, t: nat)
    requires 1 <= t < |bits| && bits[t - 1] && bits[t] && NoAdjacentOnes(bits[..t])
    ensures Weight(bits[..t]) >= 1 && bits[..t + 1] == Symbol(Weight(bits[..t]) - 1)
  {
    var d := bits[..t];
    CanonicalDigits(d);
    assert bits[..t + 1] == d + [true];
  }

  lemma {:induction false} NoSymbolInZeros(k: nat)
    ensures DecodeAll(Zeros(k)) == []
  {
  }

  lemma {:induction false} SymbolsCons(values: seq<nat>)
    requires |values| > 0 && Encodable(values)
    ensures Symbols(values) == Symbol(values[0]) + Symbols(values[1..])
  {
  }

  lemma {:induction false} AppendDrop(a: Bits, b: Bits, c: Bits)
    ensures a + b + c == a + (b + c) && (a + b + c)[|a|..] == b + c
  {
  }

  /** Decoding a symbol and then the rest of the bits. */
  lemma {:induction false} DecodeCons(v: nat, tail: Bits, suffix: Bits, x: Bits)
    requires x == Symbol(v) + tail + suffix
    ensures DecodeSymbol(x) == Some((v, |Symbol(v)|)) && x[|Symbol(v)|..] == tail + suffix
  {
    var c := Symbol(v);
    AppendDrop(c, tail, suffix);
    DecodeSymbolOfSymbol(v, tail + suffix);
  }

  lemma {:induction false} ConsSplit(values: seq<nat>)
    requires |values| > 0
    ensures [values[0]] + values[1..] == values
  {
  }

  lemma {:induction false} DecodeAllCons(x: Bits, v: nat, len: nat, rest: seq<nat>)
    requires DecodeSymbol(x) == Some((v, len)) && DecodeAll(x[len..]) == rest
    ensures DecodeAll(x) == [v] + rest
  {
  }

  lemma {:induction false} DecodeCountCons(x: Bits, v: nat, len: nat, count: nat, rest: seq<nat>)
    requires DecodeSymbol(x) == Some((v, len)) && DecodeCount(x[len..], count) == Ok(rest)
    ensures DecodeCount(x, count + 1) == Ok([v] + rest)
  {
  }

  /** Headerless decoding of symbols and zero padding yields the values. */
  lemma {:induction false} DecodeAllSymbols(values: seq<nat>, pad: nat)
    requires Encodable(values)
    ensures DecodeAll(Symbols(values) + Zeros(pad)) == values
    decreases |values|
  {
    if |values| == 0 {
      assert Symbols(values) + Zeros(pad) == Zeros(pad);
      NoSymbolInZeros(pad);
    } else {
      var v, rest := values[0], values[1..];
      var x := Symbols(values) + Zeros(pad);
      SymbolsCons(values);
      DecodeCons(v, Symbols(rest), Zeros(pad), x);
      DecodeAllSymbols(rest, pad);
      DecodeAllCons(x, v, |Symbol(v)|, rest);
      ConsSplit(values);
    }
  }

  /** Decoding with a declared count takes exactly the symbols, whatever follows them. */
  lemma {:induction false} DecodeCountSymbols(values: seq<nat>, junk: Bits)
    requires Encodable(values)
    ensures DecodeCount(Symbols(values) + junk, |values|) == Ok(values)
    decreases |values|
  {
    if |values| > 0 {
      var v, rest := values[0], values[1..];
      var x := Symbols(values) + junk;
      SymbolsCons(values);
      DecodeCons(v, Symbols(rest), junk, x);
      DecodeCountSymbols(rest, junk);
      DecodeCountCons(x, v, |Symbol(v)|, |rest|, rest);
      ConsSplit(values);
    }
  }

  lemma {:induction false} DecompressHeaderless(values: seq<nat>)
    requires Encodable(values)
    ensures DecompressSet(Pack(Symbols(values)), false) == Ok(values)
  {
    var bits := Symbols(values);
    UnpackPack(bits);
    DecodeAllSymbols(values, PadLength(|bits|));
  }

  lemma {:induction false} DecompressWithHeader(values: seq<nat>)
    requires |values| > 0 && Encodable(values)
    ensures DecompressSet(Pack(Code(|values|) + Symbols(values)), true) == Ok(values)
  {
    var bits := Code(|values|) + Symbols(values);
    UnpackPack(bits);
    DecodeHeaderAndSymbols(values, Pack(bits), Zeros(PadLength(|bits|)));
  }

  /** With a header, the declared symbols are decoded and whatever follows is ignored. */
  lemma {:induction false} DecodeHeaderAndSymbols(values: seq<nat>, bytes: seq<Byte>, junk: Bits)
    requires |values| > 0 && Encodable(values)
    requires Unpack(bytes) == Code(|values|) + Symbols(values) + junk
    ensures DecompressSet(bytes, true) == Ok(values)
  {
    var m: nat := |values| - 1;
    assert Symbol(m) == Code(|values|);
    var len := HeaderBits(values, m, junk, Unpack(bytes));
    HeaderStep(bytes, m, len, values);
  }

  lemma {:induction false} HeaderBits(values: seq<nat>, m: nat, junk: Bits, u: Bits) returns (len: nat)
    requires |values| == m + 1 && Encodable(values)
    requires u == Symbol(m) + Symbols(values) + junk
    ensures DecodeSymbol(u) == Some((m, len))
    ensures len <= |u| && DecodeCount(u[len..], m + 1) == Ok(values)
  {
    DecodeCons(m, Symbols(values), junk, u);
    len := |Symbol(m)|;
    DecodeCountSymbols(values, junk);
  }

  lemma {:induction false} HeaderStep(bytes: seq<Byte>, m: nat, len: nat, values: seq<nat>)
    requires DecodeSymbol(Unpack(bytes)) == Some((m, len))
    requires DecodeCount(Unpack(bytes)[len..], m + 1) == Ok(values)
    ensures DecompressSet(bytes, true) == Ok(values)
  {
  }

  /** What `Compress` produces, `Decompress` with the same header setting gives back. */
  lemma {:induction false} RoundTrip(values: seq<nat>, includeHeader: bool)
    requires CompressSet(values, includeHeader).Ok?
    ensures DecompressSet(CompressSet(values, includeHeader).value, includeHeader) == Ok(values)
  {
    if includeHeader {
      DecompressWithHeader(values);
    } else {
      assert CompressedBits(values, false) == Symbols(values);
      DecompressHeaderless(values);
    }
  }

  lemma {:induction false} SymbolsSnoc(values: seq<nat>, v: nat)
    requires Encodable(values) && v <= MAX_VALUE
    ensures Encodable(values + [v]) && Symbols(values + [v]) == Symbols(values) + Symbol(v)
    decreases |values|
  {
    var w := values + [v];
    assert Encodable(w) by {
      forall i | 0 <= i < |w|
        ensures w[i] <= MAX_VALUE
      {
        if i < |values| {
          assert w[i] == values[i];
        }
      }
    }
    if |values| == 0 {
      assert w[1..] == [];
      SymbolsCons(w);
      assert Symbols(w) == Symbol(v) + [];
    } else {
      var head, rest := values[0], values[1..];
      assert w[0] == head && w[1..] == rest + [v];
      SymbolsSnoc(rest, v);
      SymbolsCons(w);
      SymbolsCons(values);
      AppendDrop(Symbol(head), Symbols(rest), Symbol(v));
    }
  }

  lemma {:induction false} TakeSnoc(values: seq<nat>, i: nat)
    requires i < |values|
    ensures values[..i + 1] == values[..i] + [values[i]]
  {
  }

  /** One more value in `Compress`'s loop. */
  lemma {:induction false} CompressStep(header: Bits, values: seq<nat>, i: nat)
    requires i < |values| && Encodable(values[..i]) && values[i] <= MAX_VALUE
    ensures Encodable(values[..i + 1])
    ensures header + Symbols(values[..i + 1]) == header + Symbols(values[..i]) + Symbol(values[i])
  {
    TakeSnoc(values, i);
    SymbolsSnoc(values[..i], values[i]);
    AppendDrop(header, Symbols(values[..i]), Symbol(values[i]));
  }

  lemma {:induction false} CompressRefused(values: seq<nat>, includeHeader: bool, i: nat)
    requires i < |values| && values[i] > MAX_VALUE
    ensures CompressSet(values, includeHeader) == Err(ValueTooLarge)
  {
  }

  lemma {:induction false} CompressAccepted(values: seq<nat>, includeHeader: bool, header: Bits)
    requires |values| > 0 && Encodable(values)
    requires header == Header(|values|, includeHeader)
    ensures CompressSet(values, includeHeader) == Ok(Pack(header + Symbols(values)))
  {
  }

  /** `FibonacciCodec`: `Compress` fills `compressedSet` from `decompressedSet`,
      `Decompress` the other way round. */
  class FibonacciCodec {
    var includeHeader: bool
    var decompressedSet: seq<nat>
    var compressedSet: seq<Byte>

    constructor ()
      ensures !includeHeader && decompressedSet == [] && compressedSet == []
    {
      includeHeader := false;
      decompressedSet := [];
      compressedSet := [];
    }

    /** `Compress`: the header if requested, then one symbol per value; an empty set or a
        value without a code is refused and leaves `compressedSet` as it was. */
    method Compress() returns (r: Outcome<CodecError>)
      modifies this`compressedSet
      ensures match CompressSet(decompressedSet, includeHeader)
        case Ok(bytes) => r == Pass && compressedSet == bytes
        case Err(e) => r == Fail(e) && compressedSet == old(compressedSet)
    {
      var values := decompressedSet;
      if |values| == 0 {
        return Fail(EmptySet);
      }
      var bits := Header(|values|, includeHeader);
      ghost var header := bits;
      for i := 0 to |values|
        invariant Encodable(values[..i])
        invariant bits == header + Symbols(values[..i])
        invariant compressedSet == old(compressedSet)
      {
        if values[i] > MAX_VALUE {
          CompressRefused(values, includeHeader, i);
          return Fail(ValueTooLarge);
        }
        CompressStep(header, values, i);
        bits := bits + Symbol(values[i]);
      }
      assert values[..|values|] == values;
      CompressAccepted(values, includeHeader, header);
      compressedSet := Pack(bits);
      r := Pass;
    }

    /** `Decompress`: replaces `decompressedSet` with the decoded values; a missing header
        or a missing declared symbol is an error that leaves it as it was. */
    method Decompress() returns (r: Outcome<CodecError>)
      modifies this`decompressedSet
      ensures match DecompressSet(compressedSet, includeHeader)
        case Ok(values) => r == Pass && decompressedSet == values
        case Err(e) => r == Fail(e) && decompressedSet == old(decompressedSet)
    {
      var result := DecompressSet(compressedSet, includeHeader);
      match result
      case Ok(values) =>
        decompressedSet := values;
        r := Pass;
      case Err(e) =>
        r := Fail(e);
    }
  }
}
