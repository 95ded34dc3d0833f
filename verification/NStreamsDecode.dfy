/** Decoding N streams, and the proof that it undoes the encoder for every stream count. */
module NStreamsDecode {
  import opened Numbers
  import opened Bits
  import opened Canonical
  import opened Encoder
  import opened DecodeTables
  import opened Decoder
  import opened RoundTrip
  import opened NStreams

  // ----- what the decoder reads, for any input bytes -----

  /** The sum of the first k stored sizes. */
  function HeaderSum(input: seq<byte>, k: nat): nat
    requires 3 * k <= |input|
  {
    if k == 0 then 0 else HeaderSum(input, k - 1) + ReadU24(input, 3 * (k - 1))
  }

  /** The bytes behind the header, counted in 32 bits. */
  function StreamTotal(input: seq<byte>, hdr: nat): nat
    requires hdr <= |input|
  {
    (|input| - hdr) % U32_LIMIT
  }

  predicate NsHeaderOk(N: int, input: seq<byte>) {
    && 1 <= N <= MAX_STREAMS && 3 * (N - 1) <= |input|
    && HeaderSum(input, N - 1) <= StreamTotal(input, 3 * (N - 1))
  }

  lemma {:induction false} HeaderSumMono(input: seq<byte>, j: nat, k: nat)
    requires j <= k && 3 * k <= |input|
    ensures HeaderSum(input, j) <= HeaderSum(input, k)
    decreases k
  {
    if j < k {
      HeaderSumMono(input, j, k - 1);
    }
  }

  lemma {:induction false} HeaderSumBound(input: seq<byte>, k: nat)
    requires 3 * k <= |input|
    ensures HeaderSum(input, k) <= k * U24_LIMIT
  {
    if k > 0 {
      HeaderSumBound(input, k - 1);
    }
  }

  /** Stream s: its stored size, or for the last one what is left. */
  function NsStream(N: nat, input: seq<byte>, s: nat): seq<byte>
    requires NsHeaderOk(N, input) && s < N
  {
    var hdr := 3 * (N - 1);
    HeaderSumMono(input, s, N - 1);
    var from := hdr + HeaderSum(input, s);
    if s < N - 1 then
      HeaderSumMono(input, s + 1, N - 1);
      input[from..from + ReadU24(input, 3 * s)]
    else input[from..hdr + StreamTotal(input, hdr)]
  }

  function NsPart(N: nat, lut: seq<uint32>, maxLen: nat, input: seq<byte>, expected: nat, s: nat): (d: Decoded)
    requires UsableLut(lut, maxLen) && NsHeaderOk(N, input) && s < N
    ensures |d.bytes| <= PartStart(N, expected, s + 1) - PartStart(N, expected, s)
  {
    PartOrder(N, expected, s, s + 1);
    TableDecode(lut, maxLen, NsStream(N, input, s), 0, PartStart(N, expected, s + 1) - PartStart(N, expected, s))
  }

  ghost predicate NsDecodes(N: int, lut: seq<uint32>, maxLen: nat, input: seq<byte>, expected: nat)
    requires UsableLut(lut, maxLen)
  {
    NsHeaderOk(N, input) && forall s :: 0 <= s < N ==> NsPart(N, lut, maxLen, input, expected, s).ok
  }

  /** What the code compares: a part that fails passes for one whose size casts to -1. */
  predicate PartAccepted(ok: bool, size: nat) {
    ok || size % U32_LIMIT == U32_LIMIT - 1
  }

  function PartLen(N: nat, n: nat, s: nat): (l: nat)
    requires 0 < N && s < N
  {
    PartOrder(N, n, s, s + 1);
    PartStart(N, n, s + 1) - PartStart(N, n, s)
  }

  ghost predicate NsAccepts(N: int, lut: seq<uint32>, maxLen: nat, input: seq<byte>, expected: nat)
    requires UsableLut(lut, maxLen)
  {
    && NsHeaderOk(N, input)
    && forall s :: 0 <= s < N ==>
         PartAccepted(NsPart(N, lut, maxLen, input, expected, s).ok, PartLen(N, expected, s))
  }

  /** Unless some part has such a size, acceptance means that every part decodes. */
  lemma AcceptsIffDecodes(N: int, lut: seq<uint32>, maxLen: nat, input: seq<byte>, expected: nat)
    requires UsableLut(lut, maxLen) && PartsCounted(N, expected)
    ensures NsAccepts(N, lut, maxLen, input, expected) <==> NsDecodes(N, lut, maxLen, input, expected)
  {
    hide NsPart, NsHeaderOk;
  }

  /** With such a size the code accepts what it cannot decode: here nothing at all. */
  lemma FailureAccepted(maxLen: nat, lut: seq<uint32>, n: nat)
    requires ValidMaxLen(maxLen) && |lut| == Pow2(maxLen) && forall i :: 0 <= i < |lut| ==> lut[i] == 0
    requires n % U32_LIMIT == U32_LIMIT - 1
    ensures UsableLut(lut, maxLen)
    ensures NsAccepts(1, lut, maxLen, [], n) && !NsDecodes(1, lut, maxLen, [], n)
  {
    hide TotalLen, TableDecode, PartStart, NsHeaderOk, NsStream, Pow2;
    ZeroFields();
    EmptyHeader();
    OnePartFails(lut, maxLen, n);
    forall s | 0 <= s < 1
      ensures PartAccepted(NsPart(1, lut, maxLen, [], n, s).ok, PartLen(1, n, s))
      ensures !NsPart(1, lut, maxLen, [], n, s).ok
    {
      PartEnds(1, n);
    }
    assert !NsPart(1, lut, maxLen, [], n, 0).ok;
  }

  lemma EmptyHeader()
    ensures NsHeaderOk(1, [])
  {
    NoneRead([]);
  }

  lemma OnePartFails(lut: seq<uint32>, maxLen: nat, n: nat)
    requires UsableLut(lut, maxLen) && (forall i :: 0 <= i < |lut| ==> lut[i] == 0) && n > 0 && NsHeaderOk(1, [])
    ensures !NsPart(1, lut, maxLen, [], n, 0).ok
  {
    hide UsableLut, TotalLen, TableDecode, PartStart, NsHeaderOk, NsStream, Pow2;
    PartEnds(1, n);
    ZeroTableFails(lut, maxLen, NsStream(1, [], 0), n);
  }

  lemma ZeroTableFails(lut: seq<uint32>, maxLen: nat, stream: seq<byte>, n: nat)
    requires UsableLut(lut, maxLen) && (forall i :: 0 <= i < |lut| ==> lut[i] == 0) && n > 0
    ensures !TableDecode(lut, maxLen, stream, 0, n).ok
  {
    hide TotalLen, Window;
    ZeroFields();
    WindowBound(stream, 0, maxLen);
  }

  /** The decoded parts below k in a row. */
  function NsOutput(N: nat, lut: seq<uint32>, maxLen: nat, input: seq<byte>, expected: nat, k: nat): seq<byte>
    requires UsableLut(lut, maxLen) && NsHeaderOk(N, input) && k <= N
  {
    if k == 0 then []
    else NsOutput(N, lut, maxLen, input, expected, k - 1) + NsPart(N, lut, maxLen, input, expected, k - 1).bytes
  }

  // ----- the methods -----

  ghost predicate AllDecode(N: nat, lut: seq<uint32>, maxLen: nat, input: seq<byte>, expected: nat, k: nat)
    requires UsableLut(lut, maxLen) && NsHeaderOk(N, input) && k <= N
  {
    forall s :: 0 <= s < k ==> NsPart(N, lut, maxLen, input, expected, s).ok
  }

  method ReadSizes(input: seq<byte>, sizes: array<nat>, k: nat) returns (sum: nat)
    requires 3 * k <= |input| && k < sizes.Length && k < MAX_STREAMS
    modifies sizes
    ensures sum == HeaderSum(input, k) < U32_LIMIT
    ensures forall s :: 0 <= s < k ==> sizes[s] == ReadU24(input, 3 * s)
  {
    hide ReadU24;
    // The sum stays below 2^32: at most 63 sizes of 24 bits.
    sum := 0;
    for s := 0 to k
      invariant sum == HeaderSum(input, s)
      invariant forall t :: 0 <= t < s ==> sizes[t] == ReadU24(input, 3 * t)
    {
      sizes[s] := ReadU24(input, 3 * s);
      sum := sum + sizes[s];
    }
    HeaderSumBound(input, k);
  }

  ghost predicate SizesAre(N: nat, input: seq<byte>, sizes: seq<nat>) {
    && NsHeaderOk(N, input) && N <= |sizes|
    && forall s :: 0 <= s < N ==> sizes[s] == |NsStream(N, input, s)|
  }

  lemma SizesRead(N: nat, input: seq<byte>, sizes: seq<nat>)
    requires NsHeaderOk(N, input) && N <= |sizes|
    requires forall s :: 0 <= s < N - 1 ==> sizes[s] == ReadU24(input, 3 * s)
    requires sizes[N - 1] == StreamTotal(input, 3 * (N - 1)) - HeaderSum(input, N - 1)
    ensures SizesAre(N, input, sizes)
  {
    hide ReadU24, HeaderSum;
    forall s | 0 <= s < N ensures sizes[s] == |NsStream(N, input, s)| {
      HeaderSumMono(input, s, N - 1);
      if s < N - 1 {
        HeaderSumMono(input, s + 1, N - 1);
        HeaderSumNext(input, s);
      }
    }
  }

  lemma HeaderSumNext(input: seq<byte>, k: nat)
    requires 3 * (k + 1) <= |input|
    ensures HeaderSum(input, k + 1) == HeaderSum(input, k) + ReadU24(input, 3 * k)
  {
  }

  lemma NextStream(N: nat, input: seq<byte>, s: nat)
    requires NsHeaderOk(N, input) && s < N
    ensures var from := 3 * (N - 1) + HeaderSum(input, s);
            var size := |NsStream(N, input, s)|;
            from + size <= |input| && NsStream(N, input, s) == input[from..from + size]
    ensures s < N - 1 ==> HeaderSum(input, s + 1) == HeaderSum(input, s) + |NsStream(N, input, s)|
  {
    hide ReadU24, HeaderSum;
    if s < N - 1 {
      HeaderSumNext(input, s);
    }
    HeaderSumMono(input, s, N - 1);
    if s < N - 1 {
      HeaderSumMono(input, s + 1, N - 1);
    }
  }

  /** Decodes stream s to its place in the output. */
  method DecodePart(N: nat, input: seq<byte>, lut: seq<uint32>, maxLen: nat, out: array<byte>, expected: nat,
                    s: nat, stream: seq<byte>, start: nat, end: nat, ghost good: bool)
    returns (ok: bool)
    requires ValidMaxLen(maxLen) && UsableLut(lut, maxLen) && NsHeaderOk(N, input) && s < N
    requires expected <= out.Length && stream == NsStream(N, input, s)
    requires start == PartStart(N, expected, s) && end == PartStart(N, expected, s + 1) && start <= end <= expected
    requires good ==> out[..start] == NsOutput(N, lut, maxLen, input, expected, s)
    modifies out
    ensures ok == PartAccepted(NsPart(N, lut, maxLen, input, expected, s).ok, PartLen(N, expected, s))
    ensures good && NsPart(N, lut, maxLen, input, expected, s).ok ==>
              out[..end] == NsOutput(N, lut, maxLen, input, expected, s + 1)
    ensures forall i :: end <= i < out.Length ==> out[i] == old(out[i])
  {
    hide UsableLut, NsHeaderOk, NsStream, TableDecode;
    ghost var before := out[..start];
    ghost var d := NsPart(N, lut, maxLen, input, expected, s);
    var dec := HuffDecode(stream, lut, maxLen, out, start, end - start);
    ok := dec == CInt(end - start);
    assert out[..start] == before;
    assert d.ok ==> out[..end] == out[..start] + out[start..start + |d.bytes|];
  }

  /** huff_decode_ns */
  method HuffDecodeNs(N: int, input: seq<byte>, lut: seq<uint32>, maxLen: nat, out: array<byte>, expected: nat)
    returns (r: int)
    requires -0x8000_0000 < N <= INT_MAX && |input| < 0x8000_0000_0000_0000
    requires ValidMaxLen(maxLen) && UsableLut(lut, maxLen) && expected <= out.Length
    modifies out
    ensures r == if NsAccepts(N, lut, maxLen, input, expected) then CInt(expected) else -1
    ensures NsDecodes(N, lut, maxLen, input, expected) ==>
              out[..expected] == NsOutput(N, lut, maxLen, input, expected, N)
    ensures forall i :: expected <= i < out.Length ==> out[i] == old(out[i])
  {
    hide UsableLut, NsPart, NsStream, HeaderSum, ReadU24, PartLen;
    WrappedHeader(N);
    var hdr: uint64 := (N - 1) * 3 % U64_LIMIT;
    if |input| < hdr {
      return -1;
    }
    if N > MAX_STREAMS {
      return -1;
    }
    var sizes := new nat[MAX_STREAMS];
    var sum := ReadSizes(input, sizes, N - 1);
    var total := (|input| - hdr) % U32_LIMIT;
    if sum > total {
      return -1;
    }
    sizes[N - 1] := total - sum;
    SizesRead(N, input, sizes[..]);
    r := DecodeAll(N, input, lut, maxLen, out, expected, hdr, sizes);
  }

  method DecodeAll(N: nat, input: seq<byte>, lut: seq<uint32>, maxLen: nat, out: array<byte>, expected: nat,
                   hdr: nat, sizes: array<nat>)
    returns (r: int)
    requires ValidMaxLen(maxLen) && UsableLut(lut, maxLen) && expected <= out.Length
    requires NsHeaderOk(N, input) && hdr == 3 * (N - 1) && SizesAre(N, input, sizes[..])
    modifies out
    ensures r == if NsAccepts(N, lut, maxLen, input, expected) then CInt(expected) else -1
    ensures NsDecodes(N, lut, maxLen, input, expected) ==>
              out[..expected] == NsOutput(N, lut, maxLen, input, expected, N)
    ensures forall i :: expected <= i < out.Length ==> out[i] == old(out[i])
  {
    hide UsableLut, NsPart, NsStream, HeaderSum, ReadU24, PartLen;
    var q := expected / N;
    var pos := hdr;
    NoneRead(input);
    for s := 0 to N
      invariant SizesAre(N, input, sizes[..])
      invariant s < N ==> pos == hdr + HeaderSum(input, s)
      invariant PartStart(N, expected, s) <= expected
      invariant AllDecode(N, lut, maxLen, input, expected, s) ==>
                  out[..PartStart(N, expected, s)] == NsOutput(N, lut, maxLen, input, expected, s)
      invariant forall t :: 0 <= t < s ==>
                  PartAccepted(NsPart(N, lut, maxLen, input, expected, t).ok, PartLen(N, expected, t))
      invariant forall i :: expected <= i < out.Length ==> out[i] == old(out[i])
    {
      PartOrder(N, expected, s, s + 1);
      PartOrder(N, expected, s + 1, N);
      NextStream(N, input, s);
      assert sizes[..][s] == sizes[s];
      var start := s * q;
      var end := if s == N - 1 then expected else (s + 1) * q;
      var ok := DecodePart(N, input, lut, maxLen, out, expected, s, input[pos..pos + sizes[s]], start, end,
                           AllDecode(N, lut, maxLen, input, expected, s));
      if !ok {
        return -1;
      }
      pos := pos + sizes[s];
    }
    return CInt(expected);
  }

  lemma NoneRead(input: seq<byte>)
    ensures HeaderSum(input, 0) == 0
  {
  }

  /** huff_decode_4s */
  method HuffDecode4s(input: seq<byte>, lut: seq<uint32>, maxLen: nat, out: array<byte>, expected: nat)
    returns (r: int)
    requires ValidMaxLen(maxLen) && UsableLut(lut, maxLen) && expected <= out.Length
    modifies out
    ensures r == if NsAccepts(4, lut, maxLen, input, expected) then CInt(expected) else -1
    ensures NsDecodes(4, lut, maxLen, input, expected) ==>
              out[..expected] == NsOutput(4, lut, maxLen, input, expected, 4)
    ensures forall i :: expected <= i < out.Length ==> out[i] == old(out[i])
  {
    hide UsableLut, NsPart, NsStream, HeaderSum, ReadU24, PartLen;
    if |input| < HDR_4S {
      return -1;
    }
    var sizes := new nat[4];
    var sum := ReadSizes(input, sizes, 3);
    var total := (|input| - HDR_4S) % U32_LIMIT;
    if sum > total {
      return -1;
    }
    sizes[3] := total - sum;
    SizesRead(4, input, sizes[..]);
    var q := expected / 4;
    var boundaries := [0, q, 2 * q, 3 * q, expected];
    var pos := HDR_4S;
    NoneRead(input);
    for s := 0 to 4
      invariant SizesAre(4, input, sizes[..])
      invariant s < 4 ==> pos == HDR_4S + HeaderSum(input, s)
      invariant AllDecode(4, lut, maxLen, input, expected, s) ==>
                  out[..PartStart(4, expected, s)] == NsOutput(4, lut, maxLen, input, expected, s)
      invariant forall t :: 0 <= t < s ==>
                  PartAccepted(NsPart(4, lut, maxLen, input, expected, t).ok, PartLen(4, expected, t))
      invariant forall i :: expected <= i < out.Length ==> out[i] == old(out[i])
    {
      NextStream(4, input, s);
      assert sizes[..][s] == sizes[s];
      var ok := DecodePart(4, input, lut, maxLen, out, expected, s, input[pos..pos + sizes[s]],
                           boundaries[s], boundaries[s + 1], AllDecode(4, lut, maxLen, input, expected, s));
      if !ok {
        return -1;
      }
      pos := pos + sizes[s];
    }
    return CInt(expected);
  }

  // ----- decoding undoes encoding -----

  lemma {:induction false} SizesAt(N: nat, input: seq<byte>, c: Code, k: nat, s: nat)
    requires 0 < N && s < k <= N && c.Shaped()
    ensures Sizes(N, input, c, k)[3 * s..3 * s + 3] == U24(|StreamOf(N, input, c, s)|)
  {
    hide StreamOf, U24;
    if s < k - 1 {
      SizesAt(N, input, c, k - 1, s);
      assert Sizes(N, input, c, k)[3 * s..3 * s + 3] == Sizes(N, input, c, k - 1)[3 * s..3 * s + 3];
    }
  }

  lemma StoredSize(N: nat, input: seq<byte>, c: Code, s: nat)
    requires 0 < N && s < N - 1 && c.Shaped() && StoredFit(N, input, c)
    ensures 3 * s + 3 <= |NsLayout(N, input, c)|
    ensures ReadU24(NsLayout(N, input, c), 3 * s) == |StreamOf(N, input, c, s)|
  {
    hide StreamOf, U24, ReadU24;
    var b := NsLayout(N, input, c);
    SizesAt(N, input, c, N - 1, s);
    assert b[3 * s..3 * s + 3] == Sizes(N, input, c, N - 1)[3 * s..3 * s + 3];
    ReadU24Back(|StreamOf(N, input, c, s)|, b, 3 * s);
  }

  lemma {:induction false} StoredSum(N: nat, input: seq<byte>, c: Code, k: nat)
    requires 0 < N && k < N && c.Shaped() && StoredFit(N, input, c)
    ensures 3 * k <= |NsLayout(N, input, c)|
    ensures HeaderSum(NsLayout(N, input, c), k) == |Streams(N, input, c, k)|
  {
    hide StreamOf, ReadU24;
    if k > 0 {
      StoredSum(N, input, c, k - 1);
      StoredSize(N, input, c, k - 1);
    }
  }

  lemma {:induction false} StreamsAt(N: nat, input: seq<byte>, c: Code, k: nat, s: nat)
    requires 0 < N && s < k <= N && c.Shaped()
    ensures |Streams(N, input, c, s + 1)| <= |Streams(N, input, c, k)|
    ensures Streams(N, input, c, k)[|Streams(N, input, c, s)|..|Streams(N, input, c, s + 1)|]
         == StreamOf(N, input, c, s)
  {
    hide StreamOf;
    StreamsMono(N, input, c, s + 1, k);
    if s < k - 1 {
      StreamsAt(N, input, c, k - 1, s);
      StreamsMono(N, input, c, s + 1, k - 1);
      var a, b := |Streams(N, input, c, s)|, |Streams(N, input, c, s + 1)|;
      assert Streams(N, input, c, k)[a..b] == Streams(N, input, c, k - 1)[a..b];
    }
  }

  lemma LayoutHeaderOk(N: nat, input: seq<byte>, c: Code)
    requires 0 < N <= MAX_STREAMS && c.Shaped() && StoredFit(N, input, c)
    ensures NsHeaderOk(N, NsLayout(N, input, c))
    ensures StreamTotal(NsLayout(N, input, c), 3 * (N - 1)) == |Streams(N, input, c, N)|
  {
    hide StreamOf, ReadU24, U24;
    StoredSum(N, input, c, N - 1);
    StreamsMono(N, input, c, N - 1, N);
    StreamsBound(N, input, c, N);
    DivUnique(|Streams(N, input, c, N)|, U32_LIMIT, 0, |Streams(N, input, c, N)|);
  }

  /** The decoder finds every stream where the encoder put it, the last one included. */
  lemma LayoutStream(N: nat, input: seq<byte>, c: Code, s: nat)
    requires 0 < N <= MAX_STREAMS && s < N && c.Shaped() && StoredFit(N, input, c)
    ensures NsHeaderOk(N, NsLayout(N, input, c))
    ensures NsStream(N, NsLayout(N, input, c), s) == StreamOf(N, input, c, s)
  {
    hide StreamOf, ReadU24, U24, Sizes;
    LayoutHeaderOk(N, input, c);
    var b, hdr := NsLayout(N, input, c), 3 * (N - 1);
    StoredSum(N, input, c, s);
    StreamsAt(N, input, c, N, s);
    var from, to := |Streams(N, input, c, s)|, |Streams(N, input, c, s + 1)|;
    assert b[hdr + from..hdr + to] == Streams(N, input, c, N)[from..to];
    if s < N - 1 {
      StoredSize(N, input, c, s);
    }
  }

  lemma {:induction false} PartsJoin(N: nat, input: seq<byte>, k: nat, out: seq<byte>)
    requires 0 < N && k < N
    requires PartStart(N, |input|, k) <= |input| && PartStart(N, |input|, k + 1) <= |input|
    requires out == input[..PartStart(N, |input|, k)]
    ensures out + Part(N, input, k) == input[..PartStart(N, |input|, k + 1)]
  {
    hide PartStart;
    PartOrder(N, |input|, k, k + 1);
  }

  lemma PartCodable(N: nat, input: seq<byte>, c: Code, s: nat)
    requires 0 < N && s < N && c.Shaped() && Codable(input, c)
    ensures Codable(Part(N, input, s), c)
  {
    PartOrder(N, |input|, s, s + 1);
    PartOrder(N, |input|, s + 1, N);
  }

  lemma LayoutPart(N: nat, input: seq<byte>, c: Code, maxLen: nat, lut: seq<uint32>, s: nat)
    requires 0 < N <= MAX_STREAMS && s < N && ValidMaxLen(maxLen) && Decodable(c, maxLen)
    requires IsDualLut(c, maxLen, lut) && Codable(input, c) && SizesFit(N, input, c)
    ensures UsableLut(lut, maxLen) && NsHeaderOk(N, NsLayout(N, input, c))
    ensures NsPart(N, lut, maxLen, NsLayout(N, input, c), |input|, s) == Decoded(Part(N, input, s), true)
  {
    hide IsDualLut, TableDecode, SizesFit, StoredFit, Decodable, StreamOf;
    DecodableShaped(c, maxLen);
    FitCounted(N, input, c);
    PartCodable(N, input, c, s);
    LayoutStream(N, input, c, s);
    DecodeEncoded(c, maxLen, lut, Part(N, input, s));
  }

  lemma DecodableShaped(c: Code, maxLen: nat)
    requires Decodable(c, maxLen)
    ensures c.Shaped()
  {
  }

  lemma {:induction false} LayoutOutput(N: nat, input: seq<byte>, c: Code, maxLen: nat, lut: seq<uint32>, k: nat)
    requires 0 < N <= MAX_STREAMS && k <= N && ValidMaxLen(maxLen) && Decodable(c, maxLen)
    requires IsDualLut(c, maxLen, lut) && Codable(input, c) && SizesFit(N, input, c)
    ensures UsableLut(lut, maxLen) && NsHeaderOk(N, NsLayout(N, input, c))
    ensures PartStart(N, |input|, k) <= |input|
    ensures NsOutput(N, lut, maxLen, NsLayout(N, input, c), |input|, k) == input[..PartStart(N, |input|, k)]
  {
    hide IsDualLut, UsableLut, NsPart, NsLayout, NsHeaderOk, Part;
    PartOrder(N, |input|, k, N);
    FitCounted(N, input, c);
    LayoutHeaderOk(N, input, c);
    DualLutUsable(c, maxLen, lut);
    if k > 0 {
      LayoutOutput(N, input, c, maxLen, lut, k - 1);
      LayoutPart(N, input, c, maxLen, lut, k - 1);
      PartsJoin(N, input, k - 1, input[..PartStart(N, |input|, k - 1)]);
    } else {
      assert input[..PartStart(N, |input|, 0)] == [];
    }
  }

  /** For every stream count from 1 to 64 the decoder, given the encoder's bytes and the
      original size, accepts them and gives the input back. */
  lemma NsRoundTrip(N: nat, input: seq<byte>, c: Code, maxLen: nat, lut: seq<uint32>)
    requires 0 < N <= 64 && ValidMaxLen(maxLen) && Decodable(c, maxLen)
    requires IsDualLut(c, maxLen, lut) && Codable(input, c) && SizesFit(N, input, c)
    ensures UsableLut(lut, maxLen) && NsDecodes(N, lut, maxLen, NsLayout(N, input, c), |input|)
    ensures NsOutput(N, lut, maxLen, NsLayout(N, input, c), |input|, N) == input
  {
    hide IsDualLut, UsableLut, NsPart, NsLayout, NsHeaderOk, Part;
    LayoutOutput(N, input, c, maxLen, lut, N);
    forall s | 0 <= s < N ensures NsPart(N, lut, maxLen, NsLayout(N, input, c), |input|, s).ok {
      LayoutPart(N, input, c, maxLen, lut, s);
    }
    assert input[..|input|] == input;
  }

  // ----- decoding the streams in another order -----

  /** The output buffer after the listed parts were stored, in that order. */
  function StoreParts(N: nat, buf: seq<byte>, parts: seq<seq<byte>>, order: seq<nat>): (r: seq<byte>)
    requires 0 < N == |parts| && forall i :: 0 <= i < |order| ==> order[i] < N
    requires forall s :: 0 <= s < N ==> |parts[s]| == PartStart(N, |buf|, s + 1) - PartStart(N, |buf|, s)
    ensures |r| == |buf|
  {
    if order == [] then buf
    else
      var s := order[|order| - 1];
      var b := StoreParts(N, buf, parts, order[..|order| - 1]);
      PartOrder(N, |buf|, s, s + 1);
      PartOrder(N, |buf|, s + 1, N);
      b[..PartStart(N, |buf|, s)] + parts[s] + b[PartStart(N, |buf|, s + 1)..]
  }

  lemma {:induction false} StoredPart(N: nat, buf: seq<byte>, parts: seq<seq<byte>>, order: seq<nat>, s: nat)
    requires 0 < N == |parts| && forall i :: 0 <= i < |order| ==> order[i] < N
    requires forall s :: 0 <= s < N ==> |parts[s]| == PartStart(N, |buf|, s + 1) - PartStart(N, |buf|, s)
    requires s in order
    ensures s < N && PartStart(N, |buf|, s) <= PartStart(N, |buf|, s + 1) <= |buf|
    ensures StoreParts(N, buf, parts, order)[PartStart(N, |buf|, s)..PartStart(N, |buf|, s + 1)] == parts[s]
    decreases |order|
  {
    hide PartStart;
    var t := order[|order| - 1];
    PartOrder(N, |buf|, s, s + 1);
    PartOrder(N, |buf|, s + 1, N);
    if t != s {
      StoredPart(N, buf, parts, order[..|order| - 1], s);
      PartOrder(N, |buf|, t, t + 1);
      PartOrder(N, |buf|, t + 1, N);
      if t < s {
        PartOrder(N, |buf|, t + 1, s);
      } else {
        PartOrder(N, |buf|, s + 1, t);
      }
    }
  }

  function PartBytes(N: nat, lut: seq<uint32>, maxLen: nat, input: seq<byte>, expected: nat): (p: seq<seq<byte>>)
    requires UsableLut(lut, maxLen) && NsHeaderOk(N, input)
    ensures |p| == N
  {
    seq(N, s requires 0 <= s < N => NsPart(N, lut, maxLen, input, expected, s).bytes)
  }

  lemma PartEnds(N: nat, n: nat)
    requires 0 < N
    ensures PartStart(N, n, 0) == 0 && PartStart(N, n, N) == n
  {
  }

  lemma OutputStep(N: nat, lut: seq<uint32>, maxLen: nat, input: seq<byte>, expected: nat, k: nat)
    requires UsableLut(lut, maxLen) && NsDecodes(N, lut, maxLen, input, expected) && k < N
    ensures NsOutput(N, lut, maxLen, input, expected, k + 1)
         == NsOutput(N, lut, maxLen, input, expected, k) + PartBytes(N, lut, maxLen, input, expected)[k]
  {
  }

  /** Each stream has its own place in the output.  Decoding all of them in any order, into
      a buffer with any contents, leaves exactly what the decoder's own loop leaves. */
  lemma OutputAnyOrder(N: nat, lut: seq<uint32>, maxLen: nat, input: seq<byte>, expected: nat,
                       buf: seq<byte>, order: seq<nat>)
    requires UsableLut(lut, maxLen) && NsDecodes(N, lut, maxLen, input, expected) && |buf| == expected
    requires forall i :: 0 <= i < |order| ==> order[i] < N
    requires forall s :: 0 <= s < N ==> s in order
    ensures forall s :: 0 <= s < N ==>
              |PartBytes(N, lut, maxLen, input, expected)[s]|
              == PartStart(N, expected, s + 1) - PartStart(N, expected, s)
    ensures StoreParts(N, buf, PartBytes(N, lut, maxLen, input, expected), order)
         == NsOutput(N, lut, maxLen, input, expected, N)
  {
    var parts := PartBytes(N, lut, maxLen, input, expected);
    forall s | 0 <= s < N
      ensures |parts[s]| == PartStart(N, expected, s + 1) - PartStart(N, expected, s)
    {
      assert NsPart(N, lut, maxLen, input, expected, s).ok;
    }
    StoredIsOutput(N, lut, maxLen, input, expected, buf, order);
  }

  lemma StoredIsOutput(N: nat, lut: seq<uint32>, maxLen: nat, input: seq<byte>, expected: nat,
                       buf: seq<byte>, order: seq<nat>)
    requires UsableLut(lut, maxLen) && NsDecodes(N, lut, maxLen, input, expected) && |buf| == expected
    requires forall i :: 0 <= i < |order| ==> order[i] < N
    requires forall s :: 0 <= s < N ==> s in order
    requires forall s :: 0 <= s < N ==>
               |PartBytes(N, lut, maxLen, input, expected)[s]|
               == PartStart(N, expected, s + 1) - PartStart(N, expected, s)
    ensures StoreParts(N, buf, PartBytes(N, lut, maxLen, input, expected), order)
         == NsOutput(N, lut, maxLen, input, expected, N)
  {
    hide PartStart, StoreParts, UsableLut, PartBytes, NsOutput, NsPart;
    var parts := PartBytes(N, lut, maxLen, input, expected);
    var a := StoreParts(N, buf, parts, order);
    PartEnds(N, expected);
    OutputNone(N, lut, maxLen, input, expected);
    for k := 0 to N
      invariant PartStart(N, expected, k) <= expected
      invariant a[..PartStart(N, expected, k)] == NsOutput(N, lut, maxLen, input, expected, k)
    {
      var from, to := PartStart(N, expected, k), PartStart(N, expected, k + 1);
      StoredPart(N, buf, parts, order, k);
      OutputStep(N, lut, maxLen, input, expected, k);
      assert a[..to] == a[..from] + a[from..to];
    }
    assert a[..expected] == a;
  }

  lemma OutputNone(N: nat, lut: seq<uint32>, maxLen: nat, input: seq<byte>, expected: nat)
    requires UsableLut(lut, maxLen) && NsHeaderOk(N, input)
    ensures NsOutput(N, lut, maxLen, input, expected, 0) == []
  {
  }
}
