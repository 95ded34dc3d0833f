/** The 4-way layout whose streams are interleaved word by word, padded to the longest. */
module Interleaved {
  import opened Numbers
  import opened Canonical
  import opened Encoder
  import opened DecodeTables
  import opened Decoder
  import opened RoundTrip
  import opened NStreams
  import opened NStreamsDecode

  const HDR_4SI: nat := 12

  function Words(n: nat): nat {
    (n + 3) / 4
  }

  function MaxWords(input: seq<byte>, c: Code, k: nat): (m: nat)
    requires k <= 4 && c.Shaped()
    ensures forall s :: 0 <= s < k ==> Words(|StreamOf(4, input, c, s)|) <= m
  {
    if k == 0 then 0
    else
      var w, m := Words(|StreamOf(4, input, c, k - 1)|), MaxWords(input, c, k - 1);
      if w > m then w else m
  }

  /** Byte j of a stream followed by endless zero bytes. */
  function ByteOrZero(b: seq<byte>, j: nat): byte {
    if j < |b| then b[j] else 0
  }

  /** Payload byte i belongs to word i / 16 of stream i / 4 % 4. */
  function PayloadByte(streams: seq<seq<byte>>, i: nat): byte
    requires |streams| == 4
  {
    ByteOrZero(streams[i / 4 % 4], i / 16 * 4 + i % 4)
  }

  function AllStreams(input: seq<byte>, c: Code): (r: seq<seq<byte>>)
    requires c.Shaped()
    ensures |r| == 4
  {
    [StreamOf(4, input, c, 0), StreamOf(4, input, c, 1), StreamOf(4, input, c, 2), StreamOf(4, input, c, 3)]
  }

  function Payload(streams: seq<seq<byte>>, words: nat): (p: seq<byte>)
    requires |streams| == 4
    ensures |p| == 16 * words
  {
    seq<byte>(16 * words, i requires 0 <= i < 16 * words => PayloadByte(streams, i))
  }

  function InterleavedLayout(input: seq<byte>, c: Code): seq<byte>
    requires c.Shaped()
  {
    Sizes(4, input, c, 4) + Payload(AllStreams(input, c), MaxWords(input, c, 4))
  }

  /** Every stream fits the temporary it is encoded into. */
  predicate TempsFit(input: seq<byte>, c: Code)
    requires c.Shaped()
  {
    forall s :: 0 <= s < 4 ==> |WholeStream(4, input, c, s)| <= 2 * |Part(4, input, s)| + 64
  }

  predicate InterleavedFits(input: seq<byte>, c: Code, cap: nat)
    requires c.Shaped()
  {
    StoredFit(4, input, c) && TempsFit(input, c) && |InterleavedLayout(input, c)| <= cap
  }

  // ----- encoding -----

  /** One stream in a temporary of cap + 4 bytes, its last word filled up with zeros. */
  method EncodeTemp(input: seq<byte>, c: Code, s: nat, part: seq<byte>) returns (sz: int, tmp: array<byte>)
    requires s < 4 && c.Shaped() && part == Part(4, input, s)
    ensures fresh(tmp)
    ensures sz == if |WholeStream(4, input, c, s)| <= 2 * |part| + 64 && |StreamOf(4, input, c, s)| < U24_LIMIT
                  then |StreamOf(4, input, c, s)| else -1
    ensures sz >= 0 ==> Words(sz) * 4 <= tmp.Length
                        && forall j :: 0 <= j < Words(sz) * 4 ==> tmp[j] == ByteOrZero(StreamOf(4, input, c, s), j)
  {
    hide Encoded, Part;
    var cap := |part| * 2 + 64;
    tmp := new byte[cap + 4](_ => 0);
    CIntSmall(|WholeStream(4, input, c, s)|, U24_LIMIT);
    sz := HuffEncode(part, c, tmp, 0, cap);
    if sz < 0 || sz >= U24_LIMIT {
      return -1, tmp;
    }
    ghost var e := StreamOf(4, input, c, s);
    ghost var whole := WholeStream(4, input, c, s);
    assert forall j :: 0 <= j < |whole| ==> tmp[0..|whole|][j] == tmp[j];
    for p := sz to Words(sz) * 4
      invariant forall j :: 0 <= j < p ==> tmp[j] == ByteOrZero(e, j)
    {
      tmp[p] := 0;
    }
  }

  /** Word w of one stream, or four zeros when the stream has ended. */
  method PutWord(out: array<byte>, dst: nat, tmp: seq<byte>, words: nat, w: nat, ghost e: seq<byte>)
    requires dst + 4 <= out.Length && words * 4 <= |tmp| && words == Words(|e|)
    requires forall j :: 0 <= j < words * 4 ==> tmp[j] == ByteOrZero(e, j)
    modifies out
    ensures forall i :: 0 <= i < out.Length ==>
              out[i] == if dst <= i < dst + 4 then ByteOrZero(e, w * 4 + (i - dst)) else old(out[i])
  {
    if w < words {
      out[dst] := tmp[w * 4];
      out[dst + 1] := tmp[w * 4 + 1];
      out[dst + 2] := tmp[w * 4 + 2];
      out[dst + 3] := tmp[w * 4 + 3];
    } else {
      out[dst] := 0;
      out[dst + 1] := 0;
      out[dst + 2] := 0;
      out[dst + 3] := 0;
    }
  }

  /** tmps hold the streams, filled up to whole words. */
  ghost predicate TempsHold(tmps: seq<seq<byte>>, sizes: seq<nat>, streams: seq<seq<byte>>) {
    && |tmps| == |sizes| <= |streams|
    && forall s :: 0 <= s < |tmps| ==>
         && sizes[s] == |streams[s]| < U24_LIMIT && Words(sizes[s]) * 4 <= |tmps[s]|
         && forall j :: 0 <= j < Words(sizes[s]) * 4 ==> tmps[s][j] == ByteOrZero(streams[s], j)
  }

  lemma TempsAppend(tmps: seq<seq<byte>>, sizes: seq<nat>, streams: seq<seq<byte>>, tmp: seq<byte>, size: nat)
    requires TempsHold(tmps, sizes, streams) && |tmps| < |streams|
    requires size == |streams[|tmps|]| < U24_LIMIT && Words(size) * 4 <= |tmp|
    requires forall j :: 0 <= j < Words(size) * 4 ==> tmp[j] == ByteOrZero(streams[|tmps|], j)
    ensures TempsHold(tmps + [tmp], sizes + [size], streams)
  {
  }

  lemma PayloadWord(streams: seq<seq<byte>>, w: nat, s: nat, i: nat)
    requires |streams| == 4 && s < 4 && (w * 4 + s) * 4 <= i < (w * 4 + s) * 4 + 4
    ensures PayloadByte(streams, i) == ByteOrZero(streams[s], w * 4 + (i - (w * 4 + s) * 4))
  {
    hide ByteOrZero;
    var b := i - (w * 4 + s) * 4;
    assert i / 16 == w && i / 4 % 4 == s && i % 4 == b;
  }

  /** Row w of the payload: word w of all four streams. */
  method PutRow(out: array<byte>, w: nat, tmps: seq<seq<byte>>, sizes: seq<nat>, ghost streams: seq<seq<byte>>)
    requires |streams| == 4 == |tmps| && TempsHold(tmps, sizes, streams)
    requires HDR_4SI + (w + 1) * 16 <= out.Length
    modifies out
    ensures forall i :: w * 16 <= i < (w + 1) * 16 ==> out[HDR_4SI + i] == PayloadByte(streams, i)
    ensures forall i :: 0 <= i < out.Length && !(HDR_4SI + w * 16 <= i < HDR_4SI + (w + 1) * 16) ==>
              out[i] == old(out[i])
  {
    hide PayloadByte, ByteOrZero;
    var dst := HDR_4SI + w * 16;
    for s := 0 to 4
      invariant dst == HDR_4SI + (w * 4 + s) * 4
      invariant forall i :: w * 16 <= i < (w * 4 + s) * 4 ==> out[HDR_4SI + i] == PayloadByte(streams, i)
      invariant forall i :: 0 <= i < out.Length && !(HDR_4SI + w * 16 <= i < HDR_4SI + (w + 1) * 16) ==>
                  out[i] == old(out[i])
    {
      forall i: nat | (w * 4 + s) * 4 <= i < (w * 4 + s) * 4 + 4
        ensures PayloadByte(streams, i) == ByteOrZero(streams[s], w * 4 + (i - (w * 4 + s) * 4))
      {
        PayloadWord(streams, w, s, i);
      }
      PutWord(out, dst, tmps[s], Words(sizes[s]), w, streams[s]);
      dst := dst + 4;
    }
  }

  /** Encodes the four parts into temporaries. */
  method EncodeTemps(input: seq<byte>, c: Code) returns (ok: bool, tmps: seq<seq<byte>>, sizes: seq<nat>, max: nat)
    requires c.Shaped()
    ensures ok == (StoredFit(4, input, c) && TempsFit(input, c))
    ensures ok ==> |tmps| == 4 && TempsHold(tmps, sizes, AllStreams(input, c)) && max == MaxWords(input, c, 4)
  {
    hide StreamOf, WholeStream, Part, Words, ByteOrZero;
    var q := |input| / 4;
    var boundaries := [0, q, 2 * q, 3 * q, |input|];
    tmps, sizes, max := [], [], 0;
    for s := 0 to 4
      invariant |tmps| == s && TempsHold(tmps, sizes, AllStreams(input, c)) && max == MaxWords(input, c, s)
      invariant forall t :: 0 <= t < s ==>
                  && |StreamOf(4, input, c, t)| < U24_LIMIT
                  && |WholeStream(4, input, c, t)| <= 2 * |Part(4, input, t)| + 64
    {
      PartIs(4, input, s, boundaries[s], boundaries[s + 1]);
      var sz, tmp := EncodeTemp(input, c, s, input[boundaries[s]..boundaries[s + 1]]);
      if sz < 0 {
        return false, tmps, sizes, max;
      }
      assert AllStreams(input, c)[s] == StreamOf(4, input, c, s);
      var size: nat := sz;
      TempsAppend(tmps, sizes, AllStreams(input, c), tmp[..], size);
      tmps := tmps + [tmp[..]];
      sizes := sizes + [size];
      if Words(size) > max {
        max := Words(size);
      }
    }
    return true, tmps, sizes, max;
  }

  /** huff_encode_4s_interleaved */
  method HuffEncode4sInterleaved(input: seq<byte>, c: Code, out: array<byte>, cap: nat) returns (r: int)
    requires c.Shaped() && cap <= out.Length
    modifies out
    ensures r == if InterleavedFits(input, c, cap) then |InterleavedLayout(input, c)| else -1
    ensures r >= 0 ==> out[..r] == InterleavedLayout(input, c)
    ensures forall i :: cap <= i < out.Length ==> out[i] == old(out[i])
  {
    hide StreamOf, WholeStream, StoredFit, TempsFit, Sizes, PayloadByte;
    if cap < HDR_4SI {
      return -1;
    }
    var ok, tmps, sizes, max := EncodeTemps(input, c);
    if !ok {
      return -1;
    }
    var total := HDR_4SI + max * 16;
    if cap < total {
      return -1;
    }
    ghost var streams := AllStreams(input, c);
    PutAllSizes(input, c, out, sizes);
    ghost var header := out[..HDR_4SI];
    for w := 0 to max
      invariant out[..HDR_4SI] == header
      invariant forall i :: 0 <= i < w * 16 ==> out[HDR_4SI + i] == PayloadByte(streams, i)
      invariant forall i :: cap <= i < out.Length ==> out[i] == old(out[i])
    {
      PutRow(out, w, tmps, sizes, streams);
    }
    assert out[HDR_4SI..total] == Payload(streams, max);
    assert out[..total] == out[..HDR_4SI] + out[HDR_4SI..total];
    assert max < U24_LIMIT by { MaxWordsBound(input, c, 4); }
    return CInt(total);
  }

  method PutAllSizes(input: seq<byte>, c: Code, out: array<byte>, sizes: seq<nat>)
    requires c.Shaped() && |sizes| == 4 && HDR_4SI <= out.Length
    requires forall s :: 0 <= s < 4 ==> sizes[s] == |AllStreams(input, c)[s]|
    modifies out
    ensures out[..HDR_4SI] == Sizes(4, input, c, 4)
    ensures forall i :: HDR_4SI <= i < out.Length ==> out[i] == old(out[i])
  {
    hide StreamOf;
    var table := new nat[4](i requires 0 <= i < 4 => sizes[i]);
    forall s | 0 <= s < 4 ensures table[s] == |StreamOf(4, input, c, s)| {
      assert AllStreams(input, c)[s] == StreamOf(4, input, c, s);
    }
    PutSizes(4, input, c, out, table, 4);
  }

  // ----- decoding -----

  /** The number of whole payload rows, counted in 32 bits. */
  function RowCount(input: seq<byte>): nat
    requires HDR_4SI <= |input|
  {
    (|input| - HDR_4SI) / 16 % U32_LIMIT
  }

  predicate StreamPresent(input: seq<byte>, s: nat)
    requires s < 4 && HDR_4SI <= |input|
  {
    Words(ReadU24(input, 3 * s)) <= RowCount(input)
  }

  lemma RowIndex(rows: nat, words: nat, j: nat, s: nat)
    requires words <= rows && j < words * 4 && s < 4
    ensures (j / 4 * 4 + s) * 4 + j % 4 < rows * 16
  {
  }

  /** The contiguous copy of stream s: its words picked out of the rows. */
  function Gathered(input: seq<byte>, s: nat): (t: seq<byte>)
    requires s < 4 && HDR_4SI <= |input| && StreamPresent(input, s)
    ensures |t| == Words(ReadU24(input, 3 * s)) * 4 && ReadU24(input, 3 * s) <= |t|
  {
    var words := Words(ReadU24(input, 3 * s));
    seq<byte>(words * 4, j requires 0 <= j < words * 4 =>
      (RowIndex(RowCount(input), words, j, s);
       input[HDR_4SI + (j / 4 * 4 + s) * 4 + j % 4]))
  }

  /** Part s of the output; nothing when the payload is too short for its stored size. */
  function SiPart(lut: seq<uint32>, maxLen: nat, input: seq<byte>, expected: nat, s: nat): (d: Decoded)
    requires UsableLut(lut, maxLen) && HDR_4SI <= |input| && s < 4
  {
    PartOrder(4, expected, s, s + 1);
    if !StreamPresent(input, s) then Decoded([], false)
    else
      TableDecode(lut, maxLen, Gathered(input, s)[..ReadU24(input, 3 * s)], 0,
                  PartStart(4, expected, s + 1) - PartStart(4, expected, s))
  }

  ghost predicate SiDecodes(lut: seq<uint32>, maxLen: nat, input: seq<byte>, expected: nat)
    requires UsableLut(lut, maxLen)
  {
    HDR_4SI <= |input| && SiAllDecode(lut, maxLen, input, expected, 4)
  }

  ghost predicate SiAccepts(lut: seq<uint32>, maxLen: nat, input: seq<byte>, expected: nat)
    requires UsableLut(lut, maxLen)
  {
    HDR_4SI <= |input| && forall s :: 0 <= s < 4 ==> SiPartAccepted(lut, maxLen, input, expected, s)
  }

  /** Its words are there, and it decodes or has a size that casts to -1. */
  ghost predicate SiPartAccepted(lut: seq<uint32>, maxLen: nat, input: seq<byte>, expected: nat, s: nat)
    requires UsableLut(lut, maxLen) && HDR_4SI <= |input| && s < 4
  {
    StreamPresent(input, s) && PartAccepted(SiPart(lut, maxLen, input, expected, s).ok, PartLen(4, expected, s))
  }

  ghost predicate SiAllDecode(lut: seq<uint32>, maxLen: nat, input: seq<byte>, expected: nat, k: nat)
    requires UsableLut(lut, maxLen) && HDR_4SI <= |input| && k <= 4
  {
    forall s :: 0 <= s < k ==> SiPart(lut, maxLen, input, expected, s).ok
  }

  /** Unless some part has such a size, acceptance means that every part decodes. */
  lemma SiAcceptsIffDecodes(lut: seq<uint32>, maxLen: nat, input: seq<byte>, expected: nat)
    requires UsableLut(lut, maxLen) && PartsCounted(4, expected)
    ensures SiAccepts(lut, maxLen, input, expected) <==> SiDecodes(lut, maxLen, input, expected)
  {
    hide SiPart, StreamPresent;
    if HDR_4SI <= |input| {
      forall s | 0 <= s < 4
        ensures SiPartAccepted(lut, maxLen, input, expected, s) <==> SiPart(lut, maxLen, input, expected, s).ok
      {
        OkPresent(lut, maxLen, input, expected, s);
      }
    }
  }

  lemma OkPresent(lut: seq<uint32>, maxLen: nat, input: seq<byte>, expected: nat, s: nat)
    requires UsableLut(lut, maxLen) && HDR_4SI <= |input| && s < 4
    ensures SiPart(lut, maxLen, input, expected, s).ok ==> SiPartAccepted(lut, maxLen, input, expected, s)
  {
    hide TableDecode, Gathered;
  }

  function SiOutput(lut: seq<uint32>, maxLen: nat, input: seq<byte>, expected: nat, k: nat): seq<byte>
    requires UsableLut(lut, maxLen) && HDR_4SI <= |input| && k <= 4
  {
    if k == 0 then []
    else SiOutput(lut, maxLen, input, expected, k - 1) + SiPart(lut, maxLen, input, expected, k - 1).bytes
  }

  lemma GatheredWord(input: seq<byte>, s: nat, w: nat)
    requires s < 4 && HDR_4SI <= |input| && StreamPresent(input, s) && w < Words(ReadU24(input, 3 * s))
    ensures var src := HDR_4SI + (w * 4 + s) * 4;
            && src + 4 <= |input|
            && Gathered(input, s)[w * 4..w * 4 + 4] == input[src..src + 4]
  {
    hide ReadU24, Gathered, StreamPresent, Words;
    var src := HDR_4SI + (w * 4 + s) * 4;
    GatheredByte(input, s, w, 0);
    GatheredByte(input, s, w, 1);
    GatheredByte(input, s, w, 2);
    GatheredByte(input, s, w, 3);
    var g := Gathered(input, s);
    assert g[w * 4..w * 4 + 4] == [g[w * 4], g[w * 4 + 1], g[w * 4 + 2], g[w * 4 + 3]];
    assert input[src..src + 4] == [input[src], input[src + 1], input[src + 2], input[src + 3]];
  }

  lemma GatheredByte(input: seq<byte>, s: nat, w: nat, b: nat)
    requires s < 4 && HDR_4SI <= |input| && StreamPresent(input, s) && w < Words(ReadU24(input, 3 * s)) && b < 4
    ensures var src := HDR_4SI + (w * 4 + s) * 4;
            && w * 4 + b < |Gathered(input, s)| && src + b < |input|
            && Gathered(input, s)[w * 4 + b] == input[src + b]
  {
    hide ReadU24, Words;
    DivUnique(w * 4 + b, 4, w, b);
    RowIndex(RowCount(input), Words(ReadU24(input, 3 * s)), w * 4 + b, s);
  }

  /** Copies the words of stream s into one run of bytes. */
  method Gather(input: seq<byte>, s: nat) returns (t: seq<byte>)
    requires s < 4 && HDR_4SI <= |input| && StreamPresent(input, s)
    ensures t == Gathered(input, s)
  {
    hide ReadU24, Words, StreamPresent, Gathered;
    var words := Words(ReadU24(input, 3 * s));
    var tmp := new byte[words * 4 + 4](_ => 0);
    ghost var g := Gathered(input, s);
    for w := 0 to words
      invariant tmp[..w * 4] == g[..w * 4]
    {
      GatheredWord(input, s, w);
      var src := HDR_4SI + (w * 4 + s) * 4;
      tmp[w * 4] := input[src];
      tmp[w * 4 + 1] := input[src + 1];
      tmp[w * 4 + 2] := input[src + 2];
      tmp[w * 4 + 3] := input[src + 3];
      assert tmp[w * 4..w * 4 + 4] == input[src..src + 4];
      assert tmp[..w * 4 + 4] == tmp[..w * 4] + tmp[w * 4..w * 4 + 4];
      assert g[..w * 4 + 4] == g[..w * 4] + g[w * 4..w * 4 + 4];
    }
    t := tmp[..words * 4];
  }

  method DecodeSiPart(input: seq<byte>, lut: seq<uint32>, maxLen: nat, out: array<byte>, expected: nat, s: nat,
                      start: nat, end: nat, ghost good: bool)
    returns (ok: bool)
    requires ValidMaxLen(maxLen) && UsableLut(lut, maxLen) && HDR_4SI <= |input| && s < 4
    requires expected <= out.Length
    requires start == PartStart(4, expected, s) && end == PartStart(4, expected, s + 1) && start <= end <= expected
    requires good ==> out[..start] == SiOutput(lut, maxLen, input, expected, s)
    modifies out
    ensures ok == SiPartAccepted(lut, maxLen, input, expected, s)
    ensures good && ok && SiPart(lut, maxLen, input, expected, s).ok ==>
              out[..end] == SiOutput(lut, maxLen, input, expected, s + 1)
    ensures forall i :: end <= i < out.Length ==> out[i] == old(out[i])
  {
    hide UsableLut, TableDecode, Gathered, ReadU24, PartStart;
    var size := ReadU24(input, 3 * s);
    var rows := (|input| - HDR_4SI) / 16 % U32_LIMIT;
    if Words(size) > rows {
      return false;
    }
    ghost var before := out[..start];
    ghost var d := SiPart(lut, maxLen, input, expected, s);
    var tmp := Gather(input, s);
    var dec := HuffDecode(tmp[..size], lut, maxLen, out, start, end - start);
    ok := dec == CInt(end - start);
    assert out[..start] == before;
    assert d.ok ==> out[..end] == out[..start] + out[start..start + |d.bytes|];
  }

  /** huff_decode_4s_interleaved */
  method HuffDecode4sInterleaved(input: seq<byte>, lut: seq<uint32>, maxLen: nat, out: array<byte>, expected: nat)
    returns (r: int)
    requires ValidMaxLen(maxLen) && UsableLut(lut, maxLen) && expected <= out.Length
    modifies out
    ensures r == if SiAccepts(lut, maxLen, input, expected) then CInt(expected) else -1
    ensures SiDecodes(lut, maxLen, input, expected) ==> out[..expected] == SiOutput(lut, maxLen, input, expected, 4)
    ensures forall i :: expected <= i < out.Length ==> out[i] == old(out[i])
  {
    hide UsableLut, SiPart, ReadU24;
    if |input| < HDR_4SI {
      return -1;
    }
    var q := expected / 4;
    var boundaries := [0, q, 2 * q, 3 * q, expected];
    for s := 0 to 4
      invariant forall t :: 0 <= t < s ==> SiPartAccepted(lut, maxLen, input, expected, t)
      invariant SiAllDecode(lut, maxLen, input, expected, s) ==>
                  out[..PartStart(4, expected, s)] == SiOutput(lut, maxLen, input, expected, s)
      invariant forall i :: expected <= i < out.Length ==> out[i] == old(out[i])
    {
      var ok := DecodeSiPart(input, lut, maxLen, out, expected, s, boundaries[s], boundaries[s + 1],
                             SiAllDecode(lut, maxLen, input, expected, s));
      OkPresent(lut, maxLen, input, expected, s);
      if !ok {
        return -1;
      }
    }
    return CInt(expected);
  }

  // ----- decoding undoes encoding -----

  lemma InterleavedSize(input: seq<byte>, c: Code, s: nat)
    requires c.Shaped() && StoredFit(4, input, c) && s < 4
    ensures HDR_4SI <= |InterleavedLayout(input, c)|
    ensures ReadU24(InterleavedLayout(input, c), 3 * s) == |StreamOf(4, input, c, s)|
  {
    hide StreamOf, U24, ReadU24, Payload, MaxWords;
    var b := InterleavedLayout(input, c);
    SizesAt(4, input, c, 4, s);
    assert b[3 * s..3 * s + 3] == Sizes(4, input, c, 4)[3 * s..3 * s + 3];
    ReadU24Back(|StreamOf(4, input, c, s)|, b, 3 * s);
  }

  lemma {:induction false} MaxWordsBound(input: seq<byte>, c: Code, k: nat)
    requires c.Shaped() && StoredFit(4, input, c) && k <= 4
    ensures MaxWords(input, c, k) < U24_LIMIT
  {
    hide StreamOf;
    if k > 0 {
      MaxWordsBound(input, c, k - 1);
      assert |StreamOf(4, input, c, k - 1)| < U24_LIMIT;
    }
  }

  lemma InterleavedRows(input: seq<byte>, c: Code)
    requires c.Shaped() && StoredFit(4, input, c)
    ensures RowCount(InterleavedLayout(input, c)) == MaxWords(input, c, 4)
  {
    hide StreamOf, U24, Sizes, PayloadByte, MaxWords;
    MaxWordsBound(input, c, 4);
    DivUnique(MaxWords(input, c, 4), U32_LIMIT, 0, MaxWords(input, c, 4));
  }

  /** Picking the words of stream s out of the rows gives the stream back. */
  lemma GatheredIsStream(input: seq<byte>, c: Code, s: nat)
    requires c.Shaped() && StoredFit(4, input, c) && s < 4
    ensures var b := InterleavedLayout(input, c);
            && StreamPresent(b, s)
            && Gathered(b, s)[..ReadU24(b, 3 * s)] == StreamOf(4, input, c, s)
  {
    hide StreamOf, ReadU24, Sizes, PayloadByte, RowCount, MaxWords;
    var b, streams, e := InterleavedLayout(input, c), AllStreams(input, c), StreamOf(4, input, c, s);
    InterleavedSize(input, c, s);
    InterleavedRows(input, c);
    assert streams[s] == e;
    forall j: nat | j < |e| ensures Gathered(b, s)[j] == e[j] {
      var i := (j / 4 * 4 + s) * 4 + j % 4;
      RowIndex(MaxWords(input, c, 4), Words(|e|), j, s);
      PayloadWord(streams, j / 4, s, i);
      assert b[HDR_4SI + i] == PayloadByte(streams, i);
    }
  }

  lemma InterleavedPart(input: seq<byte>, c: Code, maxLen: nat, lut: seq<uint32>, s: nat)
    requires ValidMaxLen(maxLen) && Decodable(c, maxLen) && IsDualLut(c, maxLen, lut)
    requires Codable(input, c) && SizesFit(4, input, c) && s < 4
    ensures UsableLut(lut, maxLen)
    ensures SiPart(lut, maxLen, InterleavedLayout(input, c), |input|, s) == Decoded(Part(4, input, s), true)
  {
    hide IsDualLut, TableDecode, SizesFit, StoredFit, Decodable, StreamPresent, ReadU24, StreamOf, Encoded, UsableLut,
         Codable;
    DecodableShaped(c, maxLen);
    FitCounted(4, input, c);
    PartCodable(4, input, c, s);
    GatheredIsStream(input, c, s);
    DecodeEncoded(c, maxLen, lut, Part(4, input, s));
  }

  lemma {:induction false} InterleavedOutput(input: seq<byte>, c: Code, maxLen: nat, lut: seq<uint32>, k: nat)
    requires ValidMaxLen(maxLen) && Decodable(c, maxLen) && IsDualLut(c, maxLen, lut)
    requires Codable(input, c) && SizesFit(4, input, c) && k <= 4
    ensures UsableLut(lut, maxLen) && PartStart(4, |input|, k) <= |input|
    ensures SiOutput(lut, maxLen, InterleavedLayout(input, c), |input|, k) == input[..PartStart(4, |input|, k)]
  {
    hide IsDualLut, UsableLut, SiPart, SizesFit, Codable, Part, Payload, Sizes, PrefixCode;
    FitCounted(4, input, c);
    PartOrder(4, |input|, k, 4);
    DualLutUsable(c, maxLen, lut);
    if k > 0 {
      InterleavedOutput(input, c, maxLen, lut, k - 1);
      InterleavedPart(input, c, maxLen, lut, k - 1);
      PartsJoin(4, input, k - 1, input[..PartStart(4, |input|, k - 1)]);
    } else {
      assert input[..PartStart(4, |input|, 0)] == [];
    }
  }

  /** huff_decode_4s_interleaved undoes huff_encode_4s_interleaved. */
  lemma InterleavedRoundTrip(input: seq<byte>, c: Code, maxLen: nat, lut: seq<uint32>)
    requires ValidMaxLen(maxLen) && Decodable(c, maxLen) && IsDualLut(c, maxLen, lut)
    requires Codable(input, c) && SizesFit(4, input, c)
    ensures UsableLut(lut, maxLen) && SiDecodes(lut, maxLen, InterleavedLayout(input, c), |input|)
    ensures SiOutput(lut, maxLen, InterleavedLayout(input, c), |input|, 4) == input
  {
    hide IsDualLut, UsableLut, SiDecodes, SiOutput, SizesFit, Codable, PrefixCode, InterleavedLayout, PartStart;
    InterleavedOutput(input, c, maxLen, lut, 4);
    PartEnds(4, |input|);
    InterleavedAccepted(input, c, maxLen, lut);
    assert input[..|input|] == input;
  }

  lemma InterleavedAccepted(input: seq<byte>, c: Code, maxLen: nat, lut: seq<uint32>)
    requires ValidMaxLen(maxLen) && Decodable(c, maxLen) && IsDualLut(c, maxLen, lut)
    requires Codable(input, c) && SizesFit(4, input, c)
    ensures UsableLut(lut, maxLen) && SiDecodes(lut, maxLen, InterleavedLayout(input, c), |input|)
  {
    hide IsDualLut, UsableLut, SiPart, SizesFit, StoredFit, Codable, PrefixCode, InterleavedLayout, Part;
    FitCounted(4, input, c);
    DualLutUsable(c, maxLen, lut);
    InterleavedSize(input, c, 0);
    forall s | 0 <= s < 4 ensures SiPart(lut, maxLen, InterleavedLayout(input, c), |input|, s).ok {
      InterleavedPart(input, c, maxLen, lut, s);
    }
  }
}
