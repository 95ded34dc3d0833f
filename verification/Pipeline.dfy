/** The whole chain: counts, lengths, limit, codes, table, encoding, decoding.  Every step
    only works because of what the one before it established. */
module Pipeline {
  import opened Numbers
  import opened HuffmanTree
  import opened CodeLengths
  import opened TreeBuilder
  import opened HeightLimit
  import opened Canonical
  import opened Encoder
  import opened DecodeTables
  import opened Decoder
  import opened RoundTrip
  import opened NStreams
  import opened NStreamsDecode
  import opened Histogram
  import opened Capacity

  /** Below this many bytes no code is longer than 30 bits. */
  const DEPTH_SAFE: nat := 3524578

  /** Below this size a quarter never encodes to 2^24 bytes. */
  const FOUR_STREAM_SAFE: nat := 0x1FF_FFF0

  // ----- from 30-bit Kraft sums to table indices -----

  /** Kraft in units of 2^-30 is Kraft in units of 2^-maxLen when no code is longer. */
  lemma KraftRescale(lens: seq<nat>, maxLen: nat)
    requires Bounded(lens, maxLen) && Bounded(lens, SCALE) && maxLen <= SCALE && Kraft(lens, SCALE) <= TARGET
    ensures Kraft(lens, maxLen) <= Pow2(maxLen)
  {
    SharesScale(lens, maxLen, SCALE - maxLen, |lens|);
    assert TARGET == Pow2(SCALE) by { Pow2Values(); }
    Pow2Add(maxLen, SCALE - maxLen);
    ScaledWithin(Kraft(lens, maxLen), Pow2(maxLen), Pow2(SCALE - maxLen), Kraft(lens, SCALE), TARGET);
  }

  lemma ScaledWithin(k: int, m: int, u: int, ku: int, mu: int)
    requires ku == k * u && mu == m * u && ku <= mu && 0 < u
    ensures k <= m
  {
    if k > m {
      MulMono(1, k - m, u);
      Distribute(k - m, m, u);
    }
  }

  // ----- lengths that fit the table -----

  /** Lengths that the rest of the chain can use: within the limit, Kraft at most 1, and
      a code for exactly the bytes that occur. */
  ghost predicate GoodLengths(src: seq<byte>, lens: seq<byte>, maxLen: nat) {
    && |lens| == SYMBOLS && Bounded(lens, maxLen) && Kraft(lens, maxLen) <= Pow2(maxLen)
    && forall s :: 0 <= s < SYMBOLS ==> (lens[s] > 0 <==> CountOf(src, s, |src|) > 0)
  }

  /** The lengths are the builder's; or, when the longest exceeds the table, their limited
      form.  Either way the byte counts determine them. */
  ghost predicate Chosen(src: seq<byte>, maxLen: nat, lens: seq<byte>, limited: bool) {
    if limited then exists built: seq<nat> :: LimitedFrom(src, maxLen, built, lens)
    else MergedLengths(Counts(src, |src|), lens)
  }

  ghost predicate LimitedFrom(src: seq<byte>, maxLen: nat, built: seq<nat>, lens: seq<byte>) {
    && MergedLengths(Counts(src, |src|), built) && !Bounded(built, maxLen)
    && Limited(Counts(src, |src|), built, maxLen, lens)
  }

  /** The limit is applied exactly when the builder makes a longer code. */
  lemma ChosenLengths(src: seq<byte>, maxLen: nat, lens: seq<byte>, limited: bool)
    requires Chosen(src, maxLen, lens, limited) && forall s :: 0 <= s < |lens| ==> lens[s] <= maxLen
    ensures exists built: seq<nat> ::
              && MergedLengths(Counts(src, |src|), built)
              && (limited <==> exists s :: 0 <= s < |built| && built[s] > maxLen)
              && (limited ==> Limited(Counts(src, |src|), built, maxLen, lens))
              && (!limited ==> lens == built)
  {
    hide MergedLengths, Limited;
    if limited {
      var built: seq<nat> :| LimitedFrom(src, maxLen, built, lens);
      assert exists s :: 0 <= s < |built| && built[s] > maxLen;
    } else {
      var built: seq<nat> := lens;
      assert MergedLengths(Counts(src, |src|), built);
    }
  }

  /** No length that the builder makes of these bytes exceeds 30, so every shift by
      30 - length is defined. */
  ghost predicate ShiftsDefined(src: seq<byte>) {
    forall lens :: MergedLengths(Counts(src, |src|), lens) ==> Bounded(lens, SCALE)
  }

  lemma CountsSmall(src: seq<byte>)
    ensures forall s :: 0 <= s < SYMBOLS ==> Counts(src, |src|)[s] <= |src|
  {
  }

  /** Two ways to know it beforehand: a small input, or few different bytes. */
  lemma SmallInputShifts(src: seq<byte>)
    requires |src| < 3524578
    ensures ShiftsDefined(src)
  {
    hide MergedLengths, HuffmanLengths, Counts;
    forall lens | MergedLengths(Counts(src, |src|), lens) ensures Bounded(lens, SCALE) {
      CountsTotal(src, |src|);
      CountsSmall(src);
      MergedIsHuffman(Counts(src, |src|), lens);
      DepthLimits(Counts(src, |src|), lens);
    }
  }

  lemma FewBytesShifts(src: seq<byte>)
    requires UsedCount(Counts(src, |src|), SYMBOLS) <= SCALE + 1
    ensures ShiftsDefined(src)
  {
    hide Counts;
    var hist := Counts(src, |src|);
    forall lens | MergedLengths(hist, lens) ensures Bounded(lens, SCALE) {
      if UsedCount(hist, SYMBOLS) >= 2 {
        var t :| Huffman32(InitialForest(hist, SYMBOLS), t) && TreeLengths(lens, t);
        ShallowTree(hist, t, lens);
      }
    }
  }

  lemma ShallowTree(hist: seq<nat>, t: Tree, lens: seq<nat>)
    requires |hist| == SYMBOLS == |lens| && 2 <= UsedCount(hist, SYMBOLS) <= SCALE + 1
    requires Huffman32(InitialForest(hist, SYMBOLS), t) && TreeLengths(lens, t)
    ensures Bounded(lens, SCALE)
  {
    hide Huffman32, InitialForest, UsedCount, Depth, Height;
    MergedTreeFacts(hist, t);
    HeightBelowLeaves(t);
    UsedSymbolsSize(hist, SYMBOLS, Leaves(t));
    forall s | 0 <= s < SYMBOLS ensures lens[s] <= SCALE {
      if s in Leaves(t) {
        DepthBelowHeight(t, s);
      }
    }
  }

  lemma {:induction false} UsedSymbolsSize(hist: seq<nat>, k: nat, used: set<nat>)
    requires k <= |hist| && forall s :: s in used <==> 0 <= s < k && hist[s] > 0
    ensures |used| == UsedCount(hist, k)
  {
    if k > 0 {
      UsedSymbolsSize(hist, k - 1, used - {k - 1});
    }
  }

  lemma {:induction false} UsedCountAtMost(lens: seq<nat>, k: nat)
    requires k <= |lens|
    ensures UsedCount(lens, k) <= k
  {
    if k > 0 {
      UsedCountAtMost(lens, k - 1);
    }
  }

  /** Before limiting: what the builder's lengths satisfy. */
  lemma BuiltLengths(src: seq<byte>, hist: seq<nat>, lens: seq<byte>)
    requires ShiftsDefined(src) && hist == Counts(src, |src|) && |lens| == SYMBOLS
    requires MergedLengths(hist, lens)
    ensures Bounded(lens, SCALE) && Kraft(lens, SCALE) <= TARGET
    ensures forall s :: 0 <= s < SYMBOLS ==> (lens[s] > 0 <==> CountOf(src, s, |src|) > 0)
  {
    hide MergedLengths, CountOf, Kraft;
    MergedLengthsKraft(hist, lens, SCALE);
    Pow2Values();
  }

  lemma WithinLimit(lens: seq<byte>, maxLen: nat, longest: nat)
    requires IsMax(lens, longest) && longest <= maxLen
    ensures Bounded(lens, maxLen)
  {
  }

  lemma TooLong(lens: seq<byte>, maxLen: nat, longest: nat)
    requires IsMax(lens, longest) && longest > maxLen
    ensures !Bounded(lens, maxLen)
  {
  }

  /** A length above 1 needs a second symbol, so no count is as large as the sentinel. */
  lemma SentinelFree(src: seq<byte>, built: seq<nat>, maxLen: nat)
    requires |src| < U32_LIMIT && MergedLengths(Counts(src, |src|), built) && !Bounded(built, maxLen) && maxLen >= 1
    ensures CountsBelowSentinel(Counts(src, |src|))
  {
    hide Sum, Counts;
    var hist := Counts(src, |src|);
    CountsTotal(src, |src|);
    forall s | 0 <= s < SYMBOLS ensures hist[s] < NO_COUNT {
      if hist[s] >= NO_COUNT {
        forall t | 0 <= t < SYMBOLS && t != s ensures hist[t] == 0 {
          SumTwoItems(hist, SYMBOLS, s, t);
        }
        OneUsed(hist, SYMBOLS, s);
      }
    }
  }

  lemma {:induction false} OneUsed(hist: seq<nat>, k: nat, s: nat)
    requires k <= |hist| && forall t :: 0 <= t < |hist| && t != s ==> hist[t] == 0
    ensures UsedCount(hist, k) <= if s < k then 1 else 0
  {
    if k > 0 {
      OneUsed(hist, k - 1, s);
    }
  }

  method Longest(lens: array<byte>) returns (m: nat)
    ensures IsMax(lens[..], m)
  {
    m := 0;
    for s := 0 to lens.Length
      invariant forall i :: 0 <= i < s ==> lens[i] <= m
      invariant m > 0 ==> m in lens[..]
    {
      if lens[s] > m {
        m := lens[s];
        assert lens[..][s] == m;
      }
    }
  }

  /** Builds the lengths and limits them when the longest exceeds the table. */
  method ChooseLengths(src: seq<byte>, maxLen: nat) returns (lens: array<byte>, longest: nat, limited: bool)
    requires |src| < U32_LIMIT && ShiftsDefined(src) && 8 <= maxLen <= 16
    ensures fresh(lens) && GoodLengths(src, lens[..], maxLen) && IsMax(lens[..], longest)
    ensures Chosen(src, maxLen, lens[..], limited)
  {
    hide HuffmanLengths, MergedLengths, CountOf, Kraft, IsMax, Limited, Counts, UsedCount;
    var hist := CountBytes(src);
    CountsTotal(src, |src|);
    lens := new byte[SYMBOLS](_ => 0);
    longest := BuildCodeLengths(hist, lens);
    BuiltLengths(src, hist, lens[..]);
    limited := longest > maxLen;
    if limited {
      ghost var was: seq<byte> := lens[..];
      ghost var cut := Demoted(was, maxLen);
      UsedCountAtMost(was, SYMBOLS);
      UsedCountAtMost(cut, SYMBOLS);
      assert SYMBOLS <= Pow2(maxLen) by { Pow2Mono(8, maxLen); Pow2Byte(); }
      TooLong(was, maxLen, longest);
      DemotingFits(was, cut, maxLen);
      SentinelFree(src, was, maxLen);
      LimitHeight(hist, lens, maxLen);
      assert LimitedFrom(src, maxLen, was, lens[..]);
      LimitedIsValid(hist, was, maxLen, lens[..]);
      longest := Longest(lens);
    } else {
      WithinLimit(lens[..], maxLen, longest);
    }
    KraftRescale(lens[..], maxLen);
  }

  // ----- codes and table -----

  ghost predicate Ready(src: seq<byte>, maxLen: nat, c: Code, lut: seq<uint32>) {
    && Decodable(c, maxLen) && GoodLengths(src, c.lens, maxLen) && IsCanonical(c.lens, maxLen, c.codes)
    && Codable(src, c) && IsDualLut(c, maxLen, lut)
  }

  lemma AllBytesCoded(src: seq<byte>, c: Code, maxLen: nat)
    requires c.Shaped() && GoodLengths(src, c.lens, maxLen)
    ensures Codable(src, c)
  {
    forall i | 0 <= i < |src| ensures c.lens[src[i]] > 0 {
      CountPositive(src, i, |src|);
    }
  }

  /** Everything up to the decode table. */
  method BuildTables(src: seq<byte>, maxLen: nat)
    returns (c: Code, lut: seq<uint32>, longest: nat, limited: bool)
    requires |src| < U32_LIMIT && ShiftsDefined(src) && 8 <= maxLen <= 16
    ensures Ready(src, maxLen, c, lut) && IsMax(c.lens, longest) && Chosen(src, maxLen, c.lens, limited)
  {
    hide MergedLengths, CountOf, Kraft, IsMax, Counts, Pow2, IsDualLut, PrefixCode, IsCanonical, Chosen;
    var lens;
    lens, longest, limited := ChooseLengths(src, maxLen);
    var codes := new uint32[SYMBOLS](_ => 0);
    AssignCanonicalCodes(lens[..], maxLen, codes);
    c := Code(lens[..], codes[..]);
    CanonicalIsPrefixCode(c.lens, maxLen, c.codes);
    AllBytesCoded(src, c, maxLen);
    var table := new uint32[Pow2(maxLen)](_ => 0);
    BuildDecodeLut(c, maxLen, table);
    lut := table[..];
  }

  // ----- roundtrip_test -----

  /** roundtrip_test fails only where the 4-stream format itself ends, at a stream of 2^24
      bytes: the 2n + 16 bytes never overflow, and both formats give the input back.  The
      reported sizes are those of the input under the canonical code that the byte counts
      determine; as long as no length was cut, no prefix code whatever needs fewer bits. */
  method RoundtripTest(src: seq<byte>, maxLen: nat)
    returns (failed: int, encBytes: int, enc4Bytes: int, longest: nat, ghost c: Code, ghost limited: bool)
    requires |src| < U32_LIMIT && ShiftsDefined(src) && 8 <= maxLen <= 16
    ensures failed == 0 || failed == 1
    ensures c.Shaped() && (failed == 0 <==> forall s :: 0 <= s < 4 ==> |WholeStream(4, src, c, s)| < 0x100_0000)
    ensures |src| < 33554416 ==> failed == 0
    ensures |src| >= 0x2000_0000 ==> failed != 0
    ensures (forall s :: 0 <= s < 256 ==> c.lens[s] <= longest) && (longest > 0 ==> longest in c.lens)
    ensures longest <= maxLen
    ensures Decodable(c, maxLen) && IsCanonical(c.lens, maxLen, c.codes) && GoodLengths(src, c.lens, maxLen)
    ensures Chosen(src, maxLen, c.lens, limited)
    ensures |Encoded(src, c)| <= 2 * |src| && encBytes == CInt(|Encoded(src, c)|)
    ensures enc4Bytes == if failed == 0 then |NsLayout(4, src, c)| else -1
    ensures failed == 0 ==> encBytes == |Encoded(src, c)| && encBytes + 9 <= enc4Bytes <= encBytes + 12
    ensures SimpleDecode(c, maxLen, Encoded(src, c), 0, |src|) == Decoded(src, true)
    ensures !limited ==> forall other, d :: Decodable(other, d) && Codable(src, other) ==>
                |CodeBits(src, c)| <= |CodeBits(src, other)|
  {
    hide HuffmanLengths, IsDualLut, TableDecode, Encoded, NsLayout, NsFits, NsDecodes, NsOutput, IsMax,
         PrefixCode, IsCanonical, Kraft, UsableLut, CodeBits, SimpleDecode, Chosen, ShiftsDefined, SizesFit,
         WholeStream;
    var code, lut, cut;
    encBytes, enc4Bytes := -1, -1;
    code, lut, longest, cut := BuildTables(src, maxLen);
    c, limited := code, cut;
    ReadyFacts(src, maxLen, code, lut, longest);
    LongestLength(code, longest);
    SimpleReadsEncoded(src, maxLen, code, lut);
    ShortestUnlessCut(src, maxLen, code, cut);
    FourStreamFacts(src, code);
    SizesFitIs(src, code);
    if SizesFit(4, src, code) {
      FourStreamLimits(src, maxLen, code, lut);
    }
    CIntSmall(|Encoded(src, code)|, INT_MAX);
    var enc := new byte[|src| * 2 + 16](_ => 0);
    var dec := new byte[|src| + 16](_ => 0);
    encBytes := HuffEncode(src, code, enc, 0, |src| * 2 + 16);
    if encBytes < 0 {
      failed := 1;
      return;
    }
    var decBytes := HuffDecode(enc[..encBytes], lut, maxLen, dec, 0, |src|);
    if decBytes != CInt(|src|) {
      failed := 1;
      return;
    }
    if dec[..|src|] != src {
      failed := 1;
      return;
    }
    failed, enc4Bytes := FourStreamTest(src, maxLen, code, lut, enc, |src| * 2 + 16, dec);
  }

  lemma SizesFitIs(src: seq<byte>, c: Code)
    requires c.Shaped()
    ensures SizesFit(4, src, c) <==> forall s :: 0 <= s < 4 ==> |WholeStream(4, src, c, s)| < 0x100_0000
  {
    hide WholeStream;
  }

  lemma LongestLength(c: Code, longest: nat)
    requires c.Shaped() && IsMax(c.lens, longest)
    ensures (forall s :: 0 <= s < 256 ==> c.lens[s] <= longest) && (longest > 0 ==> longest in c.lens)
  {
  }

  lemma FourStreamLimits(src: seq<byte>, maxLen: nat, c: Code, lut: seq<uint32>)
    requires Ready(src, maxLen, c, lut) && SizesFit(4, src, c)
    ensures |src| < 0x2000_0000 && |Encoded(src, c)| <= INT_MAX
  {
    hide SizesFit, Encoded, IsDualLut, PrefixCode, IsCanonical, GoodLengths;
    FourStreamsLimit(src, c);
  }

  lemma FourStreamFacts(src: seq<byte>, c: Code)
    requires ShortCodes(c) && |src| < U32_LIMIT
    ensures |Encoded(src, c)| + 9 <= |NsLayout(4, src, c)| <= |Encoded(src, c)| + 12
    ensures |src| < FOUR_STREAM_SAFE ==> SizesFit(4, src, c)
  {
    ShortCounted(4, src, c);
    LayoutOverhead(4, src, c);
    if |src| < FOUR_STREAM_SAFE {
      StreamSizes(4, src, c);
    }
  }

  lemma SimpleReadsEncoded(src: seq<byte>, maxLen: nat, c: Code, lut: seq<uint32>)
    requires 8 <= maxLen <= 16 && Ready(src, maxLen, c, lut)
    ensures SimpleDecode(c, maxLen, Encoded(src, c), 0, |src|) == Decoded(src, true)
  {
    hide IsDualLut, Encoded, TableDecode, SimpleDecode, PrefixCode, IsCanonical, GoodLengths;
    DecodeEncoded(c, maxLen, lut, src);
    DualDecodeIsSimple(c, maxLen, lut, Encoded(src, c), 0, |src|);
  }

  lemma ShortestUnlessCut(src: seq<byte>, maxLen: nat, c: Code, limited: bool)
    requires c.Shaped() && Chosen(src, maxLen, c.lens, limited) && |src| < U32_LIMIT
    ensures !limited ==> forall other, d :: Decodable(other, d) && Codable(src, other) ==>
                |CodeBits(src, c)| <= |CodeBits(src, other)|
  {
    hide HuffmanLengths, MergedLengths, CodeBits, Codable, PrefixCode;
    if !limited {
      CountsTotal(src, |src|);
      CountsSmall(src);
      MergedIsHuffman(Counts(src, |src|), c.lens);
      forall other, d | Decodable(other, d) && Codable(src, other)
        ensures |CodeBits(src, c)| <= |CodeBits(src, other)|
      {
        NoPrefixCodeIsShorter(src, c, other, d);
      }
    }
  }

  lemma ReadyFacts(src: seq<byte>, maxLen: nat, c: Code, lut: seq<uint32>, longest: nat)
    requires 8 <= maxLen <= 16 && Ready(src, maxLen, c, lut) && IsMax(c.lens, longest)
    ensures ShortCodes(c) && UsableLut(lut, maxLen) && longest <= maxLen
    ensures |Encoded(src, c)| <= 2 * |src|
    ensures TableDecode(lut, maxLen, Encoded(src, c), 0, |src|) == Decoded(src, true)
  {
    DecodeEncoded(c, maxLen, lut, src);
    EncodedFits(src, c);
  }

  /** The second half of the test, on the same input, tables and buffers. */
  method FourStreamTest(src: seq<byte>, maxLen: nat, c: Code, lut: seq<uint32>,
                        enc: array<byte>, cap: nat, dec: array<byte>)
    returns (failed: int, enc4: int)
    requires |src| < U32_LIMIT && 8 <= maxLen <= 16 && Ready(src, maxLen, c, lut)
    requires |src| * 2 + 16 <= cap <= enc.Length && cap < 0x8000_0000_0000_0000
    requires dec.Length >= |src| && enc != dec
    modifies enc, dec
    ensures failed == 0 || failed == 1
    ensures c.Shaped() && (failed == 0 <==> SizesFit(4, src, c))
    ensures enc4 == if failed == 0 then |NsLayout(4, src, c)| else -1
    ensures failed == 0 ==> dec[..|src|] == src
  {
    hide IsDualLut, NsDecodes, NsOutput, PrefixCode, IsCanonical, Kraft, UsableLut, Codable, Streams, Sizes,
         NsLayout, SizesFit, StoredFit, StreamsCounted, PartsCounted, RoomFor, StreamOf, WholeStream, NsAccepts;
    ReadyShort(src, maxLen, c, lut);
    ShortCounted(4, src, c);
    CountedFit(4, src, c);
    enc4 := HuffEncode4s(src, c, enc, cap);
    if enc4 < 0 {
      if SizesFit(4, src, c) {
        NsCapacity(4, src, c, cap);
      }
      return 1, enc4;
    }
    NsRoundTrip(4, src, c, maxLen, lut);
    FourStreamLimits(src, maxLen, c, lut);
    PartsCountedBelow4G(4, |src|);
    AcceptsIffDecodes(4, lut, maxLen, enc[..enc4], |src|);
    var dec4 := HuffDecode4s(enc[..enc4], lut, maxLen, dec, |src|);
    if dec4 != CInt(|src|) || dec[..|src|] != src {
      return 1, enc4;
    }
    return 0, enc4;
  }

  lemma ReadyShort(src: seq<byte>, maxLen: nat, c: Code, lut: seq<uint32>)
    requires maxLen <= 16 && Ready(src, maxLen, c, lut)
    ensures ShortCodes(c)
  {
  }
}
