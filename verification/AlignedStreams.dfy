/** The two 4-way layouts whose header stores all four sizes: streams padded to a 4-byte
    boundary, and streams interleaved word by word. */
module AlignedStreams {
  import opened Numbers
  import opened Canonical
  import opened Encoder
  import opened DecodeTables
  import opened Decoder
  import opened RoundTrip
  import opened NStreams
  import opened NStreamsDecode

  const HDR_4SA: nat := 12

  function RoundUp4(n: nat): (r: nat)
    ensures r % 4 == 0 && n <= r < n + 4
  {
    (n + 3) / 4 * 4
  }

  function ZeroBytes(n: nat): (z: seq<byte>)
    ensures |z| == n
  {
    seq<byte>(n, _ => 0)
  }

  // ----- padded streams -----

  /** The first k streams, each padded with zeros to a multiple of four. */
  function PaddedStreams(input: seq<byte>, c: Code, k: nat): (b: seq<byte>)
    requires k <= 4 && c.Shaped()
    ensures |b| % 4 == 0
  {
    if k == 0 then []
    else
      var e := StreamOf(4, input, c, k - 1);
      PaddedStreams(input, c, k - 1) + e + ZeroBytes(RoundUp4(|e|) - |e|)
  }

  function AlignedLayout(input: seq<byte>, c: Code): seq<byte>
    requires c.Shaped()
  {
    Sizes(4, input, c, 4) + PaddedStreams(input, c, 4)
  }

  predicate AlignedFits(input: seq<byte>, c: Code, cap: nat)
    requires c.Shaped()
  {
    StoredFit(4, input, c) && |AlignedLayout(input, c)| <= cap && PaddedRoom(input, c, cap, 4)
  }

  /** Every stream, and then its padding, finds room behind the ones before it. */
  predicate PaddedRoom(input: seq<byte>, c: Code, cap: nat, k: nat)
    requires k <= 4 && c.Shaped()
  {
    forall s :: 0 <= s < k ==> PaddedRoomAt(input, c, cap, s)
  }

  predicate PaddedRoomAt(input: seq<byte>, c: Code, cap: nat, s: nat)
    requires s < 4 && c.Shaped()
  {
    && HDR_4SA + |PaddedStreams(input, c, s)| + |WholeStream(4, input, c, s)| <= cap
    && HDR_4SA + |PaddedStreams(input, c, s + 1)| <= cap
  }

  /** With streams below 4 GB there is room exactly when the whole layout fits. */
  lemma AlignedFitsIff(input: seq<byte>, c: Code, cap: nat)
    requires c.Shaped() && StreamsCounted(4, input, c) && HDR_4SA <= cap
    ensures AlignedFits(input, c, cap) <==>
              && |AlignedLayout(input, c)| <= cap
              && forall s :: 0 <= s < 4 ==> |WholeStream(4, input, c, s)| < 0x100_0000
  {
    hide StreamOf, WholeStream, PaddedStreams, Sizes;
    CountedFit(4, input, c);
    if |AlignedLayout(input, c)| <= cap {
      forall s | 0 <= s < 4 ensures PaddedRoomAt(input, c, cap, s) {
        PaddedNext(input, c, s);
        PaddedMono(input, c, s + 1, 4);
      }
    } else {
      assert !PaddedRoomAt(input, c, cap, 3);
    }
  }

  lemma {:induction false} PaddedMono(input: seq<byte>, c: Code, j: nat, k: nat)
    requires j <= k <= 4 && c.Shaped()
    ensures PaddedStreams(input, c, j) <= PaddedStreams(input, c, k)
    decreases k
  {
    hide StreamOf;
    if j < k {
      PaddedMono(input, c, j, k - 1);
    }
  }

  /** Zeros up to the next multiple of four, or -1 when the buffer ends before it. */
  method PadToWord(out: array<byte>, written: nat, cap: nat) returns (r: int)
    requires written <= cap <= out.Length
    modifies out
    ensures r == if RoundUp4(written) <= cap then RoundUp4(written) else -1
    ensures r >= 0 ==> out[written..r] == ZeroBytes(r - written)
    ensures forall i :: 0 <= i < out.Length && !(written <= i < cap) ==> out[i] == old(out[i])
  {
    var w := written;
    while w % 4 != 0
      invariant written <= w <= RoundUp4(written) && w <= cap
      invariant forall i :: written <= i < w ==> out[i] == 0
      invariant forall i :: 0 <= i < out.Length && !(written <= i < cap) ==> out[i] == old(out[i])
      decreases RoundUp4(written) - w
    {
      if w >= cap {
        return -1;
      }
      out[w] := 0;
      w := w + 1;
    }
    return w;
  }

  /** The padded streams below s stand behind the header. */
  ghost predicate PaddedStored(input: seq<byte>, c: Code, out: seq<byte>, written: nat, sizes: seq<nat>, s: nat)
    requires s <= 4 && c.Shaped()
  {
    && HDR_4SA <= written <= |out| && s <= |sizes|
    && out[HDR_4SA..written] == PaddedStreams(input, c, s)
    && forall t :: 0 <= t < s ==>
         sizes[t] == |StreamOf(4, input, c, t)| && |StreamOf(4, input, c, t)| < U24_LIMIT
  }

  lemma PaddedStoredNext(input: seq<byte>, c: Code, out: seq<byte>, out': seq<byte>, written: nat, sizes: seq<nat>,
                         s: nat, sz: nat, next: nat)
    requires s < 4 && c.Shaped() && PaddedStored(input, c, out, written, sizes, s)
    requires s < |sizes| && |out'| == |out| && next <= |out| && next == RoundUp4(written + sz)
    requires sz == |StreamOf(4, input, c, s)| < U24_LIMIT
    requires out'[written..written + sz] == StreamOf(4, input, c, s)
    requires out'[written + sz..next] == ZeroBytes(next - (written + sz))
    requires forall i :: 0 <= i < written ==> out'[i] == out[i]
    ensures PaddedStored(input, c, out', next, sizes[s := sz], s + 1)
  {
    hide StreamOf, ZeroBytes, RoundUp4, PaddedStreams;
    PaddedNext(input, c, s);
    assert |PaddedStreams(input, c, s)| == written - HDR_4SA;
    RoundUpShift(written, sz);
    assert out'[HDR_4SA..written] == out[HDR_4SA..written];
    assert out'[HDR_4SA..next] == out'[HDR_4SA..written] + out'[written..written + sz] + out'[written + sz..next];
  }

  method PutPadded(input: seq<byte>, c: Code, out: array<byte>, cap: nat, written: nat, sizes: array<nat>, s: nat,
                   part: seq<byte>)
    returns (r: int)
    requires s < 4 <= sizes.Length && c.Shaped() && written <= cap <= out.Length
    requires part == Part(4, input, s) && PaddedStored(input, c, out[..], written, sizes[..], s)
    modifies out, sizes
    ensures r == if && |StreamOf(4, input, c, s)| < U24_LIMIT && written + |WholeStream(4, input, c, s)| <= cap
                    && RoundUp4(written + |StreamOf(4, input, c, s)|) <= cap
                 then RoundUp4(written + |StreamOf(4, input, c, s)|) else -1
    ensures r >= 0 ==> PaddedStored(input, c, out[..], r, sizes[..], s + 1)
    ensures forall i :: 0 <= i < out.Length && !(written <= i < cap) ==> out[i] == old(out[i])
  {
    hide PaddedStored, Encoded, Part, ZeroBytes;
    ghost var before, sizesBefore := out[..], sizes[..];
    CIntSmall(|WholeStream(4, input, c, s)|, U24_LIMIT);
    var sz := HuffEncode(part, c, out, written, cap - written);
    if sz < 0 || sz >= U24_LIMIT {
      return -1;
    }
    var size: nat := sz;
    sizes[s] := size;
    assert sizes[..] == sizesBefore[s := size];
    assert out[written..written + |WholeStream(4, input, c, s)|][..size] == out[written..written + size];
    ghost var stream := out[written..written + size];
    r := PadToWord(out, written + size, cap);
    if r >= 0 {
      assert out[written..written + size] == stream;
      PaddedStoredNext(input, c, before, out[..], written, sizesBefore, s, size, r);
    }
  }

  lemma PaddedFails(input: seq<byte>, c: Code, written: nat, cap: nat, s: nat)
    requires s < 4 && c.Shaped() && written == HDR_4SA + |PaddedStreams(input, c, s)|
    requires |StreamOf(4, input, c, s)| >= U24_LIMIT || written + |WholeStream(4, input, c, s)| > cap
          || RoundUp4(written + |StreamOf(4, input, c, s)|) > cap
    ensures !AlignedFits(input, c, cap)
  {
    hide StreamOf, WholeStream, ZeroBytes, RoundUp4, PaddedStreams, Sizes;
    RoundUpShift(written, |StreamOf(4, input, c, s)|);
    PaddedNext(input, c, s);
    assert PaddedRoomAt(input, c, cap, s) ==> written + |WholeStream(4, input, c, s)| <= cap;
  }

  lemma RoundUpShift(a: nat, b: nat)
    requires a % 4 == 0
    ensures RoundUp4(a + b) == a + RoundUp4(b)
  {
    hide RoundUp4;
  }

  /** huff_encode_4s_aligned */
  method HuffEncode4sAligned(input: seq<byte>, c: Code, out: array<byte>, cap: nat) returns (r: int)
    requires c.Shaped() && cap <= out.Length
    modifies out
    ensures r == if AlignedFits(input, c, cap) then |AlignedLayout(input, c)| else -1
    ensures r >= 0 ==> out[..r] == AlignedLayout(input, c)
    ensures forall i :: cap <= i < out.Length ==> out[i] == old(out[i])
  {
    hide StreamOf, WholeStream, Part, PaddedStreams;
    if cap < HDR_4SA {
      return -1;
    }
    var q := |input| / 4;
    var boundaries := [0, q, 2 * q, 3 * q, |input|];
    var sizes := new nat[4];
    var written := HDR_4SA;
    NonePadded(input, c);
    for s := 0 to 4
      invariant HDR_4SA <= written <= cap && PaddedStored(input, c, out[..], written, sizes[..], s)
      invariant PaddedRoom(input, c, cap, s)
      invariant forall i :: cap <= i < out.Length ==> out[i] == old(out[i])
    {
      PartIs(4, input, s, boundaries[s], boundaries[s + 1]);
      var next := PutPadded(input, c, out, cap, written, sizes, s, input[boundaries[s]..boundaries[s + 1]]);
      if next < 0 {
        PaddedFails(input, c, written, cap, s);
        return -1;
      }
      written := next;
    }
    FinishPadded(input, c, out, sizes, written);
    PaddedSmall(input, c, 4);
    return CInt(written);
  }

  lemma {:induction false} PaddedSmall(input: seq<byte>, c: Code, k: nat)
    requires k <= 4 && c.Shaped() && StoredFit(4, input, c)
    ensures |PaddedStreams(input, c, k)| <= k * (U24_LIMIT + 3)
  {
    hide StreamOf, ZeroBytes, RoundUp4;
    if k > 0 {
      PaddedSmall(input, c, k - 1);
    }
  }

  lemma NonePadded(input: seq<byte>, c: Code)
    requires c.Shaped()
    ensures PaddedStreams(input, c, 0) == []
  {
  }

  method FinishPadded(input: seq<byte>, c: Code, out: array<byte>, sizes: array<nat>, r: nat)
    requires c.Shaped() && sizes.Length == 4 && r <= out.Length
    requires PaddedStored(input, c, out[..], r, sizes[..], 4)
    modifies out
    ensures r == |AlignedLayout(input, c)| && out[..r] == AlignedLayout(input, c) && StoredFit(4, input, c)
    ensures forall i :: r <= i < out.Length ==> out[i] == old(out[i])
  {
    hide StreamOf, Sizes, PaddedStreams;
    ghost var body := out[HDR_4SA..r];
    assert body == out[..][HDR_4SA..r];
    forall s | 0 <= s < 4 ensures sizes[s] == |StreamOf(4, input, c, s)| {
      assert sizes[..][s] == |StreamOf(4, input, c, s)|;
    }
    PutSizes(4, input, c, out, sizes, 4);
    assert out[HDR_4SA..r] == body;
    assert out[..r] == out[..HDR_4SA] + out[HDR_4SA..r];
  }

  /** Where stream s starts in the aligned layout: a function of the stored sizes. */
  function AlignedOffset(b: seq<byte>, s: nat): nat
    requires s <= 4 && HDR_4SA <= |b|
  {
    if s == 0 then HDR_4SA else AlignedOffset(b, s - 1) + RoundUp4(ReadU24(b, 3 * (s - 1)))
  }

  lemma AlignedSize(input: seq<byte>, c: Code, s: nat)
    requires c.Shaped() && StoredFit(4, input, c) && s < 4
    ensures HDR_4SA <= |AlignedLayout(input, c)|
    ensures ReadU24(AlignedLayout(input, c), 3 * s) == |StreamOf(4, input, c, s)|
  {
    hide StreamOf, U24, ReadU24, PaddedStreams;
    var b := AlignedLayout(input, c);
    SizesAt(4, input, c, 4, s);
    assert b[3 * s..3 * s + 3] == Sizes(4, input, c, 4)[3 * s..3 * s + 3];
    ReadU24Back(|StreamOf(4, input, c, s)|, b, 3 * s);
  }

  lemma {:induction false} AlignedOffsetIs(input: seq<byte>, c: Code, s: nat)
    requires c.Shaped() && StoredFit(4, input, c) && s <= 4
    ensures HDR_4SA <= |AlignedLayout(input, c)|
    ensures AlignedOffset(AlignedLayout(input, c), s) == HDR_4SA + |PaddedStreams(input, c, s)|
  {
    hide StreamOf, U24, ReadU24, AlignedLayout, ZeroBytes;
    if s > 0 {
      AlignedOffsetIs(input, c, s - 1);
      AlignedSize(input, c, s - 1);
    } else {
      AlignedSize(input, c, 0);
    }
  }

  /** Reading the aligned layout back: stream s starts on a 4-byte boundary at an offset
      computed from the stored sizes, and the stored number of bytes there decodes to
      part s of the input. */
  lemma AlignedReadBack(input: seq<byte>, c: Code, maxLen: nat, lut: seq<uint32>, s: nat)
    requires ValidMaxLen(maxLen) && Decodable(c, maxLen) && IsDualLut(c, maxLen, lut)
    requires Codable(input, c) && SizesFit(4, input, c) && s < 4
    ensures var b := AlignedLayout(input, c);
            && HDR_4SA <= |b| && UsableLut(lut, maxLen)
            && var from, size := AlignedOffset(b, s), ReadU24(b, 3 * s);
               && from % 4 == 0 && from + size <= |b|
               && TableDecode(lut, maxLen, b[from..from + size], 0, |Part(4, input, s)|)
                  == Decoded(Part(4, input, s), true)
  {
    hide Decodable, IsDualLut, TableDecode, ReadU24, AlignedOffset, Part, AlignedLayout, PaddedStreams,
         StreamOf, Encoded, Codable, SizesFit, StoredFit, UsableLut;
    DecodableShaped(c, maxLen);
    FitCounted(4, input, c);
    var b := AlignedLayout(input, c);
    AlignedSize(input, c, s);
    AlignedOffsetIs(input, c, s);
    AlignedSlice(input, c, s);
    PartCodable(4, input, c, s);
    DecodeEncoded(c, maxLen, lut, Part(4, input, s));
  }

  lemma PaddedNext(input: seq<byte>, c: Code, s: nat)
    requires c.Shaped() && s < 4
    ensures var e := StreamOf(4, input, c, s);
            PaddedStreams(input, c, s + 1) == PaddedStreams(input, c, s) + e + ZeroBytes(RoundUp4(|e|) - |e|)
  {
  }

  lemma AlignedSlice(input: seq<byte>, c: Code, s: nat)
    requires c.Shaped() && s < 4
    ensures var b, e := AlignedLayout(input, c), StreamOf(4, input, c, s);
            var from := HDR_4SA + |PaddedStreams(input, c, s)|;
            from + |e| <= |b| && b[from..from + |e|] == e
  {
    hide StreamOf, ZeroBytes, Sizes, RoundUp4, PaddedStreams;
    PaddedNext(input, c, s);
    var p, e := PaddedStreams(input, c, s), StreamOf(4, input, c, s);
    PaddedMono(input, c, s + 1, 4);
    var all := PaddedStreams(input, c, 4);
    assert PaddedStreams(input, c, s + 1)[|p|..|p| + |e|] == e;
    assert all[|p|..|p| + |e|] == e;
    assert AlignedLayout(input, c)[HDR_4SA + |p|..HDR_4SA + |p| + |e|] == all[|p|..|p| + |e|];
  }
}
