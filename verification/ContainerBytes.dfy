/** The container formats byte by byte: where each size and each stream stands, for a reader
    who knows the format and none of the functions it is modelled with. */
module ContainerBytes {
  import opened Numbers
  import opened Encoder
  import opened Decoder
  import opened NStreams
  import opened NStreamsDecode
  import opened AlignedStreams
  import opened Interleaved

  // ----- the streams -----

  /** Stream s encodes the s-th of N equal slices; the last one takes the remainder.  A size
      of 4 GB or more is kept modulo 2^32. */
  lemma StreamIs(N: nat, input: seq<byte>, c: Code, s: nat, start: int, end: int)
    requires 0 < N && s < N && c.Shaped() && start == s * (|input| / N)
    requires end == if s == N - 1 then |input| else (s + 1) * (|input| / N)
    ensures 0 <= start <= end <= |input|
    ensures WholeStream(N, input, c, s) == Encoded(input[start..end], c)
    ensures StreamOf(N, input, c, s)
         == Encoded(input[start..end], c)[..|Encoded(input[start..end], c)| % 0x1_0000_0000]
  {
    hide Encoded, Part;
    PartIs(N, input, s, start, end);
  }

  // ----- N streams -----

  /** The stored sizes, low byte first. */
  lemma NsHeader(N: nat, input: seq<byte>, c: Code, s: nat)
    requires c.Shaped() && s < N - 1
    requires forall t :: 0 <= t < N ==> |StreamOf(N, input, c, t)| < 0x100_0000
    ensures var b: seq<int> := NsLayout(N, input, c);
            && 3 * s + 3 <= |b|
            && |StreamOf(N, input, c, s)| == b[3 * s] + 0x100 * b[3 * s + 1] + 0x1_0000 * b[3 * s + 2]
  {
    hide StreamOf, NsLayout;
    StoredSize(N, input, c, s);
  }

  lemma {:induction false} StreamsLength(N: nat, input: seq<byte>, c: Code, sizes: seq<int>, k: nat)
    requires c.Shaped() && 0 < N == |sizes| && k <= N
    requires forall t :: 0 <= t < N ==> sizes[t] == |StreamOf(N, input, c, t)|
    ensures |Streams(N, input, c, k)| == Sum(sizes, k)
  {
    hide StreamOf;
    if k > 0 {
      StreamsLength(N, input, c, sizes, k - 1);
    }
  }

  /** The streams one after the other behind 3 * (N - 1) bytes, and nothing behind them. */
  lemma NsBody(N: nat, input: seq<byte>, c: Code, sizes: seq<int>, s: nat)
    requires c.Shaped() && s < N == |sizes|
    requires forall t :: 0 <= t < N ==> sizes[t] == |StreamOf(N, input, c, t)|
    ensures var b, hdr := NsLayout(N, input, c), 3 * (N - 1);
            && |b| == hdr + Sum(sizes, N)
            && 0 <= Sum(sizes, s) <= Sum(sizes, s + 1) <= Sum(sizes, N)
            && b[hdr + Sum(sizes, s)..hdr + Sum(sizes, s + 1)] == StreamOf(N, input, c, s)
  {
    hide StreamOf, Streams, Sizes, Sum;
    StreamsLength(N, input, c, sizes, s);
    StreamsLength(N, input, c, sizes, s + 1);
    StreamsLength(N, input, c, sizes, N);
    StreamsAt(N, input, c, N, s);
    StreamsMono(N, input, c, s, s + 1);
    var hdr := 3 * (N - 1);
    assert NsLayout(N, input, c)[hdr + Sum(sizes, s)..hdr + Sum(sizes, s + 1)]
        == Streams(N, input, c, N)[Sum(sizes, s)..Sum(sizes, s + 1)];
  }

  /** With streams below 4 GB the layout is stored exactly when there are 1 to 64 of them,
      each of less than 2^24 bytes, and the buffer holds them all. */
  lemma NsFitsIff(N: int, input: seq<byte>, c: Code, cap: nat)
    requires c.Shaped() && forall s :: 0 <= s < N ==> |WholeStream(N, input, c, s)| < 0x1_0000_0000
    ensures NsFits(N, input, c, cap) <==>
              && 1 <= N <= 64 && |NsLayout(N, input, c)| <= cap
              && forall s :: 0 <= s < N ==> |WholeStream(N, input, c, s)| < 0x100_0000
  {
    hide StreamOf, WholeStream, Streams, RoomFor;
    if N >= 1 {
      CountedFit(N, input, c);
      RoomIff(N, input, c, 3 * (N - 1), cap);
    }
  }

  // ----- reading N streams -----

  lemma {:induction false} HeaderSumIs(input: seq<byte>, sizes: seq<int>, k: nat)
    requires 3 * k <= |input| && k <= |sizes|
    requires forall t :: 0 <= t < k ==> sizes[t] == ReadU24(input, 3 * t)
    ensures HeaderSum(input, k) == Sum(sizes, k)
  {
    hide ReadU24;
    if k > 0 {
      HeaderSumIs(input, sizes, k - 1);
    }
  }

  /** For any input: the sizes are those in the header, low byte first, and for the last
      stream what is left of the total, counted in 32 bits.  The header is good when there
      are 1 to 64 streams and something is left.  Part s decodes the bytes of stream s. */
  lemma NsRead(N: nat, lut: seq<uint32>, maxLen: nat, input: seq<byte>, expected: nat, sizes: seq<int>, s: nat)
    requires UsableLut(lut, maxLen) && s < N == |sizes| && 3 * (N - 1) <= |input|
    requires var b: seq<int> := input;
             forall t :: 0 <= t < N - 1 ==>
               sizes[t] == b[3 * t] + 0x100 * b[3 * t + 1] + 0x1_0000 * b[3 * t + 2]
    requires sizes[N - 1] == (|input| - 3 * (N - 1)) % 0x1_0000_0000 - Sum(sizes, N - 1)
    ensures NsHeaderOk(N, input) <==> N <= 64 && sizes[N - 1] >= 0
    ensures NsHeaderOk(N, input) ==>
              var from, to := 3 * (N - 1) + Sum(sizes, s), 3 * (N - 1) + Sum(sizes, s + 1);
              var start, end := s * (expected / N), if s == N - 1 then expected else (s + 1) * (expected / N);
              && 0 <= from <= to <= |input| && 0 <= start <= end
              && NsStream(N, input, s) == input[from..to]
              && NsPart(N, lut, maxLen, input, expected, s) == TableDecode(lut, maxLen, input[from..to], 0, end - start)
  {
    hide TableDecode, HeaderSum, UsableLut, PartStart;
    forall t | 0 <= t < N - 1 ensures sizes[t] == ReadU24(input, 3 * t) {
    }
    HeaderSumIs(input, sizes, N - 1);
    if NsHeaderOk(N, input) {
      StreamRead(N, input, sizes, s);
      PartBounds(N, expected, s);
      NsPartIs(N, lut, maxLen, input, expected, s);
    }
  }

  lemma NsPartIs(N: nat, lut: seq<uint32>, maxLen: nat, input: seq<byte>, expected: nat, s: nat)
    requires UsableLut(lut, maxLen) && NsHeaderOk(N, input) && s < N
    ensures PartStart(N, expected, s) <= PartStart(N, expected, s + 1)
    ensures NsPart(N, lut, maxLen, input, expected, s)
         == TableDecode(lut, maxLen, NsStream(N, input, s), 0,
                        PartStart(N, expected, s + 1) - PartStart(N, expected, s))
  {
    hide UsableLut, TableDecode, NsStream, NsHeaderOk;
    PartOrder(N, expected, s, s + 1);
  }

  lemma PartBounds(N: nat, n: nat, s: nat)
    requires s < N
    ensures PartStart(N, n, s) == s * (n / N)
    ensures PartStart(N, n, s + 1) == if s == N - 1 then n else (s + 1) * (n / N)
    ensures PartStart(N, n, s) <= PartStart(N, n, s + 1)
  {
    PartOrder(N, n, s, s + 1);
  }

  lemma StreamRead(N: nat, input: seq<byte>, sizes: seq<int>, s: nat)
    requires NsHeaderOk(N, input) && s < N == |sizes|
    requires forall t :: 0 <= t < N - 1 ==> sizes[t] == ReadU24(input, 3 * t)
    requires sizes[N - 1] == (|input| - 3 * (N - 1)) % 0x1_0000_0000 - Sum(sizes, N - 1)
    ensures var from, to := 3 * (N - 1) + Sum(sizes, s), 3 * (N - 1) + Sum(sizes, s + 1);
            0 <= from <= to <= |input| && NsStream(N, input, s) == input[from..to]
  {
    hide HeaderSum, ReadU24, NsStream;
    HeaderSumIs(input, sizes, s);
    HeaderSumIs(input, sizes, N - 1);
    NextStream(N, input, s);
    SizesRead(N, input, sizes);
  }

  // ----- the aligned layout -----

  /** The four stored sizes, low byte first. */
  lemma AlignedHeader(input: seq<byte>, c: Code, s: nat)
    requires c.Shaped() && s < 4
    requires forall t :: 0 <= t < 4 ==> |StreamOf(4, input, c, t)| < 0x100_0000
    ensures var b: seq<int> := AlignedLayout(input, c);
            && 12 <= |b|
            && |StreamOf(4, input, c, s)| == b[3 * s] + 0x100 * b[3 * s + 1] + 0x1_0000 * b[3 * s + 2]
  {
    hide StreamOf, AlignedLayout;
    AlignedSize(input, c, s);
  }

  lemma {:induction false} PaddedLength(input: seq<byte>, c: Code, at: seq<int>, k: nat)
    requires c.Shaped() && k <= 4 && |at| == 5 && at[0] == 12
    requires forall t :: 0 <= t < 4 ==> at[t + 1] == at[t] + (|StreamOf(4, input, c, t)| + 3) / 4 * 4
    ensures at[k] == 12 + |PaddedStreams(input, c, k)|
  {
    hide StreamOf;
    if k > 0 {
      PaddedLength(input, c, at, k - 1);
      PaddedNext(input, c, k - 1);
    }
  }

  /** Stream s starts at a multiple of four, the first at 12 and every other where the one
      before it ends, rounded up; the bytes between them are zero, and nothing follows. */
  lemma AlignedBody(input: seq<byte>, c: Code, at: seq<int>, s: nat)
    requires c.Shaped() && s < 4 && |at| == 5 && at[0] == 12
    requires forall t :: 0 <= t < 4 ==> at[t + 1] == at[t] + (|StreamOf(4, input, c, t)| + 3) / 4 * 4
    ensures var b, e := AlignedLayout(input, c), StreamOf(4, input, c, s);
            && |b| == at[4] && 0 <= at[s] && at[s] % 4 == 0 && at[s] + |e| <= at[s + 1] <= at[4]
            && b[at[s]..at[s] + |e|] == e
            && forall x :: at[s] + |e| <= x < at[s + 1] ==> b[x] == 0
  {
    hide StreamOf, PaddedStreams, AlignedLayout;
    PaddedLength(input, c, at, s);
    PaddedLength(input, c, at, s + 1);
    PaddedLength(input, c, at, 4);
    AlignedAt(input, c, s, at[s], at[s + 1], at[4]);
  }

  lemma AlignedAt(input: seq<byte>, c: Code, s: nat, from: int, next: int, end: int)
    requires c.Shaped() && s < 4 && from == 12 + |PaddedStreams(input, c, s)|
    requires next == 12 + |PaddedStreams(input, c, s + 1)| && end == 12 + |PaddedStreams(input, c, 4)|
    ensures var b, e := AlignedLayout(input, c), StreamOf(4, input, c, s);
            && |b| == end && 0 <= from && from % 4 == 0 && from + |e| <= next <= end
            && b[from..from + |e|] == e
            && forall x :: from + |e| <= x < next ==> b[x] == 0
  {
    hide StreamOf, PaddedStreams, Sizes, RoundUp4;
    var e := StreamOf(4, input, c, s);
    var z := ZeroBytes(RoundUp4(|e|) - |e|);
    PaddedNext(input, c, s);
    PaddedMono(input, c, s + 1, 4);
    FramedSlice(Sizes(4, input, c, 4), PaddedStreams(input, c, s), e, z, PaddedStreams(input, c, 4));
    forall x | from + |e| <= x < next ensures AlignedLayout(input, c)[x] == 0 {
      FramedByte(Sizes(4, input, c, 4), PaddedStreams(input, c, s), e, z, PaddedStreams(input, c, 4), x - from - |e|);
    }
  }

  lemma FramedSlice(h: seq<byte>, p: seq<byte>, e: seq<byte>, z: seq<byte>, all: seq<byte>)
    requires p + e + z <= all
    ensures (h + all)[|h| + |p|..|h| + |p| + |e|] == e
  {
    assert all[|p|..|p| + |e|] == (p + e + z)[|p|..|p| + |e|] == e;
  }

  lemma FramedByte(h: seq<byte>, p: seq<byte>, e: seq<byte>, z: seq<byte>, all: seq<byte>, y: nat)
    requires p + e + z <= all && y < |z|
    ensures (h + all)[|h| + |p| + |e| + y] == z[y]
  {
    assert all[|p| + |e| + y] == (p + e + z)[|p| + |e| + y];
  }

  // ----- the interleaved layout -----

  /** The four stored sizes, low byte first. */
  lemma InterleavedHeader(input: seq<byte>, c: Code, s: nat)
    requires c.Shaped() && s < 4
    requires forall t :: 0 <= t < 4 ==> |StreamOf(4, input, c, t)| < 0x100_0000
    ensures var b: seq<int> := InterleavedLayout(input, c);
            && 12 <= |b|
            && |StreamOf(4, input, c, s)| == b[3 * s] + 0x100 * b[3 * s + 1] + 0x1_0000 * b[3 * s + 2]
  {
    hide StreamOf, InterleavedLayout;
    InterleavedSize(input, c, s);
  }

  lemma {:induction false} MaxWordsReached(input: seq<byte>, c: Code, k: nat)
    requires c.Shaped() && k <= 4 && MaxWords(input, c, k) > 0
    ensures exists s :: 0 <= s < k && (|StreamOf(4, input, c, s)| + 3) / 4 == MaxWords(input, c, k)
  {
    hide StreamOf;
    if (|StreamOf(4, input, c, k - 1)| + 3) / 4 != MaxWords(input, c, k) {
      MaxWordsReached(input, c, k - 1);
    }
  }

  /** As many rows of 16 bytes as the longest stream has words. */
  lemma InterleavedLength(input: seq<byte>, c: Code)
    requires c.Shaped()
    ensures var rows := (|InterleavedLayout(input, c)| - 12) / 16;
            && |InterleavedLayout(input, c)| == 12 + 16 * rows
            && (forall s :: 0 <= s < 4 ==> |StreamOf(4, input, c, s)| <= 4 * rows)
            && (rows > 0 ==> exists s :: 0 <= s < 4 && |StreamOf(4, input, c, s)| > 4 * (rows - 1))
  {
    hide StreamOf, Payload, Sizes, MaxWords;
    var m := MaxWords(input, c, 4);
    forall s | 0 <= s < 4 ensures |StreamOf(4, input, c, s)| <= 4 * m {
      assert Words(|StreamOf(4, input, c, s)|) <= m;
    }
    if m > 0 {
      MaxWordsReached(input, c, 4);
    }
  }

  /** Row w holds word w of each stream in turn; a stream that has ended gives zeros. */
  lemma InterleavedByte(input: seq<byte>, c: Code, w: nat, s: nat, j: nat)
    requires c.Shaped() && s < 4 && j < 4 && 12 + 16 * (w + 1) <= |InterleavedLayout(input, c)|
    ensures InterleavedLayout(input, c)[12 + 16 * w + 4 * s + j]
         == if 4 * w + j < |StreamOf(4, input, c, s)| then StreamOf(4, input, c, s)[4 * w + j] else 0
  {
    hide StreamOf, Sizes, MaxWords, PayloadByte;
    var streams, i := AllStreams(input, c), 16 * w + 4 * s + j;
    PayloadWord(streams, w, s, i);
    assert InterleavedLayout(input, c)[12 + i] == PayloadByte(streams, i);
    assert streams[s] == StreamOf(4, input, c, s);
  }

  /** With streams below 4 GB the layout is stored exactly when each stream has less than
      2^24 bytes and at most 64 more than twice its part, and the buffer holds the layout. */
  lemma InterleavedFitsIff(input: seq<byte>, c: Code, cap: nat)
    requires c.Shaped() && forall s :: 0 <= s < 4 ==> |WholeStream(4, input, c, s)| < 0x1_0000_0000
    ensures InterleavedFits(input, c, cap) <==>
              && |InterleavedLayout(input, c)| <= cap
              && forall s :: 0 <= s < 4 ==>
                   |WholeStream(4, input, c, s)| < 0x100_0000
                   && |WholeStream(4, input, c, s)| <= 2 * |Part(4, input, s)| + 64
  {
    hide StreamOf, WholeStream, Part;
    CountedFit(4, input, c);
  }

  // ----- reading the interleaved layout -----

  /** For any input: part s decodes as many bytes as its stored size, low byte first, taken
      from its word of each row; nothing when there are too few rows. */
  lemma InterleavedRead(lut: seq<uint32>, maxLen: nat, input: seq<byte>, expected: nat, s: nat, t: seq<byte>)
    requires UsableLut(lut, maxLen) && 12 <= |input| && s < 4
    requires var b: seq<int> := input;
             |t| == b[3 * s] + 0x100 * b[3 * s + 1] + 0x1_0000 * b[3 * s + 2]
    requires forall j :: 0 <= j < |t| && 12 + 16 * (j / 4) + 4 * s + j % 4 < |input| ==>
               t[j] == input[12 + 16 * (j / 4) + 4 * s + j % 4]
    ensures SiPart(lut, maxLen, input, expected, s)
         == if (|t| + 3) / 4 <= (|input| - 12) / 16 % 0x1_0000_0000 then
              var start, end := s * (expected / 4), if s == 3 then expected else (s + 1) * (expected / 4);
              TableDecode(lut, maxLen, t, 0, end - start)
            else Decoded([], false)
  {
    hide UsableLut, TableDecode, PartStart;
    assert ReadU24(input, 3 * s) == |t|;
    PartBounds(4, expected, s);
    if StreamPresent(input, s) {
      forall j: nat | j < |t| ensures Gathered(input, s)[j] == t[j] {
        GatheredByte(input, s, j / 4, j % 4);
      }
      assert Gathered(input, s)[..|t|] == t;
    }
  }
}
