/** How large the containers get: the overhead over a single stream, and buffers that are
    always large enough. */
module Capacity {
  import opened Numbers
  import opened Bits
  import opened Encoder
  import opened RoundTrip
  import opened NStreams
  import opened NStreamsDecode
  import opened AlignedStreams
  import opened Interleaved

  // ----- against a single stream -----

  /** Every stream wastes at most seven bits of padding. */
  lemma {:induction false} StreamsBits(N: nat, input: seq<byte>, c: Code, k: nat)
    requires 0 < N && k <= N && c.Shaped() && StreamsCounted(N, input, c)
    ensures PartStart(N, |input|, k) <= |input|
    ensures var b := |CodeBits(input[..PartStart(N, |input|, k)], c)|;
            b <= 8 * |Streams(N, input, c, k)| <= b + 7 * k
  {
    hide CodeBits, PartStart, Pack, Part, StreamOf;
    CountedFit(N, input, c);
    PartOrder(N, |input|, k, N);
    PartEnds(N, |input|);
    if k == 0 {
      NoCodes(input, c);
    } else {
      StreamsBits(N, input, c, k - 1);
      PartOrder(N, |input|, k - 1, k);
      PartsJoin(N, input, k - 1, input[..PartStart(N, |input|, k - 1)]);
      CodeBitsConcat(input[..PartStart(N, |input|, k - 1)], Part(N, input, k - 1), c);
    }
  }

  /** N streams cost their header and at most one byte for each further stream. */
  lemma LayoutOverhead(N: nat, input: seq<byte>, c: Code)
    requires 0 < N && c.Shaped() && StreamsCounted(N, input, c)
    ensures |Encoded(input, c)| + 3 * (N - 1) <= |NsLayout(N, input, c)| <= |Encoded(input, c)| + 4 * (N - 1)
  {
    hide CodeBits, Pack, Streams, Sizes;
    StreamsBits(N, input, c, N);
    PartEnds(N, |input|);
    assert input[..|input|] == input;
  }

  /** Every byte costs a bit or more, so four streams of 24-bit sizes hold less than 2^29
      bytes, and the single stream is then no problem for an int either. */
  lemma FourStreamsLimit(input: seq<byte>, c: Code)
    requires c.Shaped() && Codable(input, c) && SizesFit(4, input, c)
    ensures |input| < 0x2000_0000 && |Encoded(input, c)| <= INT_MAX
  {
    hide CodeBits, Pack, Streams, Sizes, SizesFit, StoredFit, WholeStream, StreamOf;
    FitCounted(4, input, c);
    LayoutOverhead(4, input, c);
    StreamsBound(4, input, c, 4);
    EveryByteCosts(input, c);
  }

  lemma {:induction false} EveryByteCosts(src: seq<byte>, c: Code)
    requires c.Shaped() && Codable(src, c)
    ensures |CodeBits(src, c)| >= |src|
  {
    if src != [] {
      EveryByteCosts(src[..|src| - 1], c);
    }
  }

  // ----- buffers that suffice -----

  predicate ShortCodes(c: Code) {
    c.Shaped() && forall s :: 0 <= s < SYMBOLS ==> c.lens[s] <= 16
  }

  /** A part is its share of the input, and the last one the remainder as well. */
  lemma PartSize(N: nat, input: seq<byte>, s: nat)
    requires 0 < N && s < N
    ensures |Part(N, input, s)| <= |input| / N + N - 1
  {
    var n, q := |input|, |input| / N;
    assert n == q * N + n % N;
    assert (s + 1) * q == s * q + q;
    if s == N - 1 {
      assert (N - 1) * q == q * N - q;
    }
  }

  lemma StreamSize(N: nat, input: seq<byte>, c: Code, s: nat)
    requires 0 < N && s < N && ShortCodes(c)
    ensures |WholeStream(N, input, c, s)| <= 2 * (|input| / N + N - 1)
  {
    hide Encoded, Part;
    PartSize(N, input, s);
    EncodedFits(Part(N, input, s), c);
  }

  lemma StreamSizes(N: nat, input: seq<byte>, c: Code)
    requires 0 < N && ShortCodes(c) && 2 * (|input| / N + N - 1) < U24_LIMIT
    ensures SizesFit(N, input, c)
  {
    hide WholeStream;
    forall s | 0 <= s < N ensures |WholeStream(N, input, c, s)| < U24_LIMIT {
      StreamSize(N, input, c, s);
    }
  }

  lemma ShortCounted(N: nat, input: seq<byte>, c: Code)
    requires 0 < N && ShortCodes(c) && 2 * (|input| / N + N - 1) < U32_LIMIT
    ensures StreamsCounted(N, input, c)
  {
    hide WholeStream;
    forall s | 0 <= s < N ensures |WholeStream(N, input, c, s)| < U32_LIMIT {
      StreamSize(N, input, c, s);
    }
  }

  /** Below 1 GB no code whatever makes a stream of 4 GB. */
  lemma CountedBelow1G(N: nat, input: seq<byte>, c: Code)
    requires c.Shaped() && |input| < 0x4000_0000
    ensures StreamsCounted(N, input, c)
  {
    hide Part, CodeBits, Pack;
    forall s | 0 <= s < N ensures |WholeStream(N, input, c, s)| < U32_LIMIT {
      PartOrder(N, |input|, 0, s);
      PartOrder(N, |input|, s, s + 1);
      PartOrder(N, |input|, s + 1, N);
      CodeBitsWithin(Part(N, input, s), c);
    }
  }

  lemma {:induction false} CodeBitsWithin(src: seq<byte>, c: Code)
    requires c.Shaped()
    ensures |CodeBits(src, c)| <= 31 * |src|
  {
    if src != [] {
      CodeBitsWithin(src[..|src| - 1], c);
    }
  }

  /** Twice the input, the header and a byte for each further stream always suffice, as
      long as every size fits its 24 bits. */
  lemma NsCapacity(N: nat, input: seq<byte>, c: Code, cap: nat)
    requires 0 < N <= MAX_STREAMS && ShortCodes(c) && SizesFit(N, input, c)
    requires 2 * |input| + 4 * (N - 1) <= cap
    ensures NsFits(N, input, c, cap)
  {
    hide StreamOf, WholeStream, Encoded, Sizes, Streams, SizesFit, StoredFit;
    EncodedFits(input, c);
    FitCounted(N, input, c);
    LayoutOverhead(N, input, c);
    RoomIff(N, input, c, 3 * (N - 1), cap);
  }

  lemma {:induction false} PaddedSize(input: seq<byte>, c: Code, k: nat)
    requires k <= 4 && ShortCodes(c) && StreamsCounted(4, input, c)
    ensures PartStart(4, |input|, k) >= 0
    ensures |PaddedStreams(input, c, k)| <= 2 * PartStart(4, |input|, k) + 3 * k
  {
    hide StreamOf, Encoded, Part, ZeroBytes, RoundUp4;
    CountedFit(4, input, c);
    if k > 0 {
      PaddedSize(input, c, k - 1);
      EncodedFits(Part(4, input, k - 1), c);
    }
  }

  lemma AlignedCapacity(input: seq<byte>, c: Code, cap: nat)
    requires ShortCodes(c) && SizesFit(4, input, c) && 2 * |input| + 24 <= cap
    ensures AlignedFits(input, c, cap)
  {
    hide StreamOf, WholeStream, PaddedStreams, StoredFit;
    FitCounted(4, input, c);
    PaddedSize(input, c, 4);
    AlignedFitsIff(input, c, cap);
  }

  /** With codes of at most 16 bits the temporaries never overflow. */
  lemma TempsAlwaysFit(input: seq<byte>, c: Code)
    requires ShortCodes(c)
    ensures TempsFit(input, c)
  {
    hide Encoded, Part;
    forall s | 0 <= s < 4 ensures |WholeStream(4, input, c, s)| <= 2 * |Part(4, input, s)| + 64 {
      EncodedFits(Part(4, input, s), c);
    }
  }

  lemma {:induction false} MaxWordsSize(input: seq<byte>, c: Code, k: nat)
    requires k <= 4 && ShortCodes(c)
    ensures MaxWords(input, c, k) <= Words(2 * (|input| / 4 + 3))
  {
    hide StreamOf, WholeStream;
    if k > 0 {
      KeptSize(4, input, c, k - 1);
      MaxWordsSize(input, c, k - 1);
      StreamSize(4, input, c, k - 1);
    }
  }

  lemma InterleavedCapacity(input: seq<byte>, c: Code, cap: nat)
    requires ShortCodes(c) && SizesFit(4, input, c) && 2 * |input| + 48 <= cap
    ensures InterleavedFits(input, c, cap)
  {
    hide StreamOf, MaxWords, SizesFit, StoredFit, TempsFit;
    FitCounted(4, input, c);
    TempsAlwaysFit(input, c);
    MaxWordsSize(input, c, 4);
  }
}
