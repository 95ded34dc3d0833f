/** N streams behind a header of N - 1 sizes: the input is cut into N contiguous parts,
    every part is encoded on its own, and the last size follows from the total. */
module NStreams {
  import opened Numbers
  import opened Encoder

  const MAX_STREAMS: nat := 64
  const U24_LIMIT: nat := 0x100_0000

  // ----- the split -----

  /** Where part s of n bytes starts; part N starts, so to speak, at the end. */
  function PartStart(N: nat, n: nat, s: nat): nat
    requires 0 < N && s <= N
  {
    if s == N then n else s * (n / N)
  }

  lemma PartOrder(N: nat, n: nat, s: nat, t: nat)
    requires 0 < N && s <= t <= N
    ensures PartStart(N, n, s) <= PartStart(N, n, t) <= n
  {
    var q := n / N;
    assert q >= 0 && q * N <= n by { DivNat(n, N); assert n == q * N + n % N; }
    MulMono(s, t, q);
    MulMono(t, N, q);
    assert N * q == q * N;
  }

  function Part(N: nat, input: seq<byte>, s: nat): (p: seq<byte>)
    requires 0 < N && s < N
    ensures |p| == PartStart(N, |input|, s + 1) - PartStart(N, |input|, s)
  {
    PartOrder(N, |input|, s, s + 1);
    PartOrder(N, |input|, s + 1, N);
    input[PartStart(N, |input|, s)..PartStart(N, |input|, s + 1)]
  }

  // ----- the layout -----

  lemma KeptSize(N: nat, input: seq<byte>, c: Code, s: nat)
    requires 0 < N && s < N && c.Shaped()
    ensures |StreamOf(N, input, c, s)| <= |WholeStream(N, input, c, s)|
  {
    hide WholeStream;
  }

  function WholeStream(N: nat, input: seq<byte>, c: Code, s: nat): seq<byte>
    requires 0 < N && s < N && c.Shaped()
  {
    Encoded(Part(N, input, s), c)
  }

  /** What the layouts keep of a stream: all of it, unless its size of 4 GB or more starts
      again at 0 in the cast to int. */
  function StreamOf(N: nat, input: seq<byte>, c: Code, s: nat): (e: seq<byte>)
    requires 0 < N && s < N && c.Shaped()
  {
    var e := WholeStream(N, input, c, s);
    e[..|e| % U32_LIMIT]
  }

  /** The first k encoded parts in a row. */
  function Streams(N: nat, input: seq<byte>, c: Code, k: nat): seq<byte>
    requires 0 < N && k <= N && c.Shaped()
  {
    if k == 0 then [] else Streams(N, input, c, k - 1) + StreamOf(N, input, c, k - 1)
  }

  /** Three bytes, low byte first. */
  function U24(v: nat): (b: seq<byte>)
    ensures |b| == 3
  {
    [v % 0x100, v / 0x100 % 0x100, v / 0x1_0000 % 0x100]
  }

  function ReadU24(b: seq<byte>, i: nat): (v: nat)
    requires i + 3 <= |b|
    ensures v < U24_LIMIT
  {
    var b0: nat, b1: nat, b2: nat := b[i], b[i + 1], b[i + 2];
    b0 + b1 * 0x100 + b2 * 0x1_0000
  }

  lemma ReadU24Back(v: nat, b: seq<byte>, i: nat)
    requires v < U24_LIMIT && i + 3 <= |b| && b[i..i + 3] == U24(v)
    ensures ReadU24(b, i) == v
  {
    assert b[i] == b[i..i + 3][0] && b[i + 1] == b[i..i + 3][1] && b[i + 2] == b[i..i + 3][2];
  }

  /** The sizes of the first k streams, three bytes each. */
  function Sizes(N: nat, input: seq<byte>, c: Code, k: nat): (h: seq<byte>)
    requires 0 < N && k <= N && c.Shaped()
    ensures |h| == 3 * k
  {
    if k == 0 then [] else Sizes(N, input, c, k - 1) + U24(|StreamOf(N, input, c, k - 1)|)
  }

  function NsLayout(N: nat, input: seq<byte>, c: Code): seq<byte>
    requires 0 < N && c.Shaped()
  {
    Sizes(N, input, c, N - 1) + Streams(N, input, c, N)
  }

  /** Every stream size fits its three bytes. */
  predicate SizesFit(N: nat, input: seq<byte>, c: Code)
    requires 0 < N && c.Shaped()
  {
    forall s :: 0 <= s < N ==> |WholeStream(N, input, c, s)| < U24_LIMIT
  }

  /** Every size fits as the encoders see it, after the cast. */
  predicate StoredFit(N: nat, input: seq<byte>, c: Code)
    requires 0 < N && c.Shaped()
  {
    forall s :: 0 <= s < N ==> |StreamOf(N, input, c, s)| < U24_LIMIT
  }

  /** No stream reaches 4 GB. */
  predicate StreamsCounted(N: int, input: seq<byte>, c: Code)
    requires c.Shaped()
  {
    forall s :: 0 <= s < N ==> |WholeStream(N, input, c, s)| < U32_LIMIT
  }

  lemma WholeIsKept(N: nat, input: seq<byte>, c: Code, s: nat)
    requires 0 < N && s < N && c.Shaped() && |WholeStream(N, input, c, s)| < U32_LIMIT
    ensures StreamOf(N, input, c, s) == WholeStream(N, input, c, s)
  {
    hide WholeStream;
  }

  /** Below 4 GB for each stream the cast changes nothing. */
  lemma CountedFit(N: nat, input: seq<byte>, c: Code)
    requires 0 < N && c.Shaped() && StreamsCounted(N, input, c)
    ensures SizesFit(N, input, c) <==> StoredFit(N, input, c)
    ensures forall s :: 0 <= s < N ==> StreamOf(N, input, c, s) == WholeStream(N, input, c, s)
  {
    hide WholeStream, StreamOf;
    forall s | 0 <= s < N ensures StreamOf(N, input, c, s) == WholeStream(N, input, c, s) {
      WholeIsKept(N, input, c, s);
    }
  }

  lemma FitCounted(N: nat, input: seq<byte>, c: Code)
    requires 0 < N && c.Shaped() && SizesFit(N, input, c)
    ensures StreamsCounted(N, input, c) && StoredFit(N, input, c)
    ensures forall s :: 0 <= s < N ==> StreamOf(N, input, c, s) == WholeStream(N, input, c, s)
  {
    hide WholeStream, StreamOf;
    CountedFit(N, input, c);
  }

  /** Every stream finds room behind the ones before it. */
  predicate RoomFor(N: nat, input: seq<byte>, c: Code, hdr: nat, cap: nat)
    requires 0 < N && c.Shaped()
  {
    forall s :: 0 <= s < N ==> hdr + |Streams(N, input, c, s)| + |WholeStream(N, input, c, s)| <= cap
  }

  /** No part is one byte short of a multiple of 4 GB, whose cast to int is the error code. */
  predicate PartsCounted(N: int, n: nat) {
    forall s :: 0 <= s < N ==> (PartStart(N, n, s + 1) - PartStart(N, n, s)) % U32_LIMIT != U32_LIMIT - 1
  }

  lemma PartsCountedBelow4G(N: int, n: nat)
    requires n < U32_LIMIT - 1
    ensures PartsCounted(N, n)
  {
    forall s | 0 <= s < N ensures (PartStart(N, n, s + 1) - PartStart(N, n, s)) % U32_LIMIT != U32_LIMIT - 1 {
      PartOrder(N, n, 0, s);
      PartOrder(N, n, s, s + 1);
      PartOrder(N, n, s + 1, N);
    }
  }

  predicate NsFits(N: int, input: seq<byte>, c: Code, cap: nat)
    requires c.Shaped()
  {
    && 1 <= N <= MAX_STREAMS && StoredFit(N, input, c)
    && |NsLayout(N, input, c)| <= cap && RoomFor(N, input, c, 3 * (N - 1), cap)
  }

  /** Room for every stream is room for the layout. */
  lemma RoomForLayout(N: nat, input: seq<byte>, c: Code, hdr: nat, cap: nat)
    requires 0 < N && c.Shaped() && RoomFor(N, input, c, hdr, cap)
    ensures hdr + |Streams(N, input, c, N)| <= cap
  {
    hide StreamOf, WholeStream;
    KeptSize(N, input, c, N - 1);
    assert |Streams(N, input, c, N)| == |Streams(N, input, c, N - 1)| + |StreamOf(N, input, c, N - 1)|;
  }

  /** With streams below 4 GB there is room exactly when the whole layout fits. */
  lemma RoomIff(N: nat, input: seq<byte>, c: Code, hdr: nat, cap: nat)
    requires 0 < N && c.Shaped() && StreamsCounted(N, input, c)
    ensures RoomFor(N, input, c, hdr, cap) <==> hdr + |Streams(N, input, c, N)| <= cap
  {
    hide StreamOf, WholeStream;
    CountedFit(N, input, c);
    forall s | 0 <= s < N
      ensures hdr + |Streams(N, input, c, s)| + |WholeStream(N, input, c, s)| <= hdr + |Streams(N, input, c, N)|
    {
      StreamsMono(N, input, c, s + 1, N);
    }
  }

  lemma {:induction false} StreamsMono(N: nat, input: seq<byte>, c: Code, j: nat, k: nat)
    requires 0 < N && j <= k <= N && c.Shaped()
    ensures |Streams(N, input, c, j)| <= |Streams(N, input, c, k)|
    decreases k
  {
    hide StreamOf;
    if j < k {
      StreamsMono(N, input, c, j, k - 1);
    }
  }

  // ----- encoding -----

  method PutU24(out: array<byte>, i: nat, v: nat)
    requires i + 3 <= out.Length
    modifies out
    ensures out[i..i + 3] == U24(v)
    ensures forall k :: 0 <= k < out.Length && !(i <= k < i + 3) ==> out[k] == old(out[k])
  {
    out[i] := v % 0x100;
    out[i + 1] := v / 0x100 % 0x100;
    out[i + 2] := v / 0x1_0000 % 0x100;
  }

  /** The streams below s stand behind the header and all of them have storable sizes. */
  ghost predicate Stored(N: nat, input: seq<byte>, c: Code, out: seq<byte>, hdr: nat, written: nat,
                         sizes: seq<nat>, s: nat)
    requires 0 < N && s <= N && c.Shaped()
  {
    && hdr <= written <= |out| && s <= |sizes|
    && written == hdr + |Streams(N, input, c, s)|
    && out[hdr..written] == Streams(N, input, c, s)
    && forall t :: 0 <= t < s ==>
         sizes[t] == |StreamOf(N, input, c, t)| && |StreamOf(N, input, c, t)| < U24_LIMIT
  }

  lemma StoredNext(N: nat, input: seq<byte>, c: Code, out: seq<byte>, out': seq<byte>, hdr: nat, written: nat,
                   sizes: seq<nat>, s: nat, sz: nat)
    requires 0 < N && s < N && c.Shaped() && Stored(N, input, c, out, hdr, written, sizes, s)
    requires s < |sizes| && |out'| == |out| && written + sz <= |out|
    requires sz == |StreamOf(N, input, c, s)| < U24_LIMIT
    requires out'[written..written + sz] == StreamOf(N, input, c, s)
    requires forall i :: 0 <= i < written ==> out'[i] == out[i]
    ensures Stored(N, input, c, out', hdr, written + sz, sizes[s := sz], s + 1)
  {
    hide StreamOf;
    assert out'[hdr..written] == out[hdr..written];
    assert out'[hdr..written + sz] == out'[hdr..written] + out'[written..written + sz];
  }

  /** One stream of the encoding loop: huff_encode into the rest of the buffer, then the
      24-bit size check. */
  method PutStream(N: nat, input: seq<byte>, c: Code, out: array<byte>, cap: nat, ghost hdr: nat,
                   written: nat, sizes: array<nat>, s: nat, part: seq<byte>)
    returns (r: int)
    requires 0 < N && s < N && s < sizes.Length && c.Shaped()
    requires written <= cap <= out.Length && part == Part(N, input, s)
    requires Stored(N, input, c, out[..], hdr, written, sizes[..], s)
    modifies out, sizes
    ensures r == if |StreamOf(N, input, c, s)| < U24_LIMIT && written + |WholeStream(N, input, c, s)| <= cap
                 then |StreamOf(N, input, c, s)| else -1
    ensures r >= 0 ==> written + r <= cap && Stored(N, input, c, out[..], hdr, written + r, sizes[..], s + 1)
    ensures forall i :: 0 <= i < out.Length && !(written <= i < cap) ==> out[i] == old(out[i])
  {
    hide Stored, Encoded, Part;
    ghost var before, sizesBefore := out[..], sizes[..];
    CIntSmall(|WholeStream(N, input, c, s)|, U24_LIMIT);
    var sz := HuffEncode(part, c, out, written, cap - written);
    if sz < 0 {
      return -1;
    }
    if sz >= U24_LIMIT {
      return -1;
    }
    var size: nat := sz;
    sizes[s] := size;
    assert out[written..written + |WholeStream(N, input, c, s)|][..size] == out[written..written + size];
    assert sizes[..] == sizesBefore[s := size];
    StoredNext(N, input, c, before, out[..], hdr, written, sizesBefore, s, size);
    return sz;
  }

  ghost predicate RoomBelow(N: nat, input: seq<byte>, c: Code, hdr: nat, cap: nat, k: nat)
    requires 0 < N && k <= N && c.Shaped()
  {
    forall s :: 0 <= s < k ==> hdr + |Streams(N, input, c, s)| + |WholeStream(N, input, c, s)| <= cap
  }

  /** Encodes all parts behind hdr bytes; sizes records the stream sizes. */
  method PutStreams(N: nat, input: seq<byte>, c: Code, out: array<byte>, cap: nat, hdr: nat, sizes: array<nat>)
    returns (r: int)
    requires 0 < N && c.Shaped() && hdr <= cap <= out.Length && N <= sizes.Length
    modifies out, sizes
    ensures r == if StoredFit(N, input, c) && RoomFor(N, input, c, hdr, cap)
                 then hdr + |Streams(N, input, c, N)| else -1
    ensures r >= 0 ==> Stored(N, input, c, out[..], hdr, r, sizes[..], N)
    ensures forall i :: 0 <= i < out.Length && !(hdr <= i < cap) ==> out[i] == old(out[i])
  {
    hide StreamOf, WholeStream, Part;
    var written := hdr;
    var q := |input| / N;
    for s := 0 to N
      invariant hdr <= written <= cap && Stored(N, input, c, out[..], hdr, written, sizes[..], s)
      invariant RoomBelow(N, input, c, hdr, cap, s)
      invariant forall i :: 0 <= i < out.Length && !(hdr <= i < cap) ==> out[i] == old(out[i])
    {
      var start := s * q;
      var end := if s == N - 1 then |input| else (s + 1) * q;
      PartIs(N, input, s, start, end);
      var sz := PutStream(N, input, c, out, cap, hdr, written, sizes, s, input[start..end]);
      if sz < 0 {
        return -1;
      }
      written := written + sz;
    }
    return written;
  }

  lemma PartIs(N: nat, input: seq<byte>, s: nat, start: int, end: int)
    requires 0 < N && s < N && start == s * (|input| / N)
    requires end == if s == N - 1 then |input| else (s + 1) * (|input| / N)
    ensures 0 <= start <= end <= |input| && input[start..end] == Part(N, input, s)
  {
    PartOrder(N, |input|, s, s + 1);
    PartOrder(N, |input|, s + 1, N);
    PartOrder(N, |input|, 0, s);
    assert PartStart(N, |input|, s) == start && PartStart(N, |input|, s + 1) == end;
  }

  method PutSizes(N: nat, input: seq<byte>, c: Code, out: array<byte>, sizes: array<nat>, k: nat)
    requires 0 < N && k <= N && c.Shaped() && 3 * k <= out.Length && k <= sizes.Length
    requires forall s :: 0 <= s < k ==> sizes[s] == |StreamOf(N, input, c, s)|
    modifies out
    ensures out[..3 * k] == Sizes(N, input, c, k)
    ensures forall i :: 3 * k <= i < out.Length ==> out[i] == old(out[i])
  {
    hide StreamOf, U24;
    for s := 0 to k
      invariant out[..3 * s] == Sizes(N, input, c, s)
      invariant forall i :: 3 * k <= i < out.Length ==> out[i] == old(out[i])
    {
      ghost var before := out[..3 * s];
      PutU24(out, 3 * s, sizes[s]);
      assert out[..3 * s] == before;
      assert out[..3 * (s + 1)] == before + out[3 * s..3 * s + 3];
    }
  }

  lemma WrappedHeader(N: int)
    requires -0x8000_0000 < N <= INT_MAX
    ensures (N - 1) * 3 % U64_LIMIT == if N >= 1 then (N - 1) * 3 else U64_LIMIT + (N - 1) * 3
  {
  }

  /** The header goes in front of the finished streams. */
  method FinishLayout(N: nat, input: seq<byte>, c: Code, out: array<byte>, sizes: array<nat>, hdr: nat, r: nat)
    requires 0 < N <= sizes.Length && c.Shaped() && hdr == 3 * (N - 1) && r <= out.Length
    requires Stored(N, input, c, out[..], hdr, r, sizes[..], N)
    modifies out
    ensures r == |NsLayout(N, input, c)| && out[..r] == NsLayout(N, input, c)
    ensures forall i :: r <= i < out.Length ==> out[i] == old(out[i])
  {
    hide StreamOf, Sizes;
    ghost var body := out[hdr..r];
    assert body == out[..][hdr..r];
    forall s | 0 <= s < N - 1 ensures sizes[s] == |StreamOf(N, input, c, s)| {
      assert sizes[..][s] == |StreamOf(N, input, c, s)|;
    }
    PutSizes(N, input, c, out, sizes, N - 1);
    assert out[hdr..r] == body;
    assert out[..r] == out[..hdr] + out[hdr..r];
  }

  /** huff_encode_ns.  The header size is computed in size_t, so a count below 1 wraps to
      a header that fits no buffer. */
  method HuffEncodeNs(N: int, input: seq<byte>, c: Code, out: array<byte>, cap: nat) returns (r: int)
    requires -0x8000_0000 < N <= INT_MAX && cap < 0x8000_0000_0000_0000
    requires c.Shaped() && cap <= out.Length
    modifies out
    ensures r == if NsFits(N, input, c, cap) then |NsLayout(N, input, c)| else -1
    ensures r >= 0 ==> out[..r] == NsLayout(N, input, c)
    ensures forall i :: cap <= i < out.Length ==> out[i] == old(out[i])
  {
    hide StreamOf, WholeStream, Stored, Streams, RoomFor, StoredFit;
    WrappedHeader(N);
    var hdr: uint64 := (N - 1) * 3 % U64_LIMIT;
    if cap < hdr {
      return -1;
    }
    if N > MAX_STREAMS {
      return -1;
    }
    var sizes := new nat[MAX_STREAMS];
    var written := PutStreams(N, input, c, out, cap, hdr, sizes);
    if RoomFor(N, input, c, hdr, cap) {
      RoomForLayout(N, input, c, hdr, cap);
    }
    if written < 0 {
      return -1;
    }
    FinishLayout(N, input, c, out, sizes, hdr, written);
    LayoutSmall(N, input, c);
    return CInt(written);
  }

  lemma {:induction false} StreamsBound(N: nat, input: seq<byte>, c: Code, k: nat)
    requires 0 < N && k <= N && c.Shaped() && StoredFit(N, input, c)
    ensures |Streams(N, input, c, k)| <= k * (U24_LIMIT - 1)
  {
    hide StreamOf;
    if k > 0 {
      StreamsBound(N, input, c, k - 1);
    }
  }

  /** The size of a stored layout survives the cast to int. */
  lemma LayoutSmall(N: nat, input: seq<byte>, c: Code)
    requires 0 < N <= MAX_STREAMS && c.Shaped() && StoredFit(N, input, c)
    ensures |NsLayout(N, input, c)| <= INT_MAX
  {
    hide StreamOf;
    StreamsBound(N, input, c, N);
  }

  const HDR_4S: nat := 9

  /** huff_encode_4s, with its own table of the five boundaries. */
  method HuffEncode4s(input: seq<byte>, c: Code, out: array<byte>, cap: nat) returns (r: int)
    requires c.Shaped() && cap <= out.Length
    modifies out
    ensures r == if NsFits(4, input, c, cap) then |NsLayout(4, input, c)| else -1
    ensures r >= 0 ==> out[..r] == NsLayout(4, input, c)
    ensures forall i :: cap <= i < out.Length ==> out[i] == old(out[i])
  {
    hide StreamOf, WholeStream, Part;
    if cap < HDR_4S {
      return -1;
    }
    var q := |input| / 4;
    var boundaries := [0, q, 2 * q, 3 * q, |input|];
    var sizes := new nat[4];
    var written := HDR_4S;
    for s := 0 to 4
      invariant HDR_4S <= written <= cap && Stored(4, input, c, out[..], HDR_4S, written, sizes[..], s)
      invariant RoomBelow(4, input, c, HDR_4S, cap, s)
      invariant forall i :: cap <= i < out.Length ==> out[i] == old(out[i])
    {
      PartIs(4, input, s, boundaries[s], boundaries[s + 1]);
      var sz := PutStream(4, input, c, out, cap, HDR_4S, written, sizes, s, input[boundaries[s]..boundaries[s + 1]]);
      if sz < 0 {
        return -1;
      }
      written := written + sz;
    }
    FinishLayout(4, input, c, out, sizes, HDR_4S, written);
    LayoutSmall(4, input, c);
    return CInt(written);
  }
}
