/** Transcoding the 32 sub-streams of a chunk into word-interleaved rows followed by the
    tails, chunk after chunk into one sized buffer. */
module BilTranscode {
  import opened Numbers
  import opened OutputSlots
  import opened Spans

  const HEADER: nat := 128
  const NO_WORDS: uint32 := 0xFFFF_FFFF

  /** Where a chunk's size header ends, and where its sub-streams start. */
  datatype ChunkDesc = ChunkDesc(srcOffset: uint32, afterTable: uint32)

  // ----- sizes -----

  /** The stored size of sub-stream l: 16 bits, low byte first, in the header at h. */
  function LaneSize(comp: seq<byte>, h: nat, l: nat): uint16
    requires h + HEADER <= |comp| && l < LANES
  {
    var lo: nat, hi: nat := comp[h + 2 * l], comp[h + 2 * l + 1];
    lo + hi * 0x100
  }

  function LaneSizes(comp: seq<byte>, h: nat): (s: seq<uint16>)
    requires h + HEADER <= |comp|
    ensures |s| == LANES
  {
    seq<uint16>(LANES, l requires 0 <= l < LANES => LaneSize(comp, h, l))
  }

  /** k is the number of whole 4-byte words that every sub-stream has. */
  ghost predicate IsMinWords(sizes: seq<uint16>, k: nat) {
    && (forall l :: 0 <= l < |sizes| ==> 4 * k <= sizes[l])
    && exists l :: 0 <= l < |sizes| && sizes[l] < 4 * (k + 1)
  }

  lemma MinWordsUnique(sizes: seq<uint16>, k: nat, k': nat)
    requires IsMinWords(sizes, k) && IsMinWords(sizes, k')
    ensures k == k'
  {
    var l :| 0 <= l < |sizes| && sizes[l] < 4 * (k + 1);
    var l' :| 0 <= l' < |sizes| && sizes[l'] < 4 * (k' + 1);
    assert 4 * k <= sizes[l'] && 4 * k' <= sizes[l];
  }

  // ----- the layout of one chunk -----

  /** Sub-streams one after the other, each with at least k words. */
  predicate LanesOk(sub: seq<byte>, sizes: seq<uint16>, k: nat) {
    && |sizes| == LANES && |sub| == Sum(sizes, LANES)
    && forall l :: 0 <= l < LANES ==> 4 * k <= sizes[l]
  }

  lemma LaneInside(sub: seq<byte>, sizes: seq<uint16>, k: nat, l: nat)
    requires LanesOk(sub, sizes, k) && l < LANES
    ensures 0 <= Sum(sizes, l) && Sum(sizes, l) + sizes[l] <= |sub|
  {
    SumNat(sizes, 0, l);
    SumNat(sizes, l + 1, LANES);
  }

  function Lane(sub: seq<byte>, sizes: seq<uint16>, k: nat, l: nat): (b: seq<byte>)
    requires LanesOk(sub, sizes, k) && l < LANES
    ensures |b| == sizes[l]
  {
    LaneInside(sub, sizes, k, l);
    sub[Sum(sizes, l)..Sum(sizes, l) + sizes[l]]
  }

  /** Byte x of the rows: byte x % 4 of word x / 128 of lane x / 4 % 32. */
  function RowByte(sub: seq<byte>, sizes: seq<uint16>, k: nat, x: nat): byte
    requires LanesOk(sub, sizes, k) && x < k * HEADER
  {
    Lane(sub, sizes, k, x / 4 % LANES)[x / HEADER * 4 + x % 4]
  }

  function Rows(sub: seq<byte>, sizes: seq<uint16>, k: nat): (b: seq<byte>)
    requires LanesOk(sub, sizes, k)
    ensures |b| == k * HEADER
  {
    seq<byte>(k * HEADER, x requires 0 <= x < k * HEADER => RowByte(sub, sizes, k, x))
  }

  /** What is left of the first n lanes after their k words. */
  function Tails(sub: seq<byte>, sizes: seq<uint16>, k: nat, n: nat): (b: seq<byte>)
    requires LanesOk(sub, sizes, k) && n <= LANES
    ensures |b| == Sum(sizes, n) - 4 * k * n
  {
    if n == 0 then [] else Tails(sub, sizes, k, n - 1) + Lane(sub, sizes, k, n - 1)[4 * k..]
  }

  /** Conservation: the rows and the tails together hold as many bytes as the sub-streams. */
  function Body(sub: seq<byte>, sizes: seq<uint16>, k: nat): (b: seq<byte>)
    requires LanesOk(sub, sizes, k)
    ensures |b| == |sub|
  {
    Rows(sub, sizes, k) + Tails(sub, sizes, k, LANES)
  }

  /** The start of tail l behind the rows, from the sizes and k alone. */
  function TailStart(sizes: seq<uint16>, k: nat, l: nat): int
    requires l <= |sizes|
  {
    k * HEADER + Sum(sizes, l) - 4 * k * l
  }

  /** Sub-stream l read out of a body, from the sizes and k alone. */
  function ReadLane(body: seq<byte>, sizes: seq<uint16>, k: nat, l: nat): (b: seq<byte>)
    requires l < LANES == |sizes| && |body| == Sum(sizes, LANES)
    requires forall m :: 0 <= m < LANES ==> 4 * k <= sizes[m]
    ensures |b| == sizes[l]
  {
    TailInside(sizes, k, l);
    seq<byte>(4 * k, j requires 0 <= j < 4 * k => body[j / 4 * HEADER + l * 4 + j % 4])
    + body[TailStart(sizes, k, l)..TailStart(sizes, k, l) + sizes[l] - 4 * k]
  }

  lemma {:induction false} TailsNat(sizes: seq<uint16>, k: nat, l: nat, n: nat)
    requires l <= n <= |sizes| && forall m :: 0 <= m < |sizes| ==> 4 * k <= sizes[m]
    ensures TailStart(sizes, k, l) <= TailStart(sizes, k, n)
    decreases n
  {
    if l < n {
      TailsNat(sizes, k, l, n - 1);
      assert 4 * k * n == 4 * k * (n - 1) + 4 * k;
    }
  }

  lemma TailInside(sizes: seq<uint16>, k: nat, l: nat)
    requires l < LANES == |sizes| && forall m :: 0 <= m < |sizes| ==> 4 * k <= sizes[m]
    ensures k * HEADER <= TailStart(sizes, k, l)
    ensures TailStart(sizes, k, l) + sizes[l] - 4 * k <= Sum(sizes, LANES)
    ensures k * HEADER <= Sum(sizes, LANES)
  {
    TailsNat(sizes, k, 0, l);
    TailsNat(sizes, k, l + 1, LANES);
    assert 4 * k * (l + 1) == 4 * k * l + 4 * k;
  }

  lemma {:induction false} TailAt(sub: seq<byte>, sizes: seq<uint16>, k: nat, n: nat, l: nat)
    requires LanesOk(sub, sizes, k) && l < n <= LANES
    ensures 0 <= |Tails(sub, sizes, k, l)| <= |Tails(sub, sizes, k, l + 1)| <= |Tails(sub, sizes, k, n)|
    ensures Tails(sub, sizes, k, n)[|Tails(sub, sizes, k, l)|..|Tails(sub, sizes, k, l + 1)|]
         == Lane(sub, sizes, k, l)[4 * k..]
  {
    hide Lane, Tails, Sum;
    var a, b := |Tails(sub, sizes, k, l)|, |Tails(sub, sizes, k, l + 1)|;
    TailsNext(sub, sizes, k, l);
    if l < n - 1 {
      TailAt(sub, sizes, k, n - 1, l);
      TailsNext(sub, sizes, k, n - 1);
      PrefixSlice(Tails(sub, sizes, k, n - 1), Lane(sub, sizes, k, n - 1)[4 * k..], a, b);
    }
  }

  lemma TailsNext(sub: seq<byte>, sizes: seq<uint16>, k: nat, n: nat)
    requires LanesOk(sub, sizes, k) && n < LANES
    ensures Tails(sub, sizes, k, n + 1) == Tails(sub, sizes, k, n) + Lane(sub, sizes, k, n)[4 * k..]
  {
  }

  lemma RowIndex(k: nat, l: nat, j: nat)
    requires j < 4 * k && l < LANES
    ensures var x := j / 4 * HEADER + l * 4 + j % 4;
            x < k * HEADER && x / 4 % LANES == l && x / HEADER * 4 + x % 4 == j
  {
    RowSlot(j / 4, l, j % 4);
  }

  lemma RowSlot(w: nat, l: nat, b: nat)
    requires l < LANES && b < 4
    ensures var x := w * HEADER + l * 4 + b; x / 4 % LANES == l && x / HEADER * 4 + x % 4 == w * 4 + b
  {
    var x := w * HEADER + l * 4 + b;
    assert x / HEADER == w && x % 4 == b && x / 4 == w * 32 + l;
  }

  lemma RowByteIs(sub: seq<byte>, sizes: seq<uint16>, k: nat, l: nat, j: nat)
    requires LanesOk(sub, sizes, k) && l < LANES && j < 4 * k
    ensures var x := j / 4 * HEADER + l * 4 + j % 4;
            x < k * HEADER && RowByte(sub, sizes, k, x) == Lane(sub, sizes, k, l)[j]
  {
    hide Lane;
    RowIndex(k, l, j);
  }

  lemma WordsBack(sub: seq<byte>, sizes: seq<uint16>, k: nat, l: nat, j: nat)
    requires LanesOk(sub, sizes, k) && l < LANES && j < 4 * k
    ensures ReadLane(Body(sub, sizes, k), sizes, k, l)[j] == Lane(sub, sizes, k, l)[j]
  {
    hide Lane, RowByte, Tails, TailStart;
    TailInside(sizes, k, l);
    RowByteIs(sub, sizes, k, l, j);
  }

  lemma TailBack(sub: seq<byte>, sizes: seq<uint16>, k: nat, l: nat)
    requires LanesOk(sub, sizes, k) && l < LANES
    ensures k * HEADER <= TailStart(sizes, k, l)
    ensures TailStart(sizes, k, l) + sizes[l] - 4 * k <= |Body(sub, sizes, k)|
    ensures Body(sub, sizes, k)[TailStart(sizes, k, l)..TailStart(sizes, k, l) + sizes[l] - 4 * k]
         == Lane(sub, sizes, k, l)[4 * k..]
  {
    hide Lane, RowByte, Rows, Tails, TailStart, Sum;
    TailInside(sizes, k, l);
    TailAt(sub, sizes, k, LANES, l);
    TailStartIs(sub, sizes, k, l);
    var a, b := |Tails(sub, sizes, k, l)|, |Tails(sub, sizes, k, l + 1)|;
    ConcatSlice(Rows(sub, sizes, k), Tails(sub, sizes, k, LANES), a, b);
  }

  lemma TailStartIs(sub: seq<byte>, sizes: seq<uint16>, k: nat, l: nat)
    requires LanesOk(sub, sizes, k) && l < LANES
    ensures TailStart(sizes, k, l) == |Rows(sub, sizes, k)| + |Tails(sub, sizes, k, l)|
    ensures |Tails(sub, sizes, k, l + 1)| == |Tails(sub, sizes, k, l)| + sizes[l] - 4 * k
  {
    hide Lane, Tails;
    assert 4 * k * (l + 1) == 4 * k * l + 4 * k;
  }

  lemma PrefixSlice(x: seq<byte>, y: seq<byte>, a: nat, b: nat)
    requires a <= b <= |x|
    ensures (x + y)[a..b] == x[a..b]
  {
  }

  lemma ConcatSlice(x: seq<byte>, y: seq<byte>, a: nat, b: nat)
    requires a <= b <= |y|
    ensures (x + y)[|x| + a..|x| + b] == y[a..b]
  {
  }

  /** Every sub-stream is read back from the body by the sizes and k alone. */
  lemma ReadLaneBack(sub: seq<byte>, sizes: seq<uint16>, k: nat, l: nat)
    requires LanesOk(sub, sizes, k) && l < LANES
    ensures ReadLane(Body(sub, sizes, k), sizes, k, l) == Lane(sub, sizes, k, l)
  {
    hide Lane, Body, TailStart;
    var r, lane := ReadLane(Body(sub, sizes, k), sizes, k, l), Lane(sub, sizes, k, l);
    TailInside(sizes, k, l);
    TailBack(sub, sizes, k, l);
    forall j: nat | j < 4 * k ensures r[j] == lane[j] {
      WordsBack(sub, sizes, k, l, j);
    }
    assert r[4 * k..] == lane[4 * k..];
  }

  // ----- transcoding one chunk -----

  lemma NoLanes(sizes: seq<uint16>)
    ensures Sum(sizes, 0) == 0
  {
  }

  lemma NextLane(sizes: seq<uint16>, l: nat)
    requires l < |sizes|
    ensures Sum(sizes, l + 1) == Sum(sizes, l) + sizes[l]
  {
  }

  /** The 16-bit sizes, the start of every sub-stream, and the common number of words. */
  method ReadHeader(comp: seq<byte>, h: nat) returns (sizes: seq<uint16>, offs: seq<nat>, run: nat, k: uint32)
    requires h + HEADER <= |comp|
    ensures sizes == LaneSizes(comp, h) && run == Sum(sizes, LANES) && IsMinWords(sizes, k)
    ensures |offs| == LANES && forall l :: 0 <= l < LANES ==> offs[l] == Sum(sizes, l)
    ensures forall l :: 0 <= l < 32 ==>
              var b: seq<int> := comp; sizes[l] == b[h + 2 * l] + 0x100 * b[h + 2 * l + 1]
    ensures forall l :: 0 <= l < 32 ==> 4 * k <= sizes[l]
    ensures exists l :: 0 <= l < 32 && sizes[l] < 4 * (k + 1)
  {
    hide Sum;
    sizes := LaneSizes(comp, h);
    NoLanes(sizes);
    offs, run := [], 0;
    var words: int := NO_WORDS;
    ghost var shortest: nat := 0;
    for l := 0 to LANES
      invariant run == Sum(sizes, l) && |offs| == l
      invariant forall m :: 0 <= m < l ==> offs[m] == Sum(sizes, m)
      invariant forall m :: 0 <= m < l ==> 4 * words <= sizes[m]
      invariant if l == 0 then words == NO_WORDS else shortest < l && sizes[shortest] < 4 * (words + 1)
      invariant words >= 0
    {
      NextLane(sizes, l);
      offs := offs + [run];
      run := run + sizes[l];
      if sizes[l] / 4 < words {
        words := sizes[l] / 4;
        shortest := l;
      }
    }
    // After 32 sub-streams the sentinel is gone, so the code's "k = 0" case is dead.
    if words == NO_WORDS {
      words := 0;
    }
    k := words;
  }

  method CopyBytes(src: seq<byte>, dst: array<byte>, at: nat)
    requires at + |src| <= dst.Length
    modifies dst
    ensures dst[at..at + |src|] == src
    ensures forall x :: 0 <= x < dst.Length && !(at <= x < at + |src|) ==> dst[x] == old(dst[x])
  {
    for i := 0 to |src|
      invariant dst[at..at + i] == src[..i]
      invariant forall x :: 0 <= x < dst.Length && !(at <= x < at + i) ==> dst[x] == old(dst[x])
    {
      dst[at + i] := src[i];
    }
  }

  method AppendBytes(src: seq<byte>, dst: array<byte>, start: nat, at: nat)
    requires start <= at && at + |src| <= dst.Length
    modifies dst
    ensures dst[start..at + |src|] == old(dst[start..at]) + src
    ensures forall x :: 0 <= x < dst.Length && !(at <= x < at + |src|) ==> dst[x] == old(dst[x])
  {
    ghost var done := dst[start..at];
    CopyBytes(src, dst, at);
    assert dst[start..at] == done;
    assert dst[start..at + |src|] == dst[start..at] + dst[at..at + |src|];
  }

  lemma RowSlotByte(sub: seq<byte>, sizes: seq<uint16>, k: nat, w: nat, l: nat, x: nat)
    requires LanesOk(sub, sizes, k) && l < LANES && w < k
    requires w * HEADER + l * 4 <= x < w * HEADER + l * 4 + 4
    ensures x < k * HEADER && Sum(sizes, l) >= 0 && Sum(sizes, l) + w * 4 + 4 <= |sub|
    ensures RowByte(sub, sizes, k, x) == sub[Sum(sizes, l) + w * 4 + (x - (w * HEADER + l * 4))]
  {
    RowSlot(w, l, x - (w * HEADER + l * 4));
    LaneInside(sub, sizes, k, l);
  }

  lemma RowWord(sub: seq<byte>, sizes: seq<uint16>, k: nat, w: nat, l: nat)
    requires LanesOk(sub, sizes, k) && l < LANES && w < k
    ensures var x := w * HEADER + l * 4;
            && x + 4 <= k * HEADER && Sum(sizes, l) >= 0 && Sum(sizes, l) + w * 4 + 4 <= |sub|
            && Rows(sub, sizes, k)[..x + 4]
               == Rows(sub, sizes, k)[..x] + sub[Sum(sizes, l) + w * 4..Sum(sizes, l) + w * 4 + 4]
  {
    hide RowByte, Sum;
    var x := w * HEADER + l * 4;
    RowSlotByte(sub, sizes, k, w, l, x);
    forall y: nat | x <= y < x + 4 ensures Rows(sub, sizes, k)[y] == sub[Sum(sizes, l) + w * 4 + (y - x)] {
      RowSlotByte(sub, sizes, k, w, l, y);
    }
  }

  /** Word w of every lane. */
  method PutRow(sub: seq<byte>, sizes: seq<uint16>, offs: seq<nat>, k: nat, w: nat, dst: array<byte>, il: nat)
    requires LanesOk(sub, sizes, k) && w < k && il + k * HEADER <= dst.Length
    requires |offs| == LANES && forall l :: 0 <= l < LANES ==> offs[l] == Sum(sizes, l)
    requires dst[il..il + w * HEADER] == Rows(sub, sizes, k)[..w * HEADER]
    modifies dst
    ensures dst[il..il + (w + 1) * HEADER] == Rows(sub, sizes, k)[..(w + 1) * HEADER]
    ensures forall x :: 0 <= x < dst.Length && !(il <= x < il + k * HEADER) ==> dst[x] == old(dst[x])
  {
    hide RowByte, Rows, Sum, LanesOk;
    ghost var rows := Rows(sub, sizes, k);
    for l := 0 to LANES
      invariant dst[il..il + w * HEADER + l * 4] == rows[..w * HEADER + l * 4]
      invariant forall x :: 0 <= x < dst.Length && !(il <= x < il + k * HEADER) ==> dst[x] == old(dst[x])
    {
      RowWord(sub, sizes, k, w, l);
      AppendBytes(sub[offs[l] + w * 4..offs[l] + w * 4 + 4], dst, il, il + w * HEADER + l * 4);
    }
  }

  /** All rows, then the tails. */
  method PutBody(sub: seq<byte>, sizes: seq<uint16>, offs: seq<nat>, k: nat, dst: array<byte>, at: nat)
    returns (end: nat)
    requires LanesOk(sub, sizes, k) && at + |sub| <= dst.Length
    requires |offs| == LANES && forall l :: 0 <= l < LANES ==> offs[l] == Sum(sizes, l)
    modifies dst
    ensures end == at + |sub| && dst[at..end] == Body(sub, sizes, k)
    ensures forall x :: 0 <= x < dst.Length && !(at <= x < end) ==> dst[x] == old(dst[x])
  {
    hide RowByte, Lane, Rows, Tails, Sum;
    TailInside(sizes, k, 0);
    for w := 0 to k
      invariant dst[at..at + w * HEADER] == Rows(sub, sizes, k)[..w * HEADER]
      invariant forall x :: 0 <= x < dst.Length && !(at <= x < at + k * HEADER) ==> dst[x] == old(dst[x])
    {
      PutRow(sub, sizes, offs, k, w, dst, at);
    }
    ghost var rows := dst[at..at + k * HEADER];
    assert rows == Rows(sub, sizes, k);
    end := PutTails(sub, sizes, offs, k, dst, at + k * HEADER);
    assert dst[at..at + k * HEADER] == rows;
    assert dst[at..end] == dst[at..at + k * HEADER] + dst[at + k * HEADER..end];
  }

  method PutTails(sub: seq<byte>, sizes: seq<uint16>, offs: seq<nat>, k: nat, dst: array<byte>, at: nat)
    returns (end: nat)
    requires LanesOk(sub, sizes, k) && at + |Tails(sub, sizes, k, LANES)| <= dst.Length
    requires |offs| == LANES && forall l :: 0 <= l < LANES ==> offs[l] == Sum(sizes, l)
    modifies dst
    ensures end == at + |Tails(sub, sizes, k, LANES)| && dst[at..end] == Tails(sub, sizes, k, LANES)
    ensures forall x :: 0 <= x < dst.Length && !(at <= x < end) ==> dst[x] == old(dst[x])
  {
    hide Tails, LanesOk;
    end := at;
    NoTails(sub, sizes, k);
    for l := 0 to LANES
      invariant end == at + |Tails(sub, sizes, k, l)| <= dst.Length
      invariant dst[at..end] == Tails(sub, sizes, k, l)
      invariant forall x :: 0 <= x < dst.Length && !(at <= x < end) ==> dst[x] == old(dst[x])
    {
      TailAt(sub, sizes, k, LANES, l);
      end := PutTail(sub, sizes, offs[l], k, dst, at, end, l);
    }
  }

  lemma NoTails(sub: seq<byte>, sizes: seq<uint16>, k: nat)
    requires LanesOk(sub, sizes, k)
    ensures Tails(sub, sizes, k, 0) == []
  {
  }

  method PutTail(sub: seq<byte>, sizes: seq<uint16>, off: nat, k: nat, dst: array<byte>, ghost at: nat, pos: nat,
                 l: nat)
    returns (end: nat)
    requires LanesOk(sub, sizes, k) && l < LANES && off == Sum(sizes, l)
    requires at <= pos == at + |Tails(sub, sizes, k, l)| && at + |Tails(sub, sizes, k, l + 1)| <= dst.Length
    requires dst[at..pos] == Tails(sub, sizes, k, l)
    modifies dst
    ensures end == at + |Tails(sub, sizes, k, l + 1)| && dst[at..end] == Tails(sub, sizes, k, l + 1)
    ensures forall x :: 0 <= x < dst.Length && !(pos <= x < end) ==> dst[x] == old(dst[x])
  {
    hide Tails, Lane, Sum;
    LaneTail(sub, sizes, k, l);
    ghost var done := dst[at..pos];
    var tail := sub[off + k * 4..off + sizes[l]];
    CopyBytes(tail, dst, pos);
    assert dst[at..pos] == done;
    assert dst[at..pos + |tail|] == done + tail;
    end := pos + |tail|;
  }

  lemma LaneTail(sub: seq<byte>, sizes: seq<uint16>, k: nat, l: nat)
    requires LanesOk(sub, sizes, k) && l < LANES
    ensures 0 <= Sum(sizes, l) && Sum(sizes, l) + k * 4 <= Sum(sizes, l) + sizes[l] <= |sub|
    ensures sub[Sum(sizes, l) + k * 4..Sum(sizes, l) + sizes[l]] == Lane(sub, sizes, k, l)[4 * k..]
    ensures Tails(sub, sizes, k, l + 1) == Tails(sub, sizes, k, l) + Lane(sub, sizes, k, l)[4 * k..]
  {
    LaneInside(sub, sizes, k, l);
  }

  // ----- all chunks -----

  /** The chunk's header and payload lie inside the compressed data. */
  predicate DescOk(comp: seq<byte>, d: ChunkDesc) {
    && HEADER <= d.srcOffset <= |comp|
    && d.afterTable + RunOf(comp, d) <= |comp|
  }

  /** The payload bytes of a chunk: all its sub-streams. */
  function RunOf(comp: seq<byte>, d: ChunkDesc): (r: int)
  {
    if HEADER <= d.srcOffset <= |comp| then Sum(LaneSizes(comp, d.srcOffset - HEADER), LANES) else 0
  }

  /** (x + 127) & ~127 in 64 bits */
  function RoundUp64(x: uint64): uint64 {
    BitAnd((x + 127) % U64_LIMIT, U64_LIMIT - 128)
  }

  lemma ClearLow7(y: uint64)
    ensures BitAnd(y, U64_LIMIT - 128) == y - y % 128
  {
    hide BitAnd;
    assert Pow2(64) == U64_LIMIT && Pow2(7) == 128 by { Pow2Values(); }
    AndHigh(y, 7, 64);
  }

  function Aligned(x: nat): (r: nat)
    ensures r % HEADER == 0 && x <= r <= x + 127
  {
    (x + 127) / HEADER * HEADER
  }

  lemma AlignedIs(x: uint64)
    requires x + 127 < U64_LIMIT
    ensures RoundUp64(x) == Aligned(x)
  {
    hide BitAnd;
    assert (x + 127) % U64_LIMIT == x + 127;
    ClearLow7(x + 127);
  }

  /** Where the output of the first n chunks ends. */
  function EndOf(comp: seq<byte>, descs: seq<ChunkDesc>, n: nat): nat
    requires n <= |descs| && forall c :: 0 <= c < |descs| ==> DescOk(comp, descs[c])
  {
    if n == 0 then 0
    else
      RunNat(comp, descs[n - 1]);
      Aligned(EndOf(comp, descs, n - 1)) + HEADER + RunOf(comp, descs[n - 1])
  }

  lemma RunNat(comp: seq<byte>, d: ChunkDesc)
    ensures RunOf(comp, d) >= 0
  {
    if HEADER <= d.srcOffset <= |comp| {
      SumNat(LaneSizes(comp, d.srcOffset - HEADER), 0, LANES);
    }
  }

  /** The header and the body of one transcoded chunk, at the aligned position p. */
  ghost predicate ChunkStored(comp: seq<byte>, d: ChunkDesc, out: seq<byte>, p: nat) {
    && DescOk(comp, d) && p + HEADER + RunOf(comp, d) <= |out| && RunOf(comp, d) >= 0
    && var h := d.srcOffset - HEADER;
       var sizes, sub := LaneSizes(comp, h), comp[d.afterTable..d.afterTable + RunOf(comp, d)];
       && out[p..p + HEADER] == comp[h..h + HEADER]
       && forall k: nat :: IsMinWords(sizes, k) ==>
            LanesOk(sub, sizes, k) && out[p + HEADER..p + HEADER + |sub|] == Body(sub, sizes, k)
  }

  lemma WordsGiveLanes(sub: seq<byte>, sizes: seq<uint16>, k: nat)
    requires |sizes| == LANES && |sub| == Sum(sizes, LANES) && IsMinWords(sizes, k)
    ensures LanesOk(sub, sizes, k)
  {
  }

  method TranscodeChunk(comp: seq<byte>, d: ChunkDesc, dst: array<byte>, p: nat) returns (end: nat, k: uint32)
    requires DescOk(comp, d) && p + HEADER + RunOf(comp, d) <= dst.Length
    modifies dst
    ensures ChunkStored(comp, d, dst[..], p) && end == p + HEADER + RunOf(comp, d)
    ensures IsMinWords(LaneSizes(comp, d.srcOffset - HEADER), k)
    ensures var sizes := LaneSizes(comp, d.srcOffset - 128);
            && (forall l :: 0 <= l < 32 ==> 4 * k <= sizes[l])
            && exists l :: 0 <= l < 32 && sizes[l] < 4 * (k + 1)
    ensures forall x :: 0 <= x < dst.Length && !(p <= x < end) ==> dst[x] == old(dst[x])
  {
    hide LaneSizes, Sum, IsMinWords, LanesOk, Body;
    RunNat(comp, d);
    var h := d.srcOffset - HEADER;
    var sizes, offs, run;
    sizes, offs, run, k := ReadHeader(comp, h);
    var sub := comp[d.afterTable..d.afterTable + run];
    WordsGiveLanes(sub, sizes, k);
    CopyBytes(comp[h..h + HEADER], dst, p);
    ghost var header := dst[p..p + HEADER];
    end := PutBody(sub, sizes, offs, k, dst, p + HEADER);
    assert dst[p..p + HEADER] == header;
    StoredChunk(comp, d, dst[..], p, sizes, sub, k);
  }

  lemma StoredChunk(comp: seq<byte>, d: ChunkDesc, out: seq<byte>, p: nat, sizes: seq<uint16>, sub: seq<byte>, k: nat)
    requires DescOk(comp, d) && RunOf(comp, d) >= 0 && p + HEADER + RunOf(comp, d) <= |out|
    requires sizes == LaneSizes(comp, d.srcOffset - HEADER) && IsMinWords(sizes, k) && LanesOk(sub, sizes, k)
    requires sub == comp[d.afterTable..d.afterTable + RunOf(comp, d)]
    requires out[p..p + HEADER] == comp[d.srcOffset - HEADER..d.srcOffset]
    requires out[p + HEADER..p + HEADER + |sub|] == Body(sub, sizes, k)
    ensures ChunkStored(comp, d, out, p)
  {
    hide Body, LaneSizes, LanesOk, IsMinWords;
    forall k': nat | IsMinWords(sizes, k') ensures k' == k {
      MinWordsUnique(sizes, k, k');
    }
  }

  lemma StaysStored(comp: seq<byte>, d: ChunkDesc, out: seq<byte>, out': seq<byte>, p: nat, end: nat)
    requires ChunkStored(comp, d, out, p) && |out'| == |out| && p + HEADER + RunOf(comp, d) <= end <= |out|
    requires forall x :: 0 <= x < end ==> out'[x] == out[x]
    ensures ChunkStored(comp, d, out', p)
  {
    hide Body, LaneSizes, LanesOk, IsMinWords, RunOf;
    var r := RunOf(comp, d);
    assert out'[p..p + HEADER] == out[p..p + HEADER];
    assert out'[p + HEADER..p + HEADER + r] == out[p + HEADER..p + HEADER + r];
  }

  // ----- the size of the output -----

  function Starts(descs: seq<ChunkDesc>): (s: seq<int>)
    ensures |s| == |descs|
  {
    seq(|descs|, c requires 0 <= c < |descs| => descs[c].afterTable)
  }

  function Runs(comp: seq<byte>, descs: seq<ChunkDesc>): (s: seq<int>)
    ensures |s| == |descs|
  {
    seq(|descs|, c requires 0 <= c < |descs| => RunOf(comp, descs[c]))
  }

  /** The descriptors are usable and no payload byte belongs to two chunks. */
  ghost predicate PayloadsDisjoint(comp: seq<byte>, descs: seq<ChunkDesc>) {
    && (forall c :: 0 <= c < |descs| ==> DescOk(comp, descs[c]))
    && forall i, j :: 0 <= i < j < |descs| && Runs(comp, descs)[i] > 0 && Runs(comp, descs)[j] > 0 ==>
         Disjoint(Starts(descs), Runs(comp, descs), i, j)
  }

  lemma {:induction false} EndBound(comp: seq<byte>, descs: seq<ChunkDesc>, n: nat)
    requires n <= |descs| && forall c :: 0 <= c < |descs| ==> DescOk(comp, descs[c])
    ensures EndOf(comp, descs, n) <= Sum(Runs(comp, descs), n) + 255 * n
  {
    hide DescOk, RunOf, Aligned;
    if n > 0 {
      EndBound(comp, descs, n - 1);
      RunNat(comp, descs[n - 1]);
    }
  }

  /** Disjoint payloads cannot add up to more than the input, so every chunk's end stays
      within 255 bytes a chunk of it; the buffer allows 384. */
  lemma EndFits(comp: seq<byte>, descs: seq<ChunkDesc>, n: nat)
    requires PayloadsDisjoint(comp, descs) && n <= |descs|
    ensures EndOf(comp, descs, n) <= |comp| + 255 * n
  {
    hide RunOf;
    var starts, runs := Starts(descs), Runs(comp, descs);
    forall c | 0 <= c < |descs| ensures 0 <= runs[c] && 0 <= starts[c] && starts[c] + runs[c] <= |comp| {
      RunNat(comp, descs[c]);
      assert DescOk(comp, descs[c]);
    }
    SpansTotal(starts, runs, |comp|);
    SumNat(runs, n, |descs|);
    EndBound(comp, descs, n);
  }

  lemma {:induction false} EndMono(comp: seq<byte>, descs: seq<ChunkDesc>, m: nat, n: nat)
    requires m <= n <= |descs| && forall c :: 0 <= c < |descs| ==> DescOk(comp, descs[c])
    ensures EndOf(comp, descs, m) <= EndOf(comp, descs, n)
    decreases n
  {
    hide DescOk, RunOf, Aligned;
    if m < n {
      EndMono(comp, descs, m, n - 1);
      RunNat(comp, descs[n - 1]);
    }
  }

  /** Chunk a is in place: its 32-bit offset, its common words, its header and body. */
  ghost predicate InPlace(comp: seq<byte>, descs: seq<ChunkDesc>, out: seq<byte>, a: nat, srcOff: uint32, words: uint32)
    requires a < |descs| && forall c :: 0 <= c < |descs| ==> DescOk(comp, descs[c])
  {
    && srcOff == Aligned(EndOf(comp, descs, a)) % U32_LIMIT
    && IsMinWords(LaneSizes(comp, descs[a].srcOffset - HEADER), words)
    && ChunkStored(comp, descs[a], out, Aligned(EndOf(comp, descs, a)))
  }

  lemma StaysInPlace(comp: seq<byte>, descs: seq<ChunkDesc>, out: seq<byte>, out': seq<byte>, a: nat, c: nat,
                     srcOff: uint32, words: uint32)
    requires a < c <= |descs| && forall c :: 0 <= c < |descs| ==> DescOk(comp, descs[c])
    requires InPlace(comp, descs, out, a, srcOff, words) && |out'| == |out| && EndOf(comp, descs, c) <= |out|
    requires forall x :: 0 <= x < EndOf(comp, descs, c) ==> out'[x] == out[x]
    ensures InPlace(comp, descs, out', a, srcOff, words)
  {
    hide ChunkStored, RunOf, Aligned, IsMinWords, LaneSizes, DescOk;
    EndMono(comp, descs, a + 1, c);
    RunNat(comp, descs[a]);
    StaysStored(comp, descs[a], out, out', Aligned(EndOf(comp, descs, a)), EndOf(comp, descs, c));
  }

  /** The descriptors are usable and all chunks together fit into cap bytes. */
  ghost predicate Transcodable(comp: seq<byte>, descs: seq<ChunkDesc>, cap: nat) {
    && (forall c :: 0 <= c < |descs| ==> DescOk(comp, descs[c]))
    && EndOf(comp, descs, |descs|) <= cap
  }

  /** Disjoint payloads always fit the compressed size and 384 bytes a chunk. */
  lemma DisjointFits(comp: seq<byte>, descs: seq<ChunkDesc>)
    requires PayloadsDisjoint(comp, descs)
    ensures Transcodable(comp, descs, |comp| + |descs| * 384)
  {
    EndFits(comp, descs, |descs|);
  }

  /** One turn of the loop: align, remember the offset, transcode. */
  method TranscodeNext(comp: seq<byte>, descs: seq<ChunkDesc>, dst: array<byte>, c: nat, pos: nat)
    returns (end: nat, off: uint32, k: uint32)
    requires Transcodable(comp, descs, dst.Length) && dst.Length < U64_LIMIT - 127
    requires c < |descs| && pos == EndOf(comp, descs, c)
    modifies dst
    ensures end == EndOf(comp, descs, c + 1) <= dst.Length && InPlace(comp, descs, dst[..], c, off, k)
    ensures forall x :: 0 <= x < pos ==> x < dst.Length && dst[x] == old(dst[x])
  {
    hide ChunkStored, RunOf, Aligned, IsMinWords, LaneSizes, RoundUp64, DescOk;
    EndMono(comp, descs, c, |descs|);
    EndMono(comp, descs, c + 1, |descs|);
    RunNat(comp, descs[c]);
    AlignedIs(pos);
    var p := RoundUp64(pos);
    off := p % U32_LIMIT;
    end, k := TranscodeChunk(comp, descs[c], dst, p);
  }

  /** The transcoding loop, for every list of chunks that fits the buffer of comp_size and
      384 bytes a chunk: it leaves every chunk's header and body at its own 128-aligned
      position, whose low 32 bits it records. */
  method Transcode(comp: seq<byte>, descs: seq<ChunkDesc>, dst: array<byte>)
    returns (pos: nat, srcOff: array<uint32>, words: array<uint32>)
    requires |comp| < U32_LIMIT && |descs| < U32_LIMIT
    requires dst.Length == |comp| + |descs| * 384 && Transcodable(comp, descs, dst.Length)
    modifies dst
    ensures pos == EndOf(comp, descs, |descs|)
    ensures srcOff.Length == |descs| == words.Length
    ensures forall c :: 0 <= c < |descs| ==> InPlace(comp, descs, dst[..], c, srcOff[c], words[c])
    ensures forall c :: 0 <= c < |descs| ==>
              && srcOff[c] == Aligned(EndOf(comp, descs, c)) % 0x1_0000_0000
              && ChunkStored(comp, descs[c], dst[..], Aligned(EndOf(comp, descs, c)))
              && var sizes, k: nat := LaneSizes(comp, descs[c].srcOffset - 128), words[c];
                 && (forall l :: 0 <= l < 32 ==> 4 * k <= sizes[l])
                 && exists l :: 0 <= l < 32 && sizes[l] < 4 * (k + 1)
  {
    hide InPlace, EndOf, DescOk, ChunkStored, LaneSizes;
    srcOff := new uint32[|descs|](_ => 0);
    words := new uint32[|descs|](_ => 0);
    pos := 0;
    NoChunks(comp, descs);
    for c := 0 to |descs|
      invariant pos == EndOf(comp, descs, c)
      invariant forall a :: 0 <= a < c ==> InPlace(comp, descs, dst[..], a, srcOff[a], words[a])
    {
      EndMono(comp, descs, c, |descs|);
      ghost var before := dst[..];
      var off, k;
      pos, off, k := TranscodeNext(comp, descs, dst, c, pos);
      srcOff[c] := off;
      words[c] := k;
      forall a | 0 <= a < c ensures InPlace(comp, descs, dst[..], a, srcOff[a], words[a]) {
        StaysInPlace(comp, descs, before, dst[..], a, c, srcOff[a], words[a]);
      }
    }
    forall c | 0 <= c < |descs|
      ensures srcOff[c] == Aligned(EndOf(comp, descs, c)) % 0x1_0000_0000
      ensures ChunkStored(comp, descs[c], dst[..], Aligned(EndOf(comp, descs, c)))
      ensures 128 <= descs[c].srcOffset <= |comp|
      ensures var sizes, k: nat := LaneSizes(comp, descs[c].srcOffset - 128), words[c];
              && (forall l :: 0 <= l < 32 ==> 4 * k <= sizes[l])
              && exists l :: 0 <= l < 32 && sizes[l] < 4 * (k + 1)
    {
      InPlaceIs(comp, descs, dst[..], c, srcOff[c], words[c]);
    }
  }

  lemma InPlaceIs(comp: seq<byte>, descs: seq<ChunkDesc>, out: seq<byte>, a: nat, srcOff: uint32, words: uint32)
    requires a < |descs| && forall c :: 0 <= c < |descs| ==> DescOk(comp, descs[c])
    requires InPlace(comp, descs, out, a, srcOff, words)
    ensures srcOff == Aligned(EndOf(comp, descs, a)) % 0x1_0000_0000
    ensures ChunkStored(comp, descs[a], out, Aligned(EndOf(comp, descs, a)))
    ensures 128 <= descs[a].srcOffset <= |comp|
    ensures var sizes := LaneSizes(comp, descs[a].srcOffset - 128);
            && (forall l :: 0 <= l < 32 ==> 4 * words <= sizes[l])
            && exists l :: 0 <= l < 32 && sizes[l] < 4 * (words + 1)
  {
    hide ChunkStored, EndOf, Aligned, LaneSizes;
    assert DescOk(comp, descs[a]);
  }

  /** Chunk c is placed at the next multiple of 128 and ends 128 bytes and all its sub-streams
      later. */
  lemma ChunkPlace(comp: seq<byte>, descs: seq<ChunkDesc>, c: nat, sizes: seq<int>)
    requires c < |descs| && (forall i :: 0 <= i < |descs| ==> DescOk(comp, descs[i])) && |sizes| == 32
    requires 128 <= descs[c].srcOffset <= |comp|
    requires var b: seq<int> := comp[descs[c].srcOffset - 128..descs[c].srcOffset];
             forall l :: 0 <= l < 32 ==> sizes[l] == b[2 * l] + 0x100 * b[2 * l + 1]
    ensures EndOf(comp, descs, 0) == 0
    ensures var start := Aligned(EndOf(comp, descs, c));
            && start % 128 == 0 && EndOf(comp, descs, c) <= start < EndOf(comp, descs, c) + 128
            && EndOf(comp, descs, c + 1) == start + 128 + Sum(sizes, 32)
  {
    hide DescOk;
    SizesAre(comp, descs[c], sizes);
  }

  lemma SizesAre(comp: seq<byte>, d: ChunkDesc, sizes: seq<int>)
    requires 128 <= d.srcOffset <= |comp| && |sizes| == 32
    requires var b: seq<int> := comp[d.srcOffset - 128..d.srcOffset];
             forall l :: 0 <= l < 32 ==> sizes[l] == b[2 * l] + 0x100 * b[2 * l + 1]
    ensures LaneSizes(comp, d.srcOffset - HEADER) == sizes && RunOf(comp, d) == Sum(sizes, 32)
  {
    var b: seq<int> := comp[d.srcOffset - 128..d.srcOffset];
    forall l | 0 <= l < 32 ensures LaneSizes(comp, d.srcOffset - HEADER)[l] == sizes[l] {
      assert b[2 * l] == comp[d.srcOffset - 128 + 2 * l] && b[2 * l + 1] == comp[d.srcOffset - 128 + 2 * l + 1];
    }
    assert LaneSizes(comp, d.srcOffset - HEADER) == sizes;
  }

  /** The chunk byte by byte, for the k that is the number of whole words of the shortest
      sub-stream: the header is copied; word w of the k common words of lane l stands in row
      w at 4 * l; what is left of the lanes follows the rows in order. */
  lemma ChunkByte(comp: seq<byte>, d: ChunkDesc, out: seq<byte>, p: nat, sizes: seq<int>, k: nat, l: nat, j: nat)
    requires ChunkStored(comp, d, out, p) && 128 <= d.srcOffset <= |comp| && |sizes| == 32
    requires var b: seq<int> := comp[d.srcOffset - 128..d.srcOffset];
             forall l :: 0 <= l < 32 ==> sizes[l] == b[2 * l] + 0x100 * b[2 * l + 1]
    requires forall l :: 0 <= l < 32 ==> 4 * k <= sizes[l]
    requires exists l :: 0 <= l < 32 && sizes[l] < 4 * (k + 1)
    requires l < 32 && j < sizes[l]
    ensures p + 128 <= |out| && out[p..p + 128] == comp[d.srcOffset - 128..d.srcOffset]
    ensures var at := if j < 4 * k then 128 * (j / 4) + 4 * l + j % 4
                      else 128 * k + (Sum(sizes, l) - 4 * k * l) + (j - 4 * k);
            && 0 <= p + 128 + at < |out| && 0 <= d.afterTable + Sum(sizes, l) + j < |comp|
            && out[p + 128 + at] == comp[d.afterTable + Sum(sizes, l) + j]
  {
    hide LaneSizes, Body, Sum, LanesOk, RunOf;
    SizesAre(comp, d, sizes);
    var sub := comp[d.afterTable..d.afterTable + RunOf(comp, d)];
    assert IsMinWords(LaneSizes(comp, d.srcOffset - HEADER), k);
    BodyByte(sub, sizes, k, l, j);
    var at := if j < 4 * k then 128 * (j / 4) + 4 * l + j % 4
              else 128 * k + (Sum(sizes, l) - 4 * k * l) + (j - 4 * k);
    assert out[p + HEADER..p + HEADER + |sub|][at] == out[p + 128 + at];
    assert sub[Sum(sizes, l) + j] == comp[d.afterTable + Sum(sizes, l) + j];
  }

  lemma BodyByte(sub: seq<byte>, sizes: seq<uint16>, k: nat, l: nat, j: nat)
    requires LanesOk(sub, sizes, k) && l < LANES && j < sizes[l]
    ensures var at := if j < 4 * k then 128 * (j / 4) + 4 * l + j % 4
                      else 128 * k + (Sum(sizes, l) - 4 * k * l) + (j - 4 * k);
            && 0 <= at < |sub| && 0 <= Sum(sizes, l) + j < |sub|
            && Body(sub, sizes, k)[at] == sub[Sum(sizes, l) + j]
  {
    hide RowByte, Tails, Sum, Body;
    LaneInside(sub, sizes, k, l);
    TailInside(sizes, k, l);
    ReadLaneBack(sub, sizes, k, l);
    if j < 4 * k {
      RowIndex(k, l, j);
      assert ReadLane(Body(sub, sizes, k), sizes, k, l)[j] == Lane(sub, sizes, k, l)[j];
    } else {
      TailBack(sub, sizes, k, l);
      assert Lane(sub, sizes, k, l)[4 * k..][j - 4 * k] == Lane(sub, sizes, k, l)[j];
    }
  }

  /** The recorded offsets are the real positions of all chunks exactly when the last chunk
      starts below 4 GB; from there on the cast to uint32_t names the wrong place. */
  lemma OffsetsRightIff(comp: seq<byte>, descs: seq<ChunkDesc>, out: seq<byte>,
                        srcOff: seq<uint32>, words: seq<uint32>)
    requires |srcOff| == |descs| == |words| && forall c :: 0 <= c < |descs| ==> DescOk(comp, descs[c])
    requires forall c :: 0 <= c < |descs| ==> InPlace(comp, descs, out, c, srcOff[c], words[c])
    ensures (forall c :: 0 <= c < |descs| ==> srcOff[c] == Aligned(EndOf(comp, descs, c)))
       <==> (|descs| == 0 || Aligned(EndOf(comp, descs, |descs| - 1)) < U32_LIMIT)
  {
    hide ChunkStored, EndOf, DescOk, IsMinWords, LaneSizes;
    if |descs| > 0 {
      var last := |descs| - 1;
      if Aligned(EndOf(comp, descs, last)) < U32_LIMIT {
        forall c | 0 <= c < |descs| ensures srcOff[c] == Aligned(EndOf(comp, descs, c)) {
          EndMono(comp, descs, c, last);
          SmallMod(Aligned(EndOf(comp, descs, c)));
        }
      } else {
        assert srcOff[last] < U32_LIMIT;
      }
    }
  }

  /** A guard to take before the loop: a buffer of at most 4 GB for disjoint payloads. */
  lemma OffsetsRightBelow4G(comp: seq<byte>, descs: seq<ChunkDesc>)
    requires PayloadsDisjoint(comp, descs) && |comp| + |descs| * 384 <= 0x1_0000_0000
    ensures |descs| == 0 || Aligned(EndOf(comp, descs, |descs| - 1)) < U32_LIMIT
  {
    hide RunOf;
    if |descs| > 0 {
      EndFits(comp, descs, |descs| - 1);
    }
  }

  lemma NoChunks(comp: seq<byte>, descs: seq<ChunkDesc>)
    requires forall c :: 0 <= c < |descs| ==> DescOk(comp, descs[c])
    ensures EndOf(comp, descs, 0) == 0
  {
  }

  /** Reading a transcoded chunk: its sizes are in its header, the number of common words
      follows from them, and each sub-stream comes back unchanged. */
  lemma ChunkReadBack(comp: seq<byte>, d: ChunkDesc, out: seq<byte>, p: nat, k: nat, l: nat)
    requires ChunkStored(comp, d, out, p) && l < LANES
    requires IsMinWords(LaneSizes(out[p..p + HEADER], 0), k)
    ensures var sizes := LaneSizes(out[p..p + HEADER], 0);
            var sub := comp[d.afterTable..d.afterTable + RunOf(comp, d)];
            && LanesOk(sub, sizes, k)
            && ReadLane(out[p + HEADER..p + HEADER + RunOf(comp, d)], sizes, k, l) == Lane(sub, sizes, k, l)
  {
    hide LaneSizes, Sum, Lane, ReadLane, Body, IsMinWords;
    HeaderBack(comp, d, out, p);
    var sizes := LaneSizes(out[p..p + HEADER], 0);
    ReadLaneBack(comp[d.afterTable..d.afterTable + RunOf(comp, d)], sizes, k, l);
  }

  lemma HeaderBack(comp: seq<byte>, d: ChunkDesc, out: seq<byte>, p: nat)
    requires ChunkStored(comp, d, out, p)
    ensures LaneSizes(out[p..p + HEADER], 0) == LaneSizes(comp, d.srcOffset - HEADER)
  {
    hide LanesOk, Body, IsMinWords;
    var h := d.srcOffset - HEADER;
    var sizes := LaneSizes(out[p..p + HEADER], 0);
    forall m | 0 <= m < LANES ensures sizes[m] == LaneSizes(comp, h)[m] {
      assert out[p..p + HEADER][2 * m] == comp[h..h + HEADER][2 * m] == comp[h + 2 * m];
      assert out[p..p + HEADER][2 * m + 1] == comp[h..h + HEADER][2 * m + 1] == comp[h + 2 * m + 1];
    }
  }
}
