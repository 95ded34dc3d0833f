/** The chunk loop of the ratio tool: the file in pieces of 64 KB, each with its own code. */
module FileRatio {
  import opened Numbers
  import opened HuffmanTree
  import opened CodeLengths
  import opened HeightLimit
  import opened Canonical
  import opened Encoder
  import opened DecodeTables
  import opened TreeBuilder
  import opened NStreams
  import opened Histogram
  import opened Pipeline

  const CHUNK_SIZE: nat := 0x1_0000
  const WEIGHTS_OVERHEAD: nat := 128

  function ChunkCount(size: nat): nat {
    (size + CHUNK_SIZE - 1) / CHUNK_SIZE
  }

  /** Chunk i of the file; the last one may be short. */
  function Chunk(file: seq<byte>, i: nat): (c: seq<byte>)
    requires i < ChunkCount(|file|)
    ensures 0 < |c| <= CHUNK_SIZE
  {
    var end := if (i + 1) * CHUNK_SIZE < |file| then (i + 1) * CHUNK_SIZE else |file|;
    file[i * CHUNK_SIZE..end]
  }

  lemma ChunkCounts(size: nat)
    ensures 65536 * ChunkCount(size) - 65536 < size <= 65536 * ChunkCount(size) || size == ChunkCount(size) == 0
  {
  }

  /** The chunks in order are the file: all but the last have 64 KB, and byte j of the file
      is byte j % 64 KB of chunk j / 64 KB. */
  lemma ChunkBytes(file: seq<byte>, j: nat)
    requires j < |file|
    ensures j / 65536 < ChunkCount(|file|)
    ensures |Chunk(file, j / 65536)| == if j / 65536 < ChunkCount(|file|) - 1 then 65536
                                        else |file| - j / 65536 * 65536
    ensures j % 65536 < |Chunk(file, j / 65536)| && Chunk(file, j / 65536)[j % 65536] == file[j]
  {
    ChunkCounts(|file|);
  }

  /** The bytes of the first k 4-stream containers. */
  function HuffTotal(file: seq<byte>, codes: seq<Code>, k: nat): (t: nat)
    requires k <= |codes| && k <= ChunkCount(|file|) && forall i :: 0 <= i < k ==> codes[i].Shaped()
  {
    if k == 0 then 0
    else HuffTotal(file, codes, k - 1) + |NsLayout(4, Chunk(file, k - 1), codes[k - 1])|
  }

  lemma {:induction false} HuffTotalPrefix(file: seq<byte>, codes: seq<Code>, c: Code, k: nat)
    requires k <= |codes| && k <= ChunkCount(|file|) && forall i :: 0 <= i < k ==> codes[i].Shaped()
    ensures HuffTotal(file, codes + [c], k) == HuffTotal(file, codes, k)
  {
    hide NsLayout, Chunk;
    if k > 0 {
      HuffTotalPrefix(file, codes, c, k - 1);
    }
  }

  /** The total is the sum of the container sizes. */
  lemma {:induction false} HuffTotalIs(file: seq<byte>, codes: seq<Code>, sizes: seq<int>, k: nat)
    requires k <= |codes| && k <= ChunkCount(|file|) && k <= |sizes|
    requires forall i :: 0 <= i < k ==> codes[i].Shaped() && sizes[i] == |NsLayout(4, Chunk(file, i), codes[i])|
    ensures HuffTotal(file, codes, k) == Sum(sizes, k)
  {
    hide NsLayout, Chunk;
    if k > 0 {
      HuffTotalIs(file, codes, sizes, k - 1);
    }
  }

  /** A canonical prefix code with the lengths that the chain chooses for the chunk. */
  ghost predicate CodeOf(chunk: seq<byte>, maxLen: nat, c: Code) {
    && Decodable(c, maxLen) && IsCanonical(c.lens, maxLen, c.codes) && GoodLengths(chunk, c.lens, maxLen)
    && (Chosen(chunk, maxLen, c.lens, false) || Chosen(chunk, maxLen, c.lens, true))
  }

  /** Every chunk has its own code. */
  ghost predicate CodesFit(file: seq<byte>, maxLen: nat, codes: seq<Code>) {
    && |codes| <= ChunkCount(|file|)
    && forall i :: 0 <= i < |codes| ==> CodeOf(Chunk(file, i), maxLen, codes[i])
  }

  /** The code of a chunk is the canonical code of the lengths that the builder makes of
      the chunk's own byte counts, limited when one of them exceeds the table. */
  lemma ChunkCode(file: seq<byte>, maxLen: nat, codes: seq<Code>, i: nat)
    requires CodesFit(file, maxLen, codes) && i < |codes|
    ensures var c, hist := codes[i], Counts(Chunk(file, i), |Chunk(file, i)|);
            && IsCanonical(c.lens, maxLen, c.codes)
            && exists built: seq<nat> ::
                 && MergedLengths(hist, built)
                 && (Bounded(built, maxLen) ==> c.lens == built)
                 && (!Bounded(built, maxLen) ==> Limited(hist, built, maxLen, c.lens))
  {
    hide MergedLengths, Limited, Counts, Chosen, IsCanonical, PrefixCode, Chunk;
    var c, chunk := codes[i], Chunk(file, i);
    assert CodeOf(chunk, maxLen, c);
    ChosenLengths(chunk, maxLen, c.lens, !Chosen(chunk, maxLen, c.lens, false));
  }

  /** m is the longest length in all the codes. */
  ghost predicate LongestOf(codes: seq<Code>, m: nat) {
    && (forall i :: 0 <= i < |codes| ==> Bounded(codes[i].lens, m))
    && (m > 0 ==> exists i :: 0 <= i < |codes| && m in codes[i].lens)
  }

  lemma LongestNext(codes: seq<Code>, m: nat, c: Code, longest: nat)
    requires LongestOf(codes, m) && IsMax(c.lens, longest)
    ensures LongestOf(codes + [c], if longest > m then longest else m)
  {
    var all := codes + [c];
    assert all[|codes|] == c && forall i :: 0 <= i < |codes| ==> all[i] == codes[i];
    if longest > m {
      assert longest in all[|codes|].lens;
    } else if m > 0 {
      var i :| 0 <= i < |codes| && m in codes[i].lens;
      assert m in all[i].lens;
    }
  }

  lemma LongestIs(codes: seq<Code>, m: nat)
    requires LongestOf(codes, m)
    ensures forall i :: 0 <= i < |codes| ==> forall s :: 0 <= s < |codes[i].lens| ==> codes[i].lens[s] <= m
    ensures m > 0 ==> exists i :: 0 <= i < |codes| && m in codes[i].lens
  {
  }

  lemma NoneLonger()
    ensures LongestOf([], 0)
  {
  }

  ghost predicate AllShaped(codes: seq<Code>) {
    forall i :: 0 <= i < |codes| ==> codes[i].Shaped()
  }

  /** The body of the loop: tables, 4-stream encoding, decoding and comparison. */
  method ProcessChunk(chunk: seq<byte>, maxLen: nat, enc: array<byte>, dec: array<byte>)
    returns (failed: int, encBytes: int, longest: nat, ghost c: Code)
    requires |chunk| <= CHUNK_SIZE && 8 <= maxLen <= 16
    requires enc.Length == CHUNK_SIZE * 2 + 64 && dec.Length == CHUNK_SIZE + 64 && enc != dec
    modifies enc, dec
    ensures failed == 0 && dec[..|chunk|] == chunk
    ensures CodeOf(chunk, maxLen, c) && IsMax(c.lens, longest) && longest <= maxLen
    ensures c.Shaped()
    ensures encBytes == |NsLayout(4, chunk, c)| && 9 <= encBytes <= 2 * |chunk| + 16
  {
    hide NsLayout, GoodLengths, PrefixCode, IsDualLut, CountOf, IsMax, Chosen, IsCanonical;
    var code, lut, limited;
    SmallInputShifts(chunk);
    code, lut, longest, limited := BuildTables(chunk, maxLen);
    ReadyFacts(chunk, maxLen, code, lut, longest);
    FourStreamFacts(chunk, code);
    c := code;
    failed, encBytes := FourStreamTest(chunk, maxLen, code, lut, enc, CHUNK_SIZE * 2 + 64, dec);
  }

  /** main: for every file no chunk fails, so the loop ends at the end of the file and the
      totals cover all of it. */
  method MeasureFile(file: seq<byte>, maxLen: nat)
    returns (fails: int, totalRaw: nat, totalHuff: nat, totalWeights: nat, numChunks: nat, maxCodeLen: nat,
             ghost codes: seq<Code>)
    requires 8 <= maxLen <= 16
    ensures fails == 0 && totalRaw == |file|
    ensures numChunks == ChunkCount(|file|) == (|file| + 65535) / 65536 && totalWeights == 128 * numChunks
    ensures maxCodeLen <= maxLen
    ensures forall i :: 0 <= i < |codes| ==> forall s :: 0 <= s < |codes[i].lens| ==> codes[i].lens[s] <= maxCodeLen
    ensures maxCodeLen > 0 ==> exists i :: 0 <= i < |codes| && maxCodeLen in codes[i].lens
    ensures |codes| == numChunks && CodesFit(file, maxLen, codes) && AllShaped(codes)
    ensures totalHuff == HuffTotal(file, codes, numChunks) <= 2 * |file| + 16 * numChunks
  {
    hide NsLayout, GoodLengths, PrefixCode, Chosen, IsCanonical, CodeOf, LongestOf, IsMax;
    NoneLonger();
    var enc := new byte[CHUNK_SIZE * 2 + 64](_ => 0);
    var dec := new byte[CHUNK_SIZE + 64](_ => 0);
    fails, totalRaw, totalHuff, totalWeights, numChunks, maxCodeLen := 0, 0, 0, 0, 0, 0;
    codes := [];
    while true
      invariant fails == 0 && totalRaw <= |file|
      invariant numChunks <= ChunkCount(|file|)
      invariant totalRaw == if numChunks < ChunkCount(|file|) then numChunks * CHUNK_SIZE else |file|
      invariant totalWeights == WEIGHTS_OVERHEAD * numChunks && maxCodeLen <= maxLen
      invariant LongestOf(codes, maxCodeLen) && AllShaped(codes)
      invariant |codes| == numChunks && CodesFit(file, maxLen, codes)
      invariant totalHuff == HuffTotal(file, codes, numChunks) <= 2 * totalRaw + 16 * numChunks
      decreases |file| - totalRaw
    {
      var got := if |file| - totalRaw < CHUNK_SIZE then |file| - totalRaw else CHUNK_SIZE;
      if got == 0 {
        break;
      }
      var chunk := file[totalRaw..totalRaw + got];
      assert chunk == Chunk(file, numChunks);
      // ProcessChunk never fails, so the branch below is dead.
      var failed, encBytes, longest, c := ProcessChunk(chunk, maxLen, enc, dec);
      if failed != 0 {
        fails := fails + 1;
        break;
      }
      HuffTotalPrefix(file, codes, c, numChunks);
      LongestNext(codes, maxCodeLen, c, longest);
      codes := codes + [c];
      totalRaw := totalRaw + got;
      totalHuff := totalHuff + encBytes;
      totalWeights := totalWeights + WEIGHTS_OVERHEAD;
      numChunks := numChunks + 1;
      if longest > maxCodeLen {
        maxCodeLen := longest;
      }
    }
    LongestIs(codes, maxCodeLen);
  }
}
