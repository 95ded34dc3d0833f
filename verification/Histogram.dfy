/** Counting bytes, and what the counts say about encoded sizes: no prefix code encodes
    the data in fewer bits than the Huffman lengths. */
module Histogram {
  import opened Numbers
  import opened HuffmanTree
  import opened CodeLengths
  import opened Canonical
  import opened Encoder
  import opened DecodeTables
  import opened RoundTrip
  import opened Spans

  function Counts(src: seq<byte>, k: nat): (h: seq<nat>)
    requires k <= |src|
    ensures |h| == SYMBOLS && forall s :: 0 <= s < SYMBOLS ==> h[s] == CountOf(src, s, k)
  {
    seq(SYMBOLS, s requires 0 <= s < SYMBOLS => CountOf(src, s, k))
  }

  /** The 32-bit counters, which start again at 0 after 2^32 of one byte. */
  method CountBytes(src: seq<byte>) returns (hist: seq<uint32>)
    ensures |hist| == SYMBOLS && forall s :: 0 <= s < SYMBOLS ==> hist[s] == CountOf(src, s, |src|) % U32_LIMIT
    ensures |src| < U32_LIMIT ==> hist == Counts(src, |src|)
  {
    var h := new uint32[SYMBOLS](_ => 0);
    for i := 0 to |src|
      invariant forall s :: 0 <= s < SYMBOLS ==> h[s] == CountOf(src, s, i) % U32_LIMIT
    {
      h[src[i]] := (h[src[i]] + 1) % U32_LIMIT;
    }
    hist := h[..];
  }

  lemma CountsNext(src: seq<byte>, k: nat)
    requires k < |src|
    ensures Counts(src, k + 1) == Counts(src, k)[src[k] := Counts(src, k)[src[k]] + 1]
  {
  }

  lemma {:induction false} CountsTotal(src: seq<byte>, k: nat)
    requires k <= |src|
    ensures Total(Counts(src, k)) == k
  {
    if k == 0 {
      SumConst(Counts(src, 0), SYMBOLS, 0);
    } else {
      CountsTotal(src, k - 1);
      CountsNext(src, k - 1);
      SumUpdate(Counts(src, k - 1), SYMBOLS, src[k - 1], Counts(src, k - 1)[src[k - 1]] + 1);
    }
  }

  lemma {:induction false} CountPositive(src: seq<byte>, i: nat, k: nat)
    requires i < k <= |src|
    ensures CountOf(src, src[i], k) > 0
  {
    if i < k - 1 {
      CountPositive(src, i, k - 1);
    }
  }

  // ----- sizes -----

  /** The size of the encoded bits is the sum of count times length. */
  lemma {:induction false} CodeBitsSize(src: seq<byte>, c: Code, k: nat)
    requires c.Shaped() && k <= |src|
    ensures |CodeBits(src[..k], c)| == Total(BitCosts(Counts(src, k), c.lens))
  {
    hide CodeBits, CountOf;
    if k == 0 {
      NoBits(src, c);
      SumConst(BitCosts(Counts(src, 0), c.lens), SYMBOLS, 0);
    } else {
      CodeBitsSize(src, c, k - 1);
      CodeBitsNext(src, k - 1, c);
      CountsNext(src, k - 1);
      OneMore(Counts(src, k - 1), c.lens, src[k - 1]);
    }
  }

  lemma NoBits(src: seq<byte>, c: Code)
    requires c.Shaped()
    ensures CodeBits(src[..0], c) == [] && forall s :: 0 <= s < SYMBOLS ==> Counts(src, 0)[s] == 0
  {
  }

  lemma OneMore(h: seq<nat>, lens: seq<nat>, s: nat)
    requires |h| == |lens| && s < |h|
    ensures Total(BitCosts(h[s := h[s] + 1], lens)) == Total(BitCosts(h, lens)) + lens[s]
  {
    var p := BitCosts(h, lens);
    Distribute(h[s], 1, lens[s]);
    assert BitCosts(h[s := h[s] + 1], lens) == p[s := p[s] + lens[s]];
    SumUpdate(p, |p|, s, p[s] + lens[s]);
  }

  // ----- Kraft's inequality for prefix codes -----

  ghost function CodeStart(c: Code, maxLen: nat, s: nat): nat
    requires c.Shaped() && s < SYMBOLS && c.lens[s] <= maxLen
  {
    if c.lens[s] == 0 then 0 else c.codes[s] * Pow2(maxLen - c.lens[s])
  }

  /** Codes that start no other code claim disjoint spans of the index range. */
  lemma CodeSpansDisjoint(c: Code, maxLen: nat, t: nat, s: nat)
    requires Decodable(c, maxLen) && t < SYMBOLS && s < SYMBOLS && t != s
    requires 0 < c.lens[t] <= c.lens[s]
    ensures CodeStart(c, maxLen, t) + Pow2(maxLen - c.lens[t]) <= CodeStart(c, maxLen, s)
         || CodeStart(c, maxLen, s) + Pow2(maxLen - c.lens[s]) <= CodeStart(c, maxLen, t)
  {
    hide Pow2;
    var d, u := c.lens[s] - c.lens[t], maxLen - c.lens[s];
    assert PrefixFree(c.lens, c.codes, t, s);
    SpanOf(c.codes[s], Pow2(d), c.codes[t]);
    Pow2Add(d, u);
    SpanApart(c.codes[t], c.codes[s], Pow2(d), Pow2(u));
  }

  lemma SpanApart(a: nat, b: nat, d: nat, u: nat)
    requires !(a * d <= b < a * d + d)
    ensures a * (d * u) + d * u <= b * u || b * u + u <= a * (d * u)
  {
    MulAssoc(a, d, u);
    if b < a * d {
      MulMono(b + 1, a * d, u);
      Distribute(b, 1, u);
    } else {
      MulMono(a * d + d, b, u);
      Distribute(a * d, d, u);
    }
  }

  lemma CodeSpanInside(c: Code, maxLen: nat, s: nat)
    requires Decodable(c, maxLen) && s < SYMBOLS
    ensures CodeStart(c, maxLen, s) + (if c.lens[s] > 0 then Pow2(maxLen - c.lens[s]) else 0) <= Pow2(maxLen)
  {
    if c.lens[s] > 0 {
      SpanInside(c.codes[s], c.lens[s], maxLen - c.lens[s]);
    }
  }

  /** Every prefix code satisfies the Kraft inequality. */
  lemma PrefixCodeKraft(c: Code, maxLen: nat)
    requires Decodable(c, maxLen)
    ensures Kraft(c.lens, maxLen) <= Pow2(maxLen)
  {
    assert Bounded(c.lens, maxLen);
    hide Pow2, CodeStarts, UsedShares, SpansOk, Decodable, Sum;
    CodeSpansOk(c, maxLen);
    SpansTotal(CodeStarts(c, maxLen), UsedShares(c.lens, maxLen), Pow2(maxLen));
  }

  /** The spans of the codes satisfy what SpansTotal asks. */
  lemma CodeSpansOk(c: Code, maxLen: nat)
    requires Decodable(c, maxLen) && Bounded(c.lens, maxLen)
    ensures SpansOk(CodeStarts(c, maxLen), UsedShares(c.lens, maxLen), Pow2(maxLen))
  {
    SpanCount(c, maxLen);
    hide Pow2, CodeStart, CodeStarts, UsedShares, Disjoint, Decodable, PrefixCode, PrefixFree, Sum;
    var starts, sizes := CodeStarts(c, maxLen), UsedShares(c.lens, maxLen);
    forall s | 0 <= s < SYMBOLS ensures 0 <= sizes[s] && 0 <= starts[s] && starts[s] + sizes[s] <= Pow2(maxLen) {
      OneSpan(c, maxLen, s);
    }
    forall i, j | 0 <= i < j < SYMBOLS && sizes[i] > 0 && sizes[j] > 0 ensures Disjoint(starts, sizes, i, j) {
      TwoSpans(c, maxLen, i, j);
    }
  }

  lemma SpanCount(c: Code, maxLen: nat)
    requires Decodable(c, maxLen) && Bounded(c.lens, maxLen)
    ensures |CodeStarts(c, maxLen)| == |UsedShares(c.lens, maxLen)| == SYMBOLS
  {
  }

  lemma OneSpan(c: Code, maxLen: nat, s: nat)
    requires Decodable(c, maxLen) && Bounded(c.lens, maxLen) && s < SYMBOLS
    ensures 0 <= UsedShares(c.lens, maxLen)[s] && 0 <= CodeStarts(c, maxLen)[s]
    ensures CodeStarts(c, maxLen)[s] + UsedShares(c.lens, maxLen)[s] <= Pow2(maxLen)
  {
    hide Pow2, CodeStart, PrefixCode;
    CodeSpanInside(c, maxLen, s);
  }

  lemma TwoSpans(c: Code, maxLen: nat, i: nat, j: nat)
    requires Decodable(c, maxLen) && Bounded(c.lens, maxLen) && i < j < SYMBOLS
    requires UsedShares(c.lens, maxLen)[i] > 0 && UsedShares(c.lens, maxLen)[j] > 0
    ensures Disjoint(CodeStarts(c, maxLen), UsedShares(c.lens, maxLen), i, j)
  {
    hide Pow2, CodeStart, PrefixCode;
    SharesDisjoint(c, maxLen, i, j);
  }

  ghost function CodeStarts(c: Code, maxLen: nat): (starts: seq<int>)
    requires Decodable(c, maxLen)
    ensures |starts| == SYMBOLS && forall s :: 0 <= s < SYMBOLS ==> starts[s] == CodeStart(c, maxLen, s)
  {
    seq(SYMBOLS, s requires 0 <= s < SYMBOLS => CodeStart(c, maxLen, s))
  }

  lemma SharesDisjoint(c: Code, maxLen: nat, i: nat, j: nat)
    requires Decodable(c, maxLen) && i < j < SYMBOLS && c.lens[i] > 0 && c.lens[j] > 0
    ensures CodeStart(c, maxLen, i) + Pow2(maxLen - c.lens[i]) <= CodeStart(c, maxLen, j)
         || CodeStart(c, maxLen, j) + Pow2(maxLen - c.lens[j]) <= CodeStart(c, maxLen, i)
  {
    hide Pow2, CodeStart, PrefixFree;
    if c.lens[i] <= c.lens[j] {
      CodeSpansDisjoint(c, maxLen, i, j);
    } else {
      CodeSpansDisjoint(c, maxLen, j, i);
    }
  }

  // ----- no prefix code does better -----

  /** Whatever prefix code is used on the data, it needs at least as many bits as a code
      with the Huffman lengths. */
  lemma NoPrefixCodeIsShorter(src: seq<byte>, c: Code, other: Code, maxLen: nat)
    requires c.Shaped() && HuffmanLengths(Counts(src, |src|), c.lens)
    requires Decodable(other, maxLen) && Codable(src, other)
    ensures |CodeBits(src, c)| <= |CodeBits(src, other)|
  {
    var hist := Counts(src, |src|);
    CodeBitsSize(src, c, |src|);
    CodeBitsSize(src, other, |src|);
    assert src[..|src|] == src;
    if UsedCount(hist, SYMBOLS) >= 2 {
      PrefixCodeKraft(other, maxLen);
      OccurringKraft(src, other, maxLen);
      HuffmanLengthsOptimal(hist, c.lens, other.lens, maxLen);
    } else {
      FewSymbols(src, c, other);
    }
  }

  lemma {:induction false} OccursIn(src: seq<byte>, s: nat, k: nat) returns (i: nat)
    requires k <= |src| && CountOf(src, s, k) > 0
    ensures i < k && src[i] == s
  {
    if src[k - 1] == s {
      i := k - 1;
    } else {
      i := OccursIn(src, s, k - 1);
    }
  }

  lemma OccurringKraft(src: seq<byte>, other: Code, maxLen: nat)
    requires Decodable(other, maxLen) && Codable(src, other) && Kraft(other.lens, maxLen) <= Pow2(maxLen)
    ensures Total(OccurringShares(Counts(src, |src|), other.lens, maxLen)) <= Pow2(maxLen)
  {
    var p, q := OccurringShares(Counts(src, |src|), other.lens, maxLen), UsedShares(other.lens, maxLen);
    forall s | 0 <= s < SYMBOLS ensures p[s] <= q[s] {
      if CountOf(src, s, |src|) > 0 {
        var i := OccursIn(src, s, |src|);
      }
    }
    SumLe(p, q, SYMBOLS);
  }

  /** With fewer than two symbols every byte costs one bit, and no code has shorter words. */
  lemma FewSymbols(src: seq<byte>, c: Code, other: Code)
    requires c.Shaped() && other.Shaped() && Codable(src, other)
    requires HuffmanLengths(Counts(src, |src|), c.lens) && UsedCount(Counts(src, |src|), SYMBOLS) < 2
    ensures Total(BitCosts(Counts(src, |src|), c.lens)) <= Total(BitCosts(Counts(src, |src|), other.lens))
  {
    var h := Counts(src, |src|);
    var p, q := BitCosts(h, c.lens), BitCosts(h, other.lens);
    forall s | 0 <= s < SYMBOLS ensures p[s] <= q[s] {
      if h[s] > 0 {
        var i := OccursIn(src, s, |src|);
        assert c.lens[s] <= 1 <= other.lens[s];
        MulMono(c.lens[s], other.lens[s], h[s]);
      }
    }
    SumLe(p, q, SYMBOLS);
  }

  // ----- no expansion -----

  /** The code that stores every byte as itself. */
  function ByteCode(): (c: Code)
    ensures c.Shaped() && forall s :: 0 <= s < SYMBOLS ==> c.lens[s] == 8 && c.codes[s] == s
  {
    Code(seq<byte>(SYMBOLS, _ => 8), seq<uint32>(SYMBOLS, s => s % SYMBOLS))
  }

  lemma ByteCodeDecodable()
    ensures Decodable(ByteCode(), 8)
  {
    Pow2Byte();
    forall t, s | 0 <= t < SYMBOLS && 0 <= s < SYMBOLS && t != s
      ensures PrefixFree(ByteCode().lens, ByteCode().codes, t, s)
    {
      assert Pow2(0) == 1;
    }
  }

  lemma {:induction false} ByteCodeBits(src: seq<byte>)
    ensures |CodeBits(src, ByteCode())| == 8 * |src|
  {
    hide ByteCode;
    if src != [] {
      ByteCodeBits(src[..|src| - 1]);
    }
  }

  /** With Huffman lengths the encoded stream is never longer than the data. */
  lemma NeverExpands(src: seq<byte>, c: Code)
    requires c.Shaped() && HuffmanLengths(Counts(src, |src|), c.lens)
    ensures |Encoded(src, c)| <= |src|
  {
    hide HuffmanLengths, ByteCode, Counts;
    ByteCodeDecodable();
    NoPrefixCodeIsShorter(src, c, ByteCode(), 8);
    ByteCodeBits(src);
  }
}
