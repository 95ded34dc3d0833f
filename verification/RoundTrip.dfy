/** Decoding undoes encoding, for one stream. */
module RoundTrip {
  import opened Numbers
  import opened Bits
  import opened Canonical
  import opened Encoder
  import opened DecodeTables
  import opened Decoder

  /** Every byte of the input has a code. */
  predicate Codable(input: seq<byte>, c: Code)
    requires c.Shaped()
  {
    forall i :: 0 <= i < |input| ==> c.lens[input[i]] > 0
  }

  /** Where the code of s stands in the stream, the window starts with it. */
  lemma CodeStarts(c: Code, maxLen: nat, stream: seq<byte>, pos: nat, s: byte)
    requires Decodable(c, maxLen) && c.lens[s] > 0
    requires StandsAt(stream, pos, ToBits(c.codes[s], c.lens[s]))
    ensures Find(c, Window(stream, pos, maxLen), maxLen) == Some(s)
  {
    var l := c.lens[s];
    WindowOf(stream, pos, ToBits(c.codes[s], l));
    CodeValue(c.codes[s], l);
    WindowHead(stream, pos, l, maxLen - l);
    FindIs(c, maxLen, Window(stream, pos, maxLen), maxLen, s);
  }

  lemma CodeValue(code: nat, l: nat)
    requires code < Pow2(l)
    ensures Value(ToBits(code, l)) == code
  {
    ValueToBits(code, l);
    DivUnique(code, Pow2(l), 0, code);
  }

  /** Wherever the code bits of src stand in a stream, reading |src| code words from there
      gives src back, whatever follows. */
  lemma {:induction false} SimpleDecodesCodes(c: Code, maxLen: nat, stream: seq<byte>, pos: nat, src: seq<byte>)
    requires Decodable(c, maxLen) && Codable(src, c)
    requires StandsAt(stream, pos, CodeBits(src, c))
    ensures SimpleDecode(c, maxLen, stream, pos, |src|) == Decoded(src, true)
    decreases |src|
  {
    hide Pow2, Find, Window, BitAt, ToBits, PrefixCode;
    if src != [] {
      var s, rest := src[0], src[1..];
      var head := ToBits(c.codes[s], c.lens[s]);
      FirstCodeBits(src, c);
      StandsSplit(stream, pos, head, CodeBits(rest, c));
      CodeStarts(c, maxLen, stream, pos, s);
      SimpleDecodesCodes(c, maxLen, stream, pos + c.lens[s], rest);
      assert [s] + rest == src;
    }
  }

  lemma FirstCodeBits(src: seq<byte>, c: Code)
    requires c.Shaped() && src != []
    ensures CodeBits(src, c) == ToBits(c.codes[src[0]], c.lens[src[0]]) + CodeBits(src[1..], c)
  {
    assert src == [src[0]] + src[1..];
    CodeBitsConcat([src[0]], src[1..], c);
    CodeBitsNext([src[0]], 0, c);
    assert [src[0]][..1] == [src[0]] && [src[0]][..0] == [];
  }

  lemma StandsSplit(stream: seq<byte>, pos: nat, a: seq<bit>, b: seq<bit>)
    requires StandsAt(stream, pos, a + b)
    ensures StandsAt(stream, pos, a) && StandsAt(stream, pos + |a|, b)
  {
    forall i | 0 <= i < |a| ensures BitAt(stream, pos + i) == a[i] {
      assert (a + b)[i] == a[i];
    }
    forall i | 0 <= i < |b| ensures BitAt(stream, pos + |a| + i) == b[i] {
      assert (a + b)[|a| + i] == b[i];
    }
  }

  lemma EncodedStands(src: seq<byte>, c: Code)
    requires c.Shaped()
    ensures StandsAt(Encoded(src, c), 0, CodeBits(src, c))
  {
    PackBits(CodeBits(src, c));
  }

  /** The encoded stream decodes to its source through the dual table. */
  lemma DecodeEncoded(c: Code, maxLen: nat, lut: seq<uint32>, src: seq<byte>)
    requires ValidMaxLen(maxLen) && Decodable(c, maxLen) && Codable(src, c) && IsDualLut(c, maxLen, lut)
    ensures UsableLut(lut, maxLen)
    ensures TableDecode(lut, maxLen, Encoded(src, c), 0, |src|) == Decoded(src, true)
  {
    DualLutUsable(c, maxLen, lut);
    EncodedStands(src, c);
    SimpleDecodesCodes(c, maxLen, Encoded(src, c), 0, src);
    DualDecodeIsSimple(c, maxLen, lut, Encoded(src, c), 0, |src|);
  }

  // ----- the size of an encoded stream -----

  lemma {:induction false} CodeBitsBound(src: seq<byte>, c: Code)
    requires c.Shaped() && forall s :: 0 <= s < SYMBOLS ==> c.lens[s] <= 16
    ensures |CodeBits(src, c)| <= 16 * |src|
  {
    if src != [] {
      CodeBitsBound(src[..|src| - 1], c);
    }
  }

  /** Codes of at most 16 bits never expand a byte by more than two. */
  lemma EncodedFits(src: seq<byte>, c: Code)
    requires c.Shaped() && forall s :: 0 <= s < SYMBOLS ==> c.lens[s] <= 16
    ensures |Encoded(src, c)| <= 2 * |src|
  {
    CodeBitsBound(src, c);
  }
}
