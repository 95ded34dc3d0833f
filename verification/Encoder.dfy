/** Encoding one stream: the codes of the input bytes, one after the other. */
module Encoder {
  import opened Numbers
  import opened Bits
  import opened BitWriting

  /** Lengths and codes per symbol, as the C functions take them side by side. */
  datatype Code = Code(lens: seq<byte>, codes: seq<uint32>) {
    /** Both tables are complete and every length is a defined 32-bit shift. */
    predicate Shaped() {
      |lens| == SYMBOLS == |codes| && forall s :: 0 <= s < SYMBOLS ==> lens[s] < 32
    }
  }

  /** The code bits of the input bytes in order. */
  function CodeBits(input: seq<byte>, c: Code): seq<bit>
    requires c.Shaped()
  {
    if input == [] then []
    else CodeBits(input[..|input| - 1], c)
         + ToBits(c.codes[input[|input| - 1]], c.lens[input[|input| - 1]])
  }

  lemma {:induction false} CodeBitsConcat(a: seq<byte>, b: seq<byte>, c: Code)
    requires c.Shaped()
    ensures CodeBits(a + b, c) == CodeBits(a, c) + CodeBits(b, c)
    decreases |b|
  {
    if b == [] {
      assert a + b == a;
    } else {
      CodeBitsConcat(a, b[..|b| - 1], c);
      assert (a + b)[..|a + b| - 1] == a + b[..|b| - 1];
    }
  }

  /** The stream that encodes the input: its code bits in bytes, zero-padded. */
  function Encoded(input: seq<byte>, c: Code): (s: seq<byte>)
    requires c.Shaped()
    ensures |s| == ByteCount(|CodeBits(input, c)|)
  {
    Pack(CodeBits(input, c))
  }

  lemma CodeBitsPrefix(input: seq<byte>, k: nat, c: Code)
    requires c.Shaped() && k <= |input|
    ensures |CodeBits(input[..k], c)| <= |CodeBits(input, c)|
  {
    assert input == input[..k] + input[k..];
    CodeBitsConcat(input[..k], input[k..], c);
  }

  lemma CodeBitsNext(input: seq<byte>, k: nat, c: Code)
    requires c.Shaped() && k < |input|
    ensures CodeBits(input[..k + 1], c)
         == CodeBits(input[..k], c) + ToBits(c.codes[input[k]], c.lens[input[k]])
  {
    assert input[..k + 1][..k] == input[..k];
  }

  lemma {:induction false} CodeBitsLength(input: seq<byte>, c: Code, lens: seq<int>, k: nat)
    requires c.Shaped() && k <= |input| == |lens| && forall j :: 0 <= j < |input| ==> lens[j] == c.lens[input[j]]
    ensures |CodeBits(input[..k], c)| == Sum(lens, k) >= 0
  {
    hide CodeBits, ToBits;
    if k > 0 {
      CodeBitsLength(input, c, lens, k - 1);
      CodeBitsNext(input, k - 1, c);
    } else {
      NoCodes(input, c);
    }
  }

  lemma CodeBitsAt(input: seq<byte>, c: Code, lens: seq<int>, k: nat, i: nat)
    requires c.Shaped() && k < |input| == |lens| && forall j :: 0 <= j < |input| ==> lens[j] == c.lens[input[j]]
    requires i < c.lens[input[k]]
    ensures 0 <= Sum(lens, k) && Sum(lens, k) + i < |CodeBits(input, c)|
    ensures CodeBits(input, c)[Sum(lens, k) + i] == ToBits(c.codes[input[k]], c.lens[input[k]])[i]
  {
    hide CodeBits, ToBits;
    CodeBitsLength(input, c, lens, k);
    CodeBitsNext(input, k, c);
    assert input == input[..k + 1] + input[k + 1..];
    CodeBitsConcat(input[..k + 1], input[k + 1..], c);
  }

  /** The size of the stream is that of its code bits in whole bytes, and zeros fill the
      last one. */
  lemma EncodedSize(input: seq<byte>, c: Code, lens: seq<int>, p: nat)
    requires c.Shaped() && |input| == |lens| && forall j :: 0 <= j < |input| ==> lens[j] == c.lens[input[j]]
    ensures Sum(lens, |lens|) <= 8 * |Encoded(input, c)| < Sum(lens, |lens|) + 8
    ensures Sum(lens, |lens|) <= p ==> BitAt(Encoded(input, c), p) == 0
  {
    hide CodeBits, BytesBits, Pack;
    CodeBitsLength(input, c, lens, |input|);
    assert input[..|input|] == input;
    PackBits(CodeBits(input, c));
  }

  /** The stream bit by bit: the codes follow one another in the order of the input, each
      from its highest bit to its lowest. */
  lemma EncodedBit(input: seq<byte>, c: Code, lens: seq<int>, k: nat, i: nat)
    requires c.Shaped() && k < |input| == |lens| && forall j :: 0 <= j < |input| ==> lens[j] == c.lens[input[j]]
    requires i < c.lens[input[k]]
    ensures 0 <= Sum(lens, k)
    ensures BitAt(Encoded(input, c), Sum(lens, k) + i)
         == c.codes[input[k]] / Pow2(c.lens[input[k]] - 1 - i) % 2
  {
    hide CodeBits, ToBits, BytesBits, Pow2, Pack;
    CodeBitsAt(input, c, lens, k, i);
    PackBits(CodeBits(input, c));
    ToBitsAt(c.codes[input[k]], c.lens[input[k]], i);
  }

  /** The state of a writer after the bits were written to out[base..base + cap]. */
  ghost predicate HasWritten(bw: BitWriter, out: array<byte>, base: nat, cap: nat, bits: seq<bit>)
    reads bw, bw.buf
  {
    && bw.Valid() && bw.buf == out && bw.base == base && bw.capacity == cap
    && bw.bitCount < 8 && bw.Written() == bits
  }

  /** One symbol: written, or failed because its whole bytes exceed the capacity. */
  method EncodeSymbol(input: seq<byte>, i: nat, c: Code, bw: BitWriter) returns (r: int)
    requires c.Shaped() && i < |input|
    requires HasWritten(bw, bw.buf, bw.base, bw.capacity, CodeBits(input[..i], c))
    modifies bw, bw.buf
    ensures r == 0 || r == -1
    ensures r == 0 ==> HasWritten(bw, bw.buf, bw.base, bw.capacity, CodeBits(input[..i + 1], c))
    ensures r == -1 ==> |Encoded(input, c)| > bw.capacity
    ensures forall k :: 0 <= k < bw.buf.Length && !(bw.base <= k < bw.base + bw.capacity) ==>
              bw.buf[k] == old(bw.buf[k])
  {
    CodeBitsNext(input, i, c);
    CodeBitsPrefix(input, i + 1, c);
    r := bw.Write(c.codes[input[i]], c.lens[input[i]]);
  }

  /** Pads the last byte and reads off the size. */
  method FinishStream(bw: BitWriter, ghost bits: seq<bit>) returns (r: int)
    requires HasWritten(bw, bw.buf, bw.base, bw.capacity, bits)
    modifies bw, bw.buf
    ensures r == if |Pack(bits)| <= bw.capacity then |Pack(bits)| else -1
    ensures r >= 0 ==> bw.base + r <= bw.buf.Length && bw.buf[bw.base..bw.base + r] == Pack(bits)
    ensures forall k :: 0 <= k < bw.buf.Length && !(bw.base <= k < bw.base + bw.capacity) ==>
              bw.buf[k] == old(bw.buf[k])
  {
    ghost var n := bw.bitCount;
    r := bw.Flush();
    if r == 0 {
      r := bw.bytePos;
      assert bw.Written() == BytesBits(bw.buf[bw.base..bw.base + r]);
      PackUnique(bw.buf[bw.base..bw.base + r], bits);
    }
  }

  /** huff_encode: writes the encoded stream to out[base..] and returns its size, cast to
      int, or -1 when it does not fit into cap bytes. */
  method HuffEncode(input: seq<byte>, c: Code, out: array<byte>, base: nat, cap: nat) returns (r: int)
    requires c.Shaped() && base + cap <= out.Length
    modifies out
    ensures r == if |Encoded(input, c)| <= cap then CInt(|Encoded(input, c)|) else -1
    ensures |Encoded(input, c)| <= cap ==> out[base..base + |Encoded(input, c)|] == Encoded(input, c)
    ensures forall i :: 0 <= i < out.Length && !(base <= i < base + cap) ==> out[i] == old(out[i])
  {
    hide CodeBits, Encoded;
    NoCodes(input, c);
    var bw := new BitWriter(out, base, cap);
    for i := 0 to |input|
      invariant HasWritten(bw, out, base, cap, CodeBits(input[..i], c)) && fresh(bw)
      invariant forall k :: 0 <= k < out.Length && !(base <= k < base + cap) ==> out[k] == old(out[k])
    {
      var rc := EncodeSymbol(input, i, c, bw);
      if rc != 0 {
        return -1;
      }
    }
    assert input[..|input|] == input;
    var size := FinishStream(bw, CodeBits(input, c));
    EncodedIs(input, c);
    if size < 0 {
      return -1;
    }
    return CInt(size);
  }

  lemma NoCodes(input: seq<byte>, c: Code)
    requires c.Shaped()
    ensures CodeBits(input[..0], c) == []
  {
  }

  lemma EncodedIs(input: seq<byte>, c: Code)
    requires c.Shaped()
    ensures Encoded(input, c) == Pack(CodeBits(input, c))
  {
  }
}
