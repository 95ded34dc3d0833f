/** Decoding one stream by table lookups, and the proof that it is the same as reading one
    code word at a time from the input bits followed by endless zeros. */
module Decoder {
  import opened Numbers
  import opened Bits
  import opened BitWriting
  import opened Canonical
  import opened Encoder
  import opened DecodeTables

  /** The bytes decoded before the end, or before an index that no code begins. */
  datatype Decoded = Decoded(bytes: seq<byte>, ok: bool) {
    function Prepend(p: seq<byte>): Decoded {
      Decoded(p + bytes, ok)
    }
  }

  // ----- the reference: one code word at a time -----

  function SimpleDecode(c: Code, maxLen: nat, input: seq<byte>, pos: nat, n: nat): (d: Decoded)
    requires c.Shaped()
    ensures |d.bytes| <= n && (d.ok <==> |d.bytes| == n)
    decreases n
  {
    if n == 0 then Decoded([], true)
    else
      match Find(c, Window(input, pos, maxLen), maxLen)
      case None => Decoded([], false)
      case Some(s) => SimpleDecode(c, maxLen, input, pos + c.lens[s], n - 1).Prepend([s])
  }

  // ----- decoding by table -----

  /** No entry of the table takes more bits than the index has. */
  predicate UsableLut(lut: seq<uint32>, maxLen: nat) {
    |lut| == Pow2(maxLen) && forall i :: 0 <= i < |lut| ==> TotalLen(lut[i]) <= maxLen
  }

  function Lookup(lut: seq<uint32>, maxLen: nat, input: seq<byte>, pos: nat): uint32
    requires UsableLut(lut, maxLen)
  {
    WindowBound(input, pos, maxLen);
    lut[Window(input, pos, maxLen)]
  }

  /** The bytes one entry gives when n are still wanted: two from a dual entry, unless
      only one is wanted. */
  function EntryBytes(e: uint32, n: nat): (b: seq<byte>)
    ensures |b| == if NumSyms(e) == 2 && n > 1 then 2 else 1
  {
    if NumSyms(e) == 2 && n > 1 then [Sym1(e), Sym2(e)] else [Sym1(e)]
  }

  /** The decoder's steps on bit positions. */
  function TableDecode(lut: seq<uint32>, maxLen: nat, input: seq<byte>, pos: nat, n: nat): (d: Decoded)
    requires UsableLut(lut, maxLen)
    ensures |d.bytes| <= n && (d.ok <==> |d.bytes| == n)
    decreases n
  {
    if n == 0 then Decoded([], true)
    else
      var e := Lookup(lut, maxLen, input, pos);
      if TotalLen(e) == 0 then Decoded([], false)
      else
        var b := EntryBytes(e, n);
        TableDecode(lut, maxLen, input, pos + TotalLen(e), n - |b|).Prepend(b)
  }

  /** One step on the bits of the entry: a length of 0 ends decoding; two symbols are taken
      from a dual entry unless only one byte is wanted; the whole length is consumed. */
  lemma EntryStep(lut: seq<uint32>, maxLen: nat, input: seq<byte>, pos: nat, n: nat)
    requires UsableLut(lut, maxLen) && n > 0
    ensures Window(input, pos, maxLen) < |lut|
    ensures var e := lut[Window(input, pos, maxLen)];
            var sym1, sym2, len, syms := e % 0x100, e / 0x100 % 0x100, e / 0x1_0000 % 0x100, e / 0x100_0000;
            var got := if syms == 2 && n > 1 then 2 else 1;
            && len >= 0
            && var d := TableDecode(lut, maxLen, input, pos, n);
               var rest := TableDecode(lut, maxLen, input, pos + len, n - got);
               if len == 0 then d == Decoded([], false)
               else d.ok == rest.ok && d.bytes == (if got == 2 then [sym1, sym2] else [sym1]) + rest.bytes
  {
    hide Window, Sym1, Sym2, TotalLen, NumSyms;
    WindowBound(input, pos, maxLen);
    FieldsOf(lut[Window(input, pos, maxLen)]);
  }

  // ----- the bit buffer -----

  /** n bits of the stream from pos. */
  function StreamBits(s: seq<byte>, pos: nat, n: nat): (b: seq<bit>)
    ensures |b| == n && StandsAt(s, pos, b)
  {
    seq<bit>(n, i requires 0 <= i < n => BitAt(s, pos + i))
  }

  lemma StreamByte(s: seq<byte>, k: nat)
    requires k < |s|
    ensures StreamBits(s, 8 * k, 8) == ToBits(s[k], 8)
  {
    BytesBitsAt(s, k);
    forall i | 0 <= i < 8 ensures BitAt(s, 8 * k + i) == ToBits(s[k], 8)[i] {
      assert BytesBits(s)[8 * k..8 * k + 8][i] == BytesBits(s)[8 * k + i];
    }
  }

  /** The low cnt bits of the buffer are the next bits of the stream; whatever is above
      them is stale and ignored. */
  ghost predicate Buffered(input: seq<byte>, pos: nat, inPos: nat, buf: uint64, cnt: nat) {
    && inPos <= |input| && cnt <= 64
    && (pos + cnt == 8 * inPos || (inPos == |input| && pos + cnt >= 8 * inPos))
    && ToBits(buf, cnt) == StreamBits(input, pos, cnt)
  }

  lemma PushByte(input: seq<byte>, pos: nat, inPos: nat, buf: uint64, cnt: nat)
    requires Buffered(input, pos, inPos, buf, cnt) && inPos < |input| && cnt + 8 <= 64
    ensures BitOr(Shl64(buf, 8), input[inPos]) < U64_LIMIT
    ensures Buffered(input, pos, inPos + 1, BitOr(Shl64(buf, 8), input[inPos]), cnt + 8)
  {
    hide Pow2, BitOr, Shl64, ToBits, BytesBits;
    var v := input[inPos];
    assert BitAnd(v, Pow2(8) - 1) == v by { ByteMask(v); }
    AppendWord(buf, cnt, v, 8);
    StreamByte(input, inPos);
    assert StreamBits(input, pos, cnt + 8)
        == StreamBits(input, pos, cnt) + StreamBits(input, 8 * inPos, 8);
  }

  lemma ByteMask(v: byte)
    ensures BitAnd(v, Pow2(8) - 1) == v
  {
    hide Pow2, BitAnd;
    Pow2Byte();
    AndMask(v, 8);
    BelowMod(v, Pow2(8));
  }

  lemma BelowMod(v: nat, d: nat)
    requires v < d
    ensures v % d == v
  {
    DivUnique(v, d, 0, v);
  }

  lemma PushZeros(input: seq<byte>, pos: nat, buf: uint64, cnt: nat, k: nat)
    requires Buffered(input, pos, |input|, buf, cnt) && cnt + k <= 64
    ensures Buffered(input, pos, |input|, Shl64(buf, k), cnt + k)
  {
    hide Pow2, Shl64, BytesBits;
    ShlBits(buf, cnt, k);
    assert StreamBits(input, pos, cnt + k) == StreamBits(input, pos, cnt) + Zeros(k);
  }

  lemma ShlBits(buf: uint64, cnt: nat, k: nat)
    requires cnt + k <= 64
    ensures ToBits(Shl64(buf, k), cnt + k) == ToBits(buf, cnt) + Zeros(k)
  {
    var x := buf % Pow2(64 - k);
    ShlKeepsLow(buf, k);
    ToBitsAppend(x, cnt, 0, k);
    ToBitsMod(buf, 64 - k, cnt);
    ToBitsZero(k);
  }

  /** The table index: the top m of the buffered bits. */
  lemma TopBits(input: seq<byte>, pos: nat, inPos: nat, buf: uint64, cnt: nat, m: nat)
    requires Buffered(input, pos, inPos, buf, cnt) && m <= cnt
    ensures BitAnd(Shr(buf, cnt - m), Pow2(m) - 1) == Window(input, pos, m)
  {
    var x := Shr(buf, cnt - m);
    ToBitsSplit(buf, m, cnt - m);
    assert ToBits(x, m) == StreamBits(input, pos, m) by {
      assert ToBits(buf, cnt)[..m] == ToBits(x, m);
      assert StreamBits(input, pos, cnt)[..m] == StreamBits(input, pos, m);
    }
    ValueToBits(x, m);
    WindowOf(input, pos, StreamBits(input, pos, m));
    AndMask(x, m);
  }

  lemma DropBits(input: seq<byte>, pos: nat, inPos: nat, buf: uint64, cnt: nat, t: nat)
    requires Buffered(input, pos, inPos, buf, cnt) && t <= cnt
    ensures Buffered(input, pos + t, inPos, buf, cnt - t)
  {
    hide Pow2, ToBits, Shr, BitAt;
    ToBitsSplit(buf, t, cnt - t);
    assert ToBits(buf, cnt)[t..] == ToBits(buf, cnt - t);
    assert StreamBits(input, pos, cnt)[t..] == StreamBits(input, pos + t, cnt - t);
  }

  // ----- the method -----

  /** Brings at least maxLen bits into the buffer, zeros after the end of the input. */
  method Refill(input: seq<byte>, maxLen: nat, inPos: nat, buf: uint64, cnt: nat, ghost pos: nat)
    returns (inPos': nat, buf': uint64, cnt': nat)
    requires ValidMaxLen(maxLen) && Buffered(input, pos, inPos, buf, cnt) && cnt < maxLen + 8
    ensures Buffered(input, pos, inPos', buf', cnt') && maxLen <= cnt' < maxLen + 8
  {
    inPos', buf', cnt' := inPos, buf, cnt;
    while cnt' < maxLen && inPos' < |input|
      invariant Buffered(input, pos, inPos', buf', cnt') && cnt' < maxLen + 8
    {
      PushByte(input, pos, inPos', buf', cnt');
      buf' := BitOr(Shl64(buf', 8), input[inPos']);
      inPos' := inPos' + 1;
      cnt' := cnt' + 8;
    }
    if cnt' < maxLen {
      PushZeros(input, pos, buf', cnt', maxLen - cnt');
      buf' := Shl64(buf', maxLen - cnt');
      cnt' := maxLen;
    }
  }

  method StoreEntry(entry: uint32, out: array<byte>, base: nat, outPos: nat, expected: nat)
    returns (outPos': nat)
    requires base + expected <= out.Length && outPos < expected
    modifies out
    ensures outPos' == outPos + |EntryBytes(entry, expected - outPos)| <= expected
    ensures out[base..base + outPos'] == old(out[base..base + outPos]) + EntryBytes(entry, expected - outPos)
    ensures forall i :: 0 <= i < out.Length && !(base <= i < base + outPos') ==> out[i] == old(out[i])
  {
    hide Sym1, Sym2, NumSyms;
    out[base + outPos] := Sym1(entry);
    outPos' := outPos + 1;
    if NumSyms(entry) == 2 && outPos' < expected {
      out[base + outPos'] := Sym2(entry);
      outPos' := outPos' + 1;
    }
  }

  /** The entry that the decoder looks up in the buffer is the one at its bit position. */
  method Fetch(input: seq<byte>, lut: seq<uint32>, maxLen: nat, ghost pos: nat,
               ghost inPos: nat, buf: uint64, cnt: nat)
    returns (entry: uint32)
    requires UsableLut(lut, maxLen) && Buffered(input, pos, inPos, buf, cnt) && maxLen <= cnt
    ensures entry == Lookup(lut, maxLen, input, pos) && TotalLen(entry) <= maxLen
  {
    TopBits(input, pos, inPos, buf, cnt, maxLen);
    WindowBound(input, pos, maxLen);
    entry := lut[BitAnd(Shr(buf, cnt - maxLen), Pow2(maxLen) - 1)];
  }

  lemma PrependTwice(d: Decoded, p: seq<byte>, q: seq<byte>)
    ensures d.Prepend(q).Prepend(p) == d.Prepend(p + q)
  {
    assert p + (q + d.bytes) == (p + q) + d.bytes;
  }

  /** huff_decode: writes the decoded bytes to out[base..] and returns their number, cast to
      int, or -1 at the first index that the table does not know. */
  method HuffDecode(input: seq<byte>, lut: seq<uint32>, maxLen: nat, out: array<byte>, base: nat, expected: nat)
    returns (r: int)
    requires ValidMaxLen(maxLen) && UsableLut(lut, maxLen)
    requires base + expected <= out.Length
    modifies out
    ensures var d := TableDecode(lut, maxLen, input, 0, expected);
            && r == (if d.ok then CInt(expected) else -1)
            && out[base..base + |d.bytes|] == d.bytes
            && forall i :: 0 <= i < out.Length && !(base <= i < base + |d.bytes|) ==> out[i] == old(out[i])
  {
    hide Pow2, Buffered, Lookup, UsableLut, TotalLen, EntryBytes;
    ghost var goal := TableDecode(lut, maxLen, input, 0, expected);
    var inPos: nat, buf: uint64, cnt: nat, outPos: nat := 0, 0, 0, 0;
    ghost var pos: nat := 0;
    EmptyBuffer(input);
    while outPos < expected
      invariant outPos <= expected && cnt < maxLen + 8 && Buffered(input, pos, inPos, buf, cnt)
      invariant goal == TableDecode(lut, maxLen, input, pos, expected - outPos).Prepend(out[base..base + outPos])
      invariant forall i :: 0 <= i < out.Length && !(base <= i < base + outPos) ==> out[i] == old(out[i])
    {
      inPos, buf, cnt := Refill(input, maxLen, inPos, buf, cnt, pos);
      var entry := Fetch(input, lut, maxLen, pos, inPos, buf, cnt);
      var total := TotalLen(entry);
      if total == 0 {
        return -1;
      }
      ghost var n, done := expected - outPos, out[base..base + outPos];
      outPos := StoreEntry(entry, out, base, outPos, expected);
      PrependTwice(TableDecode(lut, maxLen, input, pos + total, expected - outPos), done, EntryBytes(entry, n));
      DropBits(input, pos, inPos, buf, cnt, total);
      cnt := cnt - total;
      pos := pos + total;
    }
    return CInt(outPos);
  }

  lemma EmptyBuffer(input: seq<byte>)
    ensures Buffered(input, 0, 0, 0, 0)
  {
  }

  // ----- table decoding is reading one code word at a time -----

  lemma DualLutUsable(c: Code, maxLen: nat, lut: seq<uint32>)
    requires ValidMaxLen(maxLen) && IsDualLut(c, maxLen, lut)
    ensures UsableLut(lut, maxLen)
  {
    hide TotalLen, DualEntry, Find;
    forall i | 0 <= i < |lut| ensures TotalLen(lut[i]) <= maxLen {
      DualEntryFields(c, maxLen, i);
    }
  }

  /** After the code of s1, the rest of a window parses like the stream there: a code that
      starts the rest starts the next window. */
  lemma RestOfWindow(c: Code, maxLen: nat, input: seq<byte>, pos: nat, s1: byte, s2: byte)
    requires Decodable(c, maxLen) && c.lens[s1] <= maxLen
    requires StartsWith(c, Low(Window(input, pos, maxLen), maxLen - c.lens[s1]), maxLen - c.lens[s1], s2)
    ensures Find(c, Window(input, pos + c.lens[s1], maxLen), maxLen) == Some(s2)
  {
    hide Pow2;
    var l1, l2 := c.lens[s1], c.lens[s2];
    WindowTail(input, pos, l1, maxLen - l1);
    WindowHead(input, pos + l1, l2, maxLen - l1 - l2);
    WindowHead(input, pos + l1, l2, maxLen - l2);
    FindIs(c, maxLen, Window(input, pos + l1, maxLen), maxLen, s2);
  }

  lemma WindowTail(input: seq<byte>, pos: nat, a: nat, b: nat)
    ensures Low(Window(input, pos, a + b), b) == Window(input, pos + a, b)
  {
    WindowDivMod(input, pos, a, b);
  }

  lemma WindowHead(input: seq<byte>, pos: nat, a: nat, b: nat)
    ensures Shr(Window(input, pos, a + b), b) == Window(input, pos, a)
  {
    WindowDivMod(input, pos, a, b);
  }

  lemma SimpleTwo(c: Code, maxLen: nat, input: seq<byte>, pos: nat, n: nat, s1: byte, s2: byte)
    requires Decodable(c, maxLen) && n > 1
    requires Find(c, Window(input, pos, maxLen), maxLen) == Some(s1)
    requires var w := maxLen - c.lens[s1]; Find(c, Low(Window(input, pos, maxLen), w), w) == Some(s2)
    ensures SimpleDecode(c, maxLen, input, pos, n)
         == SimpleDecode(c, maxLen, input, pos + c.lens[s1] + c.lens[s2], n - 2).Prepend([s1, s2])
  {
    hide Pow2, Window, Find, Low, PrefixCode;
    RestOfWindow(c, maxLen, input, pos, s1, s2);
    PrependTwice(SimpleDecode(c, maxLen, input, pos + c.lens[s1] + c.lens[s2], n - 2), [s1], [s2]);
  }

  /** For every input, encoded or not, the table decoder over the dual table yields the
      same bytes and the same verdict as the one-code-word decoder. */
  lemma {:induction false} DualDecodeIsSimple(c: Code, maxLen: nat, lut: seq<uint32>, input: seq<byte>,
                                              pos: nat, n: nat)
    requires ValidMaxLen(maxLen) && Decodable(c, maxLen) && IsDualLut(c, maxLen, lut)
    requires UsableLut(lut, maxLen)
    ensures TableDecode(lut, maxLen, input, pos, n) == SimpleDecode(c, maxLen, input, pos, n)
    decreases n
  {
    hide Pow2, Window, Find, Low, DualEntry, TotalLen, NumSyms, Sym1, Sym2, UsableLut, PrefixCode,
         TableDecode, SimpleDecode;
    NothingLeft(c, maxLen, lut, input, pos);
    if n > 0 {
      WindowBound(input, pos, maxLen);
      var v := Window(input, pos, maxLen);
      var e := Lookup(lut, maxLen, input, pos);
      assert e == DualEntry(c, maxLen, v);
      DualEntryFields(c, maxLen, v);
      TableStep(lut, maxLen, input, pos, n);
      SimpleStep(c, maxLen, input, pos, n);
      match Find(c, v, maxLen)
      case None =>
      case Some(s1) =>
        var w := maxLen - c.lens[s1];
        match Find(c, Low(v, w), w)
        case None =>
          DualDecodeIsSimple(c, maxLen, lut, input, pos + c.lens[s1], n - 1);
        case Some(s2) =>
          if n > 1 {
            SimpleTwo(c, maxLen, input, pos, n, s1, s2);
            DualDecodeIsSimple(c, maxLen, lut, input, pos + c.lens[s1] + c.lens[s2], n - 2);
          } else {
            NothingLeft(c, maxLen, lut, input, pos + c.lens[s1]);
            NothingLeft(c, maxLen, lut, input, pos + c.lens[s1] + c.lens[s2]);
          }
    }
  }

  lemma NothingLeft(c: Code, maxLen: nat, lut: seq<uint32>, input: seq<byte>, pos: nat)
    requires c.Shaped() && UsableLut(lut, maxLen)
    ensures TableDecode(lut, maxLen, input, pos, 0) == SimpleDecode(c, maxLen, input, pos, 0) == Decoded([], true)
  {
  }

  lemma TableStep(lut: seq<uint32>, maxLen: nat, input: seq<byte>, pos: nat, n: nat)
    requires UsableLut(lut, maxLen) && n > 0
    ensures var e := Lookup(lut, maxLen, input, pos);
            var b := EntryBytes(e, n);
            TableDecode(lut, maxLen, input, pos, n)
            == if TotalLen(e) == 0 then Decoded([], false)
               else TableDecode(lut, maxLen, input, pos + TotalLen(e), n - |b|).Prepend(b)
  {
    hide TotalLen, Window, EntryBytes;
  }

  lemma SimpleStep(c: Code, maxLen: nat, input: seq<byte>, pos: nat, n: nat)
    requires c.Shaped() && n > 0
    ensures SimpleDecode(c, maxLen, input, pos, n)
         == match Find(c, Window(input, pos, maxLen), maxLen)
            case None => Decoded([], false)
            case Some(s) => SimpleDecode(c, maxLen, input, pos + c.lens[s], n - 1).Prepend([s])
  {
    hide Find, Window;
  }
}
