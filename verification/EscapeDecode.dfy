/** Decoding with the escape table: one more bit is read after an escape entry. */
module EscapeDecode {
  import opened Numbers
  import opened Bits
  import opened CodeLengths
  import opened Canonical
  import opened Encoder
  import opened DecodeTables
  import opened Decoder
  import opened EscapeTable

  /** The bytes of one entry for the window v of maxLen + 1 bits. */
  function EscBytes(e: uint32, v: nat, n: nat): (b: seq<byte>)
    ensures |b| == if NumSyms(e) == 2 && n > 1 then 2 else 1
  {
    if NumSyms(e) == 2 && n > 1 then [Sym1(e), Sym2(e)] else [EscSymbol(e, v)]
  }

  /** Decoding by the maxLen-bit table, on bit positions. */
  function EscDecode(c: Code, maxLen: nat, input: seq<byte>, pos: nat, n: nat): (d: Decoded)
    requires c.Shaped() && maxLen <= 16
    decreases n
  {
    if n == 0 then Decoded([], true)
    else
      var e := EscEntry(c, maxLen, Window(input, pos, maxLen));
      if TotalLen(e) == 0 then Decoded([], false)
      else
        var b := EscBytes(e, Window(input, pos, maxLen + 1), n);
        EscDecode(c, maxLen, input, pos + TotalLen(e), n - |b|).Prepend(b)
  }

  lemma EscStep(c: Code, maxLen: nat, input: seq<byte>, pos: nat, n: nat)
    requires c.Shaped() && maxLen <= 16 && n > 0
    ensures var e := EscEntry(c, maxLen, Window(input, pos, maxLen));
            var b := EscBytes(e, Window(input, pos, maxLen + 1), n);
            EscDecode(c, maxLen, input, pos, n)
            == if TotalLen(e) == 0 then Decoded([], false)
               else EscDecode(c, maxLen, input, pos + TotalLen(e), n - |b|).Prepend(b)
  {
    hide TotalLen, Window, EscBytes, EscEntry;
  }

  lemma EscDone(c: Code, maxLen: nat, input: seq<byte>, pos: nat)
    requires c.Shaped() && maxLen <= 16
    ensures EscDecode(c, maxLen, input, pos, 0) == Decoded([], true)
    ensures SimpleDecode(c, maxLen + 1, input, pos, 0) == Decoded([], true)
  {
  }

  /** The maxLen-bit window is the longer one without its last bit. */
  lemma WindowHalf(input: seq<byte>, pos: nat, maxLen: nat)
    ensures Window(input, pos, maxLen + 1) / 2 == Window(input, pos, maxLen)
    ensures Window(input, pos, maxLen + 1) < Pow2(maxLen + 1)
  {
    WindowBound(input, pos, maxLen + 1);
  }

  lemma SecondSymbol(c: Code, maxLen: nat, input: seq<byte>, pos: nat, s1: byte, s2: byte)
    requires Decodable(c, maxLen + 1) && c.lens[s1] <= maxLen
    requires var w := maxLen - c.lens[s1]; Find(c, Low(Window(input, pos, maxLen), w), w) == Some(s2)
    ensures Find(c, Window(input, pos + c.lens[s1], maxLen + 1), maxLen + 1) == Some(s2)
  {
    hide Pow2, Window, PrefixCode;
    var l1, l2 := c.lens[s1], c.lens[s2];
    WindowTail(input, pos, l1, maxLen - l1);
    WindowHead(input, pos + l1, l2, maxLen - l1 - l2);
    WindowHead(input, pos + l1, l2, maxLen + 1 - l2);
    FindIs(c, maxLen + 1, Window(input, pos + l1, maxLen + 1), maxLen + 1, s2);
  }

  /** What the table holds for a window that starts with a shorter code. */
  lemma ShortWindow(c: Code, maxLen: nat, v: nat, s: byte)
    requires ValidMaxLen(maxLen) && Decodable(c, maxLen + 1)
    requires Find(c, v, maxLen + 1) == Some(s) && c.lens[s] <= maxLen
    ensures var e, w := EscEntry(c, maxLen, v / 2), maxLen - c.lens[s];
            && Sym1(e) == s && EscSymbol(e, v) == s
            && match Find(c, Low(v / 2, w), w)
               case None => NumSyms(e) == 1 && TotalLen(e) == c.lens[s]
               case Some(s2) => NumSyms(e) == 2 && TotalLen(e) == c.lens[s] + c.lens[s2] && Sym2(e) == s2
  {
    hide Pow2, Shr, FindBelow, DualEntry, TotalLen, NumSyms, Sym1, Sym2, PrefixCode, Low;
    HalfWindow(c, maxLen, v, s);
    FindIs(c, maxLen + 1, v / 2, maxLen, s);
    DualEntryFields(c, maxLen, v / 2);
  }

  /** When every undecodable window is rejected, the escape table decodes every input as
      one code word after the other does. */
  lemma {:induction false} EscDecodeIsSimple(c: Code, maxLen: nat, input: seq<byte>, pos: nat, n: nat)
    requires ValidMaxLen(maxLen) && maxLen < 16 && Decodable(c, maxLen + 1) && EscRejects(c, maxLen)
    ensures EscDecode(c, maxLen, input, pos, n) == SimpleDecode(c, maxLen + 1, input, pos, n)
    decreases n, 1
  {
    hide Pow2, Window, Find, Low, EscEntry, TotalLen, NumSyms, Sym1, Sym2, EscSymbol, PrefixCode, EscDecode,
         SimpleDecode;
    EscDone(c, maxLen, input, pos);
    if n > 0 {
      var v := Window(input, pos, maxLen + 1);
      WindowHalf(input, pos, maxLen);
      EscStep(c, maxLen, input, pos, n);
      SimpleStep(c, maxLen + 1, input, pos, n);
      match Find(c, v, maxLen + 1)
      case None =>
        assert Undecodable(c, maxLen + 1, v);
      case Some(s) =>
        if c.lens[s] <= maxLen {
          ShortWindow(c, maxLen, v, s);
          ShortSteps(c, maxLen, input, pos, n, s);
        } else {
          LongWindow(c, maxLen, v, s);
          EscDecodeIsSimple(c, maxLen, input, pos + maxLen + 1, n - 1);
        }
    }
  }

  lemma LongWindow(c: Code, maxLen: nat, v: nat, s: byte)
    requires ValidMaxLen(maxLen) && Decodable(c, maxLen + 1)
    requires Find(c, v, maxLen + 1) == Some(s) && c.lens[s] > maxLen
    ensures c.lens[s] == maxLen + 1
    ensures var e := EscEntry(c, maxLen, v / 2);
            EscSymbol(e, v) == s && NumSyms(e) == 3 && TotalLen(e) == maxLen + 1
  {
    hide Pow2, Shr, EscEntry, TotalLen, NumSyms, EscSymbol;
    FullWindow(c, maxLen, v, s);
    LongEntry(c, maxLen, v, s);
  }

  lemma {:induction false} ShortSteps(c: Code, maxLen: nat, input: seq<byte>, pos: nat, n: nat, s: byte)
    requires ValidMaxLen(maxLen) && maxLen < 16 && Decodable(c, maxLen + 1) && EscRejects(c, maxLen) && n > 0
    requires Find(c, Window(input, pos, maxLen + 1), maxLen + 1) == Some(s) && c.lens[s] <= maxLen
    ensures EscDecode(c, maxLen, input, pos, n) == SimpleDecode(c, maxLen + 1, input, pos, n)
    decreases n, 0
  {
    hide Pow2, Window, Find, Low, EscEntry, TotalLen, NumSyms, Sym1, Sym2, EscSymbol, PrefixCode, EscDecode,
         SimpleDecode;
    var v, l := Window(input, pos, maxLen + 1), c.lens[s];
    WindowHalf(input, pos, maxLen);
    ShortWindow(c, maxLen, v, s);
    EscStep(c, maxLen, input, pos, n);
    SimpleStep(c, maxLen + 1, input, pos, n);
    match Find(c, Low(v / 2, maxLen - l), maxLen - l)
    case None =>
      EscDecodeIsSimple(c, maxLen, input, pos + l, n - 1);
    case Some(s2) =>
      SecondSymbol(c, maxLen, input, pos, s, s2);
      EscDone(c, maxLen, input, pos + l);
      EscDone(c, maxLen, input, pos + l + c.lens[s2]);
      if n > 1 {
        SimpleStep(c, maxLen + 1, input, pos + l, n - 1);
        EscDecodeIsSimple(c, maxLen, input, pos + l + c.lens[s2], n - 2);
        PrependTwice(SimpleDecode(c, maxLen + 1, input, pos + l + c.lens[s2], n - 2), [s], [s2]);
      }
  }

  /** A text whose first w bits are the number v. */
  lemma TextFor(v: nat, w: nat) returns (input: seq<byte>)
    requires v < Pow2(w)
    ensures Window(input, 0, w) == v
  {
    var b := ToBits(v, w);
    input := Pack(b);
    PackBits(b);
    assert StandsAt(input, 0, b);
    WindowOf(input, 0, b);
    ValueToBits(v, w);
    DivUnique(v, Pow2(w), 0, v);
  }

  /** With an odd number of long codes some input decodes where it should not. */
  lemma OddDecodesWrongly(c: Code, maxLen: nat, v: nat) returns (input: seq<byte>)
    requires ValidMaxLen(maxLen) && maxLen < 16 && c.Shaped() && ReadsZero(c, maxLen, v)
    ensures EscDecode(c, maxLen, input, 0, 1) == Decoded([0], true)
    ensures SimpleDecode(c, maxLen + 1, input, 0, 1) == Decoded([], false)
  {
    hide Pow2, Window, Find, EscEntry, TotalLen, NumSyms, Sym1, Sym2, EscSymbol, EscDecode, SimpleDecode;
    input := TextFor(v, maxLen + 1);
    WindowHalf(input, 0, maxLen);
    EscStep(c, maxLen, input, 0, 1);
    SimpleStep(c, maxLen + 1, input, 0, 1);
    EscDone(c, maxLen, input, maxLen + 1);
  }

  /** Every input decodes as it should exactly when the long codes are even in number. */
  lemma EscDecodeIff(c: Code, maxLen: nat)
    requires ValidMaxLen(maxLen) && maxLen < 16 && c.Shaped() && IsCanonical(c.lens, maxLen + 1, c.codes)
    requires Kraft(c.lens, maxLen + 1) <= Pow2(maxLen + 1)
    ensures (forall input: seq<byte>, n: nat ::
              EscDecode(c, maxLen, input, 0, n) == SimpleDecode(c, maxLen + 1, input, 0, n))
       <==> CountOf(c.lens, maxLen + 1, SYMBOLS) % 2 == 0
  {
    hide Pow2, EscRejects, ReadsZero, EscDecode, SimpleDecode, CountOf, PrefixCode, IsCanonical, Kraft;
    CanonicalIsPrefixCode(c.lens, maxLen + 1, c.codes);
    EscExactIff(c, maxLen);
    if EscRejects(c, maxLen) {
      forall input: seq<byte>, n: nat
        ensures EscDecode(c, maxLen, input, 0, n) == SimpleDecode(c, maxLen + 1, input, 0, n)
      {
        EscDecodeIsSimple(c, maxLen, input, 0, n);
      }
    } else {
      var v: nat :| ReadsZero(c, maxLen, v);
      var input := OddDecodesWrongly(c, maxLen, v);
    }
  }
}
