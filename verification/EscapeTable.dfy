/** The u16 single-symbol table, and the escape table: codes of up to maxLen + 1 bits in
    a table indexed by maxLen bits.  A slot below which only codes of maxLen + 1 bits lie
    keeps both siblings, and one more bit chooses between them. */
module EscapeTable {
  import opened Numbers
  import opened HuffmanTree
  import opened CodeLengths
  import opened Canonical
  import opened Encoder
  import opened DecodeTables

  // ----- u16 table -----

  /** Symbol in the low byte, length above it. */
  function PackEntry16(s: byte, len: byte): (e: uint16)
    requires len <= 16
    ensures e == len * 0x100 + s
  {
    assert BitOr(len * 0x100, s) == len * 0x100 + s by {
      Pow2Byte();
      OrAdds(len, s, 8);
    }
    BitOr(len * 0x100, s)
  }

  function Entry16(c: Code, maxLen: nat, i: nat): uint16
    requires c.Shaped() && maxLen <= 16
  {
    Below16(c, maxLen, i, SYMBOLS)
  }

  function Below16(c: Code, maxLen: nat, i: nat, k: nat): uint16
    requires c.Shaped() && maxLen <= 16 && k <= SYMBOLS
  {
    match FindBelow(c, i, maxLen, k)
    case None => 0
    case Some(s) => PackEntry16(s, c.lens[s])
  }

  method FillSingle16(c: Code, maxLen: nat, lut: array<uint16>, s: nat)
    requires ValidMaxLen(maxLen) && Decodable(c, maxLen) && lut.Length == Pow2(maxLen) && s < SYMBOLS
    modifies lut
    ensures forall i :: 0 <= i < lut.Length ==>
              lut[i] == if StartsWith(c, i, maxLen, s) then PackEntry16(s, c.lens[s]) else old(lut[i])
  {
    hide Pow2, BitOr, PackEntry16;
    var len := c.lens[s];
    if len != 0 {
      SpanInside(c.codes[s], len, maxLen - len);
      FillSpan(lut, c.codes[s] * Pow2(maxLen - len), Pow2(maxLen - len), PackEntry16(s, len));
    }
  }

  /** build_decode_lut16 */
  method BuildDecodeLut16(c: Code, maxLen: nat, lut: array<uint16>)
    requires ValidMaxLen(maxLen) && Decodable(c, maxLen) && lut.Length == Pow2(maxLen)
    modifies lut
    ensures forall i :: 0 <= i < lut.Length ==> lut[i] == Entry16(c, maxLen, i)
  {
    Clear(lut, 0);
    for s := 0 to SYMBOLS
      invariant forall i :: 0 <= i < lut.Length ==> lut[i] == Below16(c, maxLen, i, s)
    {
      FillSingle16(c, maxLen, lut, s);
    }
  }

  lemma Entry16Fields(c: Code, maxLen: nat, i: nat)
    requires ValidMaxLen(maxLen) && c.Shaped()
    ensures var d := Entry16(c, maxLen, i);
            match Find(c, i, maxLen)
            case None => d == 0
            case Some(s) => d != 0 && d % 0x100 == s && d / 0x100 == c.lens[s]
  {
    hide Pow2, BitOr, Shr, FindBelow;
    match Find(c, i, maxLen)
    case None =>
    case Some(s) => DivUnique(PackEntry16(s, c.lens[s]), 0x100, c.lens[s], s);
  }

  /** At every index the u16 table agrees with the dual table on the first symbol, holds
      that symbol's own length, and is 0 exactly when the dual entry is. */
  lemma SingleAgreesWithDual(c: Code, maxLen: nat, i: nat)
    requires ValidMaxLen(maxLen) && c.Shaped()
    ensures Entry16(c, maxLen, i) == 0 <==> TotalLen(DualEntry(c, maxLen, i)) == 0
    ensures Entry16(c, maxLen, i) != 0 ==>
              && Sym1(DualEntry(c, maxLen, i)) == Entry16(c, maxLen, i) % 0x100
              && Entry16(c, maxLen, i) / 0x100 == c.lens[Sym1(DualEntry(c, maxLen, i))]
              && StartsWith(c, i, maxLen, Entry16(c, maxLen, i) % 0x100)
  {
    hide Pow2, BitOr, BitAnd, Shr, FindBelow, DualEntry, Entry16, Sym1, Sym2, TotalLen, NumSyms;
    DualEntryFields(c, maxLen, i);
    Entry16Fields(c, maxLen, i);
  }

  // ----- escape table -----

  /** The symbol below k whose (maxLen + 1)-bit code is v. */
  function LongBelow(c: Code, maxLen: nat, v: nat, k: nat): (r: Option<byte>)
    requires c.Shaped() && k <= SYMBOLS
    ensures r.Some? ==> r.value < k && c.lens[r.value] == maxLen + 1 && c.codes[r.value] == v
    ensures r.None? ==> forall s :: 0 <= s < k && c.lens[s] == maxLen + 1 ==> c.codes[s] != v
  {
    if k == 0 then None
    else if c.lens[k - 1] == maxLen + 1 && c.codes[k - 1] == v then Some(k - 1)
    else LongBelow(c, maxLen, v, k - 1)
  }

  function OrZeroByte(o: Option<byte>): byte {
    match o
    case None => 0
    case Some(s) => s
  }

  /** The entry of a slot whose siblings are a (next bit 0) and b (next bit 1). */
  function SiblingEntry(a: Option<byte>, b: Option<byte>, maxLen: nat): uint32
    requires maxLen <= 16
  {
    if a.None? && b.None? then 0
    else PackEntry(OrZeroByte(a), OrZeroByte(b), maxLen + 1, 3)
  }

  function EscBelow(c: Code, maxLen: nat, i: nat, k: nat): uint32
    requires c.Shaped() && maxLen <= 16 && k <= SYMBOLS
  {
    if Find(c, i, maxLen).Some? then DualEntry(c, maxLen, i)
    else SiblingEntry(LongBelow(c, maxLen, 2 * i, k), LongBelow(c, maxLen, 2 * i + 1, k), maxLen)
  }

  /** What build_decode_lut_esc stores at i. */
  function EscEntry(c: Code, maxLen: nat, i: nat): uint32
    requires c.Shaped() && maxLen <= 16
  {
    EscBelow(c, maxLen, i, SYMBOLS)
  }

  /** Passes 1 and 2 never touch the slot above a long code: no shorter code starts it. */
  lemma SlotUntouched(c: Code, maxLen: nat, s: nat)
    requires Decodable(c, maxLen + 1) && s < SYMBOLS && c.lens[s] == maxLen + 1
    ensures Find(c, c.codes[s] / 2, maxLen) == None
    ensures c.codes[s] / 2 < Pow2(maxLen)
  {
    var v := c.codes[s];
    assert Shr(v, 1) == v / 2 by { assert Pow2(1) == 2 * Pow2(0); }
    match Find(c, v / 2, maxLen)
    case None =>
    case Some(t) =>
      ShrShr(v, 1, maxLen - c.lens[t]);
      LongNotPrefixed(c, maxLen, s, t);
  }

  lemma LongNotPrefixed(c: Code, maxLen: nat, s: nat, t: nat)
    requires Decodable(c, maxLen + 1) && s < SYMBOLS && t < SYMBOLS
    requires c.lens[s] == maxLen + 1 && 0 < c.lens[t] <= maxLen
    ensures Shr(c.codes[s], 1 + maxLen - c.lens[t]) != c.codes[t]
  {
    assert PrefixFree(c.lens, c.codes, t, s);
  }

  lemma LongIs(c: Code, maxLen: nat, s: nat)
    requires Decodable(c, maxLen + 1) && s < SYMBOLS && c.lens[s] == maxLen + 1
    ensures LongBelow(c, maxLen, c.codes[s], SYMBOLS) == Some(s)
  {
    var t := LongBelow(c, maxLen, c.codes[s], SYMBOLS).value;
    if s != t {
      assert Shr(c.codes[s], 0) == c.codes[s] by { assert Pow2(0) == 1; }
      StartsUnique(c, maxLen + 1, c.codes[s], maxLen + 1, t, s);
    }
  }

  lemma SiblingFields(a: Option<byte>, b: Option<byte>, maxLen: nat)
    requires maxLen <= 16
    ensures Sym1(SiblingEntry(a, b, maxLen)) == OrZeroByte(a)
    ensures Sym2(SiblingEntry(a, b, maxLen)) == OrZeroByte(b)
    ensures TotalLen(SiblingEntry(a, b, maxLen)) == if a.None? && b.None? then 0 else maxLen + 1
    ensures NumSyms(SiblingEntry(a, b, maxLen)) == if a.None? && b.None? then 0 else 3
  {
    ZeroFields();
    EntryFields(OrZeroByte(a), OrZeroByte(b), maxLen + 1, 3);
  }

  /** Symbol s changes no entry but that of its own slot. */
  lemma LongNext(c: Code, maxLen: nat, s: nat)
    requires c.Shaped() && maxLen <= 16 && s < SYMBOLS
    ensures forall i: nat :: c.lens[s] != maxLen + 1 || i != c.codes[s] / 2 ==>
              EscBelow(c, maxLen, i, s + 1) == EscBelow(c, maxLen, i, s)
  {
    hide Find, DualEntry, PackEntry;
  }

  /** In its own slot it replaces the symbol on its side. */
  lemma LongAdded(c: Code, maxLen: nat, s: nat, p: nat)
    requires c.Shaped() && maxLen <= 16 && s < SYMBOLS && c.lens[s] == maxLen + 1
    requires p == c.codes[s] / 2 && Find(c, p, maxLen) == None
    ensures var e := EscBelow(c, maxLen, p, s);
            var b0 := if c.codes[s] % 2 == 1 then Sym1(e) else s;
            var b1 := if c.codes[s] % 2 == 1 then s else Sym2(e);
            EscBelow(c, maxLen, p, s + 1) == PackEntry(b0, b1, maxLen + 1, 3)
  {
    hide Find, DualEntry, PackEntry, Sym1, Sym2;
    SiblingFields(LongBelow(c, maxLen, 2 * p, s), LongBelow(c, maxLen, 2 * p + 1, s), maxLen);
  }

  /** Pass 3, one symbol: adds it to the escape entry of its slot. */
  method AddLong(c: Code, maxLen: nat, lut: array<uint32>, s: nat)
    requires ValidMaxLen(maxLen) && Decodable(c, maxLen + 1) && lut.Length == Pow2(maxLen) && s < SYMBOLS
    requires forall i :: 0 <= i < lut.Length ==> lut[i] == EscBelow(c, maxLen, i, s)
    modifies lut
    ensures forall i :: 0 <= i < lut.Length ==> lut[i] == EscBelow(c, maxLen, i, s + 1)
  {
    hide Pow2, BitOr, PackEntry, Find, EscBelow, LongBelow, Sym1, Sym2, PrefixCode;
    LongNext(c, maxLen, s);
    if c.lens[s] != maxLen + 1 {
      return;
    }
    var code := c.codes[s];
    var p := code / 2;
    SlotUntouched(c, maxLen, s);
    var e := lut[p];
    assert e == EscBelow(c, maxLen, p, s);
    LongAdded(c, maxLen, s, p);
    var b0, b1 := Sym1(e), Sym2(e);
    if code % 2 == 1 {
      b1 := s;
    } else {
      b0 := s;
    }
    lut[p] := PackEntry(b0, b1, maxLen + 1, 3);
  }

  /** build_decode_lut_esc, for codes of up to maxLen + 1 bits. */
  method BuildDecodeLutEsc(c: Code, maxLen: nat, lut: array<uint32>)
    requires ValidMaxLen(maxLen) && Decodable(c, maxLen + 1) && lut.Length == Pow2(maxLen)
    modifies lut
    ensures forall i :: 0 <= i < lut.Length ==> lut[i] == EscEntry(c, maxLen, i)
  {
    Clear(lut, 0);
    FillSingles(c, maxLen, maxLen + 1, lut);
    FillDuals(c, maxLen, maxLen + 1, lut);
    for s := 0 to SYMBOLS
      invariant forall i :: 0 <= i < lut.Length ==> lut[i] == EscBelow(c, maxLen, i, s)
    {
      AddLong(c, maxLen, lut, s);
    }
  }

  // ----- the escape table against a direct table of one more bit -----

  /** The first symbol that a decoder reads from an escape-table entry for the
      (maxLen + 1)-bit window v. */
  function EscSymbol(e: uint32, v: nat): byte {
    if NumSyms(e) == 3 && v % 2 == 1 then Sym2(e) else Sym1(e)
  }

  lemma HalfWindow(c: Code, maxLen: nat, v: nat, s: nat)
    requires c.Shaped() && s < SYMBOLS && 0 < c.lens[s] <= maxLen
    ensures StartsWith(c, v, maxLen + 1, s) <==> StartsWith(c, v / 2, maxLen, s)
  {
    assert Shr(v, 1) == v / 2 by { assert Pow2(1) == 2 * Pow2(0); }
    ShrShr(v, 1, maxLen - c.lens[s]);
  }

  lemma FullWindow(c: Code, maxLen: nat, v: nat, s: nat)
    requires c.Shaped() && s < SYMBOLS && c.lens[s] == maxLen + 1
    ensures StartsWith(c, v, maxLen + 1, s) <==> c.codes[s] == v
  {
    assert Shr(v, 0) == v by { assert Pow2(0) == 1; }
  }

  /** Refinement: on every window that begins with a code, the maxLen-bit lookup plus one
      more bit gives the symbol and the length of the direct (maxLen + 1)-bit table; a
      dual entry holds the sum of that length and its second symbol's, and that symbol is
      the one that the rest of the shorter window begins with. */
  lemma EscRefinesDirect(c: Code, maxLen: nat, v: nat)
    requires ValidMaxLen(maxLen + 1) && maxLen > 0 && Decodable(c, maxLen + 1)
    requires Entry16(c, maxLen + 1, v) != 0
    ensures var e, d := EscEntry(c, maxLen, v / 2), Entry16(c, maxLen + 1, v);
            && (if v % 2 == 1 && NumSyms(e) == 3 then Sym2(e) else Sym1(e)) == d % 0x100
            && EscSymbol(e, v) == d % 0x100
            && NumSyms(e) in {1, 2, 3} && (NumSyms(e) == 3 <==> d / 0x100 == maxLen + 1)
            && (NumSyms(e) != 2 ==> TotalLen(e) == d / 0x100)
            && (NumSyms(e) == 2 ==> TotalLen(e) == d / 0x100 + c.lens[Sym2(e)])
            && d / 0x100 <= maxLen + 1
            && (NumSyms(e) == 2 ==> d / 0x100 <= maxLen && SecondIs(c, v / 2, maxLen - d / 0x100, Sym2(e)))
  {
    hide Pow2, BitOr, BitAnd, Shr, FindBelow, Entry16, EscEntry, Sym1, Sym2, TotalLen, NumSyms;
    Entry16Fields(c, maxLen + 1, v);
    var s := Find(c, v, maxLen + 1).value;
    if c.lens[s] <= maxLen {
      HalfWindow(c, maxLen, v, s);
      ShortEntry(c, maxLen, v / 2, s);
    } else {
      FullWindow(c, maxLen, v, s);
      LongEntry(c, maxLen, v, s);
    }
  }

  lemma LongEntry(c: Code, maxLen: nat, v: nat, s: byte)
    requires ValidMaxLen(maxLen) && Decodable(c, maxLen + 1)
    requires c.lens[s] == maxLen + 1 && c.codes[s] == v
    ensures var e := EscEntry(c, maxLen, v / 2);
            EscSymbol(e, v) == s && NumSyms(e) == 3 && TotalLen(e) == maxLen + 1
  {
    hide Pow2, BitOr, BitAnd, Shr, FindBelow, LongBelow;
    SlotUntouched(c, maxLen, s);
    LongIs(c, maxLen, s);
    SiblingFields(LongBelow(c, maxLen, 2 * (v / 2), SYMBOLS),
                  LongBelow(c, maxLen, 2 * (v / 2) + 1, SYMBOLS), maxLen);
  }

  /** s is the symbol that the last w bits of i begin with. */
  predicate SecondIs(c: Code, i: nat, w: nat, s: byte)
    requires c.Shaped()
  {
    Find(c, Low(i, w), w) == Some(s)
  }

  lemma ShortEntry(c: Code, maxLen: nat, i: nat, s: byte)
    requires ValidMaxLen(maxLen) && Decodable(c, maxLen + 1) && StartsWith(c, i, maxLen, s)
    ensures var e := EscEntry(c, maxLen, i);
            && Sym1(e) == s && (NumSyms(e) == 1 || NumSyms(e) == 2)
            && TotalLen(e) == (c.lens[s] + if NumSyms(e) == 2 then c.lens[Sym2(e)] else 0)
            && (NumSyms(e) == 2 ==> SecondIs(c, i, maxLen - c.lens[s], Sym2(e)))
  {
    hide Pow2, Shr, FindBelow, DualEntry, PackEntry, TotalLen, Sym1, Sym2, NumSyms, PrefixCode, Low;
    FindIs(c, maxLen + 1, i, maxLen, s);
    DualEntryFields(c, maxLen, i);
  }

  /** A window that begins with no code. */
  predicate Undecodable(c: Code, maxLen: nat, v: nat)
    requires c.Shaped()
  {
    v < Pow2(maxLen) && Find(c, v, maxLen) == None
  }

  /** The escape table is exact when it also rejects every window that begins with no code. */
  ghost predicate EscRejects(c: Code, maxLen: nat)
    requires c.Shaped() && maxLen <= 16
  {
    forall v: nat :: Undecodable(c, maxLen + 1, v) ==> TotalLen(EscEntry(c, maxLen, v / 2)) == 0
  }

  lemma UndecodableEntry(c: Code, maxLen: nat, v: nat)
    requires ValidMaxLen(maxLen) && Decodable(c, maxLen + 1) && Find(c, v, maxLen + 1) == None
    ensures LongBelow(c, maxLen, v, SYMBOLS) == None
    ensures var sibling := if v % 2 == 0 then v + 1 else v - 1;
            TotalLen(EscEntry(c, maxLen, v / 2)) == 0 <==> LongBelow(c, maxLen, sibling, SYMBOLS) == None
  {
    hide Pow2, Shr, FindBelow, LongBelow, PackEntry, DualEntry, TotalLen, Sym1, Sym2, NumSyms, PrefixCode;
    match Find(c, v / 2, maxLen)
    case Some(t) =>
      HalfWindow(c, maxLen, v, t);
      assert false;
    case None =>
      match LongBelow(c, maxLen, v, SYMBOLS)
      case Some(s) =>
        FullWindow(c, maxLen, v, s);
        assert false;
      case None =>
        SiblingFields(LongBelow(c, maxLen, 2 * (v / 2), SYMBOLS),
                      LongBelow(c, maxLen, 2 * (v / 2) + 1, SYMBOLS), maxLen);
  }

  // ----- long codes come in pairs exactly when their number is even -----

  lemma LongCode(c: Code, maxLen: nat, s: nat)
    requires c.Shaped() && IsCanonical(c.lens, maxLen + 1, c.codes) && s < SYMBOLS
    requires c.lens[s] == maxLen + 1
    ensures c.codes[s] == FirstLong(c, maxLen) + CountOf(c.lens, maxLen + 1, s)
  {
    assert Pow2(0) == 1;
    assert c.codes[s] * Pow2(0) == Mass(c.lens, maxLen + 1, maxLen + 1, s);
    MassCount(c.lens, maxLen + 1, maxLen + 1, s);
  }

  /** The smallest code of maxLen + 1 bits. */
  ghost function FirstLong(c: Code, maxLen: nat): int
    requires c.Shaped() && Bounded(c.lens, maxLen + 1)
  {
    Mass(c.lens, maxLen + 1, maxLen + 1, 0)
  }

  lemma {:induction false} EvenSum(p: seq<int>, k: nat)
    requires k <= |p| && forall i :: 0 <= i < |p| ==> p[i] % 2 == 0
    ensures Sum(p, k) % 2 == 0
  {
    if k > 0 {
      EvenSum(p, k - 1);
    }
  }

  lemma FirstLongEven(c: Code, maxLen: nat)
    requires c.Shaped() && Bounded(c.lens, maxLen + 1)
    ensures FirstLong(c, maxLen) % 2 == 0 && FirstLong(c, maxLen) >= 0
  {
    var p := BeforeShares(c.lens, maxLen + 1, maxLen + 1, 0);
    forall i | 0 <= i < |p| ensures p[i] % 2 == 0 && p[i] >= 0 {
      if p[i] != 0 {
        assert p[i] == 2 * Pow2(maxLen - c.lens[i]);
      }
    }
    EvenSum(p, |p|);
    SumNat(p, 0, |p|);
  }

  lemma {:induction false} CountReaches(lens: seq<nat>, l: nat, k: nat, j: nat) returns (s: nat)
    requires k <= |lens| && j < CountOf(lens, l, k)
    ensures s < k && lens[s] == l && CountOf(lens, l, s) == j
  {
    if j == CountOf(lens, l, k - 1) {
      s := k - 1;
    } else {
      s := CountReaches(lens, l, k - 1, j);
    }
  }

  lemma {:induction false} CountMono(lens: seq<nat>, l: nat, s: nat, k: nat)
    requires s <= k <= |lens|
    ensures CountOf(lens, l, s) <= CountOf(lens, l, k)
  {
    if s < k {
      CountMono(lens, l, s, k - 1);
    }
  }

  /** The long codes are the numbers from FirstLong on, as many as there are such codes. */
  lemma LongRange(c: Code, maxLen: nat, v: nat)
    requires c.Shaped() && IsCanonical(c.lens, maxLen + 1, c.codes)
    ensures LongBelow(c, maxLen, v, SYMBOLS).Some? <==>
              FirstLong(c, maxLen) <= v < FirstLong(c, maxLen) + CountOf(c.lens, maxLen + 1, SYMBOLS)
  {
    hide Pow2, Mass, FirstLong;
    var f, n := FirstLong(c, maxLen), CountOf(c.lens, maxLen + 1, SYMBOLS);
    match LongBelow(c, maxLen, v, SYMBOLS)
    case Some(s) =>
      LongCode(c, maxLen, s);
      CountMono(c.lens, maxLen + 1, s + 1, SYMBOLS);
    case None =>
      if f <= v < f + n {
        var s := CountReaches(c.lens, maxLen + 1, SYMBOLS, v - f);
        LongCode(c, maxLen, s);
      }
  }

  /** The comment on the escape table says that codes of maxLen + 1 bits come in sibling
      pairs.  The table rejects every undecodable window exactly when they do, that is,
      when their number is even; otherwise the missing sibling decodes as symbol 0. */
  lemma EscExactIff(c: Code, maxLen: nat)
    requires ValidMaxLen(maxLen) && c.Shaped() && IsCanonical(c.lens, maxLen + 1, c.codes)
    requires Kraft(c.lens, maxLen + 1) <= Pow2(maxLen + 1)
    ensures (forall v: nat :: v < Pow2(maxLen + 1) && Find(c, v, maxLen + 1) == None ==>
               TotalLen(EscEntry(c, maxLen, v / 2)) == 0)
       <==> CountOf(c.lens, maxLen + 1, SYMBOLS) % 2 == 0
    ensures EscRejects(c, maxLen) <==> CountOf(c.lens, maxLen + 1, SYMBOLS) % 2 == 0
    ensures !EscRejects(c, maxLen) ==> exists v: nat :: ReadsZero(c, maxLen, v)
  {
    CanonicalIsPrefixCode(c.lens, maxLen + 1, c.codes);
    FirstLongEven(c, maxLen);
    var n := CountOf(c.lens, maxLen + 1, SYMBOLS);
    if n % 2 == 0 {
      forall v: nat | Undecodable(c, maxLen + 1, v) ensures TotalLen(EscEntry(c, maxLen, v / 2)) == 0 {
        EvenRejects(c, maxLen, v);
      }
    } else {
      OddAccepts(c, maxLen);
      var v: nat :| ReadsZero(c, maxLen, v);
      assert Undecodable(c, maxLen + 1, v);
    }
  }

  /** Only the long codes have an odd share. */
  lemma {:induction false} ShareParity(lens: seq<nat>, maxLen: nat, k: nat)
    requires Bounded(lens, maxLen + 1) && k <= |lens|
    ensures Sum(UsedShares(lens, maxLen + 1), k) % 2 == CountOf(lens, maxLen + 1, k) % 2
  {
    hide Pow2;
    if k > 0 {
      ShareParity(lens, maxLen, k - 1);
      PowerParity(maxLen + 1 - lens[k - 1]);
    }
  }

  lemma PowerParity(n: nat)
    ensures Pow2(n) % 2 == if n == 0 then 1 else 0
  {
  }

  /** Where the comment is right: a code that fills the code space has its long codes in
      pairs, so its escape table is exact. */
  lemma CompleteIsExact(c: Code, maxLen: nat)
    requires ValidMaxLen(maxLen) && c.Shaped() && IsCanonical(c.lens, maxLen + 1, c.codes)
    requires Kraft(c.lens, maxLen + 1) == Pow2(maxLen + 1)
    ensures EscRejects(c, maxLen)
  {
    hide Pow2, EscRejects;
    EscExactIff(c, maxLen);
    ShareParity(c.lens, maxLen, SYMBOLS);
    PowerParity(maxLen + 1);
  }

  lemma EvenRejects(c: Code, maxLen: nat, v: nat)
    requires ValidMaxLen(maxLen) && Decodable(c, maxLen + 1) && IsCanonical(c.lens, maxLen + 1, c.codes)
    requires CountOf(c.lens, maxLen + 1, SYMBOLS) % 2 == 0 && Undecodable(c, maxLen + 1, v)
    ensures TotalLen(EscEntry(c, maxLen, v / 2)) == 0
  {
    hide Pow2, Mass, FirstLong, EscEntry, LongBelow, CountOf, TotalLen, Find;
    FirstLongEven(c, maxLen);
    UndecodableEntry(c, maxLen, v);
    var sibling := if v % 2 == 0 then v + 1 else v - 1;
    LongRange(c, maxLen, v);
    LongRange(c, maxLen, sibling);
  }

  lemma DoubleStep(n: nat)
    ensures Pow2(n + 1) == 2 * Pow2(n)
  {
  }

  /** v begins with no code, yet the escape table reads symbol 0 and maxLen + 1 bits. */
  ghost predicate ReadsZero(c: Code, maxLen: nat, v: nat)
    requires c.Shaped() && maxLen <= 16
  {
    && Undecodable(c, maxLen + 1, v)
    && EscSymbol(EscEntry(c, maxLen, v / 2), v) == 0 && TotalLen(EscEntry(c, maxLen, v / 2)) == maxLen + 1
  }

  lemma MissingRightSibling(c: Code, maxLen: nat, v: nat)
    requires ValidMaxLen(maxLen) && Decodable(c, maxLen + 1) && v % 2 == 1
    requires Undecodable(c, maxLen + 1, v)
    requires LongBelow(c, maxLen, v, SYMBOLS) == None && LongBelow(c, maxLen, v - 1, SYMBOLS).Some?
    ensures ReadsZero(c, maxLen, v)
  {
    hide Pow2, Shr, FindBelow, LongBelow, PackEntry, DualEntry, TotalLen, Sym1, Sym2, NumSyms, PrefixCode;
    match Find(c, v / 2, maxLen)
    case Some(t) =>
      HalfWindow(c, maxLen, v, t);
      assert false;
    case None =>
      SiblingFields(LongBelow(c, maxLen, v - 1, SYMBOLS), LongBelow(c, maxLen, v, SYMBOLS), maxLen);
  }

  /** The slot after the last long code. */
  lemma OddAccepts(c: Code, maxLen: nat)
    requires ValidMaxLen(maxLen) && Decodable(c, maxLen + 1) && IsCanonical(c.lens, maxLen + 1, c.codes)
    requires CountOf(c.lens, maxLen + 1, SYMBOLS) % 2 == 1
    ensures exists v: nat :: ReadsZero(c, maxLen, v)
  {
    hide Pow2, PrefixFree, IsCanonical, Mass, FirstLong, EscEntry, LongBelow, CountOf, TotalLen, Find;
    FirstLongEven(c, maxLen);
    var n := CountOf(c.lens, maxLen + 1, SYMBOLS);
    var v: nat := FirstLong(c, maxLen) + n;
    LongRange(c, maxLen, v);
    LongRange(c, maxLen, v - 1);
    var s := LongBelow(c, maxLen, v - 1, SYMBOLS).value;
    SlotUntouched(c, maxLen, s);
    assert Pow2(maxLen + 1) == 2 * Pow2(maxLen) by { DoubleStep(maxLen); }
    AfterLastLong(c, maxLen, v, s);
    assert Undecodable(c, maxLen + 1, v);
    MissingRightSibling(c, maxLen, v);
  }

  /** The right neighbour of an even long code starts with no shorter code either. */
  lemma AfterLastLong(c: Code, maxLen: nat, v: nat, s: nat)
    requires Decodable(c, maxLen + 1) && s < SYMBOLS && v % 2 == 1
    requires c.lens[s] == maxLen + 1 && c.codes[s] == v - 1
    requires LongBelow(c, maxLen, v, SYMBOLS) == None
    ensures Find(c, v, maxLen + 1) == None
  {
    if Find(c, v, maxLen + 1).Some? {
      NotFirst(c, maxLen, v, s, Find(c, v, maxLen + 1).value);
    }
  }

  lemma NotFirst(c: Code, maxLen: nat, v: nat, s: nat, t: byte)
    requires Decodable(c, maxLen + 1) && s < SYMBOLS && v % 2 == 1
    requires c.lens[s] == maxLen + 1 && c.codes[s] == v - 1
    requires LongBelow(c, maxLen, v, SYMBOLS) == None
    ensures !StartsWith(c, v, maxLen + 1, t)
  {
    hide Shr, Pow2, FindBelow, LongBelow;
    SlotUntouched(c, maxLen, s);
    if 0 < c.lens[t] <= maxLen {
      HalfWindow(c, maxLen, v, t);
      NoneStarts(c, v / 2, maxLen, t);
    } else if c.lens[t] == maxLen + 1 {
      FullWindow(c, maxLen, v, t);
    }
  }

  lemma NoneStarts(c: Code, i: nat, w: nat, t: byte)
    requires c.Shaped() && Find(c, i, w) == None
    ensures !StartsWith(c, i, w, t)
  {
  }
}
