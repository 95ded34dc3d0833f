/** Parsing table indices by prefix code: which symbol an index starts with, and the
    decode tables that store the answers. */
module DecodeTables {
  import opened Numbers
  import opened Canonical
  import opened Encoder

  // ----- table entries -----

  lemma PackedSum(s1: byte, s2: byte, len: byte, n: byte)
    ensures BitOr(BitOr(BitOr(n * 0x100_0000, len * 0x1_0000), s2 * 0x100), s1)
         == n * 0x100_0000 + len * 0x1_0000 + s2 * 0x100 + s1
  {
    hide Pow2, BitOr;
    FieldPowers();
    OrAdds(n, len * 0x1_0000, 24);
    OrAdds(n * 0x100 + len, s2 * 0x100, 16);
    OrAdds(n * 0x1_0000 + len * 0x100 + s2, s1, 8);
  }

  lemma FieldPowers()
    ensures Pow2(0) == 1 && Pow2(8) == 0x100 && Pow2(16) == 0x1_0000 && Pow2(24) == 0x100_0000
  {
    Pow2Values();
  }

  /** pack_lut_entry */
  function PackEntry(s1: byte, s2: byte, len: byte, n: byte): (e: uint32)
    ensures e == n * 0x100_0000 + len * 0x1_0000 + s2 * 0x100 + s1
  {
    PackedSum(s1, s2, len, n);
    BitOr(BitOr(BitOr(n * 0x100_0000, len * 0x1_0000), s2 * 0x100), s1)
  }

  function Sym1(e: uint32): byte { BitAnd(e, 0xFF) }
  function Sym2(e: uint32): byte { BitAnd(Shr(e, 8), 0xFF) }
  function TotalLen(e: uint32): byte { BitAnd(Shr(e, 16), 0xFF) }
  function NumSyms(e: uint32): byte { BitAnd(Shr(e, 24), 0xFF) }

  lemma ByteField(e: uint32, n: nat, hi: nat, b: byte, lo: nat, p: nat)
    requires p == Pow2(n) && lo < p && e == (hi * 0x100 + b) * p + lo
    ensures BitAnd(Shr(e, n), 0xFF) == b
  {
    DivUnique(e, p, hi * 0x100 + b, lo);
    LowField(hi, b);
  }

  lemma LowField(hi: nat, b: byte)
    ensures BitAnd(hi * 0x100 + b, 0xFF) == b
  {
    Pow2Byte();
    AndMask(hi * 0x100 + b, 8);
    DivUnique(hi * 0x100 + b, 0x100, hi, b);
  }

  /** The four bytes of an entry, lowest first, and the fields that read them back. */
  lemma EntryFields(s1: byte, s2: byte, len: byte, n: byte)
    ensures PackEntry(s1, s2, len, n) == s1 + 0x100 * s2 + 0x1_0000 * len + 0x100_0000 * n
    ensures Sym1(PackEntry(s1, s2, len, n)) == s1 && Sym2(PackEntry(s1, s2, len, n)) == s2
    ensures TotalLen(PackEntry(s1, s2, len, n)) == len && NumSyms(PackEntry(s1, s2, len, n)) == n
  {
    FieldPowers();
    var e := PackEntry(s1, s2, len, n);
    ByteField(e, 0, n * 0x1_0000 + len * 0x100 + s2, s1, 0, 1);
    ByteField(e, 8, n * 0x100 + len, s2, s1, 0x100);
    ByteField(e, 16, n, len, s2 * 0x100 + s1, 0x1_0000);
    ByteField(e, 24, 0, n, len * 0x1_0000 + s2 * 0x100 + s1, 0x100_0000);
  }

  /** The fields of any 32-bit entry. */
  lemma FieldsOf(e: uint32)
    ensures Sym1(e) == e % 0x100 && Sym2(e) == e / 0x100 % 0x100
    ensures TotalLen(e) == e / 0x1_0000 % 0x100 && NumSyms(e) == e / 0x100_0000
  {
    hide PackEntry, Sym1, Sym2, TotalLen, NumSyms;
    FourBytes(e);
    EntryFields(e % 0x100, e / 0x100 % 0x100, e / 0x1_0000 % 0x100, e / 0x100_0000);
  }

  lemma FourBytes(e: uint32)
    ensures 0 <= e / 0x100_0000 < 0x100
    ensures e == e % 0x100 + 0x100 * (e / 0x100 % 0x100) + 0x1_0000 * (e / 0x1_0000 % 0x100)
                 + 0x100_0000 * (e / 0x100_0000)
  {
    LowByteOf(e);
    LowByteOf(e / 0x100);
    LowByteOf(e / 0x1_0000);
    assert e / 0x100 / 0x100 == e / 0x1_0000 && e / 0x1_0000 / 0x100 == e / 0x100_0000;
  }

  lemma LowByteOf(x: nat)
    ensures x == x / 0x100 * 0x100 + x % 0x100
  {
  }

  lemma ZeroFields()
    ensures Sym1(0) == 0 && Sym2(0) == 0 && TotalLen(0) == 0 && NumSyms(0) == 0
  {
    EntryFields(0, 0, 0, 0);
  }

  // ----- which symbol a number starts with -----

  /** The w-bit number v starts with the code of s. */
  predicate StartsWith(c: Code, v: nat, w: nat, s: nat)
    requires c.Shaped() && s < SYMBOLS
  {
    0 < c.lens[s] <= w && Shr(v, w - c.lens[s]) == c.codes[s]
  }

  function FindBelow(c: Code, v: nat, w: nat, k: nat): (r: Option<byte>)
    requires c.Shaped() && k <= SYMBOLS
    ensures r.Some? ==> r.value < k && StartsWith(c, v, w, r.value)
    ensures r.None? ==> forall s :: 0 <= s < k ==> !StartsWith(c, v, w, s)
  {
    if k == 0 then None
    else if StartsWith(c, v, w, k - 1) then Some(k - 1)
    else FindBelow(c, v, w, k - 1)
  }

  /** The symbol whose code v starts with. */
  function Find(c: Code, v: nat, w: nat): (r: Option<byte>)
    requires c.Shaped()
    ensures r.Some? ==> StartsWith(c, v, w, r.value)
  {
    FindBelow(c, v, w, SYMBOLS)
  }

  ghost predicate Decodable(c: Code, maxLen: nat) {
    c.Shaped() && PrefixCode(c.lens, maxLen, c.codes)
  }

  lemma StartsUnique(c: Code, maxLen: nat, v: nat, w: nat, t: nat, s: nat)
    requires Decodable(c, maxLen) && t < SYMBOLS && s < SYMBOLS
    requires StartsWith(c, v, w, t) && StartsWith(c, v, w, s)
    ensures t == s
  {
    if t != s {
      if c.lens[t] <= c.lens[s] {
        ShrShr(v, w - c.lens[s], c.lens[s] - c.lens[t]);
      } else {
        ShrShr(v, w - c.lens[t], c.lens[t] - c.lens[s]);
      }
      assert false;
    }
  }

  lemma ShrShr(v: nat, a: nat, b: nat)
    ensures Shr(Shr(v, a), b) == Shr(v, a + b)
  {
    DivDiv(v, Pow2(a), Pow2(b));
    Pow2Add(a, b);
  }

  /** In a prefix code at most one code starts a number, and Find finds it. */
  lemma FindIs(c: Code, maxLen: nat, v: nat, w: nat, s: nat)
    requires Decodable(c, maxLen) && s < SYMBOLS && StartsWith(c, v, w, s)
    ensures Find(c, v, w) == Some(s)
  {
    StartsUnique(c, maxLen, v, w, Find(c, v, w).value, s);
  }

  // ----- the dual-symbol table -----

  /** The entry for an index that starts with code s1, when only second symbols below k
      are known. */
  function RowEntry(c: Code, maxLen: nat, idx: nat, s1: byte, k: nat): uint32
    requires c.Shaped() && c.lens[s1] <= maxLen && k <= SYMBOLS
  {
    var w := maxLen - c.lens[s1];
    match FindBelow(c, Low(idx, w), w, k)
    case None => PackEntry(s1, 0, c.lens[s1], 1)
    case Some(s2) => PackEntry(s1, s2, c.lens[s1] + c.lens[s2], 2)
  }

  function Low(v: nat, w: nat): nat {
    v % Pow2(w)
  }

  /** What build_decode_lut stores at idx: the first one or two symbols of the index. */
  function DualEntry(c: Code, maxLen: nat, idx: nat): uint32
    requires c.Shaped()
  {
    match Find(c, idx, maxLen)
    case None => 0
    case Some(s1) => RowEntry(c, maxLen, idx, s1, SYMBOLS)
  }

  ghost predicate IsDualLut(c: Code, maxLen: nat, lut: seq<uint32>) {
    && c.Shaped() && |lut| == Pow2(maxLen)
    && forall i :: 0 <= i < |lut| ==> lut[i] == DualEntry(c, maxLen, i)
  }

  method FillSpan<T>(lut: array<T>, start: nat, span: nat, entry: T)
    requires start + span <= lut.Length
    modifies lut
    ensures forall i :: 0 <= i < lut.Length ==>
              lut[i] == if start <= i < start + span then entry else old(lut[i])
  {
    for j := 0 to span
      invariant forall i :: 0 <= i < lut.Length ==>
                  lut[i] == if start <= i < start + j then entry else old(lut[i])
    {
      lut[start + j] := entry;
    }
  }

  /** The (len + k)-bit indices that start with a len-bit code are the 2^k from its
      aligned value on. */
  lemma SpanInside(c: nat, len: nat, k: nat)
    requires c < Pow2(len)
    ensures c * Pow2(k) + Pow2(k) <= Pow2(len + k)
    ensures forall i: nat :: Shr(i, k) == c <==> c * Pow2(k) <= i < c * Pow2(k) + Pow2(k)
  {
    Pow2Add(len, k);
    MulMono(c + 1, Pow2(len), Pow2(k));
    Distribute(c, 1, Pow2(k));
    forall i: nat ensures Shr(i, k) == c <==> c * Pow2(k) <= i < c * Pow2(k) + Pow2(k) {
      SpanOf(i, Pow2(k), c);
    }
  }

  ghost function SingleBelow(c: Code, maxLen: nat, i: nat, k: nat): uint32
    requires c.Shaped() && k <= SYMBOLS
  {
    match FindBelow(c, i, maxLen, k)
    case None => 0
    case Some(s) => PackEntry(s, 0, c.lens[s], 1)
  }

  /** Stores entry for every index that starts with the code of s. */
  method FillSingle(c: Code, maxLen: nat, codeLen: nat, lut: array<uint32>, s: nat)
    requires ValidMaxLen(maxLen) && Decodable(c, codeLen) && lut.Length == Pow2(maxLen) && s < SYMBOLS
    modifies lut
    ensures forall i :: 0 <= i < lut.Length ==>
              lut[i] == if StartsWith(c, i, maxLen, s) then PackEntry(s, 0, c.lens[s], 1) else old(lut[i])
  {
    hide Pow2, BitOr, PackEntry;
    var len := c.lens[s];
    if len != 0 && len <= maxLen {
      SpanInside(c.codes[s], len, maxLen - len);
      FillSpan(lut, c.codes[s] * Pow2(maxLen - len), Pow2(maxLen - len), PackEntry(s, 0, len, 1));
    }
  }

  /** Pass 1: the entries of single symbols, for codes that fit the index. */
  method FillSingles(c: Code, maxLen: nat, codeLen: nat, lut: array<uint32>)
    requires ValidMaxLen(maxLen) && Decodable(c, codeLen) && lut.Length == Pow2(maxLen)
    requires forall i :: 0 <= i < lut.Length ==> lut[i] == 0
    modifies lut
    ensures forall i :: 0 <= i < lut.Length ==> lut[i] == SingleBelow(c, maxLen, i, SYMBOLS)
  {
    for s := 0 to SYMBOLS
      invariant forall i :: 0 <= i < lut.Length ==> lut[i] == SingleBelow(c, maxLen, i, s)
    {
      FillSingle(c, maxLen, codeLen, lut, s);
    }
  }

  /** i starts with the codes of s1 and then s2, both within the index. */
  predicate StartsWithTwo(c: Code, maxLen: nat, i: nat, s1: nat, s2: nat)
    requires c.Shaped() && s1 < SYMBOLS && s2 < SYMBOLS
  {
    && StartsWith(c, i, maxLen, s1)
    && StartsWith(c, Low(i, maxLen - c.lens[s1]), maxLen - c.lens[s1], s2)
  }

  /** Two codes in a row are one code, the first shifted past the second. */
  lemma PairCode(i: nat, l2: nat, k: nat, c1: nat, c2: nat)
    requires c2 < Pow2(l2)
    ensures Shr(i, k) == c1 * Pow2(l2) + c2 <==> Shr(i, l2 + k) == c1 && Shr(Low(i, l2 + k), k) == c2
  {
    hide Pow2, Shr, Low;
    ShrShr(i, k, l2);
    LowShr(i, k, l2);
    ShrIs(Shr(i, k), l2);
    PairUnique(Shr(i, k), Pow2(l2), c1, c2);
  }

  lemma ShrIs(q: nat, l: nat)
    ensures Shr(q, l) == q / Pow2(l)
  {
  }

  lemma PairUnique(q: nat, b: nat, c1: nat, c2: nat)
    requires c2 < b
    ensures q == c1 * b + c2 <==> q / b == c1 && q % b == c2
  {
    if q == c1 * b + c2 {
      DivUnique(q, b, c1, c2);
    }
  }

  lemma LowShr(i: nat, k: nat, l: nat)
    ensures Shr(Low(i, l + k), k) == Shr(i, k) % Pow2(l)
  {
    hide Pow2;
    Pow2Add(k, l);
    DivDiv(i, Pow2(k), Pow2(l));
    DivUnique(Low(i, l + k), Pow2(k), Shr(i, k) % Pow2(l), i % Pow2(k));
  }

  lemma PairSpan(c1: nat, l1: nat, c2: nat, l2: nat, k: nat)
    requires c1 < Pow2(l1) && c2 < Pow2(l2)
    ensures BitOr(c1 * Pow2(l2 + k), c2 * Pow2(k)) == (c1 * Pow2(l2) + c2) * Pow2(k)
    ensures c1 * Pow2(l2) + c2 < Pow2(l1 + l2)
  {
    Pow2Add(l2, k);
    Pow2Add(l1, l2);
    MulAssoc(c1, Pow2(l2), Pow2(k));
    Distribute(c1 * Pow2(l2), c2, Pow2(k));
    MulMono(c2 + 1, Pow2(l2), Pow2(k));
    Distribute(c2, 1, Pow2(k));
    OrAdds(c1, c2 * Pow2(k), l2 + k);
    MulMono(c1 + 1, Pow2(l1), Pow2(l2));
    Distribute(c1, 1, Pow2(l2));
  }

  /** The indices that start with the codes of s1 and s2 are one span. */
  lemma PairIndices(c: Code, maxLen: nat, codeLen: nat, s1: nat, s2: nat, k: nat, aligned: nat)
    requires Decodable(c, codeLen) && s1 < SYMBOLS && s2 < SYMBOLS
    requires 0 < c.lens[s1] && 0 < c.lens[s2] && c.lens[s1] + c.lens[s2] + k == maxLen
    requires aligned == BitOr(c.codes[s1] * Pow2(c.lens[s2] + k), c.codes[s2] * Pow2(k))
    ensures aligned + Pow2(k) <= Pow2(maxLen)
    ensures forall i: nat :: StartsWithTwo(c, maxLen, i, s1, s2) <==> aligned <= i < aligned + Pow2(k)
  {
    hide Pow2, BitOr;
    var l2 := c.lens[s2];
    PairSpan(c.codes[s1], c.lens[s1], c.codes[s2], l2, k);
    var x := c.codes[s1] * Pow2(l2) + c.codes[s2];
    SpanInside(x, c.lens[s1] + l2, k);
    forall i: nat ensures StartsWithTwo(c, maxLen, i, s1, s2) <==> Shr(i, k) == x {
      PairAt(c, maxLen, s1, s2, k, x, i);
    }
  }

  lemma PairAt(c: Code, maxLen: nat, s1: nat, s2: nat, k: nat, x: nat, i: nat)
    requires c.Shaped() && s1 < SYMBOLS && s2 < SYMBOLS && 0 < c.lens[s1] && 0 < c.lens[s2]
    requires c.lens[s1] + c.lens[s2] + k == maxLen && c.codes[s2] < Pow2(c.lens[s2])
    requires x == c.codes[s1] * Pow2(c.lens[s2]) + c.codes[s2]
    ensures StartsWithTwo(c, maxLen, i, s1, s2) <==> Shr(i, k) == x
  {
    hide Pow2, Shr;
    PairCode(i, c.lens[s2], k, c.codes[s1], c.codes[s2]);
  }

  /** Stores the dual entry for every index that starts with the codes of s1 and s2. */
  method FillPair(c: Code, maxLen: nat, codeLen: nat, lut: array<uint32>, s1: nat, s2: nat)
    requires ValidMaxLen(maxLen) && Decodable(c, codeLen) && lut.Length == Pow2(maxLen)
    requires s1 < SYMBOLS && s2 < SYMBOLS && 0 < c.lens[s1] && 0 < c.lens[s2]
    requires c.lens[s1] + c.lens[s2] <= maxLen
    modifies lut
    ensures forall i :: 0 <= i < lut.Length ==>
              lut[i] == if StartsWithTwo(c, maxLen, i, s1, s2)
                        then PackEntry(s1, s2, c.lens[s1] + c.lens[s2], 2) else old(lut[i])
  {
    hide Pow2;
    var l1, l2 := c.lens[s1], c.lens[s2];
    var k := maxLen - l1 - l2;
    var aligned := BitOr(c.codes[s1] * Pow2(maxLen - l1), c.codes[s2] * Pow2(k));
    PairIndices(c, maxLen, codeLen, s1, s2, k, aligned);
    FillSpan(lut, aligned, Pow2(k), PackEntry(s1, s2, l1 + l2, 2));
  }

  /** The row entry once s2 has been looked at. */
  lemma RowNext(c: Code, maxLen: nat, s1: nat, s2: nat)
    requires c.Shaped() && s1 < SYMBOLS && s2 < SYMBOLS && c.lens[s1] <= maxLen
    ensures forall i: nat :: StartsWith(c, i, maxLen, s1) ==>
              var fits := c.lens[s2] != 0 && c.lens[s1] + c.lens[s2] <= maxLen;
              var next := if fits && StartsWithTwo(c, maxLen, i, s1, s2)
                          then PackEntry(s1, s2, c.lens[s1] + c.lens[s2], 2) else RowEntry(c, maxLen, i, s1, s2);
              RowEntry(c, maxLen, i, s1, s2 + 1) == next
  {
    hide Pow2, Shr, PackEntry, Low;
  }

  method FillRow(c: Code, maxLen: nat, codeLen: nat, lut: array<uint32>, s1: nat)
    requires ValidMaxLen(maxLen) && Decodable(c, codeLen) && lut.Length == Pow2(maxLen)
    requires s1 < SYMBOLS && 0 < c.lens[s1] < maxLen
    requires forall i :: 0 <= i < lut.Length && StartsWith(c, i, maxLen, s1) ==>
               lut[i] == RowEntry(c, maxLen, i, s1, 0)
    modifies lut
    ensures forall i :: 0 <= i < lut.Length ==>
              lut[i] == if StartsWith(c, i, maxLen, s1) then RowEntry(c, maxLen, i, s1, SYMBOLS) else old(lut[i])
  {
    hide StartsWith, RowEntry, Pow2, PrefixCode;
    for s2 := 0 to SYMBOLS
      invariant forall i :: 0 <= i < lut.Length ==>
                  lut[i] == if StartsWith(c, i, maxLen, s1) then RowEntry(c, maxLen, i, s1, s2) else old(lut[i])
    {
      RowNext(c, maxLen, s1, s2);
      if c.lens[s2] != 0 && c.lens[s1] + c.lens[s2] <= maxLen {
        FillPair(c, maxLen, codeLen, lut, s1, s2);
      }
    }
  }

  ghost function PassTwo(c: Code, maxLen: nat, i: nat, k: nat): uint32
    requires c.Shaped()
  {
    match Find(c, i, maxLen)
    case None => 0
    case Some(s) => RowEntry(c, maxLen, i, s, if s < k then SYMBOLS else 0)
  }

  /** Pass 2: overwrites with dual entries wherever two codes fit. */
  method FillDuals(c: Code, maxLen: nat, codeLen: nat, lut: array<uint32>)
    requires ValidMaxLen(maxLen) && Decodable(c, codeLen) && lut.Length == Pow2(maxLen)
    requires forall i :: 0 <= i < lut.Length ==> lut[i] == SingleBelow(c, maxLen, i, SYMBOLS)
    modifies lut
    ensures forall i :: 0 <= i < lut.Length ==> lut[i] == DualEntry(c, maxLen, i)
  {
    for s1 := 0 to SYMBOLS
      invariant forall i :: 0 <= i < lut.Length ==> lut[i] == PassTwo(c, maxLen, i, s1)
    {
      DualsStep(c, maxLen, codeLen, lut, s1);
    }
  }

  method DualsStep(c: Code, maxLen: nat, codeLen: nat, lut: array<uint32>, s1: nat)
    requires ValidMaxLen(maxLen) && Decodable(c, codeLen) && lut.Length == Pow2(maxLen) && s1 < SYMBOLS
    requires forall i :: 0 <= i < lut.Length ==> lut[i] == PassTwo(c, maxLen, i, s1)
    modifies lut
    ensures forall i :: 0 <= i < lut.Length ==> lut[i] == PassTwo(c, maxLen, i, s1 + 1)
  {
    forall i: nat | StartsWith(c, i, maxLen, s1) ensures Find(c, i, maxLen) == Some(s1) {
      FindIs(c, codeLen, i, maxLen, s1);
    }
    if c.lens[s1] == 0 || c.lens[s1] >= maxLen {
      return;
    }
    FillRow(c, maxLen, codeLen, lut, s1);
  }

  method Clear<T>(lut: array<T>, zero: T)
    modifies lut
    ensures forall i :: 0 <= i < lut.Length ==> lut[i] == zero
  {
    for j := 0 to lut.Length
      invariant forall i :: 0 <= i < j ==> lut[i] == zero
    {
      lut[j] := zero;
    }
  }

  /** build_decode_lut */
  method BuildDecodeLut(c: Code, maxLen: nat, lut: array<uint32>)
    requires ValidMaxLen(maxLen) && Decodable(c, maxLen) && lut.Length == Pow2(maxLen)
    modifies lut
    ensures IsDualLut(c, maxLen, lut[..])
    ensures forall i :: 0 <= i < lut.Length ==> lut[i] == DualEntry(c, maxLen, i)
  {
    Clear(lut, 0);
    FillSingles(c, maxLen, maxLen, lut);
    FillDuals(c, maxLen, maxLen, lut);
  }

  // ----- what the table holds, in terms of code prefixes -----

  /** A dual entry stands exactly at the indices that begin with the two codes one after
      the other. */
  lemma DualEntryIff(c: Code, maxLen: nat, i: nat, s1: byte, s2: byte)
    requires ValidMaxLen(maxLen) && Decodable(c, maxLen)
    ensures DualEntry(c, maxLen, i) == PackEntry(s1, s2, (c.lens[s1] + c.lens[s2]) % 0x100, 2) <==>
              && 0 < c.lens[s1] && 0 < c.lens[s2] && c.lens[s1] + c.lens[s2] <= maxLen
              && Shr(i, maxLen - c.lens[s1] - c.lens[s2])
                 == c.codes[s1] * Pow2(c.lens[s2]) + c.codes[s2]
  {
    TwoIff(c, maxLen, i, s1, s2);
    if StartsWithTwo(c, maxLen, i, s1, s2) {
      TwoGivesDual(c, maxLen, i, s1, s2);
    } else if DualEntry(c, maxLen, i) == PackEntry(s1, s2, (c.lens[s1] + c.lens[s2]) % 0x100, 2) {
      DualGivesTwo(c, maxLen, i, s1, s2);
    }
  }

  lemma TwoGivesDual(c: Code, maxLen: nat, i: nat, s1: byte, s2: byte)
    requires ValidMaxLen(maxLen) && Decodable(c, maxLen) && StartsWithTwo(c, maxLen, i, s1, s2)
    ensures DualEntry(c, maxLen, i) == PackEntry(s1, s2, (c.lens[s1] + c.lens[s2]) % 0x100, 2)
  {
    hide Pow2, Shr, BitOr, FindBelow, PackEntry, PrefixCode;
    FindIs(c, maxLen, i, maxLen, s1);
    FindIs(c, maxLen, Low(i, maxLen - c.lens[s1]), maxLen - c.lens[s1], s2);
  }

  lemma DualGivesTwo(c: Code, maxLen: nat, i: nat, s1: byte, s2: byte)
    requires ValidMaxLen(maxLen) && Decodable(c, maxLen)
    requires DualEntry(c, maxLen, i) == PackEntry(s1, s2, (c.lens[s1] + c.lens[s2]) % 0x100, 2)
    ensures StartsWithTwo(c, maxLen, i, s1, s2)
  {
    hide Pow2, Shr, BitOr, DualEntry, FindBelow, PackEntry, PrefixCode;
    DualEntryFields(c, maxLen, i);
    EntryFields(s1, s2, (c.lens[s1] + c.lens[s2]) % 0x100, 2);
  }

  lemma TwoIff(c: Code, maxLen: nat, i: nat, s1: byte, s2: byte)
    requires Decodable(c, maxLen)
    ensures StartsWithTwo(c, maxLen, i, s1, s2) <==>
              && 0 < c.lens[s1] && 0 < c.lens[s2] && c.lens[s1] + c.lens[s2] <= maxLen
              && Shr(i, maxLen - c.lens[s1] - c.lens[s2])
                 == c.codes[s1] * Pow2(c.lens[s2]) + c.codes[s2]
  {
    hide Pow2;
    if 0 < c.lens[s1] && 0 < c.lens[s2] && c.lens[s1] + c.lens[s2] <= maxLen {
      PairAt(c, maxLen, s1, s2, maxLen - c.lens[s1] - c.lens[s2],
             c.codes[s1] * Pow2(c.lens[s2]) + c.codes[s2], i);
    }
  }

  /** Reading the fields of a dual-table entry. */
  lemma DualEntryFields(c: Code, maxLen: nat, i: nat)
    requires ValidMaxLen(maxLen) && c.Shaped()
    ensures var e := DualEntry(c, maxLen, i);
            match Find(c, i, maxLen)
            case None => e == 0 && TotalLen(e) == 0 && NumSyms(e) == 0
            case Some(s1) =>
              && Sym1(e) == s1
              && var w := maxLen - c.lens[s1];
                 match Find(c, Low(i, w), w)
                 case None => NumSyms(e) == 1 && TotalLen(e) == c.lens[s1] && Sym2(e) == 0
                 case Some(s2) => NumSyms(e) == 2 && TotalLen(e) == c.lens[s1] + c.lens[s2] && Sym2(e) == s2
  {
    ZeroFields();
    match Find(c, i, maxLen)
    case None =>
    case Some(s1) =>
      EntryFields(s1, 0, c.lens[s1], 1);
      var w := maxLen - c.lens[s1];
      match Find(c, Low(i, w), w)
      case None =>
      case Some(s2) => EntryFields(s1, s2, c.lens[s1] + c.lens[s2], 2);
  }
}
