/** Canonical code assignment (section 3.2.2 of RFC 1951) and what makes its codes
    decodable.  maxLen is the compile-time MAX_CODE_LEN: 10 in the codec, 11 for the
    escape table. */
module Canonical {
  import opened Numbers
  import opened HuffmanTree
  import opened CodeLengths

  /** The values of MAX_CODE_LEN for which the 32-bit arithmetic below cannot overflow
      and a code fits the format's fields. */
  predicate ValidMaxLen(maxLen: nat) {
    1 <= maxLen <= 16
  }

  /** The order of canonical codes: shorter first, then lower symbol. */
  predicate Precedes(lens: seq<nat>, t: nat, s: nat)
    requires t < |lens| && s < |lens|
  {
    lens[t] < lens[s] || (lens[t] == lens[s] && t < s)
  }

  /** The share 2^(maxLen - length) of every used symbol before position (l, s). */
  function BeforeShares(lens: seq<nat>, maxLen: nat, l: nat, s: nat): (p: seq<int>)
    requires Bounded(lens, maxLen)
    ensures |p| == |lens|
  {
    seq(|lens|, t requires 0 <= t < |lens| =>
      if 0 < lens[t] && (lens[t] < l || (lens[t] == l && t < s)) then Pow2(maxLen - lens[t]) else 0)
  }

  function Mass(lens: seq<nat>, maxLen: nat, l: nat, s: nat): int
    requires Bounded(lens, maxLen)
  {
    Total(BeforeShares(lens, maxLen, l, s))
  }

  /** Code s, shifted to the top of a maxLen-bit index, is the total share of all the
      symbols that come before s. */
  ghost predicate IsCanonical(lens: seq<nat>, maxLen: nat, codes: seq<nat>) {
    && |codes| == |lens| && Bounded(lens, maxLen)
    && forall s {:trigger codes[s]} :: 0 <= s < |lens| ==>
         if lens[s] == 0 then codes[s] == 0
         else codes[s] * Pow2(maxLen - lens[s]) == Mass(lens, maxLen, lens[s], s)
  }

  // ----- shares -----

  lemma MassNextLength(lens: seq<nat>, maxLen: nat, l: nat)
    requires Bounded(lens, maxLen)
    ensures Mass(lens, maxLen, l + 1, 0) == Mass(lens, maxLen, l, |lens|)
  {
    SumEqual(BeforeShares(lens, maxLen, l + 1, 0), BeforeShares(lens, maxLen, l, |lens|), |lens|);
  }

  lemma MassStart(lens: seq<nat>, maxLen: nat)
    requires Bounded(lens, maxLen)
    ensures Mass(lens, maxLen, 1, 0) == 0
  {
    SumConst(BeforeShares(lens, maxLen, 1, 0), |lens|, 0);
  }

  lemma MassStep(lens: seq<nat>, maxLen: nat, l: nat, s: nat)
    requires Bounded(lens, maxLen) && s < |lens| && 0 < l
    ensures Mass(lens, maxLen, l, s + 1)
         == Mass(lens, maxLen, l, s) + if lens[s] == l then Pow2(maxLen - l) else 0
  {
    var p, q := BeforeShares(lens, maxLen, l, s), BeforeShares(lens, maxLen, l, s + 1);
    assert q == p[s := q[s]];
    SumUpdate(p, |p|, s, q[s]);
  }

  lemma {:induction false} MassCount(lens: seq<nat>, maxLen: nat, l: nat, s: nat)
    requires Bounded(lens, maxLen) && s <= |lens| && 0 < l <= maxLen
    ensures Mass(lens, maxLen, l, s)
         == Mass(lens, maxLen, l, 0) + CountOf(lens, l, s) * Pow2(maxLen - l)
  {
    if s > 0 {
      MassCount(lens, maxLen, l, s - 1);
      MassStep(lens, maxLen, l, s - 1);
      var u := Pow2(maxLen - l);
      assert (CountOf(lens, l, s - 1) + 1) * u == CountOf(lens, l, s - 1) * u + u;
    }
  }

  /** The interval of s ends before the interval of any later symbol starts. */
  lemma MassOrder(lens: seq<nat>, maxLen: nat, t: nat, s: nat)
    requires Bounded(lens, maxLen) && t < |lens| && s < |lens|
    requires lens[t] > 0 && lens[s] > 0 && Precedes(lens, t, s)
    ensures Mass(lens, maxLen, lens[t], t) + Pow2(maxLen - lens[t]) <= Mass(lens, maxLen, lens[s], s)
  {
    MassStep(lens, maxLen, lens[t], t);
    SumLe(BeforeShares(lens, maxLen, lens[t], t + 1), BeforeShares(lens, maxLen, lens[s], s), |lens|);
  }

  lemma MassBelowKraft(lens: seq<nat>, maxLen: nat, s: nat)
    requires Bounded(lens, maxLen) && s < |lens| && lens[s] > 0
    ensures 0 <= Mass(lens, maxLen, lens[s], s)
    ensures Mass(lens, maxLen, lens[s], s) + Pow2(maxLen - lens[s]) <= Kraft(lens, maxLen)
  {
    MassStep(lens, maxLen, lens[s], s);
    SumLe(BeforeShares(lens, maxLen, lens[s], s + 1), UsedShares(lens, maxLen), |lens|);
    SumNat(BeforeShares(lens, maxLen, lens[s], s), 0, |lens|);
  }

  // ----- the method -----

  method CountLengths(lens: seq<byte>, maxLen: nat) returns (count: array<uint32>)
    requires |lens| == SYMBOLS && Bounded(lens, maxLen)
    ensures fresh(count) && count.Length == maxLen + 1
    ensures forall l :: 0 <= l <= maxLen ==> count[l] == CountOf(lens, l, SYMBOLS)
  {
    count := new uint32[maxLen + 1](_ => 0);
    for s := 0 to SYMBOLS
      invariant forall l :: 0 <= l <= maxLen ==> count[l] == CountOf(lens, l, s)
    {
      count[lens[s]] := count[lens[s]] + 1;
    }
  }

  ghost predicate FirstCode(lens: seq<byte>, maxLen: nat, l: nat, c: nat)
    requires Bounded(lens, maxLen)
  {
    l <= maxLen && c * Pow2(maxLen - l) == Mass(lens, maxLen, l, 0)
  }

  /** A bound on the running code that keeps the shifts within 32 bits. */
  ghost predicate CodeInRange(code: nat, len: nat) {
    code == 0 || code + 2 * SYMBOLS <= SYMBOLS * Pow2(len)
  }

  /** The smallest code of every length. */
  method FirstCodes(lens: seq<byte>, maxLen: nat, count: array<uint32>) returns (next: array<uint32>)
    requires ValidMaxLen(maxLen) && |lens| == SYMBOLS && Bounded(lens, maxLen)
    requires count.Length == maxLen + 1
    requires forall l :: 0 <= l <= maxLen ==> count[l] == CountOf(lens, l, SYMBOLS)
    modifies count
    ensures fresh(next) && next.Length == maxLen + 2
    ensures forall l :: 1 <= l <= maxLen ==> FirstCode(lens, maxLen, l, next[l]) && CodeInRange(next[l], l)
  {
    next := new uint32[maxLen + 2](_ => 0);
    var code: uint32 := 0;
    count[0] := 0;
    for len := 1 to maxLen + 2
      invariant CodeInRange(code, len - 1)
      invariant if len == 1 then code == 0 else FirstCode(lens, maxLen, len - 1, code) || len == maxLen + 2
      invariant count[0] == 0
      invariant forall l :: 1 <= l <= maxLen ==> count[l] == CountOf(lens, l, SYMBOLS)
      invariant forall l :: 1 <= l < len && l <= maxLen ==>
                  FirstCode(lens, maxLen, l, next[l]) && CodeInRange(next[l], l)
    {
      CodeRange(code, count[len - 1], len, maxLen);
      if len <= maxLen {
        FirstCodeStep(lens, maxLen, len, code, count[len - 1]);
      }
      code := (code + count[len - 1]) * 2;
      next[len] := code;
    }
  }

  lemma CodeRange(code: nat, count: nat, len: nat, maxLen: nat)
    requires ValidMaxLen(maxLen) && 1 <= len <= maxLen + 1 && count <= SYMBOLS
    requires CodeInRange(code, len - 1) && (len == 1 ==> code == 0 && count == 0)
    ensures CodeInRange((code + count) * 2, len) && (code + count) * 2 <= 0x200_0000
  {
    Pow2Mono(len, 17);
    if len > 1 {
      Pow2Mono(2, len);
      assert Pow2(2) == 2 * Pow2(1) && Pow2(1) == 2 * Pow2(0);
    }
    Pow2Values();
    Pow2Add(16, 1);
  }

  lemma FirstCodeStep(lens: seq<byte>, maxLen: nat, len: nat, code: nat, count: nat)
    requires |lens| == SYMBOLS && Bounded(lens, maxLen) && 1 <= len <= maxLen
    requires if len == 1 then code == 0 && count == 0
             else count == CountOf(lens, len - 1, SYMBOLS) && FirstCode(lens, maxLen, len - 1, code)
    ensures FirstCode(lens, maxLen, len, (code + count) * 2)
  {
    if len == 1 {
      MassStart(lens, maxLen);
    } else {
      var u := Pow2(maxLen - len);
      MassNextLength(lens, maxLen, len - 1);
      MassCount(lens, maxLen, len - 1, SYMBOLS);
      assert (code + count) * 2 * u == code * (2 * u) + count * (2 * u);
    }
  }

  /** assign_canonical_codes, for lengths up to maxLen. */
  method AssignCanonicalCodes(lens: seq<byte>, maxLen: nat, codes: array<uint32>)
    requires ValidMaxLen(maxLen) && |lens| == SYMBOLS == codes.Length && Bounded(lens, maxLen)
    modifies codes
    ensures IsCanonical(lens, maxLen, codes[..])
    ensures forall s :: 0 <= s < SYMBOLS && lens[s] == 0 ==> codes[s] == 0
  {
    var count := CountLengths(lens, maxLen);
    var next := FirstCodes(lens, maxLen, count);
    ghost var first: seq<nat> := next[..];
    NumberSymbols(lens, maxLen, next, codes);
    CountedCodes(lens, maxLen, first, codes[..]);
  }

  /** The code of t when first holds the smallest code of every length. */
  ghost function Numbered(lens: seq<nat>, first: seq<nat>, t: nat): nat
    requires t < |lens|
  {
    if lens[t] == 0 || lens[t] >= |first| then 0 else first[lens[t]] + CountOf(lens, lens[t], t)
  }

  method NumberSymbols(lens: seq<byte>, maxLen: nat, next: array<uint32>, codes: array<uint32>)
    requires ValidMaxLen(maxLen) && |lens| == SYMBOLS == codes.Length && Bounded(lens, maxLen)
    requires next.Length == maxLen + 2 && next != codes
    requires forall l :: 1 <= l <= maxLen ==> CodeInRange(next[l], l)
    modifies codes, next
    ensures forall t :: 0 <= t < SYMBOLS ==> codes[t] == Numbered(lens, old(next[..]), t)
  {
    ghost var first: seq<nat> := next[..];
    forall l | 1 <= l <= maxLen ensures next[l] <= 0x200_0000 {
      CodeSmall(next[l], l);
    }
    for s := 0 to SYMBOLS
      invariant forall l :: 1 <= l <= maxLen ==> next[l] == first[l] + CountOf(lens, l, s)
      invariant forall t :: 0 <= t < s ==> codes[t] == Numbered(lens, first, t)
    {
      var len := lens[s];
      if len != 0 {
        codes[s] := next[len];
        next[len] := next[len] + 1;
      } else {
        codes[s] := 0;
      }
    }
  }

  lemma CodeSmall(code: nat, l: nat)
    requires CodeInRange(code, l) && l <= 16
    ensures code <= 0x200_0000
  {
    Pow2Mono(l, 16);
    assert Pow2(16) == 0x1_0000 by { Pow2Values(); }
  }

  lemma CountedCodes(lens: seq<byte>, maxLen: nat, first: seq<nat>, codes: seq<nat>)
    requires |lens| == SYMBOLS == |codes| && Bounded(lens, maxLen) && |first| == maxLen + 2
    requires forall l :: 1 <= l <= maxLen ==> FirstCode(lens, maxLen, l, first[l])
    requires forall t :: 0 <= t < SYMBOLS ==> codes[t] == Numbered(lens, first, t)
    ensures IsCanonical(lens, maxLen, codes)
  {
    forall s | 0 <= s < SYMBOLS && lens[s] > 0
      ensures codes[s] * Pow2(maxLen - lens[s]) == Mass(lens, maxLen, lens[s], s)
    {
      assert codes[s] == Numbered(lens, first, s);
      CountedCode(lens, maxLen, s, first[lens[s]], codes[s]);
    }
  }

  lemma CountedCode(lens: seq<byte>, maxLen: nat, s: nat, first: nat, c: nat)
    requires s < |lens| && Bounded(lens, maxLen) && lens[s] > 0
    requires FirstCode(lens, maxLen, lens[s], first) && c == first + CountOf(lens, lens[s], s)
    ensures c * Pow2(maxLen - lens[s]) == Mass(lens, maxLen, lens[s], s)
  {
    MassCount(lens, maxLen, lens[s], s);
    Distribute(first, CountOf(lens, lens[s], s), Pow2(maxLen - lens[s]));
  }

  // ----- what canonical codes guarantee -----

  /** Neither of two codes is a prefix of the other. */
  ghost predicate PrefixFree(lens: seq<nat>, codes: seq<nat>, t: nat, s: nat)
    requires t < |lens| == |codes| && s < |lens|
  {
    && (lens[t] <= lens[s] ==> codes[s] / Pow2(lens[s] - lens[t]) != codes[t])
    && (lens[s] <= lens[t] ==> codes[t] / Pow2(lens[t] - lens[s]) != codes[s])
  }

  /** A table of codes that can be decoded: every code fits its length and starts no
      other code. */
  ghost predicate PrefixCode(lens: seq<nat>, maxLen: nat, codes: seq<nat>) {
    && |lens| == |codes| && Bounded(lens, maxLen)
    && (forall s :: 0 <= s < |lens| && lens[s] > 0 ==> codes[s] < Pow2(lens[s]))
    && (forall t, s :: 0 <= t < |lens| && 0 <= s < |lens| && t != s && lens[t] > 0 && lens[s] > 0 ==>
          PrefixFree(lens, codes, t, s))
  }

  /** Codes of at most maxLen bits that satisfy Kraft fit their lengths. */
  lemma CanonicalFits(lens: seq<nat>, maxLen: nat, codes: seq<nat>, s: nat)
    requires IsCanonical(lens, maxLen, codes) && Kraft(lens, maxLen) <= Pow2(maxLen)
    requires s < |lens| && lens[s] > 0
    ensures codes[s] < Pow2(lens[s])
  {
    MassBelowKraft(lens, maxLen, s);
    CodeBelow(codes[s], lens[s], maxLen, Mass(lens, maxLen, lens[s], s));
  }

  lemma CodeBelow(c: nat, l: nat, maxLen: nat, mass: int)
    requires l <= maxLen && c * Pow2(maxLen - l) == mass && mass + Pow2(maxLen - l) <= Pow2(maxLen)
    ensures c < Pow2(l)
  {
    Pow2Add(l, maxLen - l);
    MulCancel(c, Pow2(l), Pow2(maxLen - l));
  }

  lemma CodeMass(lens: seq<nat>, maxLen: nat, codes: seq<nat>, s: nat)
    requires IsCanonical(lens, maxLen, codes) && s < |lens| && lens[s] > 0
    ensures codes[s] * Pow2(maxLen - lens[s]) == Mass(lens, maxLen, lens[s], s)
    ensures (codes[s] + 1) * Pow2(maxLen - lens[s]) == Mass(lens, maxLen, lens[s], s) + Pow2(maxLen - lens[s])
  {
    Distribute(codes[s], 1, Pow2(maxLen - lens[s]));
  }

  /** A later symbol's code lies beyond the whole subtree of an earlier one's. */
  lemma CanonicalOrder(lens: seq<nat>, maxLen: nat, codes: seq<nat>, t: nat, s: nat)
    requires IsCanonical(lens, maxLen, codes) && t < |lens| && s < |lens|
    requires lens[t] > 0 && lens[s] > 0 && (lens[t] < lens[s] || (lens[t] == lens[s] && t < s))
    ensures (codes[t] + 1) * Pow2(lens[s] - lens[t]) <= codes[s]
  {
    MassOrder(lens, maxLen, t, s);
    CodeMass(lens, maxLen, codes, t);
    CodeMass(lens, maxLen, codes, s);
    Pow2Add(lens[s] - lens[t], maxLen - lens[s]);
    ScaledLe(codes[t] + 1, Pow2(lens[s] - lens[t]), Pow2(maxLen - lens[s]), codes[s]);
  }

  lemma ScaledLe(a: nat, p: nat, u: nat, b: nat)
    requires a * (p * u) <= b * u && 0 < u
    ensures a * p <= b
  {
    MulAssoc(a, p, u);
    if b < a * p {
      MulMono(b + 1, a * p, u);
      Distribute(b, 1, u);
    }
  }

  lemma ScaledGe(a: nat, p: nat, u: nat, b: nat)
    requires a * (p * u) >= b * u && 0 < u
    ensures a * p >= b
  {
    MulAssoc(a, p, u);
    if a * p < b {
      MulMono(a * p + 1, b, u);
      Distribute(a * p, 1, u);
    }
  }

  lemma OrderGivesPrefixFree(lens: seq<nat>, codes: seq<nat>, t: nat, s: nat)
    requires t < |lens| == |codes| && s < |lens| && lens[t] <= lens[s]
    requires (codes[t] + 1) * Pow2(lens[s] - lens[t]) <= codes[s]
    ensures PrefixFree(lens, codes, t, s) && PrefixFree(lens, codes, s, t)
  {
    SpanOf(codes[s], Pow2(lens[s] - lens[t]), codes[t]);
    var u := Pow2(lens[s] - lens[t]);
    assert (codes[t] + 1) * u == codes[t] * u + u;
  }

  /** Within Kraft, canonical assignment gives codes that fit and are prefix-free. */
  lemma CanonicalIsPrefixCode(lens: seq<nat>, maxLen: nat, codes: seq<nat>)
    requires IsCanonical(lens, maxLen, codes) && Kraft(lens, maxLen) <= Pow2(maxLen)
    ensures PrefixCode(lens, maxLen, codes)
  {
    forall s | 0 <= s < |lens| && lens[s] > 0 ensures codes[s] < Pow2(lens[s]) {
      CanonicalFits(lens, maxLen, codes, s);
    }
    forall t, s | 0 <= t < |lens| && 0 <= s < |lens| && t != s && lens[t] > 0 && lens[s] > 0
      ensures PrefixFree(lens, codes, t, s)
    {
      if Precedes(lens, t, s) {
        CanonicalOrder(lens, maxLen, codes, t, s);
        OrderGivesPrefixFree(lens, codes, t, s);
      } else {
        CanonicalOrder(lens, maxLen, codes, s, t);
        OrderGivesPrefixFree(lens, codes, s, t);
      }
    }
  }

  /** The first code is all zeros. */
  lemma CanonicalFirst(lens: seq<nat>, maxLen: nat, codes: seq<nat>, s: nat)
    requires IsCanonical(lens, maxLen, codes) && s < |lens| && lens[s] > 0
    requires forall x :: 0 <= x < |lens| && lens[x] > 0 ==> lens[s] < lens[x] || (lens[s] == lens[x] && s <= x)
    ensures codes[s] == 0
  {
    SumConst(BeforeShares(lens, maxLen, lens[s], s), |lens|, 0);
    CodeMass(lens, maxLen, codes, s);
    MulMono(1, Pow2(maxLen - lens[s]), codes[s]);
  }

  /** Every following code is the one before plus one, extended with zeros when the length
      grows. */
  lemma CanonicalSuccessor(lens: seq<nat>, maxLen: nat, codes: seq<nat>, t: nat, s: nat)
    requires IsCanonical(lens, maxLen, codes) && t < |lens| && s < |lens|
    requires lens[t] > 0 && lens[s] > 0 && (lens[t] < lens[s] || (lens[t] == lens[s] && t < s))
    requires forall x :: 0 <= x < |lens| && lens[x] > 0 && x != t
                         && (lens[x] < lens[s] || (lens[x] == lens[s] && x < s)) ==>
               lens[x] < lens[t] || (lens[x] == lens[t] && x < t)
    ensures codes[s] == (codes[t] + 1) * Pow2(lens[s] - lens[t])
  {
    MassStep(lens, maxLen, lens[t], t);
    SumEqual(BeforeShares(lens, maxLen, lens[t], t + 1), BeforeShares(lens, maxLen, lens[s], s), |lens|);
    CodeMass(lens, maxLen, codes, t);
    CodeMass(lens, maxLen, codes, s);
    Pow2Add(lens[s] - lens[t], maxLen - lens[s]);
    ScaledLe(codes[t] + 1, Pow2(lens[s] - lens[t]), Pow2(maxLen - lens[s]), codes[s]);
    ScaledGe(codes[t] + 1, Pow2(lens[s] - lens[t]), Pow2(maxLen - lens[s]), codes[s]);
  }
}
