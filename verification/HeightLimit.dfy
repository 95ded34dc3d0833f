/** Limiting code lengths: codes above the limit are cut down to it, then the lowest-count
    codes below the limit are lengthened one step at a time until Kraft holds again. */
module HeightLimit {
  import opened Numbers
  import opened HuffmanTree
  import opened CodeLengths

  const SCALE: nat := 30
  const TARGET: uint32 := 0x4000_0000
  const NO_COUNT: uint32 := 0xFFFF_FFFF

  function Demoted(lens: seq<nat>, limit: nat): (m: seq<nat>)
    ensures |m| == |lens| && forall s :: 0 <= s < |m| ==> m[s] == if lens[s] > limit then limit else lens[s]
  {
    seq(|lens|, s requires 0 <= s < |lens| => if lens[s] > limit then limit else lens[s])
  }

  /** The order in which codes are lengthened: lower count first, then lower symbol. */
  predicate Before(hist: seq<nat>, t: nat, s: nat)
    requires t < |hist| && s < |hist|
  {
    hist[t] < hist[s] || (hist[t] == hist[s] && t < s)
  }

  predicate Candidate(lens: seq<nat>, limit: nat, s: nat)
    requires s < |lens|
  {
    0 < lens[s] < limit
  }

  /** r is reached from m by taking the codes before p all the way to the limit, one after
      the other, and p to some length between its own and the limit. */
  ghost predicate OnPath(hist: seq<nat>, m: seq<nat>, limit: nat, r: seq<nat>, p: nat) {
    && |hist| == |m| == |r| && p < |m| && Candidate(m, limit, p)
    && m[p] <= r[p] <= limit
    && forall s :: 0 <= s < |m| && s != p ==>
         r[s] == if Candidate(m, limit, s) && Before(hist, s, p) then limit else m[s]
  }

  /** r is the demoted table if that fits; otherwise the first point on the path that
      fits: one step earlier the Kraft sum is still too large. */
  ghost predicate Limited(hist: seq<nat>, lens: seq<nat>, limit: nat, r: seq<nat>) {
    var m := Demoted(lens, limit);
    && |hist| == |lens| && Bounded(m, SCALE) && Bounded(r, SCALE)
    && if Kraft(m, SCALE) <= TARGET then r == m
       else exists p: nat :: FirstFit(hist, m, limit, r, p)
  }

  ghost predicate FirstFit(hist: seq<nat>, m: seq<nat>, limit: nat, r: seq<nat>, p: nat)
    requires Bounded(r, SCALE)
  {
    && OnPath(hist, m, limit, r, p) && m[p] < r[p]
    && Kraft(r, SCALE) <= TARGET < Kraft(r[p := r[p] - 1], SCALE)
  }

  // ----- Kraft sums under change -----

  lemma KraftUpdate(lens: seq<nat>, d: nat, s: nat, v: nat)
    requires Bounded(lens, d) && s < |lens| && lens[s] > 0 && 0 < v <= d
    ensures Bounded(lens[s := v], d)
    ensures Kraft(lens[s := v], d) == Kraft(lens, d) - Pow2(d - lens[s]) + Pow2(d - v)
    ensures Pow2(d - lens[s]) <= Kraft(lens, d)
  {
    var p := UsedShares(lens, d);
    assert UsedShares(lens[s := v], d) == p[s := Pow2(d - v)];
    SumUpdate(p, |p|, s, Pow2(d - v));
    SumItem(p, |p|, s);
  }

  lemma {:induction false} UsedCountTimes(lens: seq<nat>, p: seq<int>, k: nat, c: int)
    requires k <= |lens| == |p|
    requires forall s :: 0 <= s < |p| ==> p[s] == if lens[s] > 0 then c else 0
    ensures Sum(p, k) == UsedCount(lens, k) * c
  {
    if k > 0 {
      UsedCountTimes(lens, p, k - 1, c);
      assert (UsedCount(lens, k - 1) + 1) * c == UsedCount(lens, k - 1) * c + c;
    }
  }

  /** used * 2^(30 - limit) is at most 2^30 when 2^limit symbols or fewer are used. */
  lemma LimitUnits(lens: seq<nat>, limit: nat)
    requires limit <= SCALE && UsedCount(lens, |lens|) <= Pow2(limit)
    ensures UsedCount(lens, |lens|) * Pow2(SCALE - limit) <= TARGET
  {
    MulMono(UsedCount(lens, |lens|), Pow2(limit), Pow2(SCALE - limit));
    Pow2Add(limit, SCALE - limit);
    Pow2Values();
  }

  /** While some codes have been cut to the limit and none changed otherwise, the sum
      stays below 2^31, so the 32-bit accumulator never wraps. */
  lemma DemotingFits(lens: seq<nat>, now: seq<nat>, limit: nat)
    requires Bounded(lens, SCALE) && 0 < limit <= SCALE && |now| == |lens|
    requires Kraft(lens, SCALE) <= TARGET && UsedCount(lens, |lens|) <= Pow2(limit)
    requires forall s :: 0 <= s < |now| ==> now[s] == lens[s] || (lens[s] > limit && now[s] == limit)
    ensures Bounded(now, SCALE) && Kraft(now, SCALE) <= 2 * TARGET
  {
    var n := |lens|;
    var u := Pow2(SCALE - limit);
    var c := seq(n, s requires 0 <= s < n => if lens[s] > 0 then u else 0);
    UsedCountTimes(lens, c, n, u);
    LimitUnits(lens, limit);
    DemotedShares(lens, now, limit, c);
  }

  lemma DemotedShares(lens: seq<nat>, now: seq<nat>, limit: nat, c: seq<int>)
    requires Bounded(lens, SCALE) && limit <= SCALE && |now| == |lens| == |c|
    requires forall s :: 0 <= s < |now| ==> now[s] == lens[s] || (lens[s] > limit && now[s] == limit)
    requires forall s :: 0 <= s < |c| ==> c[s] == if lens[s] > 0 then Pow2(SCALE - limit) else 0
    ensures Bounded(now, SCALE) && Kraft(now, SCALE) <= Kraft(lens, SCALE) + Total(c)
  {
    var a, b := UsedShares(lens, SCALE), UsedShares(now, SCALE);
    forall s | 0 <= s < |c| ensures b[s] <= a[s] + c[s] {
    }
    SumLeAdd(b, a, c, |c|);
  }

  lemma {:induction false} SumLeAdd(a: seq<int>, b: seq<int>, c: seq<int>, k: nat)
    requires k <= |a| == |b| == |c|
    requires forall s :: 0 <= s < |a| ==> a[s] <= b[s] + c[s]
    ensures Sum(a, k) <= Sum(b, k) + Sum(c, k)
  {
    if k > 0 {
      SumLeAdd(a, b, c, k - 1);
    }
  }

  /** The early exit is dead: while the sum is too large some code is below the limit. */
  lemma CandidateExists(lens: seq<nat>, limit: nat) returns (s: nat)
    requires 0 < limit <= SCALE && Bounded(lens, limit) && Bounded(lens, SCALE)
    requires UsedCount(lens, |lens|) <= Pow2(limit) && Kraft(lens, SCALE) > TARGET
    ensures s < |lens| && Candidate(lens, limit, s)
  {
    if forall s :: 0 <= s < |lens| ==> !Candidate(lens, limit, s) {
      var p := UsedShares(lens, SCALE);
      forall s | 0 <= s < |p| ensures p[s] == if lens[s] > 0 then Pow2(SCALE - limit) else 0 {
        assert !Candidate(lens, limit, s);
      }
      UsedCountTimes(lens, p, |lens|, Pow2(SCALE - limit));
      LimitUnits(lens, limit);
      assert false;
    }
    s :| s < |lens| && Candidate(lens, limit, s);
  }

  lemma {:induction false} UsedCountSame(a: seq<nat>, b: seq<nat>, k: nat)
    requires k <= |a| == |b|
    requires forall s :: 0 <= s < |a| ==> (a[s] > 0 <==> b[s] > 0)
    ensures UsedCount(a, k) == UsedCount(b, k)
  {
    if k > 0 {
      UsedCountSame(a, b, k - 1);
    }
  }

  // ----- the steps of the method -----

  method KraftSum(lens: array<byte>) returns (sum: uint32)
    requires Bounded(lens[..], SCALE) && Kraft(lens[..], SCALE) <= TARGET
    ensures sum == Kraft(lens[..], SCALE)
  {
    ghost var p := UsedShares(lens[..], SCALE);
    sum := 0;
    for s := 0 to lens.Length
      invariant sum == Sum(p, s)
    {
      SumNat(p, s + 1, |p|);
      if lens[s] > 0 {
        sum := sum + Pow2(SCALE - lens[s]);
      }
    }
  }

  /** sum - x + y on uint32_t */
  function Shifted(sum: uint32, x: nat, y: nat): uint32 {
    ((sum - x) % U32_LIMIT + y) % U32_LIMIT
  }

  lemma ShiftedWraps(k: nat, x: nat, y: nat)
    ensures Shifted(k % U32_LIMIT, x, y) == (k - x + y) % U32_LIMIT
  {
  }

  method Demote(lens: array<byte>, limit: nat, sum0: uint32) returns (sum: uint32)
    requires 0 < limit <= SCALE && Bounded(lens[..], SCALE)
    requires sum0 == Kraft(lens[..], SCALE)
    modifies lens
    ensures lens[..] == Demoted(old(lens[..]), limit)
    ensures Bounded(lens[..], SCALE) && Kraft(lens[..], SCALE) >= 0
    ensures sum == Kraft(lens[..], SCALE) % U32_LIMIT
  {
    hide Pow2, Kraft, Shifted;
    ghost var was: seq<nat> := lens[..];
    sum := sum0;
    for s := 0 to lens.Length
      invariant forall i :: 0 <= i < s ==> lens[i] == Demoted(was, limit)[i]
      invariant forall i :: s <= i < lens.Length ==> lens[i] == was[i]
      invariant Bounded(lens[..], SCALE) && Kraft(lens[..], SCALE) >= 0
      invariant sum == Kraft(lens[..], SCALE) % U32_LIMIT
    {
      if lens[s] > limit {
        ghost var now: seq<nat> := lens[..];
        KraftUpdate(now, SCALE, s, limit);
        ShiftedWraps(Kraft(now, SCALE), Pow2(SCALE - lens[s]), Pow2(SCALE - limit));
        sum := Shifted(sum, Pow2(SCALE - lens[s]), Pow2(SCALE - limit));
        lens[s] := limit;
        assert lens[..] == now[s := limit];
      }
    }
  }

  /** The scan for the code to lengthen next; -1 when no code qualifies. */
  method PickLowest(hist: seq<uint32>, lens: array<byte>, limit: nat) returns (best: int)
    requires |hist| == lens.Length
    ensures -1 <= best < lens.Length
    ensures best >= 0 ==> 0 < lens[best] < limit
    ensures best >= 0 ==> forall t :: 0 <= t < lens.Length && t != best && 0 < lens[t] < limit ==>
              hist[best] < hist[t] || (hist[best] == hist[t] && best < t)
    ensures best < 0 ==> forall t :: 0 <= t < lens.Length && 0 < lens[t] < limit ==> hist[t] == 0xFFFF_FFFF
  {
    best := -1;
    var bestCount: uint32 := NO_COUNT;
    for s := 0 to lens.Length
      invariant -1 <= best < s
      invariant bestCount == if best < 0 then NO_COUNT else hist[best]
      invariant best >= 0 ==> 0 < lens[best] < limit
      invariant forall t :: 0 <= t < s && t != best && 0 < lens[t] < limit ==>
                  bestCount < hist[t] || (bestCount == hist[t] && best < t)
    {
      if lens[s] > 0 && lens[s] < limit && hist[s] < bestCount {
        bestCount := hist[s];
        best := s;
      }
    }
  }

  /** Lengthening the lowest remaining code is one step along the path. */
  lemma PathStep(hist: seq<nat>, m: seq<nat>, limit: nat, r: seq<nat>, p: nat, s: nat)
    requires OnPath(hist, m, limit, r, p) && s < |r| && Candidate(r, limit, s)
    requires forall t :: 0 <= t < |r| && t != s && Candidate(r, limit, t) ==> Before(hist, s, t)
    ensures OnPath(hist, m, limit, r[s := r[s] + 1], s)
  {
    assert Candidate(m, limit, s);
    forall t | 0 <= t < |m| && t != s
      ensures r[t] == if Candidate(m, limit, t) && Before(hist, t, s) then limit else m[t]
    {
      if Candidate(m, limit, t) {
        if Before(hist, t, s) {
          assert !Candidate(r, limit, t);
        }
      }
    }
  }

  lemma PathStart(hist: seq<nat>, m: seq<nat>, limit: nat, s: nat)
    requires |hist| == |m| && s < |m| && Candidate(m, limit, s)
    requires forall t :: 0 <= t < |m| && t != s && Candidate(m, limit, t) ==> Before(hist, s, t)
    ensures OnPath(hist, m, limit, m, s)
  {
  }

  /** The counts leave room for the sentinel of the scan. */
  predicate CountsBelowSentinel(hist: seq<nat>) {
    forall s :: 0 <= s < |hist| ==> hist[s] < NO_COUNT
  }

  /** Every code in use has the limit as its length. */
  ghost predicate AllAtLimit(m: seq<nat>, limit: nat, r: seq<nat>) {
    |r| == |m| && forall s :: 0 <= s < |r| ==> r[s] == if m[s] > 0 then limit else 0
  }

  method Rebalance(hist: seq<uint32>, lens: array<byte>, limit: nat, sum0: uint32)
    requires |hist| == lens.Length && 0 < limit <= SCALE
    requires Bounded(lens[..], limit) && Bounded(lens[..], SCALE) && Kraft(lens[..], SCALE) >= 0
    requires sum0 == Kraft(lens[..], SCALE) % U32_LIMIT
    modifies lens
    ensures Bounded(lens[..], limit) && Bounded(lens[..], SCALE)
    ensures CountsBelowSentinel(hist) && old(Kraft(lens[..], SCALE)) < U32_LIMIT ==>
              if sum0 <= TARGET then lens[..] == old(lens[..])
              else if old(UsedCount(lens[..], lens.Length)) <= Pow2(limit) then
                exists p: nat :: FirstFit(hist, old(lens[..]), limit, lens[..], p)
              else AllAtLimit(old(lens[..]), limit, lens[..])
  {
    hide Pow2, Kraft, OnPath, UsedCount, Shifted;
    ghost var m: seq<nat> := lens[..];
    ghost var p: int := -1;
    var sum := sum0;
    while sum > TARGET
      invariant Bounded(lens[..], limit) && Bounded(lens[..], SCALE)
      invariant 0 <= Kraft(lens[..], SCALE) <= Kraft(m, SCALE) && sum == Kraft(lens[..], SCALE) % U32_LIMIT
      invariant SameUsed(m, lens[..])
      invariant p < 0 ==> lens[..] == m
      invariant p >= 0 ==> sum0 > TARGET
      invariant p >= 0 && Kraft(m, SCALE) < U32_LIMIT ==> StepMade(hist, m, limit, lens[..], p)
      decreases Kraft(lens[..], SCALE)
    {
      var best := PickLowest(hist, lens, limit);
      if best < 0 {
        break;
      }
      ghost var now: seq<nat> := lens[..];
      if Kraft(m, SCALE) < U32_LIMIT {
        LengthenStep(hist, m, limit, now, p, best);
      }
      OneLonger(now, limit, best);
      ShiftedWraps(Kraft(now, SCALE), Pow2(SCALE - now[best]), Pow2(SCALE - now[best] - 1));
      lens[best] := lens[best] + 1;
      sum := Shifted(sum, Pow2(SCALE - (lens[best] - 1)), Pow2(SCALE - lens[best]));
      assert lens[..] == now[best := now[best] + 1];
      p := best;
    }
    WhereItEnds(hist, m, limit, lens[..], p, sum);
  }

  predicate SameUsed(a: seq<nat>, b: seq<nat>) {
    |a| == |b| && forall s :: 0 <= s < |a| ==> (a[s] > 0 <==> b[s] > 0)
  }

  lemma OneLonger(r: seq<nat>, limit: nat, s: nat)
    requires limit <= SCALE && Bounded(r, limit) && Bounded(r, SCALE) && s < |r| && Candidate(r, limit, s)
    ensures var r' := r[s := r[s] + 1];
            && Bounded(r', limit) && Bounded(r', SCALE) && SameUsed(r, r')
            && Kraft(r', SCALE) == Kraft(r, SCALE) - Pow2(SCALE - r[s]) + Pow2(SCALE - r[s] - 1)
            && 0 <= Kraft(r', SCALE) < Kraft(r, SCALE)
  {
    KraftUpdate(r, SCALE, s, r[s] + 1);
  }

  /** The loop ends at the first fitting point when that many codes fit, and with the break
      otherwise: then the sum is still too large and no code is below the limit. */
  lemma WhereItEnds(hist: seq<nat>, m: seq<nat>, limit: nat, r: seq<nat>, p: int, sum: nat)
    requires |hist| == |m| == |r| && 0 < limit <= SCALE && Bounded(m, limit) && Bounded(m, SCALE)
    requires Bounded(r, limit) && Bounded(r, SCALE) && SameUsed(m, r)
    requires 0 <= Kraft(r, SCALE) <= Kraft(m, SCALE) && sum == Kraft(r, SCALE) % U32_LIMIT
    requires p < 0 ==> r == m
    requires p >= 0 ==> Kraft(m, SCALE) > TARGET || Kraft(m, SCALE) >= U32_LIMIT
    requires p >= 0 && Kraft(m, SCALE) < U32_LIMIT ==> StepMade(hist, m, limit, r, p)
    requires sum > TARGET ==> forall t :: 0 <= t < |r| && Candidate(r, limit, t) ==> hist[t] == NO_COUNT
    ensures CountsBelowSentinel(hist) && Kraft(m, SCALE) < U32_LIMIT ==>
              if Kraft(m, SCALE) <= TARGET then r == m
              else if UsedCount(m, |m|) <= Pow2(limit) then exists q: nat :: FirstFit(hist, m, limit, r, q)
              else AllAtLimit(m, limit, r)
  {
    hide Pow2, Kraft, OnPath, Before, UsedCount;
    if CountsBelowSentinel(hist) && Kraft(m, SCALE) < U32_LIMIT && Kraft(m, SCALE) > TARGET {
      UsedCountSame(m, r, |m|);
      if UsedCount(m, |m|) <= Pow2(limit) {
        if sum > TARGET {
          var c := CandidateExists(r, limit);
        }
        assert p >= 0 ==> FirstFit(hist, m, limit, r, p);
      } else {
        TooManyCodes(r, limit);
        forall s | 0 <= s < |r| ensures r[s] == if m[s] > 0 then limit else 0 {
          assert hist[s] < NO_COUNT && !Candidate(r, limit, s);
        }
      }
    }
  }

  /** More than 2^limit codes never fit, whatever their lengths up to the limit. */
  lemma TooManyCodes(r: seq<nat>, limit: nat)
    requires 0 < limit <= SCALE && Bounded(r, limit) && Bounded(r, SCALE)
    requires UsedCount(r, |r|) > Pow2(limit)
    ensures Kraft(r, SCALE) > TARGET
  {
    hide Sum, Pow2, UsedCount;
    var n, u := |r|, Pow2(SCALE - limit);
    var c := seq(n, s requires 0 <= s < n => if r[s] > 0 then u else 0);
    UsedCountTimes(r, c, n, u);
    forall s | 0 <= s < n ensures c[s] <= UsedShares(r, SCALE)[s] {
      if r[s] > 0 {
        Pow2Mono(SCALE - limit, SCALE - r[s]);
      }
    }
    SumLe(c, UsedShares(r, SCALE), n);
    UnitsFill(limit);
    UnitsCompare(UsedCount(r, n), Pow2(limit), u);
  }

  lemma UnitsFill(limit: nat)
    requires limit <= SCALE
    ensures Pow2(limit) * Pow2(SCALE - limit) == TARGET
  {
    hide Pow2;
    Pow2Add(limit, SCALE - limit);
    Pow2Values();
  }

  lemma UnitsCompare(count: nat, p: nat, u: nat)
    requires u > 0
    ensures count > p ==> count * u > p * u
    ensures count < 3 * p ==> count * u < 3 * (p * u)
  {
    if count > p {
      MulMono(p + 1, count, u);
      Distribute(p, 1, u);
    }
    if count < 3 * p {
      MulMono(count + 1, 3 * p, u);
      Distribute(count, 1, u);
      MulAssoc(3, p, u);
    }
  }

  /** The sum after cutting stays below 2^32 when fewer than 3 * 2^limit symbols are used;
      for 256 symbols that is any limit from 7 on. */
  lemma CutNeverWraps(lens: seq<nat>, limit: nat)
    requires Bounded(lens, SCALE) && 0 < limit <= SCALE && Kraft(lens, SCALE) <= TARGET
    requires UsedCount(lens, |lens|) < 3 * Pow2(limit)
    ensures Bounded(Demoted(lens, limit), SCALE) && Kraft(Demoted(lens, limit), SCALE) < U32_LIMIT
  {
    hide Sum, Pow2, UsedCount;
    var n, u := |lens|, Pow2(SCALE - limit);
    var c := seq(n, s requires 0 <= s < n => if lens[s] > 0 then u else 0);
    UsedCountTimes(lens, c, n, u);
    DemotedShares(lens, Demoted(lens, limit), limit, c);
    UnitsFill(limit);
    UnitsCompare(UsedCount(lens, n), Pow2(limit), u);
  }

  ghost predicate StepMade(hist: seq<nat>, m: seq<nat>, limit: nat, r: seq<nat>, p: nat) {
    && OnPath(hist, m, limit, r, p) && m[p] < r[p]
    && Bounded(r[p := r[p] - 1], SCALE) && Kraft(r[p := r[p] - 1], SCALE) > TARGET
  }

  lemma LengthenStep(hist: seq<nat>, m: seq<nat>, limit: nat, r: seq<nat>, p: int, s: nat)
    requires |hist| == |m| == |r| && limit <= SCALE && Bounded(r, limit) && Bounded(r, SCALE)
    requires p < 0 ==> r == m
    requires p >= 0 ==> OnPath(hist, m, limit, r, p)
    requires s < |r| && Candidate(r, limit, s) && Kraft(r, SCALE) > TARGET
    requires forall t :: 0 <= t < |r| && t != s && Candidate(r, limit, t) ==> Before(hist, s, t)
    ensures var r' := r[s := r[s] + 1];
            && Bounded(r', limit) && Bounded(r', SCALE)
            && UsedCount(r', |r|) == UsedCount(r, |r|)
            && Kraft(r', SCALE) == Kraft(r, SCALE) - Pow2(SCALE - r[s]) + Pow2(SCALE - r[s] - 1)
            && Pow2(SCALE - r[s]) <= Kraft(r, SCALE)
            && Pow2(SCALE - r[s]) == 2 * Pow2(SCALE - r[s] - 1)
            && StepMade(hist, m, limit, r', s)
  {
    var r' := r[s := r[s] + 1];
    KraftUpdate(r, SCALE, s, r[s] + 1);
    UsedCountSame(r, r', |r|);
    if p < 0 {
      PathStart(hist, m, limit, s);
      PathStep(hist, m, limit, r, s, s);
    } else {
      PathStep(hist, m, limit, r, p, s);
    }
    assert m[s] <= r[s];
    assert r'[s := r'[s] - 1] == r;
  }

  /** height_limit on a table of tree lengths, or of any lengths within Kraft.  While the
      32-bit sum holds: with at most 2^limit codes the result is the first fitting point of
      the path; with more the loop is left by the break, every code at the limit. */
  method LimitHeight(hist: seq<uint32>, lens: array<byte>, limit: nat)
    requires |hist| == lens.Length && 0 < limit <= SCALE
    requires Bounded(lens[..], SCALE) && Kraft(lens[..], SCALE) <= TARGET
    modifies lens
    ensures Bounded(lens[..], limit)
    ensures var m := Demoted(old(lens[..]), limit);
            (forall s :: 0 <= s < |hist| ==> hist[s] < 0xFFFF_FFFF) && Kraft(m, 30) < 0x1_0000_0000 ==>
              if UsedCount(m, |m|) <= Pow2(limit) then Limited(hist, old(lens[..]), limit, lens[..])
              else && (forall s :: 0 <= s < |m| ==> lens[s] == if m[s] > 0 then limit else 0)
                   && Kraft(lens[..], 30) > 0x4000_0000
  {
    hide Kraft, UsedCount, FirstFit;
    var sum := KraftSum(lens);
    sum := Demote(lens, limit, sum);
    ghost var m: seq<nat> := lens[..];
    Rebalance(hist, lens, limit, sum);
    if UsedCount(m, |m|) > Pow2(limit) {
      TooManyCodes(m, limit);
      if AllAtLimit(m, limit, lens[..]) {
        UsedCountSame(m, lens[..], |m|);
        TooManyCodes(lens[..], limit);
      }
    }
  }

  // ----- what a limited table guarantees -----

  /** All lengths within the limit, the same symbols used, no code shorter than after the
      cut, and Kraft at most 1. */
  lemma LimitedIsValid(hist: seq<nat>, lens: seq<nat>, limit: nat, r: seq<nat>)
    requires Limited(hist, lens, limit, r) && 0 < limit <= SCALE
    ensures |r| == |lens| && Bounded(r, limit) && Kraft(r, SCALE) <= TARGET
    ensures forall s :: 0 <= s < |r| ==> (r[s] > 0 <==> lens[s] > 0)
    ensures forall s :: 0 <= s < |r| ==> r[s] >= if lens[s] < limit then lens[s] else limit
  {
    var m := Demoted(lens, limit);
    if Kraft(m, SCALE) > TARGET {
      var p: nat :| FirstFit(hist, m, limit, r, p);
      forall s | 0 <= s < |r| ensures m[s] <= r[s] <= limit && (r[s] > 0 <==> m[s] > 0) {
      }
    }
  }

  /** Codes are lengthened in the order of their counts: when t was lengthened and s could
      still be, t has the lower count, or the same count and the lower symbol. */
  lemma LimitedLowestFirst(hist: seq<nat>, lens: seq<nat>, limit: nat, r: seq<nat>, t: nat, s: nat)
    requires Limited(hist, lens, limit, r)
    requires t < |lens| && s < |lens| && s != t && |r| == |lens| == |hist|
    requires r[t] > if lens[t] < limit then lens[t] else limit
    requires 0 < lens[s] < limit && r[s] < limit
    ensures hist[t] < hist[s] || (hist[t] == hist[s] && t < s)
  {
    hide Kraft;
    var p: nat :| FirstFit(hist, Demoted(lens, limit), limit, r, p);
  }

  /** No code is lengthened without need: if the cut lengths fit they stay; otherwise some
      lengthened code, one bit shorter, would make the sum exceed 2^30 again. */
  lemma LimitedStopsEarly(hist: seq<nat>, lens: seq<nat>, limit: nat, r: seq<nat>)
    requires Limited(hist, lens, limit, r) && |r| == |lens| && Bounded(r, 30)
    ensures Bounded(Demoted(lens, limit), 30)
    ensures if Kraft(Demoted(lens, limit), 30) <= 0x4000_0000 then r == Demoted(lens, limit)
            else exists p :: 0 <= p < |r| && r[p] > (if lens[p] < limit then lens[p] else limit)
                             && Kraft(r[p := r[p] - 1], 30) > 0x4000_0000
  {
    hide Kraft;
    if Kraft(Demoted(lens, limit), SCALE) > TARGET {
      var p: nat :| FirstFit(hist, Demoted(lens, limit), limit, r, p);
      assert r[p] > 0;
    }
  }

  /** The point on the path where p has reached length l. */
  ghost function PathPoint(hist: seq<nat>, m: seq<nat>, limit: nat, p: nat, l: nat): (r: seq<nat>)
    requires |hist| == |m| && p < |m|
    ensures |r| == |m|
  {
    seq(|m|, s requires 0 <= s < |m| =>
      if s == p then l
      else if Candidate(m, limit, s) && Before(hist, s, p) then limit else m[s])
  }

  lemma PathPointBounded(hist: seq<nat>, m: seq<nat>, limit: nat, p: nat, l: nat)
    requires |hist| == |m| && p < |m| && l <= SCALE && limit <= SCALE && Bounded(m, SCALE)
    ensures Bounded(PathPoint(hist, m, limit, p, l), SCALE)
  {
  }

  /** Points further along the path have no larger Kraft sum, and a smaller one when the
      last code has really been lengthened. */
  lemma PathDecreases(hist: seq<nat>, m: seq<nat>, limit: nat, p: nat, l: nat, q: nat, k: nat)
    requires |hist| == |m| && limit <= SCALE && Bounded(m, SCALE)
    requires p < |m| && Candidate(m, limit, p) && m[p] <= l <= limit
    requires q < |m| && Candidate(m, limit, q) && m[q] <= k <= limit
    requires (p == q && l <= k) || (p != q && Before(hist, p, q))
    ensures Bounded(PathPoint(hist, m, limit, p, l), SCALE) && Bounded(PathPoint(hist, m, limit, q, k), SCALE)
    ensures Kraft(PathPoint(hist, m, limit, q, k), SCALE) <= Kraft(PathPoint(hist, m, limit, p, l), SCALE)
    ensures (if p == q then l < k else m[q] < k) ==>
              Kraft(PathPoint(hist, m, limit, q, k), SCALE) < Kraft(PathPoint(hist, m, limit, p, l), SCALE)
  {
    PathPointBounded(hist, m, limit, p, l);
    PathPointBounded(hist, m, limit, q, k);
    var a, b := PathPoint(hist, m, limit, p, l), PathPoint(hist, m, limit, q, k);
    forall s | 0 <= s < |m| ensures a[s] <= b[s] && (a[s] > 0 <==> b[s] > 0) {
    }
    KraftShrinks(a, b, SCALE, q);
  }

  lemma KraftShrinks(a: seq<nat>, b: seq<nat>, d: nat, q: nat)
    requires |a| == |b| && Bounded(a, d) && Bounded(b, d) && q < |a| && 0 < a[q] <= b[q]
    requires forall s :: 0 <= s < |a| ==> a[s] <= b[s] && (a[s] > 0 <==> b[s] > 0)
    ensures Kraft(b, d) <= Kraft(a, d) && (a[q] < b[q] ==> Kraft(b, d) < Kraft(a, d))
  {
    var c := a[q := b[q]];
    KraftUpdate(a, d, q, b[q]);
    if a[q] < b[q] {
      Pow2Strict(d - b[q], d - a[q]);
    }
    var x, y := UsedShares(b, d), UsedShares(c, d);
    forall s | 0 <= s < |a| ensures x[s] <= y[s] {
      if b[s] > 0 && s != q {
        Pow2Mono(d - b[s], d - a[s]);
      }
    }
    SumLe(x, y, |a|);
  }

  /** What taking each candidate before p all the way to the limit takes off the sum. */
  function Gains(hist: seq<nat>, m: seq<nat>, limit: nat, p: nat): (g: seq<int>)
    requires |hist| == |m| && p < |m| && limit <= SCALE && Bounded(m, SCALE)
    ensures |g| == |m|
  {
    seq(|m|, s requires 0 <= s < |m| =>
      if Candidate(m, limit, s) && Before(hist, s, p) then Pow2(SCALE - m[s]) - Pow2(SCALE - limit) else 0)
  }

  lemma PathKraft(hist: seq<nat>, m: seq<nat>, limit: nat, p: nat, l: nat)
    requires |hist| == |m| && p < |m| && limit <= SCALE && Bounded(m, SCALE)
    requires Candidate(m, limit, p) && 0 < l <= SCALE
    ensures Bounded(PathPoint(hist, m, limit, p, l), SCALE)
    ensures Kraft(PathPoint(hist, m, limit, p, l), SCALE)
         == Kraft(m, SCALE) - Total(Gains(hist, m, limit, p)) - Pow2(SCALE - m[p]) + Pow2(SCALE - l)
  {
    hide Pow2, Sum;
    var start := PathPoint(hist, m, limit, p, m[p]);
    PathPointBounded(hist, m, limit, p, m[p]);
    SumAdd(UsedShares(start, SCALE), Gains(hist, m, limit, p), UsedShares(m, SCALE), |m|);
    KraftUpdate(start, SCALE, p, l);
    assert start[p := l] == PathPoint(hist, m, limit, p, l);
  }

  /** Lengthening every candidate before p to the limit, and p to l, takes off exactly what
      the cut table has too much. */
  predicate HitsTarget(hist: seq<nat>, m: seq<nat>, limit: nat, p: nat, l: nat)
    requires |hist| == |m| && limit <= SCALE && Bounded(m, SCALE)
  {
    && p < |m| && Candidate(m, limit, p) && m[p] < l <= limit
    && Total(Gains(hist, m, limit, p)) + Pow2(SCALE - m[p]) - Pow2(SCALE - l) == Kraft(m, SCALE) - TARGET
  }

  /** The comment on height_limit promises a sum of exactly 1.  After cutting, that
      happens precisely when the excess is the gain of some point of the lengthening path,
      which one pass over the cut table decides. */
  lemma LimitedExactIff(hist: seq<nat>, lens: seq<nat>, limit: nat, r: seq<nat>)
    requires Limited(hist, lens, limit, r) && 0 < limit <= SCALE
    requires Kraft(Demoted(lens, limit), SCALE) > TARGET
    ensures Kraft(r, SCALE) == TARGET <==>
              exists p: nat, l: nat :: HitsTarget(hist, Demoted(lens, limit), limit, p, l)
  {
    hide Pow2, Kraft, Sum, Gains;
    var m := Demoted(lens, limit);
    var p: nat :| FirstFit(hist, m, limit, r, p);
    assert r == PathPoint(hist, m, limit, p, r[p]);
    assert r[p := r[p] - 1] == PathPoint(hist, m, limit, p, r[p] - 1);
    PathKraft(hist, m, limit, p, r[p]);
    if Kraft(r, SCALE) == TARGET {
      assert HitsTarget(hist, m, limit, p, r[p]);
    }
    forall q: nat, k: nat | HitsTarget(hist, m, limit, q, k) ensures Kraft(r, SCALE) == TARGET {
      PathKraft(hist, m, limit, q, k);
      if (q == p && k < r[p]) || (q != p && Before(hist, q, p)) {
        PathDecreases(hist, m, limit, q, k, p, r[p] - 1);
      } else {
        PathDecreases(hist, m, limit, p, r[p], q, k);
      }
    }
  }
}
