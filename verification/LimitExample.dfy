/** Fibonacci counts, for every limit: the builder makes codes of 1, 2, 3, ... bits, two of
    them above the limit, and height_limit leaves exactly one unit of the code space
    unused.  So the exact sum that its comment promises is missed, and the escape table
    gets an odd number of long codes. */
module LimitExample {
  import opened Numbers
  import opened HuffmanTree
  import opened CodeLengths
  import opened HeightLimit
  import opened Canonical
  import opened Encoder
  import opened EscapeTable

  /** limit + 3 symbols with falling Fibonacci counts; for limit 10 they are 233, 144, 89,
      55, 34, 21, 13, 8, 5, 3, 2, 1, 1. */
  function FibHist(limit: nat): (h: seq<nat>)
    ensures |h| == SYMBOLS
  {
    seq(SYMBOLS, s requires 0 <= s < SYMBOLS => if s < limit + 3 then Fib(limit + 3 - s) else 0)
  }

  /** The lengths 1, 2, ..., limit + 2, limit + 2. */
  function FibLens(limit: nat): (l: seq<nat>)
    ensures |l| == SYMBOLS
  {
    seq(SYMBOLS, s requires 0 <= s < SYMBOLS =>
      if s < limit + 2 then s + 1 else if s == limit + 2 then limit + 2 else 0)
  }

  /** The lengths 1, ..., limit - 3, limit - 1, and five times the limit. */
  function FibLimited(limit: nat): (l: seq<nat>)
    requires 3 <= limit
    ensures |l| == SYMBOLS
  {
    seq(SYMBOLS, s requires 0 <= s < SYMBOLS =>
      if s < limit - 3 then s + 1 else if s == limit - 3 then limit - 1 else if s < limit + 3 then limit else 0)
  }

  // ----- the builder makes these lengths -----

  /** The tree below the node that merges the symbols from k on. */
  function Chain(limit: nat, k: nat): Tree
    requires k <= limit + 2
    decreases limit + 2 - k
  {
    if k == limit + 2 then Leaf(k, Fib(1)) else Node(Leaf(k, Fib(limit + 3 - k)), Chain(limit, k + 1))
  }

  function Front(limit: nat, k: nat): (f: seq<Tree>)
    requires k <= limit + 3
    ensures |f| == k && forall i :: 0 <= i < k ==> f[i] == Leaf(i, Fib(limit + 3 - i))
  {
    seq(k, i requires 0 <= i < k => Leaf(i, Fib(limit + 3 - i)))
  }

  lemma {:induction false} ChainWeight(limit: nat, k: nat)
    requires k <= limit + 2
    ensures Weight(Chain(limit, k)) == Fib(limit + 5 - k) - 1
    decreases limit + 2 - k
  {
    hide Fib;
    FibStep(limit + 3 - k);
    if k == limit + 2 {
      FibStep(0);
    } else {
      ChainWeight(limit, k + 1);
    }
  }

  lemma LastTwoFirst(limit: nat, k: nat)
    requires 0 < k <= limit + 2 && Fib(limit + 5) < U32_LIMIT
    ensures FirstTwo(Weights32(Front(limit, k) + [Chain(limit, k)]), k - 1, k)
  {
    hide Chain, Fib;
    var w := Weights32(Front(limit, k) + [Chain(limit, k)]);
    ChainWeight(limit, k);
    FibStep(limit + 3 - k);
    FibMono(1, limit + 3 - k);
    FibStep(0);
    FibMono(limit + 5 - k, limit + 5);
    forall i | 0 <= i < k ensures w[i] == Fib(limit + 3 - i) {
      FibMono(limit + 3 - i, limit + 5);
    }
    forall i | 0 <= i < k - 1 ensures Ahead(w, k, i) {
      FibMono(limit + 5 - k, limit + 3 - i);
    }
  }

  lemma LastTwoMerged(limit: nat, k: nat)
    requires 0 < k <= limit + 2
    ensures MergedForest(Front(limit, k) + [Chain(limit, k)], k - 1, k)
         == Front(limit, k - 1) + [Chain(limit, k - 1)]
  {
    hide Fib;
  }

  lemma {:induction false} ChainIsBuilt(limit: nat, k: nat)
    requires k <= limit + 2 && Fib(limit + 5) < U32_LIMIT
    ensures Huffman32(Front(limit, k) + [Chain(limit, k)], Chain(limit, 0))
  {
    hide Chain, Ahead, MergedForest, Fib;
    if k > 0 {
      ChainIsBuilt(limit, k - 1);
      LastTwoFirst(limit, k);
      LastTwoMerged(limit, k);
    } else {
      assert Front(limit, 0) + [Chain(limit, 0)] == [Chain(limit, 0)];
    }
  }

  lemma {:induction false} FibForest(limit: nat, k: nat)
    requires k <= SYMBOLS && limit + 3 <= SYMBOLS
    ensures InitialForest(FibHist(limit), k) == Front(limit, if k <= limit + 3 then k else limit + 3)
    ensures UsedCount(FibHist(limit), k) == if k <= limit + 3 then k else limit + 3
  {
    hide Fib;
    if k > 0 {
      FibForest(limit, k - 1);
      if k <= limit + 3 {
        FibMono(1, limit + 4 - k);
        FibStep(0);
      }
    }
  }

  lemma {:induction false} ChainDepth(limit: nat, k: nat, s: nat)
    requires k <= limit + 2
    ensures s in Leaves(Chain(limit, k)) <==> k <= s <= limit + 2
    ensures k <= s <= limit + 2 ==>
              Depth(Chain(limit, k), s) == if s == limit + 2 then limit + 2 - k else s - k + 1
    decreases limit + 2 - k
  {
    hide Fib;
    if k < limit + 2 {
      ChainDepth(limit, k + 1, s);
    }
  }

  lemma FibLensAreBuilt(limit: nat)
    requires limit <= 28
    ensures MergedLengths(FibHist(limit), FibLens(limit))
  {
    hide Chain, FibHist, Huffman32, InitialForest, UsedCount, Fib;
    FibMono(limit + 5, 33);
    FibValues();
    var t := Chain(limit, 0);
    FibForest(limit, SYMBOLS);
    ChainIsBuilt(limit, limit + 2);
    assert Front(limit, limit + 2) + [Chain(limit, limit + 2)] == Front(limit, limit + 3) by { LastLeaf(limit); }
    forall s | 0 <= s < SYMBOLS ensures FibLens(limit)[s] == TreeLength(t, s) {
      ChainDepth(limit, 0, s);
    }
    forall s | s in Leaves(t) ensures s < SYMBOLS {
      ChainDepth(limit, 0, s);
    }
    assert TreeLengths(FibLens(limit), t);
  }

  lemma LastLeaf(limit: nat)
    ensures Chain(limit, limit + 2) == Leaf(limit + 2, Fib(1))
  {
  }

  // ----- cutting them overshoots by two units, lengthening undershoots by one -----

  lemma {:induction false} StaircaseSum(p: seq<int>, k: nat)
    requires k <= |p| && k <= SCALE
    requires forall s :: 0 <= s < k ==> p[s] == Pow2(SCALE - s - 1)
    ensures Sum(p, k) == Pow2(SCALE) - Pow2(SCALE - k)
  {
    hide Pow2;
    if k > 0 {
      StaircaseSum(p, k - 1);
      Doubled(SCALE - k);
    }
  }

  lemma Doubled(n: nat)
    ensures Pow2(n + 1) == 2 * Pow2(n)
  {
  }

  lemma TailSum(p: seq<int>, k: nat)
    requires k <= |p| && forall s :: k <= s < |p| ==> p[s] == 0
    ensures Total(p) == Sum(p, k)
  {
    assert p == p[..k] + p[k..];
    SumConcat(p[..k], p[k..], |p| - k);
    SumConst(p[k..], |p| - k, 0);
    SumSlice(p, k, k);
  }

  lemma FourMore(p: seq<int>, k: nat, u: int)
    requires k + 4 <= |p| && p[k] == p[k + 1] == p[k + 2] == p[k + 3] == u
    ensures Sum(p, k + 4) == Sum(p, k) + 4 * u
  {
    assert Sum(p, k + 2) == Sum(p, k) + 2 * u;
  }

  /** The unit 2^-limit and the lengths after cutting. */
  function Unit(limit: nat): nat
    requires limit <= SCALE
  {
    Pow2(SCALE - limit)
  }

  function FibCut(limit: nat): (m: seq<nat>)
    ensures |m| == SYMBOLS
    ensures forall s :: 0 <= s < SYMBOLS ==> m[s] == if s < limit then s + 1 else if s < limit + 3 then limit else 0
  {
    Demoted(FibLens(limit), limit)
  }

  lemma CutKraft(limit: nat)
    requires 3 <= limit <= 28
    ensures Bounded(FibCut(limit), SCALE)
    ensures Kraft(FibCut(limit), SCALE) == TARGET + 2 * Unit(limit)
  {
    hide Pow2, Sum;
    var p := UsedShares(FibCut(limit), SCALE);
    StaircaseSum(p, limit - 1);
    TailSum(p, limit + 3);
    FourMore(p, limit - 1, Unit(limit));
    Doubled(SCALE - limit);
    assert Pow2(SCALE) == TARGET by { Pow2Values(); }
  }

  /** The two path points around the target. */
  lemma FibPathPoints(limit: nat, h: seq<nat>, m: seq<nat>, x: seq<nat>, y: seq<nat>)
    requires 3 <= limit <= 28 && h == FibHist(limit) && m == FibCut(limit)
    requires x == PathPoint(h, m, limit, limit - 2, limit) && y == PathPoint(h, m, limit, limit - 3, limit - 1)
    ensures y == FibLimited(limit)
    ensures Bounded(x, SCALE) && Kraft(x, SCALE) == TARGET + Unit(limit)
    ensures Bounded(y, SCALE) && Kraft(y, SCALE) == TARGET - Unit(limit)
  {
    hide Pow2, Kraft, Fib;
    CutKraft(limit);
    CountOrder(limit, limit - 2);
    CountOrder(limit, limit - 3);
    assert x == m[limit - 2 := limit];
    assert y == x[limit - 3 := limit - 1];
    KraftUpdate(m, SCALE, limit - 2, limit);
    KraftUpdate(x, SCALE, limit - 3, limit - 1);
    Doubled(SCALE - limit);
    Doubled(SCALE - limit + 1);
  }

  /** Among the codes below the limit, later symbols have lower counts. */
  lemma CountOrder(limit: nat, s: nat)
    requires 3 <= limit <= 28 && s < limit
    ensures forall t :: 0 <= t < limit && t != s ==> (Before(FibHist(limit), t, s) <==> s < t)
  {
    hide Fib;
    forall t | 0 <= t < limit && t != s ensures Before(FibHist(limit), t, s) <==> s < t {
      if s < t {
        FibRises(limit + 3 - t, limit + 3 - s);
      } else {
        FibRises(limit + 3 - s, limit + 3 - t);
      }
    }
  }

  lemma FibRises(a: nat, b: nat)
    requires 2 <= a < b
    ensures Fib(a) < Fib(b)
  {
    hide Fib;
    FibMono(a + 1, b);
    FibStep(a - 1);
    FibMono(1, a - 1);
    FibStep(0);
  }

  /** height_limit has exactly one result for these lengths. */
  lemma FibLimitedIff(limit: nat, r: seq<nat>)
    requires 3 <= limit <= 28
    ensures Limited(FibHist(limit), FibLens(limit), limit, r) <==> r == FibLimited(limit)
  {
    hide Pow2, Kraft, Fib, FibHist, FibLens, FibLimited;
    var h, m := FibHist(limit), FibCut(limit);
    var x, y := PathPoint(h, m, limit, limit - 2, limit), PathPoint(h, m, limit, limit - 3, limit - 1);
    FibPathPoints(limit, h, m, x, y);
    CutKraft(limit);
    if Limited(h, FibLens(limit), limit, r) {
      var p: nat :| FirstFit(h, m, limit, r, p);
      FibPivot(limit, h, m, r, p);
    }
    if r == y {
      FibFits(limit, h, m, x, y);
    }
  }

  lemma FibFits(limit: nat, h: seq<nat>, m: seq<nat>, x: seq<nat>, y: seq<nat>)
    requires 3 <= limit <= 28 && h == FibHist(limit) && m == FibCut(limit)
    requires x == PathPoint(h, m, limit, limit - 2, limit) && y == PathPoint(h, m, limit, limit - 3, limit - 1)
    ensures Bounded(y, SCALE) && FirstFit(h, m, limit, y, limit - 3)
  {
    hide Pow2, Kraft, Fib, FibHist;
    FibPathPoints(limit, h, m, x, y);
    CountOrder(limit, limit - 2);
    CountOrder(limit, limit - 3);
    assert y[limit - 3 := y[limit - 3] - 1] == x;
  }

  lemma FibPivot(limit: nat, h: seq<nat>, m: seq<nat>, r: seq<nat>, p: nat)
    requires 3 <= limit <= 28 && h == FibHist(limit) && m == FibCut(limit)
    requires Bounded(r, SCALE) && FirstFit(h, m, limit, r, p)
    ensures r == FibLimited(limit)
  {
    hide Pow2, Kraft, Fib, FibHist, FibLimited;
    var x, y := PathPoint(h, m, limit, limit - 2, limit), PathPoint(h, m, limit, limit - 3, limit - 1);
    FibPathPoints(limit, h, m, x, y);
    CutKraft(limit);
    assert r == PathPoint(h, m, limit, p, r[p]);
    assert r[p := r[p] - 1] == PathPoint(h, m, limit, p, r[p] - 1);
    if p < limit - 3 {
      CountOrder(limit, p);
      PathDecreases(h, m, limit, limit - 3, limit - 1, p, r[p] - 1);
    }
  }

  /** For every limit from 3 to 28 there is a histogram whose limited code is incomplete:
      the builder's lengths lead to one result only, and it leaves one unit unused. */
  lemma LimitedCanBeIncomplete(limit: nat, r: seq<nat>)
    requires 3 <= limit <= 28 && Limited(FibHist(limit), FibLens(limit), limit, r)
    ensures MergedLengths(FibHist(limit), FibLens(limit))
    ensures Kraft(r, SCALE) == TARGET - Pow2(SCALE - limit) < TARGET
  {
    hide Fib, FibHist, FibLens, FibLimited, PathPoint;
    FibLensAreBuilt(limit);
    FibLimitedIff(limit, r);
    var h, m := FibHist(limit), FibCut(limit);
    FibPathPoints(limit, h, m, PathPoint(h, m, limit, limit - 2, limit), PathPoint(h, m, limit, limit - 3, limit - 1));
  }

  // ----- and its escape table accepts a window that begins with no code -----

  /** The canonical code that the chain assigns to this histogram at the limit maxLen + 1
      has an odd number of long codes, so its escape table is not exact. */
  lemma EscapeFailsAfterLimit(c: Code, maxLen: nat)
    requires 2 <= maxLen <= 16 && c.Shaped() && IsCanonical(c.lens, maxLen + 1, c.codes)
    requires Limited(FibHist(maxLen + 1), FibLens(maxLen + 1), maxLen + 1, c.lens)
    ensures CountOf(c.lens, maxLen + 1, SYMBOLS) % 2 == 1
    ensures exists v: nat :: ReadsZero(c, maxLen, v)
  {
    hide Pow2, Limited, EscRejects, ReadsZero, Fib, FibHist, FibLens;
    var l := maxLen + 1;
    LimitedCanBeIncomplete(l, c.lens);
    SharesScale(c.lens, l, SCALE - l, SYMBOLS);
    Pow2Add(l, SCALE - l);
    assert Pow2(SCALE) == TARGET by { Pow2Values(); }
    OneBelow(Kraft(c.lens, l), Pow2(l), Pow2(SCALE - l));
    ShareParity(c.lens, maxLen, SYMBOLS);
    PowerParity(l);
    EscExactIff(c, maxLen);
  }

  lemma OneBelow(k: int, m: int, u: int)
    requires u > 0 && k * u == m * u - u
    ensures k == m - 1
  {
    Distribute(m - 1, 1, u);
    if k < m - 1 {
      MulMono(1, m - 1 - k, u);
      Distribute(m - 1 - k, k, u);
    } else if k > m - 1 {
      MulMono(1, k - (m - 1), u);
      Distribute(k - (m - 1), m - 1, u);
    }
  }
}
