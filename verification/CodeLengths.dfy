/** Code lengths of a Huffman tree as a table over all symbols, and the theorems about
    them: Kraft equality, optimality and the Fibonacci bound on the longest code. */
module CodeLengths {
  import opened Numbers
  import opened HuffmanTree

  /** One leaf per symbol below k with a non-zero count, in symbol order. */
  function InitialForest(hist: seq<nat>, k: nat): seq<Tree>
    requires k <= |hist|
  {
    if k == 0 then []
    else InitialForest(hist, k - 1) + if hist[k - 1] > 0 then [Leaf(k - 1, hist[k - 1])] else []
  }

  function UsedCount(hist: seq<nat>, k: nat): nat
    requires k <= |hist|
  {
    if k == 0 then 0 else UsedCount(hist, k - 1) + if hist[k - 1] > 0 then 1 else 0
  }

  /** Depth of s in t, or 0 when s has no leaf. */
  function TreeLength(t: Tree, s: nat): nat {
    if s in Leaves(t) then Depth(t, s) else 0
  }

  ghost predicate TreeLengths(lens: seq<nat>, t: Tree) {
    && (forall s :: s in Leaves(t) ==> s < |lens|)
    && forall s :: 0 <= s < |lens| ==> lens[s] == TreeLength(t, s)
  }

  /** The lengths that the builder may return: those of a tree merged from the used
      symbols, except that a lone symbol gets length 1. */
  ghost predicate HuffmanLengths(hist: seq<nat>, lens: seq<nat>) {
    && |lens| == |hist|
    && match UsedCount(hist, |hist|)
       case 0 => forall s :: 0 <= s < |lens| ==> lens[s] == 0
       case 1 => forall s :: 0 <= s < |lens| ==> lens[s] == if hist[s] > 0 then 1 else 0
       case _ => exists t :: Huffman(InitialForest(hist, |hist|), t) && TreeLengths(lens, t)
  }

  /** The lengths that the builder returns, also where its sums wrap. */
  ghost predicate MergedLengths(hist: seq<nat>, lens: seq<nat>) {
    && |lens| == |hist|
    && match UsedCount(hist, |hist|)
       case 0 => forall s :: 0 <= s < |lens| ==> lens[s] == 0
       case 1 => forall s :: 0 <= s < |lens| ==> lens[s] == if hist[s] > 0 then 1 else 0
       case _ => exists t :: Huffman32(InitialForest(hist, |hist|), t) && TreeLengths(lens, t)
  }

  /** 2^(d - length) for every symbol that has a code, 0 for the others. */
  function UsedShares(lens: seq<nat>, d: nat): (p: seq<int>)
    requires Bounded(lens, d)
    ensures |p| == |lens|
  {
    seq(|lens|, i requires 0 <= i < |lens| => if lens[i] > 0 then Pow2(d - lens[i]) else 0)
  }

  function Kraft(lens: seq<nat>, d: nat): int
    requires Bounded(lens, d)
  {
    Total(UsedShares(lens, d))
  }

  function BitCosts(hist: seq<nat>, lens: seq<nat>): (p: seq<int>)
    requires |hist| == |lens|
    ensures |p| == |hist|
  {
    Products(hist, lens)
  }

  // ----- the initial forest -----

  lemma {:induction false} InitialForestFacts(hist: seq<nat>, k: nat)
    requires k <= |hist|
    ensures |InitialForest(hist, k)| == UsedCount(hist, k)
    ensures forall i :: 0 <= i < |InitialForest(hist, k)| ==>
              InitialForest(hist, k)[i].Leaf? && InitialForest(hist, k)[i].sym < k
              && InitialForest(hist, k)[i].weight == hist[InitialForest(hist, k)[i].sym] > 0
    ensures forall i, j :: 0 <= i < j < |InitialForest(hist, k)| ==>
              InitialForest(hist, k)[i].sym < InitialForest(hist, k)[j].sym
  {
    if k > 0 {
      InitialForestFacts(hist, k - 1);
    }
  }

  lemma {:induction false} InitialForestLeaves(hist: seq<nat>, k: nat)
    requires k <= |hist|
    ensures forall s :: s in AllLeaves(InitialForest(hist, k)) <==> 0 <= s < k && hist[s] > 0
    ensures Total(Weights(InitialForest(hist, k))) == Sum(hist, k)
  {
    if k > 0 {
      InitialForestLeaves(hist, k - 1);
      var f, g := InitialForest(hist, k - 1), InitialForest(hist, k);
      if hist[k - 1] > 0 {
        assert Weights(g) == Weights(f) + [hist[k - 1]];
        SumConcat(Weights(f), [hist[k - 1]], 1);
        assert Sum([hist[k - 1]], 1) == Sum([hist[k - 1]], 0) + hist[k - 1];
        forall s | s in AllLeaves(g) ensures s in AllLeaves(f) || s == k - 1 {
          var i :| 0 <= i < |g| && s in Leaves(g[i]);
          if i < |f| {
            assert g[i] == f[i];
          }
        }
        forall s | s in AllLeaves(f) || s == k - 1 ensures s in AllLeaves(g) {
          if s == k - 1 {
            assert s in Leaves(g[|f|]);
          } else {
            var i :| 0 <= i < |f| && s in Leaves(f[i]);
            assert g[i] == f[i];
          }
        }
      } else {
        assert g == f;
      }
    }
  }

  lemma InitialForestGood(hist: seq<nat>)
    ensures ForestDistinct(InitialForest(hist, |hist|)) && ForestHeavy(InitialForest(hist, |hist|))
    ensures forall i :: 0 <= i < |InitialForest(hist, |hist|)| ==>
              LeafWeights(InitialForest(hist, |hist|)[i], hist)
  {
    InitialForestFacts(hist, |hist|);
    assert Fib(2) == 1;
  }

  /** All a tree merged from the used symbols has in common with the histogram. */
  lemma HuffmanTreeFacts(hist: seq<nat>, t: Tree)
    requires Huffman(InitialForest(hist, |hist|), t)
    ensures Distinct(t) && LeafWeights(t, hist) && Weight(t) == Total(hist)
    ensures forall s :: s in Leaves(t) <==> 0 <= s < |hist| && hist[s] > 0
    ensures Weight(t) >= Fib(Height(t) + 2)
  {
    var f := InitialForest(hist, |hist|);
    InitialForestGood(hist);
    InitialForestLeaves(hist, |hist|);
    HuffmanKeeps(f, t);
    HuffmanLeafWeights(f, t, hist);
    HuffmanHeavy(f, t);
  }

  // ----- sums over the leaves of a tree -----

  lemma {:induction false} DepthBelowHeight(t: Tree, s: nat)
    requires s in Leaves(t)
    ensures Depth(t, s) <= Height(t)
  {
    if t.Node? {
      if s in Leaves(t.left) {
        DepthBelowHeight(t.left, s);
      } else {
        DepthBelowHeight(t.right, s);
      }
    }
  }

  lemma {:induction false} DeepestLeaf(t: Tree) returns (s: nat)
    requires Distinct(t)
    ensures s in Leaves(t) && Depth(t, s) == Height(t)
  {
    match t
    case Leaf(sym, _) => s := sym;
    case Node(l, r) =>
      if Height(l) >= Height(r) {
        s := DeepestLeaf(l);
      } else {
        s := DeepestLeaf(r);
      }
  }

  ghost function DepthShare(t: Tree, d: nat, s: nat): nat {
    if s in Leaves(t) && Depth(t, s) <= d then Pow2(d - Depth(t, s)) else 0
  }

  lemma {:induction false} DepthSharesTotal(t: Tree, d: nat, p: seq<int>)
    requires Distinct(t) && Height(t) <= d
    requires forall s :: s in Leaves(t) ==> s < |p|
    requires forall s :: 0 <= s < |p| ==> p[s] == DepthShare(t, d, s)
    ensures Total(p) == Pow2(d)
    decreases t
  {
    var n := |p|;
    match t
    case Leaf(s, _) =>
      assert s in Leaves(t);
      var z := p[s := 0];
      SumUpdate(p, n, s, 0);
      SumConst(z, n, 0);
    case Node(l, r) =>
      var a := seq(n, s requires 0 <= s < n => DepthShare(l, d - 1, s));
      var b := seq(n, s requires 0 <= s < n => DepthShare(r, d - 1, s));
      assert Leaves(l) <= Leaves(t) && Leaves(r) <= Leaves(t);
      DepthSharesTotal(l, d - 1, a);
      DepthSharesTotal(r, d - 1, b);
      forall s | 0 <= s < n ensures p[s] == a[s] + b[s] {
        if s in Leaves(t) {
          DepthBelowHeight(t, s);
        }
      }
      SumAdd(a, b, p, n);
  }

  /** The lengths of a tree with at least two leaves use up the code space exactly. */
  lemma TreeKraft(t: Tree, lens: seq<nat>, d: nat)
    requires Distinct(t) && t.Node? && TreeLengths(lens, t) && Height(t) <= d
    ensures Bounded(lens, d) && Kraft(lens, d) == Pow2(d)
  {
    forall s | s in Leaves(t) ensures 0 < Depth(t, s) <= d {
      DepthBelowHeight(t, s);
    }
    var p := UsedShares(lens, d);
    forall s | 0 <= s < |p| ensures p[s] == DepthShare(t, d, s) {
    }
    DepthSharesTotal(t, d, p);
  }

  ghost function LeafWeight(t: Tree, hist: seq<nat>, s: nat): nat {
    if s in Leaves(t) && s < |hist| then hist[s] else 0
  }

  lemma {:induction false} LeafWeightsTotal(t: Tree, hist: seq<nat>, p: seq<int>)
    requires Distinct(t) && LeafWeights(t, hist) && |p| == |hist|
    requires forall s :: 0 <= s < |p| ==> p[s] == LeafWeight(t, hist, s)
    ensures Total(p) == Weight(t)
    decreases t
  {
    var n := |p|;
    match t
    case Leaf(s, _) =>
      SumUpdate(p, n, s, 0);
      SumConst(p[s := 0], n, 0);
    case Node(l, r) =>
      var a := seq(n, s requires 0 <= s < n => LeafWeight(l, hist, s));
      var b := seq(n, s requires 0 <= s < n => LeafWeight(r, hist, s));
      LeafWeightsTotal(l, hist, a);
      LeafWeightsTotal(r, hist, b);
      SumAdd(a, b, p, n);
  }

  ghost function DepthCost(t: Tree, hist: seq<nat>, s: nat): nat {
    if s in Leaves(t) && s < |hist| then hist[s] * Depth(t, s) else 0
  }

  /** The bits spent, summed over the symbols, are the cost summed over the merges. */
  lemma {:induction false} DepthCostsTotal(t: Tree, hist: seq<nat>, p: seq<int>)
    requires Distinct(t) && LeafWeights(t, hist) && |p| == |hist|
    requires forall s :: 0 <= s < |p| ==> p[s] == DepthCost(t, hist, s)
    ensures Total(p) == Cost(t)
    decreases t
  {
    var n := |p|;
    match t
    case Leaf(_, _) =>
      SumConst(p, n, 0);
    case Node(l, r) =>
      var a := seq(n, s requires 0 <= s < n => DepthCost(l, hist, s));
      var b := seq(n, s requires 0 <= s < n => DepthCost(r, hist, s));
      var w := seq(n, s requires 0 <= s < n => LeafWeight(t, hist, s));
      var ab := seq(n, s requires 0 <= s < n => a[s] + b[s]);
      DepthCostsTotal(l, hist, a);
      DepthCostsTotal(r, hist, b);
      LeafWeightsTotal(t, hist, w);
      SumAdd(a, b, ab, n);
      forall s | 0 <= s < n ensures p[s] == ab[s] + w[s] {
        NodeDepthCost(t, hist, s);
      }
      SumAdd(ab, w, p, n);
  }

  lemma NodeDepthCost(t: Tree, hist: seq<nat>, s: nat)
    requires t.Node? && Distinct(t)
    ensures DepthCost(t, hist, s)
         == DepthCost(t.left, hist, s) + DepthCost(t.right, hist, s) + LeafWeight(t, hist, s)
  {
    if s in Leaves(t) && s < |hist| {
      var d := Depth(t, s) - 1;
      assert hist[s] * (d + 1) == hist[s] * d + hist[s];
    }
  }

  /** Finer units scale every share alike. */
  lemma {:induction false} SharesScale(lens: seq<nat>, d: nat, e: nat, k: nat)
    requires Bounded(lens, d) && k <= |lens|
    ensures Bounded(lens, d + e)
    ensures Sum(UsedShares(lens, d + e), k) == Sum(UsedShares(lens, d), k) * Pow2(e)
  {
    hide Pow2;
    if k > 0 {
      SharesScale(lens, d, e, k - 1);
      if lens[k - 1] > 0 {
        Pow2Add(d - lens[k - 1], e);
        Distribute(Sum(UsedShares(lens, d), k - 1), Pow2(d - lens[k - 1]), Pow2(e));
      }
    }
  }

  // ----- main theorems about the lengths -----

  /** Kraft: with two or more used symbols the lengths fill the code space exactly; a
      lone symbol takes half of it; symbols without occurrences have no code. */
  lemma HuffmanLengthsKraft(hist: seq<nat>, lens: seq<nat>, d: nat)
    requires HuffmanLengths(hist, lens) && Bounded(lens, d)
    ensures forall s :: 0 <= s < |lens| ==> (lens[s] > 0 <==> hist[s] > 0)
    ensures match UsedCount(hist, |hist|)
            case 0 => Kraft(lens, d) == 0
            case 1 => 2 * Kraft(lens, d) == Pow2(d)
            case _ => Kraft(lens, d) == Pow2(d)
  {
    var n := |hist|;
    if UsedCount(hist, n) == 0 {
      UsedCountZero(hist, n);
      SumConst(UsedShares(lens, d), n, 0);
    } else if UsedCount(hist, n) == 1 {
      LoneKraft(hist, lens, d);
    } else {
      var t :| Huffman(InitialForest(hist, n), t) && TreeLengths(lens, t);
      HuffmanTreeFacts(hist, t);
      ManyKraft(hist, lens, d, t);
    }
  }

  /** The same for any counts at all: a wrapped sum can cost optimality, never the code. */
  lemma MergedLengthsKraft(hist: seq<nat>, lens: seq<nat>, d: nat)
    requires MergedLengths(hist, lens) && Bounded(lens, d)
    ensures forall s :: 0 <= s < |lens| ==> (lens[s] > 0 <==> hist[s] > 0)
    ensures match UsedCount(hist, |hist|)
            case 0 => Kraft(lens, d) == 0
            case 1 => 2 * Kraft(lens, d) == Pow2(d)
            case _ => Kraft(lens, d) == Pow2(d)
  {
    var n := |hist|;
    if UsedCount(hist, n) == 0 {
      UsedCountZero(hist, n);
      SumConst(UsedShares(lens, d), n, 0);
    } else if UsedCount(hist, n) == 1 {
      LoneKraft(hist, lens, d);
    } else {
      var t :| Huffman32(InitialForest(hist, n), t) && TreeLengths(lens, t);
      MergedTreeFacts(hist, t);
      ManyKraft(hist, lens, d, t);
    }
  }

  lemma MergedTreeFacts(hist: seq<nat>, t: Tree)
    requires Huffman32(InitialForest(hist, |hist|), t)
    ensures Distinct(t) && forall s :: s in Leaves(t) <==> 0 <= s < |hist| && hist[s] > 0
  {
    InitialForestGood(hist);
    InitialForestLeaves(hist, |hist|);
    Huffman32Keeps(InitialForest(hist, |hist|), t);
  }

  /** The builder's lengths are determined by the counts. */
  lemma MergedLengthsUnique(hist: seq<nat>, lens: seq<nat>, other: seq<nat>)
    requires MergedLengths(hist, lens) && MergedLengths(hist, other)
    ensures lens == other
  {
    hide InitialForest, Huffman32, UsedCount, TreeLength;
    if UsedCount(hist, |hist|) >= 2 {
      var f := InitialForest(hist, |hist|);
      var t :| Huffman32(f, t) && TreeLengths(lens, t);
      var u :| Huffman32(f, u) && TreeLengths(other, u);
      Huffman32Unique(f, t, u);
    }
  }

  /** Below a total of 2^33 they are the lengths of a true Huffman tree. */
  lemma MergedIsHuffman(hist: seq<nat>, lens: seq<nat>)
    requires MergedLengths(hist, lens) && Total(hist) < 2 * U32_LIMIT
    requires forall s :: 0 <= s < |hist| ==> hist[s] < U32_LIMIT
    ensures HuffmanLengths(hist, lens)
  {
    hide InitialForest, Huffman32, Huffman, SameDepths, NoWrap;
    var n := |hist|;
    if UsedCount(hist, n) >= 2 {
      var t :| Huffman32(InitialForest(hist, n), t) && TreeLengths(lens, t);
      InitialForestLeaves(hist, n);
      InitialForestGood(hist);
      InitialNoWrap(hist);
      var u := Huffman32Depths(InitialForest(hist, n), t);
      SameLengths(lens, t, u);
    }
  }

  lemma InitialNoWrap(hist: seq<nat>)
    requires forall s :: 0 <= s < |hist| ==> hist[s] < U32_LIMIT
    ensures NoWrap(InitialForest(hist, |hist|))
  {
    InitialForestFacts(hist, |hist|);
  }

  lemma SameLengths(lens: seq<nat>, t: Tree, u: Tree)
    requires TreeLengths(lens, t) && SameDepths(t, u)
    ensures TreeLengths(lens, u)
  {
  }

  lemma LoneKraft(hist: seq<nat>, lens: seq<nat>, d: nat)
    requires |lens| == |hist| && Bounded(lens, d) && UsedCount(hist, |hist|) == 1
    requires forall s :: 0 <= s < |lens| ==> lens[s] == if hist[s] > 0 then 1 else 0
    ensures 2 * Kraft(lens, d) == Pow2(d)
  {
    hide Pow2, Sum, UsedCount;
    var p := UsedShares(lens, d);
    var s := LoneSymbol(hist);
    SumUpdate(p, |p|, s, 0);
    SumConst(p[s := 0], |p|, 0);
    assert lens[s] == 1;
    ShareDoubles(d, 1);
    assert d - 0 == d;
  }

  lemma ManyKraft(hist: seq<nat>, lens: seq<nat>, d: nat, t: Tree)
    requires |lens| == |hist| && Bounded(lens, d) && UsedCount(hist, |hist|) >= 2
    requires Distinct(t) && (forall s :: s in Leaves(t) <==> 0 <= s < |hist| && hist[s] > 0) && TreeLengths(lens, t)
    ensures Kraft(lens, d) == Pow2(d)
    ensures forall s :: 0 <= s < |lens| ==> (lens[s] > 0 <==> hist[s] > 0)
  {
    hide Height, Sum, Pow2, UsedCount;
    TwoLeaves(hist, t);
    var s := DeepestLeaf(t);
    assert lens[s] == Height(t);
    TreeKraft(t, lens, d);
    forall s | s in Leaves(t) ensures Depth(t, s) > 0 {
    }
  }

  lemma {:induction false} UsedCountZero(hist: seq<nat>, k: nat)
    requires k <= |hist| && UsedCount(hist, k) == 0
    ensures forall s :: 0 <= s < k ==> hist[s] == 0
  {
    if k > 0 {
      UsedCountZero(hist, k - 1);
    }
  }

  lemma LoneSymbol(hist: seq<nat>) returns (s: nat)
    requires UsedCount(hist, |hist|) == 1
    ensures s < |hist| && forall i :: 0 <= i < |hist| ==> (hist[i] > 0 <==> i == s)
  {
    var f := InitialForest(hist, |hist|);
    InitialForestFacts(hist, |hist|);
    InitialForestLeaves(hist, |hist|);
    s := f[0].sym;
    forall i | 0 <= i < |hist| ensures hist[i] > 0 <==> i == s {
      if hist[i] > 0 {
        assert i in AllLeaves(f);
      }
    }
  }

  lemma TwoLeaves(hist: seq<nat>, t: Tree)
    requires UsedCount(hist, |hist|) >= 2
    requires forall s :: s in Leaves(t) <==> 0 <= s < |hist| && hist[s] > 0
    ensures t.Node?
  {
    var f := InitialForest(hist, |hist|);
    InitialForestFacts(hist, |hist|);
    assert f[0].sym in Leaves(t) && f[1].sym in Leaves(t);
  }

  /** The share 2^(d - length) of every symbol that occurs, for competing lengths that
      may be any numbers at all. */
  function OccurringShares(hist: seq<nat>, alt: seq<nat>, d: nat): (p: seq<int>)
    requires |alt| == |hist| && Bounded(alt, d)
    ensures |p| == |hist|
  {
    seq(|hist|, i requires 0 <= i < |hist| => if hist[i] > 0 then Pow2(d - alt[i]) else 0)
  }

  function Selected(hist: seq<nat>, alt: seq<nat>, k: nat): seq<nat>
    requires k <= |hist| == |alt|
  {
    if k == 0 then []
    else Selected(hist, alt, k - 1) + if hist[k - 1] > 0 then [alt[k - 1]] else []
  }

  lemma {:induction false} SelectedShares(hist: seq<nat>, alt: seq<nat>, d: nat, k: nat)
    requires k <= |hist| == |alt| && Bounded(alt, d)
    ensures Bounded(Selected(hist, alt, k), d)
    ensures Total(Shares(Selected(hist, alt, k), d)) == Sum(OccurringShares(hist, alt, d), k)
  {
    if k > 0 {
      SelectedShares(hist, alt, d, k - 1);
      var q, r := Selected(hist, alt, k - 1), Selected(hist, alt, k);
      if hist[k - 1] > 0 {
        var x := Pow2(d - alt[k - 1]);
        assert Shares(r, d) == Shares(q, d) + [x];
        SumConcat(Shares(q, d), [x], 1);
        assert Sum([x], 1) == Sum([x], 0) + x;
      } else {
        assert r == q;
      }
    }
  }

  lemma {:induction false} SelectedDot(hist: seq<nat>, alt: seq<nat>, k: nat)
    requires k <= |hist| == |alt|
    ensures |Selected(hist, alt, k)| == |InitialForest(hist, k)|
    ensures Dot(Weights(InitialForest(hist, k)), Selected(hist, alt, k)) == Sum(BitCosts(hist, alt), k)
  {
    if k > 0 {
      SelectedDot(hist, alt, k - 1);
      var q, r := Selected(hist, alt, k - 1), Selected(hist, alt, k);
      var w, v := Weights(InitialForest(hist, k - 1)), Weights(InitialForest(hist, k));
      var x := hist[k - 1] * alt[k - 1];
      if hist[k - 1] > 0 {
        assert v == w + [hist[k - 1]] && r == q + [alt[k - 1]];
        AppendProduct(w, q, hist[k - 1], alt[k - 1]);
      } else {
        assert v == w && r == q && x == 0;
      }
    }
  }

  lemma AppendProduct(w: seq<nat>, q: seq<nat>, x: nat, y: nat)
    requires |w| == |q|
    ensures Dot(w + [x], q + [y]) == Dot(w, q) + x * y
  {
    var p := [x * y];
    assert Products(w + [x], q + [y]) == Products(w, q) + p;
    SumConcat(Products(w, q), p, 1);
    assert Sum(p, 1) == Sum(p, 0) + x * y;
  }

  lemma {:induction false} CostsOfLeaves(hist: seq<nat>)
    ensures Total(Costs(InitialForest(hist, |hist|))) == 0
  {
    InitialForestFacts(hist, |hist|);
    SumConst(Costs(InitialForest(hist, |hist|)), UsedCount(hist, |hist|), 0);
  }

  /** Optimality: no lengths whatever that satisfy the Kraft inequality on the occurring
      symbols encode the data in fewer bits. */
  lemma HuffmanLengthsOptimal(hist: seq<nat>, lens: seq<nat>, alt: seq<nat>, d: nat)
    requires HuffmanLengths(hist, lens) && UsedCount(hist, |hist|) >= 2
    requires |alt| == |hist| && Bounded(alt, d)
    requires Total(OccurringShares(hist, alt, d)) <= Pow2(d)
    ensures Total(BitCosts(hist, lens)) <= Total(BitCosts(hist, alt))
  {
    var f := InitialForest(hist, |hist|);
    var t :| Huffman(f, t) && TreeLengths(lens, t);
    HuffmanTreeFacts(hist, t);
    var l := Selected(hist, alt, |hist|);
    SelectedShares(hist, alt, d, |hist|);
    SelectedDot(hist, alt, |hist|);
    CostsOfLeaves(hist);
    HuffmanOptimal(f, t, l, d);
    TreeBitCosts(hist, lens, t);
  }

  lemma TreeBitCosts(hist: seq<nat>, lens: seq<nat>, t: Tree)
    requires |lens| == |hist| && Distinct(t) && LeafWeights(t, hist) && TreeLengths(lens, t)
    ensures Total(BitCosts(hist, lens)) == Cost(t)
  {
    var p := BitCosts(hist, lens);
    forall s | 0 <= s < |p| ensures p[s] == DepthCost(t, hist, s) {
    }
    DepthCostsTotal(t, hist, p);
  }

  /** Depth bound: a code of length L needs a total count of at least Fib(L + 2). */
  lemma HuffmanLengthsDepth(hist: seq<nat>, lens: seq<nat>, s: nat)
    requires HuffmanLengths(hist, lens) && s < |lens| && lens[s] > 0
    ensures Total(hist) >= Fib(lens[s] + 2) || (lens[s] == 1 && UsedCount(hist, |hist|) == 1)
  {
    hide Huffman, InitialForest, Fib, Sum, Depth, Leaves, UsedCount;
    if UsedCount(hist, |hist|) >= 2 {
      var t :| Huffman(InitialForest(hist, |hist|), t) && TreeLengths(lens, t);
      LeafDepthBound(hist, t, s);
    }
  }

  lemma LeafDepthBound(hist: seq<nat>, t: Tree, s: nat)
    requires Huffman(InitialForest(hist, |hist|), t) && s in Leaves(t)
    ensures Total(hist) >= Fib(Depth(t, s) + 2)
  {
    hide Huffman, InitialForest, Fib, Sum, Depth, Height;
    HuffmanTreeFacts(hist, t);
    DepthBelowHeight(t, s);
    FibMono(Depth(t, s) + 2, Height(t) + 2);
  }

  lemma FibValues()
    ensures Fib(25) == 75025 && Fib(31) == 1346269 && Fib(33) == 3524578
  {
    assert Fib(10) == 55 && Fib(11) == 89;
    assert Fib(12) == 144 && Fib(13) == 233;
    assert Fib(14) == 377 && Fib(15) == 610;
    assert Fib(16) == 987 && Fib(17) == 1597;
    assert Fib(18) == 2584 && Fib(19) == 4181;
    assert Fib(20) == 6765 && Fib(21) == 10946;
    assert Fib(22) == 17711 && Fib(23) == 28657;
    assert Fib(24) == 46368 && Fib(25) == 75025;
    assert Fib(26) == 121393 && Fib(27) == 196418;
    assert Fib(28) == 317811 && Fib(29) == 514229;
    assert Fib(30) == 832040 && Fib(31) == 1346269;
  }

  /** What the bound means for the inputs the codec is fed: 64 KB chunks, the 1 MB that
      the test driver reads, and the largest total for which every shift by 30 - length
      stays defined. */
  lemma DepthLimits(hist: seq<nat>, lens: seq<nat>)
    requires HuffmanLengths(hist, lens)
    ensures Total(hist) <= 0x1_0000 ==> Bounded(lens, 22)
    ensures Total(hist) <= 0x10_0000 ==> Bounded(lens, 28)
    ensures Total(hist) < 3524578 ==> Bounded(lens, 30)
  {
    forall s | 0 <= s < |lens|
      ensures Total(hist) <= 0x1_0000 ==> lens[s] <= 22
      ensures Total(hist) <= 0x10_0000 ==> lens[s] <= 28
      ensures Total(hist) < 3524578 ==> lens[s] <= 30
    {
      if lens[s] > 22 {
        HuffmanLengthsDepth(hist, lens, s);
        FibLimits(lens[s], Total(hist));
      }
    }
  }

  lemma FibLimits(l: nat, total: int)
    requires l > 22 && total >= Fib(l + 2)
    ensures total > 0x1_0000 && (total <= 0x10_0000 ==> l <= 28) && (total < 3524578 ==> l <= 30)
  {
    FibValues();
    FibMono(25, l + 2);
    if l >= 29 { FibMono(31, l + 2); }
    if l >= 31 { FibMono(33, l + 2); }
  }
}
