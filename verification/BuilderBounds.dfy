/** Where the builder's two bounds are sharp: the total from which wrapped weights can cost
    bits, and the total from which a code of a given length can occur. */
module BuilderBounds {
  import opened Numbers
  import opened HuffmanTree
  import opened CodeLengths

  // ----- lengths of a given tree -----

  function LensOf(t: Tree): (l: seq<nat>)
    ensures |l| == SYMBOLS && forall s :: 0 <= s < SYMBOLS ==> l[s] == TreeLength(t, s)
  {
    seq(SYMBOLS, s requires 0 <= s < SYMBOLS => TreeLength(t, s))
  }

  lemma LensAreMerged(hist: seq<nat>, t: Tree)
    requires |hist| == SYMBOLS && UsedCount(hist, SYMBOLS) >= 2 && Huffman32(InitialForest(hist, SYMBOLS), t)
    ensures MergedLengths(hist, LensOf(t))
  {
    hide Huffman32, InitialForest, UsedCount, TreeLength;
    MergedTreeFacts(hist, t);
    assert TreeLengths(LensOf(t), t);
  }

  /** The counts of the first |c| symbols; the others do not occur. */
  function Padded(c: seq<nat>): (h: seq<nat>)
    requires |c| <= SYMBOLS
    ensures |h| == SYMBOLS && forall s :: 0 <= s < SYMBOLS ==> h[s] == if s < |c| then c[s] else 0
  {
    seq(SYMBOLS, s requires 0 <= s < SYMBOLS => if s < |c| then c[s] else 0)
  }

  function LeavesOf(c: seq<nat>, k: nat): (f: seq<Tree>)
    requires k <= |c|
    ensures |f| == k && forall i :: 0 <= i < k ==> f[i] == Leaf(i, c[i])
  {
    seq(k, i requires 0 <= i < k => Leaf(i, c[i]))
  }

  lemma {:induction false} PaddedForest(c: seq<nat>, k: nat)
    requires |c| <= SYMBOLS && k <= SYMBOLS && forall i :: 0 <= i < |c| ==> c[i] > 0
    ensures InitialForest(Padded(c), k) == LeavesOf(c, if k < |c| then k else |c|)
    ensures UsedCount(Padded(c), k) == if k < |c| then k else |c|
  {
    if k > 0 {
      PaddedForest(c, k - 1);
    }
  }

  lemma {:induction false} PaddedSum(c: seq<nat>, k: nat)
    requires |c| <= SYMBOLS && k <= SYMBOLS
    ensures Sum(Padded(c), k) == Sum(c, if k < |c| then k else |c|)
  {
    if k > 0 {
      PaddedSum(c, k - 1);
    }
  }

  // ----- wrapped weights: sharp at 2^33 -----

  const HALF: nat := 0x8000_0000

  function FourHist(): seq<nat> {
    Padded([HALF, HALF, HALF, HALF])
  }

  /** What the builder makes of four counts of 2^31: the first sum wraps to 0, so that node
      is merged again and again. */
  function WrappedTree(): Tree {
    Node(Node(Node(Leaf(0, HALF), Leaf(1, HALF)), Leaf(3, HALF)), Leaf(2, HALF))
  }

  lemma WrappedTreeIsBuilt()
    ensures Huffman32(LeavesOf([HALF, HALF, HALF, HALF], 4), WrappedTree())
  {
    var f := LeavesOf([HALF, HALF, HALF, HALF], 4);
    var n1 := Node(f[0], f[1]);
    var n2 := Node(n1, f[3]);
    var g, h := [n1, f[3], f[2]], [n2, f[2]];
    assert MergedForest(f, 0, 1) == g && MergedForest(g, 0, 1) == h;
    assert MergedForest(h, 0, 1) == [WrappedTree()];
    assert FirstTwo(Weights32(h), 0, 1) && Huffman32(MergedForest(h, 0, 1), WrappedTree());
    WrappedWeights(n1, n2, f);
    assert FirstTwo(Weights32(g), 0, 1) && Huffman32(MergedForest(g, 0, 1), WrappedTree());
    assert FirstTwo(Weights32(f), 0, 1) && Huffman32(MergedForest(f, 0, 1), WrappedTree());
  }

  lemma WrappedWeights(n1: Tree, n2: Tree, f: seq<Tree>)
    requires f == LeavesOf([HALF, HALF, HALF, HALF], 4) && n1 == Node(f[0], f[1]) && n2 == Node(n1, f[3])
    ensures Weight(n1) % U32_LIMIT == 0 && Weight(n2) % U32_LIMIT == HALF
  {
  }

  /** For four counts of 2^31, a total of exactly 2^33, the builder's lengths cost 9 * 2^31
      bits where two bits for each symbol cost 8 * 2^31. */
  lemma WrapCostsBits(lens: seq<nat>)
    requires MergedLengths(FourHist(), lens)
    ensures Total(FourHist()) == 2 * U32_LIMIT
    ensures Total(BitCosts(FourHist(), lens)) == 9 * HALF
    ensures !HuffmanLengths(FourHist(), lens)
  {
    hide MergedLengths, HuffmanLengths, InitialForest, Huffman32, TreeLength, Padded, LeavesOf, BitCosts;
    FourFacts();
    var t := WrappedTree();
    LensAreMerged(FourHist(), t);
    MergedLengthsUnique(FourHist(), lens, LensOf(t));
    MergedTreeFacts(FourHist(), t);
    WrappedCost(lens);
    if HuffmanLengths(FourHist(), lens) {
      FourCodes(lens);
    }
  }

  lemma SumFour(c: seq<nat>, x: nat)
    requires c == [x, x, x, x]
    ensures Sum(c, 4) == 4 * x
  {
    assert Sum(c, 3) == Sum(c, 2) + x && Sum(c, 2) == Sum(c, 1) + x && Sum(c, 1) == Sum(c, 0) + x;
  }

  lemma FourFacts()
    ensures Total(FourHist()) == 2 * U32_LIMIT
    ensures UsedCount(FourHist(), SYMBOLS) == 4 && |FourHist()| == SYMBOLS
    ensures forall s :: 0 <= s < SYMBOLS ==> FourHist()[s] < U32_LIMIT
    ensures Huffman32(InitialForest(FourHist(), SYMBOLS), WrappedTree())
  {
    hide Huffman32, InitialForest, UsedCount;
    var c := [HALF, HALF, HALF, HALF];
    PaddedForest(c, SYMBOLS);
    PaddedSum(c, SYMBOLS);
    SumFour(c, HALF);
    WrappedTreeIsBuilt();
  }

  lemma WrappedCost(lens: seq<nat>)
    requires lens == LensOf(WrappedTree()) && Distinct(WrappedTree())
    ensures Total(BitCosts(FourHist(), lens)) == 9 * HALF
  {
    hide BitCosts;
    assert forall s :: s in Leaves(WrappedTree()) ==> s < SYMBOLS;
    assert LeafWeights(WrappedTree(), FourHist());
    TreeBitCosts(FourHist(), lens, WrappedTree());
  }

  /** Two bits for each of the four symbols. */
  function TwoBits(): seq<nat> {
    Padded([2, 2, 2, 2])
  }

  lemma FourCodes(lens: seq<nat>)
    requires HuffmanLengths(FourHist(), lens)
    ensures Total(BitCosts(FourHist(), lens)) <= 8 * HALF
  {
    hide HuffmanLengths, UsedCount, InitialForest, Huffman32, Sum;
    var h, l := FourHist(), TwoBits();
    FourFacts();
    var shares := OccurringShares(h, l, 2);
    assert shares == Padded([1, 1, 1, 1]) by { assert Pow2(0) == 1; }
    PaddedSum([1, 1, 1, 1], SYMBOLS);
    SumFour([1, 1, 1, 1], 1);
    assert Pow2(2) == 4;
    HuffmanLengthsOptimal(h, lens, l, 2);
    var costs: seq<nat> := [2 * HALF, 2 * HALF, 2 * HALF, 2 * HALF];
    assert BitCosts(h, l) == Padded(costs);
    PaddedSum(costs, SYMBOLS);
    SumFour(costs, 2 * HALF);
  }

  /** The builder's lengths are those of a Huffman tree for every histogram below a given
      total exactly when that total is at most 2^33. */
  lemma WrapBoundIff(bound: nat)
    ensures (forall hist, lens :: WrapCase(hist, lens, bound) ==> HuffmanLengths(hist, lens))
       <==> bound <= 2 * U32_LIMIT
  {
    hide MergedLengths, HuffmanLengths, Sum, FourHist, LensOf, BitCosts, WrappedTree, InitialForest,
         Huffman32, UsedCount;
    if bound <= 2 * U32_LIMIT {
      forall hist, lens | WrapCase(hist, lens, bound) ensures HuffmanLengths(hist, lens) {
        MergedIsHuffman(hist, lens);
      }
    } else {
      FourFacts();
      LensAreMerged(FourHist(), WrappedTree());
      var lens := LensOf(WrappedTree());
      WrapCostsBits(lens);
      assert WrapCase(FourHist(), lens, bound);
    }
  }

  /** 32-bit counts with a total below bound, and what the builder makes of them. */
  ghost predicate WrapCase(hist: seq<nat>, lens: seq<nat>, bound: nat) {
    && |hist| == SYMBOLS && (forall s :: 0 <= s < SYMBOLS ==> hist[s] < U32_LIMIT)
    && Total(hist) < bound && MergedLengths(hist, lens)
  }

  // ----- long codes: sharp at Fib(l + 2) -----

  /** The counts 1, Fib(1), ..., Fib(l), the last one larger by extra. */
  function LadderCounts(l: nat, extra: nat): (c: seq<nat>)
    requires 2 <= l
    ensures |c| == l + 1
  {
    seq(l + 1, s requires 0 <= s <= l => if s == 0 then 1 else if s < l then Fib(s) else Fib(l) + extra)
  }

  /** The tree that has merged the symbols up to m. */
  function Rung(c: seq<nat>, m: nat): Tree
    requires 1 <= m < |c|
  {
    if m == 1 then Node(Leaf(0, c[0]), Leaf(1, c[1])) else Node(Leaf(m, c[m]), Rung(c, m - 1))
  }

  /** The active list after m merges: the last entries have moved into the places that
      became free. */
  function LadderList(c: seq<nat>, m: nat): (f: seq<Tree>)
    requires 1 <= m < |c|
    ensures |f| == |c| - m && f[0] == Rung(c, m)
    ensures forall i :: 1 <= i < |f| ==> f[i] == LadderLeaf(c, m, i)
  {
    [Rung(c, m)] + seq(|c| - m - 1, i requires 0 <= i < |c| - m - 1 => LadderLeaf(c, m, i + 1))
  }

  function LadderLeaf(c: seq<nat>, m: nat, i: nat): Tree
    requires 1 <= i < |c| - m && 1 <= m
  {
    if i <= m then Leaf(|c| - i, c[|c| - i]) else Leaf(i, c[i])
  }

  /** Where the next symbol, m + 1, stands. */
  function NextAt(n: nat, m: nat): (a: nat)
    requires 1 <= m && m + 1 < n
    ensures 1 <= a < n - m
  {
    if m + 1 < n - m then m + 1 else n - m - 1
  }

  lemma NextIs(c: seq<nat>, m: nat)
    requires 1 <= m && m + 1 < |c|
    ensures LadderList(c, m)[NextAt(|c|, m)] == Leaf(m + 1, c[m + 1])
    ensures forall i :: 1 <= i < |c| - m && i != NextAt(|c|, m) ==>
              LadderList(c, m)[i].Leaf? && m + 1 < LadderList(c, m)[i].sym < |c|
              && LadderList(c, m)[i].weight == c[LadderList(c, m)[i].sym]
  {
    hide Rung;
  }

  lemma LadderMerged(c: seq<nat>, m: nat)
    requires 1 <= m && m + 1 < |c|
    ensures MergedForest(LadderList(c, m), NextAt(|c|, m), 0) == LadderList(c, m + 1)
  {
    NextIs(c, m);
  }

  lemma {:induction false} RungWeight(l: nat, extra: nat, m: nat)
    requires 2 <= l && 1 <= m < l
    ensures Weight(Rung(LadderCounts(l, extra), m)) == Fib(m + 2)
  {
    hide Fib;
    FibStep(0);
    FibStep(m);
    if m == 1 {
      FibStep(1);
    } else {
      RungWeight(l, extra, m - 1);
    }
  }

  lemma LadderPick(l: nat, extra: nat, m: nat)
    requires 2 <= l < SYMBOLS && Fib(l + 2) + extra < U32_LIMIT && 1 <= m < l - 1
    ensures FirstTwo(Weights32(LadderList(LadderCounts(l, extra), m)), NextAt(l + 1, m), 0)
  {
    hide Fib, Rung, LadderCounts, LadderList, NextAt, Weight;
    var c := LadderCounts(l, extra);
    var f := LadderList(c, m);
    var w, a := Weights32(f), NextAt(l + 1, m);
    NextIs(c, m);
    RungWeight(l, extra, m);
    CountAt(l, extra, m + 1);
    FibMono(m + 2, l + 2);
    FibStep(m);
    FibMono(1, m);
    FibStep(0);
    assert w[a] == Fib(m + 1) by { LeafWeight32(f, a); }
    forall i | 1 <= i < |w| && i != a ensures Ahead(w, 0, i) {
      CountAt(l, extra, f[i].sym);
      LeafWeight32(f, i);
      FibMono(m + 2, f[i].sym);
    }
  }

  lemma LeafWeight32(f: seq<Tree>, i: nat)
    requires i < |f| && f[i].Leaf? && f[i].weight < U32_LIMIT
    ensures Weights32(f)[i] == f[i].weight
  {
  }

  lemma CountAt(l: nat, extra: nat, s: nat)
    requires 2 <= l && Fib(l + 2) + extra < U32_LIMIT && 1 <= s <= l
    ensures var x := LadderCounts(l, extra)[s]; Fib(s) <= x < U32_LIMIT && (s < l ==> x == Fib(s))
  {
    hide Fib;
    FibStep(l);
    FibMono(s, l);
  }

  lemma FirstRung(l: nat, extra: nat)
    requires 2 <= l < SYMBOLS && Fib(l + 2) + extra < U32_LIMIT
    ensures var c := LadderCounts(l, extra);
            && MergedForest(LeavesOf(c, l + 1), 0, 1) == LadderList(c, 1)
            && FirstTwo(Weights32(LeavesOf(c, l + 1)), 0, 1)
  {
    hide Fib;
    var c := LadderCounts(l, extra);
    var f := LeavesOf(c, l + 1);
    var w := Weights32(f);
    FibStep(0);
    FibStep(l);
    forall i | 1 <= i < |w| ensures w[i] >= 1 {
      FibMono(1, i);
      FibMono(i, l);
    }
  }

  /** From every rung on the merges go up the ladder; the last one joins the most frequent
      symbol, in whichever order. */
  lemma {:induction false} LadderIsBuilt(l: nat, extra: nat, m: nat) returns (t: Tree)
    requires 2 <= l < SYMBOLS && Fib(l + 2) + extra < U32_LIMIT && 1 <= m < l
    ensures Huffman32(LadderList(LadderCounts(l, extra), m), t)
    ensures var c := LadderCounts(l, extra);
            t == Node(Rung(c, l - 1), Leaf(l, c[l])) || t == Node(Leaf(l, c[l]), Rung(c, l - 1))
    decreases l - m
  {
    hide LadderCounts, Fib, Rung, FirstTwo, NextAt, Huffman32, MergedForest;
    var c := LadderCounts(l, extra);
    if m < l - 1 {
      t := LadderIsBuilt(l, extra, m + 1);
      LadderPick(l, extra, m);
      LadderMerged(c, m);
      FirstMerge(LadderList(c, m), NextAt(l + 1, m), 0, t);
    } else {
      NextIs(c, m);
      t := PairIsBuilt(LadderList(c, m));
    }
  }

  lemma PairIsBuilt(f: seq<Tree>) returns (t: Tree)
    requires |f| == 2
    ensures Huffman32(f, t) && (t == Node(f[0], f[1]) || t == Node(f[1], f[0]))
  {
    var w := Weights32(f);
    var a: nat := if w[0] <= w[1] then 0 else 1;
    t := Node(f[a], f[1 - a]);
    assert MergedForest(f, a, 1 - a) == [t];
    assert FirstTwo(w, a, 1 - a) && Huffman32(MergedForest(f, a, 1 - a), t);
  }

  lemma {:induction false} RungDepth(c: seq<nat>, m: nat)
    requires 1 <= m < |c|
    ensures 0 in Leaves(Rung(c, m)) && Depth(Rung(c, m), 0) == m
  {
    if m > 1 {
      RungDepth(c, m - 1);
    }
  }

  lemma {:induction false} LadderSum(l: nat, extra: nat, k: nat)
    requires 2 <= l && 1 <= k <= l
    ensures Sum(LadderCounts(l, extra), k) == Fib(k + 1)
  {
    hide Fib;
    FibStep(0);
    if k == 1 {
      assert Sum(LadderCounts(l, extra), 0) == 0;
    } else {
      LadderSum(l, extra, k - 1);
      FibStep(k - 1);
    }
  }

  /** For every l and every total from Fib(l + 2) on there are counts with that total for
      which the builder makes a code of exactly l bits. */
  lemma LongCodeOccurs(l: nat, extra: nat) returns (lens: seq<nat>)
    requires 2 <= l < SYMBOLS && Fib(l + 2) + extra < U32_LIMIT
    ensures Total(Padded(LadderCounts(l, extra))) == Fib(l + 2) + extra
    ensures MergedLengths(Padded(LadderCounts(l, extra)), lens) && |lens| == SYMBOLS && lens[0] == l
  {
    hide Fib, LadderCounts, Huffman32, InitialForest, MergedLengths, Rung;
    var c := LadderCounts(l, extra);
    LadderTotal(l, extra);
    LadderPositive(l, extra);
    PaddedForest(c, SYMBOLS);
    FirstRung(l, extra);
    var t := LadderIsBuilt(l, extra, 1);
    FirstMerge(LeavesOf(c, l + 1), 0, 1, t);
    LensAreMerged(Padded(c), t);
    RungDepth(c, l - 1);
    MergedTreeFacts(Padded(c), t);
    lens := LensOf(t);
  }

  lemma FirstMerge(f: seq<Tree>, a: nat, b: nat, t: Tree)
    requires FirstTwo(Weights32(f), a, b) && Huffman32(MergedForest(f, a, b), t)
    ensures Huffman32(f, t)
  {
  }

  lemma LadderPositive(l: nat, extra: nat)
    requires 2 <= l
    ensures forall i :: 0 <= i <= l ==> LadderCounts(l, extra)[i] > 0
  {
    hide Fib;
    FibStep(0);
    forall i | 0 <= i <= l ensures LadderCounts(l, extra)[i] > 0 {
      if i > 0 {
        FibMono(1, i);
      }
    }
  }

  lemma LadderTotal(l: nat, extra: nat)
    requires 2 <= l < SYMBOLS
    ensures Total(Padded(LadderCounts(l, extra))) == Fib(l + 2) + extra
  {
    hide Fib;
    var c := LadderCounts(l, extra);
    PaddedSum(c, SYMBOLS);
    LadderSum(l, extra, l);
    FibStep(l);
  }

  /** A code of l bits or more can occur exactly from a total of Fib(l + 2) on. */
  lemma LongCodeIff(l: nat, total: nat)
    requires 2 <= l < SYMBOLS && total < U32_LIMIT
    ensures (exists hist, lens :: LongCase(hist, lens, l, total)) <==> total >= Fib(l + 2)
  {
    hide Fib, MergedLengths, HuffmanLengths, Sum, LadderCounts;
    if total >= Fib(l + 2) {
      var lens := LongCodeOccurs(l, total - Fib(l + 2));
      assert lens[0] >= l;
      assert LongCase(Padded(LadderCounts(l, total - Fib(l + 2))), lens, l, total);
    }
    forall hist, lens | LongCase(hist, lens, l, total) ensures total >= Fib(l + 2) {
      LongNeeds(hist, lens, l, total);
    }
  }

  lemma LongNeeds(hist: seq<nat>, lens: seq<nat>, l: nat, total: nat)
    requires LongCase(hist, lens, l, total) && 2 <= l && total < U32_LIMIT
    ensures total >= Fib(l + 2)
  {
    hide Fib, MergedLengths, HuffmanLengths, Sum;
    forall s | 0 <= s < SYMBOLS ensures hist[s] < U32_LIMIT {
      SumItem(hist, SYMBOLS, s);
    }
    MergedIsHuffman(hist, lens);
    var s :| 0 <= s < |lens| && lens[s] >= l;
    HuffmanLengthsDepth(hist, lens, s);
    FibMono(l + 2, lens[s] + 2);
  }

  /** Counts of a given total for which the builder makes a code of l bits or more. */
  ghost predicate LongCase(hist: seq<nat>, lens: seq<nat>, l: nat, total: nat) {
    && |hist| == SYMBOLS && Total(hist) == total && MergedLengths(hist, lens)
    && exists s :: 0 <= s < |lens| && lens[s] >= l
  }
}
