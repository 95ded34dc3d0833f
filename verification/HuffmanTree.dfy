/** Trees built by repeatedly merging two smallest weights, on values: what any such
    tree guarantees, whatever the tie-breaking.  The loop over arrays that builds one
    is in TreeBuilder. */
module HuffmanTree {
  import opened Numbers

  datatype Tree = Leaf(sym: nat, weight: nat) | Node(left: Tree, right: Tree)

  function Weight(t: Tree): nat {
    match t
    case Leaf(_, w) => w
    case Node(l, r) => Weight(l) + Weight(r)
  }

  function Height(t: Tree): nat {
    match t
    case Leaf(_, _) => 0
    case Node(l, r) => 1 + if Height(l) >= Height(r) then Height(l) else Height(r)
  }

  function Leaves(t: Tree): set<nat> {
    match t
    case Leaf(s, _) => {s}
    case Node(l, r) => Leaves(l) + Leaves(r)
  }

  /** Number of edges from the root of t to the leaf of symbol s. */
  function Depth(t: Tree, s: nat): nat
    requires s in Leaves(t)
  {
    match t
    case Leaf(_, _) => 0
    case Node(l, r) => 1 + if s in Leaves(l) then Depth(l, s) else Depth(r, s)
  }

  /** No symbol occurs twice. */
  ghost predicate Distinct(t: Tree) {
    match t
    case Leaf(_, _) => true
    case Node(l, r) => Distinct(l) && Distinct(r) && Leaves(l) !! Leaves(r)
  }

  /** Weighted path length: the sum over all leaves of weight times depth. */
  function Cost(t: Tree): nat {
    match t
    case Leaf(_, _) => 0
    case Node(l, r) => Cost(l) + Cost(r) + Weight(t)
  }

  // ----- the merge relation -----

  function Weights(f: seq<Tree>): (w: seq<nat>)
    ensures |w| == |f|
  {
    seq(|f|, i requires 0 <= i < |f| => Weight(f[i]))
  }

  function Costs(f: seq<Tree>): (w: seq<nat>)
    ensures |w| == |f|
  {
    seq(|f|, i requires 0 <= i < |f| => Cost(f[i]))
  }

  ghost predicate TwoSmallest(w: seq<nat>, a: nat, b: nat) {
    && a < |w| && b < |w| && a != b
    && w[a] <= w[b]
    && forall k :: 0 <= k < |w| && k != a && k != b ==> w[b] <= w[k]
  }

  /** The active list after its entries a and b were replaced by v: v takes the lower
      position, the last entry moves into the higher one. */
  function Merged<T>(q: seq<T>, a: nat, b: nat, v: T): (r: seq<T>)
    requires a < |q| && b < |q| && a != b
    ensures |r| == |q| - 1
  {
    var lo := if a < b then a else b;
    var hi := if a < b then b else a;
    q[lo := v][hi := q[|q| - 1]][..|q| - 1]
  }

  function MergedForest(f: seq<Tree>, a: nat, b: nat): seq<Tree>
    requires a < |f| && b < |f| && a != b
  {
    Merged(f, a, b, Node(f[a], f[b]))
  }

  /** t results from f by merging two smallest weights until one tree is left. */
  ghost predicate Huffman(f: seq<Tree>, t: Tree)
    decreases |f|
  {
    if |f| <= 1 then f == [t]
    else exists a: nat, b: nat :: TwoSmallest(Weights(f), a, b) && Huffman(MergedForest(f, a, b), t)
  }

  /** The weights as the builder adds them, in uint32_t. */
  function Weights32(f: seq<Tree>): (w: seq<nat>)
    ensures |w| == |f|
  {
    seq(|f|, i requires 0 <= i < |f| => Weight(f[i]) % U32_LIMIT)
  }

  /** The scan's order: lower weight first, then lower position. */
  predicate Ahead(w: seq<nat>, a: nat, b: nat)
    requires a < |w| && b < |w|
  {
    w[a] < w[b] || (w[a] == w[b] && a < b)
  }

  /** The first two in that order, which one scan finds. */
  predicate FirstTwo(w: seq<nat>, a: nat, b: nat) {
    && a < |w| && b < |w| && a != b && Ahead(w, a, b)
    && forall k :: 0 <= k < |w| && k != a && k != b ==> Ahead(w, b, k)
  }

  /** The merges that the builder makes: the first two of the 32-bit weights. */
  ghost predicate Huffman32(f: seq<Tree>, t: Tree)
    decreases |f|
  {
    if |f| <= 1 then f == [t]
    else exists a: nat, b: nat :: FirstTwo(Weights32(f), a, b) && Huffman32(MergedForest(f, a, b), t)
  }

  lemma MergedSum(q: seq<int>, a: nat, b: nat, v: int)
    requires a < |q| && b < |q| && a != b
    ensures Total(Merged(q, a, b, v)) == Total(q) - q[a] - q[b] + v
  {
    var lo := if a < b then a else b;
    var hi := if a < b then b else a;
    var n := |q|;
    var q1 := q[lo := v];
    var q2 := q1[hi := q[n - 1]];
    SumUpdate(q, n, lo, v);
    SumUpdate(q1, n, hi, q[n - 1]);
    SumSlice(q2, n - 1, n - 1);
  }

  lemma MergedMembers<T>(q: seq<T>, a: nat, b: nat, v: T, k: nat) returns (j: nat)
    requires a < |q| && b < |q| && a != b && k < |q| - 1
    ensures j < |q|
    ensures if k == (if a < b then a else b) then Merged(q, a, b, v)[k] == v
            else j != a && j != b && Merged(q, a, b, v)[k] == q[j]
  {
    var hi := if a < b then b else a;
    j := if k == hi then |q| - 1 else k;
  }

  // ----- optimality -----

  function Products(w: seq<nat>, l: seq<nat>): (p: seq<int>)
    requires |w| == |l|
    ensures |p| == |w| && forall i :: 0 <= i < |w| ==> p[i] == w[i] * l[i]
  {
    seq(|w|, i requires 0 <= i < |w| => w[i] * l[i])
  }

  function Dot(w: seq<nat>, l: seq<nat>): int
    requires |w| == |l|
  {
    Total(Products(w, l))
  }

  predicate Bounded(l: seq<nat>, d: nat) {
    forall i :: 0 <= i < |l| ==> l[i] <= d
  }

  /** 2^(d - length) for every entry; an entry of length 0 counts 2^d. */
  function Shares(l: seq<nat>, d: nat): (p: seq<int>)
    requires Bounded(l, d)
    ensures |p| == |l| && forall i :: 0 <= i < |l| ==> p[i] == Pow2(d - l[i])
  {
    seq(|l|, i requires 0 <= i < |l| => Pow2(d - l[i]))
  }

  /** The Kraft inequality in units of 2^-d. */
  predicate KraftOk(l: seq<nat>, d: nat) {
    Bounded(l, d) && Total(Shares(l, d)) <= Pow2(d)
  }

  /** Giving the longer length to the smaller weight costs nothing. */
  lemma SwapLengths(w: seq<nat>, l: seq<nat>, d: nat, i: nat, j: nat) returns (r: seq<nat>)
    requires |w| == |l| && i < |l| && j < |l|
    requires w[i] <= w[j] && l[i] <= l[j]
    requires KraftOk(l, d)
    ensures r == l[i := l[j]][j := l[i]] && KraftOk(r, d)
    ensures Dot(w, r) <= Dot(w, l)
  {
    r := l[i := l[j]][j := l[i]];
    if i == j {
      assert r == l;
      return;
    }
    assert Total(Shares(r, d)) == Total(Shares(l, d)) by {
      var s := Shares(l, d);
      assert Shares(r, d) == s[i := s[j]][j := s[i]];
      SumReplaceTwo(s, i, j, s[j], s[i]);
    }
    SwapProducts(w, l, i, j);
  }

  lemma SumReplaceTwo(p: seq<int>, i: nat, j: nat, x: int, y: int)
    requires i < |p| && j < |p| && i != j
    ensures Total(p[i := x][j := y]) == Total(p) - p[i] - p[j] + x + y
  {
    SumUpdate(p, |p|, i, x);
    SumUpdate(p[i := x], |p|, j, y);
  }

  lemma SwapProducts(w: seq<nat>, l: seq<nat>, i: nat, j: nat)
    requires |w| == |l| && i < |l| && j < |l| && i != j
    requires w[i] <= w[j] && l[i] <= l[j]
    ensures Dot(w, l[i := l[j]][j := l[i]]) <= Dot(w, l)
  {
    var p, r := Products(w, l), l[i := l[j]][j := l[i]];
    var x, y := w[i] * l[j], w[j] * l[i];
    forall k | 0 <= k < |w| ensures Products(w, r)[k] == p[i := x][j := y][k] {
    }
    assert Products(w, r) == p[i := x][j := y];
    SumReplaceTwo(p, i, j, x, y);
    Rearrange(w[i], w[j], l[i], l[j]);
  }

  lemma Rearrange(w: nat, x: nat, l: nat, m: nat)
    requires w <= x && l <= m
    ensures w * m + x * l <= w * l + x * m
  {
    MulMono(w, x, m - l);
    assert w * (m - l) == w * m - w * l;
    assert x * (m - l) == x * m - x * l;
  }

  lemma {:induction false} MaxIndex(l: seq<nat>, skip: int) returns (m: nat)
    requires |l| > 0 && (|l| == 1 ==> skip != 0)
    ensures m < |l| && m != skip
    ensures forall i :: 0 <= i < |l| && i != skip ==> l[i] <= l[m]
  {
    m := if skip == 0 then 1 else 0;
    for k := 1 to |l|
      invariant m < |l| && m != skip
      invariant forall i :: 0 <= i < k && i != skip ==> l[i] <= l[m]
    {
      if k != skip && l[k] > l[m] {
        m := k;
      }
    }
  }

  /** The two smallest weights can be given the two longest lengths. */
  lemma LongestToSmallest(w: seq<nat>, l: seq<nat>, d: nat, a: nat, b: nat) returns (r: seq<nat>)
    requires |w| == |l| && TwoSmallest(w, a, b) && KraftOk(l, d)
    ensures |r| == |l| && KraftOk(r, d) && Dot(w, r) <= Dot(w, l)
    ensures r[b] <= r[a] && forall k :: 0 <= k < |r| && k != a ==> r[k] <= r[b]
  {
    hide KraftOk, Dot;
    var m := MaxIndex(l, -1);
    var l1 := SwapLengths(w, l, d, a, m);
    var m2 := MaxIndex(l1, a);
    r := SwapLengths(w, l1, d, b, m2);
  }

  /** When all lengths but one are at most m, the one exception can be cut down to m:
      the other shares are all multiples of 2^(d - m). */
  lemma CutLongest(l: seq<nat>, d: nat, a: nat, m: nat)
    requires a < |l| && m <= l[a] && KraftOk(l, d)
    requires forall k :: 0 <= k < |l| && k != a ==> l[k] <= m
    ensures KraftOk(l[a := m], d)
  {
    hide Pow2, Sum, IsPowerMultiple;
    var s := Shares(l, d);
    var u := Pow2(d - m);
    assert Shares(l[a := m], d) == s[a := u];
    SumUpdate(s, |s|, a, u);
    if m < l[a] {
      SumUpdate(s, |s|, a, 0);
      forall i | 0 <= i < |s| && s[a := 0][i] != 0 ensures IsPowerMultiple(s[i], u) {
        ShareMultiple(d, m, l[i]);
      }
      var c := MultipleSum(s[a := 0], |s|, u);
      Pow2Add(d - m, m);
      RoundUp(c, u, Pow2(m), Total(s), s[a]);
    }
  }

  lemma ShareMultiple(d: nat, m: nat, l: nat)
    requires l <= m <= d
    ensures IsPowerMultiple(Pow2(d - l), Pow2(d - m))
  {
    hide Pow2;
    Pow2Add(m - l, d - m);
  }

  /** A multiple of u below another leaves room for u. */
  lemma RoundUp(c: nat, u: nat, e: nat, total: nat, x: nat)
    requires 0 < u && 0 < x && c * u == total - x && total <= u * e
    ensures total - x + u <= u * e
  {
    assert u * e == e * u;
    MulCancel(c, e, u);
    MulMono(c + 1, e, u);
    Distribute(c, 1, u);
  }

  lemma {:induction false} MultipleSum(s: seq<int>, k: nat, u: nat) returns (c: nat)
    requires k <= |s| && u > 0
    requires forall i :: 0 <= i < |s| ==> s[i] == 0 || IsPowerMultiple(s[i], u)
    ensures Sum(s, k) == c * u
  {
    if k == 0 {
      c := 0;
    } else {
      c := MultipleSum(s, k - 1, u);
      if s[k - 1] != 0 {
        var q: nat :| s[k - 1] == q * u;
        assert (c + q) * u == c * u + q * u;
        c := c + q;
      }
    }
  }

  ghost predicate IsPowerMultiple(x: int, u: nat) {
    exists q: nat :: x == q * u
  }

  /** One merge of two smallest weights against any competing lengths: the merged list
      has lengths that still satisfy Kraft and are cheaper by at least the merged weight. */
  lemma MergeLengths(w: seq<nat>, l: seq<nat>, d: nat, a: nat, b: nat) returns (r: seq<nat>)
    requires |w| == |l| && TwoSmallest(w, a, b) && KraftOk(l, d)
    ensures |r| == |w| - 1 && KraftOk(r, d)
    ensures Dot(Merged(w, a, b, w[a] + w[b]), r) + w[a] + w[b] <= Dot(w, l)
  {
    var l1 := LongestToSmallest(w, l, d, a, b);
    var m := l1[b];
    CutLongest(l1, d, a, m);
    var l2 := l1[a := m];
    CutProducts(w, l1, a, m);
    r := MergeEqualLengths(l2, d, a, b);
    MergedProducts(w, l2, a, b);
  }

  lemma MergeEqualLengths(l: seq<nat>, d: nat, a: nat, b: nat) returns (r: seq<nat>)
    requires a < |l| && b < |l| && a != b && l[a] == l[b] && KraftOk(l, d)
    ensures l[b] > 0 && r == Merged(l, a, b, l[b] - 1) && KraftOk(r, d)
  {
    hide Sum, Pow2;
    var s := Shares(l, d);
    ShareDoubles(d, l[b]);
    SumTwoItems(s, |s|, a, b);
    r := Merged(l, a, b, l[b] - 1);
    forall k | 0 <= k < |r| ensures r[k] <= d {
      var j := MergedMembers(l, a, b, l[b] - 1, k);
    }
    var v := Pow2(d - (l[b] - 1));
    forall k | 0 <= k < |r| ensures Shares(r, d)[k] == Merged(s, a, b, v)[k] {
    }
    assert Shares(r, d) == Merged(s, a, b, v);
    MergedSum(s, a, b, v);
  }

  lemma ShareDoubles(d: nat, m: nat)
    requires m <= d
    ensures m > 0 ==> Pow2(d - (m - 1)) == 2 * Pow2(d - m)
  {
  }

  lemma CutProducts(w: seq<nat>, l: seq<nat>, a: nat, m: nat)
    requires |w| == |l| && a < |l| && m <= l[a]
    ensures Dot(w, l[a := m]) <= Dot(w, l)
  {
    var p, r := Products(w, l), Products(w, l[a := m]);
    forall i | 0 <= i < |w| ensures r[i] <= p[i] {
      if i == a {
        assert w[a] * m <= w[a] * l[a] by { MulMono(m, l[a], w[a]); }
      }
    }
    SumLe(r, p, |w|);
  }

  lemma MergedProducts(w: seq<nat>, l: seq<nat>, a: nat, b: nat)
    requires |w| == |l| && a < |w| && b < |w| && a != b && l[a] == l[b] && l[b] > 0
    ensures Dot(Merged(w, a, b, w[a] + w[b]), Merged(l, a, b, l[b] - 1))
         == Dot(w, l) - w[a] - w[b]
  {
    var p := Products(w, l);
    var v := (w[a] + w[b]) * (l[b] - 1);
    var mw, ml := Merged(w, a, b, w[a] + w[b]), Merged(l, a, b, l[b] - 1);
    forall k | 0 <= k < |mw| ensures Products(mw, ml)[k] == Merged(p, a, b, v)[k] {
    }
    assert Products(mw, ml) == Merged(p, a, b, v);
    MergedSum(p, a, b, v);
    assert v == w[a] * l[a] + w[b] * l[b] - w[a] - w[b];
  }

  lemma MergedTotals(f: seq<Tree>, a: nat, b: nat)
    requires a < |f| && b < |f| && a != b
    ensures Weights(MergedForest(f, a, b)) == Merged(Weights(f), a, b, Weight(f[a]) + Weight(f[b]))
    ensures Total(Weights(MergedForest(f, a, b))) == Total(Weights(f))
    ensures Total(Costs(MergedForest(f, a, b))) == Total(Costs(f)) + Weight(f[a]) + Weight(f[b])
  {
    var t := Node(f[a], f[b]);
    MergedSum(Weights(f), a, b, Weight(t));
    MergedSum(Costs(f), a, b, Cost(t));
    assert Weights(MergedForest(f, a, b)) == Merged(Weights(f), a, b, Weight(t));
    assert Costs(MergedForest(f, a, b)) == Merged(Costs(f), a, b, Cost(t));
  }

  lemma DotNat(w: seq<nat>, l: seq<nat>)
    requires |w| == |l|
    ensures Dot(w, l) >= 0
  {
    SumNat(Products(w, l), 0, |w|);
  }

  lemma MergeStep(f: seq<Tree>, a: nat, b: nat, l: seq<nat>, d: nat) returns (r: seq<nat>)
    requires |l| == |f| && TwoSmallest(Weights(f), a, b) && KraftOk(l, d)
    ensures |r| == |MergedForest(f, a, b)| && KraftOk(r, d)
    ensures Total(Costs(MergedForest(f, a, b))) + Dot(Weights(MergedForest(f, a, b)), r)
         <= Total(Costs(f)) + Dot(Weights(f), l)
  {
    r := MergeLengths(Weights(f), l, d, a, b);
    MergedTotals(f, a, b);
  }

  /** Optimality on forests: whatever lengths l are given to the roots within Kraft, the
      merged tree costs no more than the forest's own trees plus l at the roots. */
  lemma {:induction false} HuffmanOptimal(f: seq<Tree>, t: Tree, l: seq<nat>, d: nat)
    requires Huffman(f, t) && |l| == |f| && KraftOk(l, d)
    ensures Cost(t) <= Total(Costs(f)) + Dot(Weights(f), l)
    decreases |f|
  {
    if |f| == 1 {
      DotNat(Weights(f), l);
      assert Total(Costs(f)) == Sum(Costs(f), 0) + Cost(t);
    } else {
      var a: nat, b: nat :| TwoSmallest(Weights(f), a, b) && Huffman(MergedForest(f, a, b), t);
      var r := MergeStep(f, a, b, l, d);
      HuffmanOptimal(MergedForest(f, a, b), t, r, d);
    }
  }

  // ----- what every merge keeps -----

  ghost predicate ForestDistinct(f: seq<Tree>) {
    && (forall i :: 0 <= i < |f| ==> Distinct(f[i]))
    && (forall i, j :: 0 <= i < j < |f| ==> Leaves(f[i]) !! Leaves(f[j]))
  }

  ghost function AllLeaves(f: seq<Tree>): set<nat> {
    set i, s | 0 <= i < |f| && s in Leaves(f[i]) :: s
  }

  lemma MergeKeepsDistinct(f: seq<Tree>, a: nat, b: nat)
    requires ForestDistinct(f) && a < |f| && b < |f| && a != b
    ensures ForestDistinct(MergedForest(f, a, b))
  {
    var g := MergedForest(f, a, b);
    var lo := if a < b then a else b;
    var hi := if a < b then b else a;
    forall i, j | 0 <= i < j < |g| ensures Leaves(g[i]) !! Leaves(g[j]) {
      var i' := if i == hi then |f| - 1 else i;
      var j' := if j == hi then |f| - 1 else j;
      assert i == lo || g[i] == f[i'];
      assert j == lo || g[j] == f[j'];
    }
    forall i | 0 <= i < |g| ensures Distinct(g[i]) {
      var j := MergedMembers(f, a, b, Node(f[a], f[b]), i);
    }
  }

  lemma MergeKeepsLeaves(f: seq<Tree>, a: nat, b: nat)
    requires a < |f| && b < |f| && a != b
    ensures AllLeaves(MergedForest(f, a, b)) == AllLeaves(f)
  {
    var t := Node(f[a], f[b]);
    var g := MergedForest(f, a, b);
    var lo := if a < b then a else b;
    var hi := if a < b then b else a;
    forall i, s | 0 <= i < |f| && s in Leaves(f[i]) ensures s in AllLeaves(g) {
      var k := if i == a || i == b then lo else if i == |f| - 1 then hi else i;
      assert s in Leaves(g[k]);
    }
    forall i, s | 0 <= i < |g| && s in Leaves(g[i]) ensures s in AllLeaves(f) {
      var j := MergedMembers(f, a, b, t, i);
      var k := if i != lo then j else if s in Leaves(f[a]) then a else b;
      assert s in Leaves(f[k]);
    }
  }

  /** The roots keep partitioning the same symbols, and the weights keep their sum. */
  lemma MergeKeeps(f: seq<Tree>, a: nat, b: nat)
    requires ForestDistinct(f) && a < |f| && b < |f| && a != b
    ensures ForestDistinct(MergedForest(f, a, b))
    ensures AllLeaves(MergedForest(f, a, b)) == AllLeaves(f)
    ensures Total(Weights(MergedForest(f, a, b))) == Total(Weights(f))
  {
    MergeKeepsDistinct(f, a, b);
    MergeKeepsLeaves(f, a, b);
    MergedTotals(f, a, b);
  }

  /** The final tree holds the forest's symbols, each once, with the forest's weight. */
  lemma {:induction false} HuffmanKeeps(f: seq<Tree>, t: Tree)
    requires Huffman(f, t) && ForestDistinct(f)
    ensures Distinct(t) && Leaves(t) == AllLeaves(f) && Weight(t) == Total(Weights(f))
    decreases |f|
  {
    if |f| == 1 {
      assert Total(Weights(f)) == Sum(Weights(f), 0) + Weight(t);
      assert Leaves(f[0]) <= AllLeaves(f);
    } else {
      var a: nat, b: nat :| TwoSmallest(Weights(f), a, b) && Huffman(MergedForest(f, a, b), t);
      MergeKeeps(f, a, b);
      HuffmanKeeps(MergedForest(f, a, b), t);
    }
  }

  // ----- the builder's own merges -----

  lemma FirstTwoSmallest(w: seq<nat>, a: nat, b: nat)
    requires FirstTwo(w, a, b)
    ensures TwoSmallest(w, a, b)
  {
    forall k | 0 <= k < |w| && k != a && k != b ensures w[b] <= w[k] {
      assert Ahead(w, b, k);
    }
  }

  lemma FirstTwoUnique(w: seq<nat>, a: nat, b: nat, x: nat, y: nat)
    requires FirstTwo(w, a, b) && FirstTwo(w, x, y)
    ensures a == x && b == y
  {
    assert x == a || x == b || Ahead(w, b, x);
    assert a == x || a == y || Ahead(w, y, a);
    assert b == x || b == y || Ahead(w, y, b);
    assert y == a || y == b || Ahead(w, b, y);
  }

  /** The builder's tree is determined by the forest. */
  lemma {:induction false} Huffman32Unique(f: seq<Tree>, t: Tree, u: Tree)
    requires Huffman32(f, t) && Huffman32(f, u)
    ensures t == u
    decreases |f|
  {
    if |f| > 1 {
      var a: nat, b: nat :| FirstTwo(Weights32(f), a, b) && Huffman32(MergedForest(f, a, b), t);
      var x: nat, y: nat :| FirstTwo(Weights32(f), x, y) && Huffman32(MergedForest(f, x, y), u);
      FirstTwoUnique(Weights32(f), a, b, x, y);
      Huffman32Unique(MergedForest(f, a, b), t, u);
    }
  }

  /** Whatever the weights: merging keeps every symbol exactly once. */
  lemma {:induction false} Huffman32Keeps(f: seq<Tree>, t: Tree)
    requires Huffman32(f, t) && ForestDistinct(f)
    ensures Distinct(t) && Leaves(t) == AllLeaves(f)
    decreases |f|
  {
    if |f| == 1 {
      assert Leaves(f[0]) <= AllLeaves(f);
    } else {
      var a: nat, b: nat :| FirstTwo(Weights32(f), a, b) && Huffman32(MergedForest(f, a, b), t);
      MergeKeeps(f, a, b);
      Huffman32Keeps(MergedForest(f, a, b), t);
    }
  }

  /** The same symbols at the same depths. */
  ghost predicate SameDepths(t: Tree, u: Tree) {
    Leaves(t) == Leaves(u) && forall s :: s in Leaves(t) ==> Depth(t, s) == Depth(u, s)
  }

  ghost predicate NoWrap(f: seq<Tree>) {
    forall i :: 0 <= i < |f| ==> Weight(f[i]) < U32_LIMIT
  }

  /** Below a total of 2^33 the builder's tree has the depths of a true Huffman tree: while
      four or more roots are left two smallest weights cannot wrap, and after that a wrap
      cannot change what is merged, only the order of the last two. */
  lemma {:induction false} Huffman32Depths(f: seq<Tree>, t: Tree) returns (u: Tree)
    requires Huffman32(f, t) && ForestDistinct(f) && Total(Weights(f)) < 2 * U32_LIMIT
    requires |f| >= 3 ==> NoWrap(f)
    ensures Huffman(f, u) && SameDepths(t, u)
    decreases |f|
  {
    hide MergedForest, Sum, NoWrap, Ahead, Weight;
    if |f| <= 1 {
      u := t;
    } else if |f| == 2 {
      u := LastMerge(f, t);
    } else {
      NothingWraps(f);
      var a: nat, b: nat :| FirstTwo(Weights32(f), a, b) && Huffman32(MergedForest(f, a, b), t);
      FirstTwoSmallest(Weights(f), a, b);
      MergedTotals(f, a, b);
      MergeKeeps(f, a, b);
      if |f| > 3 {
        MergeNoWrap(f, a, b);
      }
      MergedSize(f, a, b);
      u := Huffman32Depths(MergedForest(f, a, b), t);
    }
  }

  lemma MergedSize(f: seq<Tree>, a: nat, b: nat)
    requires a < |f| && b < |f| && a != b
    ensures |MergedForest(f, a, b)| == |f| - 1
  {
  }

  lemma NothingWraps(f: seq<Tree>)
    requires NoWrap(f)
    ensures Weights32(f) == Weights(f)
  {
    hide Weight;
  }

  /** Two smallest of four or more weights make at most half of the total. */
  lemma MergeNoWrap(f: seq<Tree>, a: nat, b: nat)
    requires |f| > 3 && NoWrap(f) && TwoSmallest(Weights(f), a, b) && Total(Weights(f)) < 2 * U32_LIMIT
    ensures NoWrap(MergedForest(f, a, b))
  {
    hide Sum;
    var w := Weights(f);
    var c := OtherThan(|f|, a, b, a);
    var d := OtherThan(|f|, a, b, c);
    SumFourItems(w, a, b, c, d);
    forall i | 0 <= i < |f| - 1 ensures Weight(MergedForest(f, a, b)[i]) < U32_LIMIT {
      var j := MergedMembers(f, a, b, Node(f[a], f[b]), i);
    }
  }

  lemma OtherThan(n: nat, a: nat, b: nat, c: nat) returns (d: nat)
    requires n > 3
    ensures d < n && d != a && d != b && d != c
  {
    d := if 0 != a && 0 != b && 0 != c then 0
         else if 1 != a && 1 != b && 1 != c then 1
         else if 2 != a && 2 != b && 2 != c then 2 else 3;
  }

  lemma SumFourItems(w: seq<nat>, a: nat, b: nat, c: nat, d: nat)
    requires a < |w| && b < |w| && c < |w| && d < |w|
    requires a != b && a != c && a != d && b != c && b != d && c != d
    ensures w[a] + w[b] + w[c] + w[d] <= Total(w)
  {
    SumUpdate(w, |w|, a, 0);
    SumUpdate(w[a := 0], |w|, b, 0);
    SumTwoItems(w[a := 0][b := 0], |w|, c, d);
  }

  /** With two roots left either order of the halves gives the same depths. */
  lemma LastMerge(f: seq<Tree>, t: Tree) returns (u: Tree)
    requires |f| == 2 && Huffman32(f, t) && ForestDistinct(f)
    ensures Huffman(f, u) && SameDepths(t, u)
  {
    hide Weight;
    var a: nat, b: nat :| FirstTwo(Weights32(f), a, b) && Huffman32(MergedForest(f, a, b), t);
    assert MergedForest(f, a, b) == [Node(f[a], f[b])];
    var x: nat := if Weights(f)[0] <= Weights(f)[1] then 0 else 1;
    u := Node(f[x], f[1 - x]);
    assert MergedForest(f, x, 1 - x) == [u];
    assert TwoSmallest(Weights(f), x, 1 - x);
    assert Huffman(MergedForest(f, x, 1 - x), u);
    assert f[0] == f[a] || f[0] == f[b];
    SwapSides(f[a], f[b]);
  }

  lemma SwapSides(x: Tree, y: Tree)
    requires Leaves(x) !! Leaves(y)
    ensures SameDepths(Node(x, y), Node(y, x)) && SameDepths(Node(x, y), Node(x, y))
  {
  }

  /** Every leaf of the final tree comes from the forest with its weight. */
  ghost predicate LeafWeights(t: Tree, hist: seq<nat>) {
    match t
    case Leaf(s, w) => s < |hist| && w == hist[s] && w > 0
    case Node(l, r) => LeafWeights(l, hist) && LeafWeights(r, hist)
  }

  lemma {:induction false} HuffmanLeafWeights(f: seq<Tree>, t: Tree, hist: seq<nat>)
    requires Huffman(f, t) && forall i :: 0 <= i < |f| ==> LeafWeights(f[i], hist)
    ensures LeafWeights(t, hist)
    decreases |f|
  {
    if |f| > 1 {
      var a: nat, b: nat :| TwoSmallest(Weights(f), a, b) && Huffman(MergedForest(f, a, b), t);
      forall i | 0 <= i < |f| - 1 ensures LeafWeights(MergedForest(f, a, b)[i], hist) {
        var j := MergedMembers(f, a, b, Node(f[a], f[b]), i);
      }
      HuffmanLeafWeights(MergedForest(f, a, b), t, hist);
    }
  }

  // ----- the depth bound -----

  function Fib(n: nat): nat {
    if n == 0 then 0 else if n == 1 then 1 else Fib(n - 1) + Fib(n - 2)
  }

  lemma {:induction false} FibMono(a: nat, b: nat)
    requires a <= b
    ensures Fib(a) <= Fib(b)
    decreases b - a
  {
    if a < b {
      FibMono(a + 1, b);
    }
  }

  /** In t and in all its subtrees the weight is at least Fib(height + 2). */
  ghost predicate Heavy(t: Tree) {
    && Weight(t) >= Fib(Height(t) + 2)
    && (t.Node? ==> Heavy(t.left) && Heavy(t.right))
  }

  /** y weighs at least as much as either half of x: y was active, or its parts were,
      when x was merged from the two smallest. */
  ghost predicate Outweighs(y: Tree, x: Tree) {
    x.Node? ==> Weight(x.left) <= Weight(y) && Weight(x.right) <= Weight(y)
  }

  ghost predicate ForestHeavy(f: seq<Tree>) {
    && (forall i :: 0 <= i < |f| ==> Heavy(f[i]))
    && (forall i, j :: 0 <= i < |f| && 0 <= j < |f| && i != j ==> Outweighs(f[i], f[j]))
  }

  lemma NodeHeavy(x: Tree, y: Tree)
    requires Heavy(x) && Heavy(y) && Outweighs(x, y) && Outweighs(y, x)
    ensures Heavy(Node(x, y))
  {
    hide Fib, Weight, Outweighs;
    if Height(x) >= Height(y) {
      TallerHeavy(x, y);
    } else {
      TallerHeavy(y, x);
    }
    NodeParts(x, y);
  }

  lemma NodeParts(x: Tree, y: Tree)
    ensures Weight(Node(x, y)) == Weight(x) + Weight(y)
    ensures Height(Node(x, y)) == 1 + if Height(x) >= Height(y) then Height(x) else Height(y)
  {
  }

  lemma TallerHeavy(x: Tree, y: Tree)
    requires Heavy(x) && Heavy(y) && Outweighs(y, x)
    ensures Weight(x) + Weight(y) >= Fib(Height(x) + 3)
  {
    hide Fib, Heavy, Weight;
    var h := Height(x);
    HeavyParts(x);
    HeavyParts(y);
    FibStep(h + 1);
    if x.Leaf? {
      FibStep(0);
      FibMono(2, Height(y) + 2);
    } else {
      HeavyParts(if Height(x.left) >= Height(x.right) then x.left else x.right);
    }
  }

  lemma HeavyParts(t: Tree)
    requires Heavy(t)
    ensures Weight(t) >= Fib(Height(t) + 2) && (t.Node? ==> Heavy(t.left) && Heavy(t.right))
  {
    hide Fib, Weight, Height;
  }

  lemma FibStep(n: nat)
    ensures Fib(n + 2) == Fib(n + 1) + Fib(n) && Fib(0) == 0 && Fib(1) == 1
  {
  }

  lemma MergeKeepsHeavy(f: seq<Tree>, a: nat, b: nat)
    requires ForestHeavy(f) && TwoSmallest(Weights(f), a, b)
    ensures ForestHeavy(MergedForest(f, a, b))
  {
    var t := Node(f[a], f[b]);
    var g := MergedForest(f, a, b);
    NodeHeavy(f[a], f[b]);
    var lo := if a < b then a else b;
    forall i | 0 <= i < |g|
      ensures Heavy(g[i]) && (i != lo ==> Outweighs(g[i], t) && Outweighs(t, g[i]))
    {
      var j := MergedMembers(f, a, b, t, i);
      if i != lo {
        assert Weights(f)[b] <= Weights(f)[j];
        assert Outweighs(f[a], f[j]);
      }
    }
    forall i, j | 0 <= i < |g| && 0 <= j < |g| && i != j ensures Outweighs(g[i], g[j]) {
      if i != lo && j != lo {
        var hi := if a < b then b else a;
        var i' := if i == hi then |f| - 1 else i;
        var j' := if j == hi then |f| - 1 else j;
        assert g[i] == f[i'] && g[j] == f[j'] && i' != j';
      }
    }
  }

  lemma {:induction false} HuffmanHeavy(f: seq<Tree>, t: Tree)
    requires Huffman(f, t) && ForestHeavy(f)
    ensures Weight(t) >= Fib(Height(t) + 2)
    decreases |f|
  {
    if |f| == 1 {
      assert Heavy(f[0]);
    } else {
      var a: nat, b: nat :| TwoSmallest(Weights(f), a, b) && Huffman(MergedForest(f, a, b), t);
      MergeKeepsHeavy(f, a, b);
      HuffmanHeavy(MergedForest(f, a, b), t);
    }
  }
}
