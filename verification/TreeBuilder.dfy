/** The builder of code lengths as it works in memory: a pool of nodes with parent
    indices, a shrinking list of active roots, and a walk from every leaf to the root. */
module TreeBuilder {
  import opened Numbers
  import opened HuffmanTree
  import opened CodeLengths

  const POOL: nat := 512
  const NO_PARENT: int := -1

  datatype HeapNode = HeapNode(weight: uint32, parent: int)

  /** Pool index n is in use: an internal node, or the leaf of an occurring symbol. */
  predicate Live(hist: seq<uint32>, n: nat)
    requires |hist| == SYMBOLS
  {
    n >= SYMBOLS || hist[n] > 0
  }

  ghost predicate IsChild(p: Tree, c: Tree) {
    p.Node? && (p.left == c || p.right == c)
  }

  /** sub[n] is the tree below pool node n.  A live node is an active root when it has no
      parent; otherwise its parent is a later internal node with it as a child. */
  ghost predicate PoolOk(hist: seq<uint32>, nodes: seq<HeapNode>, active: seq<nat>, sub: seq<Tree>) {
    && |hist| == SYMBOLS && |nodes| == POOL && SYMBOLS <= |sub| <= POOL
    && (forall n :: 0 <= n < SYMBOLS && hist[n] > 0 ==> sub[n] == Leaf(n, hist[n]))
    && (forall n :: 0 <= n < |sub| && Live(hist, n) ==> Distinct(sub[n]))
    && (forall n :: 0 <= n < |sub| && Live(hist, n) ==> nodes[n].weight == Weight(sub[n]) % U32_LIMIT)
    && (forall n :: 0 <= n < |sub| && Live(hist, n) && nodes[n].parent == NO_PARENT ==> n in active)
    && (forall n :: 0 <= n < |sub| && Live(hist, n) && nodes[n].parent != NO_PARENT ==>
          && SYMBOLS <= nodes[n].parent < |sub| && n < nodes[n].parent
          && IsChild(sub[nodes[n].parent], sub[n]))
    && (forall n :: |sub| <= n < POOL ==> nodes[n].parent == NO_PARENT)
  }

  /** The active list names the roots of forest f. */
  ghost predicate ActiveOk(hist: seq<uint32>, nodes: seq<HeapNode>, active: seq<nat>,
                           sub: seq<Tree>, f: seq<Tree>)
  {
    && |hist| == SYMBOLS && |nodes| == POOL && |sub| <= POOL
    && |active| == |f|
    && (forall i :: 0 <= i < |active| ==>
          active[i] < |sub| && Live(hist, active[i]) && sub[active[i]] == f[i]
          && nodes[active[i]].parent == NO_PARENT)
    && (forall i, j :: 0 <= i < j < |active| ==> active[i] != active[j])
  }

  // ----- leaves -----

  method ClearPool(nodes: array<HeapNode>)
    requires nodes.Length == POOL
    modifies nodes
    ensures forall n :: 0 <= n < POOL ==> nodes[n] == HeapNode(0, NO_PARENT)
  {
    for i := 0 to POOL
      invariant forall n :: 0 <= n < i ==> nodes[n] == HeapNode(0, NO_PARENT)
    {
      nodes[i] := HeapNode(0, NO_PARENT);
    }
  }

  /** The occurring symbols below k, in order. */
  function UsedSymbols(hist: seq<nat>, k: nat): seq<nat>
    requires k <= |hist|
  {
    if k == 0 then []
    else UsedSymbols(hist, k - 1) + if hist[k - 1] > 0 then [k - 1] else []
  }

  lemma {:induction false} UsedSymbolsRange(hist: seq<nat>, k: nat)
    requires k <= |hist|
    ensures |UsedSymbols(hist, k)| == UsedCount(hist, k) <= k
    ensures forall i :: 0 <= i < |UsedSymbols(hist, k)| ==>
              UsedSymbols(hist, k)[i] < k && hist[UsedSymbols(hist, k)[i]] > 0
    ensures forall i, j :: 0 <= i < j < |UsedSymbols(hist, k)| ==>
              UsedSymbols(hist, k)[i] < UsedSymbols(hist, k)[j]
  {
    if k > 0 {
      UsedSymbolsRange(hist, k - 1);
    }
  }

  lemma {:induction false} UsedSymbolsAll(hist: seq<nat>, k: nat, s: nat)
    requires s < k <= |hist| && hist[s] > 0
    ensures s in UsedSymbols(hist, k)
  {
    if s < k - 1 {
      UsedSymbolsAll(hist, k - 1, s);
    }
  }

  lemma {:induction false} UsedSymbolsForest(hist: seq<nat>, k: nat, i: nat)
    requires k <= |hist| && i < |UsedSymbols(hist, k)|
    ensures i < |InitialForest(hist, k)| && UsedSymbols(hist, k)[i] < k
    ensures InitialForest(hist, k)[i] == Leaf(UsedSymbols(hist, k)[i], hist[UsedSymbols(hist, k)[i]])
  {
    UsedSymbolsRange(hist, k);
    UsedSymbolsRange(hist, k - 1);
    InitialForestFacts(hist, k - 1);
    if i < |UsedSymbols(hist, k - 1)| {
      UsedSymbolsForest(hist, k - 1, i);
    }
  }

  /** Fills the leaves; idx receives the occurring symbols in order. */
  method InitLeaves(hist: seq<uint32>, nodes: array<HeapNode>, idx: array<nat>) returns (used: nat)
    requires |hist| == SYMBOLS && nodes.Length == POOL && idx.Length == SYMBOLS
    requires forall n :: 0 <= n < POOL ==> nodes[n] == HeapNode(0, NO_PARENT)
    modifies nodes, idx
    ensures used <= SYMBOLS && idx[..used] == UsedSymbols(hist, SYMBOLS)
    ensures forall n :: 0 <= n < POOL ==> nodes[n].parent == NO_PARENT
    ensures forall n :: 0 <= n < SYMBOLS && hist[n] > 0 ==> nodes[n].weight == hist[n]
  {
    used := 0;
    for s := 0 to SYMBOLS
      invariant used <= s && idx[..used] == UsedSymbols(hist, s)
      invariant forall n :: 0 <= n < POOL ==> nodes[n].parent == NO_PARENT
      invariant forall n :: 0 <= n < s && hist[n] > 0 ==> nodes[n].weight == hist[n]
    {
      if hist[s] > 0 {
        nodes[s] := nodes[s].(weight := hist[s]);
        idx[used] := s;
        used := used + 1;
      }
    }
  }

  lemma InitialPool(hist: seq<uint32>, nodes: seq<HeapNode>, active: seq<nat>) returns (sub: seq<Tree>)
    requires |hist| == SYMBOLS && |nodes| == POOL && active == UsedSymbols(hist, SYMBOLS)
    requires forall n :: 0 <= n < POOL ==> nodes[n].parent == NO_PARENT
    requires forall n :: 0 <= n < SYMBOLS && hist[n] > 0 ==> nodes[n].weight == hist[n]
    ensures |sub| == SYMBOLS && PoolOk(hist, nodes, active, sub)
    ensures ActiveOk(hist, nodes, active, sub, InitialForest(hist, SYMBOLS))
  {
    sub := seq(SYMBOLS, n requires 0 <= n < SYMBOLS => Leaf(n, hist[n]));
    forall s | 0 <= s < SYMBOLS && hist[s] > 0 ensures s in active {
      UsedSymbolsAll(hist, SYMBOLS, s);
    }
    InitialActive(hist, nodes, active, sub);
  }

  lemma InitialActive(hist: seq<uint32>, nodes: seq<HeapNode>, active: seq<nat>, sub: seq<Tree>)
    requires |hist| == SYMBOLS && |nodes| == POOL && active == UsedSymbols(hist, SYMBOLS)
    requires |sub| == SYMBOLS && forall n :: 0 <= n < SYMBOLS ==> sub[n] == Leaf(n, hist[n])
    requires forall n :: 0 <= n < POOL ==> nodes[n].parent == NO_PARENT
    ensures ActiveOk(hist, nodes, active, sub, InitialForest(hist, SYMBOLS))
  {
    var f := InitialForest(hist, SYMBOLS);
    UsedSymbolsRange(hist, SYMBOLS);
    InitialForestFacts(hist, SYMBOLS);
    forall i | 0 <= i < |active| ensures sub[active[i]] == f[i] {
      UsedSymbolsForest(hist, SYMBOLS, i);
    }
  }

  // ----- picking the two smallest -----

  function ActiveWeights(nodes: seq<HeapNode>, active: seq<nat>): (w: seq<nat>)
    requires forall i :: 0 <= i < |active| ==> active[i] < |nodes|
    ensures |w| == |active| && forall i :: 0 <= i < |w| ==> w[i] == nodes[active[i]].weight
  {
    seq(|active|, i requires 0 <= i < |active| => nodes[active[i]].weight)
  }

  ghost predicate AheadOfRest(w: seq<nat>, a: nat, b: nat, i: nat)
    requires b < |w| && i <= |w|
  {
    forall k :: 0 <= k < i && k != a && k != b ==> Ahead(w, b, k)
  }

  lemma ScanStep(w: seq<nat>, a: nat, b: nat, i: nat)
    requires a < i && b < i < |w| && a != b && Ahead(w, a, b) && AheadOfRest(w, a, b, i)
    ensures if w[i] < w[a] then Ahead(w, i, a) && AheadOfRest(w, i, a, i + 1)
            else if w[i] < w[b] then Ahead(w, a, i) && AheadOfRest(w, a, i, i + 1)
            else AheadOfRest(w, a, b, i + 1)
  {
    forall k | 0 <= k < i && k != a && k != b
      ensures Ahead(w, b, k) && Ahead(w, a, k) && (w[i] < w[b] ==> Ahead(w, i, k))
    {
    }
  }

  /** One scan over the active list; of equal weights the earlier position counts first. */
  method PickTwo(nodes: array<HeapNode>, active: array<nat>, n: nat) returns (a: nat, b: nat)
    requires 2 <= n <= active.Length
    requires forall i :: 0 <= i < n ==> active[i] < nodes.Length
    ensures FirstTwo(ActiveWeights(nodes[..], active[..n]), a, b)
    ensures a < n && b < n && a != b
    ensures nodes[active[a]].weight < nodes[active[b]].weight
         || (nodes[active[a]].weight == nodes[active[b]].weight && a < b)
    ensures forall k :: 0 <= k < n && k != a && k != b ==>
              nodes[active[b]].weight < nodes[active[k]].weight
              || (nodes[active[b]].weight == nodes[active[k]].weight && b < k)
  {
    ghost var ws := ActiveWeights(nodes[..], active[..n]);
    a, b := 0, 1;
    if nodes[active[a]].weight > nodes[active[b]].weight {
      a, b := b, a;
    }
    for i := 2 to n
      invariant a < i && b < i && a != b
      invariant Ahead(ws, a, b) && AheadOfRest(ws, a, b, i)
    {
      ScanStep(ws, a, b, i);
      var w := nodes[active[i]].weight;
      if w < nodes[active[a]].weight {
        b := a;
        a := i;
      } else if w < nodes[active[b]].weight {
        b := i;
      }
    }
    assert ws[a] == nodes[active[a]].weight && ws[b] == nodes[active[b]].weight;
    forall k | 0 <= k < n && k != a && k != b
      ensures nodes[active[b]].weight < nodes[active[k]].weight
              || (nodes[active[b]].weight == nodes[active[k]].weight && b < k)
    {
      assert ws[k] == nodes[active[k]].weight && Ahead(ws, b, k);
    }
  }

  // ----- one merge -----

  lemma MergedActiveOk(hist: seq<uint32>, nodes: seq<HeapNode>, nodes': seq<HeapNode>, active: seq<nat>,
                       sub: seq<Tree>, f: seq<Tree>, a: nat, b: nat, x: nat)
    requires SYMBOLS <= |sub| < POOL && x == |sub|
    requires ActiveOk(hist, nodes, active, sub, f) && a < |f| && b < |f| && a != b
    requires |nodes'| == POOL && nodes'[x].parent == NO_PARENT
    requires forall n :: 0 <= n < x && n != active[a] && n != active[b] ==> nodes'[n] == nodes[n]
    ensures ActiveOk(hist, nodes', Merged(active, a, b, x), sub + [Node(f[a], f[b])], MergedForest(f, a, b))
  {
    var m, g := Merged(active, a, b, x), MergedForest(f, a, b);
    var lo := if a < b then a else b;
    var hi := if a < b then b else a;
    forall i | 0 <= i < |m|
      ensures m[i] <= x && Live(hist, m[i]) && (sub + [Node(f[a], f[b])])[m[i]] == g[i]
      ensures nodes'[m[i]].parent == NO_PARENT
    {
      var k := if i == hi then |f| - 1 else i;
      assert i == lo || (m[i] == active[k] && g[i] == f[k] && k != a && k != b);
    }
    forall i, j | 0 <= i < j < |m| ensures m[i] != m[j] {
      var i' := if i == hi then |f| - 1 else i;
      var j' := if j == hi then |f| - 1 else j;
      assert i == lo || m[i] == active[i'];
      assert j == lo || m[j] == active[j'];
    }
  }

  /** The pool after active entries a and b were linked below the new node x. */
  ghost predicate Linked(nodes: seq<HeapNode>, nodes': seq<HeapNode>, na: nat, nb: nat, x: nat, w: uint32) {
    && |nodes| == POOL && na < x < POOL && nb < x && na != nb
    && nodes' == nodes[x := HeapNode(w, nodes[x].parent)]
                      [na := HeapNode(nodes[na].weight, x)]
                      [nb := HeapNode(nodes[nb].weight, x)]
  }

  lemma LinkedElsewhere(nodes: seq<HeapNode>, nodes': seq<HeapNode>, na: nat, nb: nat, x: nat, w: uint32)
    requires Linked(nodes, nodes', na, nb, x, w)
    ensures |nodes'| == POOL && nodes'[x].parent == nodes[x].parent
    ensures forall n :: 0 <= n < POOL && n != na && n != nb && n != x ==> nodes'[n] == nodes[n]
  {
  }

  /** A root other than a and b stays in the merged list. */
  lemma MergedListed(active: seq<nat>, a: nat, b: nat, x: nat, n: nat)
    requires a < |active| && b < |active| && a != b
    requires n == x || (n in active && n != active[a] && n != active[b])
    ensures n in Merged(active, a, b, x)
  {
    var m := Merged(active, a, b, x);
    var lo := if a < b then a else b;
    var hi := if a < b then b else a;
    if n == x {
      assert m[lo] == x;
    } else {
      var i :| 0 <= i < |active| && active[i] == n;
      assert m[if i == |active| - 1 then hi else i] == n;
    }
  }

  lemma LinkedNode(hist: seq<uint32>, nodes: seq<HeapNode>, nodes': seq<HeapNode>, active: seq<nat>,
                   sub: seq<Tree>, na: nat, nb: nat, w: uint32, n: nat)
    requires SYMBOLS <= |sub| < POOL && PoolOk(hist, nodes, active, sub)
    requires Linked(nodes, nodes', na, nb, |sub|, w)
    requires Live(hist, na) && Live(hist, nb) && n <= |sub| && Live(hist, n)
    requires w == (Weight(sub[na]) + Weight(sub[nb])) % U32_LIMIT
    ensures var sub' := sub + [Node(sub[na], sub[nb])];
            && nodes'[n].weight == Weight(sub'[n]) % U32_LIMIT
            && (nodes'[n].parent == NO_PARENT ==> n == |sub| || (n in active && n != na && n != nb))
            && (nodes'[n].parent != NO_PARENT ==>
                  && SYMBOLS <= nodes'[n].parent < |sub'| && n < nodes'[n].parent
                  && IsChild(sub'[nodes'[n].parent], sub'[n]))
  {
  }

  lemma MergedPoolOk(hist: seq<uint32>, nodes: seq<HeapNode>, nodes': seq<HeapNode>, active: seq<nat>,
                     sub: seq<Tree>, f: seq<Tree>, a: nat, b: nat, x: nat, w: uint32)
    requires SYMBOLS <= |sub| < POOL && x == |sub|
    requires PoolOk(hist, nodes, active, sub) && ActiveOk(hist, nodes, active, sub, f)
    requires a < |f| && b < |f| && a != b
    requires Distinct(Node(f[a], f[b])) && w == (Weight(f[a]) + Weight(f[b])) % U32_LIMIT
    requires Linked(nodes, nodes', active[a], active[b], x, w)
    ensures PoolOk(hist, nodes', Merged(active, a, b, x), sub + [Node(f[a], f[b])])
  {
    var sub' := sub + [Node(f[a], f[b])];
    var m := Merged(active, a, b, x);
    hide Merged, Weight, Distinct, Linked, Leaves, IsChild, ActiveOk;
    ActiveNodes(hist, nodes, active, sub, f, a, b);
    LinkedElsewhere(nodes, nodes', active[a], active[b], x, w);
    forall n | 0 <= n < |sub'| && Live(hist, n)
      ensures nodes'[n].weight == Weight(sub'[n]) % U32_LIMIT
      ensures nodes'[n].parent == NO_PARENT ==> n in m
      ensures nodes'[n].parent != NO_PARENT ==>
                && SYMBOLS <= nodes'[n].parent < |sub'| && n < nodes'[n].parent
                && IsChild(sub'[nodes'[n].parent], sub'[n])
    {
      MergedNode(hist, nodes, nodes', active, sub, f, a, b, x, w, n);
    }
  }

  lemma MergedNode(hist: seq<uint32>, nodes: seq<HeapNode>, nodes': seq<HeapNode>, active: seq<nat>,
                   sub: seq<Tree>, f: seq<Tree>, a: nat, b: nat, x: nat, w: uint32, n: nat)
    requires SYMBOLS <= |sub| < POOL && x == |sub| && n <= x
    requires PoolOk(hist, nodes, active, sub) && ActiveOk(hist, nodes, active, sub, f)
    requires a < |f| && b < |f| && a != b && Live(hist, n)
    requires w == (Weight(f[a]) + Weight(f[b])) % U32_LIMIT
    requires Linked(nodes, nodes', active[a], active[b], x, w)
    ensures var sub' := sub + [Node(f[a], f[b])];
            && nodes'[n].weight == Weight(sub'[n]) % U32_LIMIT
            && (nodes'[n].parent == NO_PARENT ==> n in Merged(active, a, b, x))
            && (nodes'[n].parent != NO_PARENT ==>
                  && SYMBOLS <= nodes'[n].parent < |sub'| && n < nodes'[n].parent
                  && IsChild(sub'[nodes'[n].parent], sub'[n]))
  {
    hide PoolOk, Merged, Weight, Linked, IsChild;
    assert sub[active[a]] == f[a] && sub[active[b]] == f[b];
    LinkedElsewhere(nodes, nodes', active[a], active[b], x, w);
    LinkedNode(hist, nodes, nodes', active, sub, active[a], active[b], w, n);
    if nodes'[n].parent == NO_PARENT {
      MergedListed(active, a, b, x, n);
    }
  }

  /** The pool nodes at a and b carry the weights of their trees. */
  lemma ActiveNodes(hist: seq<uint32>, nodes: seq<HeapNode>, active: seq<nat>, sub: seq<Tree>, f: seq<Tree>,
                    a: nat, b: nat)
    requires SYMBOLS <= |sub| < POOL && PoolOk(hist, nodes, active, sub) && ActiveOk(hist, nodes, active, sub, f)
    requires a < |f| && b < |f| && a != b
    ensures |active| == |f| && active[a] < |sub| && active[b] < |sub| && active[a] != active[b]
    ensures |nodes| == POOL && nodes[active[a]].weight == Weight(f[a]) % U32_LIMIT
    ensures nodes[active[b]].weight == Weight(f[b]) % U32_LIMIT
    ensures forall n :: |sub| <= n < POOL ==> nodes[n].parent == NO_PARENT
  {
    hide Weight;
  }

  /** Combines the active entries at a and b into pool node x and drops the last entry. */
  method CombinePair(hist: seq<uint32>, nodes: array<HeapNode>, active: array<nat>, n: nat,
                     a: nat, b: nat, x: nat, ghost sub: seq<Tree>, ghost f: seq<Tree>)
    requires |hist| == SYMBOLS
    requires nodes.Length == POOL && n <= active.Length && SYMBOLS <= x == |sub| < POOL
    requires a < n && b < n && a != b && |f| == n
    requires PoolOk(hist, nodes[..], active[..n], sub) && ActiveOk(hist, nodes[..], active[..n], sub, f)
    requires ForestDistinct(f)
    modifies nodes, active
    ensures active[..n - 1] == Merged(old(active[..n]), a, b, x)
    ensures active[if a < b then a else b] == x
    ensures forall i :: 0 <= i < n - 1 && i != a && i != b ==> active[i] == old(active[i])
    ensures var last := if a < b then b else a; last < n - 1 ==> active[last] == old(active[n - 1])
    ensures PoolOk(hist, nodes[..], active[..n - 1], sub + [Node(f[a], f[b])])
    ensures ActiveOk(hist, nodes[..], active[..n - 1], sub + [Node(f[a], f[b])], MergedForest(f, a, b))
  {
    hide PoolOk, ActiveOk, Merged, Sum, Distinct, ForestDistinct, Linked, Weight;
    ghost var before, list := nodes[..], active[..n];
    ActiveNodes(hist, nodes[..], list, sub, f, a, b);
    assert list[a] == active[a] && list[b] == active[b];
    SumWraps(Weight(f[a]), Weight(f[b]));
    LinkPair(nodes, active[a], active[b], x);
    LinkedElsewhere(before, nodes[..], list[a], list[b], x, (Weight(f[a]) + Weight(f[b])) % U32_LIMIT);
    DropPair(active, n, a, b, x);
    PairDistinct(f, a, b);
    MergedPoolOk(hist, before, nodes[..], list, sub, f, a, b, x,
                 (Weight(f[a]) + Weight(f[b])) % U32_LIMIT);
    MergedActiveOk(hist, before, nodes[..], list, sub, f, a, b, x);
  }

  lemma SumWraps(x: nat, y: nat)
    ensures (x % U32_LIMIT + y % U32_LIMIT) % U32_LIMIT == (x + y) % U32_LIMIT
  {
  }

  method LinkPair(nodes: array<HeapNode>, na: nat, nb: nat, x: nat)
    requires na < x && nb < x && na != nb && x < nodes.Length == POOL
    modifies nodes
    ensures Linked(old(nodes[..]), nodes[..], na, nb, x, old((nodes[na].weight + nodes[nb].weight) % U32_LIMIT))
  {
    var w: uint32 := (nodes[na].weight + nodes[nb].weight) % U32_LIMIT;
    nodes[x] := nodes[x].(weight := w);
    nodes[na] := nodes[na].(parent := x);
    nodes[nb] := nodes[nb].(parent := x);
  }

  method DropPair(active: array<nat>, n: nat, a: nat, b: nat, x: nat)
    requires n <= active.Length && a < n && b < n && a != b
    modifies active
    ensures active[..n - 1] == Merged(old(active[..n]), a, b, x)
    ensures active[if a < b then a else b] == x
    ensures forall i :: 0 <= i < n - 1 && i != a && i != b ==> active[i] == old(active[i])
    ensures var last := if a < b then b else a; last < n - 1 ==> active[last] == old(active[n - 1])
  {
    var lo := if a < b then a else b;
    var hi := if a < b then b else a;
    active[lo] := x;
    active[hi] := active[n - 1];
  }

  lemma PairDistinct(f: seq<Tree>, a: nat, b: nat)
    requires ForestDistinct(f) && a < |f| && b < |f| && a != b
    ensures Distinct(Node(f[a], f[b]))
  {
  }

  // ----- all merges -----

  /** Merges until one root is left, whose tree those merges give. */
  method MergeAll(hist: seq<uint32>, nodes: array<HeapNode>, idx: seq<nat>)
    returns (root: nat, ghost sub: seq<Tree>)
    requires |hist| == SYMBOLS && UsedCount(hist, SYMBOLS) >= 2
    requires nodes.Length == POOL && idx == UsedSymbols(hist, SYMBOLS)
    requires forall n :: 0 <= n < POOL ==> nodes[n].parent == NO_PARENT
    requires forall n :: 0 <= n < SYMBOLS && hist[n] > 0 ==> nodes[n].weight == hist[n]
    modifies nodes
    ensures PoolOk(hist, nodes[..], [root], sub)
    ensures root < |sub| && Huffman32(InitialForest(hist, SYMBOLS), sub[root])
  {
    var n := |idx|;
    UsedSymbolsRange(hist, SYMBOLS);
    var active := CopyActive(idx);
    ghost var f := InitialForest(hist, SYMBOLS);
    sub := InitialPool(hist, nodes[..], active[..n]);
    InitialForestFacts(hist, SYMBOLS);
    InitialForestGood(hist);
    InitialForestLeaves(hist, SYMBOLS);
    root, sub := MergeLoop(hist, nodes, active, n, sub, f);
  }

  method CopyActive(idx: seq<nat>) returns (active: array<nat>)
    requires |idx| <= SYMBOLS
    ensures fresh(active) && active.Length == POOL && active[..|idx|] == idx
  {
    active := new nat[POOL];
    for i := 0 to |idx|
      invariant active[..i] == idx[..i]
    {
      active[i] := idx[i];
    }
  }

  method MergeLoop(hist: seq<uint32>, nodes: array<HeapNode>, active: array<nat>, used: nat,
                   ghost sub0: seq<Tree>, ghost f0: seq<Tree>)
    returns (root: nat, ghost sub: seq<Tree>)
    requires |hist| == SYMBOLS && 2 <= used <= SYMBOLS
    requires nodes.Length == POOL == active.Length && |f0| == used && |sub0| == SYMBOLS
    requires PoolOk(hist, nodes[..], active[..used], sub0)
    requires ActiveOk(hist, nodes[..], active[..used], sub0, f0)
    requires ForestDistinct(f0)
    modifies nodes, active
    ensures PoolOk(hist, nodes[..], [root], sub)
    ensures root < |sub| && Huffman32(f0, sub[root])
  {
    sub := sub0;
    ghost var f := f0;
    var n := used;
    var next := SYMBOLS;
    while n > 1
      invariant 1 <= n <= SYMBOLS && |f| == n && next == |sub| && next + n == SYMBOLS + used
      invariant PoolOk(hist, nodes[..], active[..n], sub)
      invariant ActiveOk(hist, nodes[..], active[..n], sub, f)
      invariant ForestDistinct(f)
      invariant forall t :: Huffman32(f, t) ==> Huffman32(f0, t)
    {
      sub, f := MergeOnce(hist, nodes, active, n, next, sub, f);
      n := n - 1;
      next := next + 1;
    }
    root := active[0];
    assert active[..n] == [root];
    assert f == [sub[root]];
    assert Huffman32(f, sub[root]);
  }

  method MergeOnce(hist: seq<uint32>, nodes: array<HeapNode>, active: array<nat>, n: nat, next: nat,
                   ghost sub: seq<Tree>, ghost f: seq<Tree>)
    returns (ghost sub': seq<Tree>, ghost f': seq<Tree>)
    requires |hist| == SYMBOLS && SYMBOLS <= next == |sub| < POOL
    requires nodes.Length == POOL == active.Length && |f| == n && 2 <= n <= SYMBOLS
    requires PoolOk(hist, nodes[..], active[..n], sub)
    requires ActiveOk(hist, nodes[..], active[..n], sub, f)
    requires ForestDistinct(f)
    modifies nodes, active
    ensures |sub'| == |sub| + 1 && |f'| == n - 1
    ensures PoolOk(hist, nodes[..], active[..n - 1], sub')
    ensures ActiveOk(hist, nodes[..], active[..n - 1], sub', f')
    ensures ForestDistinct(f')
    ensures forall t :: Huffman32(f', t) ==> Huffman32(f, t)
  {
    ghost var list := active[..n];
    assert forall i :: 0 <= i < n ==> list[i] == active[i];
    var a, b := PickTwo(nodes, active, n);
    PickedSmallest(hist, nodes[..], list, sub, f, a, b);
    CombinePair(hist, nodes, active, n, a, b, next, sub, f);
    MergeKeeps(f, a, b);
    sub' := sub + [Node(f[a], f[b])];
    f' := MergedForest(f, a, b);
  }

  lemma PickedSmallest(hist: seq<uint32>, nodes: seq<HeapNode>, active: seq<nat>, sub: seq<Tree>,
                       f: seq<Tree>, a: nat, b: nat)
    requires PoolOk(hist, nodes, active, sub) && ActiveOk(hist, nodes, active, sub, f)
    requires a < |f| && b < |f| && a != b
    requires forall i :: 0 <= i < |active| ==> active[i] < |nodes|
    requires FirstTwo(ActiveWeights(nodes, active), a, b)
    ensures FirstTwo(Weights32(f), a, b)
    ensures forall t :: Huffman32(MergedForest(f, a, b), t) ==> Huffman32(f, t)
  {
    forall k | 0 <= k < |f| ensures Weights32(f)[k] == nodes[active[k]].weight {
      assert Weights32(f)[k] == Weight(sub[active[k]]) % U32_LIMIT;
    }
    assert ActiveWeights(nodes, active) == Weights32(f);
  }

  // ----- walking up -----

  /** Follows the parents of leaf s up to the root. */
  method WalkUp(hist: seq<uint32>, nodes: array<HeapNode>, s: nat, ghost root: nat, ghost sub: seq<Tree>)
    returns (depth: nat)
    requires nodes.Length == POOL && PoolOk(hist, nodes[..], [root], sub) && root < |sub|
    requires s < SYMBOLS && hist[s] > 0
    ensures s in Leaves(sub[root]) && depth == Depth(sub[root], s)
  {
    depth := 0;
    var n := s;
    while nodes[n].parent != NO_PARENT
      invariant n < |sub| && Live(hist, n)
      invariant s in Leaves(sub[n]) && depth == Depth(sub[n], s)
      decreases POOL - n
    {
      ghost var p := nodes[n].parent;
      ChildDepth(sub[p], sub[n], s);
      depth := depth + 1;
      n := nodes[n].parent;
    }
    assert n in [root];
  }

  lemma ChildDepth(p: Tree, c: Tree, s: nat)
    requires Distinct(p) && IsChild(p, c) && s in Leaves(c)
    ensures s in Leaves(p) && Depth(p, s) == Depth(c, s) + 1
  {
  }

  lemma {:induction false} HeightBelowLeaves(t: Tree)
    requires Distinct(t)
    ensures Height(t) < |Leaves(t)|
  {
    if t.Node? {
      HeightBelowLeaves(t.left);
      HeightBelowLeaves(t.right);
      assert |Leaves(t)| == |Leaves(t.left)| + |Leaves(t.right)|;
    }
  }

  lemma {:induction false} SetBound(s: set<nat>, n: nat)
    requires forall x :: x in s ==> x < n
    ensures |s| <= n
  {
    if n > 0 {
      SetBound(s - {n - 1}, n - 1);
      if n - 1 !in s {
        assert s - {n - 1} == s;
      }
    }
  }

  // ----- the builder -----

  ghost predicate IsMax(lens: seq<nat>, m: nat) {
    && (forall s :: 0 <= s < |lens| ==> lens[s] <= m)
    && (m > 0 ==> m in lens)
  }

  /** build_code_lengths: the lengths of the tree that its merges give, those of a true
      Huffman tree below a total of 2^33, and the largest of them. */
  method BuildCodeLengths(hist: seq<uint32>, lens: array<byte>) returns (maxLen: nat)
    requires |hist| == SYMBOLS && lens.Length == SYMBOLS
    modifies lens
    ensures MergedLengths(hist, lens[..]) && IsMax(lens[..], maxLen)
    ensures (forall s :: 0 <= s < 256 ==> lens[s] <= maxLen) && (maxLen > 0 ==> maxLen in lens[..])
    ensures Total(hist) < 2 * U32_LIMIT ==> HuffmanLengths(hist, lens[..])
  {
    maxLen := BuildMerged(hist, lens);
    if Total(hist) < 2 * U32_LIMIT {
      MergedIsHuffman(hist, lens[..]);
    }
  }

  method BuildMerged(hist: seq<uint32>, lens: array<byte>) returns (maxLen: nat)
    requires |hist| == SYMBOLS && lens.Length == SYMBOLS
    modifies lens
    ensures MergedLengths(hist, lens[..]) && IsMax(lens[..], maxLen)
  {
    ZeroLengths(lens);
    var nodes := new HeapNode[POOL](_ => HeapNode(0, NO_PARENT));
    var idx := new nat[SYMBOLS];
    ClearPool(nodes);
    var used := InitLeaves(hist, nodes, idx);
    UsedSymbolsRange(hist, SYMBOLS);
    if used == 0 {
      UsedCountZero(hist, SYMBOLS);
      return 0;
    }
    if used == 1 {
      maxLen := StoreLone(hist, idx[..used], lens);
      return;
    }
    var root, sub := MergeAll(hist, nodes, idx[..used]);
    maxLen := StoreDepths(hist, nodes, idx[..used], lens, root, sub);
  }

  method ZeroLengths(lens: array<byte>)
    modifies lens
    ensures forall s :: 0 <= s < lens.Length ==> lens[s] == 0
  {
    for i := 0 to lens.Length
      invariant forall s :: 0 <= s < i ==> lens[s] == 0
    {
      lens[i] := 0;
    }
  }

  method StoreLone(hist: seq<uint32>, idx: seq<nat>, lens: array<byte>) returns (maxLen: nat)
    requires |hist| == SYMBOLS && lens.Length == SYMBOLS
    requires idx == UsedSymbols(hist, SYMBOLS) && |idx| == 1
    requires forall s :: 0 <= s < SYMBOLS ==> lens[s] == 0
    modifies lens
    ensures MergedLengths(hist, lens[..]) && IsMax(lens[..], maxLen)
  {
    UsedSymbolsRange(hist, SYMBOLS);
    forall i | 0 <= i < SYMBOLS && hist[i] > 0 ensures i == idx[0] {
      UsedSymbolsAll(hist, SYMBOLS, i);
    }
    lens[idx[0]] := 1;
    assert lens[..][idx[0]] == 1;
    maxLen := 1;
  }

  method StoreDepths(hist: seq<uint32>, nodes: array<HeapNode>, idx: seq<nat>, lens: array<byte>,
                     ghost root: nat, ghost sub: seq<Tree>)
    returns (maxLen: nat)
    requires |hist| == SYMBOLS && lens.Length == SYMBOLS && nodes.Length == POOL
    requires idx == UsedSymbols(hist, SYMBOLS) && |idx| >= 2
    requires forall s :: 0 <= s < SYMBOLS ==> lens[s] == 0
    requires PoolOk(hist, nodes[..], [root], sub) && root < |sub|
    requires Huffman32(InitialForest(hist, SYMBOLS), sub[root])
    modifies lens
    ensures MergedLengths(hist, lens[..]) && IsMax(lens[..], maxLen)
  {
    MergedTreeFacts(hist, sub[root]);
    UsedSymbolsRange(hist, SYMBOLS);
    maxLen := StoreAll(hist, nodes, idx, lens, root, sub);
    StoredLengths(hist, lens[..], idx, sub[root]);
  }

  method StoreAll(hist: seq<uint32>, nodes: array<HeapNode>, idx: seq<nat>, lens: array<byte>,
                  ghost root: nat, ghost sub: seq<Tree>)
    returns (maxLen: nat)
    requires |hist| == SYMBOLS && lens.Length == SYMBOLS && nodes.Length == POOL
    requires forall i :: 0 <= i < |idx| ==> idx[i] < SYMBOLS && hist[idx[i]] > 0
    requires forall i, j :: 0 <= i < j < |idx| ==> idx[i] < idx[j]
    requires forall s :: 0 <= s < SYMBOLS ==> lens[s] == 0
    requires PoolOk(hist, nodes[..], [root], sub) && root < |sub|
    requires Distinct(sub[root]) && forall s :: s in Leaves(sub[root]) ==> s < SYMBOLS
    modifies lens
    ensures forall s :: 0 <= s < SYMBOLS ==>
              lens[s] == if s in idx then TreeLength(sub[root], s) else 0
    ensures IsMax(lens[..], maxLen)
  {
    hide PoolOk, Leaves, Depth, Distinct, IsMax;
    ghost var t := sub[root];
    maxLen := 0;
    NoLengths(lens[..]);
    for i := 0 to |idx|
      invariant forall s :: 0 <= s < SYMBOLS ==> lens[s] == if s in idx[..i] then TreeLength(t, s) else 0
      invariant IsMax(lens[..], maxLen)
    {
      var depth := WalkUp(hist, nodes, idx[i], root, sub);
      DepthFits(t, idx[i]);
      assert idx[..i + 1] == idx[..i] + [idx[i]];
      maxLen := StoreOne(idx, i, lens, depth, maxLen);
    }
    assert idx[..|idx|] == idx;
  }

  lemma NoLengths(lens: seq<nat>)
    requires forall s :: 0 <= s < |lens| ==> lens[s] == 0
    ensures IsMax(lens, 0)
  {
  }

  method StoreOne(idx: seq<nat>, i: nat, lens: array<byte>, depth: nat, max: nat) returns (max': nat)
    requires i < |idx| && idx[i] < lens.Length && depth < 0x100
    requires lens[idx[i]] == 0 && IsMax(lens[..], max)
    modifies lens
    ensures lens[..] == old(lens[..])[idx[i] := depth]
    ensures IsMax(lens[..], max')
  {
    // The cast to uint8_t keeps the value: a depth is below the number of leaves.
    lens[idx[i]] := depth % 0x100;
    max' := if depth > max then depth else max;
    assert lens[..][idx[i]] == depth;
    if max > 0 && max' == max {
      ghost var k :| 0 <= k < lens.Length && old(lens[..])[k] == max;
      assert lens[..][k] == max;
    }
  }

  lemma DepthFits(t: Tree, s: nat)
    requires Distinct(t) && s in Leaves(t) && forall x :: x in Leaves(t) ==> x < SYMBOLS
    ensures Depth(t, s) < 0x100
  {
    DepthBelowHeight(t, s);
    HeightBelowLeaves(t);
    SetBound(Leaves(t), SYMBOLS);
  }

  lemma StoredLengths(hist: seq<uint32>, lens: seq<byte>, idx: seq<nat>, t: Tree)
    requires |hist| == SYMBOLS == |lens| && idx == UsedSymbols(hist, SYMBOLS) && |idx| >= 2
    requires Huffman32(InitialForest(hist, SYMBOLS), t)
    requires forall s :: s in Leaves(t) <==> 0 <= s < SYMBOLS && hist[s] > 0
    requires forall s :: 0 <= s < SYMBOLS ==> lens[s] == if s in idx then TreeLength(t, s) else 0
    ensures MergedLengths(hist, lens)
  {
    UsedSymbolsRange(hist, SYMBOLS);
    forall s | 0 <= s < SYMBOLS ensures lens[s] == TreeLength(t, s) {
      if hist[s] > 0 {
        UsedSymbolsAll(hist, SYMBOLS, s);
      }
    }
    assert TreeLengths(lens, t);
  }
}
