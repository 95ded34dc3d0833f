/** The exact input size from which some input has an undefined shift. */
module DepthBound {
  import opened Numbers
  import opened HuffmanTree
  import opened CodeLengths
  import opened HeightLimit
  import opened Histogram
  import opened Pipeline
  import opened BuilderBounds

  // ----- a text with given counts -----

  function Repeated(b: byte, n: nat): (s: seq<byte>)
    ensures |s| == n && forall i :: 0 <= i < n ==> s[i] == b
  {
    seq<byte>(n, i requires 0 <= i < n => b)
  }

  /** Every symbol below k as often as it counts. */
  function TextOf(hist: seq<nat>, k: nat): seq<byte>
    requires k <= |hist| == SYMBOLS
  {
    if k == 0 then [] else TextOf(hist, k - 1) + Repeated(k - 1, hist[k - 1])
  }

  lemma {:induction false} CountRepeated(b: byte, n: nat, x: nat, k: nat)
    requires k <= n
    ensures CountOf(Repeated(b, n), x, k) == if x == b then k else 0
  {
    if k > 0 {
      CountRepeated(b, n, x, k - 1);
    }
  }

  lemma {:induction false} CountConcat(s: seq<byte>, t: seq<byte>, x: nat, k: nat)
    requires k <= |t|
    ensures CountOf(s + t, x, |s| + k) == CountOf(s, x, |s|) + CountOf(t, x, k)
  {
    if k > 0 {
      CountConcat(s, t, x, k - 1);
    } else {
      CountPrefix(s, t, x, |s|);
    }
  }

  lemma {:induction false} CountPrefix(s: seq<byte>, t: seq<byte>, x: nat, k: nat)
    requires k <= |s|
    ensures CountOf(s + t, x, k) == CountOf(s, x, k)
  {
    if k > 0 {
      CountPrefix(s, t, x, k - 1);
    }
  }

  lemma {:induction false} TextCounts(hist: seq<nat>, k: nat, x: nat)
    requires k <= |hist| == SYMBOLS && x < SYMBOLS
    ensures CountOf(TextOf(hist, k), x, |TextOf(hist, k)|) == if x < k then hist[x] else 0
  {
    hide CountOf;
    if k > 0 {
      TextCounts(hist, k - 1, x);
      CountRepeated(k - 1, hist[k - 1], x, hist[k - 1]);
      CountConcat(TextOf(hist, k - 1), Repeated(k - 1, hist[k - 1]), x, hist[k - 1]);
    } else {
      assert CountOf(TextOf(hist, 0), x, 0) == 0 by { NothingCounted(TextOf(hist, 0), x); }
    }
  }

  lemma NothingCounted(s: seq<byte>, x: nat)
    ensures CountOf(s, x, 0) == 0
  {
  }

  lemma TextHas(hist: seq<nat>) returns (src: seq<byte>)
    requires |hist| == SYMBOLS
    ensures Counts(src, |src|) == hist && |src| == Total(hist)
  {
    hide CountOf, TextOf;
    src := TextOf(hist, SYMBOLS);
    forall x | 0 <= x < SYMBOLS ensures Counts(src, |src|)[x] == hist[x] {
      TextCounts(hist, SYMBOLS, x);
    }
    assert Counts(src, |src|) == hist;
    CountsTotal(src, |src|);
  }

  // ----- the threshold -----

  /** From 3,524,578 bytes on some input of that size makes a code of 31 bits. */
  lemma LongShiftOccurs(n: nat) returns (src: seq<byte>)
    requires DEPTH_SAFE <= n < U32_LIMIT
    ensures |src| == n && !ShiftsDefined(src)
  {
    hide Fib, MergedLengths, LadderCounts, Counts, Sum;
    FibValues();
    var extra := n - DEPTH_SAFE;
    var lens := LongCodeOccurs(31, extra);
    src := TextHas(Padded(LadderCounts(31, extra)));
    assert !Bounded(lens, SCALE);
  }

  /** Every input of n bytes has its shifts defined exactly when n is below 3,524,578. */
  lemma ShiftsDefinedIff(n: nat)
    requires n < U32_LIMIT
    ensures (forall src: seq<byte> :: |src| == n ==> ShiftsDefined(src)) <==> n < 3524578
  {
    hide ShiftsDefined;
    if n < DEPTH_SAFE {
      forall src: seq<byte> | |src| == n ensures ShiftsDefined(src) {
        SmallInputShifts(src);
      }
    } else {
      var src := LongShiftOccurs(n);
    }
  }
}
