/** Disjoint intervals cannot be longer together than the range that holds them. */
module Spans {
  import opened Numbers

  ghost predicate Disjoint(starts: seq<int>, sizes: seq<int>, i: nat, j: nat)
    requires i < |starts| == |sizes| && j < |starts|
  {
    starts[i] + sizes[i] <= starts[j] || starts[j] + sizes[j] <= starts[i]
  }

  ghost predicate SpansOk(starts: seq<int>, sizes: seq<int>, limit: nat) {
    && |starts| == |sizes|
    && (forall i :: 0 <= i < |starts| ==> 0 <= sizes[i] && 0 <= starts[i] && starts[i] + sizes[i] <= limit)
    && forall i, j :: 0 <= i < j < |starts| && sizes[i] > 0 && sizes[j] > 0 ==> Disjoint(starts, sizes, i, j)
  }

  /** The integers from a up to but excluding b. */
  ghost function Range(a: int, b: int): (r: set<int>)
    requires a <= b
    ensures forall x :: x in r <==> a <= x < b
    ensures |r| == b - a
    decreases b - a
  {
    if a == b then {} else Range(a, b - 1) + {b - 1}
  }

  ghost function Points(starts: seq<int>, sizes: seq<int>, k: nat): set<int>
    requires k <= |starts| == |sizes| && forall i :: 0 <= i < |sizes| ==> 0 <= sizes[i]
  {
    if k == 0 then {}
    else Points(starts, sizes, k - 1) + Range(starts[k - 1], starts[k - 1] + sizes[k - 1])
  }

  lemma {:induction false} PointIn(starts: seq<int>, sizes: seq<int>, k: nat, x: int)
    requires k <= |starts| == |sizes| && forall i :: 0 <= i < |sizes| ==> 0 <= sizes[i]
    requires x in Points(starts, sizes, k)
    ensures exists i :: 0 <= i < k && starts[i] <= x < starts[i] + sizes[i]
  {
    hide Range;
    if k > 0 && x in Points(starts, sizes, k - 1) {
      PointIn(starts, sizes, k - 1, x);
    }
  }

  lemma {:induction false} PointsSize(starts: seq<int>, sizes: seq<int>, k: nat, limit: nat)
    requires SpansOk(starts, sizes, limit) && k <= |starts|
    ensures |Points(starts, sizes, k)| == Sum(sizes, k)
    ensures Points(starts, sizes, k) <= Range(0, limit)
  {
    hide Range, SpansOk;
    if k > 0 {
      PointsSize(starts, sizes, k - 1, limit);
      NextSpanApart(starts, sizes, k, limit);
    }
  }

  lemma PointApart(starts: seq<int>, sizes: seq<int>, k: nat, limit: nat, x: int)
    requires SpansOk(starts, sizes, limit) && 0 < k <= |starts| && sizes[k - 1] > 0
    requires x in Points(starts, sizes, k - 1)
    ensures !(starts[k - 1] <= x < starts[k - 1] + sizes[k - 1])
  {
    hide Points;
    PointIn(starts, sizes, k - 1, x);
    var i :| 0 <= i < k - 1 && starts[i] <= x < starts[i] + sizes[i];
    assert Disjoint(starts, sizes, i, k - 1);
  }

  /** The last span meets none of the points before it. */
  lemma NextSpanApart(starts: seq<int>, sizes: seq<int>, k: nat, limit: nat)
    requires SpansOk(starts, sizes, limit) && 0 < k <= |starts|
    ensures Points(starts, sizes, k - 1) !! Range(starts[k - 1], starts[k - 1] + sizes[k - 1])
    ensures Range(starts[k - 1], starts[k - 1] + sizes[k - 1]) <= Range(0, limit)
    ensures |Points(starts, sizes, k)| == |Points(starts, sizes, k - 1)| + sizes[k - 1]
  {
    hide Range;
    var p, r := Points(starts, sizes, k - 1), Range(starts[k - 1], starts[k - 1] + sizes[k - 1]);
    forall x | x in p && x in r ensures false {
      PointApart(starts, sizes, k, limit, x);
    }
    assert p !! r;
  }

  lemma {:induction false} SubsetSize(a: set<int>, b: set<int>)
    requires a <= b
    ensures |a| <= |b|
  {
    assert b == a + (b - a);
  }

  /** Pairwise disjoint spans inside 0..limit have a total size of at most limit. */
  lemma SpansTotal(starts: seq<int>, sizes: seq<int>, limit: nat)
    requires SpansOk(starts, sizes, limit)
    ensures Total(sizes) <= limit
  {
    PointsSize(starts, sizes, |starts|, limit);
    SubsetSize(Points(starts, sizes, |starts|), Range(0, limit));
  }
}
