/** Powers of two, finite sums over sequences, and the C bit operators on
    natural numbers.  Everything else in the project is stated with these. */
module Numbers {

  const U32_LIMIT: nat := 0x1_0000_0000
  const U64_LIMIT: nat := 0x1_0000_0000_0000_0000
  const INT_MAX: nat := 0x7FFF_FFFF

  /** The number of byte values. */
  const SYMBOLS: nat := 256

  type byte = x: int | 0 <= x < 0x100
  type uint16 = x: int | 0 <= x < 0x1_0000
  type uint32 = x: int | 0 <= x < 0x1_0000_0000
  type uint64 = x: int | 0 <= x < 0x1_0000_0000_0000_0000
  type bit = x: int | 0 <= x < 2

  datatype Option<+T> = None | Some(value: T)

  // ----- powers of two -----

  function Pow2(n: nat): (p: nat)
    ensures p >= 1
  {
    if n == 0 then 1 else 2 * Pow2(n - 1)
  }

  lemma {:induction false} Pow2Add(a: nat, b: nat)
    ensures Pow2(a + b) == Pow2(a) * Pow2(b)
  {
    if a > 0 {
      Pow2Add(a - 1, b);
      MulAssoc(2, Pow2(a - 1), Pow2(b));
    }
  }

  lemma Pow2Mono(a: nat, b: nat)
    requires a <= b
    ensures Pow2(a) <= Pow2(b)
    decreases b - a
  {
    if a < b {
      Pow2Mono(a + 1, b);
    }
  }

  lemma Pow2Strict(a: nat, b: nat)
    requires a < b
    ensures 2 * Pow2(a) <= Pow2(b)
  {
    Pow2Mono(a + 1, b);
  }

  lemma Pow2Small()
    ensures Pow2(1) == 2 && Pow2(3) == 8 && Pow2(6) == 0x40 && Pow2(7) == 0x80 && Pow2(8) == 0x100
  {
  }

  lemma Pow2Values()
    ensures Pow2(1) == 2 && Pow2(3) == 8 && Pow2(7) == 0x80 && Pow2(8) == 0x100
    ensures Pow2(10) == 0x400 && Pow2(16) == 0x1_0000
    ensures Pow2(24) == 0x100_0000 && Pow2(30) == 0x4000_0000
    ensures Pow2(31) == 0x8000_0000
    ensures Pow2(32) == U32_LIMIT && Pow2(64) == U64_LIMIT
  {
    hide Pow2;
    Pow2Small();
    Pow2Add(3, 7);
    Pow2Add(8, 8);
    Pow2Add(16, 8);
    Pow2Add(24, 6);
    Pow2Add(24, 7);
    Pow2Add(16, 16);
    Pow2Add(32, 32);
  }

  lemma Pow2Byte()
    ensures Pow2(8) == 0x100
  {
    Pow2Small();
  }

  /** The C shift to the right. */
  function Shr(v: nat, n: nat): nat {
    DivNat(v, Pow2(n));
    v / Pow2(n)
  }

  lemma DivNat(x: nat, d: nat)
    requires 0 < d
    ensures 0 <= x / d <= x
  {
    assert x == (x / d) * d + x % d;
    if x / d < 0 {
      assert (-(x / d)) * d >= d by { MulMono(1, -(x / d), d); }
    }
    if x < x / d {
      MulMono(1, d, x / d);
    }
  }

  // ----- multiplication and division facts the solver needs spelled out -----

  lemma MulAssoc(a: int, b: int, c: int)
    ensures a * (b * c) == (a * b) * c
  {
  }

  lemma Distribute(a: int, b: int, c: int)
    ensures (a + b) * c == a * c + b * c
  {
  }

  lemma MulMono(a: nat, b: nat, c: nat)
    requires a <= b
    ensures a * c <= b * c
  {
  }

  lemma MulCancel(a: nat, b: nat, c: nat)
    requires 0 < c && a * c < b * c
    ensures a < b
  {
    if b <= a {
      MulMono(b, a, c);
    }
  }

  /** The quotient and remainder are the only q and r with x == q * d + r. */
  lemma DivUnique(x: int, d: int, q: int, r: int)
    requires 0 < d && 0 <= r < d && x == q * d + r
    ensures x / d == q && x % d == r
  {
    var q', r' := x / d, x % d;
    assert x == q' * d + r';
    if q' > q {
      assert (q' - q) * d >= d by { MulMono(1, q' - q, d); }
    } else if q' < q {
      assert (q - q') * d >= d by { MulMono(1, q - q', d); }
    }
  }

  lemma DivDiv(x: nat, a: nat, b: nat)
    requires 0 < a && 0 < b
    ensures 0 < a * b && (x / a) / b == x / (a * b)
    ensures x % (a * b) == (x / a % b) * a + x % a
  {
    assert 0 < a * b by { MulMono(1, a, b); }
    var q := x / a / b;
    var r := (x / a % b) * a + x % a;
    assert x / a == q * b + x / a % b;
    assert x == (x / a) * a + x % a;
    assert x == q * (a * b) + r by {
      assert (q * b + x / a % b) * a == q * b * a + (x / a % b) * a;
      MulAssoc(q, b, a);
      assert b * a == a * b;
    }
    assert r < a * b by {
      MulMono(x / a % b, b - 1, a);
      assert (b - 1) * a == a * b - a;
    }
    DivUnique(x, a * b, q, r);
  }

  /** i / d == q exactly when i lies in the d numbers that start at q * d. */
  lemma SpanOf(i: nat, d: nat, q: nat)
    requires 0 < d
    ensures i / d == q <==> q * d <= i < q * d + d
  {
    if q * d <= i < q * d + d {
      DivUnique(i, d, q, i - q * d);
    }
    assert i == (i / d) * d + i % d;
  }

  // ----- sums -----

  function Sum(q: seq<int>, k: nat): int
    requires k <= |q|
  {
    if k == 0 then 0 else Sum(q, k - 1) + q[k - 1]
  }

  function Total(q: seq<int>): int {
    Sum(q, |q|)
  }

  lemma {:induction false} SumUpdate(q: seq<int>, k: nat, i: nat, v: int)
    requires k <= |q| && i < |q|
    ensures Sum(q[i := v], k) == Sum(q, k) + (if i < k then v - q[i] else 0)
  {
    if k > 0 {
      SumUpdate(q, k - 1, i, v);
    }
  }

  lemma {:induction false} SumEqual(a: seq<int>, b: seq<int>, k: nat)
    requires k <= |a| && k <= |b|
    requires forall i :: 0 <= i < k ==> a[i] == b[i]
    ensures Sum(a, k) == Sum(b, k)
  {
    if k > 0 {
      SumEqual(a, b, k - 1);
    }
  }

  lemma {:induction false} SumAdd(a: seq<int>, b: seq<int>, c: seq<int>, k: nat)
    requires k <= |a| && k <= |b| && k <= |c|
    requires forall i :: 0 <= i < k ==> c[i] == a[i] + b[i]
    ensures Sum(c, k) == Sum(a, k) + Sum(b, k)
  {
    if k > 0 {
      SumAdd(a, b, c, k - 1);
    }
  }

  lemma {:induction false} SumLe(a: seq<int>, b: seq<int>, k: nat)
    requires k <= |a| && k <= |b|
    requires forall i :: 0 <= i < k ==> a[i] <= b[i]
    ensures Sum(a, k) <= Sum(b, k)
  {
    if k > 0 {
      SumLe(a, b, k - 1);
    }
  }

  lemma {:induction false} SumConst(a: seq<int>, k: nat, c: int)
    requires k <= |a|
    requires forall i :: 0 <= i < k ==> a[i] == c
    ensures Sum(a, k) == k * c
  {
    if k > 0 {
      SumConst(a, k - 1, c);
    }
  }

  lemma {:induction false} SumNat(a: seq<int>, j: nat, k: nat)
    requires j <= k <= |a|
    requires forall i :: j <= i < k ==> 0 <= a[i]
    ensures Sum(a, j) <= Sum(a, k)
    decreases k
  {
    if j < k {
      SumNat(a, j, k - 1);
    }
  }

  lemma SumItem(a: seq<int>, k: nat, i: nat)
    requires i < k <= |a|
    requires forall j :: 0 <= j < k ==> 0 <= a[j]
    ensures a[i] <= Sum(a, k)
  {
    SumNat(a, 0, i);
    SumNat(a, i + 1, k);
  }

  /** Two different entries of a sum of natural numbers. */
  lemma SumTwoItems(a: seq<int>, k: nat, i: nat, j: nat)
    requires i < k <= |a| && j < k && i != j
    requires forall x :: 0 <= x < k ==> 0 <= a[x]
    ensures a[i] + a[j] <= Sum(a, k)
  {
    SumUpdate(a, k, i, 0);
    SumItem(a[i := 0], k, j);
  }

  lemma {:induction false} SumSlice(a: seq<int>, m: nat, k: nat)
    requires k <= m <= |a|
    ensures Sum(a[..m], k) == Sum(a, k)
  {
    SumEqual(a[..m], a, k);
  }

  lemma {:induction false} SumConcat(a: seq<int>, b: seq<int>, k: nat)
    requires k <= |b|
    ensures Sum(a + b, |a| + k) == Total(a) + Sum(b, k)
  {
    if k == 0 {
      SumEqual(a + b, a, |a|);
    } else {
      SumConcat(a, b, k - 1);
    }
  }

  // ----- the cast from size_t to int -----

  /** The C conversion to a 32-bit int: modulo 2^32, the upper half negative. */
  function CInt(x: nat): (r: int)
    ensures x <= INT_MAX ==> r == x
    ensures INT_MAX < x < U32_LIMIT ==> r < 0
    ensures r == -1 <==> x % U32_LIMIT == U32_LIMIT - 1
  {
    var y := x % U32_LIMIT;
    if y <= INT_MAX then y else y - U32_LIMIT
  }

  /** The int that is congruent to x modulo 2^32. */
  lemma CIntIs(x: nat)
    ensures -0x8000_0000 <= CInt(x) < 0x8000_0000 && (x - CInt(x)) % 0x1_0000_0000 == 0
  {
    assert x == x / U32_LIMIT * U32_LIMIT + x % U32_LIMIT;
  }

  /** A size that a small int came from agrees with it modulo 2^32. */
  lemma CIntSmall(x: nat, limit: nat)
    requires limit <= INT_MAX
    ensures 0 <= CInt(x) < limit <==> x % U32_LIMIT < limit
    ensures x % U32_LIMIT < limit ==> CInt(x) == x % U32_LIMIT <= x
  {
  }

  // ----- counting -----

  /** How often x occurs among the first k entries. */
  function CountOf(q: seq<int>, x: int, k: nat): (n: nat)
    requires k <= |q|
    ensures n <= k
  {
    if k == 0 then 0 else CountOf(q, x, k - 1) + if q[k - 1] == x then 1 else 0
  }

  lemma {:induction false} CountOfIs(q: seq<int>, x: int, k: nat)
    requires k <= |q|
    ensures CountOf(q, x, k) == |set i | 0 <= i < k && q[i] == x|
  {
    if k > 0 {
      CountOfIs(q, x, k - 1);
      var a, b := set i | 0 <= i < k - 1 && q[i] == x, set i | 0 <= i < k && q[i] == x;
      assert b == if q[k - 1] == x then a + {k - 1} else a;
    }
  }

  // ----- the C operators & and | on unsigned operands -----

  function BitAnd(a: nat, b: nat): (r: nat)
    ensures r <= a && r <= b
  {
    if a == 0 || b == 0 then 0
    else 2 * BitAnd(a / 2, b / 2) + (a % 2) * (b % 2)
  }

  function BitOr(a: nat, b: nat): (r: nat)
    decreases a + b
  {
    if a == 0 && b == 0 then 0
    else 2 * BitOr(a / 2, b / 2) + (if a % 2 + b % 2 == 0 then 0 else 1)
  }

  /** Masking with 2^n - 1 keeps the low n bits. */
  lemma {:induction false} AndMask(a: nat, n: nat)
    ensures BitAnd(a, Pow2(n) - 1) == a % Pow2(n)
    decreases n
  {
    if n == 0 {
    } else if a == 0 {
    } else {
      var h := Pow2(n - 1);
      AndMask(a / 2, n - 1);
      assert (2 * h - 1) / 2 == h - 1 && (2 * h - 1) % 2 == 1;
      DivDiv(a, 2, h);
    }
  }

  lemma OrZero(b: nat)
    ensures BitOr(0, b) == b && BitOr(b, 0) == b
  {
  }

  /** A value shifted left by n and a value below 2^n share no bit, so | adds. */
  lemma {:induction false} OrAdds(a: nat, b: nat, n: nat)
    requires b < Pow2(n)
    ensures BitOr(a * Pow2(n), b) == a * Pow2(n) + b
    decreases n
  {
    if n == 0 {
      OrZero(a);
    } else {
      var x := a * Pow2(n - 1);
      assert a * Pow2(n) == 2 * x;
      OrAdds(a, b / 2, n - 1);
      assert (2 * x) / 2 == x && (2 * x) % 2 == 0;
      if x == 0 && b == 0 {
      } else {
        assert BitOr(2 * x, b) == 2 * BitOr(x, b / 2) + (if b % 2 == 0 then 0 else 1);
      }
    }
  }
}
