/** Bit strings, most significant bit first, and byte strings read as bits followed by
    endless zeros. */
module Bits {
  import opened Numbers

  // ----- numbers as bits -----

  /** The low n bits of v. */
  function ToBits(v: nat, n: nat): (b: seq<bit>)
    ensures |b| == n
  {
    if n == 0 then [] else ToBits(v / 2, n - 1) + [v % 2]
  }

  /** Bit i from the top is the bit of weight 2^(n - 1 - i). */
  lemma {:induction false} ToBitsAt(v: nat, n: nat, i: nat)
    requires i < n
    ensures ToBits(v, n)[i] == v / Pow2(n - 1 - i) % 2
  {
    if i < n - 1 {
      ToBitsAt(v / 2, n - 1, i);
      DivDiv(v, 2, Pow2(n - 2 - i));
    } else {
      assert Pow2(0) == 1;
    }
  }

  function Value(b: seq<bit>): nat {
    if b == [] then 0 else 2 * Value(b[..|b| - 1]) + b[|b| - 1]
  }

  lemma {:induction false} ToBitsSplit(v: nat, a: nat, b: nat)
    ensures ToBits(v, a + b) == ToBits(Shr(v, b), a) + ToBits(v, b)
    decreases b
  {
    if b == 0 {
    } else {
      ToBitsSplit(v / 2, a, b - 1);
      DivDiv(v, 2, Pow2(b - 1));
      assert ToBits(v, a + b) == ToBits(v / 2, a + b - 1) + [v % 2];
    }
  }

  lemma {:induction false} ToBitsMod(v: nat, m: nat, n: nat)
    requires n <= m
    ensures ToBits(v % Pow2(m), n) == ToBits(v, n)
  {
    hide Pow2;
    if n > 0 {
      ModStep(v, m);
      ToBitsMod(v / 2, m - 1, n - 1);
    }
  }

  lemma ModStep(v: nat, m: nat)
    requires m > 0
    ensures v % Pow2(m) / 2 == v / 2 % Pow2(m - 1) && v % Pow2(m) % 2 == v % 2
  {
    DivDiv(v, 2, Pow2(m - 1));
  }

  /** Appending n bits to a buffer by shift and add. */
  lemma ToBitsAppend(v: nat, cnt: nat, w: nat, n: nat)
    requires w < Pow2(n)
    ensures ToBits(v * Pow2(n) + w, cnt + n) == ToBits(v, cnt) + ToBits(w, n)
  {
    var x := v * Pow2(n) + w;
    DivUnique(x, Pow2(n), v, w);
    ToBitsSplit(x, cnt, n);
    ToBitsMod(x, n, n);
  }

  lemma {:induction false} ValueToBits(v: nat, n: nat)
    ensures Value(ToBits(v, n)) == v % Pow2(n)
  {
    if n > 0 {
      ValueToBits(v / 2, n - 1);
      assert ToBits(v, n)[..n - 1] == ToBits(v / 2, n - 1);
      DivDiv(v, 2, Pow2(n - 1));
    }
  }

  lemma ByteValue(v: byte)
    ensures Value(ToBits(v, 8)) == v
  {
    ValueToBits(v, 8);
    Pow2Byte();
  }

  lemma {:induction false} ValueBound(b: seq<bit>)
    ensures Value(b) < Pow2(|b|)
  {
    if b != [] {
      ValueBound(b[..|b| - 1]);
    }
  }

  lemma {:induction false} ToBitsValue(b: seq<bit>)
    ensures ToBits(Value(b), |b|) == b
  {
    if b != [] {
      ToBitsValue(b[..|b| - 1]);
    }
  }

  function Zeros(n: nat): (z: seq<bit>)
    ensures |z| == n
  {
    seq(n, _ => 0)
  }

  lemma {:induction false} ToBitsZero(n: nat)
    ensures ToBits(0, n) == Zeros(n)
  {
    if n > 0 {
      ToBitsZero(n - 1);
    }
  }

  // ----- bytes as bits -----

  function BytesBits(s: seq<byte>): (b: seq<bit>)
    ensures |b| == 8 * |s|
  {
    if s == [] then [] else BytesBits(s[..|s| - 1]) + ToBits(s[|s| - 1], 8)
  }

  lemma BytesBitsAppend(s: seq<byte>, v: byte)
    ensures BytesBits(s + [v]) == BytesBits(s) + ToBits(v, 8)
  {
    hide ToBits;
    assert (s + [v])[..|s|] == s;
  }

  lemma BytesBitsNone()
    ensures BytesBits([]) == []
  {
  }

  lemma {:induction false} BytesBitsInjective(s: seq<byte>, t: seq<byte>)
    requires BytesBits(s) == BytesBits(t)
    ensures s == t
  {
    assert |s| == |t|;
    if s != [] {
      var n := |s| - 1;
      BytesBitsLast(s);
      BytesBitsLast(t);
      BytesBitsInjective(s[..n], t[..n]);
      assert s == s[..n] + [s[n]] && t == t[..n] + [t[n]];
    }
  }

  /** The last byte and the bits before it can be read back. */
  lemma BytesBitsLast(s: seq<byte>)
    requires s != []
    ensures BytesBits(s)[..8 * (|s| - 1)] == BytesBits(s[..|s| - 1])
    ensures Value(BytesBits(s)[8 * (|s| - 1)..]) == s[|s| - 1]
  {
    var n := |s| - 1;
    assert BytesBits(s)[8 * n..] == ToBits(s[n], 8);
    ByteValue(s[n]);
  }

  /** The number of bytes that hold n bits. */
  function ByteCount(n: nat): nat {
    (n + 7) / 8
  }

  /** The value of at most eight bits at the top of a byte. */
  function ByteOf(b: seq<bit>): byte
    requires |b| <= 8
  {
    ValueBound(b + Zeros(8 - |b|));
    Pow2Byte();
    Value(b + Zeros(8 - |b|))
  }

  lemma ByteOfBits(b: seq<bit>)
    requires |b| <= 8
    ensures ToBits(ByteOf(b), 8) == b + Zeros(8 - |b|)
  {
    ToBitsValue(b + Zeros(8 - |b|));
  }

  /** The bits in bytes, the last byte padded with zeros. */
  function Pack(b: seq<bit>): (s: seq<byte>)
    ensures |s| == ByteCount(|b|)
  {
    if b == [] then []
    else
      var n := 8 * ((|b| - 1) / 8);
      Pack(b[..n]) + [ByteOf(b[n..])]
  }

  lemma {:induction false} PackBits(b: seq<bit>)
    ensures BytesBits(Pack(b)) == b + Zeros(8 * ByteCount(|b|) - |b|)
  {
    hide BytesBits, ToBits, ByteOf;
    BytesBitsNone();
    if b != [] {
      var n := 8 * ((|b| - 1) / 8);
      PackBits(b[..n]);
      PackLast(b, n, Pack(b[..n]));
    }
  }

  lemma PackLast(b: seq<bit>, n: nat, front: seq<byte>)
    requires n < |b| <= n + 8 && BytesBits(front) == b[..n]
    ensures BytesBits(front + [ByteOf(b[n..])]) == b + Zeros(n + 8 - |b|)
  {
    hide BytesBits, ToBits, ByteOf;
    ByteOfBits(b[n..]);
    BytesBitsAppend(front, ByteOf(b[n..]));
    assert b == b[..n] + b[n..];
  }

  /** Bytes that hold b and then fewer than eight zeros are Pack(b). */
  lemma PackUnique(s: seq<byte>, b: seq<bit>)
    requires |s| == ByteCount(|b|) && BytesBits(s) == b + Zeros(8 * |s| - |b|)
    ensures s == Pack(b)
  {
    PackBits(b);
    BytesBitsInjective(s, Pack(b));
  }

  // ----- reading past the end -----

  /** Bit i of the bytes followed by endless zeros. */
  function BitAt(s: seq<byte>, i: nat): bit {
    if i < 8 * |s| then BytesBits(s)[i] else 0
  }

  /** The first bit of a byte is its highest. */
  lemma BitAtIs(s: seq<byte>, i: nat)
    ensures BitAt(s, i) == if i / 8 < |s| then s[i / 8] / Pow2(7 - i % 8) % 2 else 0
  {
    hide Pow2, ToBits;
    var k := i / 8;
    if k < |s| {
      BytesBitsAt(s, k);
      ToBitsAt(s[k], 8, i % 8);
      assert BytesBits(s)[8 * k..8 * k + 8][i % 8] == BytesBits(s)[i];
    }
  }

  /** The number formed by the w bits from position pos. */
  function Window(s: seq<byte>, pos: nat, w: nat): nat {
    if w == 0 then 0 else 2 * Window(s, pos, w - 1) + BitAt(s, pos + w - 1)
  }

  lemma {:induction false} WindowBound(s: seq<byte>, pos: nat, w: nat)
    ensures Window(s, pos, w) < Pow2(w)
  {
    if w > 0 {
      WindowBound(s, pos, w - 1);
    }
  }

  lemma {:induction false} WindowSplit(s: seq<byte>, pos: nat, a: nat, b: nat)
    ensures Window(s, pos, a + b) == Window(s, pos, a) * Pow2(b) + Window(s, pos + a, b)
    decreases b
  {
    if b > 0 {
      WindowSplit(s, pos, a, b - 1);
      SplitDouble(Window(s, pos, a), Pow2(b - 1), Window(s, pos + a, b - 1), BitAt(s, pos + a + b - 1));
    }
  }

  lemma SplitDouble(x: nat, p: nat, y: nat, z: nat)
    ensures 2 * (x * p + y) + z == x * (2 * p) + (2 * y + z)
  {
  }

  /** The leading bits of a window, and what is left after them. */
  lemma WindowDivMod(s: seq<byte>, pos: nat, a: nat, b: nat)
    ensures Window(s, pos, a + b) / Pow2(b) == Window(s, pos, a)
    ensures Window(s, pos, a + b) % Pow2(b) == Window(s, pos + a, b)
  {
    WindowSplit(s, pos, a, b);
    WindowBound(s, pos + a, b);
    DivUnique(Window(s, pos, a + b), Pow2(b), Window(s, pos, a), Window(s, pos + a, b));
  }

  /** b stands at position pos of the stream. */
  predicate StandsAt(s: seq<byte>, pos: nat, b: seq<bit>) {
    forall i :: 0 <= i < |b| ==> BitAt(s, pos + i) == b[i]
  }

  lemma {:induction false} WindowOf(s: seq<byte>, pos: nat, b: seq<bit>)
    requires StandsAt(s, pos, b)
    ensures Window(s, pos, |b|) == Value(b)
  {
    if b != [] {
      WindowOf(s, pos, b[..|b| - 1]);
    }
  }

  lemma {:induction false} BytesBitsAt(s: seq<byte>, k: nat)
    requires k < |s|
    ensures BytesBits(s)[8 * k..8 * k + 8] == ToBits(s[k], 8)
  {
    hide ToBits;
    var n := |s| - 1;
    var front := BytesBits(s[..n]);
    assert BytesBits(s) == front + ToBits(s[n], 8);
    if k < n {
      BytesBitsAt(s[..n], k);
      assert (front + ToBits(s[n], 8))[8 * k..8 * k + 8] == front[8 * k..8 * k + 8];
    }
  }

}
