/** Output slots of the 32-lane decoder: every chunk gets a slot rounded up to 128 bytes,
    and inside a slot four consecutive bytes of one lane are stored side by side. */
module OutputSlots {
  import opened Numbers

  const LANES: nat := 32
  const BLOCK: nat := 128

  // ----- rounding -----

  /** The largest multiple of d up to x. */
  function Floored(x: nat, d: nat): nat
    requires d > 0
  {
    x - x % d
  }

  /** Clearing the low n bits of an m-bit number. */
  lemma {:induction false} AndHigh(x: nat, n: nat, m: nat)
    requires n <= m && x < Pow2(m)
    ensures Pow2(n) <= Pow2(m) && BitAnd(x, Pow2(m) - Pow2(n)) == Floored(x, Pow2(n))
    decreases n
  {
    hide Pow2, BitAnd, Floored;
    Pow2Mono(n, m);
    if n == 0 {
      Pow2Zero();
      AndAll(x, m);
      ModOne(x, Pow2(n));
    } else {
      Halves(m, n);
      HalfBelow(x, Pow2(m - 1), Pow2(m));
      AndHigh(x / 2, n - 1, m - 1);
      AndHighStep(x, Pow2(m - 1), Pow2(n - 1), Pow2(m), Pow2(n));
    }
  }

  lemma HalfBelow(x: nat, h: nat, p: nat)
    requires p == 2 * h && x < p
    ensures x / 2 < h
  {
  }

  lemma AndAll(x: nat, m: nat)
    requires x < Pow2(m)
    ensures BitAnd(x, Pow2(m) - 1) == x
  {
    hide Pow2, BitAnd;
    AndMask(x, m);
    DivUnique(x, Pow2(m), 0, x);
  }

  lemma ModOne(x: nat, d: nat)
    requires d == 1
    ensures Floored(x, d) == x
  {
  }

  lemma AndHighStep(x: nat, h: nat, k: nat, p: nat, q: nat)
    requires 0 < k <= h && p == 2 * h && q == 2 * k && BitAnd(x / 2, h - k) == Floored(x / 2, k)
    ensures BitAnd(x, p - q) == Floored(x, q)
  {
    hide BitAnd;
    AndEven(x, h - k);
    assert p - q == 2 * (h - k);
    TwiceHigh(x, k);
  }

  lemma TwiceHigh(x: nat, k: nat)
    requires 0 < k
    ensures 2 * (x / 2 - x / 2 % k) == x - x % (2 * k)
  {
    DivDiv(x, 2, k);
    Halve(x, x / 2 % k);
  }

  lemma Halve(x: nat, y: int)
    ensures 2 * (x / 2 - y) == x - (y * 2 + x % 2)
  {
  }

  lemma Pow2Zero()
    ensures Pow2(0) == 1
  {
  }

  lemma Halves(m: nat, n: nat)
    requires m > 0 && n > 0
    ensures Pow2(m) == 2 * Pow2(m - 1) && Pow2(n) == 2 * Pow2(n - 1)
  {
  }

  lemma AndEven(x: nat, y: nat)
    ensures BitAnd(x, 2 * y) == 2 * BitAnd(x / 2, y)
  {
    assert 2 * y / 2 == y && 2 * y % 2 == 0;
    if x == 0 || y == 0 {
      assert BitAnd(x / 2, y) == 0;
    }
  }

  /** (x + 127) & ~127 in 32 bits */
  function RoundUp32(x: uint32): uint32 {
    BitAnd((x + 127) % U32_LIMIT, U32_LIMIT - 128)
  }

  lemma RoundUp32Is(x: uint32)
    ensures RoundUp32(x) == (x + 127) % U32_LIMIT / BLOCK * BLOCK
  {
    var y := (x + 127) % U32_LIMIT;
    assert Pow2(32) == U32_LIMIT && Pow2(7) == BLOCK by { Pow2Values(); }
    AndHigh(y, 7, 32);
  }

  /** The slot holds its chunk exactly when rounding up does not wrap; otherwise the slot
      size is 0. */
  lemma RoundUp32HoldsIff(x: uint32)
    ensures x <= RoundUp32(x) <==> x <= U32_LIMIT - BLOCK
    ensures x <= U32_LIMIT - BLOCK ==> RoundUp32(x) < x + BLOCK
    ensures RoundUp32(x) % BLOCK == 0
    ensures x > U32_LIMIT - BLOCK ==> RoundUp32(x) == 0
  {
    RoundUp32Is(x);
  }

  ghost predicate IsLargest(sizes: seq<uint32>, m: uint32) {
    (forall i :: 0 <= i < |sizes| ==> sizes[i] <= m) && (m == 0 || m in sizes)
  }

  /** new_off[i] = i * slot, a product of uint32_t */
  function SlotOffset(i: nat, slot: uint32): uint32 {
    i * slot % U32_LIMIT
  }

  /** The stored offsets name the slots, which start at multiples of the slot size, exactly
      when the last slot starts below 4 GB. */
  lemma OffsetsExactIff(newOff: seq<uint32>, slot: uint32)
    requires forall i :: 0 <= i < |newOff| ==> newOff[i] == i * slot % 0x1_0000_0000
    ensures (forall i :: 0 <= i < |newOff| ==> newOff[i] == i * slot)
       <==> (|newOff| <= 1 || (|newOff| - 1) * slot < U32_LIMIT)
  {
    hide SlotOffset;
    var last := |newOff| - 1;
    if |newOff| <= 1 || last * slot < U32_LIMIT {
      forall i | 0 <= i < |newOff| ensures newOff[i] == i * slot {
        OffsetExact(i, last, slot);
      }
    } else {
      assert newOff[last] < U32_LIMIT;
    }
  }

  lemma OffsetExact(i: nat, last: nat, slot: uint32)
    requires i == 0 || (i <= last && last * slot < U32_LIMIT)
    ensures SlotOffset(i, slot) == i * slot
  {
    if i > 0 {
      MulMono(i, last, slot);
      SmallMod(i * slot);
    }
  }

  lemma SmallMod(x: nat)
    ensures x % U32_LIMIT == x <==> x < U32_LIMIT
  {
  }

  /** The slot of the largest chunk is the smallest multiple of 128 that holds every chunk,
      unless rounding up wraps: then it is 0. */
  lemma SlotHolds(sizes: seq<uint32>, m: uint32)
    requires IsLargest(sizes, m)
    ensures RoundUp32(m) % 128 == 0
    ensures (forall i :: 0 <= i < |sizes| ==> sizes[i] <= 0x1_0000_0000 - 128) ==>
              && (forall i :: 0 <= i < |sizes| ==> sizes[i] <= RoundUp32(m))
              && (RoundUp32(m) > 0 ==> exists i :: 0 <= i < |sizes| && sizes[i] + 128 > RoundUp32(m))
    ensures (exists i :: 0 <= i < |sizes| && sizes[i] > 0x1_0000_0000 - 128) ==> RoundUp32(m) == 0
  {
    hide RoundUp32;
    RoundUp32HoldsIff(m);
    if m > 0 {
      var i :| 0 <= i < |sizes| && sizes[i] == m;
      assert sizes[i] + 128 > RoundUp32(m);
    }
  }

  /** The slot size for all chunks, which FillExpected can use when no size is one of the
      127 largest, and the 32-bit offset of every slot. */
  method PlanSlots(sizes: seq<uint32>) returns (slot: uint32, newOff: array<uint32>)
    ensures exists m :: IsLargest(sizes, m) && slot == RoundUp32(m)
    ensures slot % 128 == 0
    ensures (forall i :: 0 <= i < |sizes| ==> sizes[i] <= 0x1_0000_0000 - 128) ==>
              && (forall i :: 0 <= i < |sizes| ==> sizes[i] <= slot)
              && (slot > 0 ==> exists i :: 0 <= i < |sizes| && sizes[i] + 128 > slot as int)
    ensures (exists i :: 0 <= i < |sizes| && sizes[i] > 0x1_0000_0000 - 128) ==> slot == 0
    ensures newOff.Length == |sizes|
    ensures forall i :: 0 <= i < |sizes| ==> newOff[i] == i * slot % 0x1_0000_0000
  {
    hide RoundUp32;

    var m: uint32 := 0;
    for i := 0 to |sizes|
      invariant forall j :: 0 <= j < i ==> sizes[j] <= m
      invariant m == 0 || m in sizes
    {
      if sizes[i] > m {
        m := sizes[i];
      }
    }
    SlotHolds(sizes, m);
    slot := RoundUp32(m);
    newOff := new uint32[|sizes|](_ => 0);
    for i := 0 to |sizes|
      invariant forall j :: 0 <= j < i ==> newOff[j] == SlotOffset(j, slot)
    {
      newOff[i] := SlotOffset(i, slot);
    }
  }

  // ----- the permutation -----

  /** Where logical position p = i * 32 + lane goes: (i >> 2) * 128 + lane * 4 + (i & 3). */
  function Place(p: nat): nat {
    var i, lane := p / LANES, p % LANES;
    i / 4 * BLOCK + lane * 4 + i % 4
  }

  /** The logical position stored at q. */
  function Origin(q: nat): nat {
    (q / BLOCK * 4 + q % 4) * LANES + q % BLOCK / 4
  }

  lemma PlaceParts(block: nat, lane: nat, r: nat)
    requires lane < LANES && r < 4
    ensures Place((block * 4 + r) * LANES + lane) == block * BLOCK + lane * 4 + r
    ensures Origin(block * BLOCK + lane * 4 + r) == (block * 4 + r) * LANES + lane
  {
    PlaceOf(block, lane, r);
    OriginOf(block, lane, r);
  }

  lemma PlaceOf(block: nat, lane: nat, r: nat)
    requires lane < LANES && r < 4
    ensures Place((block * 4 + r) * LANES + lane) == block * BLOCK + lane * 4 + r
  {
    var i := block * 4 + r;
    DivUnique(i * LANES + lane, LANES, i, lane);
    DivUnique(i, 4, block, r);
  }

  lemma OriginOf(block: nat, lane: nat, r: nat)
    requires lane < LANES && r < 4
    ensures Origin(block * BLOCK + lane * 4 + r) == (block * 4 + r) * LANES + lane
  {
    var q := block * BLOCK + lane * 4 + r;
    DivUnique(q, BLOCK, block, lane * 4 + r);
    DivUnique(q, 4, block * 32 + lane, r);
    DivUnique(lane * 4 + r, 4, lane, r);
  }

  /** Origin undoes Place, inside the same 128-byte block. */
  lemma OriginOfPlace(p: nat)
    ensures Origin(Place(p)) == p && Place(p) / BLOCK == p / BLOCK
  {
    var i, lane := p / LANES, p % LANES;
    PlaceParts(i / 4, lane, i % 4);
    assert i / 4 == p / BLOCK;
  }

  /** Place undoes Origin, so the permutation leaves no position of a block unused. */
  lemma PlaceOfOrigin(q: nat)
    ensures Place(Origin(q)) == q && Origin(q) / BLOCK == q / BLOCK
  {
    var block, rest := q / BLOCK, q % BLOCK;
    PlaceParts(block, rest / 4, rest % 4);
    assert q % 4 == rest % 4;
    assert Origin(q) == (block * 4 + rest % 4) * LANES + rest / 4;
  }

  /** A chunk's bytes stay inside its rounded size. */
  lemma PlaceFits(p: nat, size: nat, slot: nat)
    requires p < size <= slot && slot % BLOCK == 0
    ensures Place(p) < slot
  {
    hide Place, Origin;
    OriginOfPlace(p);
    var q := Place(p);
    assert q / BLOCK == p / BLOCK;
    assert p / BLOCK < slot / BLOCK;
  }

  // ----- filling the expected output -----

  /** Byte y of a slot: the chunk byte that belongs there, or 0 where there is none. */
  function Spread(src: seq<byte>, y: nat): byte {
    if Origin(y) < |src| then src[Origin(y)] else 0
  }

  function SlotImage(src: seq<byte>, slot: nat): (b: seq<byte>)
    ensures |b| == slot
  {
    seq<byte>(slot, y requires 0 <= y < slot => Spread(src, y))
  }

  method FillSlot(dst: array<byte>, base: nat, slot: nat, src: seq<byte>)
    requires base + slot <= dst.Length && |src| <= slot && slot % BLOCK == 0
    requires forall x :: base <= x < base + slot ==> dst[x] == 0
    modifies dst
    ensures dst[base..base + slot] == SlotImage(src, slot)
    ensures forall x :: 0 <= x < dst.Length && !(base <= x < base + slot) ==> dst[x] == old(dst[x])
  {
    hide Place, Origin;
    for p := 0 to |src|
      invariant forall x :: base <= x < base + slot ==>
                  dst[x] == if Origin(x - base) < p then src[Origin(x - base)] else 0
      invariant forall x :: 0 <= x < dst.Length && !(base <= x < base + slot) ==> dst[x] == old(dst[x])
    {
      PlaceFits(p, |src|, slot);
      OriginOfPlace(p);
      forall y: nat ensures Origin(y) == p ==> y == Place(p) {
        PlaceOfOrigin(y);
      }
      dst[base + Place(p)] := src[p];
    }
  }

  function ChunkBytes(ref: seq<byte>, sizes: seq<uint32>, c: nat): (b: seq<byte>)
    requires c < |sizes| && Sum(sizes, |sizes|) <= |ref|
    ensures |b| == sizes[c]
  {
    SumNat(sizes, 0, c);
    SumNat(sizes, c + 1, |sizes|);
    ref[Sum(sizes, c)..Sum(sizes, c) + sizes[c]]
  }

  /** The images of the first k chunks, slot after slot. */
  function Images(ref: seq<byte>, sizes: seq<uint32>, slot: nat, k: nat): (b: seq<byte>)
    requires k <= |sizes| && Sum(sizes, |sizes|) <= |ref|
    ensures |b| == k * slot
  {
    if k == 0 then []
    else
      Distribute(k - 1, 1, slot);
      Images(ref, sizes, slot, k - 1) + SlotImage(ChunkBytes(ref, sizes, k - 1), slot)
  }

  lemma SlotsApart(a: nat, b: nat, slot: nat)
    requires a < b
    ensures a * slot + slot <= b * slot
  {
    MulMono(a + 1, b, slot);
    Distribute(a, 1, slot);
  }

  /** The images of all chunks before c stand at the front, and the rest is still zero. */
  ghost predicate FilledTo(ref: seq<byte>, sizes: seq<uint32>, slot: nat, exp: seq<byte>, c: nat, base: nat)
    requires c <= |sizes| && Sum(sizes, |sizes|) <= |ref|
  {
    && base <= |exp| && exp[..base] == Images(ref, sizes, slot, c)
    && forall x :: base <= x < |exp| ==> exp[x] == 0
  }

  method FillChunk(ref: seq<byte>, sizes: seq<uint32>, slot: uint32, exp: array<byte>, c: nat, oldOff: nat, base: nat)
    requires Sum(sizes, |sizes|) <= |ref| && slot % BLOCK == 0 && c < |sizes| && sizes[c] <= slot
    requires oldOff == Sum(sizes, c) && base + slot <= exp.Length
    requires FilledTo(ref, sizes, slot, exp[..], c, base)
    modifies exp
    ensures FilledTo(ref, sizes, slot, exp[..], c + 1, base + slot)
  {
    hide SlotImage;
    SumNat(sizes, 0, c);
    SumNat(sizes, c + 1, |sizes|);
    ghost var before := exp[..base];
    assert before == exp[..][..base];
    FillSlot(exp, base, slot, ref[oldOff..oldOff + sizes[c]]);
    assert exp[..base] == before;
    assert exp[..][..base + slot] == exp[..base] + exp[base..base + slot];
  }

  /** The expected buffer: every slot holds the image of its chunk. */
  method FillExpected(ref: seq<byte>, sizes: seq<uint32>, slot: uint32, exp: array<byte>)
    requires Sum(sizes, |sizes|) <= |ref| && slot % BLOCK == 0
    requires forall c :: 0 <= c < |sizes| ==> sizes[c] <= slot
    requires exp.Length == |sizes| * slot && forall x :: 0 <= x < exp.Length ==> exp[x] == 0
    modifies exp
    ensures exp[..] == Images(ref, sizes, slot, |sizes|)
  {
    hide SlotImage, Images, FilledTo, Sum;
    var oldOff: nat := 0;
    NoneFilled(ref, sizes, slot, exp[..]);
    NoneSummed(sizes);
    for c := 0 to |sizes|
      invariant oldOff == Sum(sizes, c) && FilledTo(ref, sizes, slot, exp[..], c, c * slot)
    {
      SlotsApart(c, |sizes|, slot);
      Distribute(c, 1, slot);
      FillChunk(ref, sizes, slot, exp, c, oldOff, c * slot);
      NextSummed(sizes, c);
      oldOff := oldOff + sizes[c];
    }
    AllFilled(ref, sizes, slot, exp[..]);
  }

  lemma NoneSummed(sizes: seq<uint32>)
    ensures Sum(sizes, 0) == 0
  {
  }

  lemma NextSummed(sizes: seq<uint32>, c: nat)
    requires c < |sizes|
    ensures Sum(sizes, c + 1) == Sum(sizes, c) + sizes[c]
  {
  }

  lemma NoneFilled(ref: seq<byte>, sizes: seq<uint32>, slot: nat, exp: seq<byte>)
    requires Sum(sizes, |sizes|) <= |ref| && forall x :: 0 <= x < |exp| ==> exp[x] == 0
    ensures FilledTo(ref, sizes, slot, exp, 0, 0)
  {
  }

  lemma AllFilled(ref: seq<byte>, sizes: seq<uint32>, slot: nat, exp: seq<byte>)
    requires Sum(sizes, |sizes|) <= |ref| && FilledTo(ref, sizes, slot, exp, |sizes|, |exp|)
    ensures exp == Images(ref, sizes, slot, |sizes|)
  {
    assert exp[..|exp|] == exp;
  }

  /** Slots of different chunks do not overlap: slot c of the buffer is the image of chunk
      c alone. */
  lemma {:induction false} SlotAt(ref: seq<byte>, sizes: seq<uint32>, slot: nat, k: nat, c: nat)
    requires c < k <= |sizes| && Sum(sizes, |sizes|) <= |ref|
    ensures c * slot + slot <= k * slot
    ensures Images(ref, sizes, slot, k)[c * slot..c * slot + slot] == SlotImage(ChunkBytes(ref, sizes, c), slot)
  {
    hide SlotImage, ChunkBytes;
    SlotsApart(c, k, slot);
    Distribute(k - 1, 1, slot);
    if c < k - 1 {
      SlotAt(ref, sizes, slot, k - 1, c);
      assert Images(ref, sizes, slot, k)[c * slot..c * slot + slot]
          == Images(ref, sizes, slot, k - 1)[c * slot..c * slot + slot];
    }
  }

  /** Byte y of slot c is the byte of the chunk that belongs there, or 0. */
  lemma BufferByte(ref: seq<byte>, sizes: seq<uint32>, slot: nat, c: nat, y: nat)
    requires c < |sizes| && Sum(sizes, |sizes|) <= |ref| && sizes[c] <= slot && y < slot
    ensures c * slot + y < |Images(ref, sizes, slot, |sizes|)|
    ensures sizes[c] <= Origin(y) ==> Images(ref, sizes, slot, |sizes|)[c * slot + y] == 0
    ensures Origin(y) < sizes[c] ==>
              && 0 <= Sum(sizes, c) + Origin(y) < |ref|
              && Images(ref, sizes, slot, |sizes|)[c * slot + y] == ref[Sum(sizes, c) + Origin(y)]
  {
    hide Origin, Images, Sum;
    SumNat(sizes, 0, c);
    SumNat(sizes, c + 1, |sizes|);
    NoneSummed(sizes);
    NextSummed(sizes, c);
    SlotAt(ref, sizes, slot, |sizes|, c);
    var b := Images(ref, sizes, slot, |sizes|);
    assert b[c * slot..c * slot + slot][y] == b[c * slot + y];
    assert b[c * slot + y] == Spread(ChunkBytes(ref, sizes, c), y);
  }

  /** Reading the buffer back: byte i * 32 + lane of chunk c, which is that many bytes behind
      all chunks before it in ref, stands in slot c at (i >> 2) * 128 + lane * 4 + (i & 3);
      every other byte of the slot is zero. */
  lemma BufferInverts(ref: seq<byte>, sizes: seq<uint32>, slot: nat, c: nat, i: nat, lane: nat)
    requires c < |sizes| && Sum(sizes, |sizes|) <= |ref| && slot % 128 == 0 && sizes[c] <= slot
    requires lane < 32
    ensures var b, y := Images(ref, sizes, slot, |sizes|), i / 4 * 128 + lane * 4 + i % 4;
            if i * 32 + lane < sizes[c] then
              && y < slot && c * slot + y < |b| && 0 <= Sum(sizes, c) + i * 32 + lane < |ref|
              && b[c * slot + y] == ref[Sum(sizes, c) + i * 32 + lane]
            else y < slot ==> c * slot + y < |b| && b[c * slot + y] == 0
  {
    hide Place, Origin, Images, Sum;
    PlaceParts(i / 4, lane, i % 4);
    var y := i / 4 * 128 + lane * 4 + i % 4;
    if i * 32 + lane < sizes[c] {
      PlaceFits(i * 32 + lane, sizes[c], slot);
    }
    if y < slot {
      BufferByte(ref, sizes, slot, c, y);
    }
  }
}
