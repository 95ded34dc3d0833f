/** The bit writer: a 64-bit buffer in front of a byte array.  Bits already emitted stay
    behind in the high part of the buffer; only the low bitCount bits still count. */
module BitWriting {
  import opened Numbers
  import opened Bits

  /** The C shift to the left on uint64_t. */
  function Shl64(v: uint64, n: nat): uint64 {
    v * Pow2(n) % U64_LIMIT
  }

  // ----- the buffer arithmetic -----

  lemma ShlKeepsLow(v: uint64, n: nat)
    requires n <= 64
    ensures Shl64(v, n) == v % Pow2(64 - n) * Pow2(n)
  {
    Pow2Values();
    Pow2Add(64 - n, n);
    ProductMod(v, Pow2(64 - n), Pow2(n));
  }

  lemma ProductMod(v: nat, a: nat, b: nat)
    requires 0 < a && 0 < b
    ensures 0 < a * b && v * b % (a * b) == v % a * b
  {
    var q, x := v / a, v % a;
    Distribute(q * a, x, b);
    MulAssoc(q, a, b);
    MulMono(x + 1, a, b);
    Distribute(x, 1, b);
    DivUnique(v * b, a * b, q, x * b);
  }

  lemma AppendWord(v: uint64, cnt: nat, w: uint32, n: nat)
    requires cnt + n <= 64
    ensures BitOr(Shl64(v, n), BitAnd(w, Pow2(n) - 1)) < U64_LIMIT
    ensures ToBits(BitOr(Shl64(v, n), BitAnd(w, Pow2(n) - 1)), cnt + n) == ToBits(v, cnt) + ToBits(w, n)
  {
    hide Pow2, BitOr, BitAnd, Shl64, ToBits;
    var p, q := Pow2(64 - n), Pow2(n);
    var x, low := v % p, w % q;
    ShlKeepsLow(v, n);
    AndMask(w, n);
    OrAdds(x, low, n);
    ToBitsAppend(x, cnt, low, n);
    ToBitsMod(v, 64 - n, cnt);
    ToBitsMod(w, n, n);
    BelowProduct(x, p, low, q);
    assert p * q == U64_LIMIT by { Pow2Add(64 - n, n); Pow2Values(); }
  }

  lemma BelowProduct(x: nat, a: nat, y: nat, b: nat)
    requires x < a && y < b
    ensures x * b + y < a * b
  {
    MulMono(x + 1, a, b);
    Distribute(x, 1, b);
  }

  lemma LowByte(x: nat)
    ensures BitAnd(x, 0xFF) == x % 0x100 && ToBits(BitAnd(x, 0xFF), 8) == ToBits(x, 8)
  {
    Pow2Byte();
    AndMask(x, 8);
    ToBitsMod(x, 8, 8);
  }

  /** The oldest eight of cnt buffered bits. */
  function TopByte(v: uint64, cnt: nat): byte
    requires cnt >= 8
  {
    BitAnd(Shr(v, cnt - 8), 0xFF)
  }

  lemma TopByteBits(v: uint64, cnt: nat)
    requires cnt >= 8
    ensures ToBits(TopByte(v, cnt), 8) + ToBits(v, cnt - 8) == ToBits(v, cnt)
  {
    LowByte(Shr(v, cnt - 8));
    ToBitsSplit(v, 8, cnt - 8);
  }

  /** The last cnt buffered bits, padded with zeros. */
  function PaddedByte(v: uint64, cnt: nat): byte
    requires cnt <= 8
  {
    BitAnd(Shl64(v, 8 - cnt), 0xFF)
  }

  lemma PaddedByteBits(v: uint64, cnt: nat)
    requires cnt <= 8
    ensures ToBits(PaddedByte(v, cnt), 8) == ToBits(v, cnt) + Zeros(8 - cnt)
  {
    var k := 8 - cnt;
    var x := v % Pow2(64 - k);
    ShlKeepsLow(v, k);
    LowByte(Shl64(v, k));
    ToBitsAppend(x, cnt, 0, k);
    ToBitsMod(v, 64 - k, cnt);
    ToBitsZero(k);
  }

  // ----- the writer -----

  class BitWriter {
    const buf: array<byte>
    const base: nat
    const capacity: nat
    var bytePos: nat
    var bitBuf: uint64
    var bitCount: nat

    ghost predicate Valid()
      reads this
    {
      base + capacity <= buf.Length && bytePos <= capacity && bitCount <= 64
    }

    /** Everything written so far: the bytes, then the bits still buffered. */
    ghost function Written(): seq<bit>
      reads this, buf
      requires Valid()
    {
      BytesBits(buf[base..base + bytePos]) + ToBits(bitBuf, bitCount)
    }

    constructor (buf: array<byte>, base: nat, capacity: nat)
      requires base + capacity <= buf.Length
      ensures Valid() && Written() == [] && bytePos == 0 && bitCount == 0
      ensures this.buf == buf && this.base == base && this.capacity == capacity
    {
      this.buf, this.base, this.capacity := buf, base, capacity;
      bytePos, bitBuf, bitCount := 0, 0, 0;
    }

    /** Appends one byte of the buffered bits, the oldest ones. */
    method Emit()
      requires Valid() && 8 <= bitCount && bytePos < capacity
      modifies this`bytePos, this`bitCount, buf
      ensures Valid() && Written() == old(Written())
      ensures bitCount == old(bitCount) - 8 && bytePos == old(bytePos) + 1
      ensures forall i :: 0 <= i < buf.Length && i != base + old(bytePos) ==> buf[i] == old(buf[i])
    {
      hide TopByte, ToBits, BytesBits;
      TopByteBits(bitBuf, bitCount);
      var b := TopByte(bitBuf, bitCount);
      bitCount := bitCount - 8;
      PutByte(b);
    }

    method PutByte(b: byte)
      requires Valid() && bytePos < capacity
      modifies this`bytePos, buf
      ensures Valid() && bytePos == old(bytePos) + 1
      ensures BytesBits(buf[base..base + bytePos])
           == BytesBits(old(buf[base..base + bytePos])) + ToBits(b, 8)
      ensures forall i :: 0 <= i < buf.Length && i != base + old(bytePos) ==> buf[i] == old(buf[i])
    {
      ghost var was := buf[base..base + bytePos];
      buf[base + bytePos] := b;
      bytePos := bytePos + 1;
      assert buf[base..base + bytePos] == was + [b];
      BytesBitsAppend(was, b);
    }

    /** Moves n bits into the buffer. */
    method Buffer(bits: uint32, n: nat)
      requires Valid() && bitCount + n <= 64
      modifies this`bitBuf, this`bitCount
      ensures Valid() && bitCount == old(bitCount) + n
      ensures Written() == old(Written()) + ToBits(bits, n)
    {
      AppendWord(bitBuf, bitCount, bits, n);
      bitBuf := BitOr(Shl64(bitBuf, n), BitAnd(bits, Pow2(n) - 1));
      bitCount := bitCount + n;
    }

    /** Emits bytes until fewer than eight bits are buffered. */
    method Drain() returns (r: int)
      requires Valid()
      modifies this`bytePos, this`bitCount, buf
      ensures Valid()
      ensures r == if old(bytePos) + old(bitCount) / 8 <= capacity then 0 else -1
      ensures r == 0 ==> Written() == old(Written())
      ensures r == 0 ==> bitCount == old(bitCount) % 8 && bytePos == old(bytePos) + old(bitCount) / 8
      ensures forall i :: 0 <= i < buf.Length && !(base <= i < base + capacity) ==> buf[i] == old(buf[i])
    {
      while bitCount >= 8
        invariant Valid() && Written() == old(Written())
        invariant bitCount + 8 * (bytePos - old(bytePos)) == old(bitCount) && bytePos >= old(bytePos)
        invariant forall i :: 0 <= i < buf.Length && !(base <= i < base + capacity) ==> buf[i] == old(buf[i])
      {
        if bytePos >= capacity {
          return -1;
        }
        Emit();
      }
      return 0;
    }

    /** bw_write: appends the low n bits of bits, or fails with -1 when the buffer has no
        room for them or the array has none for the whole bytes. */
    method Write(bits: uint32, n: nat) returns (r: int)
      requires Valid() && n < 32
      modifies this, buf
      ensures Valid()
      ensures r == if n == 0 || (old(bitCount) + n <= 64 && old(bytePos) + (old(bitCount) + n) / 8 <= capacity)
                   then 0 else -1
      ensures r == 0 ==> Written() == old(Written()) + ToBits(bits, n)
      ensures r == 0 && n > 0 ==> bitCount == (old(bitCount) + n) % 8
                                  && bytePos == old(bytePos) + (old(bitCount) + n) / 8
      ensures n == 0 ==> bitCount == old(bitCount) && bytePos == old(bytePos)
      ensures forall i :: 0 <= i < buf.Length && !(base <= i < base + capacity) ==> buf[i] == old(buf[i])
    {
      if n == 0 {
        return 0;
      }
      if bitCount + n > 64 {
        return -1;
      }
      Buffer(bits, n);
      r := Drain();
    }

    /** bw_flush: pads the buffered bits with zeros to a whole byte. */
    method Flush() returns (r: int)
      requires Valid() && bitCount < 8
      modifies this, buf
      ensures Valid()
      ensures r == if old(bitCount) > 0 && old(bytePos) >= capacity then -1 else 0
      ensures r == 0 ==> bitCount == 0
      ensures r == 0 && old(bitCount) == 0 ==> bytePos == old(bytePos) && Written() == old(Written())
      ensures r == 0 && old(bitCount) > 0 ==>
                bytePos == old(bytePos) + 1 && Written() == old(Written()) + Zeros(8 - old(bitCount))
      ensures forall i :: 0 <= i < buf.Length && !(base <= i < base + capacity) ==> buf[i] == old(buf[i])
    {
      if bitCount > 0 {
        if bytePos >= capacity {
          return -1;
        }
        PaddedByteBits(bitBuf, bitCount);
        PutByte(PaddedByte(bitBuf, bitCount));
        bitCount := 0;
      }
      return 0;
    }
  }
}
