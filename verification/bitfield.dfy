/**
 Single-bit and multi-bit register fields: `mpu6050_write_bit`,
 `mpu6050_read_bit`, `mpu6050_write_bits`, `mpu6050_read_bits`, the memory
 bank selector, and the setters built on them. A field is named by its
 highest bit `bitStart` and its `length`; it occupies bits
 `bitStart - length + 1 .. bitStart`.
 */
module BitField {
  import opened Bytes
  import opened Registers

  /** The field lies inside one byte (the shift amount is not negative). */
  predicate FieldInByte(bitStart: Byte, length: Byte)
  {
    bitStart <= 7 && length <= bitStart + 1
  }

  /** The lowest bit of the field: `bitStart - length + 1`. */
  function LowBit(bitStart: Byte, length: Byte): Byte
    requires FieldInByte(bitStart, length)
  {
    bitStart - length + 1
  }

  predicate InField(k: Byte, bitStart: Byte, length: Byte)
    requires FieldInByte(bitStart, length)
  {
    LowBit(bitStart, length) <= k <= bitStart
  }

  /** Outside the field, `b` has the bits of `prev`. */
  ghost predicate OutsideKept(b: Byte, prev: Byte, bitStart: Byte, length: Byte)
    requires FieldInByte(bitStart, length)
  {
    forall k: Byte :: k < 8 && !InField(k, bitStart, length) ==> (BitOf(b, k) <==> BitOf(prev, k))
  }

  /** The field of `b` holds the low `length` bits of `data`. */
  ghost predicate FieldHolds(b: Byte, data: Byte, bitStart: Byte, length: Byte)
    requires FieldInByte(bitStart, length)
  {
    forall k: Byte :: k < 8 && InField(k, bitStart, length) ==>
      (BitOf(b, k) <==> BitOf(data, k - LowBit(bitStart, length)))
  }

  /** `r` is the field of `b` moved down to bit 0, with zeros above it. */
  ghost predicate RightAligned(r: Byte, b: Byte, bitStart: Byte, length: Byte)
    requires FieldInByte(bitStart, length)
  {
    && (forall k: Byte :: k < length ==> (BitOf(r, k) <==> BitOf(b, k + LowBit(bitStart, length))))
    && (forall k: Byte :: length <= k < 8 ==> !BitOf(r, k))
  }

  /** `r` is the low `length` bits of `d`, with zeros above them. */
  ghost predicate LowPart(r: Byte, d: Byte, length: Byte)
    requires length <= 8
  {
    && (forall k: Byte :: k < length ==> (BitOf(r, k) <==> BitOf(d, k)))
    && (forall k: Byte :: length <= k < 8 ==> !BitOf(r, k))
  }

  /** `1 << bit`, the mask of one bit. */
  function BitMask(bit: Byte): (m: Byte)
    requires bit < 8
    ensures forall k: Byte :: k < 8 ==> (BitOf(m, k) <==> k == bit)
  {
    (1 as Byte) << bit
  }

  /** The byte-level effect of `mpu6050_write_bit` on the value read. */
  function WriteBitByte(prev: Byte, bit: Byte, data: bool): (b: Byte)
    requires bit < 8
    ensures BitOf(b, bit) <==> data
    ensures forall k: Byte :: k < 8 && k != bit ==> (BitOf(b, k) <==> BitOf(prev, k))
  {
    WriteBitByteBits(prev, bit, data);
    if !data then prev & !BitMask(bit) else prev | BitMask(bit)
  }

  lemma WriteBitByteBits(prev: Byte, bit: Byte, data: bool)
    requires bit < 8
    ensures forall k: Byte :: k < 8 ==>
      (BitOf(if !data then prev & !BitMask(bit) else prev | BitMask(bit), k) <==>
       if k == bit then data else BitOf(prev, k))
  {
    forall k: Byte | k < 8
      ensures BitOf(if !data then prev & !BitMask(bit) else prev | BitMask(bit), k) <==>
              if k == bit then data else BitOf(prev, k)
    {
      WriteBitBit(prev, bit, data, k);
    }
  }

  /** One bit of `mpu6050_write_bit`'s result. */
  lemma WriteBitBit(prev: Byte, bit: Byte, data: bool, k: Byte)
    requires bit < 8 && k < 8
    ensures BitOf(if !data then prev & !((1 as Byte) << bit) else prev | ((1 as Byte) << bit), k) <==>
            if k == bit then data else BitOf(prev, k)
  {
  }

  /** The byte-level result of `mpu6050_read_bit`: `byte & (1 << bit)`. */
  function ReadBitByte(b: Byte, bit: Byte): (r: Byte)
    requires bit < 8
    ensures BitOf(r, bit) <==> BitOf(b, bit)
    ensures forall k: Byte :: k < 8 && k != bit ==> !BitOf(r, k)
    ensures r != 0 <==> BitOf(b, bit)
  {
    b & BitMask(bit)
  }

  /** `(uint8_t)(((1 << length) - 1) << (bitStart - length + 1))` */
  function FieldMask(bitStart: Byte, length: Byte): (m: Byte)
    requires FieldInByte(bitStart, length)
    ensures forall k: Byte :: k < 8 ==> (BitOf(m, k) <==> InField(k, bitStart, length))
  {
    (((1 as Byte) << length) - 1) << LowBit(bitStart, length)
  }

  /**
   The byte-level effect of `mpu6050_write_bits`: the field receives the low
   `length` bits of `data`, every other bit keeps its prev value.
   */
  function WriteBitsByte(prev: Byte, bitStart: Byte, length: Byte, data: Byte): (b: Byte)
    requires FieldInByte(bitStart, length)
    ensures OutsideKept(b, prev, bitStart, length)
    ensures FieldHolds(b, data, bitStart, length)
  {
    var mask := FieldMask(bitStart, length);
    var shifted := (data << LowBit(bitStart, length)) & mask;
    WriteBitsKeepsOutside(prev, mask, shifted, data, bitStart, length);
    WriteBitsFillsField(prev, mask, shifted, data, bitStart, length);
    (prev & !mask) | shifted
  }

  /** Outside the mask the merged byte keeps the bits of `prev`. */
  lemma WriteBitsKeepsOutside(prev: Byte, mask: Byte, shifted: Byte, data: Byte, bitStart: Byte, length: Byte)
    requires FieldInByte(bitStart, length)
    requires mask == FieldMask(bitStart, length)
    requires shifted == (data << LowBit(bitStart, length)) & mask
    ensures OutsideKept((prev & !mask) | shifted, prev, bitStart, length)
  {
    forall k: Byte | k < 8 && !InField(k, bitStart, length)
      ensures BitOf((prev & !mask) | shifted, k) <==> BitOf(prev, k)
    {
      WriteBitsBit(prev, mask, shifted, data, LowBit(bitStart, length), k, false);
    }
  }

  /** Inside the mask the merged byte holds the shifted data. */
  lemma WriteBitsFillsField(prev: Byte, mask: Byte, shifted: Byte, data: Byte, bitStart: Byte, length: Byte)
    requires FieldInByte(bitStart, length)
    requires mask == FieldMask(bitStart, length)
    requires shifted == (data << LowBit(bitStart, length)) & mask
    ensures FieldHolds((prev & !mask) | shifted, data, bitStart, length)
  {
    forall k: Byte | k < 8 && InField(k, bitStart, length)
      ensures BitOf((prev & !mask) | shifted, k) <==> BitOf(data, k - LowBit(bitStart, length))
    {
      WriteBitsBit(prev, mask, shifted, data, LowBit(bitStart, length), k, true);
    }
  }

  /** One bit of the merged byte: from the shifted data inside the mask, from `prev` outside it. */
  lemma WriteBitsBit(prev: Byte, mask: Byte, shifted: Byte, data: Byte, s: Byte, k: Byte, inField: bool)
    requires k < 8 && s <= 8
    requires BitOf(mask, k) <==> inField
    requires inField ==> s <= k
    requires shifted == (data << s) & mask
    ensures BitOf((prev & !mask) | shifted, k) <==> if inField then BitOf(data, k - s) else BitOf(prev, k)
  {
  }

  /** The byte-level result of `mpu6050_read_bits`: the field, right-aligned. */
  function ReadBitsByte(b: Byte, bitStart: Byte, length: Byte): (r: Byte)
    requires FieldInByte(bitStart, length)
    ensures RightAligned(r, b, bitStart, length)
  {
    ReadBitsByteLow(b, bitStart, length);
    ReadBitsByteHigh(b, bitStart, length);
    FieldDown(b, bitStart, length)
  }

  /** `(b & mask) >> (bitStart - length + 1)` */
  function FieldDown(b: Byte, bitStart: Byte, length: Byte): Byte
    requires FieldInByte(bitStart, length)
  {
    (b & FieldMask(bitStart, length)) >> LowBit(bitStart, length)
  }

  /** Below `length`, the result holds the field's bits. */
  lemma ReadBitsByteLow(b: Byte, bitStart: Byte, length: Byte)
    requires FieldInByte(bitStart, length)
    ensures forall k: Byte :: k < length ==>
      (BitOf(FieldDown(b, bitStart, length), k) <==> BitOf(b, k + LowBit(bitStart, length)))
  {
    forall k: Byte | k < length
      ensures BitOf(FieldDown(b, bitStart, length), k) <==> BitOf(b, k + LowBit(bitStart, length))
    {
      ReadBitsBit(b, bitStart, length, k);
    }
  }

  /** From `length` up, the result is zero. */
  lemma ReadBitsByteHigh(b: Byte, bitStart: Byte, length: Byte)
    requires FieldInByte(bitStart, length)
    ensures forall k: Byte :: length <= k < 8 ==> !BitOf(FieldDown(b, bitStart, length), k)
  {
    forall k: Byte | length <= k < 8
      ensures !BitOf(FieldDown(b, bitStart, length), k)
    {
      ReadBitsBit(b, bitStart, length, k);
    }
  }

  /** One bit of `mpu6050_read_bits`'s result. */
  lemma ReadBitsBit(b: Byte, bitStart: Byte, length: Byte, k: Byte)
    requires FieldInByte(bitStart, length) && k < 8
    ensures BitOf(FieldDown(b, bitStart, length), k) <==> k < length && BitOf(b, k + LowBit(bitStart, length))
  {
  }

  /** The low `length` bits of `d`. */
  function LowBits(d: Byte, length: Byte): (r: Byte)
    requires length <= 8
    ensures LowPart(r, d, length)
  {
    d & LowMask(length)
  }

  /** `(1 << length) - 1` */
  function LowMask(length: Byte): Byte
    requires length <= 8
  {
    ((1 as Byte) << length) - 1
  }

  /** Keeping the low `n` bits of a byte is reduction modulo 2^n. */
  predicate LowBitsAreMod(d: Byte, n: Byte)
    requires n <= 8
  {
    (d & LowMask(n)) as int == d as int % Pow2(n as nat)
  }

  lemma LowBitsIsMod(d: Byte, n: Byte)
    requires n <= 8
    ensures LowBitsAreMod(d, n)
  {
    if n == 0 { LowBitsIsMod0(d); }
    else if n == 1 { LowBitsIsMod1(d); }
    else if n == 2 { LowBitsIsMod2(d); }
    else if n == 3 { LowBitsIsMod3(d); }
    else if n == 4 { LowBitsIsMod4(d); }
    else if n == 5 { LowBitsIsMod5(d); }
    else if n == 6 { LowBitsIsMod6(d); }
    else if n == 7 { LowBitsIsMod7(d); }
    else if n == 8 { LowBitsIsMod8(d); }
  }

  /** A quotient-remainder split determines the remainder. */
  lemma ModOfSplit(q: int, r: int, p: int, v: int)
    requires p > 0 && 0 <= r < p && q * p + r == v
    ensures v % p == r
  {
    var x := v / p - q;
    assert p * x == r - v % p by {
      assert p * (v / p) + v % p == v;
      assert p * x == p * (v / p) - p * q;
    }
    MulAwayFromZero(p, x);
  }

  /** A non-zero multiple of `p` is at least `p` away from zero. */
  lemma {:induction false} MulAwayFromZero(p: int, x: int)
    requires p > 0
    ensures x >= 1 ==> p * x >= p
    ensures x <= -1 ==> p * x <= -p
    decreases if x < 0 then -x else x
  {
    if x > 1 {
      MulAwayFromZero(p, x - 1);
      assert p * x == p * (x - 1) + p;
    } else if x < -1 {
      MulAwayFromZero(p, x + 1);
      assert p * x == p * (x + 1) - p;
    }
  }

  // One width at a time: split the byte at bit n into quotient and remainder.
  lemma LowBitsIsMod0(d: Byte)
    ensures LowBitsAreMod(d, 0)
  {
    assert LowMask(0) == 0 && Pow2(0) == 1;
    SplitAt0(d);
    ModOfSplit((d >> 0) as int, (d & 0) as int, 1, d as int);
  }
  lemma SplitAt0(d: Byte) ensures (d >> 0) as int * 1 + (d & 0) as int == d as int && (d & 0) as int < 1 { }
  lemma LowBitsIsMod1(d: Byte)
    ensures LowBitsAreMod(d, 1)
  {
    assert LowMask(1) == 1 && Pow2(1) == 2;
    SplitAt1(d);
    ModOfSplit((d >> 1) as int, (d & 1) as int, 2, d as int);
  }
  lemma SplitAt1(d: Byte) ensures (d >> 1) as int * 2 + (d & 1) as int == d as int && (d & 1) as int < 2 { }
  lemma LowBitsIsMod2(d: Byte)
    ensures LowBitsAreMod(d, 2)
  {
    assert LowMask(2) == 3 && Pow2(2) == 4;
    SplitAt2(d);
    ModOfSplit((d >> 2) as int, (d & 3) as int, 4, d as int);
  }
  lemma SplitAt2(d: Byte) ensures (d >> 2) as int * 4 + (d & 3) as int == d as int && (d & 3) as int < 4 { }
  lemma LowBitsIsMod3(d: Byte)
    ensures LowBitsAreMod(d, 3)
  {
    assert LowMask(3) == 7 && Pow2(3) == 8;
    SplitAt3(d);
    ModOfSplit((d >> 3) as int, (d & 7) as int, 8, d as int);
  }
  lemma SplitAt3(d: Byte) ensures (d >> 3) as int * 8 + (d & 7) as int == d as int && (d & 7) as int < 8 { }
  lemma LowBitsIsMod4(d: Byte)
    ensures LowBitsAreMod(d, 4)
  {
    assert LowMask(4) == 15 && Pow2(4) == 16;
    SplitAt4(d);
    ModOfSplit((d >> 4) as int, (d & 15) as int, 16, d as int);
  }
  lemma SplitAt4(d: Byte) ensures (d >> 4) as int * 16 + (d & 15) as int == d as int && (d & 15) as int < 16 { }
  lemma LowBitsIsMod5(d: Byte)
    ensures LowBitsAreMod(d, 5)
  {
    assert LowMask(5) == 31 && Pow2(5) == 32;
    SplitAt5(d);
    ModOfSplit((d >> 5) as int, (d & 31) as int, 32, d as int);
  }
  lemma SplitAt5(d: Byte) ensures (d >> 5) as int * 32 + (d & 31) as int == d as int && (d & 31) as int < 32 { }
  lemma LowBitsIsMod6(d: Byte)
    ensures LowBitsAreMod(d, 6)
  {
    assert LowMask(6) == 63 && Pow2(6) == 64;
    SplitAt6(d);
    ModOfSplit((d >> 6) as int, (d & 63) as int, 64, d as int);
  }
  lemma SplitAt6(d: Byte) ensures (d >> 6) as int * 64 + (d & 63) as int == d as int && (d & 63) as int < 64 { }
  lemma LowBitsIsMod7(d: Byte)
    ensures LowBitsAreMod(d, 7)
  {
    assert LowMask(7) == 127 && Pow2(7) == 128;
    SplitAt7(d);
    ModOfSplit((d >> 7) as int, (d & 127) as int, 128, d as int);
  }
  lemma SplitAt7(d: Byte) ensures (d >> 7) as int * 128 + (d & 127) as int == d as int && (d & 127) as int < 128 { }
  lemma LowBitsIsMod8(d: Byte)
    ensures LowBitsAreMod(d, 8)
  {
    assert LowMask(8) == 255 && Pow2(8) == 256;
    SplitAt8(d);
    ModOfSplit((d >> 8) as int, (d & 255) as int, 256, d as int);
  }
  lemma SplitAt8(d: Byte) ensures (d >> 8) as int * 256 + (d & 255) as int == d as int && (d & 255) as int < 256 { }

  /** Reading a field back after writing `data` into it yields the low `length` bits of `data`. */
  lemma ReadBitsAfterWriteBits(prev: Byte, bitStart: Byte, length: Byte, data: Byte)
    requires FieldInByte(bitStart, length)
    ensures ReadBitsByte(WriteBitsByte(prev, bitStart, length, data), bitStart, length) == LowBits(data, length)
  {
    var w := WriteBitsByte(prev, bitStart, length, data);
    ReadBackBits(w, ReadBitsByte(w, bitStart, length), LowBits(data, length), data, bitStart, length);
  }

  /** The bit-level argument: the right-aligned field agrees with `data`'s low bits. */
  lemma ReadBackBits(w: Byte, r: Byte, low: Byte, data: Byte, bitStart: Byte, length: Byte)
    requires FieldInByte(bitStart, length)
    requires FieldHolds(w, data, bitStart, length)
    requires RightAligned(r, w, bitStart, length)
    requires LowPart(low, data, length)
    ensures r == low
  {
    forall k: Byte | k < 8
      ensures BitOf(r, k) <==> BitOf(low, k)
    {
      if k < length {
        assert InField(k + LowBit(bitStart, length), bitStart, length);
      }
    }
    BitsDetermineByte(r, low);
  }

  /** ... which, as a number, is `data mod 2^length`. */
  lemma ReadBitsAfterWriteBitsIsMod(prev: Byte, bitStart: Byte, length: Byte, data: Byte)
    requires FieldInByte(bitStart, length)
    ensures ReadBitsByte(WriteBitsByte(prev, bitStart, length, data), bitStart, length) as int
         == data as int % Pow2(length as nat)
  {
    ReadBitsAfterWriteBits(prev, bitStart, length, data);
    LowBitsIsMod(data, length);
  }
}
