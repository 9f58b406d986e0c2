/**
 Bytes as the MPU-6050 driver sees them: unsigned 8-bit values, single bits,
 and the big-endian 16-bit quantities the sensor reports in register pairs
 (FIFO count, raw accelerometer and gyroscope axes, DMP quaternion words).
 */
module Bytes {

  type Byte = bv8

  /** Bit `k` of `b` (bit 0 is the least significant). */
  predicate BitOf(b: Byte, k: Byte)
    requires k < 8
  {
    (b >> k) & 1 == 1
  }

  lemma BitAnd(a: Byte, b: Byte, k: Byte)
    requires k < 8
    ensures BitOf(a & b, k) <==> BitOf(a, k) && BitOf(b, k)
  {
  }

  lemma BitOr(a: Byte, b: Byte, k: Byte)
    requires k < 8
    ensures BitOf(a | b, k) <==> BitOf(a, k) || BitOf(b, k)
  {
  }

  lemma BitNot(a: Byte, k: Byte)
    requires k < 8
    ensures BitOf(!a, k) <==> !BitOf(a, k)
  {
  }

  lemma BitShl(a: Byte, s: Byte, k: Byte)
    requires k < 8 && s <= 8
    ensures BitOf(a << s, k) <==> s <= k && BitOf(a, k - s)
  {
  }

  /** Two bytes are equal exactly when all their bits agree. */
  lemma BitsDetermineByte(a: Byte, b: Byte)
    requires forall k: Byte :: k < 8 ==> (BitOf(a, k) <==> BitOf(b, k))
    ensures a == b
  {
    assert BitOf(a, 0) == BitOf(b, 0);
    assert BitOf(a, 1) == BitOf(b, 1);
    assert BitOf(a, 2) == BitOf(b, 2);
    assert BitOf(a, 3) == BitOf(b, 3);
    assert BitOf(a, 4) == BitOf(b, 4);
    assert BitOf(a, 5) == BitOf(b, 5);
    assert BitOf(a, 6) == BitOf(b, 6);
    assert BitOf(a, 7) == BitOf(b, 7);
  }

  /** A byte's numeric value is below 256. */
  lemma ByteBound(b: Byte)
    ensures b as int < 256
  {
  }

  /** The byte whose value is `v`, counted up from zero. */
  function ByteOf(v: nat): (b: Byte)
    requires v < 256
  {
    if v == 0 then 0 else ByteOf(v - 1) + 1
  }

  lemma {:induction false} ByteOfValue(v: nat)
    requires v < 256
    ensures ByteOf(v) as int == v
  {
    if v > 0 {
      ByteOfValue(v - 1);
      Succ(ByteOf(v - 1));
    }
  }

  lemma Succ(b: Byte)
    requires b as int < 255
    ensures (b + 1) as int == b as int + 1
  {
  }

  /** Bytes with the same value are the same byte. */
  lemma ValueInjective(a: Byte, b: Byte)
    requires a as int == b as int
    ensures a == b
  {
  }

  /** `ByteOf` inverts the value of a byte. */
  lemma ByteOfInverse(b: Byte)
    ensures ByteOf(b as int) == b
  {
    ByteBound(b);
    ByteOfValue(b as int);
    ValueInjective(ByteOf(b as int), b);
  }

  /** The top bit of a byte is set exactly when its value is at least 128. */
  lemma TopBit(b: Byte)
    ensures BitOf(b, 7) <==> b as int >= 128
  {
    assert BitOf(b, 7) <==> b >= 128;
    assert b >= 128 <==> b as int >= 128;
  }

  /** 2^k */
  function Pow2(k: nat): (r: nat)
    ensures r >= 1
  {
    if k == 0 then 1 else 2 * Pow2(k - 1)
  }

  /** The unsigned 16-bit value held in a high/low register pair. */
  function U16BE(hi: Byte, lo: Byte): (r: nat)
    ensures r < 0x1_0000
  {
    ByteBound(hi);
    ByteBound(lo);
    hi as int * 256 + lo as int
  }

  /**
   The driver composes the pair with a shift and a bitwise or,
   `((uint16_t)hi << 8) | lo`; that is the same number.
   */
  lemma U16ShiftOrIsU16BE(hi: Byte, lo: Byte)
    ensures (((hi as bv16) << 8) | (lo as bv16)) as int == U16BE(hi, lo)
  {
  }

  /** Narrowing of a 16-bit pattern into `int16_t` (two's complement, as GCC does). */
  function ToInt16(v: nat): (r: int)
    requires v < 0x1_0000
    ensures -0x8000 <= r < 0x8000
    ensures (r - v) % 0x1_0000 == 0
  {
    if v < 0x8000 then v else v - 0x1_0000
  }

  /**
   The signed value of a big-endian register pair: `(int16_t)((hi << 8) + lo)`,
   the form used for raw axes and DMP quaternion words.
   */
  function I16BE(hi: Byte, lo: Byte): (r: int)
    ensures -0x8000 <= r < 0x8000
    ensures (r - U16BE(hi, lo)) % 0x1_0000 == 0
    ensures r < 0 <==> BitOf(hi, 7)
  {
    TopBit(hi);
    ByteBound(lo);
    assert U16BE(hi, lo) >= 0x8000 <==> hi as int >= 128;
    ToInt16(U16BE(hi, lo))
  }

  /** The register pair the sensor presents for an unsigned 16-bit value. */
  function EncodeU16BE(v: nat): (pair: (Byte, Byte))
    requires v < 0x1_0000
  {
    (ByteOf(v / 256), ByteOf(v % 256))
  }

  /** The register pair the sensor presents for a signed 16-bit value. */
  function EncodeI16BE(x: int): (pair: (Byte, Byte))
    requires -0x8000 <= x < 0x8000
  {
    EncodeU16BE(x % 0x1_0000)
  }

  /** Decoding the register pair of an unsigned value gives it back. */
  lemma U16RoundTrip(v: nat)
    requires v < 0x1_0000
    ensures U16BE(EncodeU16BE(v).0, EncodeU16BE(v).1) == v
  {
    ByteOfValue(v / 256);
    ByteOfValue(v % 256);
  }

  /** Every register pair is the encoding of the unsigned value it decodes to. */
  lemma U16PairRoundTrip(hi: Byte, lo: Byte)
    ensures EncodeU16BE(U16BE(hi, lo)) == (hi, lo)
  {
    ByteBound(hi);
    ByteBound(lo);
    EncodeOfPair(hi as int, lo as int);
    ByteOfInverse(hi);
    ByteOfInverse(lo);
  }

  lemma EncodeOfPair(h: int, l: int)
    requires 0 <= h < 256 && 0 <= l < 256
    ensures EncodeU16BE(h * 256 + l) == (ByteOf(h), ByteOf(l))
  {
    DivMod256(h, l);
  }

  /** Splitting `a * 256 + lo` back into its high and low bytes. */
  lemma DivMod256(a: int, lo: int)
    requires 0 <= lo < 256
    ensures (a * 256 + lo) / 256 == a
    ensures (a * 256 + lo) % 256 == lo
  {
  }

  /** Decoding a signed value from its encoding gives it back. */
  lemma I16RoundTrip(x: int)
    requires -0x8000 <= x < 0x8000
    ensures I16BE(EncodeI16BE(x).0, EncodeI16BE(x).1) == x
  {
    var v := x % 0x1_0000;
    assert v == if x >= 0 then x else x + 0x1_0000;
    var pair := EncodeU16BE(v);
    assert EncodeI16BE(x) == pair;
    U16RoundTrip(v);
    assert I16BE(pair.0, pair.1) == ToInt16(v) == x;
  }

  /** Every register pair is the encoding of the signed value it decodes to. */
  lemma I16PairRoundTrip(hi: Byte, lo: Byte)
    ensures EncodeI16BE(I16BE(hi, lo)) == (hi, lo)
  {
    var v := U16BE(hi, lo);
    assert I16BE(hi, lo) % 0x1_0000 == v;
    U16PairRoundTrip(hi, lo);
  }
}
