/**
 Raw measurements and the DMP quaternion: signed 16-bit words the sensor
 presents high byte first, read as a block of registers or taken from the
 last FIFO packet.
 */
module SensorData {
  import opened Bytes
  import opened Registers
  import Fifo

  /** One raw three-axis sample (`mpu6050_raw_acce_value_t`, `mpu6050_raw_gyro_value_t`). */
  datatype RawAxes = RawAxes(x: int, y: int, z: int)

  predicate IsInt16(v: int)
  {
    -0x8000 <= v < 0x8000
  }

  predicate ValidAxes(a: RawAxes)
  {
    IsInt16(a.x) && IsInt16(a.y) && IsInt16(a.z)
  }

  /** Bytes per sample: three high/low pairs. */
  const SAMPLE_LENGTH: nat := 6

  /** The six bytes the sensor presents for a sample, X first, each axis high byte first. */
  function EncodeAxes(a: RawAxes): (buf: seq<Byte>)
    requires ValidAxes(a)
    ensures |buf| == SAMPLE_LENGTH
  {
    var (xh, xl) := EncodeI16BE(a.x);
    var (yh, yl) := EncodeI16BE(a.y);
    var (zh, zl) := EncodeI16BE(a.z);
    [xh, xl, yh, yl, zh, zl]
  }

  /**
   The driver's decoding of six sample bytes, `(int16_t)((buf[2k] << 8) + buf[2k + 1])`
   per axis: each axis is the signed word whose encoding is its byte pair,
   negative exactly when the pair's high byte has its top bit set.
   */
  function DecodeAxes(buf: seq<Byte>): (a: RawAxes)
    requires |buf| == SAMPLE_LENGTH
    ensures ValidAxes(a)
    ensures EncodeI16BE(a.x) == (buf[0], buf[1])
    ensures EncodeI16BE(a.y) == (buf[2], buf[3])
    ensures EncodeI16BE(a.z) == (buf[4], buf[5])
    ensures a.x < 0 <==> BitOf(buf[0], 7)
    ensures a.y < 0 <==> BitOf(buf[2], 7)
    ensures a.z < 0 <==> BitOf(buf[4], 7)
  {
    I16PairRoundTrip(buf[0], buf[1]);
    I16PairRoundTrip(buf[2], buf[3]);
    I16PairRoundTrip(buf[4], buf[5]);
    RawAxes(I16BE(buf[0], buf[1]), I16BE(buf[2], buf[3]), I16BE(buf[4], buf[5]))
  }

  /** Decoding the bytes of a sample gives the sample back. */
  lemma DecodeEncodeAxes(a: RawAxes)
    requires ValidAxes(a)
    ensures DecodeAxes(EncodeAxes(a)) == a
  {
    I16RoundTrip(a.x);
    I16RoundTrip(a.y);
    I16RoundTrip(a.z);
  }

  /** Every six bytes are the encoding of the sample they decode to. */
  lemma EncodeDecodeAxes(buf: seq<Byte>)
    requires |buf| == SAMPLE_LENGTH
    ensures EncodeAxes(DecodeAxes(buf)) == buf
  {
  }

  /** The `n` registers from `start` on, as one burst read returns them. */
  function Block(regs: RegFile, start: Byte, n: nat): (r: seq<Byte>)
    requires start as int + n <= 256
    ensures |r| == n
    ensures forall k :: 0 <= k < n ==> r[k] == regs[start as int + k]
  {
    regs[start as int..start as int + n]
  }

  /**
   A six-byte burst read from `start` followed by the driver's decoding.
   The status `rd` of the read is returned as it is; when the read failed
   the driver decodes its uninitialised buffer, given here as `stale`.
   */
  function ReadAxes(regs: RegFile, start: Byte, rd: EspErr, stale: seq<Byte>): (r: (EspErr, RawAxes))
    requires start as int + SAMPLE_LENGTH <= 256 && |stale| == SAMPLE_LENGTH
    ensures r.0 == rd && ValidAxes(r.1)
    ensures rd == ESP_OK ==> EncodeAxes(r.1) == Block(regs, start, SAMPLE_LENGTH)
    ensures rd != ESP_OK ==> EncodeAxes(r.1) == stale
  {
    var buf := if rd == ESP_OK then Block(regs, start, SAMPLE_LENGTH) else stale;
    EncodeDecodeAxes(buf);
    (rd, DecodeAxes(buf))
  }

  /** `mpu6050_get_raw_acce`: the sample at ACCEL_XOUT_H .. ACCEL_ZOUT_L. */
  function GetRawAcce(regs: RegFile, rd: EspErr, stale: seq<Byte>): (r: (EspErr, RawAxes))
    requires |stale| == SAMPLE_LENGTH
    ensures r.0 == rd && ValidAxes(r.1)
    ensures rd == ESP_OK ==> EncodeAxes(r.1) == regs[0x3B..0x41]
  {
    ReadAxes(regs, RA_ACCEL_XOUT_H, rd, stale)
  }

  /** `mpu6050_get_raw_gyro`: the sample at GYRO_XOUT_H .. GYRO_ZOUT_L. */
  function GetRawGyro(regs: RegFile, rd: EspErr, stale: seq<Byte>): (r: (EspErr, RawAxes))
    requires |stale| == SAMPLE_LENGTH
    ensures r.0 == rd && ValidAxes(r.1)
    ensures rd == ESP_OK ==> EncodeAxes(r.1) == regs[0x43..0x49]
  {
    ReadAxes(regs, RA_GYRO_XOUT_H, rd, stale)
  }

  /** A sensor presenting sample `a` in its accelerometer registers is read as `a`. */
  lemma RawAcceReadsSample(regs: RegFile, a: RawAxes, stale: seq<Byte>)
    requires ValidAxes(a) && |stale| == SAMPLE_LENGTH
    requires regs[0x3B..0x41] == EncodeAxes(a)
    ensures GetRawAcce(regs, ESP_OK, stale) == (ESP_OK, a)
  {
    DecodeEncodeAxes(a);
  }

  /** A sensor presenting sample `g` in its gyroscope registers is read as `g`. */
  lemma RawGyroReadsSample(regs: RegFile, g: RawAxes, stale: seq<Byte>)
    requires ValidAxes(g) && |stale| == SAMPLE_LENGTH
    requires regs[0x43..0x49] == EncodeAxes(g)
    ensures GetRawGyro(regs, ESP_OK, stale) == (ESP_OK, g)
  {
    DecodeEncodeAxes(g);
  }

  /**
   One quaternion word as the driver forms it: `(fifoPacket[j] << 8) | fifoPacket[j + 1]`
   narrowed into `int16_t`.
   */
  function QuaternionWord(packet: seq<Byte>, j: nat): (w: int)
    requires j + 1 < |packet|
    ensures w == I16BE(packet[j], packet[j + 1])
  {
    U16ShiftOrIsU16BE(packet[j], packet[j + 1]);
    ToInt16((((packet[j] as bv16) << 8) | (packet[j + 1] as bv16)) as int)
  }

  /** The DMP's orientation quaternion, each component a signed 16-bit word. */
  datatype Quaternion = Quaternion(w: int, x: int, y: int, z: int)

  predicate ValidQuaternion(q: Quaternion)
  {
    IsInt16(q.w) && IsInt16(q.x) && IsInt16(q.y) && IsInt16(q.z)
  }

  /**
   The packet bytes that carry a quaternion: the high halves of the
   packet's first four 32-bit words, high byte first.
   */
  predicate Carries(packet: seq<Byte>, q: Quaternion)
    requires |packet| == Fifo.PACKET_LENGTH && ValidQuaternion(q)
  {
    && (packet[0], packet[1]) == EncodeI16BE(q.w)
    && (packet[4], packet[5]) == EncodeI16BE(q.x)
    && (packet[8], packet[9]) == EncodeI16BE(q.y)
    && (packet[12], packet[13]) == EncodeI16BE(q.z)
  }

  /**
   `mpu6050_dmp_get_quaternion`: the four components W, X, Y, Z from the
   last packet read; it always reports 0. The result is the quaternion the
   packet carries.
   */
  function GetQuaternion(packet: seq<Byte>): (r: (int, Quaternion))
    requires |packet| == Fifo.PACKET_LENGTH
    ensures r.0 == 0 && ValidQuaternion(r.1)
    ensures Carries(packet, r.1)
  {
    I16PairRoundTrip(packet[0], packet[1]);
    I16PairRoundTrip(packet[4], packet[5]);
    I16PairRoundTrip(packet[8], packet[9]);
    I16PairRoundTrip(packet[12], packet[13]);
    (0, Quaternion(QuaternionWord(packet, 0), QuaternionWord(packet, 4), QuaternionWord(packet, 8), QuaternionWord(packet, 12)))
  }

  /** A packet that carries `q` yields `q`. */
  lemma QuaternionReadsPacket(packet: seq<Byte>, q: Quaternion)
    requires |packet| == Fifo.PACKET_LENGTH && ValidQuaternion(q)
    requires Carries(packet, q)
    ensures GetQuaternion(packet).1 == q
  {
    var r := GetQuaternion(packet).1;
    I16RoundTrip(q.w);
    I16RoundTrip(r.w);
    I16RoundTrip(q.x);
    I16RoundTrip(r.x);
    I16RoundTrip(q.y);
    I16RoundTrip(r.y);
    I16RoundTrip(q.z);
    I16RoundTrip(r.z);
  }

  /** The quaternion depends on no byte of the packet but the eight that carry it. */
  lemma QuaternionUsesOnlyItsWords(p1: seq<Byte>, p2: seq<Byte>)
    requires |p1| == Fifo.PACKET_LENGTH && |p2| == Fifo.PACKET_LENGTH
    requires p1[0] == p2[0] && p1[1] == p2[1] && p1[4] == p2[4] && p1[5] == p2[5]
    requires p1[8] == p2[8] && p1[9] == p2[9] && p1[12] == p2[12] && p1[13] == p2[13]
    ensures GetQuaternion(p1) == GetQuaternion(p2)
  {
  }
}
