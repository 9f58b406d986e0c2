/**
 Register-level helpers of the driver: single-bit and multi-bit field writes
 and reads through one-byte I2C transactions, and the BANK_SEL byte. Each
 transaction's `esp_err_t` status is a parameter, so every combination of
 bus failures is covered.
 */
module RegisterOps {
  import opened Bytes
  import opened Registers
  import opened BitField

  /**
   `mpu6050_write_bit`: read the register into a byte initialised to 0, set
   or clear one bit, write the byte back. Neither status is looked at, so a
   failed read followed by a successful write clears every other bit.
   */
  function WriteBit(regs: RegFile, reg: Byte, bit: Byte, data: bool, rd: EspErr, wr: EspErr): (r: RegFile)
    requires bit < 8
    ensures OthersUnchanged(regs, r, reg)
    ensures wr != ESP_OK ==> r == regs
    ensures wr == ESP_OK ==> (BitOf(Reg(r, reg), bit) <==> data)
    ensures wr == ESP_OK && rd == ESP_OK ==>
      forall k: Byte :: k < 8 && k != bit ==> (BitOf(Reg(r, reg), k) <==> BitOf(Reg(regs, reg), k))
    ensures wr == ESP_OK && rd != ESP_OK ==>
      forall k: Byte :: k < 8 && k != bit ==> !BitOf(Reg(r, reg), k)
  {
    var b := ReadReg(regs, reg, rd, 0);
    WriteReg(regs, reg, WriteBitByte(b, bit, data), wr)
  }

  /** `mpu6050_read_bit`: `byte & (1 << bit)` of a byte initialised to 0. */
  function ReadBit(regs: RegFile, reg: Byte, bit: Byte, rd: EspErr): (r: Byte)
    requires bit < 8
    ensures r == 0 || r == BitMask(bit)
    ensures r != 0 <==> rd == ESP_OK && BitOf(Reg(regs, reg), bit)
  {
    ReadBitByte(ReadReg(regs, reg, rd, 0), bit)
  }

  /** A bit written with both transfers succeeding reads back as written. */
  lemma ReadBitAfterWriteBit(regs: RegFile, reg: Byte, bit: Byte, data: bool, rd: EspErr)
    requires bit < 8
    ensures ReadBit(WriteBit(regs, reg, bit, data, rd, ESP_OK), reg, bit, ESP_OK) != 0 <==> data
  {
  }

  /** The outcome of a field write: the registers afterwards and the reported success. */
  datatype FieldWrite = FieldWrite(regs: RegFile, ok: bool)

  /**
   `mpu6050_write_bits` with the success flag its documentation promises:
   the flag is set exactly when the read and the write both succeed. The
   register effect is that of the driver: nothing is written when the read
   fails; otherwise the field receives the low `length` bits of `data` and
   every other bit keeps its value.
   */
  function WriteBits(regs: RegFile, reg: Byte, bitStart: Byte, length: Byte, data: Byte,
                     rd: EspErr, wr: EspErr): (r: FieldWrite)
    requires FieldInByte(bitStart, length)
    ensures r.ok <==> rd == ESP_OK && wr == ESP_OK
    ensures OthersUnchanged(regs, r.regs, reg)
    ensures !r.ok ==> r.regs == regs
    ensures r.ok ==> ReadBitsByte(Reg(r.regs, reg), bitStart, length) == LowBits(data, length)
    ensures r.ok ==> OutsideKept(Reg(r.regs, reg), Reg(regs, reg), bitStart, length)
  {
    if rd == ESP_OK then
      var b := WriteBitsByte(Reg(regs, reg), bitStart, length, data);
      ReadBitsAfterWriteBits(Reg(regs, reg), bitStart, length, data);
      FieldWrite(WriteReg(regs, reg, b, wr), wr == ESP_OK)
    else
      FieldWrite(regs, false)
  }

  /**
   `mpu6050_write_bits` as written: after a successful read it returns the
   write's `esp_err_t` converted to `bool`, which is true for every error
   code and false for `ESP_OK`.
   */
  function WriteBitsAsWritten(regs: RegFile, reg: Byte, bitStart: Byte, length: Byte, data: Byte,
                              rd: EspErr, wr: EspErr): (r: FieldWrite)
    requires FieldInByte(bitStart, length)
    ensures r.regs == WriteBits(regs, reg, bitStart, length, data, rd, wr).regs
    ensures r.ok <==> rd == ESP_OK && wr != ESP_OK
  {
    if rd == ESP_OK then
      var b := WriteBitsByte(Reg(regs, reg), bitStart, length, data);
      FieldWrite(WriteReg(regs, reg, b, wr), wr != ESP_OK)
    else
      FieldWrite(regs, false)
  }

  /**
   The as-written flag is inverted: when both transfers succeed it reports
   failure although the field was written, and when it reports success the
   registers were not changed at all.
   */
  lemma WriteBitsAsWrittenInvertsSuccess(regs: RegFile, reg: Byte, bitStart: Byte, length: Byte, data: Byte,
                                         rd: EspErr, wr: EspErr)
    requires FieldInByte(bitStart, length)
    ensures rd == ESP_OK && wr == ESP_OK ==>
      !WriteBitsAsWritten(regs, reg, bitStart, length, data, rd, wr).ok &&
      ReadBitsByte(Reg(WriteBitsAsWritten(regs, reg, bitStart, length, data, rd, wr).regs, reg), bitStart, length)
        == LowBits(data, length)
    ensures WriteBitsAsWritten(regs, reg, bitStart, length, data, rd, wr).ok ==>
      WriteBitsAsWritten(regs, reg, bitStart, length, data, rd, wr).regs == regs
    ensures (WriteBitsAsWritten(regs, reg, bitStart, length, data, rd, wr).ok
             != WriteBits(regs, reg, bitStart, length, data, rd, wr).ok) <==> rd == ESP_OK
  {
  }

  /**
   `mpu6050_read_bits`: on a successful read the buffer receives the field,
   right-aligned; on a failed read it keeps what it held.
   */
  function ReadBits(regs: RegFile, reg: Byte, bitStart: Byte, length: Byte, rd: EspErr, prior: Byte): (r: Byte)
    requires FieldInByte(bitStart, length)
    ensures rd != ESP_OK ==> r == prior
    ensures rd == ESP_OK ==> RightAligned(r, Reg(regs, reg), bitStart, length)
  {
    if rd == ESP_OK then ReadBitsByte(Reg(regs, reg), bitStart, length) else prior
  }

  /**
   A field written with success reported reads back as `data mod 2^length`,
   whatever the buffer held before.
   */
  lemma ReadBitsAfterWriteBitsDevice(regs: RegFile, reg: Byte, bitStart: Byte, length: Byte, data: Byte,
                                     rd: EspErr, wr: EspErr, prior: Byte)
    requires FieldInByte(bitStart, length)
    requires WriteBits(regs, reg, bitStart, length, data, rd, wr).ok
    ensures ReadBits(WriteBits(regs, reg, bitStart, length, data, rd, wr).regs, reg, bitStart, length, ESP_OK, prior)
         == LowBits(data, length)
    ensures ReadBits(WriteBits(regs, reg, bitStart, length, data, rd, wr).regs, reg, bitStart, length, ESP_OK, prior) as int
         == data as int % Pow2(length as nat)
  {
    var b := WriteBitsByte(Reg(regs, reg), bitStart, length, data);
    assert Reg(WriteBits(regs, reg, bitStart, length, data, rd, wr).regs, reg) == b;
    ReadBitsAfterWriteBits(Reg(regs, reg), bitStart, length, data);
    ReadBitsAfterWriteBitsIsMod(Reg(regs, reg), bitStart, length, data);
  }

  /**
   `mpu6050_set_memory_bank`'s BANK_SEL byte: the bank number's low five
   bits, bit 5 for a user bank, bit 6 for prefetch, bit 7 clear.
   */
  function BankSelByte(bank: Byte, prefetch: bool, userBank: bool): (b: Byte)
    ensures b & 0x1F == bank & 0x1F
    ensures BitOf(b, 5) <==> userBank
    ensures BitOf(b, 6) <==> prefetch
    ensures !BitOf(b, 7)
  {
    var b0 := bank & 0x1F;
    var b1 := if userBank then b0 | 0x20 else b0;
    if prefetch then b1 | 0x40 else b1
  }

  /**
   Every BANK_SEL byte with bit 7 clear is produced by exactly one choice of
   bank (modulo 32), prefetch and user-bank flags.
   */
  lemma BankSelByteDecodes(b: Byte)
    requires !BitOf(b, 7)
    ensures BankSelByte(b & 0x1F, BitOf(b, 6), BitOf(b, 5)) == b
  {
  }

  /** The memory bank selected is the requested bank number modulo 32. */
  lemma BankSelSelectsBankMod32(bank: Byte, prefetch: bool, userBank: bool)
    ensures (BankSelByte(bank, prefetch, userBank) & 0x1F) as int == bank as int % 32
  {
    SplitAt5(bank);
  }

  /** `mpu6050_set_memory_bank`: one write of the BANK_SEL byte. */
  function SetMemoryBank(regs: RegFile, bank: Byte, prefetch: bool, userBank: bool, wr: EspErr): (r: RegFile)
    ensures OthersUnchanged(regs, r, RA_BANK_SEL)
    ensures wr == ESP_OK ==> Reg(r, RA_BANK_SEL) & 0x1F == bank & 0x1F
    ensures wr == ESP_OK ==> (BitOf(Reg(r, RA_BANK_SEL), 5) <==> userBank)
    ensures wr == ESP_OK ==> (BitOf(Reg(r, RA_BANK_SEL), 6) <==> prefetch)
    ensures wr == ESP_OK ==> !BitOf(Reg(r, RA_BANK_SEL), 7)
    ensures wr == ESP_OK ==> Reg(r, RA_BANK_SEL) == BankSelByte(bank, prefetch, userBank)
    ensures wr != ESP_OK ==> r == regs
  {
    WriteReg(regs, RA_BANK_SEL, BankSelByte(bank, prefetch, userBank), wr)
  }
}
