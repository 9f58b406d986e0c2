/**
 Power and range configuration: `mpu6050_wake_up`, `mpu6050_sleep`,
 `mpu6050_config` and the full-scale decoding of the sensitivity getters,
 and the register-field setters and flag setters built on the bit-field
 helpers, with the header's (register, bit, length) table.
 */
module Settings {
  import opened Bytes
  import opened Registers
  import opened BitField
  import opened RegisterOps

  /** `mpu6050_acce_fs_t` */
  datatype AcceFs = Acce2G | Acce4G | Acce8G | Acce16G

  /** `mpu6050_gyro_fs_t` */
  datatype GyroFs = Gyro250Dps | Gyro500Dps | Gyro1000Dps | Gyro2000Dps

  function AcceFsValue(a: AcceFs): (v: Byte)
    ensures v < 4
  {
    match a
    case Acce2G => 0
    case Acce4G => 1
    case Acce8G => 2
    case Acce16G => 3
  }

  function GyroFsValue(g: GyroFs): (v: Byte)
    ensures v < 4
  {
    match g
    case Gyro250Dps => 0
    case Gyro500Dps => 1
    case Gyro1000Dps => 2
    case Gyro2000Dps => 3
  }

  /** The full-scale selector as the getters extract it: `(reg >> 3) & 0x03`. */
  function FsBits(b: Byte): (r: Byte)
    ensures r < 4
    ensures BitOf(r, 0) <==> BitOf(b, 3)
    ensures BitOf(r, 1) <==> BitOf(b, 4)
  {
    (b >> 3) & 0x03
  }

  /** The accelerometer range a configuration byte selects (every value of the two bits names one). */
  function AcceFsOf(b: Byte): (a: AcceFs)
    ensures AcceFsValue(a) == FsBits(b)
  {
    var v := FsBits(b);
    if v == 0 then Acce2G else if v == 1 then Acce4G else if v == 2 then Acce8G else Acce16G
  }

  /** The gyroscope range a configuration byte selects. */
  function GyroFsOf(b: Byte): (g: GyroFs)
    ensures GyroFsValue(g) == FsBits(b)
  {
    var v := FsBits(b);
    if v == 0 then Gyro250Dps else if v == 1 then Gyro500Dps else if v == 2 then Gyro1000Dps else Gyro2000Dps
  }

  /** `fs << 3`: the configuration byte `mpu6050_config` writes for a range. */
  function FsByte(v: Byte): (b: Byte)
    requires v < 4
    ensures FsBits(b) == v
    ensures b & !0x18 == 0
  {
    v << 3
  }

  lemma AcceFsRoundTrip(a: AcceFs)
    ensures AcceFsOf(FsByte(AcceFsValue(a))) == a
  {
  }

  lemma GyroFsRoundTrip(g: GyroFs)
    ensures GyroFsOf(FsByte(GyroFsValue(g))) == g
  {
  }

  /** A register file and the `esp_err_t` an operation returned. */
  datatype Status = Status(regs: RegFile, err: EspErr)

  /**
   `mpu6050_wake_up`: read PWR_MGMT_1 (a failed read is returned at once),
   clear the sleep bit, write the byte back and return the write's status.
   */
  function WakeUp(regs: RegFile, rd: EspErr, wr: EspErr): (r: Status)
    ensures OthersUnchanged(regs, r.regs, RA_PWR_MGMT_1)
    ensures rd != ESP_OK ==> r == Status(regs, rd)
    ensures rd == ESP_OK ==> r.err == wr
    ensures r.err != ESP_OK ==> r.regs == regs
    ensures r.err == ESP_OK ==> !BitOf(Reg(r.regs, RA_PWR_MGMT_1), PWR1_SLEEP_BIT)
    ensures r.err == ESP_OK ==> forall k: Byte :: k < 8 && k != PWR1_SLEEP_BIT ==>
      (BitOf(Reg(r.regs, RA_PWR_MGMT_1), k) <==> BitOf(Reg(regs, RA_PWR_MGMT_1), k))
  {
    if rd != ESP_OK then Status(regs, rd)
    else Status(WriteReg(regs, RA_PWR_MGMT_1, WriteBitByte(Reg(regs, RA_PWR_MGMT_1), PWR1_SLEEP_BIT, false), wr), wr)
  }

  /**
   `mpu6050_sleep`: read PWR_MGMT_1 (a failed read is returned at once),
   set the sleep bit, write the byte back and return the write's status.
   */
  function Sleep(regs: RegFile, rd: EspErr, wr: EspErr): (r: Status)
    ensures OthersUnchanged(regs, r.regs, RA_PWR_MGMT_1)
    ensures rd != ESP_OK ==> r == Status(regs, rd)
    ensures rd == ESP_OK ==> r.err == wr
    ensures r.err != ESP_OK ==> r.regs == regs
    ensures r.err == ESP_OK ==> BitOf(Reg(r.regs, RA_PWR_MGMT_1), PWR1_SLEEP_BIT)
    ensures r.err == ESP_OK ==> forall k: Byte :: k < 8 && k != PWR1_SLEEP_BIT ==>
      (BitOf(Reg(r.regs, RA_PWR_MGMT_1), k) <==> BitOf(Reg(regs, RA_PWR_MGMT_1), k))
  {
    if rd != ESP_OK then Status(regs, rd)
    else Status(WriteReg(regs, RA_PWR_MGMT_1, WriteBitByte(Reg(regs, RA_PWR_MGMT_1), PWR1_SLEEP_BIT, true), wr), wr)
  }

  /** Putting an awake sensor to sleep and waking it again restores every register. */
  lemma SleepThenWakeRestores(regs: RegFile)
    requires !BitOf(Reg(regs, RA_PWR_MGMT_1), PWR1_SLEEP_BIT)
    ensures WakeUp(Sleep(regs, ESP_OK, ESP_OK).regs, ESP_OK, ESP_OK).regs == regs
  {
    var fin := WakeUp(Sleep(regs, ESP_OK, ESP_OK).regs, ESP_OK, ESP_OK).regs;
    BitsDetermineByte(Reg(fin, RA_PWR_MGMT_1), Reg(regs, RA_PWR_MGMT_1));
    assert fin == regs;
  }

  /** Waking twice leaves the registers as waking once. */
  lemma WakeUpIdempotent(regs: RegFile)
    ensures WakeUp(WakeUp(regs, ESP_OK, ESP_OK).regs, ESP_OK, ESP_OK).regs == WakeUp(regs, ESP_OK, ESP_OK).regs
  {
    var once := WakeUp(regs, ESP_OK, ESP_OK).regs;
    var twice := WakeUp(once, ESP_OK, ESP_OK).regs;
    BitsDetermineByte(Reg(twice, RA_PWR_MGMT_1), Reg(once, RA_PWR_MGMT_1));
    assert twice == once;
  }

  /**
   `mpu6050_config`: one two-byte burst write from GYRO_CONFIG, giving
   GYRO_CONFIG `gyro_fs << 3` and ACCEL_CONFIG `acce_fs << 3`; the status
   is the write's.
   */
  function Config(regs: RegFile, a: AcceFs, g: GyroFs, wr: EspErr): (r: Status)
    ensures r.err == wr
    ensures wr != ESP_OK ==> r.regs == regs
    ensures forall q :: 0 <= q < 256 && q != RA_GYRO_CONFIG as int && q != RA_ACCEL_CONFIG as int ==>
      r.regs[q] == regs[q]
    ensures wr == ESP_OK ==> GyroFsOf(Reg(r.regs, RA_GYRO_CONFIG)) == g && AcceFsOf(Reg(r.regs, RA_ACCEL_CONFIG)) == a
    ensures wr == ESP_OK ==> Reg(r.regs, RA_GYRO_CONFIG) & !0x18 == 0 && Reg(r.regs, RA_ACCEL_CONFIG) & !0x18 == 0
  {
    var gyro := FsByte(GyroFsValue(g));
    var acce := FsByte(AcceFsValue(a));
    GyroFsRoundTrip(g);
    AcceFsRoundTrip(a);
    Status(WriteReg(WriteReg(regs, RA_GYRO_CONFIG, gyro, wr), RA_ACCEL_CONFIG, acce, wr), wr)
  }

  /**
   The range `mpu6050_get_acce_sensitivity` decodes from ACCEL_CONFIG; a
   failed read leaves its buffer holding `prior`, which is decoded anyway.
   */
  function GetAcceFs(regs: RegFile, rd: EspErr, prior: Byte): (a: AcceFs)
    ensures rd == ESP_OK ==> AcceFsValue(a) == FsBits(Reg(regs, RA_ACCEL_CONFIG))
  {
    AcceFsOf(ReadReg(regs, RA_ACCEL_CONFIG, rd, prior))
  }

  /** The range `mpu6050_get_gyro_sensitivity` decodes from GYRO_CONFIG. */
  function GetGyroFs(regs: RegFile, rd: EspErr, prior: Byte): (g: GyroFs)
    ensures rd == ESP_OK ==> GyroFsValue(g) == FsBits(Reg(regs, RA_GYRO_CONFIG))
  {
    GyroFsOf(ReadReg(regs, RA_GYRO_CONFIG, rd, prior))
  }

  /** The ranges written by a successful `mpu6050_config` are the ones the getters report. */
  lemma ConfigThenGet(regs: RegFile, a: AcceFs, g: GyroFs, prior: Byte)
    ensures GetAcceFs(Config(regs, a, g, ESP_OK).regs, ESP_OK, prior) == a
    ensures GetGyroFs(Config(regs, a, g, ESP_OK).regs, ESP_OK, prior) == g
  {
  }

  /** A register field: register address, highest bit, width. */
  datatype Field = Field(reg: Byte, bitStart: Byte, length: Byte)

  /** The multi-bit settings the driver writes through `mpu6050_write_bits`. */
  datatype Setting = XGyroOffsetTC | ExternalFrameSync | DlpfMode | GyroRange | ClockSource

  function FieldOf(s: Setting): (f: Field)
    ensures FieldInByte(f.bitStart, f.length) && 1 <= f.length
  {
    match s
    case XGyroOffsetTC => Field(RA_XG_OFFS_TC, TC_OFFSET_BIT, TC_OFFSET_LENGTH)
    case ExternalFrameSync => Field(RA_CONFIG, CFG_EXT_SYNC_SET_BIT, CFG_EXT_SYNC_SET_LENGTH)
    case DlpfMode => Field(RA_CONFIG, CFG_DLPF_CFG_BIT, CFG_DLPF_CFG_LENGTH)
    case GyroRange => Field(RA_GYRO_CONFIG, GCONFIG_FS_SEL_BIT, GCONFIG_FS_SEL_LENGTH)
    case ClockSource => Field(RA_PWR_MGMT_1, PWR1_CLKSEL_BIT, PWR1_CLKSEL_LENGTH)
  }

  /**
   The values the header defines for a setting; the temperature-compensation
   offset has no named values and is any value of its six bits.
   */
  predicate Defined(s: Setting, v: Byte)
  {
    match s
    case XGyroOffsetTC => v < 64
    case ExternalFrameSync => v in EXT_SYNC_VALUES
    case DlpfMode => v in DLPF_BW_VALUES
    case GyroRange => v in GYRO_FS_VALUES
    case ClockSource => v in CLOCK_VALUES
  }

  /** Every defined value fits its field's width, so the field write discards none of its bits. */
  lemma DefinedValuesFit(s: Setting, v: Byte)
    requires Defined(s, v)
    ensures v as int < Pow2(FieldOf(s).length as nat)
    ensures LowBits(v, FieldOf(s).length) == v
  {
    match s
    case XGyroOffsetTC =>
      assert Pow2(6) == 64;
    case ExternalFrameSync =>
      assert Pow2(3) == 8;
    case DlpfMode =>
      assert Pow2(3) == 8;
    case GyroRange =>
      assert Pow2(2) == 4;
    case ClockSource =>
      assert Pow2(3) == 8;
  }

  /**
   The setters `mpu6050_set_X_gyro_offset_TC`, `_external_frame_sync`,
   `_DLPF_mode`, `_full_scale_gyro_range` and `_clock_source`: a field
   write whose result they drop.
   */
  function SetSetting(regs: RegFile, s: Setting, v: Byte, rd: EspErr, wr: EspErr): (r: RegFile)
    ensures OthersUnchanged(regs, r, FieldOf(s).reg)
    ensures rd != ESP_OK || wr != ESP_OK ==> r == regs
    ensures rd == ESP_OK && wr == ESP_OK ==>
      OutsideKept(Reg(r, FieldOf(s).reg), Reg(regs, FieldOf(s).reg), FieldOf(s).bitStart, FieldOf(s).length)
    ensures rd == ESP_OK && wr == ESP_OK && Defined(s, v) ==>
      ReadBitsByte(Reg(r, FieldOf(s).reg), FieldOf(s).bitStart, FieldOf(s).length) == v
  {
    var f := FieldOf(s);
    var w := WriteBits(regs, f.reg, f.bitStart, f.length, v, rd, wr).regs;
    if Defined(s, v) then DefinedValuesFit(s, v); w else w
  }

  /** A defined value set with both transfers succeeding is what the field reads back. */
  lemma SettingReadBack(regs: RegFile, s: Setting, v: Byte, prior: Byte)
    requires Defined(s, v)
    ensures var f := FieldOf(s);
      ReadBits(SetSetting(regs, s, v, ESP_OK, ESP_OK), f.reg, f.bitStart, f.length, ESP_OK, prior) == v
  {
  }

  /** The gyroscope range field and `mpu6050_config`'s selector are the same two bits. */
  lemma GyroRangeFieldIsFsBits(b: Byte)
    ensures ReadBitsByte(b, GCONFIG_FS_SEL_BIT, GCONFIG_FS_SEL_LENGTH) == FsBits(b)
  {
    var r := ReadBitsByte(b, GCONFIG_FS_SEL_BIT, GCONFIG_FS_SEL_LENGTH);
    assert BitOf(r, 0) <==> BitOf(b, 3);
    assert BitOf(r, 1) <==> BitOf(b, 4);
    forall k: Byte | k < 8
      ensures BitOf(r, k) <==> BitOf(FsBits(b), k)
    {
      if k >= 2 {
        FsBitsHigh(b, k);
      }
    }
    BitsDetermineByte(r, FsBits(b));
  }

  lemma FsBitsHigh(b: Byte, k: Byte)
    requires 2 <= k < 8
    ensures !BitOf(FsBits(b), k)
  {
  }

  /** Setting the gyroscope range through its field is seen by the sensitivity getter. */
  lemma GyroRangeSetterAgreesWithGetter(regs: RegFile, g: GyroFs, prior: Byte)
    ensures GetGyroFs(SetSetting(regs, GyroRange, GyroFsValue(g), ESP_OK, ESP_OK), ESP_OK, prior) == g
  {
    var r := SetSetting(regs, GyroRange, GyroFsValue(g), ESP_OK, ESP_OK);
    GyroRangeFieldIsFsBits(Reg(r, RA_GYRO_CONFIG));
  }

  /** The single-bit settings the driver writes through `mpu6050_write_bit`. */
  datatype Flag = OtpBankValid | DmpEnabled | DmpReset | FifoEnabled | FifoReset | SleepEnabled | DeviceReset

  /** The register and bit of a flag. */
  function FlagBit(f: Flag): (rb: (Byte, Byte))
    ensures rb.1 < 8
  {
    match f
    case OtpBankValid => (RA_XG_OFFS_TC, TC_OTP_BNK_VLD_BIT)
    case DmpEnabled => (RA_USER_CTRL, USERCTRL_DMP_EN_BIT)
    case DmpReset => (RA_USER_CTRL, USERCTRL_DMP_RESET_BIT)
    case FifoEnabled => (RA_USER_CTRL, USERCTRL_FIFO_EN_BIT)
    case FifoReset => (RA_USER_CTRL, USERCTRL_FIFO_RESET_BIT)
    case SleepEnabled => (RA_PWR_MGMT_1, PWR1_SLEEP_BIT)
    case DeviceReset => (RA_PWR_MGMT_1, PWR1_DEVICE_RESET_BIT)
  }

  /**
   The flag setters (`mpu6050_set_OTP_bank_valid`, `_DMP_enabled`,
   `_FIFO_enabled`, `_sleep_enabled`) and the triggers that write `true`
   (`mpu6050_reset_DMP`, `_reset_FIFO`, `mpu6050_reset`).
   */
  function SetFlag(regs: RegFile, f: Flag, enabled: bool, rd: EspErr, wr: EspErr): (r: RegFile)
    ensures OthersUnchanged(regs, r, FlagBit(f).0)
    ensures wr != ESP_OK ==> r == regs
    ensures wr == ESP_OK ==> (BitOf(Reg(r, FlagBit(f).0), FlagBit(f).1) <==> enabled)
    ensures wr == ESP_OK && rd == ESP_OK ==> forall k: Byte :: k < 8 && k != FlagBit(f).1 ==>
      (BitOf(Reg(r, FlagBit(f).0), k) <==> BitOf(Reg(regs, FlagBit(f).0), k))
  {
    WriteBit(regs, FlagBit(f).0, FlagBit(f).1, enabled, rd, wr)
  }

  /** `mpu6050_get_DMP_enabled` and the other flag getters: the bit, as read by `mpu6050_read_bit`. */
  function GetFlag(regs: RegFile, f: Flag, rd: EspErr): (b: bool)
    ensures b <==> rd == ESP_OK && BitOf(Reg(regs, FlagBit(f).0), FlagBit(f).1)
  {
    ReadBit(regs, FlagBit(f).0, FlagBit(f).1, rd) != 0
  }

  /** A flag set with both transfers succeeding reads back as set. */
  lemma FlagReadBack(regs: RegFile, f: Flag, enabled: bool)
    ensures GetFlag(SetFlag(regs, f, enabled, ESP_OK, ESP_OK), f, ESP_OK) == enabled
  {
  }

  /** `mpu6050_sleep` and `mpu6050_set_sleep_enabled(true)` leave the same registers when every transfer succeeds. */
  lemma SleepIsSetSleepEnabled(regs: RegFile)
    ensures Sleep(regs, ESP_OK, ESP_OK).regs == SetFlag(regs, SleepEnabled, true, ESP_OK, ESP_OK)
    ensures WakeUp(regs, ESP_OK, ESP_OK).regs == SetFlag(regs, SleepEnabled, false, ESP_OK, ESP_OK)
  {
  }
}
