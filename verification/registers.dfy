/**
 The MPU-6050 as the driver addresses it: a file of 256 byte-wide registers
 reached by single-register I2C reads and writes, each of which reports an
 `esp_err_t` status. Register addresses, bit positions, field lengths and the
 enumerations written into those fields are the driver header's constants.
 */
module Registers {
  import opened Bytes

  /** `esp_err_t`: zero is success, anything else an error code. */
  type EspErr = int

  const ESP_OK: EspErr := 0
  const ESP_FAIL: EspErr := -1
  const ESP_ERR_INVALID_ARG: EspErr := 0x102

  // Register addresses.
  const RA_XG_OFFS_TC: Byte := 0x00
  const RA_CONFIG: Byte := 0x1A
  const RA_GYRO_CONFIG: Byte := 0x1B
  const RA_ACCEL_CONFIG: Byte := 0x1C
  const RA_INT_PIN_CFG: Byte := 0x37
  const RA_INT_ENABLE: Byte := 0x38
  const RA_INT_STATUS: Byte := 0x3A
  const RA_USER_CTRL: Byte := 0x6A
  const RA_PWR_MGMT_1: Byte := 0x6B
  const RA_BANK_SEL: Byte := 0x6D
  const RA_MEM_START_ADDR: Byte := 0x6E
  const RA_MEM_R_W: Byte := 0x6F
  const RA_ACCEL_XOUT_H: Byte := 0x3B
  const RA_GYRO_XOUT_H: Byte := 0x43
  const RA_FIFO_COUNTH: Byte := 0x72
  const RA_FIFO_R_W: Byte := 0x74

  // Bit positions and field lengths (a field of LENGTH bits whose highest bit is BIT).
  const TC_OFFSET_BIT: Byte := 6
  const TC_OFFSET_LENGTH: Byte := 6
  const TC_OTP_BNK_VLD_BIT: Byte := 0
  const CFG_EXT_SYNC_SET_BIT: Byte := 5
  const CFG_EXT_SYNC_SET_LENGTH: Byte := 3
  const CFG_DLPF_CFG_BIT: Byte := 2
  const CFG_DLPF_CFG_LENGTH: Byte := 3
  const GCONFIG_FS_SEL_BIT: Byte := 4
  const GCONFIG_FS_SEL_LENGTH: Byte := 2
  const USERCTRL_DMP_EN_BIT: Byte := 7
  const USERCTRL_FIFO_EN_BIT: Byte := 6
  const USERCTRL_DMP_RESET_BIT: Byte := 3
  const USERCTRL_FIFO_RESET_BIT: Byte := 2
  const PWR1_DEVICE_RESET_BIT: Byte := 7
  const PWR1_SLEEP_BIT: Byte := 6
  const PWR1_CLKSEL_BIT: Byte := 2
  const PWR1_CLKSEL_LENGTH: Byte := 3

  // Interrupt sources, as bits of INT_ENABLE and INT_STATUS.
  const DATA_RDY_INT_BIT: Byte := 0x01
  const I2C_MASTER_INT_BIT: Byte := 0x08
  const FIFO_OVERFLOW_INT_BIT: Byte := 0x10
  const MOT_DETECT_INT_BIT: Byte := 0x40
  const ALL_INTERRUPTS: Byte := DATA_RDY_INT_BIT | I2C_MASTER_INT_BIT | FIFO_OVERFLOW_INT_BIT | MOT_DETECT_INT_BIT

  // Values the driver defines for those fields.
  const EXT_SYNC_VALUES: set<Byte> := {0, 1, 2, 3, 4, 5, 6, 7}
  const DLPF_BW_VALUES: set<Byte> := {0, 1, 2, 3, 4, 5, 6}
  const GYRO_FS_VALUES: set<Byte> := {0, 1, 2, 3}
  const CLOCK_VALUES: set<Byte> := {0, 1, 2, 3, 4, 5, 7}

  /** The register file: one byte per 8-bit register address. */
  type RegFile = s: seq<Byte> | |s| == 256 witness seq(256, _ => 0)

  /**
   A one-byte register read into a buffer that held `prior`: on success the
   buffer receives the register, on failure it keeps what it held.
   */
  function ReadReg(regs: RegFile, reg: Byte, status: EspErr, prior: Byte): Byte
  {
    if status == ESP_OK then regs[reg as int] else prior
  }

  /** A one-byte register write: it takes effect only when the transfer succeeds. */
  function WriteReg(regs: RegFile, reg: Byte, v: Byte, status: EspErr): RegFile
  {
    if status == ESP_OK then regs[reg as int := v] else regs
  }

  /** The value of register `reg`. */
  function Reg(regs: RegFile, reg: Byte): Byte
  {
    regs[reg as int]
  }

  /** Registers other than `reg` are the same in both files. */
  ghost predicate OthersUnchanged(a: RegFile, b: RegFile, reg: Byte)
  {
    forall q :: 0 <= q < 256 && q != reg as int ==> a[q] == b[q]
  }
}
