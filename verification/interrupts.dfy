/**
 The driver's interrupt API: configuring the INT pin (INT_PIN_CFG and the
 host GPIO that listens to it), enabling and disabling interrupt sources in
 INT_ENABLE, reading INT_STATUS, and the predicates that pick one source out
 of a status byte.
 */
module Interrupts {
  import opened Bytes
  import opened Registers
  import opened Wrappers

  datatype ActiveLevel = ActiveHigh | ActiveLow
  datatype PinMode = PushPull | OpenDrain
  datatype Latch = Pulse50us | LatchUntilCleared
  datatype ClearBehavior = ClearOnAnyRead | ClearOnStatusRead

  /** `mpu6050_int_config_t`: the host GPIO wired to INT and the pin's behaviour. */
  datatype IntConfig = IntConfig(pin: int, level: ActiveLevel, mode: PinMode, latch: Latch, clear: ClearBehavior)

  /** The edge the host GPIO interrupt fires on. */
  datatype Edge = NegEdge | PosEdge

  /** The host GPIO set up as an input interrupting on `edge`. */
  datatype GpioConfig = GpioConfig(pin: int, edge: Edge)

  /**
   The outcome of `mpu6050_config_interrupts`: the registers, the returned
   status, the pin remembered in the device handle and the GPIO
   configuration requested from the host, if it got that far.
   */
  datatype ConfigOutcome = ConfigOutcome(regs: RegFile, err: EspErr, intPin: Option<int>, gpio: Option<GpioConfig>)

  /** The outcome of an INT_ENABLE update: registers, returned status, whether a write was issued. */
  datatype Outcome = Outcome(regs: RegFile, err: EspErr, wrote: bool)

  /**
   The INT_PIN_CFG byte for a configuration: bit 7 active low, bit 6 open
   drain, bit 5 latch until cleared, bit 4 cleared by any read; each set or
   cleared as the configuration says, and bits 3..0 kept from `prior`.
   */
  function PinCfgByte(prior: Byte, c: IntConfig): (b: Byte)
    ensures BitOf(b, 7) <==> c.level == ActiveLow
    ensures BitOf(b, 6) <==> c.mode == OpenDrain
    ensures BitOf(b, 5) <==> c.latch == LatchUntilCleared
    ensures BitOf(b, 4) <==> c.clear == ClearOnAnyRead
    ensures b & 0x0F == prior & 0x0F
  {
    (prior & 0x0F)
    | (if c.level == ActiveLow then 0x80 else 0)
    | (if c.mode == OpenDrain then 0x40 else 0)
    | (if c.latch == LatchUntilCleared then 0x20 else 0)
    | (if c.clear == ClearOnAnyRead then 0x10 else 0)
  }

  /**
   The INT_PIN_CFG byte as `mpu6050_config_interrupts` builds it: the byte
   read is only ever or-ed with bits 7..4, so none of them can be cleared.
   */
  function PinCfgByteAsWritten(prior: Byte, c: IntConfig): (b: Byte)
    ensures b == prior | PinCfgByte(0, c)
  {
    prior
    | (if c.level == ActiveLow then 0x80 else 0)
    | (if c.mode == OpenDrain then 0x40 else 0)
    | (if c.latch == LatchUntilCleared then 0x20 else 0)
    | (if c.clear == ClearOnAnyRead then 0x10 else 0)
  }

  /** Bit by bit: the as-written byte sets each requested bit and keeps every bit already set. */
  lemma PinCfgAsWrittenBits(prior: Byte, c: IntConfig)
    ensures BitOf(PinCfgByteAsWritten(prior, c), 7) <==> BitOf(prior, 7) || c.level == ActiveLow
    ensures BitOf(PinCfgByteAsWritten(prior, c), 6) <==> BitOf(prior, 6) || c.mode == OpenDrain
    ensures BitOf(PinCfgByteAsWritten(prior, c), 5) <==> BitOf(prior, 5) || c.latch == LatchUntilCleared
    ensures BitOf(PinCfgByteAsWritten(prior, c), 4) <==> BitOf(prior, 4) || c.clear == ClearOnAnyRead
    ensures PinCfgByteAsWritten(prior, c) & 0x0F == prior & 0x0F
  {
    var z := PinCfgByte(0, c);
    BitOr(prior, z, 7);
    BitOr(prior, z, 6);
    BitOr(prior, z, 5);
    BitOr(prior, z, 4);
  }

  /** The configuration an INT_PIN_CFG byte describes, for the GPIO `pin`. */
  function DecodePinCfg(b: Byte, pin: int): (c: IntConfig)
    ensures c.pin == pin
    ensures c.level == ActiveLow <==> BitOf(b, 7)
  {
    IntConfig(pin,
      if BitOf(b, 7) then ActiveLow else ActiveHigh,
      if BitOf(b, 6) then OpenDrain else PushPull,
      if BitOf(b, 5) then LatchUntilCleared else Pulse50us,
      if BitOf(b, 4) then ClearOnAnyRead else ClearOnStatusRead)
  }

  /** The register holds exactly the configuration requested, whatever it held before. */
  lemma PinCfgRoundTrip(prior: Byte, c: IntConfig)
    ensures DecodePinCfg(PinCfgByte(prior, c), c.pin) == c
  {
  }

  /** On a freshly reset register (all zero) the as-written byte is the intended one. */
  lemma PinCfgAsWrittenFromZero(c: IntConfig)
    ensures PinCfgByteAsWritten(0, c) == PinCfgByte(0, c)
  {
  }

  /**
   Reconfiguring an active-low pin as active high: the as-written byte keeps
   bit 7 set, so the sensor still drives INT low while the host GPIO is set
   to fire on a rising edge.
   */
  lemma PinCfgAsWrittenKeepsActiveLow()
    ensures DecodePinCfg(PinCfgByteAsWritten(0x80, IntConfig(4, ActiveHigh, PushPull, Pulse50us, ClearOnStatusRead)), 4).level
            == ActiveLow
    ensures GpioEdge(IntConfig(4, ActiveHigh, PushPull, Pulse50us, ClearOnStatusRead)) == PosEdge
  {
  }

  /** Active-low pins interrupt the host on a falling edge, active-high ones on a rising edge. */
  function GpioEdge(c: IntConfig): (e: Edge)
    ensures e == NegEdge <==> c.level == ActiveLow
  {
    if c.level == ActiveLow then NegEdge else PosEdge
  }

  /**
   The steps of `mpu6050_config_interrupts` around the INT_PIN_CFG byte,
   which `build` forms from the byte read and the configuration. A missing
   configuration or a GPIO the host does not have is `ESP_ERR_INVALID_ARG`
   with nothing touched; a valid pin is remembered in the handle before
   INT_PIN_CFG is read; a failed read or write returns its status; after the
   write, the host GPIO is configured and its status returned.
   */
  function ConfigureWith(regs: RegFile, cfg: Option<IntConfig>, pinValid: bool, rd: EspErr, prior: Byte,
                         wr: EspErr, gpioErr: EspErr, build: (Byte, IntConfig) -> Byte): (r: ConfigOutcome)
    ensures OthersUnchanged(regs, r.regs, RA_INT_PIN_CFG)
    ensures cfg.None? || !pinValid ==> r == ConfigOutcome(regs, ESP_ERR_INVALID_ARG, None, None)
    ensures cfg.Some? && pinValid ==> r.intPin == Some(cfg.value.pin)
    ensures r.gpio.Some? <==> cfg.Some? && pinValid && rd == ESP_OK && wr == ESP_OK
    ensures r.gpio.Some? ==> r.err == gpioErr
    ensures r.gpio.None? ==> r.err != ESP_OK
    ensures r.gpio.Some? ==>
      && Reg(r.regs, RA_INT_PIN_CFG) == build(Reg(regs, RA_INT_PIN_CFG), cfg.value)
      && r.gpio.value == GpioConfig(cfg.value.pin, GpioEdge(cfg.value))
    ensures r.gpio.None? ==> r.regs == regs
  {
    if cfg.None? || !pinValid then
      ConfigOutcome(regs, ESP_ERR_INVALID_ARG, None, None)
    else if rd != ESP_OK then
      ConfigOutcome(regs, rd, Some(cfg.value.pin), None)
    else if wr != ESP_OK then
      ConfigOutcome(regs, wr, Some(cfg.value.pin), None)
    else
      var b := build(ReadReg(regs, RA_INT_PIN_CFG, rd, prior), cfg.value);
      ConfigOutcome(WriteReg(regs, RA_INT_PIN_CFG, b, wr), gpioErr, Some(cfg.value.pin),
                    Some(GpioConfig(cfg.value.pin, GpioEdge(cfg.value))))
  }

  /**
   `mpu6050_config_interrupts` as written: INT_PIN_CFG becomes the byte read
   or-ed with the requested bits, so each of bits 7..4 is set afterwards when
   it was set before or was requested, while the GPIO edge follows the
   request alone.
   */
  function ConfigInterrupts(regs: RegFile, cfg: Option<IntConfig>, pinValid: bool,
                            rd: EspErr, prior: Byte, wr: EspErr, gpioErr: EspErr): (r: ConfigOutcome)
    ensures OthersUnchanged(regs, r.regs, RA_INT_PIN_CFG)
    ensures cfg.None? || !pinValid ==> r == ConfigOutcome(regs, ESP_ERR_INVALID_ARG, None, None)
    ensures cfg.Some? && pinValid ==> r.intPin == Some(cfg.value.pin)
    ensures r.gpio.Some? <==> cfg.Some? && pinValid && rd == ESP_OK && wr == ESP_OK
    ensures r.gpio.Some? ==> r.err == gpioErr
    ensures r.gpio.None? ==> r.err != ESP_OK
    ensures r.gpio.None? ==> r.regs == regs
    ensures r.gpio.Some? ==>
      && Reg(r.regs, RA_INT_PIN_CFG) == Reg(regs, RA_INT_PIN_CFG) | PinCfgByte(0, cfg.value)
      && r.gpio.value == GpioConfig(cfg.value.pin, GpioEdge(cfg.value))
      && (r.gpio.value.edge == NegEdge <==> cfg.value.level == ActiveLow)
      && (BitOf(Reg(r.regs, RA_INT_PIN_CFG), 7) <==> BitOf(Reg(regs, RA_INT_PIN_CFG), 7) || cfg.value.level == ActiveLow)
      && Reg(r.regs, RA_INT_PIN_CFG) & 0x0F == Reg(regs, RA_INT_PIN_CFG) & 0x0F
  {
    var r := ConfigureWith(regs, cfg, pinValid, rd, prior, wr, gpioErr, PinCfgByteAsWritten);
    if r.gpio.Some? then
      PinCfgAsWrittenBits(Reg(regs, RA_INT_PIN_CFG), cfg.value);
      r
    else
      r
  }

  /**
   `mpu6050_config_interrupts` as its interface describes it: INT_PIN_CFG
   holds exactly the configuration requested, whatever it held before, and
   the GPIO edge matches the level the sensor then drives.
   */
  function ConfigInterruptsIntended(regs: RegFile, cfg: Option<IntConfig>, pinValid: bool,
                                    rd: EspErr, prior: Byte, wr: EspErr, gpioErr: EspErr): (r: ConfigOutcome)
    ensures OthersUnchanged(regs, r.regs, RA_INT_PIN_CFG)
    ensures cfg.None? || !pinValid ==> r == ConfigOutcome(regs, ESP_ERR_INVALID_ARG, None, None)
    ensures cfg.Some? && pinValid ==> r.intPin == Some(cfg.value.pin)
    ensures r.gpio.Some? <==> cfg.Some? && pinValid && rd == ESP_OK && wr == ESP_OK
    ensures r.gpio.Some? ==> r.err == gpioErr
    ensures r.gpio.None? ==> r.err != ESP_OK
    ensures r.gpio.None? ==> r.regs == regs
    ensures r.gpio.Some? ==>
      && DecodePinCfg(Reg(r.regs, RA_INT_PIN_CFG), cfg.value.pin) == cfg.value
      && r.gpio.value == GpioConfig(cfg.value.pin, GpioEdge(cfg.value))
      && (r.gpio.value.edge == NegEdge <==> BitOf(Reg(r.regs, RA_INT_PIN_CFG), 7))
      && Reg(r.regs, RA_INT_PIN_CFG) & 0x0F == Reg(regs, RA_INT_PIN_CFG) & 0x0F
  {
    var r := ConfigureWith(regs, cfg, pinValid, rd, prior, wr, gpioErr, PinCfgByte);
    if r.gpio.Some? then
      PinCfgRoundTrip(Reg(regs, RA_INT_PIN_CFG), cfg.value);
      r
    else
      r
  }

  /**
   On a sensor whose INT_PIN_CFG is 0x80 (active low), configuring the pin
   as active high succeeds, arms the GPIO for a rising edge, and leaves the
   sensor driving INT active low; the intended operation switches it.
   */
  lemma ConfigInterruptsKeepsActiveLow(regs: RegFile)
    requires Reg(regs, RA_INT_PIN_CFG) == 0x80
    ensures var c := IntConfig(4, ActiveHigh, PushPull, Pulse50us, ClearOnStatusRead);
      var r := ConfigInterrupts(regs, Some(c), true, ESP_OK, 0, ESP_OK, ESP_OK);
      && r.err == ESP_OK && r.gpio == Some(GpioConfig(4, PosEdge))
      && DecodePinCfg(Reg(r.regs, RA_INT_PIN_CFG), 4).level == ActiveLow
    ensures var c := IntConfig(4, ActiveHigh, PushPull, Pulse50us, ClearOnStatusRead);
      DecodePinCfg(Reg(ConfigInterruptsIntended(regs, Some(c), true, ESP_OK, 0, ESP_OK, ESP_OK).regs, RA_INT_PIN_CFG), 4).level
      == ActiveHigh
  {
    PinCfgAsWrittenKeepsActiveLow();
  }

  /**
   When bits 7..4 of INT_PIN_CFG are clear beforehand, as after a device
   reset, the driver's operation and the intended one have the same effect.
   */
  lemma ConfigInterruptsFromClearAgrees(regs: RegFile, cfg: Option<IntConfig>, pinValid: bool,
                                        rd: EspErr, prior: Byte, wr: EspErr, gpioErr: EspErr)
    requires Reg(regs, RA_INT_PIN_CFG) & 0xF0 == 0
    ensures ConfigInterrupts(regs, cfg, pinValid, rd, prior, wr, gpioErr)
            == ConfigInterruptsIntended(regs, cfg, pinValid, rd, prior, wr, gpioErr)
  {
    if cfg.Some? && pinValid && rd == ESP_OK && wr == ESP_OK {
      var b := Reg(regs, RA_INT_PIN_CFG);
      assert PinCfgByteAsWritten(b, cfg.value) == PinCfgByte(b, cfg.value);
    }
  }

  /**
   `mpu6050_enable_interrupts`: read INT_ENABLE; if it differs from
   `sources`, write it back with `sources` or-ed in. A failed read returns
   its status and writes nothing.
   */
  function EnableInterrupts(regs: RegFile, sources: Byte, rd: EspErr, wr: EspErr): (r: Outcome)
    ensures OthersUnchanged(regs, r.regs, RA_INT_ENABLE)
    ensures rd != ESP_OK ==> r == Outcome(regs, rd, false)
    ensures rd == ESP_OK ==> (r.wrote <==> Reg(regs, RA_INT_ENABLE) != sources)
    ensures r.wrote ==> r.err == wr
    ensures rd == ESP_OK && !r.wrote ==> r.err == ESP_OK
    ensures r.err != ESP_OK ==> r.regs == regs
    ensures r.err == ESP_OK ==> Reg(r.regs, RA_INT_ENABLE) == Reg(regs, RA_INT_ENABLE) | sources
  {
    if rd != ESP_OK then Outcome(regs, rd, false) else SetEnabled(regs, sources, wr)
  }

  /** The part of `mpu6050_enable_interrupts` after INT_ENABLE was read. */
  function SetEnabled(regs: RegFile, sources: Byte, wr: EspErr): (r: Outcome)
    ensures OthersUnchanged(regs, r.regs, RA_INT_ENABLE)
    ensures r.wrote <==> Reg(regs, RA_INT_ENABLE) != sources
    ensures r.err == if r.wrote then wr else ESP_OK
    ensures r.err != ESP_OK ==> r.regs == regs
    ensures r.err == ESP_OK ==> Reg(r.regs, RA_INT_ENABLE) == Reg(regs, RA_INT_ENABLE) | sources
  {
    var enabled := Reg(regs, RA_INT_ENABLE);
    if enabled != sources then
      Outcome(WriteReg(regs, RA_INT_ENABLE, enabled | sources, wr), wr, true)
    else
      NothingToSet(enabled);
      Outcome(regs, ESP_OK, false)
  }

  /** Each source bit is set in `after`, and every bit set in `before` still is; nothing else is set. */
  ghost predicate Enabled(after: Byte, before: Byte, sources: Byte)
  {
    forall k: Byte :: k < 8 ==> (BitOf(after, k) <==> BitOf(before, k) || BitOf(sources, k))
  }

  /** Each source bit is clear in `after`; every other bit is as in `before`. */
  ghost predicate Disabled(after: Byte, before: Byte, sources: Byte)
  {
    forall k: Byte :: k < 8 ==> (BitOf(after, k) <==> BitOf(before, k) && !BitOf(sources, k))
  }

  lemma EnabledBits(enabled: Byte, sources: Byte)
    ensures Enabled(enabled | sources, enabled, sources)
  {
    forall k: Byte | k < 8
      ensures BitOf(enabled | sources, k) <==> BitOf(enabled, k) || BitOf(sources, k)
    {
      BitOr(enabled, sources, k);
    }
  }

  lemma DisabledBits(enabled: Byte, sources: Byte)
    ensures Disabled(enabled & !sources, enabled, sources)
  {
    forall k: Byte | k < 8
      ensures BitOf(enabled & !sources, k) <==> BitOf(enabled, k) && !BitOf(sources, k)
    {
      BitAndNot(enabled, sources, k);
    }
  }

  lemma BitAndNot(a: Byte, b: Byte, k: Byte)
    requires k < 8
    ensures BitOf(a & !b, k) <==> BitOf(a, k) && !BitOf(b, k)
  {
  }

  /**
   `mpu6050_disable_interrupts`: read INT_ENABLE; if some source is enabled,
   write it back with the sources cleared. A failed read returns its status
   and writes nothing.
   */
  function DisableInterrupts(regs: RegFile, sources: Byte, rd: EspErr, wr: EspErr): (r: Outcome)
    ensures OthersUnchanged(regs, r.regs, RA_INT_ENABLE)
    ensures rd != ESP_OK ==> r == Outcome(regs, rd, false)
    ensures rd == ESP_OK ==> (r.wrote <==> AnyEnabled(Reg(regs, RA_INT_ENABLE), sources))
    ensures r.wrote ==> r.err == wr
    ensures rd == ESP_OK && !r.wrote ==> r.err == ESP_OK
    ensures r.err != ESP_OK ==> r.regs == regs
    ensures r.err == ESP_OK ==> Reg(r.regs, RA_INT_ENABLE) == Reg(regs, RA_INT_ENABLE) & !sources
  {
    if rd != ESP_OK then Outcome(regs, rd, false) else ClearEnabled(regs, sources, wr)
  }

  /** The part of `mpu6050_disable_interrupts` after INT_ENABLE was read. */
  function ClearEnabled(regs: RegFile, sources: Byte, wr: EspErr): (r: Outcome)
    ensures OthersUnchanged(regs, r.regs, RA_INT_ENABLE)
    ensures r.wrote <==> AnyEnabled(Reg(regs, RA_INT_ENABLE), sources)
    ensures r.err == if r.wrote then wr else ESP_OK
    ensures r.err != ESP_OK ==> r.regs == regs
    ensures r.err == ESP_OK ==> Reg(r.regs, RA_INT_ENABLE) == Reg(regs, RA_INT_ENABLE) & !sources
  {
    var cleared := ClearSources(Reg(regs, RA_INT_ENABLE), sources);
    if cleared.Some? then
      Outcome(WriteReg(regs, RA_INT_ENABLE, cleared.value, wr), wr, true)
    else
      Outcome(regs, ESP_OK, false)
  }

  /** Some of `sources` is enabled in `enabled`. */
  predicate AnyEnabled(enabled: Byte, sources: Byte)
  {
    enabled & sources != 0
  }

  /**
   The INT_ENABLE byte to write when disabling `sources`, or nothing when
   none of them is enabled (clearing them would change nothing).
   */
  function ClearSources(enabled: Byte, sources: Byte): (r: Option<Byte>)
    ensures r.Some? <==> AnyEnabled(enabled, sources)
    ensures r.Some? ==> r.value == enabled & !sources
    ensures r.None? ==> enabled == enabled & !sources
  {
    if AnyEnabled(enabled, sources) then Some(enabled & !sources) else None
  }

  /** With exactly the sources enabled, setting them changes nothing. */
  lemma NothingToSet(enabled: Byte)
    ensures enabled | enabled == enabled
  {
  }

  /**
   Enabling never clears a bit: when it succeeds, the enabled sources are
   the previous ones together with the requested ones.
   */
  lemma EnableNeverClears(regs: RegFile, sources: Byte, rd: EspErr, wr: EspErr)
    requires EnableInterrupts(regs, sources, rd, wr).err == ESP_OK
    ensures Enabled(Reg(EnableInterrupts(regs, sources, rd, wr).regs, RA_INT_ENABLE), Reg(regs, RA_INT_ENABLE), sources)
  {
    EnabledBits(Reg(regs, RA_INT_ENABLE), sources);
  }

  /**
   Disabling never sets a bit: when it succeeds, the enabled sources are
   the previous ones without the requested ones.
   */
  lemma DisableNeverSets(regs: RegFile, sources: Byte, rd: EspErr, wr: EspErr)
    requires DisableInterrupts(regs, sources, rd, wr).err == ESP_OK
    ensures Disabled(Reg(DisableInterrupts(regs, sources, rd, wr).regs, RA_INT_ENABLE), Reg(regs, RA_INT_ENABLE), sources)
  {
    DisabledBits(Reg(regs, RA_INT_ENABLE), sources);
  }

  /** Enabling sources twice leaves the same registers as enabling them once. */
  lemma EnableIdempotent(regs: RegFile, sources: Byte)
    ensures EnableInterrupts(EnableInterrupts(regs, sources, ESP_OK, ESP_OK).regs, sources, ESP_OK, ESP_OK).regs
         == EnableInterrupts(regs, sources, ESP_OK, ESP_OK).regs
  {
  }

  /** Disabling sources that are all off writes nothing. */
  lemma DisableWhenOffWritesNothing(regs: RegFile, sources: Byte)
    requires Reg(regs, RA_INT_ENABLE) & sources == 0
    ensures DisableInterrupts(regs, sources, ESP_OK, ESP_OK) == Outcome(regs, ESP_OK, false)
  {
  }

  /** Enabling sources that were off and disabling them again restores INT_ENABLE. */
  lemma EnableThenDisableRestores(regs: RegFile, sources: Byte)
    requires Reg(regs, RA_INT_ENABLE) & sources == 0
    ensures DisableInterrupts(EnableInterrupts(regs, sources, ESP_OK, ESP_OK).regs, sources, ESP_OK, ESP_OK).regs
         == regs
  {
    var e := Reg(regs, RA_INT_ENABLE);
    var mid := EnableInterrupts(regs, sources, ESP_OK, ESP_OK).regs;
    var m := Reg(mid, RA_INT_ENABLE);
    var fin := DisableInterrupts(mid, sources, ESP_OK, ESP_OK).regs;
    var f := Reg(fin, RA_INT_ENABLE);
    forall k: Byte | k < 8
      ensures BitOf(f, k) <==> BitOf(e, k)
    {
      BitAnd(e, sources, k);
    }
    BitsDetermineByte(f, e);
    assert fin == regs;
  }

  /**
   `mpu6050_get_interrupt_status`: no destination is `ESP_ERR_INVALID_ARG`;
   otherwise INT_STATUS is read into it.
   */
  function GetInterruptStatus(regs: RegFile, hasOut: bool, rd: EspErr, prior: Byte): (r: (EspErr, Byte))
    ensures !hasOut ==> r == (ESP_ERR_INVALID_ARG, prior)
    ensures hasOut ==> r.0 == rd
    ensures r.0 == ESP_OK ==> r.1 == Reg(regs, RA_INT_STATUS)
    ensures r.0 != ESP_OK ==> r.1 == prior
  {
    if !hasOut then (ESP_ERR_INVALID_ARG, prior)
    else (rd, ReadReg(regs, RA_INT_STATUS, rd, prior))
  }

  /** `MASK == (MASK & status)`, as 0 or 1. */
  function SourceFlag(mask: Byte, status: Byte): Byte
  {
    if mask == mask & status then 1 else 0
  }

  /** `mpu6050_is_data_ready_interrupt`: 1 exactly when bit 0 of the status is set. */
  function IsDataReady(status: Byte): (r: Byte)
    ensures r == 0 || r == 1
    ensures r == 1 <==> BitOf(status, 0)
  {
    SourceFlag(DATA_RDY_INT_BIT, status)
  }

  /** `mpu6050_is_i2c_master_interrupt`: 1 exactly when bit 3 of the status is set. */
  function IsI2cMaster(status: Byte): (r: Byte)
    ensures r == 0 || r == 1
    ensures r == 1 <==> BitOf(status, 3)
  {
    SourceFlag(I2C_MASTER_INT_BIT, status)
  }

  /** `mpu6050_is_fifo_overflow_interrupt`: 1 exactly when bit 4 of the status is set. */
  function IsFifoOverflow(status: Byte): (r: Byte)
    ensures r == 0 || r == 1
    ensures r == 1 <==> BitOf(status, 4)
  {
    SourceFlag(FIFO_OVERFLOW_INT_BIT, status)
  }

  /**
   After a successful status read, each predicate reports its own source bit
   of INT_STATUS, and the sources the driver names are the bits of
   `MPU6050_ALL_INTERRUPTS`.
   */
  lemma StatusPredicatesAgree(regs: RegFile, prior: Byte)
    ensures var st := GetInterruptStatus(regs, true, ESP_OK, prior).1;
      && (IsDataReady(st) == 1 <==> Reg(regs, RA_INT_STATUS) & DATA_RDY_INT_BIT != 0)
      && (IsI2cMaster(st) == 1 <==> Reg(regs, RA_INT_STATUS) & I2C_MASTER_INT_BIT != 0)
      && (IsFifoOverflow(st) == 1 <==> Reg(regs, RA_INT_STATUS) & FIFO_OVERFLOW_INT_BIT != 0)
    ensures DATA_RDY_INT_BIT & ALL_INTERRUPTS != 0 && I2C_MASTER_INT_BIT & ALL_INTERRUPTS != 0
    ensures FIFO_OVERFLOW_INT_BIT & ALL_INTERRUPTS != 0 && MOT_DETECT_INT_BIT & ALL_INTERRUPTS != 0
  {
  }
}
