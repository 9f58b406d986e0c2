# MPU6050 driver core in Dafny

This project models the logic of the ESP-IDF MPU6050 driver (`main/mpu6050/mpu6050.c` and `main/mpu6050/include/mpu6050.h`) and proves properties of it. It covers five parts:

- **FIFO packet reader.** `mpu6050_get_current_FIFO_packet` resynchronises on the newest 42-byte DMP packet. It resets the FIFO above 200 bytes, discards down to one packet below that, and waits for data up to an 11 ms timeout.
- **Register helpers.** These read and write a single bit or a bit field, select a memory bank, and implement the power, full-scale and setting setters and getters built on them.
- **Interrupt API.** Pin configuration, enabling and disabling sources, the status read and the `is_*_interrupt` tests.
- **DMP memory loader.** `mpu6050_write_memory_block` writes chunks of at most 16 bytes that never cross a 256-byte bank, with an optional read-back check.
- **Big-endian decoders.** These decode the FIFO count, the raw accelerometer and gyroscope samples, and the DMP quaternion.

The I²C bus is abstracted.

- The sensor's registers are a 256-entry byte map (`Registers.RegFile`).
- Outside the FIFO path, every bus transaction the driver makes is given its `esp_err_t` status as a parameter: `rd` for a read, `wr` for a write. The FIFO transfers are taken to succeed; "## Left out" says what the driver does when they fail.
- A failed read leaves the destination as it was (`prior`), or, where the driver decodes an uninitialised buffer, as `stale`.
- A failed write leaves the register as it was.

The FIFO is a byte sequence in a `Sensor` value that also holds:

- `now`, the microsecond clock `esp_timer_get_time()` reads;
- an oracle of `Arrival`s, the bytes the DMP adds between two FIFO_COUNT polls and the time that elapsed, at least 1 µs.

The DMP memory is 32 banks of 256 bytes (`MemoryBlock.Memory`); BANK_SEL keeps five bank bits. `int16_t` narrowing is written out as two's complement (`Bytes.ToInt16`), and so are the `uint8_t` wrap-arounds of the memory loader's bank and address.

Modules: `Bytes` (bytes, bits, big-endian words), `Registers` (register addresses, bit constants, register file), `BitField` (bit/field arithmetic on one byte), `RegisterOps` (the bit helpers on the register file), `Settings` (power, full scale, field and flag setters), `Interrupts`, `Fifo`, `MemoryBlock`, `SensorData`, `Wrappers`.

## Model

| member | source | states |
|---|---|---|
| Bytes.I16BE | main/mpu6050/mpu6050.c:2350-2352 | a register pair read as `(int16_t)((hi << 8) + lo)` is in the int16 range, congruent to `hi*256+lo` modulo 2^16, and negative exactly when the high byte's top bit is set |
| Bytes.I16RoundTrip | main/mpu6050/mpu6050.c:2350-2352 | decoding the pair that encodes any int16 value gives that value back |
| Bytes.I16PairRoundTrip | main/mpu6050/mpu6050.c:2350-2352 | every register pair is the encoding of the int16 value it decodes to |
| Bytes.U16RoundTrip | main/mpu6050/mpu6050.c:2945 | the FIFO count register pair decodes as `buf[0]*256 + buf[1]`, giving back any 16-bit count |
| Bytes.U16ShiftOrIsU16BE | main/mpu6050/mpu6050.c:2945 | composing the pair with `(hi << 8) \| lo` is the same number as `hi*256 + lo` |
| BitField.WriteBitByte | main/mpu6050/mpu6050.c:2485-2493 | the written bit equals `data` and the other seven bits keep their old values |
| BitField.ReadBitByte | main/mpu6050/mpu6050.c:2540-2545 | `byte & (1 << bit)` has only bit `bit` possibly set, and is nonzero iff that bit is set in the byte |
| BitField.FieldMask | main/mpu6050/mpu6050.c:2517 | `((1 << length) - 1) << (bitStart - length + 1)` has exactly the field's bits set |
| BitField.WriteBitsByte | main/mpu6050/mpu6050.c:2517-2521 | the merged byte keeps every bit outside the field and holds `data`'s low bits inside it |
| BitField.WriteBitsKeepsOutside | main/mpu6050/mpu6050.c:2517-2521 | `(old & ~mask) \| ((data << s) & mask)` leaves bits outside the field as in `old` |
| BitField.WriteBitsFillsField | main/mpu6050/mpu6050.c:2517-2521 | the same byte holds bit `k - s` of `data` at every field position `k` |
| BitField.ReadBitsByte | main/mpu6050/mpu6050.c:2554-2569 | the field read out is right-aligned: its low `length` bits are the field's bits and the rest are 0 |
| BitField.ReadBitsAfterWriteBits | main/mpu6050/mpu6050.c:2517-2521 | reading a field back after writing `data` gives the low `length` bits of `data` |
| BitField.ReadBitsAfterWriteBitsIsMod | main/mpu6050/mpu6050.c:2517-2521 | that read-back value is `data mod 2^length` |
| RegisterOps.WriteBit | main/mpu6050/mpu6050.c:2485-2493 | only the target register changes. A failed write changes nothing. A successful one sets the bit to `data` and keeps the other bits when the read succeeded, or clears them when it failed |
| RegisterOps.ReadBit | main/mpu6050/mpu6050.c:2540-2545 | the result is 0 or the bit's mask, and nonzero iff the read succeeded and the bit is set |
| RegisterOps.ReadBitAfterWriteBit | main/mpu6050/mpu6050.c:2485-2545 | after a successful write, `read_bit` is nonzero iff `data` was true |
| RegisterOps.WriteBits | main/mpu6050/mpu6050.c:2503-2531 | corrected `write_bits`: it succeeds iff both transfers succeed. Then the field reads back as `data`'s low bits, the other bits and registers are kept, and on failure nothing changes |
| RegisterOps.WriteBitsAsWritten | main/mpu6050/mpu6050.c:2503-2531 | `write_bits` as the source has it: the same register effect, but it returns true iff the read succeeded and the write failed |
| RegisterOps.WriteBitsAsWrittenInvertsSuccess | main/mpu6050/mpu6050.c:2524 | a fully successful field write is reported as false although the field holds the data. A true report means nothing was written, and the two versions disagree whenever the read succeeded |
| RegisterOps.ReadBits | main/mpu6050/mpu6050.c:2554-2569 | a failed read leaves `*data` as it was; otherwise the result is the right-aligned field |
| RegisterOps.ReadBitsAfterWriteBitsDevice | main/mpu6050/mpu6050.c:2503-2569 | after a successful `write_bits`, `read_bits` returns `data mod 2^length` |
| RegisterOps.BankSelByte | main/mpu6050/mpu6050.c:2573-2579 | the BANK_SEL byte has the bank's low five bits, bit 5 = user bank, bit 6 = prefetch, and bit 7 clear |
| RegisterOps.BankSelByteDecodes | main/mpu6050/mpu6050.c:2573-2579 | every byte with bit 7 clear is the composition of its own bank, prefetch and user-bank bits |
| RegisterOps.BankSelSelectsBankMod32 | main/mpu6050/mpu6050.c:2575 | the selected bank is `bank mod 32` |
| RegisterOps.SetMemoryBank | main/mpu6050/mpu6050.c:2573-2581 | only BANK_SEL changes; after a successful write its bits 4-0 are the bank's, bit 5 the user-bank flag, bit 6 the prefetch flag and bit 7 clear, which is the composed bank byte; a failed write changes nothing |
| Settings.FsByte | main/mpu6050/mpu6050.c:2099 | `fs << 3` for a value below 4 decodes back to that value and sets nothing outside bits 3-4 |
| Settings.FsBits | main/mpu6050/mpu6050.c:2108 | `(reg >> 3) & 0x03` is below 4 and carries bits 3 and 4 of the register |
| Settings.AcceFsRoundTrip | main/mpu6050/include/mpu6050.h:428-433 | every accelerometer range survives encode then decode |
| Settings.GyroFsRoundTrip | main/mpu6050/include/mpu6050.h:435-440 | every gyroscope range survives encode then decode |
| Settings.WakeUp | main/mpu6050/mpu6050.c:2069-2081 | a failed read returns its error and changes nothing. Otherwise the write's status is returned; on success the SLEEP bit is clear and the other PWR_MGMT_1 bits and registers are kept |
| Settings.Sleep | main/mpu6050/mpu6050.c:2083-2095 | the same, with the SLEEP bit set |
| Settings.SleepThenWakeRestores | main/mpu6050/mpu6050.c:2069-2095 | sleeping and then waking an awake sensor restores its registers exactly |
| Settings.WakeUpIdempotent | main/mpu6050/mpu6050.c:2069-2081 | waking twice is waking once |
| Settings.Config | main/mpu6050/mpu6050.c:2097-2101 | the two-byte write returns its status. On success GYRO_CONFIG and ACCEL_CONFIG decode to the requested ranges with no other bits set, and all other registers are kept |
| Settings.GetAcceFs | main/mpu6050/mpu6050.c:2103-2110 | after a successful read the range is bits 3-4 of ACCEL_CONFIG |
| Settings.GetGyroFs | main/mpu6050/mpu6050.c:2133-2140 | after a successful read the range is bits 3-4 of GYRO_CONFIG |
| Settings.ConfigThenGet | main/mpu6050/mpu6050.c:2097-2140 | the getters return the ranges `mpu6050_config` wrote |
| Settings.FieldOf | main/mpu6050/include/mpu6050.h:165-195 | every (BIT, LENGTH) pair passed to the field helpers lies inside one byte, with length at least 1 |
| Settings.DefinedValuesFit | main/mpu6050/include/mpu6050.h:177-200 | every enum value for a field is below `2^length`, so masking it discards nothing |
| Settings.SetSetting | main/mpu6050/mpu6050.c:2720-2859 | the field setters (X gyro offset TC, external frame sync, DLPF mode, gyro range, clock source) change only their field; a defined value reads back unchanged |
| Settings.SettingReadBack | main/mpu6050/mpu6050.c:2720-2859 | `read_bits` after a setter returns the value set |
| Settings.GyroRangeSetterAgreesWithGetter | main/mpu6050/mpu6050.c:2774-2777 | the range `set_full_scale_gyro_range` writes through `write_bits` is the one `get_gyro_sensitivity` decodes |
| Settings.SetFlag | main/mpu6050/mpu6050.c:2712-2887 | the one-bit setters (OTP bank valid, DMP enable/reset, FIFO enable/reset, sleep, device reset) set only their bit |
| Settings.GetFlag | main/mpu6050/mpu6050.c:2712-2734 | a flag getter is true iff the read succeeded and the bit is set |
| Settings.FlagReadBack | main/mpu6050/mpu6050.c:2712-2887 | reading a flag after setting it returns the value set |
| Settings.SleepIsSetSleepEnabled | main/mpu6050/mpu6050.c:2069-2095 | `sleep`/`wake_up` have the same register effect as `set_sleep_enabled(true/false)` |
| Interrupts.PinCfgByte | main/mpu6050/mpu6050.c:2185-2212 | corrected INT_PIN_CFG byte: bits 7-4 encode level, drive mode, latch and clear behaviour in both directions; bits 3-0 keep their old values |
| Interrupts.PinCfgRoundTrip | main/mpu6050/mpu6050.c:2185-2212 | the corrected byte decodes back to the requested configuration |
| Interrupts.PinCfgByteAsWritten | main/mpu6050/mpu6050.c:2185-2212 | the byte as the source builds it: the old byte OR the requested bits |
| Interrupts.PinCfgAsWrittenBits | main/mpu6050/mpu6050.c:2185-2212 | each of bits 7-4 ends up set if it was already set or was requested, so it can never be cleared |
| Interrupts.PinCfgAsWrittenKeepsActiveLow | main/mpu6050/mpu6050.c:2194-2224 | on a sensor already configured active-low, asking for active-high leaves the pin active-low while the GPIO is set for a rising edge |
| Interrupts.GpioEdge | main/mpu6050/mpu6050.c:2221-2230 | the GPIO edge is falling iff the pin is active-low |
| Interrupts.ConfigInterrupts | main/mpu6050/mpu6050.c:2163-2242 | a missing configuration or bad pin gives ESP_ERR_INVALID_ARG and changes nothing. A failed read or write gives an error result and leaves the registers as they were. The GPIO is configured only after both succeed. INT_PIN_CFG then holds the old byte OR the requested bits: bit 7 is set if it was set before or active low was asked for, and bits 3-0 are kept. The GPIO edge follows the requested level alone |
| Interrupts.ConfigInterruptsIntended | main/mpu6050/mpu6050.c:2163-2242 | the corrected operation: the same error paths, and after success INT_PIN_CFG decodes back to exactly the requested configuration, with the GPIO edge matching the level the sensor drives |
| Interrupts.ConfigInterruptsKeepsActiveLow | main/mpu6050/mpu6050.c:2194-2229 | on a sensor with INT_PIN_CFG = 0x80, configuring active high succeeds and arms a rising edge while the sensor stays active low; the corrected operation makes it active high |
| Interrupts.ConfigInterruptsFromClearAgrees | main/mpu6050/mpu6050.c:2185-2212 | when bits 7-4 of INT_PIN_CFG are clear beforehand, the driver's operation and the corrected one give the same result |
| Interrupts.EnableInterrupts | main/mpu6050/mpu6050.c:2270-2291 | a failed read returns its error. Otherwise the write happens iff the mask differs from `sources`, and on success the mask is `old \| sources` |
| Interrupts.DisableInterrupts | main/mpu6050/mpu6050.c:2293-2313 | a failed read returns its error. Otherwise the write happens iff `old & sources != 0`, and on success the mask is `old & ~sources` |
| Interrupts.EnableNeverClears | main/mpu6050/include/mpu6050.h:636-637 | enabling never clears an enabled bit, and every requested source ends up enabled |
| Interrupts.DisableNeverSets | main/mpu6050/include/mpu6050.h:655-656 | disabling never sets a bit, and every requested source ends up disabled |
| Interrupts.EnableIdempotent | main/mpu6050/mpu6050.c:2270-2291 | enabling the same sources twice gives the registers of enabling once |
| Interrupts.DisableWhenOffWritesNothing | main/mpu6050/mpu6050.c:2305-2310 | disabling sources that are all off performs no write and returns ESP_OK |
| Interrupts.EnableThenDisableRestores | main/mpu6050/mpu6050.c:2270-2313 | enabling sources that were off and then disabling them restores the registers |
| Interrupts.GetInterruptStatus | main/mpu6050/mpu6050.c:2315-2328 | a NULL output gives ESP_ERR_INVALID_ARG; otherwise the read status, and on success the INT_STATUS byte |
| Interrupts.IsDataReady | main/mpu6050/mpu6050.c:2330-2333 | returns 0 or 1, and 1 iff bit 0 is set |
| Interrupts.IsI2cMaster | main/mpu6050/mpu6050.c:2335-2338 | returns 0 or 1, and 1 iff bit 3 is set |
| Interrupts.IsFifoOverflow | main/mpu6050/mpu6050.c:2340-2343 | returns 0 or 1, and 1 iff bit 4 is set |
| Interrupts.StatusPredicatesAgree | main/mpu6050/mpu6050.c:1979-1983 | each test on the status read is 1 iff the register ANDed with its source constant is nonzero; all four sources are in ALL_INTERRUPTS |
| Fifo.GetFifoCount | main/mpu6050/mpu6050.c:2941-2949 | the count is the FIFO length after this poll's arrival; the FIFO only grows by appending, and the clock advances by at least 1 µs and at most the oracle's largest delay |
| Fifo.GetFifoBytes | main/mpu6050/mpu6050.c:2922-2932 | a read of `n > 0` bytes returns and removes the oldest `n`; a zero-length read stores a single 0 and changes nothing |
| Fifo.ResetFifo | main/mpu6050/mpu6050.c:2761-2764 | the reset empties the FIFO and keeps the clock and future arrivals |
| Fifo.DiscardBytes | main/mpu6050/mpu6050.c:2984-2991 | discarding `n` bytes removes exactly the oldest `n`, in transfers of 1..32 bytes, all full but the last |
| Fifo.DiscardToOnePacket | main/mpu6050/mpu6050.c:2980-2992 | the drain loop ends with a count of at most 42, taken from the stream's front. On a static FIFO of 42 or more bytes it leaves exactly the newest 42, having dropped count − 42 |
| Fifo.WaitForData | main/mpu6050/mpu6050.c:2976-2977 | the post-reset wait polls until a nonzero count or past the timeout, reading nothing |
| Fifo.ResetAndWait | main/mpu6050/mpu6050.c:2972-2977 | the overflow branch resets before any data transfer, dropping every byte present, then waits |
| Fifo.Settle | main/mpu6050/mpu6050.c:2969-2994 | one count poll and its branch. On a static FIFO: ≤ 42 bytes are kept, 43..200 are cut to the newest 42, and more than 200 are emptied |
| Fifo.SyncPass | main/mpu6050/mpu6050.c:2967-2994 | one pass of the reader's outer loop keeps its stream, clock and trace accounting, with the same three static-FIFO outcomes |
| Fifo.SyncToOnePacket | main/mpu6050/mpu6050.c:2958-3001 | the loop finds a packet only with exactly 42 bytes queued. A first count of 0 returns at once. Otherwise failure means the 11000 µs timeout passed. On a static FIFO it succeeds iff the count is 42..200, and then holds the newest 42 bytes |
| Fifo.GetCurrentFifoPacket | main/mpu6050/mpu6050.c:2958-3004 | returns only 0 or 1; on 0 `fifoPacket` is untouched and no packet read happened. On 1 exactly one 42-byte read happened, last, and it holds the stream's newest 42 bytes at that time. An overflow first resets the FIFO so no earlier byte can reach the packet. Every discard moves 1..32 bytes |
| Fifo.ReadFoundPacket | main/mpu6050/mpu6050.c:3002-3003 | the final read copies the 42 queued bytes into `fifoPacket` and empties the FIFO |
| MemoryBlock.ChunkLen | main/mpu6050/mpu6050.c:2606-2614 | the chunk size is 1..16, stays inside the data and the bank, and is 16 unless one of those ends is reached |
| MemoryBlock.WriteMemoryBlock | main/mpu6050/mpu6050.c:2590-2682 | the writes follow the plan: sizes as chosen, consecutive chunks contiguous, the address advancing mod 256 and the bank by one exactly when it wraps to 0. A true result means the chunks cover the data; false only when verifying and a chunk read back wrong. Trusted writes of up to 8192 bytes leave image byte j at `(bank*256+address+j) mod 8192` and every other byte as it was |
| MemoryBlock.WriteChunk | main/mpu6050/mpu6050.c:2604-2675 | one loop pass keeps the plan, register selection and memory contents invariants, or stops on a failed verification |
| MemoryBlock.SendChunk | main/mpu6050/mpu6050.c:2628-2660 | a chunk write that lands or is verified extends the loaded prefix by the chunk; a failed verification exhibits the mismatch |
| MemoryBlock.NextPosition | main/mpu6050/mpu6050.c:2663-2675 | advancing `i`, the `uint8_t` address and the bank after a chunk keeps the plan and the 16-bit linear position `bank*256+address = start+i mod 2^16` |
| MemoryBlock.AdvanceLinear | main/mpu6050/mpu6050.c:2666-2672 | adding the chunk size to the address, and one to the bank on wrap, adds the chunk size to the linear position |
| MemoryBlock.SlotOfCursor | main/mpu6050/mpu6050.c:2633-2634 | bank mod 32 and address select the image's slot `start + i mod 8192` |
| MemoryBlock.HoldsStep | main/mpu6050/mpu6050.c:2628 | writing the next chunk at its slot extends the loaded prefix and disturbs nothing else |
| MemoryBlock.DmpImageFits | main/mpu6050/include/mpu6050.h:399-416 | loading the 1929-byte DMP image from bank 0, address 0 stays in banks 0..7; 16 and 32 fit a `uint8_t`, and 16 divides 256 |
| SensorData.DecodeAxes | main/mpu6050/mpu6050.c:2350-2352 | each axis is the int16 whose big-endian encoding is its byte pair, negative iff the high byte's top bit is set |
| SensorData.DecodeEncodeAxes | main/mpu6050/mpu6050.c:2350-2352 | decoding an encoded sample gives it back |
| SensorData.EncodeDecodeAxes | main/mpu6050/mpu6050.c:2350-2352 | every six bytes are the encoding of their decoded sample |
| SensorData.GetRawAcce | main/mpu6050/mpu6050.c:2345-2354 | returns the read status; on success the sample is the one ACCEL_XOUT_H..ACCEL_ZOUT_L encode |
| SensorData.GetRawGyro | main/mpu6050/mpu6050.c:2356-2366 | returns the read status; on success the sample is the one GYRO_XOUT_H..GYRO_ZOUT_L encode |
| SensorData.RawAcceReadsSample | main/mpu6050/mpu6050.c:2345-2354 | a sensor presenting a sample in its accelerometer registers is read as that sample |
| SensorData.RawGyroReadsSample | main/mpu6050/mpu6050.c:2356-2366 | a sensor presenting a sample in its gyroscope registers is read as that sample |
| SensorData.QuaternionWord | main/mpu6050/mpu6050.c:3011 | `(p[j] << 8) \| p[j+1]` narrowed to int16 is the big-endian signed word |
| SensorData.GetQuaternion | main/mpu6050/mpu6050.c:3006-3016 | returns 0 and the quaternion whose components are encoded by packet bytes 0-1, 4-5, 8-9 and 12-13 |
| SensorData.QuaternionReadsPacket | main/mpu6050/mpu6050.c:3011-3014 | a packet carrying a quaternion yields exactly that quaternion |
| SensorData.QuaternionUsesOnlyItsWords | main/mpu6050/mpu6050.c:3011-3014 | packets that agree on those eight bytes yield the same quaternion |

## Left out

- I²C framing is left out (`mpu6050_write`/`mpu6050_read`, mpu6050.c:1999-2044). A transaction is a register-file update plus a status parameter.
- Device creation, `mpu6050_init`, `mpu6050_dmp_initialize`, `init_motion_detection`, `register_isr`, the GPIO and ISR set-up, and the motion-threshold setters are left out. They are bus sequencing with no logic of their own beyond the helpers modelled here.
- `gpio_config` is not modelled; `Interrupts.ConfigInterrupts` returns the configuration it would pass and takes the call's status as a parameter.
- `set_rate`, `set_DMP_config1/2`, `get_DMP_config1/2`, `read_memory_byte` and `get_FIFO_byte` are left out. Each is a single register transfer with no computation.
- `set_int_enabled` and its `TEST_ASSERT` are left out for the same reason.
- The `dmpMemory` firmware blob is left out: it is data. Only its size, 1929 bytes, enters `MemoryBlock.DmpImageFits`.
- All floating-point code is left out: sensitivities, `get_acce`, `get_gyro`, `get_temp`, `calc_error`, the complementary filter and `main/linear_algebra/linear_algebra.h`.
- `main/grenade.c` is left out. It holds only GPIO reads, delays and an empty `explode()`, and has no state machine or debouncer.
- The concurrent FIFO producer and the real timer are replaced by the arrival oracle and the `now` field. Properties about exact FIFO contents are stated for a static FIFO, one that no further byte reaches.
- The doc comment of `mpu6050_get_current_FIFO_packet` (mpu6050.c:2951-2957) promises a return value of 2 for overflow recovery. The code never produces it, and `Fifo.GetCurrentFifoPacket` proves the result is 0 or 1.
- The discard loop (mpu6050.c:2982-2992) never checks the timer. A producer that keeps the count above 42 keeps it draining. `Fifo.DiscardStep` proves each pass shrinks the remaining stream, so it terminates only because the oracle is finite.
- Fifo.GetFifoCount: the FIFO_COUNTH/L read is taken to succeed. On a failed read the driver ignores the status and composes the count from its uninitialised two-byte buffer (mpu6050.c:2943-2945).
- Fifo.GetFifoBytes: the FIFO_R_W read is taken to succeed. The driver ignores a failed read's status (mpu6050.c:2926), and whether the sensor still pops the bytes is not modelled.
- Fifo.ResetFifo: the reset is taken to succeed and to touch only the FIFO. In the driver it is `mpu6050_write_bit` on USER_CTRL (mpu6050.c:2761-2764), so a failed read followed by a good write would set USER_CTRL to the FIFO_RESET bit alone, clearing FIFO_EN and DMP_EN. A failed write would leave the FIFO unreset. USER_CTRL's other bits are not part of the FIFO model.
- Fifo.GetCurrentFifoPacket: every FIFO transfer is taken to succeed. The driver checks none of their statuses, so when the final 42-byte read fails it still returns 1 with `fifoPacket` not refreshed. The promise that on 1 the packet holds the newest 42 bytes holds only for runs whose transfers all succeed.
- Fifo.GetFifoCount: the hardware FIFO's finite capacity (1024 bytes in the MPU-6050 register map) is not modelled. The FIFO grows without limit, and the sensor's overflow behaviour, which drops the oldest bytes (mpu6050.c:2904-2907), never occurs in the model. The reader's reset above 200 bytes (mpu6050.c:2972-2977) is modelled as written.
- Fifo.GetCurrentFifoPacket: the FIFO count is narrowed into `int16_t fifoC` (mpu6050.c:2963, 2969), and the model keeps that narrowing (`ToInt16`). The static-FIFO outcomes are stated only for counts below 32768.
- MemoryBlock.WriteMemoryBlock: the status of the BANK_SEL, MEM_START_ADDR and read-back transfers is not modelled. The driver ignores them too; only lost chunk writes are modelled, through `lost`.
- MemoryBlock.WriteMemoryBlock: a failed `malloc` of the verify buffer, which silently disables verification, is not modelled. The `useProgMem` copy is not modelled either: both paths send the same bytes.
- MemoryBlock.WriteMemoryBlock: the memory port's address auto-increment is not modelled. The driver reselects bank and address before every access, so no modelled result depends on it.
- MemoryBlock.WriteMemoryBlock: the memory contents are stated only for images of at most 8192 bytes, where no chunk overwrites an earlier one.
- SensorData.GetRawAcce: a failed read decodes the uninitialised stack buffer; the model takes those bytes as the parameter `stale`.

## Findings

| source | as written | input that shows it | evidently intended | confidence | as-written member | corrected member |
|---|---|---|---|---|---|---|
| main/mpu6050/mpu6050.c:2524 | `return mpu6050_write(...)` converts `esp_err_t` to `bool`, so ESP_OK (0) becomes `false` | a read and a write that both succeed: the field is written and the call returns false | return true exactly when the write succeeded, as the doc comment at 2501 says | high, not executed | RegisterOps.WriteBitsAsWrittenInvertsSuccess | RegisterOps.WriteBits |
| main/mpu6050/mpu6050.c:2194-2212 | the INT_PIN_CFG byte is built only with `\|=`, starting from the register's current value, so bits 7-4 can be set but never cleared | INT_PIN_CFG = 0x80 (active-low) and a request for active-high, push-pull, 50 µs pulse, clear on status read: the byte stays 0x80, the pin stays active-low, and the GPIO is armed for a rising edge | each of bits 7-4 set or cleared to match the request, bits 3-0 kept | medium, not executed | Interrupts.ConfigInterruptsKeepsActiveLow | Interrupts.ConfigInterruptsIntended |
