# LSM303AGR / LSM303C driver core in Dafny

A model of the register-level logic of the Rust `lsm303agr` driver. The
driver controls two ST accelerometer-plus-magnetometer chips, the LSM303AGR
and the LSM303C. The model covers four layers.

- **Register bitfields.** Every register is a `bv8` (`Bits.Byte`). The
  bitflags operations of the driver (union, difference, intersection,
  contains, `from_bits_truncate`) are functions whose contracts give their
  meaning on the set of bit indices (`Bits.Elems`). On top of them sit the
  typed field encoders and decoders of both chips (`CRegister`,
  `AgrRegister`). `RegIo` models the `register!` read/write contract.
- **Rate, mode and scale tables.** The hertz conversions, settling times and
  acceleration factor tables of both chips (`AgrTypes`, `CTypes`).
- **Unit conversion.** Raw counts become milli-g and nano-tesla, with
  Rust's truncating `i16` division written out (`Types`).
- **Device operations on the register copies.** A handle
  (`AgrDevice.Lsm303agr`, `CDevice.Lsm303c`) is a record of the register
  copies the driver keeps, the remembered accelerometer rate and the
  magnetometer typestate tag. Every operation is a pure function from a
  handle, a bus outcome and its inputs to a `Bus.Step`. A step holds:
  - the new handle;
  - the writes attempted, in order;
  - the registers read;
  - the delay requested, in microseconds;
  - the result.

  The bus outcome (`Bus.Fault`) is either healthy or a failure at write
  number k. Values read from the chip are parameters of type `Result`, so
  a read can also fail.

Two invariants run through every device operation.

- `Tracks(d, f, s)`: the new handle is the old one with exactly the writes
  that landed recorded, each copy holding the last value written to it.
  This is the driver's "write, then record on success" discipline.
- `WellFormed(d)`: every copy holds only declared bits, the remembered rate
  agrees with CTRL_REG1_A, and the scale field is decodable.

Layout: `wrappers`, `bits`, `reg_io`, `bus` and `types` are shared.
`agr_*` and `c_*` hold the two chips: types, register map, device record
with the reads, accelerometer, magnetometer, and setup (init and resets).
The driver expands one macro per operation for both chips; the model
writes each expansion out.

Canonical shapes, where the driver's files disagree with each other:

- `Types.Acceleration` carries separate resolution and scaling factors, as
  the `Acceleration` struct declares. The read fills both fields from the
  mode and scale the register copies describe.
- The LSM303C handle has all thirteen register copies of its struct.
  `new` sets every one to its default, and the typestate transitions carry
  every one over.
- The LSM303C accelerometer mode has no `factor` method. The model pairs
  its `resolution_factor` with its `scaling_factor` in `CTypes.Factor`.
- The LSM303C `set_mag_mode_and_odr` and `get_mag_mode` call `mode()`
  and `with_mode()` on CTRL_REG1_M (magnetometer.rs lines 29, 33 and 55).
  The LSM303C `CtrlReg1M` declares no such methods; its X/Y mode
  accessors are `xy_mode` and `with_xy_mode` (src/c/register.rs lines
  316-334). The model reads the calls as those two.
- The model does not transcribe `src/agr/register.rs`.
  - The bits the driver's tests fix are used as they fix them:
    - the rate codes 1 to 9 in bits 7:4 of CTRL_REG1_A;
    - LPEN;
    - FIFO_EN = 0x40;
    - the FIFO mode field in bits 7:6 and the threshold in bits 4:0;
    - the watermark interrupt = 0b100.
  - Every other bit follows the LSM303AGR datasheet.
  - The magnetometer turn-on time of `CfgRegAM` is a function parameter.

## Model

| member | source | states |
|---|---|---|
| Bits.Union | src/c/register.rs:46-51 | the bits of a union are the bits of either operand |
| Bits.Difference | src/c/register.rs:43 | the bits of a difference are those of the first operand not in the second |
| Bits.Intersection | src/device_impl/accel_mode_and_odr.rs:72 | the bits of an intersection are those in both operands |
| Bits.Contains | src/c/register.rs:406-408 | `contains` holds exactly when every bit of the flag is set |
| Bits.Intersects | src/c/register.rs:316-323 | `intersects` holds exactly when the operands share a bit |
| Bits.IsEmpty | src/device_impl/accel_mode_and_odr.rs:72 | `is_empty` holds exactly when no bit is set |
| Bits.Set | src/device_impl/fifo.rs:17-18 | `set(flag, true)` adds the flag's bits; `set(flag, false)` removes them |
| Bits.Complement | src/device_impl/magnetometer.rs:86-87 | `!flag` is the declared bits outside the flag, never an undeclared bit |
| Bits.FromBitsTruncate | src/reg.rs:20-22 | truncation keeps exactly the raw bits that are declared |
| RegIo.ValidElems | src/reg.rs:52-58 | a register value is valid exactly when it sets declared bits only |
| RegIo.FromData | src/reg.rs:20-22 | decoding a byte gives a valid value holding the byte's declared bits |
| RegIo.DataRoundTrip | src/reg.rs:25-32 | for a valid value, decoding its data gives the value back |
| RegIo.DataOfFromData | src/reg.rs:20-31 | the data of a decoded byte is the byte masked to the declared bits, so no bit is invented |
| RegIo.FromDataIdempotent | src/reg.rs:20-31 | decoding the data of a decoded byte changes nothing |
| Bus.Attempted | src/device_impl/init.rs:15-21 | the writes attempted stop at, and include, the failing write; they are a prefix of the plan; they are interrupted exactly when the plan is |
| Bus.LastWrite | src/device_impl/init.rs:25-31 | there is no last write to a register exactly when no write targets it |
| Bus.LastWriteIsLast | src/device_impl/init.rs:25-31 | a last write to a register is a write of that value, and no later write targets the register |
| Bus.LastWriteUnique | src/device_impl/fifo.rs:19-27 | a register written once holds that one value |
| Types.Signed16 | src/types.rs:109-111 | the `as i16` reading agrees with the raw count modulo 2^16 and is negative exactly when bit 15 is set |
| Types.TruncDiv | src/types.rs:109-123 | Rust's `/`: the magnitude of the quotient is the floor of the magnitudes' quotient, and it is negative only when the operands' signs differ |
| Types.TruncDivShrinks | src/types.rs:109-111 | dividing by a non-zero factor never increases the magnitude |
| Types.Acceleration.Unscaled | src/types.rs:107-123 | the unscaled axis is `raw as i16 / resolution_factor` rounded toward zero: its magnitude times the factor's is the largest such multiple not above the count's magnitude, it is negative only when the signs differ, and it is an `i16` |
| Types.Acceleration.Mg | src/types.rs:135-151 | the milli-g axis fits in `i32`, is zero exactly when the scaling factor is zero or the count is smaller than the resolution factor, and otherwise has the sign of the truncated quotient |
| Types.AccelerationReference | src/types.rs:107-151 | for a positive resolution factor the unscaled axis is Dafny's `/` on a non-negative count and minus the quotient of the magnitudes on a negative one, and the milli-g axis is the unscaled axis times the scaling factor |
| Types.MulBound | src/types.rs:137-151 | an `i16` value times a `u8` factor fits in `i32` |
| Types.XyzMatchesAxes | src/types.rs:125-163 | `xyz_unscaled` and `xyz_mg` are the three per-axis results |
| Types.AccelerometerIdFromBitsTruncate | src/types.rs:44-47 | the decoded identifier keeps the raw byte and sets the expected id to 0 |
| Types.MagnetometerIdFromBitsTruncate | src/types.rs:173-176 | the same for the magnetometer identifier |
| Types.MagneticField.Nt | src/types.rs:260-276 | one axis in nT lies between -32768·150 and 32767·150, so it fits in `i32`, and is negative exactly when the raw count's bit 15 is set |
| Types.MagneticFieldFromData | src/types.rs:197-206 | `xyz_raw` of a decoded sample returns the data read |
| Types.MagneticFieldRoundTrip | src/types.rs:204-282 | decoding then `xyz_raw` is the identity, and `xyz_nt` is each signed count times 150 |
| Types.StatusFromData | src/types.rs:285-308 | the status keeps every bit read, since every bit is declared |
| Types.XNewData | src/types.rs:310-314 | X new data holds exactly when bit 0 (XDA) is set |
| Types.YNewData | src/types.rs:316-320 | Y new data holds exactly when bit 1 (YDA) is set |
| Types.ZNewData | src/types.rs:322-326 | Z new data holds exactly when bit 2 (ZDA) is set |
| Types.XyzNewData | src/types.rs:328-332 | XYZ new data holds exactly when bit 3 (ZYXDA) is set |
| Types.XOverrun | src/types.rs:334-338 | X overrun holds exactly when bit 4 (XOR) is set |
| Types.YOverrun | src/types.rs:340-344 | Y overrun holds exactly when bit 5 (YOR) is set |
| Types.ZOverrun | src/types.rs:346-350 | Z overrun holds exactly when bit 6 (ZOR) is set |
| Types.XyzOverrun | src/types.rs:352-356 | XYZ overrun holds exactly when bit 7 (ZYXOR) is set |
| Types.TemperatureUnscaled | src/types.rs:398-402 | the unscaled temperature is the raw count read as `i16` |
| AgrTypes.AccelOdrFromHertz | src/agr/types.rs:28-44 | exactly the ten rates 1, 10, 25, 50, 100, 200, 400, 1344, 1620 and 5376 Hz decode, each to the rate with that frequency |
| AgrTypes.AccelOdrHertzRoundTrip | src/agr/types.rs:30-60 | `from_hertz(to_hertz(r))` is `Some(r)` for every accelerometer rate |
| AgrTypes.AccelFracTablesAreRoundedPeriods | src/agr/types.rs:62-94 | the one-period and seven-period tables are 1000 and 7000 µs divided by the rate, rounded up |
| AgrTypes.AccelFracOrdered | src/agr/types.rs:62-94 | for every rate, seven periods ≥ one period ≥ 1 µs |
| AgrTypes.AccelChangeTimeRule | src/agr/types.rs:110-133 | the change time is 0 when the mode stays or powers down, the turn-on time when powering up, seven periods into high resolution, and one period otherwise |
| AgrTypes.AccelPowerUpTimes | src/agr/types.rs:112-133 | powering up waits 1000 µs into low power, 1600 µs into normal, seven periods into high resolution; high resolution to low power at 100 Hz waits 10 µs |
| AgrTypes.AccelFactorsAgree | src/agr/types.rs:139-174 | the resolution factor is 2^(16 − data bits) and the scaling factor is the full scale times the resolution factor over 32, so all modes agree in mg per count |
| AgrTypes.AccelPowerDownScalesToZero | src/agr/types.rs:139-174 | power-down has resolution 1 and scaling 0 at every scale |
| AgrTypes.Factor | src/agr/types.rs:135-174 | the resolution is one of 1, 16, 64, 256, the scaling is at most 128, and the scaling is 0 exactly in power-down |
| AgrTypes.MagOdrFromHertz | src/agr/types.rs:203-213 | exactly 10, 20, 50 and 100 Hz decode |
| AgrTypes.MagOdrHertzRoundTrip | src/agr/types.rs:203-223 | `from_hertz(to_hertz(r))` is `Some(r)` for every magnetometer rate |
| AgrTypes.MagFracTableIsPeriod | src/agr/types.rs:225-233 | the magnetometer one-period table is exactly 1000 µs divided by the rate |
| AgrTypes.MagTurnOnTimes | src/agr/types.rs:245-257 | the default mode is high resolution at 6400 µs, low power takes 9400 µs, and every one-period wait is shorter than a turn-on |
| CTypes.AccelOdrFromHertz | src/c/types.rs:18-30 | exactly 10, 50, 100, 200, 400 and 800 Hz decode, each to the rate with that frequency |
| CTypes.AccelOdrHertzRoundTrip | src/c/types.rs:18-30 | every LSM303C accelerometer rate decodes from its own frequency |
| CTypes.ResolutionFactor | src/c/types.rs:45-51 | the resolution factor is never 0 |
| CTypes.AccelFactorTable | src/c/types.rs:53-71 | high resolution scales by 1, 2 or 4, normal by 4, 8 or 16, and the scaling factor is the scale discriminant times the resolution factor over 32 |
| CTypes.Factor | src/c/types.rs:44-59 | the resolution is one of 1, 16, 64, and the scaling is 0 exactly in power-down |
| CRegister.DefaultsDeclared | src/c/register.rs:35-39 | every register's default sets declared bits only |
| CRegister.SharedAddresses | src/c/register.rs:424-464 | CTRL_REG4_M and CTRL_REG5_M share address 0x24 on the magnetometer; CTRL_REG1_M and CTRL_REG1_A share 0x20 on different sensors |
| CRegister.AccelOdrOf | src/c/register.rs:42-53 | the ODR field decodes to a rate exactly when it is not 000 or 110, and then it holds that rate's code |
| CRegister.WithAccelOdr | src/c/register.rs:42-53 | `with_odr` puts the rate's code in the ODR field, keeps every other bit, and the field decodes back to the rate |
| CRegister.AccelOdrFieldInjective | src/c/register.rs:42-53 | different rates have different codes |
| CRegister.InterruptFlag | src/c/register.rs:75-84 | each interrupt is one bit of CTRL_REG3_A |
| CRegister.WithInterrupt | src/c/register.rs:88-97 | `with_interrupt` adds exactly the interrupt's bit |
| CRegister.WithoutInterrupt | src/c/register.rs:99-108 | `without_interrupt` removes exactly the interrupt's bit |
| CRegister.InterruptToggle | src/c/register.rs:88-108 | disabling after enabling is disabling alone, and the converse |
| CRegister.InterruptIdempotent | src/c/register.rs:88-108 | enabling a set bit or disabling a clear one changes nothing |
| CRegister.InterruptsIndependent | src/c/register.rs:88-108 | toggling one interrupt leaves every other interrupt's bit as it was |
| CRegister.AccelScaleOf | src/c/register.rs:129-136 | a decodable FS field (not 01) decodes to the scale whose code it holds |
| CRegister.WithAccelScale | src/c/register.rs:138-144 | `with_scale` puts the scale's code in FS, keeps every other bit, and `scale` reads it back |
| CRegister.ScaleRoundTrip | src/c/register.rs:128-144 | writing back the scale a register decodes to changes nothing |
| CRegister.FifoModeOf | src/c/register.rs:207-228 | the FMODE field decodes to a mode exactly when it is not 101 or 110, and then it holds that mode's code |
| CRegister.WithFifoMode | src/c/register.rs:207-228 | `with_mode` puts the mode's code in FMODE, keeps FTH, and reads back |
| CRegister.WithFullThreshold | src/c/register.rs:230-238 | FTH becomes min(n, 31) and FMODE is kept |
| CRegister.XyMode | src/c/register.rs:316-323 | the OM field holds the decoded mode's code |
| CRegister.WithXyMode | src/c/register.rs:325-334 | as written: low power clears OM; any other mode ORs its code into the old OM; the mode reads back exactly when the old OM bits are within the new code |
| CRegister.XyModeFromLowPower | src/c/register.rs:325-334 | from low power, the as-written setter reads back every mode |
| CRegister.XyModeSticks | src/c/register.rs:325-334 | from ultra-high performance (0x60), asking for medium performance leaves ultra-high performance |
| CRegister.XyModeAsWrittenAgrees | src/c/register.rs:325-334 | the as-written setter agrees with the clearing one exactly when the mode reads back |
| CRegister.WithXyModeCleared | src/c/register.rs:325-334 | corrected: OM holds exactly the mode's code and every other bit is kept |
| CRegister.XyModeRoundTrip | src/c/register.rs:316-334 | the corrected setter reads back every mode, and writing back the decoded mode changes nothing |
| CRegister.MagOdr | src/c/register.rs:336-351 | the DO field holds the decoded rate's code |
| CRegister.WithMagOdr | src/c/register.rs:353-366 | `with_odr` keeps every bit outside DO and `odr` reads the rate back |
| CRegister.MagOdrRoundTrip | src/c/register.rs:309-366 | writing back the decoded rate changes nothing, and the default decodes to 10 Hz |
| CRegister.ContinuousMode | src/c/register.rs:402-404 | MD becomes 00; other bits are kept |
| CRegister.IsSingleMode | src/c/register.rs:406-408 | single mode holds exactly when MD is 01 |
| CRegister.SingleMode | src/c/register.rs:410-412 | MD becomes 01; other bits are kept |
| CRegister.IsIdleMode | src/c/register.rs:414-417 | idle holds exactly when MD is 10 or 11 |
| CRegister.IdleMode | src/c/register.rs:419-421 | MD becomes 11; other bits are kept |
| CRegister.SystemModes | src/c/register.rs:395-421 | single mode is single and not idle; continuous is neither; idle is idle and not single; the default is idle |
| CRegister.ZMode | src/c/register.rs:437-444 | the OMZ field holds the decoded mode's code |
| CRegister.WithZMode | src/c/register.rs:446-455 | as written: low power clears OMZ, any other mode ORs its code into the old OMZ |
| CRegister.ZModeSticks | src/c/register.rs:446-455 | from ultra-high performance (0x0C), asking for medium performance leaves ultra-high performance |
| CRegister.WithZModeCleared | src/c/register.rs:446-455 | corrected: OMZ holds exactly the mode's code and every other bit is kept |
| CRegister.ZModeRoundTrip | src/c/register.rs:437-455 | the corrected setter reads back every mode, and writing back the decoded mode changes nothing |
| CRegister.ZModeAsWrittenAgrees | src/c/register.rs:446-455 | the as-written setter agrees with the clearing one exactly when the mode reads back |
| AgrRegister.DefaultsDeclared | src/device_impl/new.rs:53-64 | every LSM303AGR register's default sets declared bits only |
| AgrRegister.TemperatureOverrun | src/types.rs:370-374 | temperature overrun holds exactly when TOR (bit 6) is set |
| AgrRegister.TemperatureNewData | src/types.rs:376-380 | temperature new data holds exactly when TDA (bit 2) is set |
| AgrRegister.WithAccelOdr | tests/accel_mode_and_odr.rs:21-28 | the rate's code goes in bits 7:4 of CTRL_REG1_A; every other bit is kept |
| AgrRegister.AccelOdrOf | src/device_impl/accel_mode_and_odr.rs:71-85 | the ODR field decodes exactly when it is a code from 1 to 9, and then holds that rate's code |
| AgrRegister.WithInterrupt | tests/accel_mode_and_odr.rs:183-195 | `with_interrupt` adds exactly the interrupt's bit |
| AgrRegister.WithoutInterrupt | tests/accel_mode_and_odr.rs:183-195 | `without_interrupt` removes exactly the interrupt's bit |
| AgrRegister.InterruptDeclared | src/device_impl/interrupts.rs:10-31 | enabling or disabling an interrupt keeps CTRL_REG3_A within its declared bits |
| AgrRegister.InterruptToggle | src/device_impl/interrupts.rs:10-31 | disabling after enabling is disabling alone, and the converse |
| AgrRegister.InterruptIdempotent | src/device_impl/interrupts.rs:10-31 | enabling a set bit or disabling a clear one changes nothing |
| AgrRegister.AccelScaleOf | src/device_impl/accel_mode_and_odr.rs:175-178 | the FS field holds the decoded scale's code |
| AgrRegister.WithAccelScale | src/device_impl/accel_mode_and_odr.rs:168-169 | the scale setter keeps every other bit and reads back |
| AgrRegister.ScaleRoundTrip | src/device_impl/accel_mode_and_odr.rs:168-178 | writing back the decoded scale changes nothing |
| AgrRegister.FifoModeOf | tests/accel_mode_and_odr.rs:198-217 | the FM field (bits 7:6) holds the decoded mode's code |
| AgrRegister.WithFifoMode | tests/accel_mode_and_odr.rs:198-217 | the FIFO mode setter keeps every bit outside FM and reads back |
| AgrRegister.WithFullThreshold | tests/accel_mode_and_odr.rs:198-217 | FTH (bits 4:0) becomes min(n, 31); every other bit is kept |
| AgrRegister.MagModeOf | src/device_impl/magnetometer.rs:27-30 | the decoded magnetometer mode is low power exactly when LP (bit 4) is set |
| AgrRegister.WithMagMode | src/device_impl/magnetometer.rs:34 | the mode setter changes LP only and reads back |
| AgrRegister.MagOdrOf | src/device_impl/magnetometer.rs:27-32 | the ODR field holds the decoded rate's code |
| AgrRegister.WithMagOdr | src/device_impl/magnetometer.rs:34 | the rate setter changes the ODR field only and reads back |
| AgrRegister.MagModeOdrRoundTrip | src/device_impl/magnetometer.rs:27-34 | writing back the decoded mode and rate changes nothing; the default is high resolution at 10 Hz |
| AgrRegister.ContinuousMode | src/device_impl/mag_mode_change.rs:17 | MD becomes 00; other bits are kept |
| AgrRegister.IsSingleMode | src/device_impl/magnetometer.rs:107-108 | single mode holds exactly when MD is 01 |
| AgrRegister.SingleMode | src/device_impl/magnetometer.rs:110 | MD becomes 01; other bits are kept |
| AgrRegister.IsIdleMode | src/device_impl/mag_mode_change.rs:42 | idle holds exactly when MD is 10 or 11 |
| AgrRegister.IdleMode | src/device_impl/mag_mode_change.rs:42 | MD becomes 11; other bits are kept |
| AgrRegister.SystemModes | src/device_impl/mag_mode_change.rs:14-53 | single mode is single and not idle; continuous is neither; idle is idle and not single; the default is idle |
| AgrRegister.OffsetCancellation | src/device_impl/magnetometer.rs:39 | offset cancellation is on exactly when OFF_CANC (bit 1) is set |
| AgrRegister.WithOffsetCancellation | src/device_impl/magnetometer.rs:77 | OR with OFF_CANC adds bit 1 only |
| AgrRegister.WithoutOffsetCancellation | src/device_impl/magnetometer.rs:87 | AND with the complement removes bit 1 and drops every undeclared bit |
| AgrRegister.WithOneShotOffsetCancellation | src/device_impl/magnetometer.rs:128-130 | adds bits 1 and 4 (OFF_CANC and OFF_CANC_ONE_SHOT) only |
| AgrRegister.WithoutOneShotOffsetCancellation | src/device_impl/magnetometer.rs:140-142 | removes bits 1 and 4 only |
| CDevice.Shadow | src/c/mod.rs:18-36 | a register has a copy exactly when the handle keeps one |
| CDevice.New | src/device_impl/new.rs:7-16 | a new handle holds the interface, no remembered rate, and one-shot mode |
| CDevice.NewWellFormed | src/device_impl/new.rs:66-77 | every copy of a new handle is its register's default, and the handle is well formed |
| CDevice.NewWithI2c | src/device_impl/new.rs:5-23 | construction is `New` on an I2C interface, and `destroy` returns exactly the bus passed in |
| CDevice.NewWithSpi | src/device_impl/new.rs:26-48 | construction is `New` on an SPI interface, and `destroy` returns the bus and both chip selects passed in |
| CDevice.DestroyI2c | src/device_impl/new.rs:19-23 | `destroy` returns the bus inside the interface |
| CDevice.DestroySpi | src/device_impl/new.rs:44-48 | `destroy` returns the bus and both chip selects inside the interface |
| CDevice.AccelStatus | src/device_impl.rs:38-42 | one read of STATUS_REG_A, no write; a failed read is the error; otherwise the status keeps every bit read |
| CDevice.MagStatus | src/device_impl.rs:62-66 | the same for STATUS_REG_M |
| CDevice.GetAccelMode | src/device_impl/accel_mode_and_odr.rs:136-150 | power-down exactly when ODR is empty; high resolution exactly when ODR is set and HR is set |
| CDevice.GetAccelScale | src/device_impl/accel_mode_and_odr.rs:175-178 | the FS field holds the scale's code |
| CDevice.ReadAcceleration | src/device_impl.rs:45-59 | one read, no write; the sample holds the counts read and the factors of the mode and scale the copies describe, so every axis is divisible |
| CDevice.AccelerationWorkedExamples | src/c/types.rs:45-59 | 128 counts in normal mode at ±8 g are 32 mg; in high resolution at ±2 g, 256 counts are 16 mg, −256 counts are −16 mg and −15 counts are 0 mg (rounded toward zero) |
| CDevice.AccelerometerId | src/device_impl.rs:69-73 | the identifier holds the byte read and the expected 0b01000001, so `is_correct` holds exactly when the byte read is 0b01000001 |
| CDevice.MagnetometerId | src/device_impl.rs:76-80 | the same with the expected 0b00111101 |
| CDevice.ReadTemperature | src/device_impl.rs:100-108 | one two-byte read of TEMP_L_M on the magnetometer, no write; the sample holds the count read |
| CDevice.Update | src/device_impl/interrupts.rs:14-16 | recording a value changes that one copy and nothing else |
| CDevice.UpdateSame | src/device_impl/interrupts.rs:14-16 | recording the value a copy already holds changes nothing |
| CDevice.Replay | src/device_impl/init.rs:15-21 | after recording a series of writes, each copy holds the last value written to it, or its old value if none |
| CDevice.Run | src/device_impl/init.rs:15-21 | a series of writes stops at the first failure, records exactly the writes that landed, and succeeds exactly when none failed |
| CDevice.WriteOne | src/device_impl/interrupts.rs:34-40 | one write; it succeeds exactly when it lands, and only then is it recorded |
| CDevice.TracksKeepsWellFormed | src/device_impl/init.rs:25-31 | recording landed writes of declared bits that leave the rate fields alone keeps the handle well formed |
| CAccel.ModeReg1 | src/device_impl/accel_mode_and_odr.rs:112-122 | ODR holds the rate's code (empty without a rate), HR is set exactly in high resolution, and every other bit is kept |
| CAccel.TurnOnDelay | src/device_impl/accel_mode_and_odr.rs:128-130 | a 100000 µs delay exactly when leaving power-down |
| CAccel.SetAccelModeAndOdr | src/device_impl/accel_mode_and_odr.rs:98-133 | a missing rate outside power-down fails with InvalidInputData, with no write, no delay and the handle unchanged; otherwise one write of CTRL_REG1_A, recorded with the rate only if it lands, then the turn-on delay; on success the mode reads back as requested, except that power-down with a rate reads as normal, since the ODR field stays set |
| CAccel.SetAccelModeAndOdrDeclared | src/device_impl/accel_mode_and_odr.rs:112-126 | the setter writes declared bits only and keeps every copy within its declared bits |
| CAccel.SetAccelModeAndOdrWellFormed | src/device_impl/accel_mode_and_odr.rs:98-133 | the setter keeps the handle well formed, whether or not the write lands |
| CAccel.NewIsPoweredDown | src/c/register.rs:35-39 | a new handle is powered down, and enabling it waits 100000 µs and reaches the requested mode |
| CAccel.SetAccelModeAndOdrTwice | src/device_impl/accel_mode_and_odr.rs:98-133 | a second identical call on a healthy bus leaves the handle as the first one did and requests no delay |
| CAccel.ModeReg1Idempotent | src/device_impl/accel_mode_and_odr.rs:112-122 | computing the register twice gives the same value |
| CAccel.SetAccelScale | src/device_impl/accel_mode_and_odr.rs:168-173 | one write of CTRL_REG4_A, recorded only if it lands; afterwards the scale reads back and the mode is unchanged |
| CAccel.SetAccelScaleRoundTrip | src/device_impl/accel_mode_and_odr.rs:168-178 | setting the scale the handle already reports changes nothing |
| CAccel.FifoWrites | src/device_impl/fifo.rs:17-25 | CTRL_REG3_A is written before FIFO_CTRL |
| CAccel.AccSetFifoMode | src/device_impl/fifo.rs:12-30 | the two writes stop at the first failure, each recorded only if it lands; success exactly when both land |
| CAccel.AccSetFifoModeRegisters | src/device_impl/fifo.rs:17-27 | after success FIFO_EN is set exactly when the mode is not bypass, FMODE reads back, and FTH is min(fth, 31) |
| CAccel.FifoLanded | src/device_impl/fifo.rs:19-27 | after success both copies hold the values written |
| CAccel.AccEnableInterrupt | src/device_impl/interrupts.rs:10-19 | one write; on success the interrupt's bit is added and nothing else changes |
| CAccel.AccDisableInterrupt | src/device_impl/interrupts.rs:22-31 | one write; on success the interrupt's bit is removed and nothing else changes |
| CAccel.InterruptEnableDisable | src/device_impl/interrupts.rs:10-31 | enabling then disabling an interrupt whose bit was clear restores the handle |
| CMag.GetMagMode | src/device_impl/magnetometer.rs:54-56 | OM holds the code of the mode reported |
| CMag.PowerReg | src/device_impl/magnetometer.rs:27-34 | as written: the rate reads back; the mode reads back exactly when it is low power or the old OM bits lie within its code; every bit outside OM and DO is kept |
| CMag.SetMagModeAndOdr | src/device_impl/magnetometer.rs:21-51 | as written: one write of CTRL_REG1_M, recorded only if it lands, no delay; on success the rate reads back, and the mode reads back exactly under the condition above |
| CMag.PowerRegCorrected | src/c/register.rs:325-334 | corrected: with OM cleared before the new code is added, the mode and rate read back and every bit outside OM and DO is kept |
| CMag.SetMagModeAndOdrCorrected | src/device_impl/magnetometer.rs:21-51 | corrected: the same single write of CTRL_REG1_M; on success the mode and rate always read back |
| CMag.PowerRegRoundTrip | src/device_impl/magnetometer.rs:27-34 | writing back the decoded mode and rate gives the register back, with either setter |
| CMag.SetMagModeAndOdrRoundTrip | src/device_impl/magnetometer.rs:21-56 | setting the mode and rate the handle already reports changes nothing, with either setter |
| CMag.AsWrittenModeSticks | src/c/register.rs:325-334 | from ultra-high performance the as-written setter cannot reach medium performance, and the corrected one can |
| CMag.MagneticFieldContinuous | src/device_impl/magnetometer.rs:64-66 | one three-axis read, no status read, no write |
| CMag.ConversionUnderWay | src/device_impl/magnetometer.rs:107-108 | the byte read counts as single mode exactly when its low two bits are 01 |
| CMag.MagneticFieldOneShot | src/device_impl/magnetometer.rs:102-116 | status first; with new data the sample is returned and nothing is written; otherwise single mode is written and recorded only when the byte read is not in single mode, and the result is WouldBlock |
| CMag.StartConversion | src/device_impl/magnetometer.rs:108-113 | one write of single mode to CTRL_REG3_M, recorded only if it lands |
| CMag.IntoMagContinuous | src/device_impl/mag_mode_change.rs:14-28 | one write; on failure the error and the unchanged handle; on success continuous mode, MD = 00 and every other field carried over |
| CMag.IntoMagOneShot | src/device_impl/mag_mode_change.rs:39-53 | one write; on failure the error and the unchanged handle; on success one-shot mode, MD = 11 and every other field carried over |
| CMag.MagModeRoundTrip | src/device_impl/mag_mode_change.rs:14-53 | from one-shot with MD = 11, continuous then one-shot gives back the original handle |
| CMag.MagEnableInterrupt | src/device_impl/interrupts.rs:34-40 | one write; on success IEA (bit 2) is added to INT_CFG_M and nothing else changes |
| CMag.MagDisableInterrupt | src/device_impl/interrupts.rs:43-49 | one write; on success IEA is removed and nothing else changes |
| CMag.MagInterruptEnableDisable | src/device_impl/interrupts.rs:34-49 | enabling then disabling with IEA clear restores the handle |
| CMag.NewMagInterruptOff | src/c/register.rs:501-505 | a new handle has IEA clear |
| CSetup.EnableTempAsWritten | src/device_impl/init.rs:44-51 | as written: TEMP_EN is added to the CTRL_REG1_M copy but sent through the accelerometer |
| CSetup.EnableTempHitsAccelerometer | src/device_impl/init.rs:63-68 | on a new handle that write sends 0x90 to accelerometer address 0x20, which is CTRL_REG1_A: high resolution at 10 Hz, while the handle reports power-down and no longer tracks the bus |
| CSetup.EnableTemp | src/device_impl/init.rs:44-51 | corrected: TEMP_EN is written to the magnetometer and recorded only if it lands; the accelerometer mode is unchanged |
| CSetup.InitWrites | src/device_impl/init.rs:15-21 | corrected: six writes in order, each to the sensor that owns its register; none disturbs the rate or the scale |
| CSetup.Init | src/device_impl/init.rs:15-21 | corrected: the writes stop at the first failure, each recorded only if it lands; success exactly when none fails; the handle stays well formed |
| CSetup.InitWritesAsWritten | src/device_impl/init.rs:15-21 | as written: the same six registers and values, every write but the third as in the corrected init; the third, CTRL_REG1_M, goes to the accelerometer |
| CSetup.InitAsWritten | src/device_impl/init.rs:15-51 | as written: those writes go out and stop at the first failure; the copies record the values as if each had reached its own sensor; success exactly when none fails, leaving the same handle as the corrected init |
| CSetup.InitAsWrittenHitsAccelerometer | src/device_impl/init.rs:63-68 | on a new handle the driver's `init` succeeds, sends 0x90 to accelerometer address 0x20 (CTRL_REG1_A) with no later accelerometer write there, and the handle reports power-down where the device is at high resolution |
| CSetup.InitWritesAsWrittenNew | src/device_impl/init.rs:45-47 | on a new handle the third write is 0x90 to the accelerometer, and writes four to six miss accelerometer address 0x20 |
| CSetup.InitialisedNewPowerDown | src/device_impl/init.rs:24-31 | a new handle after `init` reports power-down, and with 0x90 in CTRL_REG1_A it would report high resolution |
| CSetup.Initialised | src/device_impl/init.rs:24-113 | BDU (bit 3) is added to CTRL_REG1_A, BDU (bit 6) to CTRL_REG5_M, TEMP_EN (bit 7) to CTRL_REG1_M, IF_ADD_INC (bit 2) to CTRL_REG4_A, FS1 and FS0 (bits 6, 5) to CTRL_REG2_M, SIM (bit 2) to CTRL_REG3_M; no other copy changes |
| CSetup.InitRegisters | src/device_impl/init.rs:24-113 | after success, CTRL_REG1_A and CTRL_REG5_M gain BDU, CTRL_REG1_M gains TEMP_EN, CTRL_REG4_A gains IF_ADD_INC, CTRL_REG2_M gains FS1 and FS0, CTRL_REG3_M gains SIM; nothing else changes |
| CSetup.InitialisedIdempotent | src/device_impl/init.rs:24-113 | adding the flags again changes nothing |
| CSetup.InitIdempotent | src/device_impl/init.rs:15-21 | a second `init` on a healthy bus leaves the handle as the first |
| CSetup.InitKeepsAccel | src/device_impl/init.rs:24-31 | `init` keeps the accelerometer mode and scale |
| CSetup.InitKeepsMag | src/device_impl/init.rs:98-113 | `init` keeps the magnetometer mode and rate and turns the temperature sensor on |
| CSetup.ResetAll | src/device_impl/reset.rs:23-26 | the listed copies return to their defaults; nothing else changes |
| CSetup.ResetWrites | src/device_impl/reset.rs:14-20 | both writes go to the control register on its own sensor: first the copy with the reset flag added, then the register's default |
| CSetup.Reset | src/device_impl/reset.rs:14-29 | the writes stop at the first failure; only after both land do the control register and the listed copies return to their defaults; on failure nothing changes, so the flag is never recorded |
| CSetup.AccRebootMem | src/device_impl/reset.rs:78-87 | writes CTRL_REG6_A with BOOT and then 0; on success CTRL_REG6_A and CTRL_REG1_M are back at their defaults |
| CSetup.MagRebootMem | src/device_impl/reset.rs:32-47 | writes CTRL_REG2_M with REBOOT and then 0; on success CTRL_REG2_M and CTRL_REG3_M are back at their defaults |
| CSetup.MagSoftReset | src/device_impl/reset.rs:50-65 | the same with SOFT_RST |
| CSetup.ResetsSucceed | src/device_impl/reset.rs:14-65 | on a healthy bus all three resets succeed |
| CSetup.AccRebootAgreesWithNew | src/device_impl/reset.rs:19-26 | after the reboot the reset copies equal a new handle's |
| CSetup.AccRebootTwice | src/device_impl/reset.rs:14-29 | a second reboot leaves the handle as the first |
| CSetup.MagResetAgreesWithNew | src/device_impl/reset.rs:32-65 | after a reset the reset copies equal a new handle's, and the soft reset leaves the same handle as the reboot |
| CSetup.MagRebootTwice | src/device_impl/reset.rs:32-47 | a second reboot leaves the handle as the first |
| CSetup.MagResetKeepsTypestate | src/device_impl/reset.rs:9-12 | a continuous-mode handle keeps its tag while its copy of CTRL_REG3_M is back in idle mode |
| AgrDevice.Shadow | src/agr/mod.rs:16-30 | a register has a copy exactly when the handle keeps one |
| AgrDevice.New | src/device_impl/new.rs:7-16 | a new handle holds the interface, no remembered rate, and one-shot mode |
| AgrDevice.NewWellFormed | src/device_impl/new.rs:53-64 | every copy of a new handle is its register's default, and the handle is well formed |
| AgrDevice.NewWithI2c | src/device_impl/new.rs:5-23 | construction is `New` on an I2C interface, and `destroy` returns exactly the bus passed in |
| AgrDevice.NewWithSpi | src/device_impl/new.rs:26-48 | construction is `New` on an SPI interface, and `destroy` returns the bus and both chip selects passed in |
| AgrDevice.AccelStatus | src/device_impl.rs:38-42 | one read of STATUS_REG_A, no write; the status keeps every bit read |
| AgrDevice.MagStatus | src/device_impl.rs:62-66 | one read of STATUS_REG_M, no write; the status keeps every bit read |
| AgrDevice.GetAccelMode | src/device_impl/accel_mode_and_odr.rs:71-85 | priority order: empty ODR is power-down, else HR is high resolution, else LPEN is low power, else normal |
| AgrDevice.GetAccelScale | src/device_impl/accel_mode_and_odr.rs:175-178 | the FS field holds the scale's code |
| AgrDevice.ReadAcceleration | src/device_impl.rs:45-59 | one read, no write; the sample holds the counts read and the factors of the current mode and scale |
| AgrDevice.AccelerometerId | src/device_impl.rs:69-73 | `is_correct` holds exactly when the byte read is the LSM303AGR accelerometer WHO_AM_I value |
| AgrDevice.MagnetometerId | src/device_impl.rs:76-80 | `is_correct` holds exactly when the byte read is the LSM303AGR magnetometer WHO_AM_I value |
| AgrDevice.ReadTemperature | src/device_impl.rs:90-98 | one two-byte read of OUT_TEMP_L_A on the accelerometer, no write |
| AgrDevice.ReadTemperatureStatus | src/device_impl.rs:115-119 | one read of STATUS_REG_AUX_A, no write; overrun and new data are bits 6 and 2 of the byte read |
| AgrDevice.Update | src/device_impl/interrupts.rs:14-16 | recording a value changes that one copy and nothing else |
| AgrDevice.Replay | src/device_impl/init.rs:15-21 | after recording a series of writes, each copy holds the last value written to it, or its old value if none |
| AgrDevice.Run | src/device_impl/init.rs:15-21 | a series of writes stops at the first failure, records exactly the writes that landed, and succeeds exactly when none failed |
| AgrDevice.WriteOne | src/device_impl/interrupts.rs:34-40 | one write; it succeeds exactly when it lands, and only then is it recorded |
| AgrDevice.MagEnableLowPassFilter | src/device_impl.rs:122-128 | one write; on success LPF (bit 0) is added to CFG_REG_B_M and nothing else changes |
| AgrDevice.MagDisableLowPassFilter | src/device_impl.rs:131-137 | one write; on success LPF is removed and nothing else changes |
| AgrAccel.CheckAccelOdrIsCompatibleWithMode | src/device_impl/accel_mode_and_odr.rs:186-203 | the check passes exactly for compatible pairs and otherwise fails with InvalidInputData |
| AgrAccel.CompatibilityTable | src/device_impl/accel_mode_and_odr.rs:238-300 | every rate suits power-down; 1620 and 5376 Hz do not suit normal or high resolution; 1344 Hz does not suit low power; without a rate only power-down is accepted |
| AgrAccel.ModeReg1 | src/device_impl/accel_mode_and_odr.rs:33-43 | ODR holds the rate's code (empty without a rate), LPEN is set exactly in low power, and every other bit is kept |
| AgrAccel.ModeReg4 | src/device_impl/accel_mode_and_odr.rs:45-59 | HR is set exactly in high resolution and every other bit is kept |
| AgrAccel.ModeWrites | src/device_impl/accel_mode_and_odr.rs:45-60 | high resolution writes CTRL_REG1_A and then CTRL_REG4_A; every other mode writes them in the other order |
| AgrAccel.SetAccelModeAndOdr | src/device_impl/accel_mode_and_odr.rs:21-68 | an incompatible pair fails with InvalidInputData, with no write, no delay and the handle unchanged; otherwise the writes stop at the first failure, each recorded only if it lands; the rate is remembered exactly when CTRL_REG1_A lands; on success with a rate the delay is the change time from the mode before the call |
| AgrAccel.ModeWritesLast | src/device_impl/accel_mode_and_odr.rs:45-60 | any prefix of the writes leaves CTRL_REG1_A and CTRL_REG4_A either untouched or at their new values |
| AgrAccel.SetAccelModeAndOdrRegisters | src/device_impl/accel_mode_and_odr.rs:33-60 | after success both registers hold their new values and the rate is remembered |
| AgrAccel.SetAccelModeAndOdrModeReadsBack | src/device_impl/accel_mode_and_odr.rs:21-85 | after success the handle reports the requested mode, except that power-down with a rate reads as normal |
| AgrAccel.ModeWritesNeverBoth | src/device_impl/accel_mode_and_odr.rs:45-60 | after none, one or both of the writes, LPEN and HR are never both set when they were not before |
| AgrAccel.SetAccelModeAndOdrDeclared | src/device_impl/accel_mode_and_odr.rs:33-60 | the setter writes declared bits only and keeps every copy within its declared bits |
| AgrAccel.SetAccelModeAndOdrRate | src/device_impl/accel_mode_and_odr.rs:52-54 | CTRL_REG1_A and the remembered rate change together or not at all |
| AgrAccel.SetAccelModeAndOdrWellFormed | src/device_impl/accel_mode_and_odr.rs:21-68 | the setter keeps the handle well formed, whether or not every write lands |
| AgrAccel.SetAccelScale | src/device_impl/accel_mode_and_odr.rs:168-173 | one write, recorded only if it lands; afterwards the scale reads back and the mode is unchanged |
| AgrAccel.FifoWrites | src/device_impl/fifo.rs:17-25 | CTRL_REG5_A is written before FIFO_CTRL_REG_A |
| AgrAccel.AccSetFifoMode | src/device_impl/fifo.rs:12-30 | the two writes stop at the first failure, each recorded only if it lands; success exactly when both land |
| AgrAccel.AccSetFifoModeRegisters | src/device_impl/fifo.rs:17-27 | after success FIFO_EN is set exactly when the mode is not bypass, FM reads back, FTH is min(fth, 31), and no other bit changes |
| AgrAccel.FifoWritesFromNew | tests/accel_mode_and_odr.rs:198-217 | from a new handle, stream mode with 31 writes 0x40 then 0x9F, and FIFO mode with 4 writes 0x40 then 0x44 |
| AgrAccel.AccEnableInterrupt | src/device_impl/interrupts.rs:10-19 | one write; on success the interrupt's bit is added and nothing else changes |
| AgrAccel.AccDisableInterrupt | src/device_impl/interrupts.rs:22-31 | one write; on success the interrupt's bit is removed and nothing else changes |
| AgrAccel.InterruptEnableDisable | src/device_impl/interrupts.rs:10-31 | enabling then disabling an interrupt whose bit was clear restores the handle |
| AgrMag.MagChangeDelay | src/device_impl/magnetometer.rs:38-46 | a changed mode waits the turn-on time; otherwise a changed rate waits one period, only with offset cancellation on; otherwise no wait |
| AgrMag.SetMagModeAndOdr | src/device_impl/magnetometer.rs:21-51 | one write of CFG_REG_A_M, recorded only if it lands; on success the mode and rate read back and no other bit changes; no delay on failure |
| AgrMag.SetMagModeAndOdrDelay | src/device_impl/magnetometer.rs:38-46 | on success the delay is decided from the register before the write and the offset cancellation copy |
| AgrMag.GetMagMode | src/device_impl/magnetometer.rs:54-56 | the reported mode is low power exactly when LP is set |
| AgrMag.SetMagModeAndOdrReadBack | src/device_impl/magnetometer.rs:27-36 | on a healthy bus the call succeeds and the mode reads back |
| AgrMag.SetMagModeAndOdrTwice | src/device_impl/magnetometer.rs:21-51 | a second identical call writes the same value, leaves the same handle and waits nothing |
| AgrMag.MagneticFieldContinuous | src/device_impl/magnetometer.rs:64-66 | one three-axis read, no status read, no write |
| AgrMag.EnableOffsetCancellationContinuous | src/device_impl/magnetometer.rs:76-83 | one write; on success OFF_CANC is set and nothing else changes |
| AgrMag.DisableOffsetCancellationContinuous | src/device_impl/magnetometer.rs:86-93 | one write; on success OFF_CANC is clear |
| AgrMag.MagneticFieldOneShot | src/device_impl/magnetometer.rs:102-116 | status first; with new data the sample is returned and nothing is written; otherwise single mode is written and recorded only when CFG_REG_A_M is not in single mode, and the result is WouldBlock |
| AgrMag.EnableOffsetCancellationOneShot | src/device_impl/magnetometer.rs:127-136 | one write; on success OFF_CANC and OFF_CANC_ONE_SHOT are set together |
| AgrMag.DisableOffsetCancellationOneShot | src/device_impl/magnetometer.rs:139-148 | one write; on success both are clear together |
| AgrMag.IntoMagContinuous | src/device_impl/mag_mode_change.rs:14-28 | one write; on failure the error and the unchanged handle; on success continuous mode, MD = 00 and every other field carried over |
| AgrMag.IntoMagOneShot | src/device_impl/mag_mode_change.rs:39-53 | one write; on failure the error and the unchanged handle; on success one-shot mode, idle MD and every other field carried over |
| AgrMag.MagModeRoundTrip | src/device_impl/mag_mode_change.rs:14-53 | from one-shot with MD = 11, continuous then one-shot gives back the original handle |
| AgrMag.MagEnableInterrupt | src/device_impl/interrupts.rs:34-40 | one write; on success INT_MAG (bit 0) is added to CFG_REG_C_M and nothing else changes |
| AgrMag.MagDisableInterrupt | src/device_impl/interrupts.rs:43-49 | one write; on success INT_MAG is removed |
| AgrSetup.InitWrites | src/device_impl/init.rs:56-61 | three writes in order: BDU in CTRL_REG4_A, BDU in CFG_REG_C_M, TEMP_EN in TEMP_CFG_REG_A |
| AgrSetup.Init | src/device_impl/init.rs:15-21 | the writes stop at the first failure, each recorded only if it lands; success exactly when none fails; `enable_acc` and `enable_mag` write nothing |
| AgrSetup.Initialised | src/device_impl/init.rs:24-51 | the three flags are added and no other copy changes |
| AgrSetup.InitRegisters | src/device_impl/init.rs:15-51 | a successful `init` leaves the handle `Initialised` describes |
| AgrSetup.InitialisedIdempotent | src/device_impl/init.rs:24-51 | adding the flags again changes nothing |
| AgrSetup.InitIdempotent | src/device_impl/init.rs:15-21 | a second `init` on a healthy bus leaves the handle as the first |
| AgrSetup.ResetAll | src/device_impl/reset.rs:23-26 | the listed copies return to their defaults; nothing else changes |
| AgrSetup.ResetWrites | src/device_impl/reset.rs:14-20 | both writes go to the control register on its own sensor: first the copy with the reset flag added, then the register's default |
| AgrSetup.Reset | src/device_impl/reset.rs:14-29 | the writes stop at the first failure; only after both land do the copies return to their defaults; on failure nothing changes |
| AgrSetup.AccRebootMem | src/device_impl/reset.rs:70-76 | writes CTRL_REG5_A with BOOT and then 0; on success CTRL_REG5_A and TEMP_CFG_REG_A are back at their defaults |
| AgrSetup.MagRebootMem | src/device_impl/reset.rs:32-47 | writes CFG_REG_A_M with REBOOT and then its default; on success CFG_REG_A_M, CFG_REG_B_M and CFG_REG_C_M are back at their defaults |
| AgrSetup.MagSoftReset | src/device_impl/reset.rs:50-65 | the same with SOFT_RST |
| AgrSetup.AccRebootAgreesWithNew | src/device_impl/reset.rs:14-29 | the reset copies equal a new handle's, and a second reboot changes nothing |
| AgrSetup.MagResetAgreesWithNew | src/device_impl/reset.rs:32-65 | the reset copies equal a new handle's; the soft reset leaves the same handle as the reboot; a second reboot changes nothing |
| AgrSetup.MagResetKeepsTypestate | src/device_impl/reset.rs:9-12 | a continuous-mode handle keeps its tag while its copy of CFG_REG_A_M is idle |

## Left out

- The I2C and SPI transports and the chip-select pins. Their code is not
  part of this model. A transfer is a `Bus.Fault` outcome for writes and a
  `Result` parameter for reads, and the bus errors' payloads are dropped.
- The delay provider. The requested microseconds are returned in the step
  instead.
- `Temperature::degrees_celsius` and the LSM303C magnetometer rate's
  `from_hertz`: both compute in `f32`.
- The model does not transcribe `src/agr/register.rs`.
  - Bits the driver's tests do not fix follow the LSM303AGR datasheet.
  - `CfgRegAM::turn_on_time_us` is a parameter of `AgrMag.SetMagModeAndOdr`.
- The crate root's older copy of the handle struct, and the module files'
  bus addresses, have no behaviour. The module files' field lists give the
  records' shapes.
- Rust generics and `PhantomData`. The typestate is a tag field, and each
  macro expansion is written out per chip.
- The LSM303C accelerometer reboot resets the copy of CTRL_REG1_M (as
  `reset.rs` lists it), not CTRL_REG1_A. The model follows the code.
- The LSM303C one-shot read reads CFG_REG_A_M, the LSM303AGR register, at
  magnetometer address 0x60. It then tests that byte's low two bits as
  LSM303AGR single mode, whatever the LSM303C keeps there.
  `CMag.ConversionUnderWay` models exactly this test.
- CSetup.InitWrites: this is the corrected order of writes, with CTRL_REG1_M
  sent to the magnetometer. The driver sends that write through the
  accelerometer; `CSetup.InitWritesAsWritten` models that.
- CSetup.Init: this is the corrected `init`. It does not promise what the
  driver puts on the bus; `CSetup.InitAsWritten` models that. It keeps the
  same copies, but its third write goes to the accelerometer.
- CMag.GetMagMode and CMag.SetMagModeAndOdr: the driver's `mode()` and
  `with_mode()` on CTRL_REG1_M are read as `xy_mode` and `with_xy_mode`,
  the only mode accessors the LSM303C register declares.
- AgrMag.SetMagModeAndOdr: its delay is stated in the separate lemma
  `AgrMag.SetMagModeAndOdrDelay`, not in the function's own contract.
- AgrDevice.GetAccelScale and CDevice.GetAccelScale state only the field
  code. The scale a code stands for is fixed by the `ScaleField` tables.
- The LSM303C `CTRL_REG4_A::scale` panics on FS = 01. The model treats
  that value as outside the decodable range (`CRegister.ScaleDecodable`),
  and the getters that decode require it.
- Types.Acceleration.Unscaled: requires a non-zero resolution factor and
  no `i16::MIN / -1`, the two cases where Rust's `/` panics. The factors
  the driver builds are always positive.

## Findings

| source | as written | input that shows it | evidently intended | confidence | as-written member | corrected member |
|---|---|---|---|---|---|---|
| src/device_impl/init.rs:44-51 | for the LSM303C, `enable_temp` writes the CTRL_REG1_M copy with `write_accel_register` | a new handle: 0x90 goes to accelerometer address 0x20 (CTRL_REG1_A), switching the accelerometer to high resolution at 10 Hz while the handle still reports power-down | write TEMP_EN to CTRL_REG1_M on the magnetometer | high; not executed | CSetup.EnableTempHitsAccelerometer | CSetup.EnableTemp |
| src/c/register.rs:325-334 | `with_xy_mode` ORs the new code into `self` rather than into the cleared copy | OM = 11 (0x60), asking for MediumPerformance: the register still reads UltraHighPerformance | OR into the copy with OM cleared, as the LowPower branch does | high; not executed | CRegister.XyModeSticks | CRegister.XyModeRoundTrip |
| src/c/register.rs:446-455 | `with_z_mode` ORs the new code into `self` rather than into the cleared copy | OMZ = 11 (0x0C), asking for MediumPerformance: the register still reads UltraHighPerformance | OR into the copy with OMZ cleared | high; not executed | CRegister.ZModeSticks | CRegister.ZModeRoundTrip |

The driver's own `set_mag_mode_and_odr` for the LSM303C inherits the
`with_xy_mode` defect. `CMag.SetMagModeAndOdr` models it as written, and
`CMag.AsWrittenModeSticks` shows it at the level of the device.
`CMag.SetMagModeAndOdrCorrected` uses the clearing setter. `CSetup.InitAsWritten` is the driver's `init` as written; `CSetup.Init`
uses the corrected `CSetup.EnableTemp`.
