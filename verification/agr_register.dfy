/** The LSM303AGR register map and the field accessors of its registers.

    The bits the driver's own tests fix are used as they fix them (the
    accelerometer rate codes in bits 7:4 of CTRL_REG1_A, the FIFO_EN flag,
    the FIFO mode field in bits 7:6 and threshold in bits 4:0, the watermark
    interrupt flag); every other bit position follows the LSM303AGR
    datasheet. */
module AgrRegister {
  import opened Bits
  import opened Wrappers
  import opened Types
  import opened Bus
  import opened AgrTypes

  /** The registers the LSM303AGR driver touches. `OutXLA` and `OutXLM` are
      the first registers of the three-axis burst reads, `OutTempLA` of the
      two-byte temperature read. */
  datatype Reg =
    | StatusRegAuxA | OutTempLA | WhoAmIA | TempCfgRegA | CtrlReg1A | CtrlReg3A
    | CtrlReg4A | CtrlReg5A | StatusRegA | OutXLA | FifoCtrlRegA
    | WhoAmIM | CfgRegAM | CfgRegBM | CfgRegCM | StatusRegM | OutXLM

  function Address(r: Reg): Byte {
    match r
    case StatusRegAuxA => 0x07
    case OutTempLA => 0x0C
    case WhoAmIA => 0x0F
    case TempCfgRegA => 0x1F
    case CtrlReg1A => 0x20
    case CtrlReg3A => 0x22
    case CtrlReg4A => 0x23
    case CtrlReg5A => 0x24
    case StatusRegA => 0x27
    case OutXLA => 0x28
    case FifoCtrlRegA => 0x2E
    case WhoAmIM => 0x4F
    case CfgRegAM => 0x60
    case CfgRegBM => 0x61
    case CfgRegCM => 0x62
    case StatusRegM => 0x67
    case OutXLM => 0x68
  }

  /** The sensor a register belongs to. */
  function Owner(r: Reg): Sensor {
    match r
    case StatusRegAuxA | OutTempLA | WhoAmIA | TempCfgRegA | CtrlReg1A | CtrlReg3A
      | CtrlReg4A | CtrlReg5A | StatusRegA | OutXLA | FifoCtrlRegA => Accel
    case WhoAmIM | CfgRegAM | CfgRegBM | CfgRegCM | StatusRegM | OutXLM => Mag
  }

  /** The flags each register declares; `from_bits_truncate` keeps only these. */
  function Declared(r: Reg): Byte {
    match r
    case StatusRegAuxA => 0x44
    case TempCfgRegA => 0xC0
    case CtrlReg3A => 0xFE
    case CtrlReg5A => 0xCF
    case CfgRegBM => 0x1F
    case CfgRegCM => 0x7B
    case _ => 0xFF
  }

  /** The value of each register field of a new handle. */
  function Default(r: Reg): Byte {
    match r
    case CtrlReg1A => CtrlReg1A_ZEN | CtrlReg1A_YEN | CtrlReg1A_XEN
    case CfgRegAM => CfgRegAM_MD
    case _ => 0
  }

  /** Identifiers in WHO_AM_I_A and WHO_AM_I_M. */
  const WhoAmIAId: Byte := 0x33
  const WhoAmIMId: Byte := 0x40

  // STATUS_REG_AUX_A
  const StatusRegAuxA_TOR: Byte := 0x40
  const StatusRegAuxA_TDA: Byte := 0x04

  // TEMP_CFG_REG_A
  const TempCfgRegA_TEMP_EN: Byte := 0xC0

  // CTRL_REG1_A
  const CtrlReg1A_ODR: Byte := 0xF0
  const CtrlReg1A_LPEN: Byte := 0x08
  const CtrlReg1A_ZEN: Byte := 0x04
  const CtrlReg1A_YEN: Byte := 0x02
  const CtrlReg1A_XEN: Byte := 0x01

  // CTRL_REG4_A
  const CtrlReg4A_BDU: Byte := 0x80
  const CtrlReg4A_FS1: Byte := 0x20
  const CtrlReg4A_FS0: Byte := 0x10
  const CtrlReg4A_FS: Byte := 0x30
  const CtrlReg4A_HR: Byte := 0x08

  // CTRL_REG5_A
  const CtrlReg5A_BOOT: Byte := 0x80
  const CtrlReg5A_FIFO_EN: Byte := 0x40

  // FIFO_CTRL_REG_A
  const FifoCtrlRegA_FM1: Byte := 0x80
  const FifoCtrlRegA_FM0: Byte := 0x40
  const FifoCtrlRegA_FM: Byte := 0xC0
  const FifoCtrlRegA_FTH: Byte := 0x1F

  // CFG_REG_A_M
  const CfgRegAM_REBOOT: Byte := 0x40
  const CfgRegAM_SOFT_RST: Byte := 0x20
  const CfgRegAM_LP: Byte := 0x10
  const CfgRegAM_ODR1: Byte := 0x08
  const CfgRegAM_ODR0: Byte := 0x04
  const CfgRegAM_ODR: Byte := 0x0C
  const CfgRegAM_MD1: Byte := 0x02
  const CfgRegAM_MD0: Byte := 0x01
  const CfgRegAM_MD: Byte := 0x03

  // CFG_REG_B_M
  const CfgRegBM_OFF_CANC_ONE_SHOT: Byte := 0x10
  const CfgRegBM_OFF_CANC: Byte := 0x02
  const CfgRegBM_LPF: Byte := 0x01

  // CFG_REG_C_M
  const CfgRegCM_BDU: Byte := 0x10
  const CfgRegCM_INT_MAG: Byte := 0x01

  /** Every default is made of declared flags only. */
  lemma DefaultsDeclared(r: Reg)
    ensures Default(r) & !Declared(r) == 0
  {
  }

  /** Temperature sensor status (STATUS_REG_AUX_A). */
  datatype TemperatureStatus = TemperatureStatus(flags: Byte)

  predicate TemperatureOverrun(s: TemperatureStatus)
    ensures TemperatureOverrun(s) <==> 6 in Elems(s.flags)
  {
    ElemsBit(6);
    Contains(s.flags, StatusRegAuxA_TOR)
  }

  predicate TemperatureNewData(s: TemperatureStatus)
    ensures TemperatureNewData(s) <==> 2 in Elems(s.flags)
  {
    ElemsBit(2);
    Contains(s.flags, StatusRegAuxA_TDA)
  }

  // ---- CTRL_REG1_A: output data rate and low-power enable ----

  /** The ODR field (bits 7:4) each accelerometer rate is written as. The
      1.344 kHz and 5.376 kHz rates share code 9; LPEN tells them apart. */
  function AccelOdrField(odr: AccelOutputDataRate): Byte {
    match odr
    case Hz1 => 0x10
    case Hz10 => 0x20
    case Hz25 => 0x30
    case Hz50 => 0x40
    case Hz100 => 0x50
    case Hz200 => 0x60
    case Hz400 => 0x70
    case Khz1_620LowPower => 0x80
    case Khz1_344 => 0x90
    case Khz5_376LowPower => 0x90
  }

  function WithAccelOdr(reg: Byte, odr: AccelOutputDataRate): (r: Byte)
    ensures r & CtrlReg1A_ODR == AccelOdrField(odr)
    ensures r & !CtrlReg1A_ODR == reg & !CtrlReg1A_ODR
  {
    Union(Difference(reg, CtrlReg1A_ODR), AccelOdrField(odr))
  }

  /** The rate a CTRL_REG1_A value runs at, if any: the driver has no such
      getter, this is the reference the mode and rate setter is checked
      against. */
  function AccelOdrOf(reg: Byte): (r: Option<AccelOutputDataRate>)
    ensures r.None? <==> reg & CtrlReg1A_ODR == 0 || reg & CtrlReg1A_ODR >= 0xA0
    ensures r.Some? ==> reg & CtrlReg1A_ODR == AccelOdrField(r.value)
  {
    var f := reg & CtrlReg1A_ODR;
    if f == 0x10 then Some(Hz1)
    else if f == 0x20 then Some(Hz10)
    else if f == 0x30 then Some(Hz25)
    else if f == 0x40 then Some(Hz50)
    else if f == 0x50 then Some(Hz100)
    else if f == 0x60 then Some(Hz200)
    else if f == 0x70 then Some(Hz400)
    else if f == 0x80 then Some(Khz1_620LowPower)
    else if f == 0x90 then (if Contains(reg, CtrlReg1A_LPEN) then Some(Khz5_376LowPower) else Some(Khz1_344))
    else None
  }

  // ---- CTRL_REG3_A: INT1 interrupt routing ----

  /** The bit index of each interrupt's enable flag. */
  function InterruptBit(i: Interrupt): (k: nat)
    ensures 1 <= k < 8
  {
    match i
    case Click => 7
    case Aoi1 => 6
    case Aoi2 => 5
    case DataReady1 => 4
    case DataReady2 => 3
    case FifoWatermark => 2
    case FifoOverrun => 1
  }

  function WithInterrupt(reg: Byte, i: Interrupt): (r: Byte)
    ensures Elems(r) == Elems(reg) + {InterruptBit(i)}
  {
    ElemsBit(InterruptBit(i));
    Union(reg, Bit(InterruptBit(i)))
  }

  function WithoutInterrupt(reg: Byte, i: Interrupt): (r: Byte)
    ensures Elems(r) == Elems(reg) - {InterruptBit(i)}
  {
    ElemsBit(InterruptBit(i));
    Difference(reg, Bit(InterruptBit(i)))
  }

  /** Switching an interrupt keeps CTRL_REG3_A within its declared flags. */
  lemma InterruptDeclared(reg: Byte, i: Interrupt)
    ensures reg & !Declared(CtrlReg3A) == 0 ==> WithInterrupt(reg, i) & !Declared(CtrlReg3A) == 0
    ensures reg & !Declared(CtrlReg3A) == 0 ==> WithoutInterrupt(reg, i) & !Declared(CtrlReg3A) == 0
  {
    match i
    case Click =>
    case Aoi1 =>
    case Aoi2 =>
    case DataReady1 =>
    case DataReady2 =>
    case FifoWatermark =>
    case FifoOverrun =>
  }

  /** Enabling then disabling an interrupt leaves the register as disabling
      alone would, and the other way round. */
  lemma {:induction false} InterruptToggle(reg: Byte, i: Interrupt)
    ensures WithoutInterrupt(WithInterrupt(reg, i), i) == WithoutInterrupt(reg, i)
    ensures WithInterrupt(WithoutInterrupt(reg, i), i) == WithInterrupt(reg, i)
  {
    Extensional(WithoutInterrupt(WithInterrupt(reg, i), i), WithoutInterrupt(reg, i));
    Extensional(WithInterrupt(WithoutInterrupt(reg, i), i), WithInterrupt(reg, i));
  }

  /** Enabling an interrupt already enabled, or disabling one already
      disabled, changes nothing. */
  lemma {:induction false} InterruptIdempotent(reg: Byte, i: Interrupt)
    ensures InterruptBit(i) in Elems(reg) ==> WithInterrupt(reg, i) == reg
    ensures InterruptBit(i) !in Elems(reg) ==> WithoutInterrupt(reg, i) == reg
  {
    if InterruptBit(i) in Elems(reg) {
      Extensional(WithInterrupt(reg, i), reg);
    } else {
      Extensional(WithoutInterrupt(reg, i), reg);
    }
  }

  // ---- CTRL_REG4_A: full scale ----

  /** The FS field (bits 5:4) of each scale. */
  function ScaleField(s: AccelScale): Byte {
    match s
    case G2 => 0x00
    case G4 => 0x10
    case G8 => 0x20
    case G16 => 0x30
  }

  function AccelScaleOf(reg: Byte): (s: AccelScale)
    ensures reg & CtrlReg4A_FS == ScaleField(s)
  {
    var f := reg & CtrlReg4A_FS;
    if f == 0x00 then G2 else if f == 0x10 then G4 else if f == 0x20 then G8 else G16
  }

  function WithAccelScale(reg: Byte, s: AccelScale): (r: Byte)
    ensures r & !CtrlReg4A_FS == reg & !CtrlReg4A_FS
    ensures AccelScaleOf(r) == s
  {
    Union(Difference(reg, CtrlReg4A_FS), ScaleField(s))
  }

  /** Writing back the scale a register holds leaves it unchanged. */
  lemma ScaleRoundTrip(reg: Byte)
    ensures WithAccelScale(reg, AccelScaleOf(reg)) == reg
  {
  }

  // ---- FIFO_CTRL_REG_A ----

  /** The FM field (bits 7:6) of each FIFO mode. */
  function FifoModeField(m: FifoMode): Byte {
    match m
    case Bypass => 0x00
    case Fifo => 0x40
    case Stream => 0x80
    case StreamToFifo => 0xC0
  }

  /** The FIFO mode a register holds; the driver has no such getter, this is
      the reference for `WithFifoMode`. */
  function FifoModeOf(reg: Byte): (m: FifoMode)
    ensures reg & FifoCtrlRegA_FM == FifoModeField(m)
  {
    var f := reg & FifoCtrlRegA_FM;
    if f == 0x00 then Bypass else if f == 0x40 then Fifo else if f == 0x80 then Stream else StreamToFifo
  }

  function WithFifoMode(reg: Byte, m: FifoMode): (r: Byte)
    ensures r & !FifoCtrlRegA_FM == reg & !FifoCtrlRegA_FM
    ensures FifoModeOf(r) == m
  {
    Union(Difference(reg, FifoCtrlRegA_FM), FifoModeField(m))
  }

  /** The threshold field holds at most 31; larger requests saturate. */
  function WithFullThreshold(reg: Byte, n: U8): (r: Byte)
    ensures (r & FifoCtrlRegA_FTH) as int == if n > 31 then 31 else n
    ensures r & !FifoCtrlRegA_FTH == reg & !FifoCtrlRegA_FTH
  {
    var n := if n > FifoCtrlRegA_FTH as int then FifoCtrlRegA_FTH as int else n;
    Union(Difference(reg, FifoCtrlRegA_FTH), n as bv8)
  }

  // ---- CFG_REG_A_M: power mode, output data rate, system mode ----

  /** The power mode: low power exactly when LP is set. */
  function MagModeOf(reg: Byte): (m: MagMode)
    ensures m == MagLowPower <==> 4 in Elems(reg)
  {
    ElemsBit(4);
    if Contains(reg, CfgRegAM_LP) then MagLowPower else MagHighResolution
  }

  function WithMagMode(reg: Byte, m: MagMode): (r: Byte)
    ensures r & !CfgRegAM_LP == reg & !CfgRegAM_LP
    ensures MagModeOf(r) == m
  {
    Set(reg, CfgRegAM_LP, m == MagLowPower)
  }

  /** The ODR field (bits 3:2) of each magnetometer rate. */
  function MagOdrField(odr: MagOutputDataRate): Byte {
    match odr
    case MagHz10 => 0x00
    case MagHz20 => 0x04
    case MagHz50 => 0x08
    case MagHz100 => 0x0C
  }

  function MagOdrOf(reg: Byte): (odr: MagOutputDataRate)
    ensures reg & CfgRegAM_ODR == MagOdrField(odr)
  {
    var f := reg & CfgRegAM_ODR;
    if f == 0x00 then MagHz10 else if f == 0x04 then MagHz20 else if f == 0x08 then MagHz50 else MagHz100
  }

  function WithMagOdr(reg: Byte, odr: MagOutputDataRate): (r: Byte)
    ensures r & !CfgRegAM_ODR == reg & !CfgRegAM_ODR
    ensures MagOdrOf(r) == odr
  {
    Union(Difference(reg, CfgRegAM_ODR), MagOdrField(odr))
  }

  /** Writing back the mode and rate a register holds leaves it unchanged;
      the default register is in high-resolution mode at 10 Hz. */
  lemma MagModeOdrRoundTrip(reg: Byte)
    ensures WithMagOdr(WithMagMode(reg, MagModeOf(reg)), MagOdrOf(reg)) == reg
    ensures MagModeOf(Default(CfgRegAM)) == DefaultMagMode
    ensures MagOdrOf(Default(CfgRegAM)) == MagHz10
  {
  }

  /** Continuous conversion: MD = 00. */
  function ContinuousMode(reg: Byte): (r: Byte)
    ensures r & CfgRegAM_MD == 0
    ensures r & !CfgRegAM_MD == reg & !CfgRegAM_MD
  {
    Difference(Difference(reg, CfgRegAM_MD1), CfgRegAM_MD0)
  }

  predicate IsSingleMode(reg: Byte)
    ensures IsSingleMode(reg) <==> reg & CfgRegAM_MD == 0x01
  {
    !Contains(reg, CfgRegAM_MD1) && Contains(reg, CfgRegAM_MD0)
  }

  /** Single conversion: MD = 01. */
  function SingleMode(reg: Byte): (r: Byte)
    ensures r & CfgRegAM_MD == 0x01
    ensures r & !CfgRegAM_MD == reg & !CfgRegAM_MD
  {
    Union(Difference(reg, CfgRegAM_MD1), CfgRegAM_MD0)
  }

  predicate IsIdleMode(reg: Byte)
    ensures IsIdleMode(reg) <==> reg & CfgRegAM_MD in {0x02, 0x03}
  {
    Contains(reg, CfgRegAM_MD1)
  }

  /** Idle: MD = 11. */
  function IdleMode(reg: Byte): (r: Byte)
    ensures r & CfgRegAM_MD == 0x03
    ensures r & !CfgRegAM_MD == reg & !CfgRegAM_MD
  {
    Union(Union(reg, CfgRegAM_MD1), CfgRegAM_MD0)
  }

  /** The three system modes are told apart by the two predicates, and a new
      handle's register is idle. */
  lemma SystemModes(reg: Byte)
    ensures IsSingleMode(SingleMode(reg)) && !IsIdleMode(SingleMode(reg))
    ensures !IsSingleMode(ContinuousMode(reg)) && !IsIdleMode(ContinuousMode(reg))
    ensures !IsSingleMode(IdleMode(reg)) && IsIdleMode(IdleMode(reg))
    ensures IsIdleMode(Default(CfgRegAM))
  {
  }

  // ---- CFG_REG_B_M ----

  predicate OffsetCancellation(reg: Byte)
    ensures OffsetCancellation(reg) <==> 1 in Elems(reg)
  {
    ElemsBit(1);
    Contains(reg, CfgRegBM_OFF_CANC)
  }

  /** OFF_CANC set. */
  function WithOffsetCancellation(reg: Byte): (r: Byte)
    ensures Elems(r) == Elems(reg) + {1}
    ensures reg & !Declared(CfgRegBM) == 0 ==> r & !Declared(CfgRegBM) == 0
  {
    ElemsBit(1);
    Union(reg, CfgRegBM_OFF_CANC)
  }

  /** OFF_CANC cleared with `& !OFF_CANC`: the complement keeps only declared
      flags, so undeclared bits are dropped as well. */
  function WithoutOffsetCancellation(reg: Byte): (r: Byte)
    ensures Elems(r) == (Elems(reg) - {1}) * Elems(Declared(CfgRegBM))
    ensures r & !Declared(CfgRegBM) == 0
  {
    ElemsBit(1);
    Intersection(reg, Complement(Declared(CfgRegBM), CfgRegBM_OFF_CANC))
  }

  /** OFF_CANC and OFF_CANC_ONE_SHOT set, one after the other. */
  function WithOneShotOffsetCancellation(reg: Byte): (r: Byte)
    ensures Elems(r) == Elems(reg) + {1, 4}
    ensures reg & !Declared(CfgRegBM) == 0 ==> r & !Declared(CfgRegBM) == 0
  {
    ElemsBit(1);
    ElemsBit(4);
    Union(Union(reg, CfgRegBM_OFF_CANC), CfgRegBM_OFF_CANC_ONE_SHOT)
  }

  /** OFF_CANC and OFF_CANC_ONE_SHOT removed, one after the other. */
  function WithoutOneShotOffsetCancellation(reg: Byte): (r: Byte)
    ensures Elems(r) == Elems(reg) - {1, 4}
    ensures reg & !Declared(CfgRegBM) == 0 ==> r & !Declared(CfgRegBM) == 0
  {
    ElemsBit(1);
    ElemsBit(4);
    Difference(Difference(reg, CfgRegBM_OFF_CANC), CfgRegBM_OFF_CANC_ONE_SHOT)
  }
}
