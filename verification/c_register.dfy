/** The LSM303C register map and the field accessors of its registers.

    Each register is an 8-bit flag set (`Bits`); the accessors here replace one
    field and keep every other bit, and each setter is paired with the getter
    that reads the field back. */
module CRegister {
  import opened Bits
  import opened Wrappers
  import opened Types
  import opened Bus
  import opened CTypes

  /** The registers the LSM303C driver touches. `OutXLA` and `OutXLM` are
      the first registers of the three-axis burst reads; `AgrCfgRegAM` is the
      LSM303AGR configuration register the one-shot magnetometer read uses on
      both devices. */
  datatype Reg =
    | WhoAmIA | CtrlReg1A | CtrlReg2A | CtrlReg3A | CtrlReg4A | CtrlReg5A | CtrlReg6A
    | CtrlReg7A | StatusRegA | OutXLA | FifoCtrl | FifoSrc | IgCfg1A | IgSrc1A
    | WhoAmIM | CtrlReg1M | CtrlReg2M | CtrlReg3M | CtrlReg4M | CtrlReg5M | StatusRegM
    | OutXLM | TempLM | IntCfgM | AgrCfgRegAM

  function Address(r: Reg): Byte {
    match r
    case WhoAmIA => 0x0F
    case CtrlReg1A => 0x20
    case CtrlReg2A => 0x21
    case CtrlReg3A => 0x22
    case CtrlReg4A => 0x23
    case CtrlReg5A => 0x24
    case CtrlReg6A => 0x25
    case CtrlReg7A => 0x26
    case StatusRegA => 0x27
    case OutXLA => 0x28
    case FifoCtrl => 0x2E
    case FifoSrc => 0x2F
    case IgCfg1A => 0x30
    case IgSrc1A => 0x31
    case WhoAmIM => 0x0F
    case CtrlReg1M => 0x20
    case CtrlReg2M => 0x21
    case CtrlReg3M => 0x22
    case CtrlReg4M => 0x24
    case CtrlReg5M => 0x24
    case StatusRegM => 0x27
    case OutXLM => 0x68
    case TempLM => 0x2F
    case IntCfgM => 0x30
    case AgrCfgRegAM => 0x60
  }

  /** The sensor a register belongs to. */
  function Owner(r: Reg): Sensor {
    match r
    case WhoAmIA | CtrlReg1A | CtrlReg2A | CtrlReg3A | CtrlReg4A | CtrlReg5A | CtrlReg6A
      | CtrlReg7A | StatusRegA | OutXLA | FifoCtrl | FifoSrc | IgCfg1A | IgSrc1A => Accel
    case WhoAmIM | CtrlReg1M | CtrlReg2M | CtrlReg3M | CtrlReg4M | CtrlReg5M | StatusRegM
      | OutXLM | TempLM | IntCfgM | AgrCfgRegAM => Mag
  }

  /** The flags each register declares; `from_bits_truncate` keeps only these. */
  function Declared(r: Reg): Byte {
    match r
    case CtrlReg2A => 0x7F
    case CtrlReg6A => 0x80
    case CtrlReg7A => 0x3F
    case IgSrc1A => 0x7F
    case CtrlReg1M => 0xFD
    case CtrlReg2M => 0x6C
    case CtrlReg3M => 0xA7
    case CtrlReg4M => 0x0E
    case CtrlReg5M => 0x40
    case IntCfgM => 0xEF
    case AgrCfgRegAM => 0xFF
    case _ => 0xFF
  }

  /** The value of each register field of a new handle. */
  function Default(r: Reg): Byte {
    match r
    case CtrlReg1A => CtrlReg1A_ZEN | CtrlReg1A_YEN | CtrlReg1A_XEN
    case CtrlReg1M => CtrlReg1M_DO2
    case CtrlReg3M => CtrlReg3M_MD
    case IntCfgM => IntCfgM_1
    case _ => 0
  }

  /** Identifiers in WHO_AM_I_A and WHO_AM_I_M. */
  const WhoAmIAId: Byte := 0x41
  const WhoAmIMId: Byte := 0x3D

  // CTRL_REG1_A
  const CtrlReg1A_HR: Byte := 0x80
  const CtrlReg1A_ODR2: Byte := 0x40
  const CtrlReg1A_ODR1: Byte := 0x20
  const CtrlReg1A_ODR0: Byte := 0x10
  const CtrlReg1A_BDU: Byte := 0x08
  const CtrlReg1A_ZEN: Byte := 0x04
  const CtrlReg1A_YEN: Byte := 0x02
  const CtrlReg1A_XEN: Byte := 0x01
  const CtrlReg1A_ODR: Byte := 0x70

  // CTRL_REG3_A
  const CtrlReg3A_FIFO_EN: Byte := 0x80
  const CtrlReg3A_STOP_FTH: Byte := 0x40
  const CtrlReg3A_INT_XL_INACT: Byte := 0x20
  const CtrlReg3A_INT_XL_IG2: Byte := 0x10
  const CtrlReg3A_INT_XL_IG1: Byte := 0x08
  const CtrlReg3A_INT_XL_OVR: Byte := 0x04
  const CtrlReg3A_INT_XL_FTH: Byte := 0x02
  const CtrlReg3A_INT_XL_DRDY: Byte := 0x01

  // CTRL_REG4_A
  const CtrlReg4A_FS1: Byte := 0x20
  const CtrlReg4A_FS0: Byte := 0x10
  const CtrlReg4A_FS: Byte := 0x30
  const CtrlReg4A_IF_ADD_INC: Byte := 0x04

  // CTRL_REG6_A
  const CtrlReg6A_BOOT: Byte := 0x80

  // FIFO_CTRL
  const FifoCtrl_FMODE2: Byte := 0x80
  const FifoCtrl_FMODE1: Byte := 0x40
  const FifoCtrl_FMODE0: Byte := 0x20
  const FifoCtrl_FMODE: Byte := 0xE0
  const FifoCtrl_FTH: Byte := 0x1F

  // CTRL_REG1_M
  const CtrlReg1M_TEMP_EN: Byte := 0x80
  const CtrlReg1M_OM1: Byte := 0x40
  const CtrlReg1M_OM0: Byte := 0x20
  const CtrlReg1M_DO2: Byte := 0x10
  const CtrlReg1M_DO1: Byte := 0x08
  const CtrlReg1M_DO0: Byte := 0x04
  const CtrlReg1M_OM: Byte := 0x60
  const CtrlReg1M_DO: Byte := 0x1C

  // CTRL_REG2_M
  const CtrlReg2M_FS1: Byte := 0x40
  const CtrlReg2M_FS0: Byte := 0x20
  const CtrlReg2M_REBOOT: Byte := 0x08
  const CtrlReg2M_SOFT_RST: Byte := 0x04

  // CTRL_REG3_M
  const CtrlReg3M_SIM: Byte := 0x04
  const CtrlReg3M_MD1: Byte := 0x02
  const CtrlReg3M_MD0: Byte := 0x01
  const CtrlReg3M_MD: Byte := 0x03

  // CTRL_REG4_M
  const CtrlReg4M_OMZ1: Byte := 0x08
  const CtrlReg4M_OMZ0: Byte := 0x04
  const CtrlReg4M_OMZ: Byte := 0x0C

  // CTRL_REG5_M
  const CtrlReg5M_BDU: Byte := 0x40

  // INT_CFG_M
  const IntCfgM_1: Byte := 0x08
  const IntCfgM_IEA: Byte := 0x04

  /** Every default is made of declared flags only. */
  lemma DefaultsDeclared(r: Reg)
    ensures Default(r) & !Declared(r) == 0
  {
  }

  /** CTRL_REG4_M and CTRL_REG5_M are declared at the same address of the
      magnetometer, so the driver keeps two shadows of one hardware register;
      CTRL_REG1_M and CTRL_REG1_A share an address on different sensors. */
  lemma SharedAddresses()
    ensures Address(CtrlReg4M) == Address(CtrlReg5M) && Owner(CtrlReg4M) == Owner(CtrlReg5M)
    ensures Address(CtrlReg1M) == Address(CtrlReg1A) && Owner(CtrlReg1M) != Owner(CtrlReg1A)
  {
  }

  // ---- CTRL_REG1_A: output data rate ----

  /** The ODR field (bits 6:4) each accelerometer rate is written as. */
  function AccelOdrField(odr: AccelOutputDataRate): Byte {
    match odr
    case Hz10 => 0x10
    case Hz50 => 0x20
    case Hz100 => 0x30
    case Hz200 => 0x40
    case Hz400 => 0x50
    case Hz800 => 0x70
  }

  /** The rate an ODR field encodes, if any. The driver has no such getter;
      this is the reference `WithAccelOdr` is checked against. */
  function AccelOdrOf(reg: Byte): (r: Option<AccelOutputDataRate>)
    ensures r.Some? ==> reg & CtrlReg1A_ODR == AccelOdrField(r.value)
    ensures r.None? <==> reg & CtrlReg1A_ODR in {0x00, 0x60}
  {
    var f := reg & CtrlReg1A_ODR;
    if f == 0x10 then Some(Hz10)
    else if f == 0x20 then Some(Hz50)
    else if f == 0x30 then Some(Hz100)
    else if f == 0x40 then Some(Hz200)
    else if f == 0x50 then Some(Hz400)
    else if f == 0x70 then Some(Hz800)
    else None
  }

  function WithAccelOdr(reg: Byte, odr: AccelOutputDataRate): (r: Byte)
    ensures r & CtrlReg1A_ODR == AccelOdrField(odr)
    ensures r & !CtrlReg1A_ODR == reg & !CtrlReg1A_ODR
    ensures AccelOdrOf(r) == Some(odr)
  {
    var reg := Difference(reg, CtrlReg1A_ODR);
    match odr
    case Hz10 => Union(reg, CtrlReg1A_ODR0)
    case Hz50 => Union(reg, CtrlReg1A_ODR1)
    case Hz100 => Union(Union(reg, CtrlReg1A_ODR1), CtrlReg1A_ODR0)
    case Hz200 => Union(reg, CtrlReg1A_ODR2)
    case Hz400 => Union(Union(reg, CtrlReg1A_ODR2), CtrlReg1A_ODR0)
    case Hz800 => Union(Union(Union(reg, CtrlReg1A_ODR2), CtrlReg1A_ODR1), CtrlReg1A_ODR0)
  }

  /** Distinct rates are written as distinct fields. */
  lemma AccelOdrFieldInjective(a: AccelOutputDataRate, b: AccelOutputDataRate)
    requires AccelOdrField(a) == AccelOdrField(b)
    ensures a == b
  {
  }

  // ---- CTRL_REG3_A: interrupt enables ----

  /** The bit index of each interrupt's enable flag. */
  function InterruptBit(i: Interrupt): (k: nat)
    ensures k < 6
  {
    match i
    case Inactivity => 5
    case Ig2 => 4
    case Ig1 => 3
    case FifoOverrun => 2
    case FifoThreshold => 1
    case DataReady => 0
  }

  function InterruptFlag(i: Interrupt): (f: Byte)
    ensures Elems(f) == {InterruptBit(i)}
  {
    ElemsBit(InterruptBit(i));
    match i
    case Inactivity => CtrlReg3A_INT_XL_INACT
    case Ig2 => CtrlReg3A_INT_XL_IG2
    case Ig1 => CtrlReg3A_INT_XL_IG1
    case FifoOverrun => CtrlReg3A_INT_XL_OVR
    case FifoThreshold => CtrlReg3A_INT_XL_FTH
    case DataReady => CtrlReg3A_INT_XL_DRDY
  }

  function WithInterrupt(reg: Byte, i: Interrupt): (r: Byte)
    ensures Elems(r) == Elems(reg) + {InterruptBit(i)}
  {
    Union(reg, InterruptFlag(i))
  }

  function WithoutInterrupt(reg: Byte, i: Interrupt): (r: Byte)
    ensures Elems(r) == Elems(reg) - {InterruptBit(i)}
  {
    Difference(reg, InterruptFlag(i))
  }

  /** Enabling then disabling an interrupt leaves the register as disabling
      alone would, and the other way round. */
  lemma {:induction false} InterruptToggle(reg: Byte, i: Interrupt)
    ensures WithoutInterrupt(WithInterrupt(reg, i), i) == WithoutInterrupt(reg, i)
    ensures WithInterrupt(WithoutInterrupt(reg, i), i) == WithInterrupt(reg, i)
  {
    Extensional(WithoutInterrupt(WithInterrupt(reg, i), i), WithoutInterrupt(reg, i));
    Extensional(WithInterrupt(WithoutInterrupt(reg, i), i), WithInterrupt(reg, i));
  }

  /** Enabling an interrupt already enabled, or disabling one already
      disabled, changes nothing. */
  lemma {:induction false} InterruptIdempotent(reg: Byte, i: Interrupt)
    ensures InterruptBit(i) in Elems(reg) ==> WithInterrupt(reg, i) == reg
    ensures InterruptBit(i) !in Elems(reg) ==> WithoutInterrupt(reg, i) == reg
  {
    if InterruptBit(i) in Elems(reg) {
      Extensional(WithInterrupt(reg, i), reg);
    } else {
      Extensional(WithoutInterrupt(reg, i), reg);
    }
  }

  /** Enable flags of different interrupts do not interfere. */
  lemma {:induction false} InterruptsIndependent(reg: Byte, i: Interrupt, j: Interrupt)
    requires i != j
    ensures (InterruptBit(j) in Elems(WithInterrupt(reg, i))) == (InterruptBit(j) in Elems(reg))
    ensures (InterruptBit(j) in Elems(WithoutInterrupt(reg, i))) == (InterruptBit(j) in Elems(reg))
  {
  }

  // ---- CTRL_REG4_A: full scale ----

  /** The FS field (bits 5:4) each scale is written as. */
  function ScaleField(s: AccelScale): Byte {
    match s
    case G2 => 0x00
    case G4 => 0x20
    case G8 => 0x30
  }

  /** `scale()` panics when the FS field is `01`, which no scale writes. */
  predicate ScaleDecodable(reg: Byte) {
    reg & CtrlReg4A_FS != CtrlReg4A_FS0
  }

  function AccelScaleOf(reg: Byte): (s: AccelScale)
    requires ScaleDecodable(reg)
    ensures reg & CtrlReg4A_FS == ScaleField(s)
  {
    var code := (reg & CtrlReg4A_FS) >> 4;
    if code == 0 then G2
    else if code == 2 then G4
    else G8
  }

  function WithAccelScale(reg: Byte, s: AccelScale): (r: Byte)
    ensures r & CtrlReg4A_FS == ScaleField(s)
    ensures r & !CtrlReg4A_FS == reg & !CtrlReg4A_FS
    ensures ScaleDecodable(r) && AccelScaleOf(r) == s
  {
    match s
    case G2 => Difference(reg, CtrlReg4A_FS)
    case G4 => Difference(Union(reg, CtrlReg4A_FS1), CtrlReg4A_FS0)
    case G8 => Union(reg, CtrlReg4A_FS)
  }

  /** Writing back the scale a register holds leaves it unchanged. */
  lemma ScaleRoundTrip(reg: Byte)
    requires ScaleDecodable(reg)
    ensures WithAccelScale(reg, AccelScaleOf(reg)) == reg
  {
  }

  // ---- FIFO_CTRL ----

  /** The FMODE field (bits 7:5) each FIFO mode is written as. */
  function FifoModeField(m: FifoMode): Byte {
    match m
    case Bypass => 0x00
    case Fifo => 0x20
    case Stream => 0x40
    case StreamToFifo => 0x60
    case BypassToStream => 0x80
    case BypassToFifo => 0xE0
  }

  /** The FIFO mode an FMODE field encodes, if any; the driver has no such
      getter, this is the reference for `WithFifoMode`. */
  function FifoModeOf(reg: Byte): (r: Option<FifoMode>)
    ensures r.Some? ==> reg & FifoCtrl_FMODE == FifoModeField(r.value)
    ensures r.None? <==> reg & FifoCtrl_FMODE in {0xA0, 0xC0}
  {
    var f := reg & FifoCtrl_FMODE;
    if f == 0x00 then Some(Bypass)
    else if f == 0x20 then Some(Fifo)
    else if f == 0x40 then Some(Stream)
    else if f == 0x60 then Some(StreamToFifo)
    else if f == 0x80 then Some(BypassToStream)
    else if f == 0xE0 then Some(BypassToFifo)
    else None
  }

  function WithFifoMode(reg: Byte, m: FifoMode): (r: Byte)
    ensures r & FifoCtrl_FMODE == FifoModeField(m)
    ensures r & FifoCtrl_FTH == reg & FifoCtrl_FTH
    ensures FifoModeOf(r) == Some(m)
  {
    match m
    case Bypass => Difference(reg, FifoCtrl_FMODE)
    case Fifo => Union(Difference(Difference(reg, FifoCtrl_FMODE2), FifoCtrl_FMODE1), FifoCtrl_FMODE0)
    case Stream => Difference(Union(Difference(reg, FifoCtrl_FMODE2), FifoCtrl_FMODE1), FifoCtrl_FMODE0)
    case StreamToFifo => Union(Union(Difference(reg, FifoCtrl_FMODE2), FifoCtrl_FMODE1), FifoCtrl_FMODE0)
    case BypassToStream => Difference(Difference(Union(reg, FifoCtrl_FMODE2), FifoCtrl_FMODE1), FifoCtrl_FMODE0)
    case BypassToFifo => Union(reg, FifoCtrl_FMODE)
  }

  /** The threshold field holds at most 31; larger requests saturate. */
  function WithFullThreshold(reg: Byte, n: U8): (r: Byte)
    ensures (r & FifoCtrl_FTH) as int == if n > 31 then 31 else n
    ensures r & FifoCtrl_FMODE == reg & FifoCtrl_FMODE
  {
    var n := if n > FifoCtrl_FTH as int then FifoCtrl_FTH as int else n;
    Union(Difference(reg, FifoCtrl_FTH), FromBitsTruncate(Declared(FifoCtrl), n as bv8))
  }

  // ---- CTRL_REG1_M: X/Y operating mode and output data rate ----

  /** The OM field (bits 6:5) of each magnetometer X/Y mode. */
  function XyModeField(m: MagMode): Byte {
    match m
    case LowPower => 0x00
    case MediumPerformance => 0x20
    case HighPerformance => 0x40
    case UltraHighPerformance => 0x60
  }

  function XyMode(reg: Byte): (m: MagMode)
    ensures reg & CtrlReg1M_OM == XyModeField(m)
  {
    match (Intersects(reg, CtrlReg1M_OM1), Intersects(reg, CtrlReg1M_OM0))
    case (false, false) => LowPower
    case (false, true) => MediumPerformance
    case (true, false) => HighPerformance
    case (true, true) => UltraHighPerformance
  }

  /** Setting the X/Y mode. Only `LowPower` clears the field first; the other
      modes add their bits to whatever bits the field held, so the mode read
      back is the requested one exactly when the old bits were among the new
      mode's bits. */
  function WithXyMode(reg: Byte, m: MagMode): (r: Byte)
    ensures r & !CtrlReg1M_OM == reg & !CtrlReg1M_OM
    ensures m == LowPower ==> r & CtrlReg1M_OM == 0
    ensures m != LowPower ==> r & CtrlReg1M_OM == (reg & CtrlReg1M_OM) | XyModeField(m)
    ensures XyMode(r) == m <==> m == LowPower || reg & CtrlReg1M_OM & !XyModeField(m) == 0
  {
    var cleared := Difference(reg, CtrlReg1M_OM);
    match m
    case LowPower => cleared
    case MediumPerformance => Union(reg, CtrlReg1M_OM0)
    case HighPerformance => Union(reg, CtrlReg1M_OM1)
    case UltraHighPerformance => Union(Union(reg, CtrlReg1M_OM1), CtrlReg1M_OM0)
  }

  /** From a register in low-power mode every X/Y mode is set exactly. */
  lemma XyModeFromLowPower(reg: Byte, m: MagMode)
    requires XyMode(reg) == LowPower
    ensures XyMode(WithXyMode(reg, m)) == m
  {
  }

  /** An input on which setting the X/Y mode does not take: going from
      ultra-high to medium performance leaves ultra-high performance. */
  lemma XyModeSticks()
    ensures XyMode(0x60) == UltraHighPerformance
    ensures XyMode(WithXyMode(0x60, MediumPerformance)) == UltraHighPerformance
  {
  }

  /** Setting the X/Y mode as evidently intended: the field cleared, then
      the mode's bits added, so the mode always reads back. */
  function WithXyModeCleared(reg: Byte, m: MagMode): (r: Byte)
    ensures r & CtrlReg1M_OM == XyModeField(m)
    ensures r & !CtrlReg1M_OM == reg & !CtrlReg1M_OM
  {
    var cleared := Difference(reg, CtrlReg1M_OM);
    match m
    case LowPower => cleared
    case MediumPerformance => Union(cleared, CtrlReg1M_OM0)
    case HighPerformance => Union(cleared, CtrlReg1M_OM1)
    case UltraHighPerformance => Union(Union(cleared, CtrlReg1M_OM1), CtrlReg1M_OM0)
  }

  /** The corrected setter and the getter are inverse: the mode set is the
      mode read, and setting the mode a register holds leaves it unchanged. */
  lemma XyModeRoundTrip(reg: Byte, m: MagMode)
    ensures XyMode(WithXyModeCleared(reg, m)) == m
    ensures WithXyModeCleared(reg, XyMode(reg)) == reg
  {
  }

  /** The as-written setter agrees with the corrected one exactly when the
      mode read back is the one requested. */
  lemma XyModeAsWrittenAgrees(reg: Byte, m: MagMode)
    ensures WithXyMode(reg, m) == WithXyModeCleared(reg, m) <==> XyMode(WithXyMode(reg, m)) == m
  {
  }

  /** The DO field (bits 4:2) of each magnetometer rate. */
  function MagOdrField(odr: MagOutputDataRate): Byte {
    match odr
    case Hz0_625 => 0x00
    case Hz1_25 => 0x04
    case Hz2_5 => 0x08
    case Hz5 => 0x0C
    case MagHz10 => 0x10
    case MagHz20 => 0x14
    case Hz40 => 0x18
    case Hz80 => 0x1C
  }

  function MagOdr(reg: Byte): (odr: MagOutputDataRate)
    ensures reg & CtrlReg1M_DO == MagOdrField(odr)
  {
    match (Intersects(reg, CtrlReg1M_DO2), Intersects(reg, CtrlReg1M_DO1), Intersects(reg, CtrlReg1M_DO0))
    case (false, false, false) => Hz0_625
    case (false, false, true) => Hz1_25
    case (false, true, false) => Hz2_5
    case (false, true, true) => Hz5
    case (true, false, false) => MagHz10
    case (true, false, true) => MagHz20
    case (true, true, false) => Hz40
    case (true, true, true) => Hz80
  }

  function WithMagOdr(reg: Byte, odr: MagOutputDataRate): (r: Byte)
    ensures r & !CtrlReg1M_DO == reg & !CtrlReg1M_DO
    ensures MagOdr(r) == odr
  {
    var reg := Difference(reg, CtrlReg1M_DO);
    match odr
    case Hz0_625 => reg
    case Hz1_25 => Union(reg, CtrlReg1M_DO0)
    case Hz2_5 => Union(reg, CtrlReg1M_DO1)
    case Hz5 => Union(Union(reg, CtrlReg1M_DO1), CtrlReg1M_DO0)
    case MagHz10 => Union(reg, CtrlReg1M_DO2)
    case MagHz20 => Union(Union(reg, CtrlReg1M_DO2), CtrlReg1M_DO0)
    case Hz40 => Union(Union(reg, CtrlReg1M_DO2), CtrlReg1M_DO1)
    case Hz80 => Union(Union(Union(reg, CtrlReg1M_DO2), CtrlReg1M_DO1), CtrlReg1M_DO0)
  }

  /** Writing back the rate a register holds leaves it unchanged, and the
      default register runs at 10 Hz. */
  lemma MagOdrRoundTrip(reg: Byte)
    ensures WithMagOdr(reg, MagOdr(reg)) == reg
    ensures MagOdr(Default(CtrlReg1M)) == MagHz10
  {
  }

  // ---- CTRL_REG3_M: system operating mode ----

  /** Continuous conversion: MD = 00. */
  function ContinuousMode(reg: Byte): (r: Byte)
    ensures r & CtrlReg3M_MD == 0
    ensures r & !CtrlReg3M_MD == reg & !CtrlReg3M_MD
  {
    Difference(Difference(reg, CtrlReg3M_MD1), CtrlReg3M_MD0)
  }

  predicate IsSingleMode(reg: Byte)
    ensures IsSingleMode(reg) <==> reg & CtrlReg3M_MD == 0x01
  {
    !Contains(reg, CtrlReg3M_MD1) && Contains(reg, CtrlReg3M_MD0)
  }

  /** Single conversion: MD = 01. */
  function SingleMode(reg: Byte): (r: Byte)
    ensures r & CtrlReg3M_MD == 0x01
    ensures r & !CtrlReg3M_MD == reg & !CtrlReg3M_MD
  {
    Union(Difference(reg, CtrlReg3M_MD1), CtrlReg3M_MD0)
  }

  predicate IsIdleMode(reg: Byte)
    ensures IsIdleMode(reg) <==> reg & CtrlReg3M_MD in {0x02, 0x03}
  {
    Contains(reg, CtrlReg3M_MD1)
  }

  /** Power-down: MD = 11. */
  function IdleMode(reg: Byte): (r: Byte)
    ensures r & CtrlReg3M_MD == 0x03
    ensures r & !CtrlReg3M_MD == reg & !CtrlReg3M_MD
  {
    Union(Union(reg, CtrlReg3M_MD1), CtrlReg3M_MD0)
  }

  /** The three system modes are told apart by the two predicates, and a new
      handle's register is idle. */
  lemma SystemModes(reg: Byte)
    ensures IsSingleMode(SingleMode(reg)) && !IsIdleMode(SingleMode(reg))
    ensures !IsSingleMode(ContinuousMode(reg)) && !IsIdleMode(ContinuousMode(reg))
    ensures !IsSingleMode(IdleMode(reg)) && IsIdleMode(IdleMode(reg))
    ensures IsIdleMode(Default(CtrlReg3M))
  {
  }

  // ---- CTRL_REG4_M: Z operating mode ----

  /** The OMZ field (bits 3:2) of each magnetometer Z mode. */
  function ZModeField(m: MagMode): Byte {
    match m
    case LowPower => 0x00
    case MediumPerformance => 0x04
    case HighPerformance => 0x08
    case UltraHighPerformance => 0x0C
  }

  function ZMode(reg: Byte): (m: MagMode)
    ensures reg & CtrlReg4M_OMZ == ZModeField(m)
  {
    match (Intersects(reg, CtrlReg4M_OMZ1), Intersects(reg, CtrlReg4M_OMZ0))
    case (false, false) => LowPower
    case (false, true) => MediumPerformance
    case (true, false) => HighPerformance
    case (true, true) => UltraHighPerformance
  }

  /** Setting the Z mode, with the same add-only behaviour as `WithXyMode`. */
  function WithZMode(reg: Byte, m: MagMode): (r: Byte)
    ensures r & !CtrlReg4M_OMZ == reg & !CtrlReg4M_OMZ
    ensures m == LowPower ==> r & CtrlReg4M_OMZ == 0
    ensures m != LowPower ==> r & CtrlReg4M_OMZ == (reg & CtrlReg4M_OMZ) | ZModeField(m)
    ensures ZMode(r) == m <==> m == LowPower || reg & CtrlReg4M_OMZ & !ZModeField(m) == 0
  {
    var cleared := Difference(reg, CtrlReg4M_OMZ);
    match m
    case LowPower => cleared
    case MediumPerformance => Union(reg, CtrlReg4M_OMZ0)
    case HighPerformance => Union(reg, CtrlReg4M_OMZ1)
    case UltraHighPerformance => Union(Union(reg, CtrlReg4M_OMZ1), CtrlReg4M_OMZ0)
  }

  /** An input on which setting the Z mode does not take, as for the X/Y
      mode. */
  lemma ZModeSticks()
    ensures ZMode(0x0C) == UltraHighPerformance
    ensures ZMode(WithZMode(0x0C, MediumPerformance)) == UltraHighPerformance
  {
  }

  /** Setting the Z mode as evidently intended: the field cleared first. */
  function WithZModeCleared(reg: Byte, m: MagMode): (r: Byte)
    ensures r & CtrlReg4M_OMZ == ZModeField(m)
    ensures r & !CtrlReg4M_OMZ == reg & !CtrlReg4M_OMZ
  {
    var cleared := Difference(reg, CtrlReg4M_OMZ);
    match m
    case LowPower => cleared
    case MediumPerformance => Union(cleared, CtrlReg4M_OMZ0)
    case HighPerformance => Union(cleared, CtrlReg4M_OMZ1)
    case UltraHighPerformance => Union(Union(cleared, CtrlReg4M_OMZ1), CtrlReg4M_OMZ0)
  }

  /** The corrected Z setter and the getter are inverse. */
  lemma ZModeRoundTrip(reg: Byte, m: MagMode)
    ensures ZMode(WithZModeCleared(reg, m)) == m
    ensures WithZModeCleared(reg, ZMode(reg)) == reg
  {
  }

  /** The as-written Z setter agrees with the corrected one exactly when the
      mode read back is the one requested. */
  lemma ZModeAsWrittenAgrees(reg: Byte, m: MagMode)
    ensures WithZMode(reg, m) == WithZModeCleared(reg, m) <==> ZMode(WithZMode(reg, m)) == m
  {
  }
}
