/** LSM303C magnetometer: power mode and rate in CTRL_REG1_M, reads in
    continuous and one-shot mode, the typestate transitions through
    CTRL_REG3_M, and the DRDY pin. The device has no offset cancellation. */
module CMag {
  import opened Bits
  import opened Wrappers
  import opened Types
  import opened Bus
  import opened CTypes
  import opened CRegister
  import opened CDevice
  import AgrRegister

  // ---- power mode and rate ----

  /** The magnetometer power mode, read from the X/Y field of CTRL_REG1_M. */
  function GetMagMode<I>(d: Lsm303c<I>): (m: MagMode)
    ensures d.ctrlReg1M & CtrlReg1M_OM == XyModeField(m)
  {
    XyMode(d.ctrlReg1M)
  }

  /** Whether the driver's X/Y mode setter, applied to `reg`, leaves `mode`
      readable: always for low power, which clears the field, and otherwise
      exactly when the old field's bits lie within the new code. */
  predicate XyModeReadsBack(reg: Byte, mode: MagMode) {
    mode == LowPower || reg & CtrlReg1M_OM & !XyModeField(mode) == 0
  }

  /** CTRL_REG1_M as the driver's setter computes it: the X/Y mode through
      `with_xy_mode`, which ORs the new code into the old field, then the
      rate. The rate always reads back; the mode reads back exactly when it
      is low power or the old field's bits lie within the new code. */
  function PowerReg(reg: Byte, mode: MagMode, odr: MagOutputDataRate): (r: Byte)
    ensures XyMode(r) == mode <==> XyModeReadsBack(reg, mode)
    ensures MagOdr(r) == odr
    ensures r & !(CtrlReg1M_OM | CtrlReg1M_DO) == reg & !(CtrlReg1M_OM | CtrlReg1M_DO)
    ensures reg & !Declared(CtrlReg1M) == 0 ==> r & !Declared(CtrlReg1M) == 0
  {
    var withMode := WithXyMode(reg, mode);
    var r := WithMagOdr(withMode, odr);
    assert r & CtrlReg1M_OM == withMode & CtrlReg1M_OM;
    r
  }

  /** Set the magnetometer power mode and rate in one write of CTRL_REG1_M,
      as the driver does. The device needs no settling time here. */
  function SetMagModeAndOdr<I>(d: Lsm303c<I>, f: Fault, mode: MagMode, odr: MagOutputDataRate): (s: Step<Lsm303c<I>, Reg, ()>)
    ensures s.writes == [Write(Mag, CtrlReg1M, PowerReg(d.ctrlReg1M, mode, odr))]
    ensures Tracks(d, f, s) && Keeps(d, s.dev) && StopsAtFault(f, s) && s.readsFrom == [] && s.delayUs == None
    ensures s.result.Ok? <==> !Fails(f, 0)
    ensures s.result.Ok? ==> MagOdr(s.dev.ctrlReg1M) == odr
    ensures s.result.Ok? ==> (GetMagMode(s.dev) == mode <==> XyModeReadsBack(d.ctrlReg1M, mode))
    ensures WellFormed(d) ==> WellFormed(s.dev) && Targeted(s.writes)
  {
    var reg := PowerReg(d.ctrlReg1M, mode, odr);
    var s := WriteOne(d, f, CtrlReg1M, reg);
    assert s.result.Ok? ==> s.dev.ctrlReg1M == reg by {
      if s.result.Ok? {
        assert Shadow(s.dev, CtrlReg1M) == Some(reg);
      }
    }
    s
  }

  /** CTRL_REG1_M as evidently intended: the X/Y field cleared before the
      new code goes in, so the mode and the rate both read back. */
  function PowerRegCorrected(reg: Byte, mode: MagMode, odr: MagOutputDataRate): (r: Byte)
    ensures XyMode(r) == mode && MagOdr(r) == odr
    ensures r & !(CtrlReg1M_OM | CtrlReg1M_DO) == reg & !(CtrlReg1M_OM | CtrlReg1M_DO)
    ensures reg & !Declared(CtrlReg1M) == 0 ==> r & !Declared(CtrlReg1M) == 0
  {
    var withMode := WithXyModeCleared(reg, mode);
    var r := WithMagOdr(withMode, odr);
    assert r & CtrlReg1M_OM == withMode & CtrlReg1M_OM;
    r
  }

  /** The setter with the corrected register value: on success both the
      mode and the rate read back. */
  function SetMagModeAndOdrCorrected<I>(d: Lsm303c<I>, f: Fault, mode: MagMode, odr: MagOutputDataRate): (s: Step<Lsm303c<I>, Reg, ()>)
    ensures s.writes == [Write(Mag, CtrlReg1M, PowerRegCorrected(d.ctrlReg1M, mode, odr))]
    ensures Tracks(d, f, s) && Keeps(d, s.dev) && StopsAtFault(f, s) && s.readsFrom == [] && s.delayUs == None
    ensures s.result.Ok? <==> !Fails(f, 0)
    ensures s.result.Ok? ==> GetMagMode(s.dev) == mode && MagOdr(s.dev.ctrlReg1M) == odr
    ensures WellFormed(d) ==> WellFormed(s.dev) && Targeted(s.writes)
  {
    WriteOne(d, f, CtrlReg1M, PowerRegCorrected(d.ctrlReg1M, mode, odr))
  }

  /** Writing back the decoded mode and rate gives the register back, with
      either setter: OR-ing a field's own code into it changes nothing. */
  lemma PowerRegRoundTrip(reg: Byte)
    ensures PowerReg(reg, XyMode(reg), MagOdr(reg)) == reg
    ensures PowerRegCorrected(reg, XyMode(reg), MagOdr(reg)) == reg
  {
    XyModeRoundTrip(reg, XyMode(reg));
    XyModeAsWrittenAgrees(reg, XyMode(reg));
    MagOdrRoundTrip(WithXyModeCleared(reg, XyMode(reg)));
  }

  /** Setting the mode and rate a handle reports changes nothing, with
      either setter. */
  lemma SetMagModeAndOdrRoundTrip<I>(d: Lsm303c<I>)
    ensures SetMagModeAndOdr(d, Healthy, GetMagMode(d), MagOdr(d.ctrlReg1M)).dev == d
    ensures SetMagModeAndOdrCorrected(d, Healthy, GetMagMode(d), MagOdr(d.ctrlReg1M)).dev == d
  {
    PowerRegRoundTrip(d.ctrlReg1M);
    Equal(SetMagModeAndOdr(d, Healthy, GetMagMode(d), MagOdr(d.ctrlReg1M)).dev, d);
    Equal(SetMagModeAndOdrCorrected(d, Healthy, GetMagMode(d), MagOdr(d.ctrlReg1M)).dev, d);
  }

  /** The driver's setter on a handle in ultra-high performance: asking for
      medium performance leaves ultra-high performance, while the corrected
      setter switches. */
  lemma AsWrittenModeSticks<I>(iface: I)
    ensures var d := New(iface).(ctrlReg1M := 0x70);
      GetMagMode(d) == UltraHighPerformance &&
      GetMagMode(SetMagModeAndOdr(d, Healthy, MediumPerformance, MagHz10).dev) == UltraHighPerformance &&
      GetMagMode(SetMagModeAndOdrCorrected(d, Healthy, MediumPerformance, MagHz10).dev) == MediumPerformance
  {
    XyModeSticks();
  }

  // ---- continuous mode ----

  /** A three-axis magnetometer read in continuous mode. */
  function MagneticFieldContinuous<I>(d: Lsm303c<I>, data: Result<(U16, U16, U16), BusError>): (s: Step<Lsm303c<I>, Reg, MagneticField>)
    requires d.magMode == MagContinuous
    ensures ReadOnly(d, s) && s.readsFrom == [Read(Mag, OutXLM)]
    ensures data.Err? ==> s.result == Err(data.error)
    ensures data.Ok? ==> s.result.Ok? && s.result.value.XyzRaw() == data.value
  {
    match data
    case Err(e) => Step(d, [], [Read(Mag, OutXLM)], None, Err(e))
    case Ok(xyz) => Step(d, [], [Read(Mag, OutXLM)], None, Ok(MagneticFieldFromData(xyz)))
  }

  // ---- one-shot mode ----

  /** The conversion check of the one-shot read: the byte read from address
      0x60 of the magnetometer, decoded as the LSM303AGR's CFG_REG_A_M,
      reports a single conversion. */
  predicate ConversionUnderWay(raw: Byte)
    ensures ConversionUnderWay(raw) <==> raw & 0x03 == 0x01
  {
    AgrRegister.IsSingleMode(FromBitsTruncate(AgrRegister.Declared(AgrRegister.CfgRegAM), raw))
  }

  /** A one-shot read. If the status register reports a new sample it is
      read; otherwise the configuration byte is read and, unless a single
      conversion is already under way, one is started by writing single mode
      into CTRL_REG3_M, and the caller is told to come back later. */
  function MagneticFieldOneShot<I>(d: Lsm303c<I>, f: Fault, status: Result<Byte, BusError>,
                                   field: Result<(U16, U16, U16), BusError>, cfg: Result<Byte, BusError>): (s: Step<Lsm303c<I>, Reg, Nb<MagneticField>>)
    requires d.magMode == MagOneShot
    ensures Tracks(d, f, s) && Keeps(d, s.dev) && StopsAtFault(f, s) && s.delayUs == None
    ensures |s.readsFrom| >= 1 && s.readsFrom[0] == Read(Mag, StatusRegM)
    ensures status.Err? ==> s.result == Err(status.error) && s.writes == []
    ensures (s.result.Ok? && s.result.value.Ready?) <==> status.Ok? && XyzNewData(StatusFromData(status.value)) && field.Ok?
    ensures s.result.Ok? && s.result.value.Ready? ==> s.result.value.value.XyzRaw() == field.value
    ensures s.writes != [] <==> status.Ok? && !XyzNewData(StatusFromData(status.value)) && cfg.Ok? && cfg.value & 0x03 != 0x01
    ensures s.writes != [] ==> s.writes == [Write(Mag, CtrlReg3M, SingleMode(d.ctrlReg3M))]
    ensures s.writes != [] && s.result.Ok? ==> IsSingleMode(s.dev.ctrlReg3M)
    ensures s.result == Ok(WouldBlock) <==>
      status.Ok? && !XyzNewData(StatusFromData(status.value)) && cfg.Ok? && (cfg.value & 0x03 == 0x01 || !Fails(f, 0))
    ensures WellFormed(d) ==> WellFormed(s.dev) && Targeted(s.writes)
  {
    match status
    case Err(e) => Step(d, [], [Read(Mag, StatusRegM)], None, Err(e))
    case Ok(st) =>
      if XyzNewData(StatusFromData(st)) then
        var rs := [Read(Mag, StatusRegM), Read(Mag, OutXLM)];
        match field
        case Err(e) => Step(d, [], rs, None, Err(e))
        case Ok(xyz) => Step(d, [], rs, None, Ok(Ready(MagneticFieldFromData(xyz))))
      else
        var rs := [Read(Mag, StatusRegM), Read(Mag, AgrCfgRegAM)];
        match cfg
        case Err(e) => Step(d, [], rs, None, Err(e))
        case Ok(c) =>
          if ConversionUnderWay(c) then Step(d, [], rs, None, Ok(WouldBlock))
          else
            var w := StartConversion(d, f);
            Step(w.dev, w.writes, rs, None, if w.result.Ok? then Ok(WouldBlock) else Err(w.result.error))
  }

  /** Start a single conversion from the copy of CTRL_REG3_M. */
  function StartConversion<I>(d: Lsm303c<I>, f: Fault): (s: Step<Lsm303c<I>, Reg, ()>)
    ensures s.writes == [Write(Mag, CtrlReg3M, SingleMode(d.ctrlReg3M))]
    ensures Tracks(d, f, s) && Keeps(d, s.dev) && StopsAtFault(f, s)
    ensures s.result.Ok? <==> !Fails(f, 0)
    ensures s.result.Err? ==> s.result.error == f.cause
    ensures s.result.Ok? ==> IsSingleMode(s.dev.ctrlReg3M)
    ensures WellFormed(d) ==> WellFormed(s.dev) && Targeted(s.writes)
  {
    ModeRegDeclared(d.ctrlReg3M);
    WriteOne(d, f, CtrlReg3M, SingleMode(d.ctrlReg3M))
  }

  /** The three system modes keep the declared flags of CTRL_REG3_M. */
  lemma ModeRegDeclared(reg: Byte)
    ensures reg & !Declared(CtrlReg3M) == 0 ==> SingleMode(reg) & !Declared(CtrlReg3M) == 0
    ensures reg & !Declared(CtrlReg3M) == 0 ==> ContinuousMode(reg) & !Declared(CtrlReg3M) == 0
    ensures reg & !Declared(CtrlReg3M) == 0 ==> IdleMode(reg) & !Declared(CtrlReg3M) == 0
  {
  }

  /** A new value of CTRL_REG3_M made of declared flags, and a new
      typestate, keep a well-formed handle well formed. */
  lemma ModeRegKeepsWellFormed<I>(d: Lsm303c<I>, reg: Byte, m: MagModeTag)
    ensures WellFormed(d) && reg & !Declared(CtrlReg3M) == 0 ==> WellFormed(d.(ctrlReg3M := reg, magMode := m))
  {
    var e := d.(ctrlReg3M := reg, magMode := m);
    assert forall r :: r != CtrlReg3M ==> Shadow(e, r) == Shadow(d, r);
  }

  // ---- typestate transitions ----

  /** Everything but CTRL_REG3_M and the typestate is carried over. */
  ghost predicate CarriedOver<I>(d: Lsm303c<I>, e: Lsm303c<I>) {
    && e.iface == d.iface && e.accelOdr == d.accelOdr
    && forall r :: r != CtrlReg3M ==> Shadow(e, r) == Shadow(d, r)
  }

  /** One-shot to continuous: write MD = 00. On failure the error carries
      the original handle back. */
  function IntoMagContinuous<I>(d: Lsm303c<I>, f: Fault): (t: Transition<Lsm303c<I>, Reg>)
    requires d.magMode == MagOneShot
    ensures t.writes == [Write(Mag, CtrlReg3M, ContinuousMode(d.ctrlReg3M))]
    ensures t.result.Ok? <==> !Fails(f, 0)
    ensures t.result.Err? ==> t.result.error == ModeChangeError(f.cause, d)
    ensures t.result.Ok? ==> t.result.value.magMode == MagContinuous && CarriedOver(d, t.result.value)
    ensures t.result.Ok? ==> t.result.value.ctrlReg3M & CtrlReg3M_MD == 0
    ensures t.result.Ok? ==> t.result.value.ctrlReg3M & !CtrlReg3M_MD == d.ctrlReg3M & !CtrlReg3M_MD
    ensures t.result.Ok? && WellFormed(d) ==> WellFormed(t.result.value)
  {
    var cfg := ContinuousMode(d.ctrlReg3M);
    var ws := [Write(Mag, CtrlReg3M, cfg)];
    if Fails(f, 0) then Transition(ws, Err(ModeChangeError(f.cause, d)))
    else
      ModeRegDeclared(d.ctrlReg3M);
      ModeRegKeepsWellFormed(d, cfg, MagContinuous);
      Transition(ws, Ok(d.(ctrlReg3M := cfg, magMode := MagContinuous)))
  }

  /** Continuous to one-shot: write MD = 11, leaving the magnetometer idle
      until a one-shot read starts a conversion. */
  function IntoMagOneShot<I>(d: Lsm303c<I>, f: Fault): (t: Transition<Lsm303c<I>, Reg>)
    requires d.magMode == MagContinuous
    ensures t.writes == [Write(Mag, CtrlReg3M, IdleMode(d.ctrlReg3M))]
    ensures t.result.Ok? <==> !Fails(f, 0)
    ensures t.result.Err? ==> t.result.error == ModeChangeError(f.cause, d)
    ensures t.result.Ok? ==> t.result.value.magMode == MagOneShot && CarriedOver(d, t.result.value)
    ensures t.result.Ok? ==> IsIdleMode(t.result.value.ctrlReg3M)
    ensures t.result.Ok? ==> t.result.value.ctrlReg3M & !CtrlReg3M_MD == d.ctrlReg3M & !CtrlReg3M_MD
    ensures t.result.Ok? && WellFormed(d) ==> WellFormed(t.result.value)
  {
    var cfg := IdleMode(d.ctrlReg3M);
    var ws := [Write(Mag, CtrlReg3M, cfg)];
    if Fails(f, 0) then Transition(ws, Err(ModeChangeError(f.cause, d)))
    else
      ModeRegDeclared(d.ctrlReg3M);
      ModeRegKeepsWellFormed(d, cfg, MagOneShot);
      Transition(ws, Ok(d.(ctrlReg3M := cfg, magMode := MagOneShot)))
  }

  /** Going to continuous mode and back on a healthy bus returns the handle
      it started from when the magnetometer was idle, as a new handle is. */
  lemma {:induction false} MagModeRoundTrip<I>(d: Lsm303c<I>)
    requires d.magMode == MagOneShot
    requires d.ctrlReg3M & CtrlReg3M_MD == 0x03
    ensures IntoMagOneShot(IntoMagContinuous(d, Healthy).result.value, Healthy).result == Ok(d)
  {
    var e := IntoMagContinuous(d, Healthy).result.value;
    var g := IntoMagOneShot(e, Healthy).result.value;
    assert g.ctrlReg3M & CtrlReg3M_MD == d.ctrlReg3M & CtrlReg3M_MD;
    assert g.ctrlReg3M & !CtrlReg3M_MD == d.ctrlReg3M & !CtrlReg3M_MD;
    assert g.ctrlReg3M == d.ctrlReg3M;
  }

  // ---- DRDY pin ----

  /** Configure the DRDY pin as a digital output: IEA in INT_CFG_M. */
  function MagEnableInterrupt<I>(d: Lsm303c<I>, f: Fault): (s: Step<Lsm303c<I>, Reg, ()>)
    ensures s.writes == [Write(Mag, IntCfgM, Union(d.intCfgM, IntCfgM_IEA))]
    ensures Tracks(d, f, s) && Keeps(d, s.dev) && StopsAtFault(f, s)
    ensures s.result.Ok? <==> !Fails(f, 0)
    ensures s.result.Ok? ==> Elems(s.dev.intCfgM) == Elems(d.intCfgM) + {2}
    ensures WellFormed(d) ==> WellFormed(s.dev) && Targeted(s.writes)
  {
    ElemsBit(2);
    WriteOne(d, f, IntCfgM, Union(d.intCfgM, IntCfgM_IEA))
  }

  function MagDisableInterrupt<I>(d: Lsm303c<I>, f: Fault): (s: Step<Lsm303c<I>, Reg, ()>)
    ensures s.writes == [Write(Mag, IntCfgM, Difference(d.intCfgM, IntCfgM_IEA))]
    ensures Tracks(d, f, s) && Keeps(d, s.dev) && StopsAtFault(f, s)
    ensures s.result.Ok? <==> !Fails(f, 0)
    ensures s.result.Ok? ==> Elems(s.dev.intCfgM) == Elems(d.intCfgM) - {2}
    ensures WellFormed(d) ==> WellFormed(s.dev) && Targeted(s.writes)
  {
    ElemsBit(2);
    WriteOne(d, f, IntCfgM, Difference(d.intCfgM, IntCfgM_IEA))
  }

  /** Enabling then disabling the pin on a healthy bus restores the handle
      it started from when the pin was off. */
  lemma MagInterruptEnableDisable<I>(d: Lsm303c<I>)
    requires 2 !in Elems(d.intCfgM)
    ensures MagDisableInterrupt(MagEnableInterrupt(d, Healthy).dev, Healthy).dev == d
  {
    IeaToggle(d.intCfgM);
    var e1 := MagEnableInterrupt(d, Healthy).dev;
    assert e1 == d.(intCfgM := Union(d.intCfgM, IntCfgM_IEA));
    var e2 := MagDisableInterrupt(e1, Healthy).dev;
    assert e2 == e1.(intCfgM := Difference(e1.intCfgM, IntCfgM_IEA));
  }

  /** A new handle's pin is off. */
  lemma NewMagInterruptOff<I>(iface: I)
    ensures 2 !in Elems(New(iface).intCfgM)
  {
    ElemsBit(3);
  }

  lemma IeaToggle(reg: Byte)
    requires 2 !in Elems(reg)
    ensures Difference(Union(reg, IntCfgM_IEA), IntCfgM_IEA) == reg
  {
    ElemsBit(2);
    Extensional(Difference(Union(reg, IntCfgM_IEA), IntCfgM_IEA), reg);
  }
}
