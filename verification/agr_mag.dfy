/** LSM303AGR magnetometer: power mode and rate, the continuous and one-shot
    reads, offset cancellation, the typestate transitions and the DRDY pin. */
module AgrMag {
  import opened Bits
  import opened Wrappers
  import opened Types
  import opened Bus
  import opened AgrTypes
  import opened AgrRegister
  import opened AgrDevice

  /** The flags of CFG_REG_A_M the mode and rate setter rewrites. */
  const ModeOdrFlags: Byte := CfgRegAM_LP | CfgRegAM_ODR

  /** The wait after a mode and rate change: the register's turn-on time
      when the power mode changed, one output period when only the rate
      changed while offset cancellation is on, and none otherwise. The
      turn-on time of a register value is a parameter of the model. */
  function MagChangeDelay(turnOnTimeUs: (Byte, bool) -> nat, before: Byte, reg: Byte, offsetCancellation: bool): (delay: Option<nat>)
    ensures delay.Some? <==> MagModeOf(before) != MagModeOf(reg) || (MagOdrOf(before) != MagOdrOf(reg) && offsetCancellation)
    ensures MagModeOf(before) != MagModeOf(reg) ==> delay == Some(turnOnTimeUs(reg, offsetCancellation))
    ensures MagModeOf(before) == MagModeOf(reg) && delay.Some? ==> delay == Some(MagFrac1(MagOdrOf(reg)))
  {
    if MagModeOf(before) != MagModeOf(reg) then Some(turnOnTimeUs(reg, offsetCancellation))
    else if MagOdrOf(before) != MagOdrOf(reg) && offsetCancellation then Some(MagFrac1(MagOdrOf(reg)))
    else None
  }

  /** Set the magnetometer power mode and rate with one write of
      CFG_REG_A_M, then wait as `MagChangeDelay` says. */
  function SetMagModeAndOdr<I>(d: Lsm303agr<I>, f: Fault, turnOnTimeUs: (Byte, bool) -> nat, mode: MagMode, odr: MagOutputDataRate): (s: Step<Lsm303agr<I>, Reg, ()>)
    ensures s.writes == [Write(Mag, CfgRegAM, WithMagOdr(WithMagMode(d.cfgRegAM, mode), odr))]
    ensures Tracks(d, f, s) && Keeps(d, s.dev) && StopsAtFault(f, s) && s.readsFrom == []
    ensures s.result.Ok? <==> !Fails(f, 0)
    ensures s.result.Ok? ==> MagModeOf(s.dev.cfgRegAM) == mode && MagOdrOf(s.dev.cfgRegAM) == odr
    ensures s.result.Ok? ==> s.dev.cfgRegAM & !ModeOdrFlags == d.cfgRegAM & !ModeOdrFlags
    ensures s.result.Err? ==> s.delayUs == None
    ensures s.result.Ok? ==> s.dev == Update(d, CfgRegAM, s.writes[0].value)
    ensures WellFormed(d) ==> WellFormed(s.dev) && Targeted(s.writes)
  {
    var reg := WithMagOdr(WithMagMode(d.cfgRegAM, mode), odr);
    var s := WriteOne(d, f, CfgRegAM, reg);
    if s.result.Err? then s
    else s.(delayUs := MagChangeDelay(turnOnTimeUs, d.cfgRegAM, reg, OffsetCancellation(d.cfgRegBM)))
  }

  /** The wait after a successful call: the turn-on time when the power
      mode changed, one output period when only the rate changed while
      offset cancellation is on, none otherwise. */
  lemma SetMagModeAndOdrDelay<I>(d: Lsm303agr<I>, f: Fault, turnOnTimeUs: (Byte, bool) -> nat, mode: MagMode, odr: MagOutputDataRate)
    ensures var s := SetMagModeAndOdr(d, f, turnOnTimeUs, mode, odr);
      && (s.delayUs.Some? <==> s.result.Ok? && (MagModeOf(d.cfgRegAM) != mode || (MagOdrOf(d.cfgRegAM) != odr && OffsetCancellation(d.cfgRegBM))))
      && (s.result.Ok? && MagModeOf(d.cfgRegAM) != mode ==> s.delayUs == Some(turnOnTimeUs(s.dev.cfgRegAM, OffsetCancellation(d.cfgRegBM))))
      && (s.result.Ok? && MagModeOf(d.cfgRegAM) == mode && s.delayUs.Some? ==> s.delayUs == Some(MagFrac1(odr)))
  {
  }

  /** The magnetometer power mode the shadow of CFG_REG_A_M holds. */
  function GetMagMode<I>(d: Lsm303agr<I>): (m: MagMode)
    ensures m == MagLowPower <==> 4 in Elems(d.cfgRegAM)
  {
    MagModeOf(d.cfgRegAM)
  }

  /** On a healthy bus the call succeeds, its copy of CFG_REG_A_M holds the
      value written, and `GetMagMode` reads the mode back. */
  lemma SetMagModeAndOdrReadBack<I>(d: Lsm303agr<I>, turnOnTimeUs: (Byte, bool) -> nat, mode: MagMode, odr: MagOutputDataRate)
    ensures var s := SetMagModeAndOdr(d, Healthy, turnOnTimeUs, mode, odr);
      s.result.Ok? && s.dev.cfgRegAM == s.writes[0].value && GetMagMode(s.dev) == mode
  {
    assert !Fails(Healthy, 0);
  }

  /** Setting the same mode and rate again writes the same value, changes
      nothing and waits for nothing. */
  lemma SetMagModeAndOdrTwice<I>(d: Lsm303agr<I>, turnOnTimeUs: (Byte, bool) -> nat, mode: MagMode, odr: MagOutputDataRate)
    ensures var s := SetMagModeAndOdr(d, Healthy, turnOnTimeUs, mode, odr);
      var t := SetMagModeAndOdr(s.dev, Healthy, turnOnTimeUs, mode, odr);
      t.writes == s.writes && t.dev == s.dev && t.delayUs == None
  {
    var s := SetMagModeAndOdr(d, Healthy, turnOnTimeUs, mode, odr);
    SetMagModeAndOdrReadBack(d, turnOnTimeUs, mode, odr);
    MagModeOdrRoundTrip(s.dev.cfgRegAM);
    var t := SetMagModeAndOdr(s.dev, Healthy, turnOnTimeUs, mode, odr);
    SetMagModeAndOdrReadBack(s.dev, turnOnTimeUs, mode, odr);
    UpdateSame(s.dev, CfgRegAM);
    SetMagModeAndOdrDelay(s.dev, Healthy, turnOnTimeUs, mode, odr);
  }

  // ---- continuous mode ----

  /** A three-axis magnetometer read in continuous mode. */
  function MagneticFieldContinuous<I>(d: Lsm303agr<I>, data: Result<(U16, U16, U16), BusError>): (s: Step<Lsm303agr<I>, Reg, MagneticField>)
    requires d.magMode == MagContinuous
    ensures ReadOnly(d, s) && s.readsFrom == [Read(Mag, OutXLM)]
    ensures data.Err? ==> s.result == Err(data.error)
    ensures data.Ok? ==> s.result.Ok? && s.result.value.XyzRaw() == data.value
  {
    match data
    case Err(e) => Step(d, [], [Read(Mag, OutXLM)], None, Err(e))
    case Ok(xyz) => Step(d, [], [Read(Mag, OutXLM)], None, Ok(MagneticFieldFromData(xyz)))
  }

  /** In continuous mode the device manages offset cancellation itself: only
      OFF_CANC is switched. */
  function EnableOffsetCancellationContinuous<I>(d: Lsm303agr<I>, f: Fault): (s: Step<Lsm303agr<I>, Reg, ()>)
    requires d.magMode == MagContinuous
    ensures s.writes == [Write(Mag, CfgRegBM, WithOffsetCancellation(d.cfgRegBM))]
    ensures Tracks(d, f, s) && Keeps(d, s.dev) && StopsAtFault(f, s)
    ensures s.result.Ok? <==> !Fails(f, 0)
    ensures s.result.Ok? ==> Elems(s.dev.cfgRegBM) == Elems(d.cfgRegBM) + {1}
    ensures s.result.Ok? ==> OffsetCancellation(s.dev.cfgRegBM)
    ensures WellFormed(d) ==> WellFormed(s.dev) && Targeted(s.writes)
  {
    WriteOne(d, f, CfgRegBM, WithOffsetCancellation(d.cfgRegBM))
  }

  function DisableOffsetCancellationContinuous<I>(d: Lsm303agr<I>, f: Fault): (s: Step<Lsm303agr<I>, Reg, ()>)
    requires d.magMode == MagContinuous
    ensures s.writes == [Write(Mag, CfgRegBM, WithoutOffsetCancellation(d.cfgRegBM))]
    ensures Tracks(d, f, s) && Keeps(d, s.dev) && StopsAtFault(f, s)
    ensures s.result.Ok? <==> !Fails(f, 0)
    ensures s.result.Ok? ==> Elems(s.dev.cfgRegBM) == (Elems(d.cfgRegBM) - {1}) * Elems(Declared(CfgRegBM))
    ensures s.result.Ok? ==> !OffsetCancellation(s.dev.cfgRegBM)
    ensures WellFormed(d) ==> WellFormed(s.dev) && Targeted(s.writes)
  {
    WriteOne(d, f, CfgRegBM, WithoutOffsetCancellation(d.cfgRegBM))
  }

  // ---- one-shot mode ----

  /** A one-shot read. If the status register reports a new sample it is
      read; otherwise CFG_REG_A_M is read from the device and, unless a
      single conversion is already under way, one is started from the
      shadow, and the caller is told to come back later. */
  function MagneticFieldOneShot<I>(d: Lsm303agr<I>, f: Fault, status: Result<Byte, BusError>,
                                   field: Result<(U16, U16, U16), BusError>, cfg: Result<Byte, BusError>): (s: Step<Lsm303agr<I>, Reg, Nb<MagneticField>>)
    requires d.magMode == MagOneShot
    ensures Tracks(d, f, s) && Keeps(d, s.dev) && StopsAtFault(f, s) && s.delayUs == None
    ensures |s.readsFrom| >= 1 && s.readsFrom[0] == Read(Mag, StatusRegM)
    ensures status.Err? ==> s.result == Err(status.error) && s.writes == []
    ensures (s.result.Ok? && s.result.value.Ready?) <==> status.Ok? && XyzNewData(StatusFromData(status.value)) && field.Ok?
    ensures s.result.Ok? && s.result.value.Ready? ==> s.result.value.value.XyzRaw() == field.value
    ensures s.writes != [] <==> status.Ok? && !XyzNewData(StatusFromData(status.value)) && cfg.Ok? && !IsSingleMode(cfg.value)
    ensures s.writes != [] ==> s.writes == [Write(Mag, CfgRegAM, SingleMode(d.cfgRegAM))]
    ensures s.writes != [] && s.result.Ok? ==> IsSingleMode(s.dev.cfgRegAM)
    ensures s.result == Ok(WouldBlock) <==>
      status.Ok? && !XyzNewData(StatusFromData(status.value)) && cfg.Ok? && (IsSingleMode(cfg.value) || !Fails(f, 0))
    ensures WellFormed(d) ==> WellFormed(s.dev) && Targeted(s.writes)
  {
    match status
    case Err(e) => Step(d, [], [Read(Mag, StatusRegM)], None, Err(e))
    case Ok(st) =>
      if XyzNewData(StatusFromData(st)) then
        var rs := [Read(Mag, StatusRegM), Read(Mag, OutXLM)];
        match field
        case Err(e) => Step(d, [], rs, None, Err(e))
        case Ok(xyz) => Step(d, [], rs, None, Ok(Ready(MagneticFieldFromData(xyz))))
      else
        var rs := [Read(Mag, StatusRegM), Read(Mag, CfgRegAM)];
        match cfg
        case Err(e) => Step(d, [], rs, None, Err(e))
        case Ok(c) =>
          if IsSingleMode(c) then Step(d, [], rs, None, Ok(WouldBlock))
          else
            var w := WriteOne(d, f, CfgRegAM, SingleMode(d.cfgRegAM));
            Step(w.dev, w.writes, rs, None, if w.result.Ok? then Ok(WouldBlock) else Err(w.result.error))
  }

  /** In one-shot mode offset cancellation is managed by the caller:
      OFF_CANC and OFF_CANC_ONE_SHOT are switched together. */
  function EnableOffsetCancellationOneShot<I>(d: Lsm303agr<I>, f: Fault): (s: Step<Lsm303agr<I>, Reg, ()>)
    requires d.magMode == MagOneShot
    ensures s.writes == [Write(Mag, CfgRegBM, WithOneShotOffsetCancellation(d.cfgRegBM))]
    ensures Tracks(d, f, s) && Keeps(d, s.dev) && StopsAtFault(f, s)
    ensures s.result.Ok? <==> !Fails(f, 0)
    ensures s.result.Ok? ==> Elems(s.dev.cfgRegBM) == Elems(d.cfgRegBM) + {1, 4}
    ensures s.result.Ok? ==> OffsetCancellation(s.dev.cfgRegBM)
    ensures WellFormed(d) ==> WellFormed(s.dev) && Targeted(s.writes)
  {
    WriteOne(d, f, CfgRegBM, WithOneShotOffsetCancellation(d.cfgRegBM))
  }

  function DisableOffsetCancellationOneShot<I>(d: Lsm303agr<I>, f: Fault): (s: Step<Lsm303agr<I>, Reg, ()>)
    requires d.magMode == MagOneShot
    ensures s.writes == [Write(Mag, CfgRegBM, WithoutOneShotOffsetCancellation(d.cfgRegBM))]
    ensures Tracks(d, f, s) && Keeps(d, s.dev) && StopsAtFault(f, s)
    ensures s.result.Ok? <==> !Fails(f, 0)
    ensures s.result.Ok? ==> Elems(s.dev.cfgRegBM) == Elems(d.cfgRegBM) - {1, 4}
    ensures s.result.Ok? ==> !OffsetCancellation(s.dev.cfgRegBM)
    ensures WellFormed(d) ==> WellFormed(s.dev) && Targeted(s.writes)
  {
    WriteOne(d, f, CfgRegBM, WithoutOneShotOffsetCancellation(d.cfgRegBM))
  }

  // ---- typestate transitions ----

  /** Everything but CFG_REG_A_M and the typestate is carried over. */
  ghost predicate CarriedOver<I>(d: Lsm303agr<I>, e: Lsm303agr<I>) {
    && e.iface == d.iface && e.accelOdr == d.accelOdr
    && forall r :: r != CfgRegAM ==> Shadow(e, r) == Shadow(d, r)
  }

  /** One-shot to continuous: write MD = 00. On failure the error carries
      the original handle back. */
  function IntoMagContinuous<I>(d: Lsm303agr<I>, f: Fault): (t: Transition<Lsm303agr<I>, Reg>)
    requires d.magMode == MagOneShot
    ensures t.writes == [Write(Mag, CfgRegAM, ContinuousMode(d.cfgRegAM))]
    ensures t.result.Ok? <==> !Fails(f, 0)
    ensures t.result.Err? ==> t.result.error == ModeChangeError(f.cause, d)
    ensures t.result.Ok? ==> t.result.value.magMode == MagContinuous && CarriedOver(d, t.result.value)
    ensures t.result.Ok? ==> t.result.value.cfgRegAM & CfgRegAM_MD == 0
    ensures t.result.Ok? ==> t.result.value.cfgRegAM & !CfgRegAM_MD == d.cfgRegAM & !CfgRegAM_MD
    ensures t.result.Ok? && WellFormed(d) ==> WellFormed(t.result.value)
  {
    var cfg := ContinuousMode(d.cfgRegAM);
    var ws := [Write(Mag, CfgRegAM, cfg)];
    if Fails(f, 0) then Transition(ws, Err(ModeChangeError(f.cause, d)))
    else Transition(ws, Ok(d.(cfgRegAM := cfg, magMode := MagContinuous)))
  }

  /** Continuous to one-shot: write MD = 11, leaving the magnetometer idle
      until a one-shot read starts a conversion. */
  function IntoMagOneShot<I>(d: Lsm303agr<I>, f: Fault): (t: Transition<Lsm303agr<I>, Reg>)
    requires d.magMode == MagContinuous
    ensures t.writes == [Write(Mag, CfgRegAM, IdleMode(d.cfgRegAM))]
    ensures t.result.Ok? <==> !Fails(f, 0)
    ensures t.result.Err? ==> t.result.error == ModeChangeError(f.cause, d)
    ensures t.result.Ok? ==> t.result.value.magMode == MagOneShot && CarriedOver(d, t.result.value)
    ensures t.result.Ok? ==> IsIdleMode(t.result.value.cfgRegAM)
    ensures t.result.Ok? ==> t.result.value.cfgRegAM & !CfgRegAM_MD == d.cfgRegAM & !CfgRegAM_MD
    ensures t.result.Ok? && WellFormed(d) ==> WellFormed(t.result.value)
  {
    var cfg := IdleMode(d.cfgRegAM);
    var ws := [Write(Mag, CfgRegAM, cfg)];
    if Fails(f, 0) then Transition(ws, Err(ModeChangeError(f.cause, d)))
    else Transition(ws, Ok(d.(cfgRegAM := cfg, magMode := MagOneShot)))
  }

  /** Going to continuous mode and back on a healthy bus returns the handle
      it started from when the magnetometer was idle. */
  lemma {:induction false} MagModeRoundTrip<I>(d: Lsm303agr<I>)
    requires d.magMode == MagOneShot
    requires d.cfgRegAM & CfgRegAM_MD == 0x03
    ensures IntoMagOneShot(IntoMagContinuous(d, Healthy).result.value, Healthy).result == Ok(d)
  {
    var e := IntoMagContinuous(d, Healthy).result.value;
    var g := IntoMagOneShot(e, Healthy).result.value;
    assert g.cfgRegAM & CfgRegAM_MD == d.cfgRegAM & CfgRegAM_MD;
    assert g.cfgRegAM & !CfgRegAM_MD == d.cfgRegAM & !CfgRegAM_MD;
    assert g.cfgRegAM == d.cfgRegAM;
  }

  // ---- DRDY pin ----

  /** Configure the DRDY pin as a digital output: INT_MAG in CFG_REG_C_M. */
  function MagEnableInterrupt<I>(d: Lsm303agr<I>, f: Fault): (s: Step<Lsm303agr<I>, Reg, ()>)
    ensures s.writes == [Write(Mag, CfgRegCM, Union(d.cfgRegCM, CfgRegCM_INT_MAG))]
    ensures Tracks(d, f, s) && Keeps(d, s.dev) && StopsAtFault(f, s)
    ensures s.result.Ok? <==> !Fails(f, 0)
    ensures s.result.Ok? ==> Elems(s.dev.cfgRegCM) == Elems(d.cfgRegCM) + {0}
    ensures WellFormed(d) ==> WellFormed(s.dev) && Targeted(s.writes)
  {
    ElemsBit(0);
    WriteOne(d, f, CfgRegCM, Union(d.cfgRegCM, CfgRegCM_INT_MAG))
  }

  function MagDisableInterrupt<I>(d: Lsm303agr<I>, f: Fault): (s: Step<Lsm303agr<I>, Reg, ()>)
    ensures s.writes == [Write(Mag, CfgRegCM, Difference(d.cfgRegCM, CfgRegCM_INT_MAG))]
    ensures Tracks(d, f, s) && Keeps(d, s.dev) && StopsAtFault(f, s)
    ensures s.result.Ok? <==> !Fails(f, 0)
    ensures s.result.Ok? ==> Elems(s.dev.cfgRegCM) == Elems(d.cfgRegCM) - {0}
    ensures WellFormed(d) ==> WellFormed(s.dev) && Targeted(s.writes)
  {
    ElemsBit(0);
    WriteOne(d, f, CfgRegCM, Difference(d.cfgRegCM, CfgRegCM_INT_MAG))
  }
}
