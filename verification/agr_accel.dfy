/** LSM303AGR accelerometer configuration: power mode and output data rate,
    full scale, FIFO and interrupt routing. */
module AgrAccel {
  import opened Bits
  import opened Wrappers
  import opened Types
  import opened Bus
  import opened AgrTypes
  import opened AgrRegister
  import opened AgrDevice

  /** The rates each mode can run at: the two low-power rates only in low
      power, 1.344 kHz in every mode but low power. A powered-down
      accelerometer accepts any rate, and no rate means powered down. */
  predicate Compatible(odr: Option<AccelOutputDataRate>, mode: AccelMode) {
    match odr
    case None => mode == PowerDown
    case Some(o) =>
      mode == PowerDown ||
      ((o == Khz1_344 ==> mode != LowPower) &&
       (o in {Khz1_620LowPower, Khz5_376LowPower} ==> mode == LowPower))
  }

  function CheckAccelOdrIsCompatibleWithMode(odr: Option<AccelOutputDataRate>, mode: AccelMode): (r: Result<(), Error>)
    ensures r.Ok? <==> Compatible(odr, mode)
    ensures r.Err? ==> r.error == InvalidInputData
  {
    match odr
    case None => if mode == PowerDown then Ok(()) else Err(InvalidInputData)
    case Some(o) =>
      if o == Khz1_344 && mode == LowPower then Err(InvalidInputData)
      else if (o == Khz1_620LowPower || o == Khz5_376LowPower) && (mode == Normal || mode == HighResolution) then Err(InvalidInputData)
      else Ok(())
  }

  /** The compatibility table the driver's unit tests check, row by row. */
  lemma CompatibilityTable()
    ensures forall o :: Compatible(Some(o), PowerDown)
    ensures forall o :: Compatible(Some(o), Normal) <==> o !in {Khz1_620LowPower, Khz5_376LowPower}
    ensures forall o :: Compatible(Some(o), HighResolution) <==> o !in {Khz1_620LowPower, Khz5_376LowPower}
    ensures forall o :: Compatible(Some(o), LowPower) <==> o != Khz1_344
    ensures forall m :: Compatible(None, m) <==> m == PowerDown
  {
  }

  /** CTRL_REG1_A as the mode and rate setter writes it: the rate's ODR
      code, LPEN exactly in low power. */
  function ModeReg1(reg: Byte, mode: AccelMode, odr: Option<AccelOutputDataRate>): (r: Byte)
    ensures r & CtrlReg1A_ODR == (if odr.Some? then AccelOdrField(odr.value) else 0)
    ensures r & CtrlReg1A_LPEN != 0 <==> mode == LowPower
    ensures r & !(CtrlReg1A_ODR | CtrlReg1A_LPEN) == reg & !(CtrlReg1A_ODR | CtrlReg1A_LPEN)
  {
    var reg1 := Difference(reg, CtrlReg1A_ODR);
    var reg1 := if odr.Some? then WithAccelOdr(reg1, odr.value) else reg1;
    if mode == LowPower then Union(reg1, CtrlReg1A_LPEN) else Difference(reg1, CtrlReg1A_LPEN)
  }

  /** The value CTRL_REG4_A receives from the setter's writes: HR exactly
      in high resolution, every other flag as it was. */
  function ModeReg4(reg: Byte, mode: AccelMode): (r: Byte)
    ensures r & CtrlReg4A_HR != 0 <==> mode == HighResolution
    ensures r & !CtrlReg4A_HR == reg & !CtrlReg4A_HR
  {
    Set(reg, CtrlReg4A_HR, mode == HighResolution)
  }

  /** LPEN and HR must never be set together; the setter orders its writes
      so that the device never holds both. */
  predicate NoLowPowerHighResolution(reg1: Byte, reg4: Byte) {
    reg1 & CtrlReg1A_LPEN == 0 || reg4 & CtrlReg4A_HR == 0
  }

  /** The writes of the mode and rate setter, in bus order: HR cleared in
      CTRL_REG4_A before CTRL_REG1_A is written, or set after it for high
      resolution. */
  function ModeWrites(reg1: Byte, reg4: Byte, mode: AccelMode, odr: Option<AccelOutputDataRate>): (ws: seq<Write<Reg>>)
    ensures |ws| == 2 && Recordable(ws) && Targeted(ws)
    ensures ws[0].reg == (if mode == HighResolution then CtrlReg1A else CtrlReg4A)
    ensures ws[1].reg == (if mode == HighResolution then CtrlReg4A else CtrlReg1A)
  {
    if mode != HighResolution then [Write(Accel, CtrlReg4A, ModeReg4(reg4, mode)), Write(Accel, CtrlReg1A, ModeReg1(reg1, mode, odr))]
    else [Write(Accel, CtrlReg1A, ModeReg1(reg1, mode, odr)), Write(Accel, CtrlReg4A, ModeReg4(reg4, mode))]
  }

  /** Set the accelerometer power mode and rate. An incompatible pair fails
      before any write. Otherwise the two writes of `ModeWrites` go out in
      order, the rate is recorded as soon as the CTRL_REG1_A write lands,
      and when a rate is given the call waits the datasheet's change time
      from the old mode. */
  function SetAccelModeAndOdr<I>(d: Lsm303agr<I>, f: Fault, mode: AccelMode, odr: Option<AccelOutputDataRate>): (s: Step<Lsm303agr<I>, Reg, ()>)
    ensures !Compatible(odr, mode) ==> s == Step(d, [], [], None, Err(InvalidInputData))
    ensures Compatible(odr, mode) ==> s.writes == Attempted(f, ModeWrites(d.ctrlReg1A, d.ctrlReg4A, mode, odr))
    ensures Compatible(odr, mode) ==> (s.result.Ok? <==> !Interrupted(f, s.writes))
    ensures Tracks(d, f, s) && StopsAtFault(f, s) && s.readsFrom == []
    ensures s.dev.iface == d.iface && s.dev.magMode == d.magMode
    ensures s.dev.accelOdr == if LastWrite(Landed(f, s.writes), Accel, CtrlReg1A).Some? then odr else d.accelOdr
    ensures s.delayUs == if s.result.Ok? && odr.Some? then Some(AccelChangeTimeUs(GetAccelMode(d), mode, odr.value)) else None
  {
    if CheckAccelOdrIsCompatibleWithMode(odr, mode).Err? then Step(d, [], [], None, Err(InvalidInputData))
    else
      var delay := if odr.Some? then Some(AccelChangeTimeUs(GetAccelMode(d), mode, odr.value)) else None;
      var s := Run(d, f, ModeWrites(d.ctrlReg1A, d.ctrlReg4A, mode, odr), delay);
      var landed := LastWrite(Landed(f, s.writes), Accel, CtrlReg1A).Some?;
      ShadowIgnoresRate(s.dev, if landed then odr else d.accelOdr);
      s.(dev := s.dev.(accelOdr := if landed then odr else d.accelOdr))
  }

  /** The last value each register receives from any prefix of the setter's
      writes: CTRL_REG1_A only ever receives `ModeReg1`, CTRL_REG4_A only
      `ModeReg4`, and the full sequence writes both. */
  lemma ModeWritesLast(reg1: Byte, reg4: Byte, mode: AccelMode, odr: Option<AccelOutputDataRate>, n: nat)
    requires n <= 2
    ensures var last := LastWrite(ModeWrites(reg1, reg4, mode, odr)[..n], Accel, CtrlReg1A);
      last.Some? ==> last == Some(ModeReg1(reg1, mode, odr))
    ensures var last := LastWrite(ModeWrites(reg1, reg4, mode, odr)[..n], Accel, CtrlReg4A);
      last.Some? ==> last == Some(ModeReg4(reg4, mode))
    ensures n == 2 ==> LastWrite(ModeWrites(reg1, reg4, mode, odr)[..n], Accel, CtrlReg1A).Some?
    ensures n == 2 ==> LastWrite(ModeWrites(reg1, reg4, mode, odr)[..n], Accel, CtrlReg4A).Some?
  {
    var ws := ModeWrites(reg1, reg4, mode, odr);
    LastWriteShort(ws[0], ws[1]);
    assert ws[..0] == [] && ws[..1] == [ws[0]] && ws[..2] == ws == [ws[0], ws[1]];
  }

  /** What a successful call leaves in the two registers: CTRL_REG1_A holds
      the rate's code and LPEN exactly in low power, CTRL_REG4_A holds HR
      exactly in high resolution and is otherwise unchanged. */
  lemma SetAccelModeAndOdrRegisters<I>(d: Lsm303agr<I>, f: Fault, mode: AccelMode, odr: Option<AccelOutputDataRate>)
    requires SetAccelModeAndOdr(d, f, mode, odr).result.Ok?
    ensures SetAccelModeAndOdr(d, f, mode, odr).dev.ctrlReg1A == ModeReg1(d.ctrlReg1A, mode, odr)
    ensures SetAccelModeAndOdr(d, f, mode, odr).dev.ctrlReg4A == ModeReg4(d.ctrlReg4A, mode)
    ensures SetAccelModeAndOdr(d, f, mode, odr).dev.accelOdr == odr
  {
    var s := SetAccelModeAndOdr(d, f, mode, odr);
    var all := ModeWrites(d.ctrlReg1A, d.ctrlReg4A, mode, odr);
    ModeWritesLast(d.ctrlReg1A, d.ctrlReg4A, mode, odr, 2);
    assert Landed(f, s.writes) == all == all[..2];
    assert Shadow(s.dev, CtrlReg1A) == Holds(d, all, CtrlReg1A);
    assert Shadow(s.dev, CtrlReg4A) == Holds(d, all, CtrlReg4A);
  }

  /** After a successful call the handle reports the requested mode, except
      that power-down with a rate reads as normal, since the rate's code
      stays in CTRL_REG1_A. */
  lemma SetAccelModeAndOdrModeReadsBack<I>(d: Lsm303agr<I>, f: Fault, mode: AccelMode, odr: Option<AccelOutputDataRate>)
    requires SetAccelModeAndOdr(d, f, mode, odr).result.Ok?
    ensures GetAccelMode(SetAccelModeAndOdr(d, f, mode, odr).dev) == if mode == PowerDown && odr.Some? then Normal else mode
  {
    SetAccelModeAndOdrRegisters(d, f, mode, odr);
  }

  /** Every prefix of the setter's writes keeps LPEN and HR apart: the
      register values the device holds after zero, one or both writes never
      have both set, when the values it started from did not. */
  lemma ModeWritesNeverBoth(reg1: Byte, reg4: Byte, mode: AccelMode, odr: Option<AccelOutputDataRate>, n: nat)
    requires n <= 2 && NoLowPowerHighResolution(reg1, reg4)
    ensures var ws := ModeWrites(reg1, reg4, mode, odr)[..n];
      var l1 := LastWrite(ws, Accel, CtrlReg1A);
      var l4 := LastWrite(ws, Accel, CtrlReg4A);
      NoLowPowerHighResolution(if l1.Some? then l1.value else reg1, if l4.Some? then l4.value else reg4)
  {
    ModeWritesLast(reg1, reg4, mode, odr, n);
    var ws := ModeWrites(reg1, reg4, mode, odr);
    LastWriteShort(ws[0], ws[1]);
    assert ws[..0] == [] && ws[..1] == [ws[0]] && ws[..2] == [ws[0], ws[1]];
  }

  /** The call keeps the handle well formed and writes declared flags only,
      whether or not every write lands. */
  lemma SetAccelModeAndOdrWellFormed<I>(d: Lsm303agr<I>, f: Fault, mode: AccelMode, odr: Option<AccelOutputDataRate>)
    requires WellFormed(d)
    ensures WellFormed(SetAccelModeAndOdr(d, f, mode, odr).dev)
    ensures Targeted(SetAccelModeAndOdr(d, f, mode, odr).writes)
  {
    SetAccelModeAndOdrDeclared(d, f, mode, odr);
    if Compatible(odr, mode) {
      SetAccelModeAndOdrRate(d, f, mode, odr);
      var e := SetAccelModeAndOdr(d, f, mode, odr).dev;
      ModeReg1KeepsRate(d, e, mode, odr);
    }
  }

  /** Writing `ModeReg1` and remembering the rate together keeps the rate
      recorded. */
  lemma ModeReg1KeepsRate<I>(d: Lsm303agr<I>, e: Lsm303agr<I>, mode: AccelMode, odr: Option<AccelOutputDataRate>)
    requires (e.ctrlReg1A, e.accelOdr) == (ModeReg1(d.ctrlReg1A, mode, odr), odr) || (e.ctrlReg1A, e.accelOdr) == (d.ctrlReg1A, d.accelOdr)
    ensures RateRecorded(d) ==> RateRecorded(e)
  {
  }

  lemma SetAccelModeAndOdrDeclared<I>(d: Lsm303agr<I>, f: Fault, mode: AccelMode, odr: Option<AccelOutputDataRate>)
    requires ShadowsDeclared(d)
    ensures ShadowsDeclared(SetAccelModeAndOdr(d, f, mode, odr).dev)
    ensures Targeted(SetAccelModeAndOdr(d, f, mode, odr).writes)
  {
    var s := SetAccelModeAndOdr(d, f, mode, odr);
    if Compatible(odr, mode) {
      TargetedPrefix(ModeWrites(d.ctrlReg1A, d.ctrlReg4A, mode, odr), s.writes);
      TracksKeepsDeclared(d, f, s);
    }
  }

  /** CTRL_REG1_A and the remembered rate change together: both when the
      CTRL_REG1_A write lands, neither otherwise. */
  lemma SetAccelModeAndOdrRate<I>(d: Lsm303agr<I>, f: Fault, mode: AccelMode, odr: Option<AccelOutputDataRate>)
    requires Compatible(odr, mode)
    ensures var e := SetAccelModeAndOdr(d, f, mode, odr).dev;
      (e.ctrlReg1A, e.accelOdr) == (ModeReg1(d.ctrlReg1A, mode, odr), odr) || (e.ctrlReg1A, e.accelOdr) == (d.ctrlReg1A, d.accelOdr)
  {
    var s := SetAccelModeAndOdr(d, f, mode, odr);
    var all := ModeWrites(d.ctrlReg1A, d.ctrlReg4A, mode, odr);
    var landed := Landed(f, s.writes);
    assert landed == all[..|landed|];
    ModeWritesLast(d.ctrlReg1A, d.ctrlReg4A, mode, odr, |landed|);
    assert Shadow(s.dev, CtrlReg1A) == Holds(d, landed, CtrlReg1A);
  }

  function SetAccelScale<I>(d: Lsm303agr<I>, f: Fault, scale: AccelScale): (s: Step<Lsm303agr<I>, Reg, ()>)
    ensures s.writes == [Write(Accel, CtrlReg4A, WithAccelScale(d.ctrlReg4A, scale))]
    ensures Tracks(d, f, s) && Keeps(d, s.dev) && StopsAtFault(f, s)
    ensures s.result.Ok? <==> !Fails(f, 0)
    ensures s.result.Ok? ==> GetAccelScale(s.dev) == scale && GetAccelMode(s.dev) == GetAccelMode(d)
    ensures WellFormed(d) ==> WellFormed(s.dev) && Targeted(s.writes)
  {
    var reg := WithAccelScale(d.ctrlReg4A, scale);
    WriteOne(d, f, CtrlReg4A, reg)
  }

  /** The FIFO setter's writes: FIFO_EN in CTRL_REG5_A exactly when the
      mode is not bypass, then the mode and the threshold in
      FIFO_CTRL_REG_A. */
  function FifoWrites(reg5: Byte, fifoCtrl: Byte, mode: FifoMode, fth: U8): (ws: seq<Write<Reg>>)
    ensures |ws| == 2 && Recordable(ws) && KeepsRate(ws)
    ensures reg5 & !Declared(CtrlReg5A) == 0 ==> Targeted(ws)
    ensures ws[0].reg == CtrlReg5A && ws[1].reg == FifoCtrlRegA
  {
    var enReg := Set(reg5, CtrlReg5A_FIFO_EN, mode != Bypass);
    var modeReg := WithFullThreshold(WithFifoMode(fifoCtrl, mode), fth);
    [Write(Accel, CtrlReg5A, enReg), Write(Accel, FifoCtrlRegA, modeReg)]
  }

  /** Set the FIFO mode and full threshold (clamped to 31). */
  function AccSetFifoMode<I>(d: Lsm303agr<I>, f: Fault, mode: FifoMode, fth: U8): (s: Step<Lsm303agr<I>, Reg, ()>)
    ensures s.writes == Attempted(f, FifoWrites(d.ctrlReg5A, d.fifoCtrlRegA, mode, fth))
    ensures Tracks(d, f, s) && Keeps(d, s.dev) && StopsAtFault(f, s) && s.readsFrom == [] && s.delayUs == None
    ensures s.result.Ok? <==> !Interrupted(f, s.writes)
    ensures WellFormed(d) ==> WellFormed(s.dev)
  {
    var s := Run(d, f, FifoWrites(d.ctrlReg5A, d.fifoCtrlRegA, mode, fth), None);
    assert WellFormed(d) ==> Shadow(d, CtrlReg5A).value & !Declared(CtrlReg5A) == 0;
    TracksKeepsWellFormed(d, f, s);
    s
  }

  /** What a successful call leaves in the two registers. */
  lemma AccSetFifoModeRegisters<I>(d: Lsm303agr<I>, f: Fault, mode: FifoMode, fth: U8)
    requires AccSetFifoMode(d, f, mode, fth).result.Ok?
    ensures var e := AccSetFifoMode(d, f, mode, fth).dev;
      Elems(e.ctrlReg5A) == if mode != Bypass then Elems(d.ctrlReg5A) + {6} else Elems(d.ctrlReg5A) - {6}
    ensures FifoModeOf(AccSetFifoMode(d, f, mode, fth).dev.fifoCtrlRegA) == mode
    ensures (AccSetFifoMode(d, f, mode, fth).dev.fifoCtrlRegA & FifoCtrlRegA_FTH) as int == if fth > 31 then 31 else fth
    ensures var e := AccSetFifoMode(d, f, mode, fth).dev;
      e.fifoCtrlRegA & !(FifoCtrlRegA_FM | FifoCtrlRegA_FTH) == d.fifoCtrlRegA & !(FifoCtrlRegA_FM | FifoCtrlRegA_FTH)
  {
    var s := AccSetFifoMode(d, f, mode, fth);
    var all := FifoWrites(d.ctrlReg5A, d.fifoCtrlRegA, mode, fth);
    LastWriteShort(all[0], all[1]);
    assert all == [all[0], all[1]];
    assert Landed(f, s.writes) == all;
    assert Shadow(s.dev, CtrlReg5A) == Holds(d, all, CtrlReg5A);
    assert Shadow(s.dev, FifoCtrlRegA) == Holds(d, all, FifoCtrlRegA);
    ElemsBit(6);
  }

  /** The two FIFO writes the driver's tests expect, from a new handle. */
  lemma FifoWritesFromNew<I>(iface: I)
    ensures AccSetFifoMode(New(iface), Healthy, Stream, 31).writes ==
      [Write(Accel, CtrlReg5A, 0x40), Write(Accel, FifoCtrlRegA, 0x9F)]
    ensures AccSetFifoMode(New(iface), Healthy, Fifo, 4).writes ==
      [Write(Accel, CtrlReg5A, 0x40), Write(Accel, FifoCtrlRegA, 0x44)]
  {
  }

  function AccEnableInterrupt<I>(d: Lsm303agr<I>, f: Fault, i: Interrupt): (s: Step<Lsm303agr<I>, Reg, ()>)
    ensures s.writes == [Write(Accel, CtrlReg3A, WithInterrupt(d.ctrlReg3A, i))]
    ensures Tracks(d, f, s) && Keeps(d, s.dev) && StopsAtFault(f, s)
    ensures s.result.Ok? <==> !Fails(f, 0)
    ensures s.result.Ok? ==> Elems(s.dev.ctrlReg3A) == Elems(d.ctrlReg3A) + {InterruptBit(i)}
    ensures WellFormed(d) ==> WellFormed(s.dev) && Targeted(s.writes)
  {
    var reg3 := WithInterrupt(d.ctrlReg3A, i);
    InterruptDeclared(d.ctrlReg3A, i);
    WriteOne(d, f, CtrlReg3A, reg3)
  }

  function AccDisableInterrupt<I>(d: Lsm303agr<I>, f: Fault, i: Interrupt): (s: Step<Lsm303agr<I>, Reg, ()>)
    ensures s.writes == [Write(Accel, CtrlReg3A, WithoutInterrupt(d.ctrlReg3A, i))]
    ensures Tracks(d, f, s) && Keeps(d, s.dev) && StopsAtFault(f, s)
    ensures s.result.Ok? <==> !Fails(f, 0)
    ensures s.result.Ok? ==> Elems(s.dev.ctrlReg3A) == Elems(d.ctrlReg3A) - {InterruptBit(i)}
    ensures WellFormed(d) ==> WellFormed(s.dev) && Targeted(s.writes)
  {
    var reg3 := WithoutInterrupt(d.ctrlReg3A, i);
    InterruptDeclared(d.ctrlReg3A, i);
    WriteOne(d, f, CtrlReg3A, reg3)
  }

  /** Enabling then disabling an interrupt on a healthy bus restores the
      handle it started from when the interrupt was off. */
  lemma InterruptEnableDisable<I>(d: Lsm303agr<I>, i: Interrupt)
    requires InterruptBit(i) !in Elems(d.ctrlReg3A)
    ensures AccDisableInterrupt(AccEnableInterrupt(d, Healthy, i).dev, Healthy, i).dev == d
  {
    InterruptToggle(d.ctrlReg3A, i);
    InterruptIdempotent(d.ctrlReg3A, i);
  }
}
