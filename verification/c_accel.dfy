/** LSM303C accelerometer configuration: power mode and output data rate,
    full scale, FIFO and interrupt routing. */
module CAccel {
  import opened Bits
  import opened Wrappers
  import opened Types
  import opened Bus
  import opened CTypes
  import opened CRegister
  import opened CDevice

  /** A rate must be given unless the mode is power-down. */
  predicate Accepted(mode: AccelMode, odr: Option<AccelOutputDataRate>) {
    odr.Some? || mode == PowerDown
  }

  /** CTRL_REG1_A as the mode and rate setter writes it: the rate's ODR code
      (none for no rate), HR exactly in high resolution, every other flag as
      it was. */
  function ModeReg1(reg: Byte, mode: AccelMode, odr: Option<AccelOutputDataRate>): (r: Byte)
    ensures r & CtrlReg1A_ODR == (if odr.Some? then AccelOdrField(odr.value) else 0)
    ensures r & CtrlReg1A_HR != 0 <==> mode == HighResolution
    ensures r & !(CtrlReg1A_ODR | CtrlReg1A_HR) == reg & !(CtrlReg1A_ODR | CtrlReg1A_HR)
  {
    var reg1 := Difference(reg, CtrlReg1A_ODR);
    var reg1 := if odr.Some? then WithAccelOdr(reg1, odr.value) else reg1;
    if mode == HighResolution then Union(reg1, CtrlReg1A_HR) else Difference(reg1, CtrlReg1A_HR)
  }

  /** The mode the register `ModeReg1` writes reads back as: power-down
      exactly when no rate is given, so a power-down request with a rate
      leaves the accelerometer running in normal mode. */
  function ModeAfter(mode: AccelMode, odr: Option<AccelOutputDataRate>): AccelMode {
    if odr.None? then PowerDown
    else if mode == HighResolution then HighResolution
    else Normal
  }

  /** The time the setter waits: 100 ms when the accelerometer leaves
      power-down, nothing otherwise. */
  function TurnOnDelay(before: AccelMode, mode: AccelMode): (delay: Option<nat>)
    ensures delay.Some? <==> before == PowerDown && mode != PowerDown
    ensures delay.Some? ==> delay.value == 100000
  {
    if before == PowerDown && mode != PowerDown then Some(100000) else None
  }

  /** Set the accelerometer power mode and rate. A missing rate for a mode
      other than power-down fails before any write. Otherwise CTRL_REG1_A is
      written; once it lands the copy and the rate are recorded and, when the
      accelerometer leaves power-down, the call waits 100 ms. */
  function SetAccelModeAndOdr<I>(d: Lsm303c<I>, f: Fault, mode: AccelMode, odr: Option<AccelOutputDataRate>): (s: Step<Lsm303c<I>, Reg, ()>)
    ensures !Accepted(mode, odr) ==> s == Step(d, [], [], None, Err(InvalidInputData))
    ensures Accepted(mode, odr) ==> s.writes == [Write(Accel, CtrlReg1A, ModeReg1(d.ctrlReg1A, mode, odr))]
    ensures Accepted(mode, odr) ==> (s.result.Ok? <==> !Fails(f, 0))
    ensures Tracks(d, f, s) && StopsAtFault(f, s) && s.readsFrom == []
    ensures s.dev.iface == d.iface && s.dev.magMode == d.magMode
    ensures s.dev.accelOdr == if s.result.Ok? then odr else d.accelOdr
    ensures s.delayUs == if s.result.Ok? then TurnOnDelay(GetAccelMode(d), mode) else None
    ensures s.result.Ok? ==> GetAccelMode(s.dev) == ModeAfter(mode, odr)
    ensures s.result.Ok? ==> s.dev == Update(d, CtrlReg1A, s.writes[0].value).(accelOdr := odr)
    ensures s.result.Err? ==> s.dev == d
  {
    if !Accepted(mode, odr) then Step(d, [], [], None, Err(InvalidInputData))
    else
      var before := GetAccelMode(d);
      var s := WriteOne(d, f, CtrlReg1A, ModeReg1(d.ctrlReg1A, mode, odr));
      if s.result.Ok? then
        ShadowIgnoresRate(s.dev, odr);
        s.(dev := s.dev.(accelOdr := odr), delayUs := TurnOnDelay(before, mode))
      else s
  }

  /** The call writes declared flags only and so keeps every copy to its
      declared flags. */
  lemma SetAccelModeAndOdrDeclared<I>(d: Lsm303c<I>, f: Fault, mode: AccelMode, odr: Option<AccelOutputDataRate>)
    requires ShadowsDeclared(d)
    ensures ShadowsDeclared(SetAccelModeAndOdr(d, f, mode, odr).dev)
    ensures Targeted(SetAccelModeAndOdr(d, f, mode, odr).writes)
  {
    var s := SetAccelModeAndOdr(d, f, mode, odr);
    TracksKeepsDeclared(d, f, s);
  }

  /** The call keeps the handle well formed: the ODR field and the rate
      change together. */
  lemma SetAccelModeAndOdrWellFormed<I>(d: Lsm303c<I>, f: Fault, mode: AccelMode, odr: Option<AccelOutputDataRate>)
    requires WellFormed(d)
    ensures WellFormed(SetAccelModeAndOdr(d, f, mode, odr).dev)
    ensures Targeted(SetAccelModeAndOdr(d, f, mode, odr).writes)
  {
    SetAccelModeAndOdrDeclared(d, f, mode, odr);
    var s := SetAccelModeAndOdr(d, f, mode, odr);
    if s.result.Ok? {
      var e := Update(d, CtrlReg1A, ModeReg1(d.ctrlReg1A, mode, odr));
      assert e.ctrlReg4A == d.ctrlReg4A && e.ctrlReg1A == ModeReg1(d.ctrlReg1A, mode, odr);
    }
  }

  /** A new handle reports power-down, and leaving it with a rate waits
      100 ms while setting the mode it is already in does not. */
  lemma NewIsPoweredDown<I>(iface: I, odr: AccelOutputDataRate)
    ensures GetAccelMode(New(iface)) == PowerDown
    ensures SetAccelModeAndOdr(New(iface), Healthy, Normal, Some(odr)).delayUs == Some(100000)
    ensures var e := SetAccelModeAndOdr(New(iface), Healthy, Normal, Some(odr)).dev;
      SetAccelModeAndOdr(e, Healthy, Normal, Some(odr)).delayUs == None
  {
  }

  /** Setting the mode and rate a successful call left changes nothing. */
  lemma SetAccelModeAndOdrTwice<I>(d: Lsm303c<I>, mode: AccelMode, odr: Option<AccelOutputDataRate>)
    requires Accepted(mode, odr)
    ensures var e := SetAccelModeAndOdr(d, Healthy, mode, odr).dev;
      SetAccelModeAndOdr(e, Healthy, mode, odr).dev == e
  {
    var e := SetAccelModeAndOdr(d, Healthy, mode, odr).dev;
    var reg := ModeReg1(d.ctrlReg1A, mode, odr);
    ModeReg1Idempotent(d.ctrlReg1A, mode, odr);
    Equal(SetAccelModeAndOdr(e, Healthy, mode, odr).dev, e);
  }

  lemma ModeReg1Idempotent(reg: Byte, mode: AccelMode, odr: Option<AccelOutputDataRate>)
    ensures ModeReg1(ModeReg1(reg, mode, odr), mode, odr) == ModeReg1(reg, mode, odr)
  {
    var r := ModeReg1(reg, mode, odr);
    var rr := ModeReg1(r, mode, odr);
    assert rr & (CtrlReg1A_ODR | CtrlReg1A_HR) == r & (CtrlReg1A_ODR | CtrlReg1A_HR);
    assert rr & !(CtrlReg1A_ODR | CtrlReg1A_HR) == r & !(CtrlReg1A_ODR | CtrlReg1A_HR);
  }

  /** Set the full scale in CTRL_REG4_A; the mode is unaffected. */
  function SetAccelScale<I>(d: Lsm303c<I>, f: Fault, scale: AccelScale): (s: Step<Lsm303c<I>, Reg, ()>)
    ensures s.writes == [Write(Accel, CtrlReg4A, WithAccelScale(d.ctrlReg4A, scale))]
    ensures Tracks(d, f, s) && Keeps(d, s.dev) && StopsAtFault(f, s)
    ensures s.result.Ok? <==> !Fails(f, 0)
    ensures s.result.Ok? ==> ScaleDecodable(s.dev.ctrlReg4A) && GetAccelScale(s.dev) == scale && GetAccelMode(s.dev) == GetAccelMode(d)
    ensures WellFormed(d) ==> WellFormed(s.dev)
  {
    var reg := WithAccelScale(d.ctrlReg4A, scale);
    var s := WriteOne(d, f, CtrlReg4A, reg);
    if s.result.Ok? then
      assert s.dev == d.(ctrlReg4A := reg);
      ScaleKeepsWellFormed(d, reg);
      s
    else s
  }

  /** Any decodable value in CTRL_REG4_A keeps a well-formed handle well
      formed. */
  lemma ScaleKeepsWellFormed<I>(d: Lsm303c<I>, reg: Byte)
    requires ScaleDecodable(reg)
    ensures WellFormed(d) ==> WellFormed(d.(ctrlReg4A := reg))
  {
    var e := d.(ctrlReg4A := reg);
    assert forall r :: r != CtrlReg4A ==> Shadow(e, r) == Shadow(d, r);
  }

  /** Setting the scale a handle reports changes nothing. */
  lemma SetAccelScaleRoundTrip<I>(d: Lsm303c<I>)
    requires ScaleDecodable(d.ctrlReg4A)
    ensures SetAccelScale(d, Healthy, GetAccelScale(d)).dev == d
  {
    ScaleRoundTrip(d.ctrlReg4A);
    Equal(SetAccelScale(d, Healthy, GetAccelScale(d)).dev, d);
  }

  /** The FIFO setter's writes: FIFO_EN in CTRL_REG3_A exactly when the mode
      is not bypass, then the mode and the threshold in FIFO_CTRL. */
  function FifoWrites(reg3: Byte, fifoCtrl: Byte, mode: FifoMode, fth: U8): (ws: seq<Write<Reg>>)
    ensures |ws| == 2 && Recordable(ws) && KeepsRate(ws) && Targeted(ws)
    ensures ws[0].reg == CtrlReg3A && ws[1].reg == FifoCtrl
  {
    var enReg := Set(reg3, CtrlReg3A_FIFO_EN, mode != Bypass);
    var modeReg := WithFullThreshold(WithFifoMode(fifoCtrl, mode), fth);
    [Write(Accel, CtrlReg3A, enReg), Write(Accel, FifoCtrl, modeReg)]
  }

  /** Set the FIFO mode and full threshold (clamped to 31). */
  function AccSetFifoMode<I>(d: Lsm303c<I>, f: Fault, mode: FifoMode, fth: U8): (s: Step<Lsm303c<I>, Reg, ()>)
    ensures s.writes == Attempted(f, FifoWrites(d.ctrlReg3A, d.fifoCtrl, mode, fth))
    ensures Tracks(d, f, s) && Keeps(d, s.dev) && StopsAtFault(f, s) && s.readsFrom == [] && s.delayUs == None
    ensures s.result.Ok? <==> !Interrupted(f, s.writes)
    ensures WellFormed(d) ==> WellFormed(s.dev)
  {
    var s := Run(d, f, FifoWrites(d.ctrlReg3A, d.fifoCtrl, mode, fth), None);
    TargetedPrefix(FifoWrites(d.ctrlReg3A, d.fifoCtrl, mode, fth), s.writes);
    TracksKeepsWellFormed(d, f, s);
    s
  }

  /** What a successful call leaves in the two registers: FIFO_EN exactly
      when not bypassing, the mode read back, the threshold clamped, the rest
      of FIFO_CTRL as it was. */
  lemma AccSetFifoModeRegisters<I>(d: Lsm303c<I>, f: Fault, mode: FifoMode, fth: U8)
    requires AccSetFifoMode(d, f, mode, fth).result.Ok?
    ensures var e := AccSetFifoMode(d, f, mode, fth).dev;
      Elems(e.ctrlReg3A) == if mode != Bypass then Elems(d.ctrlReg3A) + {7} else Elems(d.ctrlReg3A) - {7}
    ensures FifoModeOf(AccSetFifoMode(d, f, mode, fth).dev.fifoCtrl) == Some(mode)
    ensures (AccSetFifoMode(d, f, mode, fth).dev.fifoCtrl & FifoCtrl_FTH) as int == if fth > 31 then 31 else fth
  {
    FifoLanded(d, f, mode, fth);
    ElemsBit(7);
  }

  /** After a successful call both copies hold the values written. */
  lemma FifoLanded<I>(d: Lsm303c<I>, f: Fault, mode: FifoMode, fth: U8)
    requires AccSetFifoMode(d, f, mode, fth).result.Ok?
    ensures var all := FifoWrites(d.ctrlReg3A, d.fifoCtrl, mode, fth);
      var e := AccSetFifoMode(d, f, mode, fth).dev;
      e.ctrlReg3A == all[0].value && e.fifoCtrl == all[1].value
  {
    var s := AccSetFifoMode(d, f, mode, fth);
    var all := FifoWrites(d.ctrlReg3A, d.fifoCtrl, mode, fth);
    LastWriteShort(all[0], all[1]);
    assert all == [all[0], all[1]];
    assert Landed(f, s.writes) == all;
    assert Shadow(s.dev, CtrlReg3A) == Holds(d, all, CtrlReg3A);
    assert Shadow(s.dev, FifoCtrl) == Holds(d, all, FifoCtrl);
  }

  function AccEnableInterrupt<I>(d: Lsm303c<I>, f: Fault, i: Interrupt): (s: Step<Lsm303c<I>, Reg, ()>)
    ensures s.writes == [Write(Accel, CtrlReg3A, WithInterrupt(d.ctrlReg3A, i))]
    ensures Tracks(d, f, s) && Keeps(d, s.dev) && StopsAtFault(f, s)
    ensures s.result.Ok? <==> !Fails(f, 0)
    ensures s.result.Ok? ==> Elems(s.dev.ctrlReg3A) == Elems(d.ctrlReg3A) + {InterruptBit(i)}
    ensures WellFormed(d) ==> WellFormed(s.dev)
  {
    WriteOne(d, f, CtrlReg3A, WithInterrupt(d.ctrlReg3A, i))
  }

  function AccDisableInterrupt<I>(d: Lsm303c<I>, f: Fault, i: Interrupt): (s: Step<Lsm303c<I>, Reg, ()>)
    ensures s.writes == [Write(Accel, CtrlReg3A, WithoutInterrupt(d.ctrlReg3A, i))]
    ensures Tracks(d, f, s) && Keeps(d, s.dev) && StopsAtFault(f, s)
    ensures s.result.Ok? <==> !Fails(f, 0)
    ensures s.result.Ok? ==> Elems(s.dev.ctrlReg3A) == Elems(d.ctrlReg3A) - {InterruptBit(i)}
    ensures WellFormed(d) ==> WellFormed(s.dev)
  {
    WriteOne(d, f, CtrlReg3A, WithoutInterrupt(d.ctrlReg3A, i))
  }

  /** Enabling then disabling an interrupt on a healthy bus restores the
      handle it started from when the interrupt was off. */
  lemma InterruptEnableDisable<I>(d: Lsm303c<I>, i: Interrupt)
    requires InterruptBit(i) !in Elems(d.ctrlReg3A)
    ensures AccDisableInterrupt(AccEnableInterrupt(d, Healthy, i).dev, Healthy, i).dev == d
  {
    InterruptToggle(d.ctrlReg3A, i);
    InterruptIdempotent(d.ctrlReg3A, i);
  }
}
