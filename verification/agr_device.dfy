/** The LSM303AGR handle: the bus it owns, the copies ("shadows") it keeps of
    the configuration registers it writes, the last accelerometer rate it
    set, and the magnetometer typestate. Construction, destruction, the
    plain reads and the low-pass filter switch are here; the other driver
    operations are in `AgrAccel`, `AgrMag` and `AgrSetup`. */
module AgrDevice {
  import opened Bits
  import opened Wrappers
  import opened Types
  import opened Bus
  import opened AgrTypes
  import opened AgrRegister

  datatype Lsm303agr<I> = Lsm303agr(
    iface: I,
    ctrlReg1A: Byte,
    ctrlReg3A: Byte,
    ctrlReg4A: Byte,
    ctrlReg5A: Byte,
    cfgRegAM: Byte,
    cfgRegBM: Byte,
    cfgRegCM: Byte,
    tempCfgRegA: Byte,
    fifoCtrlRegA: Byte,
    accelOdr: Option<AccelOutputDataRate>,
    magMode: MagModeTag)

  /** The handle's copy of register `r`, if it keeps one. */
  function Shadow<I>(d: Lsm303agr<I>, r: Reg): (v: Option<Byte>)
    ensures v.Some? <==> Shadowed(r)
  {
    match r
    case CtrlReg1A => Some(d.ctrlReg1A)
    case CtrlReg3A => Some(d.ctrlReg3A)
    case CtrlReg4A => Some(d.ctrlReg4A)
    case CtrlReg5A => Some(d.ctrlReg5A)
    case CfgRegAM => Some(d.cfgRegAM)
    case CfgRegBM => Some(d.cfgRegBM)
    case CfgRegCM => Some(d.cfgRegCM)
    case TempCfgRegA => Some(d.tempCfgRegA)
    case FifoCtrlRegA => Some(d.fifoCtrlRegA)
    case _ => None
  }

  /** The registers the handle keeps a copy of. */
  predicate Shadowed(r: Reg) {
    r in {CtrlReg1A, CtrlReg3A, CtrlReg4A, CtrlReg5A, CfgRegAM, CfgRegBM, CfgRegCM, TempCfgRegA, FifoCtrlRegA}
  }

  /** A shadow after a call: the value of the last landed write to the
      register, or the value before the call when none landed. */
  function Recorded(before: Option<Byte>, last: Option<Byte>): Option<Byte> {
    if before.Some? && last.Some? then last else before
  }

  /** The value a shadowed register holds after the writes `ws`, when it
      held the handle's copy before them. */
  function Holds<I>(d: Lsm303agr<I>, ws: seq<Write<Reg>>, r: Reg): Option<Byte> {
    Recorded(Shadow(d, r), LastWrite(ws, Owner(r), r))
  }

  /** Every shadow follows the call's writes that landed, and nothing else. */
  predicate Tracks<I, T>(d: Lsm303agr<I>, f: Fault, s: Step<Lsm303agr<I>, Reg, T>) {
    forall r :: Shadow(s.dev, r) == Holds(d, Landed(f, s.writes), r)
  }

  /** The bus, the rate and the typestate are untouched. */
  ghost predicate Keeps<I>(d: Lsm303agr<I>, e: Lsm303agr<I>) {
    e.iface == d.iface && e.accelOdr == d.accelOdr && e.magMode == d.magMode
  }

  /** Every write goes to the sensor that owns the register and sets only
      declared flags. */
  predicate Targeted(ws: seq<Write<Reg>>) {
    forall i :: 0 <= i < |ws| ==> ws[i].sensor == Owner(ws[i].reg) && ws[i].value & !Declared(ws[i].reg) == 0
  }

  /** Every shadow holds declared flags only. */
  predicate ShadowsDeclared<I>(d: Lsm303agr<I>) {
    forall r :: Shadow(d, r).Some? ==> Shadow(d, r).value & !Declared(r) == 0
  }

  /** The rate the handle remembers is the one CTRL_REG1_A's ODR field
      encodes, and no rate goes with an empty field. */
  predicate RateRecorded<I>(d: Lsm303agr<I>) {
    d.ctrlReg1A & CtrlReg1A_ODR == if d.accelOdr.Some? then AccelOdrField(d.accelOdr.value) else 0
  }

  predicate WellFormed<I>(d: Lsm303agr<I>) {
    ShadowsDeclared(d) && RateRecorded(d)
  }

  /** No write of `ws` goes to CTRL_REG1_A, the register the rate lives in. */
  predicate KeepsRate(ws: seq<Write<Reg>>) {
    forall i :: 0 <= i < |ws| ==> ws[i].reg != CtrlReg1A
  }

  /** A call that only reads: no write, no delay, the handle unchanged. */
  ghost predicate ReadOnly<I, T>(d: Lsm303agr<I>, s: Step<Lsm303agr<I>, Reg, T>) {
    s.dev == d && s.writes == [] && s.delayUs == None
  }

  /** A new handle: every shadow at its register's default, no rate set, in
      one-shot magnetometer mode. */
  function New<I>(iface: I): (d: Lsm303agr<I>)
    ensures d.iface == iface && d.accelOdr == None && d.magMode == MagOneShot
  {
    Lsm303agr(iface, Default(CtrlReg1A), Default(CtrlReg3A), Default(CtrlReg4A), Default(CtrlReg5A),
              Default(CfgRegAM), Default(CfgRegBM), Default(CfgRegCM), Default(TempCfgRegA),
              Default(FifoCtrlRegA), None, MagOneShot)
  }

  /** Every copy of a new handle is its register's default, and a new
      handle is well formed. */
  lemma NewWellFormed<I>(iface: I)
    ensures forall r :: Shadowed(r) ==> Shadow(New(iface), r) == Some(Default(r))
    ensures WellFormed(New(iface))
  {
    var d := New(iface);
    forall r
      ensures Shadowed(r) ==> Shadow(d, r) == Some(Default(r))
      ensures Shadow(d, r).Some? ==> Shadow(d, r).value & !Declared(r) == 0
    {
      DefaultsDeclared(r);
    }
  }

  function NewWithI2c<B>(i2c: B): (d: Lsm303agr<I2cInterface<B>>)
    ensures d == New(I2cInterface(i2c))
    ensures DestroyI2c(d) == i2c
  {
    New(I2cInterface(i2c))
  }

  function NewWithSpi<B, X, M>(spi: B, csXl: X, csMag: M): (d: Lsm303agr<SpiInterface<B, X, M>>)
    ensures d == New(SpiInterface(spi, csXl, csMag))
    ensures DestroySpi(d) == (spi, csXl, csMag)
  {
    New(SpiInterface(spi, csXl, csMag))
  }

  /** Give back the I2C bus, in either magnetometer mode. */
  function DestroyI2c<B>(d: Lsm303agr<I2cInterface<B>>): (b: B)
    ensures I2cInterface(b) == d.iface
  {
    d.iface.i2c
  }

  /** Give back the SPI bus and both chip-select pins. */
  function DestroySpi<B, X, M>(d: Lsm303agr<SpiInterface<B, X, M>>): (r: (B, X, M))
    ensures SpiInterface(r.0, r.1, r.2) == d.iface
  {
    (d.iface.spi, d.iface.csXl, d.iface.csMag)
  }

  // ---- reads ----

  function AccelStatus<I>(d: Lsm303agr<I>, data: Result<Byte, BusError>): (s: Step<Lsm303agr<I>, Reg, Status>)
    ensures ReadOnly(d, s) && s.readsFrom == [Read(Accel, StatusRegA)]
    ensures data.Err? ==> s.result == Err(data.error)
    ensures data.Ok? ==> s.result.Ok? && Elems(s.result.value.flags) == Elems(data.value)
  {
    var result := match data
      case Ok(b) => Ok(StatusFromData(b))
      case Err(e) => Err(e);
    Step(d, [], [Read(Accel, StatusRegA)], None, result)
  }

  function MagStatus<I>(d: Lsm303agr<I>, data: Result<Byte, BusError>): (s: Step<Lsm303agr<I>, Reg, Status>)
    ensures ReadOnly(d, s) && s.readsFrom == [Read(Mag, StatusRegM)]
    ensures data.Err? ==> s.result == Err(data.error)
    ensures data.Ok? ==> s.result.Ok? && Elems(s.result.value.flags) == Elems(data.value)
  {
    var result := match data
      case Ok(b) => Ok(StatusFromData(b))
      case Err(e) => Err(e);
    Step(d, [], [Read(Mag, StatusRegM)], None, result)
  }

  /** The accelerometer mode the shadows describe: powered down when no rate
      is set, else high resolution when HR is set, else low power when LPEN
      is set, else normal. */
  function GetAccelMode<I>(d: Lsm303agr<I>): (m: AccelMode)
    ensures m == PowerDown <==> d.ctrlReg1A & CtrlReg1A_ODR == 0
    ensures m == HighResolution <==> d.ctrlReg1A & CtrlReg1A_ODR != 0 && d.ctrlReg4A & CtrlReg4A_HR != 0
    ensures m == LowPower <==> d.ctrlReg1A & CtrlReg1A_ODR != 0 && d.ctrlReg4A & CtrlReg4A_HR == 0 && d.ctrlReg1A & CtrlReg1A_LPEN != 0
  {
    var powerDown := IsEmpty(Intersection(d.ctrlReg1A, CtrlReg1A_ODR));
    var lpEnabled := Contains(d.ctrlReg1A, CtrlReg1A_LPEN);
    var hrEnabled := Contains(d.ctrlReg4A, CtrlReg4A_HR);
    if powerDown then PowerDown
    else if hrEnabled then HighResolution
    else if lpEnabled then LowPower
    else Normal
  }

  function GetAccelScale<I>(d: Lsm303agr<I>): (s: AccelScale)
    ensures d.ctrlReg4A & CtrlReg4A_FS == ScaleField(s)
  {
    AccelScaleOf(d.ctrlReg4A)
  }

  /** A three-axis accelerometer read, tagged with the factors of the mode
      and scale the shadows describe. */
  function ReadAcceleration<I>(d: Lsm303agr<I>, data: Result<(U16, U16, U16), BusError>): (s: Step<Lsm303agr<I>, Reg, Acceleration>)
    ensures ReadOnly(d, s) && s.readsFrom == [Read(Accel, OutXLA)]
    ensures data.Err? ==> s.result == Err(data.error)
    ensures data.Ok? ==> s.result.Ok? && s.result.value.XyzRaw() == data.value
    ensures s.result.Ok? ==>
      var a := s.result.value;
      a.resolutionFactor == Factor(GetAccelMode(d), GetAccelScale(d)).resolution &&
      a.scalingFactor == Factor(GetAccelMode(d), GetAccelScale(d)).scaling &&
      a.Divisible(a.x) && a.Divisible(a.y) && a.Divisible(a.z)
  {
    match data
    case Err(e) => Step(d, [], [Read(Accel, OutXLA)], None, Err(e))
    case Ok((x, y, z)) =>
      var factor := Factor(GetAccelMode(d), GetAccelScale(d));
      Step(d, [], [Read(Accel, OutXLA)], None, Ok(Acceleration(x, y, z, factor.resolution, factor.scaling)))
  }

  function AccelerometerId<I>(d: Lsm303agr<I>, data: Result<Byte, BusError>): (s: Step<Lsm303agr<I>, Reg, AccelerometerId>)
    ensures ReadOnly(d, s) && s.readsFrom == [Read(Accel, WhoAmIA)]
    ensures data.Err? ==> s.result == Err(data.error)
    ensures data.Ok? ==> s.result == Ok(Types.AccelerometerId(data.value, WhoAmIAId))
    ensures data.Ok? ==> (AccelerometerIdIsCorrect(s.result.value) <==> data.value == WhoAmIAId)
  {
    match data
    case Err(e) => Step(d, [], [Read(Accel, WhoAmIA)], None, Err(e))
    case Ok(b) =>
      var id := AccelerometerIdFromBitsTruncate(b);
      Step(d, [], [Read(Accel, WhoAmIA)], None, Ok(id.(id := WhoAmIAId)))
  }

  function MagnetometerId<I>(d: Lsm303agr<I>, data: Result<Byte, BusError>): (s: Step<Lsm303agr<I>, Reg, MagnetometerId>)
    ensures ReadOnly(d, s) && s.readsFrom == [Read(Mag, WhoAmIM)]
    ensures data.Err? ==> s.result == Err(data.error)
    ensures data.Ok? ==> s.result == Ok(Types.MagnetometerId(data.value, WhoAmIMId))
    ensures data.Ok? ==> (MagnetometerIdIsCorrect(s.result.value) <==> data.value == WhoAmIMId)
  {
    match data
    case Err(e) => Step(d, [], [Read(Mag, WhoAmIM)], None, Err(e))
    case Ok(b) =>
      var id := MagnetometerIdFromBitsTruncate(b);
      Step(d, [], [Read(Mag, WhoAmIM)], None, Ok(id.(id := WhoAmIMId)))
  }

  /** The temperature: a two-byte read from the accelerometer. */
  function ReadTemperature<I>(d: Lsm303agr<I>, data: Result<U16, BusError>): (s: Step<Lsm303agr<I>, Reg, Temperature>)
    ensures ReadOnly(d, s) && s.readsFrom == [Read(Accel, OutTempLA)]
    ensures data.Err? ==> s.result == Err(data.error)
    ensures data.Ok? ==> s.result.Ok? && s.result.value.raw == data.value
  {
    match data
    case Err(e) => Step(d, [], [Read(Accel, OutTempLA)], None, Err(e))
    case Ok(raw) => Step(d, [], [Read(Accel, OutTempLA)], None, Ok(Temperature(raw)))
  }

  function ReadTemperatureStatus<I>(d: Lsm303agr<I>, data: Result<Byte, BusError>): (s: Step<Lsm303agr<I>, Reg, TemperatureStatus>)
    ensures ReadOnly(d, s) && s.readsFrom == [Read(Accel, StatusRegAuxA)]
    ensures data.Err? ==> s.result == Err(data.error)
    ensures data.Ok? ==> s.result.Ok?
    ensures data.Ok? ==> (TemperatureOverrun(s.result.value) <==> 6 in Elems(data.value))
    ensures data.Ok? ==> (TemperatureNewData(s.result.value) <==> 2 in Elems(data.value))
  {
    match data
    case Err(e) => Step(d, [], [Read(Accel, StatusRegAuxA)], None, Err(e))
    case Ok(b) =>
      var flags := FromBitsTruncate(Declared(StatusRegAuxA), b);
      Step(d, [], [Read(Accel, StatusRegAuxA)], None, Ok(TemperatureStatus(flags)))
  }

  // ---- single-register updates ----

  /** The handle with its copy of register `r` replaced by `v`. */
  function Update<I>(d: Lsm303agr<I>, r: Reg, v: Byte): (e: Lsm303agr<I>)
    requires Shadowed(r)
    ensures forall q :: Shadow(e, q) == if q == r then Some(v) else Shadow(d, q)
    ensures Keeps(d, e)
  {
    match r
    case CtrlReg1A => d.(ctrlReg1A := v)
    case CtrlReg3A => d.(ctrlReg3A := v)
    case CtrlReg4A => d.(ctrlReg4A := v)
    case CtrlReg5A => d.(ctrlReg5A := v)
    case CfgRegAM => d.(cfgRegAM := v)
    case CfgRegBM => d.(cfgRegBM := v)
    case CfgRegCM => d.(cfgRegCM := v)
    case TempCfgRegA => d.(tempCfgRegA := v)
    case FifoCtrlRegA => d.(fifoCtrlRegA := v)
  }

  /** Writing back the value a copy holds changes nothing. */
  lemma UpdateSame<I>(d: Lsm303agr<I>, r: Reg)
    requires Shadowed(r)
    ensures Update(d, r, Shadow(d, r).value) == d
  {
  }

  /** Writes the handle records: each to a register it keeps a copy of,
      addressed to the sensor that owns the register. */
  predicate Recordable(ws: seq<Write<Reg>>) {
    forall i :: 0 <= i < |ws| ==> Shadowed(ws[i].reg) && ws[i].sensor == Owner(ws[i].reg)
  }

  lemma RecordablePrefix(ws: seq<Write<Reg>>, n: nat)
    requires Recordable(ws) && n <= |ws|
    ensures Recordable(ws[..n])
  {
    assert forall i :: 0 <= i < n ==> ws[..n][i] == ws[i];
  }

  /** The handle after the writes `ws` landed in order: every copy holds the
      last value written to its register. */
  function Replay<I>(d: Lsm303agr<I>, ws: seq<Write<Reg>>): (e: Lsm303agr<I>)
    requires Recordable(ws)
    ensures forall r :: Shadow(e, r) == Holds(d, ws, r)
    ensures Keeps(d, e)
    decreases |ws|
  {
    if |ws| == 0 then d
    else
      RecordablePrefix(ws, |ws| - 1);
      var w := ws[|ws| - 1];
      Update(Replay(d, ws[..|ws| - 1]), w.reg, w.value)
  }

  /** A call that puts the writes `ws` on the bus in order, stops at the
      first one that fails, records those that landed, and asks for `delay`
      once all of them landed. */
  function Run<I>(d: Lsm303agr<I>, f: Fault, ws: seq<Write<Reg>>, delay: Option<nat>): (s: Step<Lsm303agr<I>, Reg, ()>)
    requires Recordable(ws)
    ensures s.writes == Attempted(f, ws) && s.readsFrom == []
    ensures Tracks(d, f, s) && Keeps(d, s.dev) && StopsAtFault(f, s)
    ensures s.result.Ok? <==> !Interrupted(f, ws)
    ensures s.delayUs == if s.result.Ok? then delay else None
  {
    if Interrupted(f, ws) then
      RecordablePrefix(ws, f.index);
      Step(Replay(d, ws[..f.index]), ws[..f.index + 1], [], None, Err(f.cause))
    else Step(Replay(d, ws), ws, [], delay, Ok(()))
  }

  /** Write `v` to register `r` as the call's only write and record it when
      it lands: the pattern of most driver operations. */
  function WriteOne<I>(d: Lsm303agr<I>, f: Fault, r: Reg, v: Byte): (s: Step<Lsm303agr<I>, Reg, ()>)
    requires Shadowed(r)
    ensures s.writes == [Write(Owner(r), r, v)] && s.readsFrom == [] && s.delayUs == None
    ensures Tracks(d, f, s) && Keeps(d, s.dev) && StopsAtFault(f, s)
    ensures s.result.Ok? <==> !Fails(f, 0)
    ensures s.dev == if s.result.Ok? then Update(d, r, v) else d
    ensures WellFormed(d) && r != CtrlReg1A && v & !Declared(r) == 0 ==> WellFormed(s.dev) && Targeted(s.writes)
  {
    var w := Write(Owner(r), r, v);
    ReplayOne(d, w);
    assert [w][..0] == [];
    var s := Run(d, f, [w], None);
    assert r != CtrlReg1A ==> KeepsRate([w]);
    assert v & !Declared(r) == 0 ==> Targeted([w]);
    TracksKeepsWellFormed(d, f, s);
    s
  }

  lemma ReplayOne<I>(d: Lsm303agr<I>, w: Write<Reg>)
    requires Recordable([w])
    ensures Replay(d, []) == d
    ensures Replay(d, [w]) == Update(d, w.reg, w.value)
  {
    assert [w][..0] == [];
  }

  /** Two handles that agree on every copy, the bus, the rate and the
      typestate are equal. */
  lemma Equal<I>(d: Lsm303agr<I>, e: Lsm303agr<I>)
    requires forall q :: Shadow(d, q) == Shadow(e, q)
    requires Keeps(d, e)
    ensures d == e
  {
    assert Shadow(d, CtrlReg1A) == Shadow(e, CtrlReg1A);
    assert Shadow(d, CtrlReg3A) == Shadow(e, CtrlReg3A);
    assert Shadow(d, CtrlReg4A) == Shadow(e, CtrlReg4A);
    assert Shadow(d, CtrlReg5A) == Shadow(e, CtrlReg5A);
    assert Shadow(d, CfgRegAM) == Shadow(e, CfgRegAM);
    assert Shadow(d, CfgRegBM) == Shadow(e, CfgRegBM);
    assert Shadow(d, CfgRegCM) == Shadow(e, CfgRegCM);
    assert Shadow(d, TempCfgRegA) == Shadow(e, TempCfgRegA);
    assert Shadow(d, FifoCtrlRegA) == Shadow(e, FifoCtrlRegA);
  }

  /** The rate the handle remembers is not a register copy. */
  lemma ShadowIgnoresRate<I>(e: Lsm303agr<I>, odr: Option<AccelOutputDataRate>)
    ensures forall r :: Shadow(e.(accelOdr := odr), r) == Shadow(e, r)
  {
  }

  /** Writes of declared flags leave declared flags in every copy. */
  lemma HoldsDeclared<I>(d: Lsm303agr<I>, ws: seq<Write<Reg>>)
    requires ShadowsDeclared(d) && Targeted(ws)
    ensures forall r :: Holds(d, ws, r).Some? ==> Holds(d, ws, r).value & !Declared(r) == 0
  {
    forall r | Holds(d, ws, r).Some?
      ensures Holds(d, ws, r).value & !Declared(r) == 0
    {
      LastWriteIsLast(ws, Owner(r), r);
      var last := LastWrite(ws, Owner(r), r);
      if Shadow(d, r).Some? && last.Some? {
        var i :| 0 <= i < |ws| && ws[i] == Write(Owner(r), r, last.value) &&
          forall j :: i < j < |ws| ==> ws[j].sensor != Owner(r) || ws[j].reg != r;
      }
    }
  }

  lemma TargetedPrefix(ws: seq<Write<Reg>>, a: seq<Write<Reg>>)
    requires a <= ws
    ensures Targeted(ws) ==> Targeted(a)
  {
    assert forall i :: 0 <= i < |a| ==> a[i] == ws[i];
  }

  /** A call whose writes set declared flags only leaves declared flags in
      every copy, wherever its writes stop. */
  lemma TracksKeepsDeclared<I, T>(d: Lsm303agr<I>, f: Fault, s: Step<Lsm303agr<I>, Reg, T>)
    requires Tracks(d, f, s)
    ensures ShadowsDeclared(d) && Targeted(s.writes) ==> ShadowsDeclared(s.dev)
  {
    if ShadowsDeclared(d) && Targeted(s.writes) {
      var landed := Landed(f, s.writes);
      assert forall i :: 0 <= i < |landed| ==> landed[i] == s.writes[i];
      HoldsDeclared(d, landed);
    }
  }

  /** A call whose writes set declared flags only and leave CTRL_REG1_A and
      the rate alone keeps a well-formed handle well formed, wherever its
      writes stop. */
  lemma TracksKeepsWellFormed<I, T>(d: Lsm303agr<I>, f: Fault, s: Step<Lsm303agr<I>, Reg, T>)
    requires Tracks(d, f, s)
    ensures WellFormed(d) && Targeted(s.writes) && KeepsRate(s.writes) && s.dev.accelOdr == d.accelOdr ==> WellFormed(s.dev)
  {
    if WellFormed(d) && Targeted(s.writes) && KeepsRate(s.writes) && s.dev.accelOdr == d.accelOdr {
      TracksKeepsDeclared(d, f, s);
      var landed := Landed(f, s.writes);
      assert forall i :: 0 <= i < |landed| ==> landed[i] == s.writes[i];
      assert Shadow(s.dev, CtrlReg1A) == Shadow(d, CtrlReg1A);
    }
  }

  function MagEnableLowPassFilter<I>(d: Lsm303agr<I>, f: Fault): (s: Step<Lsm303agr<I>, Reg, ()>)
    ensures s.writes == [Write(Mag, CfgRegBM, Union(d.cfgRegBM, CfgRegBM_LPF))]
    ensures Tracks(d, f, s) && Keeps(d, s.dev) && StopsAtFault(f, s)
    ensures s.result.Ok? <==> !Fails(f, 0)
    ensures s.result.Ok? ==> Elems(s.dev.cfgRegBM) == Elems(d.cfgRegBM) + {0}
    ensures WellFormed(d) ==> WellFormed(s.dev) && Targeted(s.writes)
  {
    ElemsBit(0);
    var regb := Union(d.cfgRegBM, CfgRegBM_LPF);
    WriteOne(d, f, CfgRegBM, regb)
  }

  function MagDisableLowPassFilter<I>(d: Lsm303agr<I>, f: Fault): (s: Step<Lsm303agr<I>, Reg, ()>)
    ensures s.writes == [Write(Mag, CfgRegBM, Difference(d.cfgRegBM, CfgRegBM_LPF))]
    ensures Tracks(d, f, s) && Keeps(d, s.dev) && StopsAtFault(f, s)
    ensures s.result.Ok? <==> !Fails(f, 0)
    ensures s.result.Ok? ==> Elems(s.dev.cfgRegBM) == Elems(d.cfgRegBM) - {0}
    ensures WellFormed(d) ==> WellFormed(s.dev) && Targeted(s.writes)
  {
    ElemsBit(0);
    var regb := Difference(d.cfgRegBM, CfgRegBM_LPF);
    WriteOne(d, f, CfgRegBM, regb)
  }
}
