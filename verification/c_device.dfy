/** The LSM303C handle: the bus it owns, its copies of the configuration
    registers, the last accelerometer rate it set, and the magnetometer
    typestate. Construction, destruction and the plain reads are here; the
    other driver operations are in `CAccel`, `CMag` and `CSetup`.

    The handle has the thirteen register fields of the LSM303C struct, all at
    their defaults when it is made. */
module CDevice {
  import opened Bits
  import opened Wrappers
  import opened Types
  import opened Bus
  import opened CTypes
  import opened CRegister

  datatype Lsm303c<I> = Lsm303c(
    iface: I,
    ctrlReg1A: Byte,
    ctrlReg2A: Byte,
    ctrlReg3A: Byte,
    ctrlReg4A: Byte,
    ctrlReg6A: Byte,
    igCfg1A: Byte,
    ctrlReg1M: Byte,
    ctrlReg2M: Byte,
    ctrlReg3M: Byte,
    ctrlReg4M: Byte,
    ctrlReg5M: Byte,
    fifoCtrl: Byte,
    intCfgM: Byte,
    accelOdr: Option<AccelOutputDataRate>,
    magMode: MagModeTag)

  /** The handle's copy of register `r`, if it keeps one. */
  function Shadow<I>(d: Lsm303c<I>, r: Reg): (v: Option<Byte>)
    ensures v.Some? <==> Shadowed(r)
  {
    match r
    case CtrlReg1A => Some(d.ctrlReg1A)
    case CtrlReg2A => Some(d.ctrlReg2A)
    case CtrlReg3A => Some(d.ctrlReg3A)
    case CtrlReg4A => Some(d.ctrlReg4A)
    case CtrlReg6A => Some(d.ctrlReg6A)
    case IgCfg1A => Some(d.igCfg1A)
    case CtrlReg1M => Some(d.ctrlReg1M)
    case CtrlReg2M => Some(d.ctrlReg2M)
    case CtrlReg3M => Some(d.ctrlReg3M)
    case CtrlReg4M => Some(d.ctrlReg4M)
    case CtrlReg5M => Some(d.ctrlReg5M)
    case FifoCtrl => Some(d.fifoCtrl)
    case IntCfgM => Some(d.intCfgM)
    case _ => None
  }

  /** The registers the handle keeps a copy of. */
  predicate Shadowed(r: Reg) {
    r in {CtrlReg1A, CtrlReg2A, CtrlReg3A, CtrlReg4A, CtrlReg6A, IgCfg1A, CtrlReg1M,
          CtrlReg2M, CtrlReg3M, CtrlReg4M, CtrlReg5M, FifoCtrl, IntCfgM}
  }

  /** A shadow after a call: the value of the last landed write to the
      register, or the value before the call when none landed. */
  function Recorded(before: Option<Byte>, last: Option<Byte>): Option<Byte> {
    if before.Some? && last.Some? then last else before
  }

  /** The value a shadowed register holds after the writes `ws`, when it
      held the handle's copy before them. */
  function Holds<I>(d: Lsm303c<I>, ws: seq<Write<Reg>>, r: Reg): Option<Byte> {
    Recorded(Shadow(d, r), LastWrite(ws, Owner(r), r))
  }

  /** Every shadow follows the call's writes that landed, and nothing else. */
  predicate Tracks<I, T>(d: Lsm303c<I>, f: Fault, s: Step<Lsm303c<I>, Reg, T>) {
    forall r :: Shadow(s.dev, r) == Holds(d, Landed(f, s.writes), r)
  }

  /** The bus, the rate and the typestate are untouched. */
  ghost predicate Keeps<I>(d: Lsm303c<I>, e: Lsm303c<I>) {
    e.iface == d.iface && e.accelOdr == d.accelOdr && e.magMode == d.magMode
  }

  /** Every write goes to the sensor that owns the register and sets only
      declared flags. */
  predicate Targeted(ws: seq<Write<Reg>>) {
    forall i :: 0 <= i < |ws| ==> ws[i].sensor == Owner(ws[i].reg) && ws[i].value & !Declared(ws[i].reg) == 0
  }

  /** Every shadow holds declared flags only. */
  predicate ShadowsDeclared<I>(d: Lsm303c<I>) {
    forall r :: Shadow(d, r).Some? ==> Shadow(d, r).value & !Declared(r) == 0
  }

  /** The rate the handle remembers is the one CTRL_REG1_A's ODR field
      encodes, no rate goes with an empty field, and the scale field is one
      `scale()` can decode. */
  predicate RateRecorded<I>(d: Lsm303c<I>) {
    && d.ctrlReg1A & CtrlReg1A_ODR == (if d.accelOdr.Some? then AccelOdrField(d.accelOdr.value) else 0)
    && ScaleDecodable(d.ctrlReg4A)
  }

  predicate WellFormed<I>(d: Lsm303c<I>) {
    ShadowsDeclared(d) && RateRecorded(d)
  }

  /** No write of `ws` goes to CTRL_REG1_A, where the rate lives, nor to
      CTRL_REG4_A, where the scale lives. */
  predicate KeepsRate(ws: seq<Write<Reg>>) {
    forall i :: 0 <= i < |ws| ==> ws[i].reg != CtrlReg1A && ws[i].reg != CtrlReg4A
  }

  /** A call that only reads: no write, no delay, the handle unchanged. */
  ghost predicate ReadOnly<I, T>(d: Lsm303c<I>, s: Step<Lsm303c<I>, Reg, T>) {
    s.dev == d && s.writes == [] && s.delayUs == None
  }

  /** A new handle: every shadow at its register's default, no rate set, in
      one-shot magnetometer mode. */
  function New<I>(iface: I): (d: Lsm303c<I>)
    ensures d.iface == iface && d.accelOdr == None && d.magMode == MagOneShot
  {
    Lsm303c(iface, Default(CtrlReg1A), Default(CtrlReg2A), Default(CtrlReg3A), Default(CtrlReg4A),
            Default(CtrlReg6A), Default(IgCfg1A), Default(CtrlReg1M), Default(CtrlReg2M),
            Default(CtrlReg3M), Default(CtrlReg4M), Default(CtrlReg5M), Default(FifoCtrl),
            Default(IntCfgM), None, MagOneShot)
  }

  /** Every copy of a new handle is its register's default, and a new
      handle is well formed. */
  lemma NewWellFormed<I>(iface: I)
    ensures forall r :: Shadowed(r) ==> Shadow(New(iface), r) == Some(Default(r))
    ensures WellFormed(New(iface))
  {
    var d := New(iface);
    forall r
      ensures Shadowed(r) ==> Shadow(d, r) == Some(Default(r))
      ensures Shadow(d, r).Some? ==> Shadow(d, r).value & !Declared(r) == 0
    {
      DefaultsDeclared(r);
    }
  }

  function NewWithI2c<B>(i2c: B): (d: Lsm303c<I2cInterface<B>>)
    ensures d == New(I2cInterface(i2c))
    ensures DestroyI2c(d) == i2c
  {
    New(I2cInterface(i2c))
  }

  function NewWithSpi<B, X, M>(spi: B, csXl: X, csMag: M): (d: Lsm303c<SpiInterface<B, X, M>>)
    ensures d == New(SpiInterface(spi, csXl, csMag))
    ensures DestroySpi(d) == (spi, csXl, csMag)
  {
    New(SpiInterface(spi, csXl, csMag))
  }

  /** Give back the I2C bus, in either magnetometer mode. */
  function DestroyI2c<B>(d: Lsm303c<I2cInterface<B>>): (b: B)
    ensures I2cInterface(b) == d.iface
  {
    d.iface.i2c
  }

  /** Give back the SPI bus and both chip-select pins. */
  function DestroySpi<B, X, M>(d: Lsm303c<SpiInterface<B, X, M>>): (r: (B, X, M))
    ensures SpiInterface(r.0, r.1, r.2) == d.iface
  {
    (d.iface.spi, d.iface.csXl, d.iface.csMag)
  }

  // ---- reads ----

  function AccelStatus<I>(d: Lsm303c<I>, data: Result<Byte, BusError>): (s: Step<Lsm303c<I>, Reg, Status>)
    ensures ReadOnly(d, s) && s.readsFrom == [Read(Accel, StatusRegA)]
    ensures data.Err? ==> s.result == Err(data.error)
    ensures data.Ok? ==> s.result.Ok? && Elems(s.result.value.flags) == Elems(data.value)
  {
    var result := match data
      case Ok(b) => Ok(StatusFromData(b))
      case Err(e) => Err(e);
    Step(d, [], [Read(Accel, StatusRegA)], None, result)
  }

  function MagStatus<I>(d: Lsm303c<I>, data: Result<Byte, BusError>): (s: Step<Lsm303c<I>, Reg, Status>)
    ensures ReadOnly(d, s) && s.readsFrom == [Read(Mag, StatusRegM)]
    ensures data.Err? ==> s.result == Err(data.error)
    ensures data.Ok? ==> s.result.Ok? && Elems(s.result.value.flags) == Elems(data.value)
  {
    var result := match data
      case Ok(b) => Ok(StatusFromData(b))
      case Err(e) => Err(e);
    Step(d, [], [Read(Mag, StatusRegM)], None, result)
  }

  /** The accelerometer mode the shadow of CTRL_REG1_A describes: powered
      down when no rate is set, else high resolution when HR is set, else
      normal. */
  function GetAccelMode<I>(d: Lsm303c<I>): (m: AccelMode)
    ensures m == PowerDown <==> d.ctrlReg1A & CtrlReg1A_ODR == 0
    ensures m == HighResolution <==> d.ctrlReg1A & CtrlReg1A_ODR != 0 && d.ctrlReg1A & CtrlReg1A_HR != 0
  {
    var powerDown := IsEmpty(Intersection(d.ctrlReg1A, CtrlReg1A_ODR));
    var hrEnabled := Contains(d.ctrlReg1A, CtrlReg1A_HR);
    if powerDown then PowerDown
    else if hrEnabled then HighResolution
    else Normal
  }

  /** The scale the shadow of CTRL_REG4_A holds; the driver panics on the
      one field value no scale writes. */
  function GetAccelScale<I>(d: Lsm303c<I>): (s: AccelScale)
    requires ScaleDecodable(d.ctrlReg4A)
    ensures d.ctrlReg4A & CtrlReg4A_FS == ScaleField(s)
  {
    AccelScaleOf(d.ctrlReg4A)
  }

  /** A three-axis accelerometer read, tagged with the factors of the mode
      and scale the shadows describe. */
  function ReadAcceleration<I>(d: Lsm303c<I>, data: Result<(U16, U16, U16), BusError>): (s: Step<Lsm303c<I>, Reg, Acceleration>)
    requires ScaleDecodable(d.ctrlReg4A)
    ensures ReadOnly(d, s) && s.readsFrom == [Read(Accel, OutXLA)]
    ensures data.Err? ==> s.result == Err(data.error)
    ensures data.Ok? ==> s.result.Ok? && s.result.value.XyzRaw() == data.value
    ensures s.result.Ok? ==>
      var a := s.result.value;
      a.resolutionFactor == Factor(GetAccelMode(d), GetAccelScale(d)).0 &&
      a.scalingFactor == Factor(GetAccelMode(d), GetAccelScale(d)).1 &&
      a.Divisible(a.x) && a.Divisible(a.y) && a.Divisible(a.z)
  {
    match data
    case Err(e) => Step(d, [], [Read(Accel, OutXLA)], None, Err(e))
    case Ok((x, y, z)) =>
      var factor := Factor(GetAccelMode(d), GetAccelScale(d));
      Step(d, [], [Read(Accel, OutXLA)], None, Ok(Acceleration(x, y, z, factor.0, factor.1)))
  }

  /** Readings worked through the conversion: 128 counts in normal mode at
      ±8 g are 32 mg, 256 counts in high resolution at ±2 g are 16 mg, and
      in high resolution at ±2 g the negative counts -256 (0xFF00) and -15
      (0xFFF1) are -16 mg and 0 mg, the latter rounded toward zero where a
      flooring division would give -1. */
  lemma AccelerationWorkedExamples<I>(d: Lsm303c<I>)
    requires ScaleDecodable(d.ctrlReg4A)
    ensures GetAccelMode(d) == Normal && GetAccelScale(d) == G8 ==>
      ReadAcceleration(d, Ok((128, 0, 0))).result.value.XMg() == 32
    ensures GetAccelMode(d) == HighResolution && GetAccelScale(d) == G2 ==>
      ReadAcceleration(d, Ok((256, 0, 0))).result.value.XMg() == 16
    ensures GetAccelMode(d) == HighResolution && GetAccelScale(d) == G2 ==>
      ReadAcceleration(d, Ok((0xFF00, 0, 0))).result.value.XMg() == -16
    ensures GetAccelMode(d) == HighResolution && GetAccelScale(d) == G2 ==>
      ReadAcceleration(d, Ok((0xFFF1, 0, 0))).result.value.XMg() == 0
  {
  }

  function AccelerometerId<I>(d: Lsm303c<I>, data: Result<Byte, BusError>): (s: Step<Lsm303c<I>, Reg, AccelerometerId>)
    ensures ReadOnly(d, s) && s.readsFrom == [Read(Accel, WhoAmIA)]
    ensures data.Err? ==> s.result == Err(data.error)
    ensures data.Ok? ==> s.result == Ok(Types.AccelerometerId(data.value, WhoAmIAId))
    ensures data.Ok? ==> (AccelerometerIdIsCorrect(s.result.value) <==> data.value == WhoAmIAId)
  {
    match data
    case Err(e) => Step(d, [], [Read(Accel, WhoAmIA)], None, Err(e))
    case Ok(b) =>
      var id := AccelerometerIdFromBitsTruncate(b);
      Step(d, [], [Read(Accel, WhoAmIA)], None, Ok(id.(id := WhoAmIAId)))
  }

  function MagnetometerId<I>(d: Lsm303c<I>, data: Result<Byte, BusError>): (s: Step<Lsm303c<I>, Reg, MagnetometerId>)
    ensures ReadOnly(d, s) && s.readsFrom == [Read(Mag, WhoAmIM)]
    ensures data.Err? ==> s.result == Err(data.error)
    ensures data.Ok? ==> s.result == Ok(Types.MagnetometerId(data.value, WhoAmIMId))
    ensures data.Ok? ==> (MagnetometerIdIsCorrect(s.result.value) <==> data.value == WhoAmIMId)
  {
    match data
    case Err(e) => Step(d, [], [Read(Mag, WhoAmIM)], None, Err(e))
    case Ok(b) =>
      var id := MagnetometerIdFromBitsTruncate(b);
      Step(d, [], [Read(Mag, WhoAmIM)], None, Ok(id.(id := WhoAmIMId)))
  }

  /** The temperature: a two-byte read from the magnetometer. */
  function ReadTemperature<I>(d: Lsm303c<I>, data: Result<U16, BusError>): (s: Step<Lsm303c<I>, Reg, Temperature>)
    ensures ReadOnly(d, s) && s.readsFrom == [Read(Mag, TempLM)]
    ensures data.Err? ==> s.result == Err(data.error)
    ensures data.Ok? ==> s.result.Ok? && s.result.value.raw == data.value
  {
    match data
    case Err(e) => Step(d, [], [Read(Mag, TempLM)], None, Err(e))
    case Ok(raw) => Step(d, [], [Read(Mag, TempLM)], None, Ok(Temperature(raw)))
  }

  // ---- single-register updates ----

  /** The handle with its copy of register `r` replaced by `v`. */
  function Update<I>(d: Lsm303c<I>, r: Reg, v: Byte): (e: Lsm303c<I>)
    requires Shadowed(r)
    ensures forall q :: Shadow(e, q) == if q == r then Some(v) else Shadow(d, q)
    ensures Keeps(d, e)
  {
    match r
    case CtrlReg1A => d.(ctrlReg1A := v)
    case CtrlReg2A => d.(ctrlReg2A := v)
    case CtrlReg3A => d.(ctrlReg3A := v)
    case CtrlReg4A => d.(ctrlReg4A := v)
    case CtrlReg6A => d.(ctrlReg6A := v)
    case IgCfg1A => d.(igCfg1A := v)
    case CtrlReg1M => d.(ctrlReg1M := v)
    case CtrlReg2M => d.(ctrlReg2M := v)
    case CtrlReg3M => d.(ctrlReg3M := v)
    case CtrlReg4M => d.(ctrlReg4M := v)
    case CtrlReg5M => d.(ctrlReg5M := v)
    case FifoCtrl => d.(fifoCtrl := v)
    case IntCfgM => d.(intCfgM := v)
  }

  /** Writing back the value a copy holds changes nothing. */
  lemma UpdateSame<I>(d: Lsm303c<I>, r: Reg)
    requires Shadowed(r)
    ensures Update(d, r, Shadow(d, r).value) == d
  {
  }

  /** Writes the handle records: each to a register it keeps a copy of,
      addressed to the sensor that owns the register. */
  predicate Recordable(ws: seq<Write<Reg>>) {
    forall i :: 0 <= i < |ws| ==> Shadowed(ws[i].reg) && ws[i].sensor == Owner(ws[i].reg)
  }

  lemma RecordablePrefix(ws: seq<Write<Reg>>, n: nat)
    requires Recordable(ws) && n <= |ws|
    ensures Recordable(ws[..n])
  {
    assert forall i :: 0 <= i < n ==> ws[..n][i] == ws[i];
  }

  /** The handle after the writes `ws` landed in order: every copy holds the
      last value written to its register. */
  function Replay<I>(d: Lsm303c<I>, ws: seq<Write<Reg>>): (e: Lsm303c<I>)
    requires Recordable(ws)
    ensures forall r :: Shadow(e, r) == Holds(d, ws, r)
    ensures Keeps(d, e)
    decreases |ws|
  {
    if |ws| == 0 then d
    else
      RecordablePrefix(ws, |ws| - 1);
      var w := ws[|ws| - 1];
      Update(Replay(d, ws[..|ws| - 1]), w.reg, w.value)
  }

  /** A call that puts the writes `ws` on the bus in order, stops at the
      first one that fails, records those that landed, and asks for `delay`
      once all of them landed. */
  function Run<I>(d: Lsm303c<I>, f: Fault, ws: seq<Write<Reg>>, delay: Option<nat>): (s: Step<Lsm303c<I>, Reg, ()>)
    requires Recordable(ws)
    ensures s.writes == Attempted(f, ws) && s.readsFrom == []
    ensures Tracks(d, f, s) && Keeps(d, s.dev) && StopsAtFault(f, s)
    ensures s.result.Ok? <==> !Interrupted(f, ws)
    ensures s.delayUs == if s.result.Ok? then delay else None
  {
    if Interrupted(f, ws) then
      RecordablePrefix(ws, f.index);
      Step(Replay(d, ws[..f.index]), ws[..f.index + 1], [], None, Err(f.cause))
    else Step(Replay(d, ws), ws, [], delay, Ok(()))
  }

  /** Write `v` to register `r` as the call's only write and record it when
      it lands: the pattern of most driver operations. */
  function WriteOne<I>(d: Lsm303c<I>, f: Fault, r: Reg, v: Byte): (s: Step<Lsm303c<I>, Reg, ()>)
    requires Shadowed(r)
    ensures s.writes == [Write(Owner(r), r, v)] && s.readsFrom == [] && s.delayUs == None
    ensures Tracks(d, f, s) && Keeps(d, s.dev) && StopsAtFault(f, s)
    ensures s.result.Ok? <==> !Fails(f, 0)
    ensures s.dev == if s.result.Ok? then Update(d, r, v) else d
    ensures WellFormed(d) && r != CtrlReg1A && r != CtrlReg4A && v & !Declared(r) == 0 ==> WellFormed(s.dev) && Targeted(s.writes)
  {
    var w := Write(Owner(r), r, v);
    ReplayOne(d, w);
    assert [w][..0] == [];
    var s := Run(d, f, [w], None);
    assert r != CtrlReg1A && r != CtrlReg4A ==> KeepsRate([w]);
    assert v & !Declared(r) == 0 ==> Targeted([w]);
    TracksKeepsWellFormed(d, f, s);
    s
  }

  lemma ReplayOne<I>(d: Lsm303c<I>, w: Write<Reg>)
    requires Recordable([w])
    ensures Replay(d, []) == d
    ensures Replay(d, [w]) == Update(d, w.reg, w.value)
  {
    assert [w][..0] == [];
  }

  /** Replaying one write more updates one copy more. */
  lemma ReplayStep<I>(d: Lsm303c<I>, ws: seq<Write<Reg>>, n: nat)
    requires Recordable(ws) && 0 < n <= |ws|
    ensures Recordable(ws[..n]) && Recordable(ws[..n - 1])
    ensures Replay(d, ws[..n]) == Update(Replay(d, ws[..n - 1]), ws[n - 1].reg, ws[n - 1].value)
  {
    RecordablePrefix(ws, n);
    RecordablePrefix(ws, n - 1);
    assert ws[..n][..n - 1] == ws[..n - 1];
  }

  /** Two handles that agree on every copy, the bus, the rate and the
      typestate are equal. */
  lemma Equal<I>(d: Lsm303c<I>, e: Lsm303c<I>)
    requires forall q :: Shadow(d, q) == Shadow(e, q)
    requires Keeps(d, e)
    ensures d == e
  {
    assert Shadow(d, CtrlReg1A) == Shadow(e, CtrlReg1A);
    assert Shadow(d, CtrlReg2A) == Shadow(e, CtrlReg2A);
    assert Shadow(d, CtrlReg3A) == Shadow(e, CtrlReg3A);
    assert Shadow(d, CtrlReg4A) == Shadow(e, CtrlReg4A);
    assert Shadow(d, CtrlReg6A) == Shadow(e, CtrlReg6A);
    assert Shadow(d, IgCfg1A) == Shadow(e, IgCfg1A);
    assert Shadow(d, CtrlReg1M) == Shadow(e, CtrlReg1M);
    assert Shadow(d, CtrlReg2M) == Shadow(e, CtrlReg2M);
    assert Shadow(d, CtrlReg3M) == Shadow(e, CtrlReg3M);
    assert Shadow(d, CtrlReg4M) == Shadow(e, CtrlReg4M);
    assert Shadow(d, CtrlReg5M) == Shadow(e, CtrlReg5M);
    assert Shadow(d, FifoCtrl) == Shadow(e, FifoCtrl);
    assert Shadow(d, IntCfgM) == Shadow(e, IntCfgM);
  }

  /** The rate the handle remembers is not a register copy. */
  lemma ShadowIgnoresRate<I>(e: Lsm303c<I>, odr: Option<AccelOutputDataRate>)
    ensures forall r :: Shadow(e.(accelOdr := odr), r) == Shadow(e, r)
  {
  }

  /** Writes of declared flags leave declared flags in every copy. */
  lemma HoldsDeclared<I>(d: Lsm303c<I>, ws: seq<Write<Reg>>)
    requires ShadowsDeclared(d) && Targeted(ws)
    ensures forall r :: Holds(d, ws, r).Some? ==> Holds(d, ws, r).value & !Declared(r) == 0
  {
    forall r | Holds(d, ws, r).Some?
      ensures Holds(d, ws, r).value & !Declared(r) == 0
    {
      LastWriteIsLast(ws, Owner(r), r);
      var last := LastWrite(ws, Owner(r), r);
      if Shadow(d, r).Some? && last.Some? {
        var i :| 0 <= i < |ws| && ws[i] == Write(Owner(r), r, last.value) &&
          forall j :: i < j < |ws| ==> ws[j].sensor != Owner(r) || ws[j].reg != r;
      }
    }
  }

  lemma TargetedPrefix(ws: seq<Write<Reg>>, a: seq<Write<Reg>>)
    requires a <= ws
    ensures Targeted(ws) ==> Targeted(a)
  {
    assert forall i :: 0 <= i < |a| ==> a[i] == ws[i];
  }

  /** A call whose writes set declared flags only leaves declared flags in
      every copy, wherever its writes stop. */
  lemma TracksKeepsDeclared<I, T>(d: Lsm303c<I>, f: Fault, s: Step<Lsm303c<I>, Reg, T>)
    requires Tracks(d, f, s)
    ensures ShadowsDeclared(d) && Targeted(s.writes) ==> ShadowsDeclared(s.dev)
  {
    if ShadowsDeclared(d) && Targeted(s.writes) {
      var landed := Landed(f, s.writes);
      assert forall i :: 0 <= i < |landed| ==> landed[i] == s.writes[i];
      HoldsDeclared(d, landed);
    }
  }

  /** A call whose writes set declared flags only and leave CTRL_REG1_A,
      CTRL_REG4_A and the rate alone keeps a well-formed handle well formed,
      wherever its writes stop. */
  lemma TracksKeepsWellFormed<I, T>(d: Lsm303c<I>, f: Fault, s: Step<Lsm303c<I>, Reg, T>)
    requires Tracks(d, f, s)
    ensures WellFormed(d) && Targeted(s.writes) && KeepsRate(s.writes) && s.dev.accelOdr == d.accelOdr ==> WellFormed(s.dev)
  {
    if WellFormed(d) && Targeted(s.writes) && KeepsRate(s.writes) && s.dev.accelOdr == d.accelOdr {
      TracksKeepsDeclared(d, f, s);
      TracksKeepsRate(d, f, s);
    }
  }

  /** A call none of whose writes goes to CTRL_REG1_A or CTRL_REG4_A leaves
      their copies alone. */
  lemma TracksKeepsRate<I, T>(d: Lsm303c<I>, f: Fault, s: Step<Lsm303c<I>, Reg, T>)
    requires Tracks(d, f, s) && KeepsRate(s.writes)
    ensures s.dev.ctrlReg1A == d.ctrlReg1A && s.dev.ctrlReg4A == d.ctrlReg4A
  {
    var landed := Landed(f, s.writes);
    assert forall i :: 0 <= i < |landed| ==> landed[i].reg != CtrlReg1A && landed[i].reg != CtrlReg4A by {
      assert forall i :: 0 <= i < |landed| ==> landed[i] == s.writes[i];
    }
    assert Shadow(s.dev, CtrlReg1A) == Shadow(d, CtrlReg1A);
    assert Shadow(s.dev, CtrlReg4A) == Shadow(d, CtrlReg4A);
  }

  /** Writes that may touch CTRL_REG1_A and CTRL_REG4_A, but keep the ODR
      field `odr` and a scale `scale()` can decode. */
  predicate RespectsRate(odr: Byte, ws: seq<Write<Reg>>) {
    forall i :: 0 <= i < |ws| ==>
      (ws[i].reg == CtrlReg1A ==> ws[i].value & CtrlReg1A_ODR == odr) &&
      (ws[i].reg == CtrlReg4A ==> ScaleDecodable(ws[i].value))
  }

  /** A call whose writes respect the rate keeps it recorded, wherever its
      writes stop. */
  lemma TracksRespectsRate<I, T>(d: Lsm303c<I>, f: Fault, s: Step<Lsm303c<I>, Reg, T>)
    requires Tracks(d, f, s) && RespectsRate(d.ctrlReg1A & CtrlReg1A_ODR, s.writes) && s.dev.accelOdr == d.accelOdr
    ensures RateRecorded(d) ==> RateRecorded(s.dev)
  {
    var landed := Landed(f, s.writes);
    assert forall i :: 0 <= i < |landed| ==> landed[i] == s.writes[i];
    LandedKeepsOdr(d, landed);
    if RateRecorded(d) {
      LandedKeepsScale(d, landed);
    }
    assert Shadow(s.dev, CtrlReg1A) == Holds(d, landed, CtrlReg1A);
    assert Shadow(s.dev, CtrlReg4A) == Holds(d, landed, CtrlReg4A);
  }

  lemma LandedKeepsOdr<I>(d: Lsm303c<I>, ws: seq<Write<Reg>>)
    requires RespectsRate(d.ctrlReg1A & CtrlReg1A_ODR, ws)
    ensures Holds(d, ws, CtrlReg1A).value & CtrlReg1A_ODR == d.ctrlReg1A & CtrlReg1A_ODR
  {
    LastWriteIsLast(ws, Accel, CtrlReg1A);
    var last := LastWrite(ws, Accel, CtrlReg1A);
    if last.Some? {
      var i :| 0 <= i < |ws| && ws[i] == Write(Accel, CtrlReg1A, last.value) &&
        forall j :: i < j < |ws| ==> ws[j].sensor != Accel || ws[j].reg != CtrlReg1A;
    }
  }

  lemma LandedKeepsScale<I>(d: Lsm303c<I>, ws: seq<Write<Reg>>)
    requires RespectsRate(d.ctrlReg1A & CtrlReg1A_ODR, ws) && ScaleDecodable(d.ctrlReg4A)
    ensures ScaleDecodable(Holds(d, ws, CtrlReg4A).value)
  {
    LastWriteIsLast(ws, Accel, CtrlReg4A);
    var last := LastWrite(ws, Accel, CtrlReg4A);
    if last.Some? {
      var i :| 0 <= i < |ws| && ws[i] == Write(Accel, CtrlReg4A, last.value) &&
        forall j :: i < j < |ws| ==> ws[j].sensor != Accel || ws[j].reg != CtrlReg4A;
    }
  }
}
