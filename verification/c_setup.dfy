/** LSM303C initialisation and the three resets. */
module CSetup {
  import opened Bits
  import opened Wrappers
  import opened Types
  import opened Bus
  import opened CTypes
  import opened CRegister
  import opened CDevice

  // ---- the temperature sensor enable ----

  /** The temperature sensor enable as the driver writes it: TEMP_EN added
      to the copy of CTRL_REG1_M, but the value sent through the
      accelerometer. The copy is recorded once the write lands. */
  function EnableTempAsWritten<I>(d: Lsm303c<I>, f: Fault): (s: Step<Lsm303c<I>, Reg, ()>)
    ensures s.writes == [Write(Accel, CtrlReg1M, Union(d.ctrlReg1M, CtrlReg1M_TEMP_EN))]
    ensures s.result.Ok? <==> !Fails(f, 0)
    ensures s.result.Ok? ==> s.dev == d.(ctrlReg1M := Union(d.ctrlReg1M, CtrlReg1M_TEMP_EN))
    ensures s.result.Err? ==> s.dev == d
  {
    var reg := Union(d.ctrlReg1M, CtrlReg1M_TEMP_EN);
    var ws := [Write(Accel, CtrlReg1M, reg)];
    if Fails(f, 0) then Step(d, ws, [], None, Err(f.cause))
    else Step(d.(ctrlReg1M := reg), ws, [], None, Ok(()))
  }

  /** On a new handle the as-written enable sends 0x90 to the
      accelerometer's address 0x20, which is CTRL_REG1_A: high resolution at
      10 Hz, while the copy of CTRL_REG1_A still reports power-down. The
      copy of CTRL_REG1_M then claims a value the magnetometer never
      received, so the handle no longer tracks the bus. */
  lemma EnableTempHitsAccelerometer<I>(iface: I)
    ensures var s := EnableTempAsWritten(New(iface), Healthy);
      && s.writes == [Write(Accel, CtrlReg1M, 0x90)]
      && Address(CtrlReg1M) == Address(CtrlReg1A) && Owner(CtrlReg1A) == Accel
      && AccelOdrOf(0x90) == Some(Hz10) && 0x90 & CtrlReg1A_HR != 0
      && GetAccelMode(s.dev) == PowerDown
      && GetAccelMode(s.dev.(ctrlReg1A := 0x90)) == HighResolution
      && !Tracks(New(iface), Healthy, s)
  {
    var s := EnableTempAsWritten(New(iface), Healthy);
    assert Shadow(s.dev, CtrlReg1M) != Holds(New(iface), Landed(Healthy, s.writes), CtrlReg1M);
  }

  /** The temperature sensor enable as evidently intended: TEMP_EN added to
      CTRL_REG1_M on the magnetometer, which owns the register. */
  function EnableTemp<I>(d: Lsm303c<I>, f: Fault): (s: Step<Lsm303c<I>, Reg, ()>)
    ensures s.writes == [Write(Mag, CtrlReg1M, Union(d.ctrlReg1M, CtrlReg1M_TEMP_EN))]
    ensures Tracks(d, f, s) && Keeps(d, s.dev) && StopsAtFault(f, s)
    ensures s.result.Ok? <==> !Fails(f, 0)
    ensures s.result.Ok? ==> Elems(s.dev.ctrlReg1M) == Elems(d.ctrlReg1M) + {7}
    ensures s.result.Ok? ==> GetAccelMode(s.dev) == GetAccelMode(d)
    ensures WellFormed(d) ==> WellFormed(s.dev) && Targeted(s.writes)
  {
    ElemsBit(7);
    WriteOne(d, f, CtrlReg1M, Union(d.ctrlReg1M, CtrlReg1M_TEMP_EN))
  }

  // ---- init ----

  /** The flags `init` adds to each register: block data update in
      CTRL_REG1_A and CTRL_REG5_M, the temperature sensor in CTRL_REG1_M,
      address auto-increment in CTRL_REG4_A, the ±16 gauss scale (FS1 and
      FS0) in CTRL_REG2_M, SPI read and write in CTRL_REG3_M. */
  function InitFlags(r: Reg): (flags: Byte)
    ensures flags & !Declared(r) == 0
    ensures r == CtrlReg1A ==> flags & CtrlReg1A_ODR == 0
    ensures r == CtrlReg4A ==> flags & CtrlReg4A_FS == 0
  {
    match r
    case CtrlReg1A => CtrlReg1A_BDU
    case CtrlReg5M => CtrlReg5M_BDU
    case CtrlReg1M => CtrlReg1M_TEMP_EN
    case CtrlReg4A => CtrlReg4A_IF_ADD_INC
    case CtrlReg2M => CtrlReg2M_FS1 | CtrlReg2M_FS0
    case CtrlReg3M => CtrlReg3M_SIM
    case _ => 0
  }

  /** One write of `init`: the copy of `r` with its flags added, sent to the
      sensor that owns `r`. */
  function InitWrite<I>(d: Lsm303c<I>, r: Reg): (w: Write<Reg>)
    requires Shadowed(r)
    ensures w.reg == r && w.sensor == Owner(r)
    ensures Shadow(d, r).value & !Declared(r) == 0 ==> w.value & !Declared(r) == 0
    ensures r == CtrlReg1A ==> w.value & CtrlReg1A_ODR == d.ctrlReg1A & CtrlReg1A_ODR
    ensures r == CtrlReg4A && ScaleDecodable(d.ctrlReg4A) ==> ScaleDecodable(w.value)
  {
    Write(Owner(r), r, Union(Shadow(d, r).value, InitFlags(r)))
  }

  /** The registers `init` writes, in bus order. */
  const InitRegs: seq<Reg> := [CtrlReg1A, CtrlReg5M, CtrlReg1M, CtrlReg4A, CtrlReg2M, CtrlReg3M]

  /** The writes of `init`, in bus order. */
  function InitWrites<I>(d: Lsm303c<I>): (ws: seq<Write<Reg>>)
    ensures |ws| == 6 && Recordable(ws)
    ensures forall i :: 0 <= i < 6 ==> ws[i] == InitWrite(d, InitRegs[i])
    ensures ScaleDecodable(d.ctrlReg4A) ==> RespectsRate(d.ctrlReg1A & CtrlReg1A_ODR, ws)
    ensures ShadowsDeclared(d) ==> Targeted(ws)
  {
    assert forall i :: 0 <= i < 6 ==> Shadowed(InitRegs[i]);
    seq(6, i requires 0 <= i < 6 => InitWrite(d, InitRegs[i]))
  }

  /** Initialise the registers, stopping at the first write that fails; each
      write that landed is recorded. */
  function Init<I>(d: Lsm303c<I>, f: Fault): (s: Step<Lsm303c<I>, Reg, ()>)
    ensures s.writes == Attempted(f, InitWrites(d))
    ensures Tracks(d, f, s) && Keeps(d, s.dev) && StopsAtFault(f, s) && s.readsFrom == [] && s.delayUs == None
    ensures s.result.Ok? <==> !Interrupted(f, s.writes)
    ensures WellFormed(d) ==> WellFormed(s.dev)
  {
    var ws := InitWrites(d);
    var s := Run(d, f, ws, None);
    TargetedPrefix(ws, s.writes);
    TracksKeepsDeclared(d, f, s);
    assert forall i :: 0 <= i < |s.writes| ==> s.writes[i] == ws[i];
    if ScaleDecodable(d.ctrlReg4A) then
      TracksRespectsRate(d, f, s);
      s
    else s
  }

  /** The writes of `init` as the driver issues them: the same six values,
      but the third, CTRL_REG1_M with TEMP_EN, goes through the accelerometer
      because `enable_temp` writes it there. */
  function InitWritesAsWritten<I>(d: Lsm303c<I>): (ws: seq<Write<Reg>>)
    ensures |ws| == 6
    ensures forall i :: 0 <= i < 6 ==> ws[i].reg == InitRegs[i] && ws[i].value == InitWrite(d, InitRegs[i]).value
    ensures forall i :: 0 <= i < 6 && i != 2 ==> ws[i] == InitWrite(d, InitRegs[i])
    ensures ws[2].sensor == Accel && Owner(ws[2].reg) == Mag
  {
    InitWrites(d)[2 := Write(Accel, CtrlReg1M, InitWrite(d, CtrlReg1M).value)]
  }

  /** `init` as the driver runs it: the writes of `InitWritesAsWritten` go
      out, while the copies record the values as if each had reached the
      register's own sensor. */
  function InitAsWritten<I>(d: Lsm303c<I>, f: Fault): (s: Step<Lsm303c<I>, Reg, ()>)
    ensures s.writes == Attempted(f, InitWritesAsWritten(d))
    ensures forall r :: Shadow(s.dev, r) == Holds(d, Landed(f, InitWrites(d)), r)
    ensures Keeps(d, s.dev) && StopsAtFault(f, s) && s.readsFrom == [] && s.delayUs == None
    ensures s.result.Ok? <==> !Interrupted(f, s.writes)
    ensures s.result.Ok? ==> s.dev == Initialised(d)
  {
    var s := Init(d, f);
    var ws := InitWritesAsWritten(d);
    assert s.result.Ok? ==> s.dev == Initialised(d) by {
      if s.result.Ok? { InitRegisters(d, f); }
    }
    assert Interrupted(f, ws) <==> Interrupted(f, InitWrites(d));
    assert Interrupted(f, ws) ==> Attempted(f, ws)[f.index] == ws[f.index];
    s.(writes := Attempted(f, ws))
  }

  /** On a new handle the driver's `init` sends 0x90 to accelerometer
      address 0x20, which is CTRL_REG1_A, and no later accelerometer write
      goes to that address. The accelerometer is left at high resolution,
      10 Hz, while the handle reports power-down. */
  lemma InitAsWrittenHitsAccelerometer<I>(iface: I)
    ensures var s := InitAsWritten(New(iface), Healthy);
      && s.result.Ok?
      && s.writes[2] == Write(Accel, CtrlReg1M, 0x90)
      && Address(CtrlReg1M) == Address(CtrlReg1A)
      && (forall j :: 2 < j < |s.writes| ==> s.writes[j].sensor != Accel || Address(s.writes[j].reg) != 0x20)
      && GetAccelMode(s.dev) == PowerDown
      && GetAccelMode(s.dev.(ctrlReg1A := 0x90)) == HighResolution
  {
    var d := New(iface);
    var s := InitAsWritten(d, Healthy);
    assert s.writes == InitWritesAsWritten(d);
    InitWritesAsWrittenNew(iface);
    InitialisedNewPowerDown(iface);
  }

  /** The bus side: the third write of a new handle's `init` carries 0x90 to
      the accelerometer, and the later writes miss its address 0x20. */
  lemma InitWritesAsWrittenNew<I>(iface: I)
    ensures var ws := InitWritesAsWritten(New(iface));
      && ws[2] == Write(Accel, CtrlReg1M, 0x90)
      && forall j :: 2 < j < 6 ==> ws[j].sensor != Accel || Address(ws[j].reg) != 0x20
  {
    var d := New(iface);
    var ws := InitWritesAsWritten(d);
    assert InitWrite(d, CtrlReg1M).value == 0x90;
    assert ws[3].reg == CtrlReg4A && ws[4].reg == CtrlReg2M && ws[5].reg == CtrlReg3M;
  }

  /** The handle side: after `init` a new handle reports power-down, and
      0x90 in CTRL_REG1_A would read as high resolution. */
  lemma InitialisedNewPowerDown<I>(iface: I)
    ensures GetAccelMode(Initialised(New(iface))) == PowerDown
    ensures GetAccelMode(Initialised(New(iface)).(ctrlReg1A := 0x90)) == HighResolution
  {
    var d := New(iface);
    assert GetAccelMode(d) == PowerDown;
    InitKeepsAccel(d);
  }

  /** The handle a successful `init` leaves: the flags of `InitFlags` added
      to the six copies, nothing else changed. */
  function Initialised<I>(d: Lsm303c<I>): (e: Lsm303c<I>)
    ensures Elems(e.ctrlReg1A) == Elems(d.ctrlReg1A) + {3}
    ensures Elems(e.ctrlReg5M) == Elems(d.ctrlReg5M) + {6}
    ensures Elems(e.ctrlReg1M) == Elems(d.ctrlReg1M) + {7}
    ensures Elems(e.ctrlReg4A) == Elems(d.ctrlReg4A) + {2}
    ensures Elems(e.ctrlReg2M) == Elems(d.ctrlReg2M) + {5, 6}
    ensures Elems(e.ctrlReg3M) == Elems(d.ctrlReg3M) + {2}
    ensures forall r :: r !in InitRegs ==> Shadow(e, r) == Shadow(d, r)
    ensures Keeps(d, e)
  {
    ElemsBit(2);
    ElemsBit(3);
    ElemsBit(6);
    ElemsBit(7);
    UnionElems(0x40, 0x20);
    assert CtrlReg2M_FS1 | CtrlReg2M_FS0 == 0x40 | 0x20;
    ElemsBit(5);
    d.(ctrlReg1A := Union(d.ctrlReg1A, CtrlReg1A_BDU),
       ctrlReg5M := Union(d.ctrlReg5M, CtrlReg5M_BDU),
       ctrlReg1M := Union(d.ctrlReg1M, CtrlReg1M_TEMP_EN),
       ctrlReg4A := Union(d.ctrlReg4A, CtrlReg4A_IF_ADD_INC),
       ctrlReg2M := Union(d.ctrlReg2M, CtrlReg2M_FS1 | CtrlReg2M_FS0),
       ctrlReg3M := Union(d.ctrlReg3M, CtrlReg3M_SIM))
  }

  /** The six copies updated one after the other, in bus order. */
  function InitUpdates<I>(d: Lsm303c<I>): Lsm303c<I> {
    var e1 := Update(d, CtrlReg1A, InitWrite(d, CtrlReg1A).value);
    var e2 := Update(e1, CtrlReg5M, InitWrite(d, CtrlReg5M).value);
    var e3 := Update(e2, CtrlReg1M, InitWrite(d, CtrlReg1M).value);
    var e4 := Update(e3, CtrlReg4A, InitWrite(d, CtrlReg4A).value);
    var e5 := Update(e4, CtrlReg2M, InitWrite(d, CtrlReg2M).value);
    Update(e5, CtrlReg3M, InitWrite(d, CtrlReg3M).value)
  }

  lemma InitUpdatesInitialised<I>(d: Lsm303c<I>)
    ensures InitUpdates(d) == Initialised(d)
  {
    assert InitWrite(d, CtrlReg1A).value == Union(d.ctrlReg1A, CtrlReg1A_BDU);
    assert InitWrite(d, CtrlReg5M).value == Union(d.ctrlReg5M, CtrlReg5M_BDU);
    assert InitWrite(d, CtrlReg1M).value == Union(d.ctrlReg1M, CtrlReg1M_TEMP_EN);
    assert InitWrite(d, CtrlReg4A).value == Union(d.ctrlReg4A, CtrlReg4A_IF_ADD_INC);
    assert InitWrite(d, CtrlReg2M).value == Union(d.ctrlReg2M, CtrlReg2M_FS1 | CtrlReg2M_FS0);
    assert InitWrite(d, CtrlReg3M).value == Union(d.ctrlReg3M, CtrlReg3M_SIM);
  }

  /** A successful `init` leaves the handle `Initialised` describes. */
  lemma InitRegisters<I>(d: Lsm303c<I>, f: Fault)
    requires Init(d, f).result.Ok?
    ensures Init(d, f).dev == Initialised(d)
  {
    var ws := InitWrites(d);
    assert Init(d, f).dev == Replay(d, ws);
    assert ws[..6] == ws;
    ReplayStep(d, ws, 6);
    ReplayStep(d, ws, 5);
    ReplayStep(d, ws, 4);
    ReplayStep(d, ws, 3);
    ReplayStep(d, ws, 2);
    ReplayStep(d, ws, 1);
    assert ws[..0] == [];
    assert Replay(d, ws) == InitUpdates(d);
    InitUpdatesInitialised(d);
  }

  /** Adding the flags again changes nothing. */
  lemma InitialisedIdempotent<I>(d: Lsm303c<I>)
    ensures Initialised(Initialised(d)) == Initialised(d)
  {

  }

  /** A second `init` on a healthy bus writes the values the first one left
      and so changes nothing. */
  lemma {:induction false} InitIdempotent<I>(d: Lsm303c<I>)
    ensures Init(Init(d, Healthy).dev, Healthy).dev == Init(d, Healthy).dev
  {
    InitRegisters(d, Healthy);
    InitRegisters(Initialised(d), Healthy);
    InitialisedIdempotent(d);
  }

  /** `init` leaves the accelerometer's mode and full scale as they were. */
  lemma InitKeepsAccel<I>(d: Lsm303c<I>)
    requires ScaleDecodable(d.ctrlReg4A)
    ensures var e := Initialised(d);
      GetAccelMode(e) == GetAccelMode(d) && ScaleDecodable(e.ctrlReg4A) && GetAccelScale(e) == GetAccelScale(d)
  {
    var e := Initialised(d);
    assert e.ctrlReg1A & CtrlReg1A_ODR == d.ctrlReg1A & CtrlReg1A_ODR;
    assert e.ctrlReg1A & CtrlReg1A_HR == d.ctrlReg1A & CtrlReg1A_HR;
    assert e.ctrlReg4A & CtrlReg4A_FS == d.ctrlReg4A & CtrlReg4A_FS;
  }

  /** `init` leaves the magnetometer's mode and rate as they were and turns
      the temperature sensor on. */
  lemma InitKeepsMag<I>(d: Lsm303c<I>)
    ensures var e := Initialised(d);
      XyMode(e.ctrlReg1M) == XyMode(d.ctrlReg1M) && MagOdr(e.ctrlReg1M) == MagOdr(d.ctrlReg1M)
      && e.ctrlReg1M & CtrlReg1M_TEMP_EN != 0
  {
    var x, y := d.ctrlReg1M, Initialised(d).ctrlReg1M;
    assert y == x | CtrlReg1M_TEMP_EN;
    assert y & CtrlReg1M_OM == x & CtrlReg1M_OM;
    assert y & CtrlReg1M_DO == x & CtrlReg1M_DO;
  }

  // ---- resets ----

  /** Every register of `rs` is one the handle keeps a copy of. */
  predicate AllShadowed(rs: seq<Reg>) {
    forall i :: 0 <= i < |rs| ==> Shadowed(rs[i])
  }

  /** The handle with the copies of `rs` back at their defaults. */
  function ResetAll<I>(d: Lsm303c<I>, rs: seq<Reg>): (e: Lsm303c<I>)
    requires AllShadowed(rs)
    ensures forall q :: Shadow(e, q) == if q in rs then Some(Default(q)) else Shadow(d, q)
    ensures Keeps(d, e)
    decreases |rs|
  {
    if |rs| == 0 then d
    else
      assert forall q :: q in rs <==> q == rs[0] || q in rs[1..];
      Update(ResetAll(d, rs[1..]), rs[0], Default(rs[0]))
  }

  /** The two writes of a reset: the control register with the reset flag
      added, then the register's default, which clears the flag again. */
  function ResetWrites(r: Reg, reg: Byte, flag: Byte): (ws: seq<Write<Reg>>)
    ensures |ws| == 2 && ws[0].reg == r && ws[1].reg == r
    ensures ws[0].sensor == Owner(r) && ws[1].sensor == Owner(r)
    ensures Elems(ws[0].value) == Elems(reg) + Elems(flag)
    ensures ws[1].value == Default(r)
  {
    [Write(Owner(r), r, Union(reg, flag)), Write(Owner(r), r, Default(r))]
  }

  /** A reset through register `r` and its flag. Neither write is recorded
      on its own: only once both landed do the copies of `r` and of
      `cleared` go back to their defaults. */
  function Reset<I>(d: Lsm303c<I>, f: Fault, r: Reg, flag: Byte, cleared: seq<Reg>): (s: Step<Lsm303c<I>, Reg, ()>)
    requires Shadowed(r) && AllShadowed(cleared)
    ensures s.writes == Attempted(f, ResetWrites(r, Shadow(d, r).value, flag))
    ensures Keeps(d, s.dev) && StopsAtFault(f, s) && s.readsFrom == [] && s.delayUs == None
    ensures s.result.Ok? <==> !Interrupted(f, s.writes)
    ensures s.result.Err? ==> s.dev == d
    ensures s.result.Ok? ==> forall q :: Shadow(s.dev, q) == if q == r || q in cleared then Some(Default(q)) else Shadow(d, q)
    ensures WellFormed(d) && r != CtrlReg1A && r != CtrlReg4A && CtrlReg1A !in cleared && CtrlReg4A !in cleared ==> WellFormed(s.dev)
  {
    var ws := ResetWrites(r, Shadow(d, r).value, flag);
    if Interrupted(f, ws) then Step(d, Attempted(f, ws), [], None, Err(f.cause))
    else
      var e := ResetAll(d, [r] + cleared);
      ResetKeepsWellFormed(d, e, [r] + cleared);
      Step(e, ws, [], None, Ok(()))
  }

  /** Copies put back at their defaults keep the handle well formed, as long
      as neither the rate's nor the scale's register is among them. */
  lemma ResetKeepsWellFormed<I>(d: Lsm303c<I>, e: Lsm303c<I>, rs: seq<Reg>)
    requires forall q :: Shadow(e, q) == if q in rs then Some(Default(q)) else Shadow(d, q)
    requires Keeps(d, e)
    ensures WellFormed(d) && CtrlReg1A !in rs && CtrlReg4A !in rs ==> WellFormed(e)
  {
    if WellFormed(d) && CtrlReg1A !in rs && CtrlReg4A !in rs {
      forall q | Shadow(e, q).Some?
        ensures Shadow(e, q).value & !Declared(q) == 0
      {
        DefaultsDeclared(q);
      }
      assert Shadow(e, CtrlReg1A) == Shadow(d, CtrlReg1A);
      assert Shadow(e, CtrlReg4A) == Shadow(d, CtrlReg4A);
    }
  }

  /** Reboot the accelerometer memory through BOOT in CTRL_REG6_A; the copy
      of CTRL_REG1_M is reset too. */
  function AccRebootMem<I>(d: Lsm303c<I>, f: Fault): (s: Step<Lsm303c<I>, Reg, ()>)
    ensures s.writes == Attempted(f, [Write(Accel, CtrlReg6A, Union(d.ctrlReg6A, CtrlReg6A_BOOT)), Write(Accel, CtrlReg6A, 0)])
    ensures Keeps(d, s.dev) && StopsAtFault(f, s) && s.readsFrom == [] && s.delayUs == None
    ensures s.result.Ok? <==> !Interrupted(f, s.writes)
    ensures s.result.Err? ==> s.dev == d
    ensures s.result.Ok? ==> s.dev == d.(ctrlReg6A := 0, ctrlReg1M := CtrlReg1M_DO2)
    ensures WellFormed(d) ==> WellFormed(s.dev)
  {
    var s := Reset(d, f, CtrlReg6A, CtrlReg6A_BOOT, [CtrlReg1M]);
    if s.result.Ok? then
      Equal(s.dev, d.(ctrlReg6A := 0, ctrlReg1M := CtrlReg1M_DO2));
      s
    else s
  }

  /** Reboot the magnetometer memory through REBOOT in CTRL_REG2_M; the
      copy of CTRL_REG3_M is reset too. */
  function MagRebootMem<I>(d: Lsm303c<I>, f: Fault): (s: Step<Lsm303c<I>, Reg, ()>)
    ensures s.writes == Attempted(f, [Write(Mag, CtrlReg2M, Union(d.ctrlReg2M, CtrlReg2M_REBOOT)), Write(Mag, CtrlReg2M, 0)])
    ensures Keeps(d, s.dev) && StopsAtFault(f, s) && s.readsFrom == [] && s.delayUs == None
    ensures s.result.Ok? <==> !Interrupted(f, s.writes)
    ensures s.result.Err? ==> s.dev == d
    ensures s.result.Ok? ==> s.dev == d.(ctrlReg2M := 0, ctrlReg3M := CtrlReg3M_MD)
    ensures WellFormed(d) ==> WellFormed(s.dev)
  {
    var s := Reset(d, f, CtrlReg2M, CtrlReg2M_REBOOT, [CtrlReg3M]);
    if s.result.Ok? then
      Equal(s.dev, d.(ctrlReg2M := 0, ctrlReg3M := CtrlReg3M_MD));
      s
    else s
  }

  /** Soft reset of the magnetometer through SOFT_RST in CTRL_REG2_M, with
      the same copy reset as by the reboot. */
  function MagSoftReset<I>(d: Lsm303c<I>, f: Fault): (s: Step<Lsm303c<I>, Reg, ()>)
    ensures s.writes == Attempted(f, [Write(Mag, CtrlReg2M, Union(d.ctrlReg2M, CtrlReg2M_SOFT_RST)), Write(Mag, CtrlReg2M, 0)])
    ensures Keeps(d, s.dev) && StopsAtFault(f, s) && s.readsFrom == [] && s.delayUs == None
    ensures s.result.Ok? <==> !Interrupted(f, s.writes)
    ensures s.result.Err? ==> s.dev == d
    ensures s.result.Ok? ==> s.dev == d.(ctrlReg2M := 0, ctrlReg3M := CtrlReg3M_MD)
    ensures WellFormed(d) ==> WellFormed(s.dev)
  {
    var s := Reset(d, f, CtrlReg2M, CtrlReg2M_SOFT_RST, [CtrlReg3M]);
    if s.result.Ok? then
      Equal(s.dev, d.(ctrlReg2M := 0, ctrlReg3M := CtrlReg3M_MD));
      s
    else s
  }

  /** On a healthy bus every reset succeeds. */
  lemma ResetsSucceed<I>(d: Lsm303c<I>)
    ensures AccRebootMem(d, Healthy).result.Ok?
    ensures MagRebootMem(d, Healthy).result.Ok? && MagSoftReset(d, Healthy).result.Ok?
  {
    assert !Interrupted(Healthy, AccRebootMem(d, Healthy).writes);
    assert !Interrupted(Healthy, MagRebootMem(d, Healthy).writes);
    assert !Interrupted(Healthy, MagSoftReset(d, Healthy).writes);
  }

  /** On a healthy bus the copies the accelerometer reboot resets are back
      at their registers' defaults, the values a new handle starts from. */
  lemma AccRebootAgreesWithNew<I>(d: Lsm303c<I>)
    ensures AccRebootMem(d, Healthy).dev.ctrlReg6A == Default(CtrlReg6A)
    ensures AccRebootMem(d, Healthy).dev.ctrlReg1M == Default(CtrlReg1M)
  {
    ResetsSucceed(d);
  }

  /** A second accelerometer reboot on a healthy bus leaves the handle as the
      first one did. */
  lemma AccRebootTwice<I>(d: Lsm303c<I>)
    ensures var e := AccRebootMem(d, Healthy).dev;
      AccRebootMem(e, Healthy).dev == e
  {
  }

  /** On a healthy bus the copies the magnetometer resets reset are back at
      their registers' defaults, and both resets leave the same handle. */
  lemma MagResetAgreesWithNew<I>(d: Lsm303c<I>)
    ensures MagRebootMem(d, Healthy).dev.ctrlReg2M == Default(CtrlReg2M)
    ensures MagRebootMem(d, Healthy).dev.ctrlReg3M == Default(CtrlReg3M)
    ensures MagSoftReset(d, Healthy).dev == MagRebootMem(d, Healthy).dev
  {
    ResetsSucceed(d);
  }

  /** A second magnetometer reboot on a healthy bus leaves the handle as the
      first one did. */
  lemma MagRebootTwice<I>(d: Lsm303c<I>)
    ensures var e := MagRebootMem(d, Healthy).dev;
      MagRebootMem(e, Healthy).dev == e
  {
  }

  /** The magnetometer reset leaves the typestate alone: a handle in
      continuous mode keeps that type while its copy of CTRL_REG3_M, like
      the device, is back in idle mode. */
  lemma MagResetKeepsTypestate<I>(d: Lsm303c<I>)
    requires d.magMode == MagContinuous
    ensures MagRebootMem(d, Healthy).dev.magMode == MagContinuous
    ensures IsIdleMode(MagRebootMem(d, Healthy).dev.ctrlReg3M)
  {
    SystemModes(0);
  }
}
