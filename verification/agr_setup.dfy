/** LSM303AGR initialisation and the three resets. */
module AgrSetup {
  import opened Bits
  import opened Wrappers
  import opened Types
  import opened Bus
  import opened AgrRegister
  import opened AgrDevice

  // ---- init ----

  /** The writes of `init`: block data update for the accelerometer, then
      for the magnetometer, then the temperature sensor enable. Enabling the
      accelerometer and the magnetometer writes nothing on this device. */
  function InitWrites<I>(d: Lsm303agr<I>): (ws: seq<Write<Reg>>)
    ensures |ws| == 3 && Recordable(ws) && KeepsRate(ws)
    ensures ShadowsDeclared(d) ==> Targeted(ws)
    ensures ws[0].reg == CtrlReg4A && ws[1].reg == CfgRegCM && ws[2].reg == TempCfgRegA
  {
    [Write(Accel, CtrlReg4A, Union(d.ctrlReg4A, CtrlReg4A_BDU)),
     Write(Mag, CfgRegCM, Union(d.cfgRegCM, CfgRegCM_BDU)),
     Write(Accel, TempCfgRegA, Union(d.tempCfgRegA, TempCfgRegA_TEMP_EN))]
  }

  /** Initialise the registers, stopping at the first write that fails; each
      write that landed is recorded. */
  function Init<I>(d: Lsm303agr<I>, f: Fault): (s: Step<Lsm303agr<I>, Reg, ()>)
    ensures s.writes == Attempted(f, InitWrites(d))
    ensures Tracks(d, f, s) && Keeps(d, s.dev) && StopsAtFault(f, s) && s.readsFrom == [] && s.delayUs == None
    ensures s.result.Ok? <==> !Interrupted(f, s.writes)
    ensures WellFormed(d) ==> WellFormed(s.dev)
  {
    var s := Run(d, f, InitWrites(d), None);
    TargetedPrefix(InitWrites(d), s.writes);
    TracksKeepsWellFormed(d, f, s);
    s
  }

  /** The handle a successful `init` leaves: the three flags added to
      their copies, nothing else changed. */
  function Initialised<I>(d: Lsm303agr<I>): (e: Lsm303agr<I>)
    ensures Elems(e.ctrlReg4A) == Elems(d.ctrlReg4A) + {7}
    ensures Elems(e.cfgRegCM) == Elems(d.cfgRegCM) + {4}
    ensures Elems(e.tempCfgRegA) == Elems(d.tempCfgRegA) + {6, 7}
    ensures forall r :: r != CtrlReg4A && r != CfgRegCM && r != TempCfgRegA ==> Shadow(e, r) == Shadow(d, r)
    ensures Keeps(d, e)
  {
    ElemsBit(4);
    ElemsBit(7);
    UnionElems(0x40, 0x80);
    assert TempCfgRegA_TEMP_EN == 0x40 | 0x80;
    d.(ctrlReg4A := Union(d.ctrlReg4A, CtrlReg4A_BDU),
       cfgRegCM := Union(d.cfgRegCM, CfgRegCM_BDU),
       tempCfgRegA := Union(d.tempCfgRegA, TempCfgRegA_TEMP_EN))
  }

  /** A successful `init` leaves the handle `Initialised` describes. */
  lemma InitRegisters<I>(d: Lsm303agr<I>, f: Fault)
    requires Init(d, f).result.Ok?
    ensures Init(d, f).dev == Initialised(d)
  {
    var ws := InitWrites(d);
    assert Init(d, f).dev == Replay(d, ws);
    assert ws[..2][..1] == ws[..1] == [ws[0]];
    ReplayOne(d, ws[0]);
  }

  /** Adding the flags again changes nothing. */
  lemma InitialisedIdempotent<I>(d: Lsm303agr<I>)
    ensures Initialised(Initialised(d)) == Initialised(d)
  {
  }

  /** A second `init` on a healthy bus writes the values the first one left
      and so changes nothing. */
  lemma {:induction false} InitIdempotent<I>(d: Lsm303agr<I>)
    ensures Init(Init(d, Healthy).dev, Healthy).dev == Init(d, Healthy).dev
  {
    InitRegisters(d, Healthy);
    InitRegisters(Initialised(d), Healthy);
    InitialisedIdempotent(d);
  }

  // ---- resets ----

  /** Every register of `rs` is one the handle keeps a copy of. */
  predicate AllShadowed(rs: seq<Reg>) {
    forall i :: 0 <= i < |rs| ==> Shadowed(rs[i])
  }

  /** The handle with the copies of `rs` back at their defaults. */
  function ResetAll<I>(d: Lsm303agr<I>, rs: seq<Reg>): (e: Lsm303agr<I>)
    requires AllShadowed(rs)
    ensures forall q :: Shadow(e, q) == if q in rs then Some(Default(q)) else Shadow(d, q)
    ensures Keeps(d, e)
    decreases |rs|
  {
    if |rs| == 0 then d
    else
      assert forall q :: q in rs <==> q == rs[0] || q in rs[1..];
      Update(ResetAll(d, rs[1..]), rs[0], Default(rs[0]))
  }

  /** The two writes of a reset: the control register with the reset flag
      added, then the register's default, which clears the flag again. */
  function ResetWrites(r: Reg, reg: Byte, flag: Byte): (ws: seq<Write<Reg>>)
    ensures |ws| == 2 && ws[0].reg == r && ws[1].reg == r
    ensures ws[0].sensor == Owner(r) && ws[1].sensor == Owner(r)
    ensures Elems(ws[0].value) == Elems(reg) + Elems(flag)
    ensures ws[1].value == Default(r)
  {
    [Write(Owner(r), r, Union(reg, flag)), Write(Owner(r), r, Default(r))]
  }

  /** A reset through register `r` and its flag. Neither write is recorded
      on its own: only once both landed do the copies of `r` and of
      `cleared` go back to their defaults. */
  function Reset<I>(d: Lsm303agr<I>, f: Fault, r: Reg, flag: Byte, cleared: seq<Reg>): (s: Step<Lsm303agr<I>, Reg, ()>)
    requires Shadowed(r) && AllShadowed(cleared)
    ensures s.writes == Attempted(f, ResetWrites(r, Shadow(d, r).value, flag))
    ensures Keeps(d, s.dev) && StopsAtFault(f, s) && s.readsFrom == [] && s.delayUs == None
    ensures s.result.Ok? <==> !Interrupted(f, s.writes)
    ensures s.result.Err? ==> s.dev == d
    ensures s.result.Ok? ==> forall q :: Shadow(s.dev, q) == if q == r || q in cleared then Some(Default(q)) else Shadow(d, q)
  {
    var ws := ResetWrites(r, Shadow(d, r).value, flag);
    if Interrupted(f, ws) then Step(d, Attempted(f, ws), [], None, Err(f.cause))
    else Step(ResetAll(d, [r] + cleared), ws, [], None, Ok(()))
  }

  /** Reboot the accelerometer memory through BOOT in CTRL_REG5_A; the copy
      of TEMP_CFG_REG_A is reset too. */
  function AccRebootMem<I>(d: Lsm303agr<I>, f: Fault): (s: Step<Lsm303agr<I>, Reg, ()>)
    ensures s.writes == Attempted(f, [Write(Accel, CtrlReg5A, Union(d.ctrlReg5A, CtrlReg5A_BOOT)), Write(Accel, CtrlReg5A, 0)])
    ensures Keeps(d, s.dev) && StopsAtFault(f, s) && s.readsFrom == [] && s.delayUs == None
    ensures s.result.Ok? <==> !Interrupted(f, s.writes)
    ensures s.result.Err? ==> s.dev == d
    ensures s.result.Ok? ==> s.dev == d.(ctrlReg5A := 0, tempCfgRegA := 0)
    ensures WellFormed(d) ==> WellFormed(s.dev)
  {
    var s := Reset(d, f, CtrlReg5A, CtrlReg5A_BOOT, [TempCfgRegA]);
    if s.result.Ok? then
      Equal(s.dev, d.(ctrlReg5A := 0, tempCfgRegA := 0));
      s
    else s
  }

  /** Reboot the magnetometer memory through REBOOT in CFG_REG_A_M; the
      copies of CFG_REG_B_M and CFG_REG_C_M are reset too. */
  function MagRebootMem<I>(d: Lsm303agr<I>, f: Fault): (s: Step<Lsm303agr<I>, Reg, ()>)
    ensures s.writes == Attempted(f, [Write(Mag, CfgRegAM, Union(d.cfgRegAM, CfgRegAM_REBOOT)), Write(Mag, CfgRegAM, CfgRegAM_MD)])
    ensures Keeps(d, s.dev) && StopsAtFault(f, s) && s.readsFrom == [] && s.delayUs == None
    ensures s.result.Ok? <==> !Interrupted(f, s.writes)
    ensures s.result.Err? ==> s.dev == d
    ensures s.result.Ok? ==> s.dev == d.(cfgRegAM := CfgRegAM_MD, cfgRegBM := 0, cfgRegCM := 0)
    ensures WellFormed(d) ==> WellFormed(s.dev)
  {
    var s := Reset(d, f, CfgRegAM, CfgRegAM_REBOOT, [CfgRegBM, CfgRegCM]);
    if s.result.Ok? then
      Equal(s.dev, d.(cfgRegAM := CfgRegAM_MD, cfgRegBM := 0, cfgRegCM := 0));
      s
    else s
  }

  /** Soft reset of the magnetometer through SOFT_RST in CFG_REG_A_M, with
      the same copies reset as by the reboot. */
  function MagSoftReset<I>(d: Lsm303agr<I>, f: Fault): (s: Step<Lsm303agr<I>, Reg, ()>)
    ensures s.writes == Attempted(f, [Write(Mag, CfgRegAM, Union(d.cfgRegAM, CfgRegAM_SOFT_RST)), Write(Mag, CfgRegAM, CfgRegAM_MD)])
    ensures Keeps(d, s.dev) && StopsAtFault(f, s) && s.readsFrom == [] && s.delayUs == None
    ensures s.result.Ok? <==> !Interrupted(f, s.writes)
    ensures s.result.Err? ==> s.dev == d
    ensures s.result.Ok? ==> s.dev == d.(cfgRegAM := CfgRegAM_MD, cfgRegBM := 0, cfgRegCM := 0)
    ensures WellFormed(d) ==> WellFormed(s.dev)
  {
    var s := Reset(d, f, CfgRegAM, CfgRegAM_SOFT_RST, [CfgRegBM, CfgRegCM]);
    if s.result.Ok? then
      Equal(s.dev, d.(cfgRegAM := CfgRegAM_MD, cfgRegBM := 0, cfgRegCM := 0));
      s
    else s
  }

  /** The reset copies agree with a new handle's, and a second reset on a
      healthy bus leaves the handle as the first one did. */
  lemma AccRebootAgreesWithNew<I>(d: Lsm303agr<I>)
    ensures var e := AccRebootMem(d, Healthy).dev;
      e.ctrlReg5A == New(d.iface).ctrlReg5A && e.tempCfgRegA == New(d.iface).tempCfgRegA
      && AccRebootMem(e, Healthy).dev == e
  {
  }

  lemma MagResetAgreesWithNew<I>(d: Lsm303agr<I>)
    ensures var e := MagRebootMem(d, Healthy).dev;
      e.cfgRegAM == New(d.iface).cfgRegAM && e.cfgRegBM == New(d.iface).cfgRegBM && e.cfgRegCM == New(d.iface).cfgRegCM
    ensures MagSoftReset(d, Healthy).dev == MagRebootMem(d, Healthy).dev
    ensures var e := MagRebootMem(d, Healthy).dev;
      MagRebootMem(e, Healthy).dev == e
  {
  }

  /** The magnetometer reset leaves the typestate alone: a handle in
      continuous mode keeps that type while its copy of CFG_REG_A_M, like the
      device, is back in idle mode. */
  lemma MagResetKeepsTypestate<I>(d: Lsm303agr<I>)
    requires d.magMode == MagContinuous
    ensures MagRebootMem(d, Healthy).dev.magMode == MagContinuous
    ensures IsIdleMode(MagRebootMem(d, Healthy).dev.cfgRegAM)
  {
    SystemModes(0);
  }
}
