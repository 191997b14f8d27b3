/** The bus as the driver sees it.

    The transport (I2C or SPI, with chip-select pins) is not modelled; what
    the driver does with it is. A driver call is a pure function that returns
    a `Step`: the handle afterwards, the register writes it put on the bus in
    order, the registers it read, the delay it asked for, and its result.
    Which write of the call fails, if any, is given by a `Fault`; the values
    read are parameters of the call. */
module Bus {
  import opened Bits
  import opened Wrappers
  import opened Types

  /** The two sensors of the package, each with its own bus address or
      chip-select pin. */
  datatype Sensor = Accel | Mag

  /** The transports a handle owns: an I2C bus, or an SPI bus with the
      accelerometer's and the magnetometer's chip-select pins. */
  datatype I2cInterface<B> = I2cInterface(i2c: B)
  datatype SpiInterface<B, X, M> = SpiInterface(spi: B, csXl: X, csMag: M)

  /** One register write put on the bus. */
  datatype Write<R> = Write(sensor: Sensor, reg: R, value: Byte)

  /** One read, of a register or of a burst starting at it. */
  datatype Read<R> = Read(sensor: Sensor, reg: R)

  /** The bus during one call: every write succeeds, or the write with the
      given index (0 for the call's first write) fails with the given error. */
  datatype Fault = Healthy | FailAt(index: nat, cause: BusError)

  predicate Fails(f: Fault, k: nat) {
    f.FailAt? && f.index == k
  }

  /** Whether one of the writes `ws` failed. */
  predicate Interrupted<R>(f: Fault, ws: seq<Write<R>>) {
    f.FailAt? && f.index < |ws|
  }

  /** The writes of `ws` the device acknowledged. */
  function Landed<R>(f: Fault, ws: seq<Write<R>>): seq<Write<R>> {
    if Interrupted(f, ws) then ws[..f.index] else ws
  }

  /** The writes of `ws` a call puts on the bus: all of them, or those up to
      and including the one that fails. */
  function Attempted<R>(f: Fault, ws: seq<Write<R>>): (a: seq<Write<R>>)
    ensures a <= ws
    ensures Interrupted(f, a) <==> Interrupted(f, ws)
    ensures Interrupted(f, a) ==> f.index == |a| - 1
    ensures Landed(f, a) == Landed(f, ws)
  {
    if Interrupted(f, ws) then ws[..f.index + 1] else ws
  }

  /** Everything one call does. */
  datatype Step<D, R, T> = Step(
    dev: D,
    writes: seq<Write<R>>,
    readsFrom: seq<Read<R>>,
    delayUs: Option<nat>,
    result: Result<T, Error>)

  /** What a typestate transition returns: the new handle, or the error with
      the original handle. */
  datatype Transition<D, R> = Transition(writes: seq<Write<R>>, result: Result<D, ModeChangeError<D>>)

  /** A call stops at its first failed write and returns that write's
      error. */
  predicate StopsAtFault<D, R, T>(f: Fault, s: Step<D, R, T>) {
    Interrupted(f, s.writes) ==> f.index == |s.writes| - 1 && s.result == Err(f.cause)
  }

  /** What a one-shot read returns when no sample is ready yet
      (`nb::Error::WouldBlock`). */
  datatype Nb<T> = Ready(value: T) | WouldBlock

  /** The value of the last write in `ws` to register `r` of sensor `s`. */
  function LastWrite<R(==)>(ws: seq<Write<R>>, s: Sensor, r: R): (v: Option<Byte>)
    ensures v.None? <==> forall i :: 0 <= i < |ws| ==> ws[i].sensor != s || ws[i].reg != r
  {
    if |ws| == 0 then None
    else
      var w := ws[|ws| - 1];
      if w.sensor == s && w.reg == r then Some(w.value)
      else
        var v := LastWrite(ws[..|ws| - 1], s, r);
        assert forall i :: 0 <= i < |ws| - 1 ==> ws[..|ws| - 1][i] == ws[i];
        v
  }

  /** The value `LastWrite` finds is written by some write of `ws` that no
      later write to the same register follows. */
  lemma {:induction false} LastWriteIsLast<R>(ws: seq<Write<R>>, s: Sensor, r: R)
    ensures LastWrite(ws, s, r).Some? ==> exists i :: 0 <= i < |ws| && ws[i] == Write(s, r, LastWrite(ws, s, r).value) &&
                                            forall j :: i < j < |ws| ==> ws[j].sensor != s || ws[j].reg != r
    decreases |ws|
  {
    if |ws| > 0 {
      var n := |ws| - 1;
      var w := ws[n];
      if w.sensor == s && w.reg == r {
        assert ws[n] == Write(s, r, LastWrite(ws, s, r).value);
      } else if LastWrite(ws, s, r).Some? {
        var init := ws[..n];
        LastWriteIsLast(init, s, r);
        var i :| 0 <= i < |init| && init[i] == Write(s, r, LastWrite(init, s, r).value) &&
          forall j :: i < j < |init| ==> init[j].sensor != s || init[j].reg != r;
        assert ws[i] == init[i];
        assert forall j :: i < j < n ==> ws[j] == init[j];
      }
    }
  }

  /** The last write of a call of at most two writes. */
  lemma LastWriteShort<R>(w1: Write<R>, w2: Write<R>)
    ensures forall s: Sensor, r: R :: LastWrite([], s, r) == None
    ensures forall s, r :: LastWrite([w1], s, r) == (if w1.sensor == s && w1.reg == r then Some(w1.value) else None)
    ensures forall s, r :: LastWrite([w1, w2], s, r) == (if w2.sensor == s && w2.reg == r then Some(w2.value) else LastWrite([w1], s, r))
  {
    assert [w1, w2][..1] == [w1];
    assert [w1][..0] == [];
  }

  /** The writes of a call of two writes that landed. */
  lemma LandedShort<R>(f: Fault, w1: Write<R>, w2: Write<R>)
    ensures Fails(f, 0) ==> Landed(f, [w1]) == [] && Landed(f, [w1, w2][..1]) == []
    ensures Fails(f, 1) ==> Landed(f, [w1, w2]) == [w1]
    ensures !Fails(f, 0) ==> Landed(f, [w1]) == [w1]
    ensures !Fails(f, 0) && !Fails(f, 1) ==> Landed(f, [w1, w2]) == [w1, w2]
  {
    assert [w1, w2][..1] == [w1];
  }

  /** The only write of `ws` to its register is the last one. */
  lemma LastWriteUnique<R>(ws: seq<Write<R>>, i: nat)
    requires i < |ws|
    requires forall j :: 0 <= j < |ws| && j != i ==> ws[j].sensor != ws[i].sensor || ws[j].reg != ws[i].reg
    ensures LastWrite(ws, ws[i].sensor, ws[i].reg) == Some(ws[i].value)
  {
  }
}
