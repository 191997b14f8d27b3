/** The driver's shared value types: errors, the magnetometer typestate tag,
    identifiers, samples and their integer unit conversions, status flags. */
module Types {
  import opened Bits
  import opened Wrappers

  type U8 = x: int | 0 <= x < 0x100
  type U16 = x: int | 0 <= x < 0x1_0000
  type I16 = x: int | -0x8000 <= x < 0x8000

  predicate InI32(x: int) {
    -0x8000_0000 <= x < 0x8000_0000
  }

  /** Every error of the driver. The payloads of the bus and pin errors are
      opaque to the driver and are left out. */
  datatype Error = Comm | Pin | InvalidInputData

  /** The errors a transfer on the bus can raise. */
  type BusError = e: Error | !e.InvalidInputData? witness Comm

  /** The failure of a typestate transition: the error and the untouched
      original handle. */
  datatype ModeChangeError<D> = ModeChangeError(error: Error, dev: D)

  /** The magnetometer typestate (`mode::MagOneShot`, `mode::MagContinuous`). */
  datatype MagModeTag = MagOneShot | MagContinuous

  function Abs(x: int): nat {
    if x < 0 then -x else x
  }

  /** `u16 as i16`: the same 16 bits read as two's complement. */
  function Signed16(x: U16): (r: I16)
    ensures r % 0x1_0000 == x
    ensures r < 0 <==> x >= 0x8000
  {
    if x < 0x8000 then x else x - 0x1_0000
  }

  /** Rust's `/` on signed integers, which rounds toward zero (Dafny's `/`
      rounds toward negative infinity for a positive divisor). */
  function TruncDiv(a: int, b: int): (q: int)
    requires b != 0
    ensures Abs(q) * Abs(b) <= Abs(a) < (Abs(q) + 1) * Abs(b)
    ensures q == 0 || ((q < 0) <==> ((a < 0) != (b < 0)))
  {
    var na, nb := Abs(a), Abs(b);
    var n := na / nb;
    DivBounds(na, nb);
    var q := if (a < 0) == (b < 0) then n else -n;
    assert Abs(q) == n;
    q
  }

  lemma DivBounds(na: nat, nb: nat)
    requires nb > 0
    ensures (na / nb) * nb <= na < (na / nb + 1) * nb
  {
    var n, r := na / nb, na % nb;
    assert na == n * nb + r && 0 <= r < nb;
    assert (n + 1) * nb == n * nb + nb;
  }

  lemma MulMono(a: nat, b: nat, k: nat)
    requires a <= b
    ensures a * k <= b * k
  {
    assert b * k - a * k == (b - a) * k;
  }

  /** The quotient of a division rounding toward zero is no larger in
      magnitude than the dividend. */
  lemma TruncDivShrinks(a: int, b: int)
    requires b != 0
    ensures Abs(TruncDiv(a, b)) <= Abs(a)
  {
    var q := TruncDiv(a, b);
    MulMono(1, Abs(b), Abs(q));
    assert Abs(q) * Abs(b) == Abs(b) * Abs(q);
  }

  /** An accelerometer sample: raw two's-complement counts per axis and the
      factor pair of the mode and scale active when it was read. */
  datatype Acceleration = Acceleration(x: U16, y: U16, z: U16, resolutionFactor: I16, scalingFactor: U8)
  {
    function XyzRaw(): (U16, U16, U16) {
      (x, y, z)
    }

    /** Whether `raw as i16 / resolution_factor` is defined for one axis
        (no division by zero and no `i16::MIN / -1` overflow). */
    predicate Divisible(raw: U16) {
      resolutionFactor != 0 && !(resolutionFactor == -1 && Signed16(raw) == -0x8000)
    }

    /** One axis divided by the resolution factor, rounding toward zero. */
    function Unscaled(raw: U16): (r: int)
      requires Divisible(raw)
      ensures -0x8000 <= r < 0x8000
      ensures Abs(r) <= Abs(Signed16(raw))
      ensures Abs(r) * Abs(resolutionFactor) <= Abs(Signed16(raw)) < (Abs(r) + 1) * Abs(resolutionFactor)
      ensures r == 0 || ((r < 0) <==> ((Signed16(raw) < 0) != (resolutionFactor < 0)))
    {
      TruncDivShrinks(Signed16(raw), resolutionFactor);
      TruncDiv(Signed16(raw), resolutionFactor)
    }

    function XUnscaled(): int
      requires Divisible(x)
    {
      Unscaled(x)
    }

    function YUnscaled(): int
      requires Divisible(y)
    {
      Unscaled(y)
    }

    function ZUnscaled(): int
      requires Divisible(z)
    {
      Unscaled(z)
    }

    function XyzUnscaled(): (int, int, int)
      requires Divisible(x) && Divisible(y) && Divisible(z)
    {
      (Unscaled(x), Unscaled(y), Unscaled(z))
    }

    /** One axis in milli-g: the unscaled value widened to `i32` and
        multiplied by the scaling factor. */
    function Mg(raw: U16): (r: int)
      requires Divisible(raw)
      ensures InI32(r)
      ensures Abs(r) <= Abs(Signed16(raw)) * scalingFactor
      ensures r == 0 <==> scalingFactor == 0 || Abs(Signed16(raw)) < Abs(resolutionFactor)
      ensures r == 0 || ((r < 0) <==> ((Signed16(raw) < 0) != (resolutionFactor < 0)))
    {
      MulBound(Unscaled(raw), Signed16(raw), scalingFactor);
      MulSign(Unscaled(raw), scalingFactor);
      UnscaledZero(raw);
      Unscaled(raw) * scalingFactor
    }

    /** An axis divides to zero exactly when its count is smaller in
        magnitude than the resolution factor. */
    lemma UnscaledZero(raw: U16)
      requires Divisible(raw)
      ensures Unscaled(raw) == 0 <==> Abs(Signed16(raw)) < Abs(resolutionFactor)
    {
      var q := Unscaled(raw);
      if q != 0 {
        MulMono(1, Abs(q), Abs(resolutionFactor));
      }
    }

    function XMg(): int
      requires Divisible(x)
    {
      Mg(x)
    }

    function YMg(): int
      requires Divisible(y)
    {
      Mg(y)
    }

    function ZMg(): int
      requires Divisible(z)
    {
      Mg(z)
    }

    function XyzMg(): (int, int, int)
      requires Divisible(x) && Divisible(y) && Divisible(z)
    {
      var (ux, uy, uz) := XyzUnscaled();
      (ux * scalingFactor, uy * scalingFactor, uz * scalingFactor)
    }
  }

  lemma MulSign(u: int, k: nat)
    ensures u * k == 0 <==> u == 0 || k == 0
    ensures u * k != 0 ==> ((u * k < 0) <==> (u < 0))
  {
    if u < 0 && k > 0 {
      assert u * k == -((-u) * k);
      MulMono(1, -u, k);
    } else if u > 0 && k > 0 {
      MulMono(1, u, k);
    }
  }

  lemma MulBound(u: int, s: int, k: nat)
    requires Abs(u) <= Abs(s) && -0x8000 <= s < 0x8000 && k < 0x100
    ensures Abs(u * k) <= Abs(s) * k
    ensures InI32(u * k)
  {
    if u < 0 {
      assert Abs(u * k) == (-u) * k;
    } else {
      assert Abs(u * k) == u * k;
    }
    MulMono(Abs(u), Abs(s), k);
    MulMono(Abs(s), 0x8000, k);
    MulMono(k, 0x100, 0x8000);
  }

  /** For the positive resolution factors the driver builds, one axis is the
      signed count divided by the factor with the remainder dropped toward
      zero (Dafny's `/` on the magnitude), and in milli-g it is that
      quotient times the scaling factor. */
  lemma {:induction false} AccelerationReference(a: Acceleration, raw: U16)
    requires a.resolutionFactor > 0
    ensures Signed16(raw) >= 0 ==> a.Unscaled(raw) == Signed16(raw) / a.resolutionFactor
    ensures Signed16(raw) < 0 ==> a.Unscaled(raw) == -((-(Signed16(raw) as int)) / (a.resolutionFactor as int))
    ensures a.Mg(raw) == a.Unscaled(raw) * a.scalingFactor
  {
    var s, f := Signed16(raw), a.resolutionFactor as int;
    var q := a.Unscaled(raw);
    var n := Abs(s) / f;
    DivBounds(Abs(s), f);
    DivUnique(Abs(s), f, Abs(q));
    DivUnique(Abs(s), f, n);
    if s >= 0 {
      assert q >= 0;
    } else if q != 0 {
      assert q < 0;
    }
  }

  /** The magnitude of a quotient rounding down is the only natural number
      bracketing the dividend by multiples of the divisor. */
  lemma DivUnique(a: nat, b: nat, q: nat)
    requires b > 0 && q * b <= a < (q + 1) * b
    ensures q == a / b
  {
    DivBounds(a, b);
    var n := a / b;
    if q < n {
      MulMono(q + 1, n, b);
    } else if q > n {
      MulMono(n + 1, q, b);
    }
  }

  /** `xyz_unscaled` and `xyz_mg` are the per-axis conversions side by side. */
  lemma XyzMatchesAxes(a: Acceleration)
    requires a.Divisible(a.x) && a.Divisible(a.y) && a.Divisible(a.z)
    ensures a.XyzUnscaled() == (a.XUnscaled(), a.YUnscaled(), a.ZUnscaled())
    ensures a.XyzMg() == (a.XMg(), a.YMg(), a.ZMg())
  {
  }

  /** An accelerometer identifier: the raw `WHO_AM_I_A` value and the value
      it is expected to have. */
  datatype AccelerometerId = AccelerometerId(raw: Byte, id: Byte)

  /** `AccelerometerId::from_bits_truncate`: the expected id is left 0 and
      filled in by the device. */
  function AccelerometerIdFromBitsTruncate(raw: Byte): (r: AccelerometerId)
    ensures r.raw == raw && r.id == 0
  {
    AccelerometerId(raw, 0)
  }

  predicate AccelerometerIdIsCorrect(i: AccelerometerId) {
    i.raw == i.id
  }

  /** A magnetometer identifier, as `AccelerometerId`. */
  datatype MagnetometerId = MagnetometerId(raw: Byte, id: Byte)

  function MagnetometerIdFromBitsTruncate(raw: Byte): (r: MagnetometerId)
    ensures r.raw == raw && r.id == 0
  {
    MagnetometerId(raw, 0)
  }

  predicate MagnetometerIdIsCorrect(i: MagnetometerId) {
    i.raw == i.id
  }

  /** A magnetometer sample: raw two's-complement counts per axis. */
  datatype MagneticField = MagneticField(x: U16, y: U16, z: U16)
  {
    function XyzRaw(): (U16, U16, U16) {
      (x, y, z)
    }

    function XyzUnscaled(): (I16, I16, I16) {
      (Signed16(x), Signed16(y), Signed16(z))
    }

    /** One axis in nano-tesla: 150 nT per count, computed in `i32`. */
    function Nt(raw: U16): (r: int)
      ensures InI32(r)
      ensures -0x8000 * MagScalingFactor <= r <= 0x7FFF * MagScalingFactor
      ensures (r < 0) <==> (raw >= 0x8000)
    {
      Signed16(raw) * MagScalingFactor
    }

    function XNt(): int {
      Nt(x)
    }

    function YNt(): int {
      Nt(y)
    }

    function ZNt(): int {
      Nt(z)
    }

    function XyzNt(): (int, int, int) {
      (XNt(), YNt(), ZNt())
    }
  }

  /** `MagneticField::SCALING_FACTOR`. */
  const MagScalingFactor: int := 150

  /** `RegRead::from_data` of the magnetometer output registers. */
  function MagneticFieldFromData(data: (U16, U16, U16)): (r: MagneticField)
    ensures r.XyzRaw() == data
  {
    MagneticField(data.0, data.1, data.2)
  }

  /** The nano-tesla value of every axis is the raw count, read as signed,
      times 150. */
  lemma MagneticFieldRoundTrip(data: (U16, U16, U16))
    ensures MagneticFieldFromData(data).XyzRaw() == data
    ensures MagneticFieldFromData(data).XyzNt() ==
            (Signed16(data.0) * 150, Signed16(data.1) * 150, Signed16(data.2) * 150)
  {
  }

  /** `StatusFlags`: every bit of the status registers is declared. */
  const ZYXOR: Byte := 0x80
  const ZOR: Byte := 0x40
  const YOR: Byte := 0x20
  const XOR: Byte := 0x10
  const ZYXDA: Byte := 0x08
  const ZDA: Byte := 0x04
  const YDA: Byte := 0x02
  const XDA: Byte := 0x01
  const StatusFlagsDeclared: Byte := 0xFF

  /** The decoded data status of one sensor. */
  datatype Status = Status(flags: Byte)

  /** `RegRead::from_data` of a status register followed by `Status::new`. */
  function StatusFromData(data: Byte): (r: Status)
    ensures Elems(r.flags) == Elems(data)
  {
    Status(FromBitsTruncate(StatusFlagsDeclared, data))
  }

  predicate XNewData(s: Status)
    ensures XNewData(s) <==> 0 in Elems(s.flags)
  {
    Contains(s.flags, XDA)
  }

  predicate YNewData(s: Status)
    ensures YNewData(s) <==> 1 in Elems(s.flags)
  {
    Contains(s.flags, YDA)
  }

  predicate ZNewData(s: Status)
    ensures ZNewData(s) <==> 2 in Elems(s.flags)
  {
    Contains(s.flags, ZDA)
  }

  predicate XyzNewData(s: Status)
    ensures XyzNewData(s) <==> 3 in Elems(s.flags)
  {
    Contains(s.flags, ZYXDA)
  }

  predicate XOverrun(s: Status)
    ensures XOverrun(s) <==> 4 in Elems(s.flags)
  {
    Contains(s.flags, XOR)
  }

  predicate YOverrun(s: Status)
    ensures YOverrun(s) <==> 5 in Elems(s.flags)
  {
    Contains(s.flags, YOR)
  }

  predicate ZOverrun(s: Status)
    ensures ZOverrun(s) <==> 6 in Elems(s.flags)
  {
    Contains(s.flags, ZOR)
  }

  predicate XyzOverrun(s: Status)
    ensures XyzOverrun(s) <==> 7 in Elems(s.flags)
  {
    Contains(s.flags, ZYXOR)
  }

  /** A temperature sample: the raw 16-bit count. */
  datatype Temperature = Temperature(raw: U16)

  /** The raw count read as a signed value. */
  function TemperatureUnscaled(t: Temperature): (r: I16)
    ensures r % 0x1_0000 == t.raw
  {
    Signed16(t.raw)
  }
}
