/** The LSM303C's rate, mode and scale enumerations and its accelerometer
    factor tables. */
module CTypes {
  import opened Wrappers
  import opened Types

  /** Accelerometer output data rate. */
  datatype AccelOutputDataRate = Hz10 | Hz50 | Hz100 | Hz200 | Hz400 | Hz800

  /** The frequency of a rate in Hz (the rates' names; the source has no
      `to_hertz` for this device). */
  function Hertz(odr: AccelOutputDataRate): nat {
    match odr
    case Hz10 => 10
    case Hz50 => 50
    case Hz100 => 100
    case Hz200 => 200
    case Hz400 => 400
    case Hz800 => 800
  }

  /** `AccelOutputDataRate::from_hertz`. */
  function AccelOdrFromHertz(hz: U16): (r: Option<AccelOutputDataRate>)
    ensures r.Some? <==> hz in {10, 50, 100, 200, 400, 800}
    ensures r.Some? ==> Hertz(r.value) == hz
  {
    match hz
    case 10 => Some(Hz10)
    case 50 => Some(Hz50)
    case 100 => Some(Hz100)
    case 200 => Some(Hz200)
    case 400 => Some(Hz400)
    case 800 => Some(Hz800)
    case _ => None
  }

  /** Every rate is found again from its frequency. */
  lemma AccelOdrHertzRoundTrip(odr: AccelOutputDataRate)
    ensures AccelOdrFromHertz(Hertz(odr)) == Some(odr)
  {
  }

  /** Accelerometer power mode. */
  datatype AccelMode = PowerDown | Normal | HighResolution

  /** Accelerometer full scale, with the Rust discriminants 2, 4 and 8. */
  datatype AccelScale = G2 | G4 | G8

  /** `scale as u8`. */
  function Discriminant(scale: AccelScale): nat {
    match scale
    case G2 => 2
    case G4 => 4
    case G8 => 8
  }

  /** `AccelMode::resolution_factor`: `1`, `1 << 4`, `1 << 6`. */
  function ResolutionFactor(mode: AccelMode): (r: nat)
    ensures r != 0
  {
    match mode
    case PowerDown => 1
    case HighResolution => 16
    case Normal => 64
  }

  /** `AccelMode::scaling_factor`: computed from the scale's discriminant. */
  function ScalingFactor(mode: AccelMode, scale: AccelScale): nat {
    match mode
    case PowerDown => 0
    case HighResolution => Discriminant(scale) / 2
    case Normal => Discriminant(scale) * 2
  }

  /** The scaling factors the discriminant arithmetic produces, and the same
      mg-per-raw-count agreement between modes as on the LSM303AGR. */
  lemma {:induction false} AccelFactorTable(mode: AccelMode, scale: AccelScale)
    ensures mode == HighResolution ==> ScalingFactor(mode, scale) in {1, 2, 4}
    ensures mode == Normal ==> ScalingFactor(mode, scale) in {4, 8, 16}
    ensures mode != PowerDown ==>
      ScalingFactor(mode, scale) * 32 == Discriminant(scale) * ResolutionFactor(mode)
  {
    match scale
    case G2 =>
    case G4 =>
    case G8 =>
  }

  /** `mode.factor(scale)` as the acceleration read captures it. */
  function Factor(mode: AccelMode, scale: AccelScale): (r: (nat, nat))
    ensures r.0 in {1, 16, 64} && r.1 <= 16
    ensures (r.1 == 0) <==> (mode == PowerDown)
  {
    (ResolutionFactor(mode), ScalingFactor(mode, scale))
  }

  /** Magnetometer power mode, per axis group. */
  datatype MagMode = LowPower | MediumPerformance | HighPerformance | UltraHighPerformance

  /** Magnetometer output data rate. */
  datatype MagOutputDataRate = Hz0_625 | Hz1_25 | Hz2_5 | Hz5 | MagHz10 | MagHz20 | Hz40 | Hz80

  /** FIFO mode. */
  datatype FifoMode = Bypass | Fifo | Stream | StreamToFifo | BypassToStream | BypassToFifo

  /** Accelerometer interrupts routed to the INT_XL pin. */
  datatype Interrupt = Inactivity | Ig2 | Ig1 | FifoOverrun | FifoThreshold | DataReady
}
