/** The LSM303AGR's rate, mode and scale enumerations and their datasheet
    tables. */
module AgrTypes {
  import opened Wrappers
  import opened Types

  /** Accelerometer output data rate. */
  datatype AccelOutputDataRate =
    | Hz1 | Hz10 | Hz25 | Hz50 | Hz100 | Hz200 | Hz400
    | Khz1_344          // normal and high-resolution modes only
    | Khz1_620LowPower  // low-power mode only
    | Khz5_376LowPower  // low-power mode only

  /** The rate with the given frequency, if there is one. */
  function AccelOdrFromHertz(hz: U16): (r: Option<AccelOutputDataRate>)
    ensures r.Some? <==> hz in {1, 10, 25, 50, 100, 200, 400, 1344, 1620, 5376}
    ensures r.Some? ==> AccelOdrToHertz(r.value) == hz
  {
    match hz
    case 1 => Some(Hz1)
    case 10 => Some(Hz10)
    case 25 => Some(Hz25)
    case 50 => Some(Hz50)
    case 100 => Some(Hz100)
    case 200 => Some(Hz200)
    case 400 => Some(Hz400)
    case 1344 => Some(Khz1_344)
    case 1620 => Some(Khz1_620LowPower)
    case 5376 => Some(Khz5_376LowPower)
    case _ => None
  }

  function AccelOdrToHertz(odr: AccelOutputDataRate): U16 {
    match odr
    case Hz1 => 1
    case Hz10 => 10
    case Hz25 => 25
    case Hz50 => 50
    case Hz100 => 100
    case Hz200 => 200
    case Hz400 => 400
    case Khz1_344 => 1344
    case Khz1_620LowPower => 1620
    case Khz5_376LowPower => 5376
  }

  /** Every rate survives the trip through its frequency. */
  lemma AccelOdrHertzRoundTrip(odr: AccelOutputDataRate)
    ensures AccelOdrFromHertz(AccelOdrToHertz(odr)) == Some(odr)
  {
  }

  /** `turn_on_time_us_frac_1`: one output period, per rate (the source
      documents these constants as milliseconds). */
  function AccelFrac1(odr: AccelOutputDataRate): nat {
    match odr
    case Hz1 => 1000
    case Hz10 => 100
    case Hz25 => 40
    case Hz50 => 20
    case Hz100 => 10
    case Hz200 => 5
    case Hz400 => 3
    case Khz1_344 => 1
    case Khz1_620LowPower => 1
    case Khz5_376LowPower => 1
  }

  /** `turn_on_time_us_frac_7`: seven output periods, per rate. */
  function AccelFrac7(odr: AccelOutputDataRate): nat {
    match odr
    case Hz1 => 7000
    case Hz10 => 700
    case Hz25 => 280
    case Hz50 => 140
    case Hz100 => 70
    case Hz200 => 35
    case Hz400 => 18
    case Khz1_344 => 6
    case Khz1_620LowPower => 5
    case Khz5_376LowPower => 2
  }

  /** `n / d` rounded up. */
  function CeilDiv(n: nat, d: nat): nat
    requires d > 0
  {
    (n + d - 1) / d
  }

  /** The fraction tables are the periods 1000/f and 7000/f, rounded up. */
  lemma {:induction false} AccelFracTablesAreRoundedPeriods(odr: AccelOutputDataRate)
    ensures AccelFrac1(odr) == CeilDiv(1000, AccelOdrToHertz(odr))
    ensures AccelFrac7(odr) == CeilDiv(7000, AccelOdrToHertz(odr))
  {
    match odr
    case Hz1 =>
    case Hz10 =>
    case Hz25 =>
    case Hz50 =>
    case Hz100 =>
    case Hz200 =>
    case Hz400 =>
    case Khz1_344 =>
    case Khz1_620LowPower =>
    case Khz5_376LowPower =>
  }

  /** Seven periods never take less than one, and one period at least 1. */
  lemma AccelFracOrdered(odr: AccelOutputDataRate)
    ensures AccelFrac7(odr) >= AccelFrac1(odr) >= 1
  {
  }

  /** Accelerometer power mode. */
  datatype AccelMode = PowerDown | LowPower | Normal | HighResolution

  /** The number of significant bits of a sample in each powered mode:
      low power 8, normal 10, high resolution 12. */
  function DataBits(mode: AccelMode): nat
    requires mode != PowerDown
  {
    match mode
    case LowPower => 8
    case Normal => 10
    case HighResolution => 12
  }

  /** `AccelMode::turn_on_time_us`. */
  function AccelTurnOnTimeUs(mode: AccelMode, odr: AccelOutputDataRate): nat {
    match mode
    case PowerDown => 0
    case LowPower => 1000
    case Normal => 1600
    case HighResolution => AccelFrac7(odr)
  }

  /** `AccelMode::change_time_us`: the settling time of a mode change. */
  function AccelChangeTimeUs(from: AccelMode, to: AccelMode, odr: AccelOutputDataRate): nat {
    match (from, to)
    case (HighResolution, LowPower) => AccelFrac1(odr)
    case (HighResolution, Normal) => AccelFrac1(odr)
    case (Normal, LowPower) => AccelFrac1(odr)
    case (Normal, HighResolution) => AccelFrac7(odr)
    case (LowPower, Normal) => AccelFrac1(odr)
    case (LowPower, HighResolution) => AccelFrac7(odr)
    case (PowerDown, _) => AccelTurnOnTimeUs(to, odr)
    case _ => 0
  }

  /** The change-time table as a rule: nothing to wait for when the mode stays
      or the sensor powers down; the turn-on time when it powers up; seven
      periods when entering high resolution; one period otherwise. */
  lemma {:induction false} AccelChangeTimeRule(from: AccelMode, to: AccelMode, odr: AccelOutputDataRate)
    ensures AccelChangeTimeUs(from, to, odr) ==
      if from == to || to == PowerDown then 0
      else if from == PowerDown then AccelTurnOnTimeUs(to, odr)
      else if to == HighResolution then AccelFrac7(odr)
      else AccelFrac1(odr)
  {
    match (from, to)
    case (HighResolution, LowPower) =>
    case (HighResolution, Normal) =>
    case (Normal, LowPower) =>
    case (Normal, HighResolution) =>
    case (LowPower, Normal) =>
    case (LowPower, HighResolution) =>
    case (PowerDown, _) =>
    case _ =>
  }

  /** Powering up from power-down waits 1000, 1600 or seven periods. */
  lemma AccelPowerUpTimes(odr: AccelOutputDataRate)
    ensures AccelChangeTimeUs(PowerDown, LowPower, odr) == 1000
    ensures AccelChangeTimeUs(PowerDown, Normal, odr) == 1600
    ensures AccelChangeTimeUs(PowerDown, HighResolution, odr) == AccelFrac7(odr)
    ensures AccelChangeTimeUs(HighResolution, LowPower, Hz100) == 10
  {
  }

  /** Accelerometer full scale. */
  datatype AccelScale = G2 | G4 | G8 | G16

  /** The full scale in g. */
  function ScaleG(scale: AccelScale): nat {
    match scale
    case G2 => 2
    case G4 => 4
    case G8 => 8
    case G16 => 16
  }

  /** `AccelMode::resolution_factor` (the `ResolutionFactor` variants). */
  function ResolutionFactor(mode: AccelMode): nat {
    match mode
    case PowerDown => 1
    case HighResolution => 16
    case Normal => 64
    case LowPower => 256
  }

  /** `AccelMode::scaling_factor` (the `ScalingFactor` variants), in mg per
      unscaled count. */
  function ScalingFactor(mode: AccelMode, scale: AccelScale): nat {
    match mode
    case PowerDown => 0
    case HighResolution =>
      (match scale case G2 => 1 case G4 => 2 case G8 => 4 case G16 => 8)
    case Normal =>
      (match scale case G2 => 4 case G4 => 8 case G8 => 16 case G16 => 32)
    case LowPower =>
      (match scale case G2 => 16 case G4 => 32 case G8 => 64 case G16 => 128)
  }

  function Pow2(n: nat): nat {
    if n == 0 then 1 else 2 * Pow2(n - 1)
  }

  /** The resolution factor drops the unused low bits of the left-justified
      16-bit sample, and the scaling factor is the sensitivity per remaining
      count, so mg per raw count depends on the scale only: a raw count is
      worth `ScaleG(scale) / 32` mg in every powered mode. */
  lemma {:induction false} AccelFactorsAgree(mode: AccelMode, scale: AccelScale)
    requires mode != PowerDown
    ensures ResolutionFactor(mode) == Pow2(16 - DataBits(mode))
    ensures ScalingFactor(mode, scale) * 32 == ScaleG(scale) * ResolutionFactor(mode)
  {
    assert Pow2(4) == 16;
    assert Pow2(6) == 4 * Pow2(4);
    assert Pow2(8) == 4 * Pow2(6);
    match mode
    case LowPower =>
    case Normal =>
    case HighResolution =>
  }

  /** In power-down every sample converts to 0 mg. */
  lemma AccelPowerDownScalesToZero(scale: AccelScale)
    ensures ScalingFactor(PowerDown, scale) == 0 && ResolutionFactor(PowerDown) == 1
  {
  }

  /** The resolution and scaling factor pair of a mode and scale. */
  datatype AccelerationFactor = AccelerationFactor(resolution: nat, scaling: nat)

  /** `AccelMode::factor`. */
  function Factor(mode: AccelMode, scale: AccelScale): (r: AccelerationFactor)
    ensures r.resolution in {1, 16, 64, 256} && r.scaling <= 128
    ensures (r.scaling == 0) <==> (mode == PowerDown)
  {
    AccelerationFactor(ResolutionFactor(mode), ScalingFactor(mode, scale))
  }

  /** Magnetometer output data rate. */
  datatype MagOutputDataRate = MagHz10 | MagHz20 | MagHz50 | MagHz100

  function MagOdrFromHertz(hz: U16): (r: Option<MagOutputDataRate>)
    ensures r.Some? <==> hz in {10, 20, 50, 100}
    ensures r.Some? ==> MagOdrToHertz(r.value) == hz
  {
    match hz
    case 10 => Some(MagHz10)
    case 20 => Some(MagHz20)
    case 50 => Some(MagHz50)
    case 100 => Some(MagHz100)
    case _ => None
  }

  function MagOdrToHertz(odr: MagOutputDataRate): U16 {
    match odr
    case MagHz10 => 10
    case MagHz20 => 20
    case MagHz50 => 50
    case MagHz100 => 100
  }

  lemma MagOdrHertzRoundTrip(odr: MagOutputDataRate)
    ensures MagOdrFromHertz(MagOdrToHertz(odr)) == Some(odr)
  {
  }

  /** `MagOutputDataRate::turn_on_time_us_frac_1`. */
  function MagFrac1(odr: MagOutputDataRate): nat {
    match odr
    case MagHz10 => 100
    case MagHz20 => 50
    case MagHz50 => 20
    case MagHz100 => 10
  }

  lemma {:induction false} MagFracTableIsPeriod(odr: MagOutputDataRate)
    ensures MagFrac1(odr) == CeilDiv(1000, MagOdrToHertz(odr))
    ensures MagFrac1(odr) * MagOdrToHertz(odr) == 1000
  {
    match odr
    case MagHz10 =>
    case MagHz20 =>
    case MagHz50 =>
    case MagHz100 =>
  }

  /** Magnetometer power mode. */
  datatype MagMode = MagLowPower | MagHighResolution

  /** `MagMode::default()`. */
  const DefaultMagMode: MagMode := MagHighResolution

  /** `MagMode::turn_on_time_us`. */
  function MagTurnOnTimeUs(mode: MagMode): nat {
    match mode
    case MagLowPower => 9400
    case MagHighResolution => 6400
  }

  lemma MagTurnOnTimes()
    ensures MagTurnOnTimeUs(DefaultMagMode) == 6400
    ensures MagTurnOnTimeUs(MagLowPower) == 9400
    ensures forall odr :: MagFrac1(odr) < MagTurnOnTimeUs(MagHighResolution)
  {
  }

  /** FIFO mode. */
  datatype FifoMode = Bypass | Fifo | Stream | StreamToFifo

  /** Accelerometer interrupts routed to the INT1 pin. */
  datatype Interrupt = Aoi1 | Aoi2 | Click | DataReady1 | DataReady2 | FifoOverrun | FifoWatermark
}
