/**
  The two flight scenarios as functions of elapsed time, over exact reals.
  The sine and cosine the source calls are parameters (`Trig`): only the
  linear, constant and interpolated parts are interpreted here.
 */
module Scenarios {
  import opened Registers

  datatype Trig = Trig(sin: real -> real, cos: real -> real)

  /** Sine and cosine that stay within [-1, 1], as the real ones do. */
  ghost predicate Bounded(m: Trig) {
    forall x :: -1.0 <= m.sin(x) <= 1.0 && -1.0 <= m.cos(x) <= 1.0
  }

  /** One flight sample, the dictionary both scenarios return. */
  datatype Sample = Sample(
    ax: real, ay: real, az: real,
    gx: real, gy: real, gz: real,
    mx: real, my: real, mz: real,
    press: real, tempc: real,
    lat: real, lon: real, alt: real,
    airspeed: real, batV: real, batI: real)

  /**
    The sample value published in a register of the sample block; the
    header, RNG_SEED and CTRL carry no sample value and read as 0.
   */
  function Value(s: Sample, f: Field): real {
    match f
    case AccelX => s.ax      case AccelY => s.ay      case AccelZ => s.az
    case GyroX => s.gx       case GyroY => s.gy       case GyroZ => s.gz
    case MagX => s.mx        case MagY => s.my        case MagZ => s.mz
    case BaroP => s.press    case BaroT => s.tempc
    case GpsLat => s.lat     case GpsLon => s.lon     case GpsAlt => s.alt
    case Airspeed => s.airspeed
    case BatV => s.batV      case BatI => s.batI
    case _ => 0.0
  }

  /** Battery voltage drain shared by both scenarios. */
  function BatteryVolts(t: real): real {
    12.3 - 0.0001 * t
  }

  /** A gentle loiter over Brasília. */
  function Loiter(t: real, m: Trig): Sample {
    var omega := 0.5;
    Sample(
      0.1 * m.sin(omega * t), 0.1 * m.cos(omega * t), 9.81,
      0.01 * m.sin(0.7 * t), 0.01 * m.cos(0.7 * t), 0.02 * m.sin(0.2 * t),
      25.0, 0.0, 40.0,
      101325.0 - 12.0 * m.sin(0.1 * t), 25.0 + 0.2 * m.sin(0.05 * t),
      -15.793889 + 0.0001 * m.sin(0.001 * t), -47.882778 + 0.0001 * m.cos(0.001 * t),
      1100.0 + 2.0 * m.sin(0.01 * t),
      15.0 + 2.0 * m.sin(0.3 * t),
      BatteryVolts(t), 2.1 + 0.1 * m.sin(0.5 * t))
  }

  const EDDF_LAT: real := 50.0379
  const EDDF_LON: real := 8.5622
  const FIELD_ELEV_M: real := 111.0
  const START_LAT: real := 50.0400
  const START_LON: real := 8.3500
  const START_ALT: real := 900.0
  const START_KT: real := 80.0
  const END_KT: real := 65.0
  const APPROACH_SEC: real := 360.0
  const KT_TO_MS: real := 0.514444

  /** `a` and `b` bound `r`, in whichever order they come. */
  predicate Between(r: real, a: real, b: real) {
    (a <= b ==> a <= r <= b) && (b <= a ==> b <= r <= a)
  }

  lemma ScaleByPositive(x: real, y: real, p: real)
    requires p > 0.0
    ensures x <= y ==> x * p <= y * p
    ensures x < y ==> x * p < y * p
    ensures (x / p) * p == x
  {
  }

  lemma MulNonneg(x: real, y: real)
    requires x >= 0.0 && y >= 0.0
    ensures x * y >= 0.0
  {
  }

  /** `a + (b - a) * c` for `c` in [0, 1] stays between `a` and `b` and hits both ends. */
  lemma MixBetween(a: real, b: real, c: real)
    requires 0.0 <= c <= 1.0
    ensures Between(a + (b - a) * c, a, b)
    ensures c == 0.0 ==> a + (b - a) * c == a
    ensures c == 1.0 ==> a + (b - a) * c == b
  {
    var d := b - a;
    assert d * c + d * (1.0 - c) == d;
    if d >= 0.0 {
      MulNonneg(d, c);
      MulNonneg(d, 1.0 - c);
    } else {
      MulNonneg(-d, c);
      MulNonneg(-d, 1.0 - c);
      assert (-d) * c == -(d * c);
      assert (-d) * (1.0 - c) == -(d * (1.0 - c));
    }
  }

  lemma DivThenMul(t: real, p: real)
    requires p > 0.0
    ensures (t / p) * p == t
  {
  }

  lemma MulThenDiv(a: real, p: real)
    requires p > 0.0
    ensures (a * p) / p == a
  {
  }

  /** `t - p * floor(t / p)` lies in [0, p) and leaves a whole multiple of `p` behind. */
  lemma FloorDivision(t: real, p: real)
    requires p > 0.0
    ensures var q := (t / p).Floor as real;
      0.0 <= t - q * p < p && (t - (t - q * p)) / p == q
  {
    var x := t / p;
    assert x.Floor as real <= x < x.Floor as real + 1.0;
    DivisionBy(t, p, x.Floor as real);
  }

  /** The same for any `q` with `q <= t / p < q + 1`. */
  lemma DivisionBy(t: real, p: real, q: real)
    requires p > 0.0
    requires q <= t / p < q + 1.0
    ensures 0.0 <= t - q * p < p && (t - (t - q * p)) / p == q
  {
    var x := t / p;
    calc {
      q * p;
    <= { ScaleByPositive(q, x, p); }
      x * p;
    == { DivThenMul(t, p); }
      t;
    }
    calc {
      t;
    == { DivThenMul(t, p); }
      x * p;
    <
      (q + 1.0) * p;
    ==
      q * p + p;
    }
    assert (t - (t - q * p)) / p == q by {
      assert t - (t - q * p) == q * p;
      MulThenDiv(q, p);
    }
  }

  /** Python's float `%` with a positive divisor: the floored remainder. */
  function FMod(t: real, p: real): (r: real)
    requires p > 0.0
    ensures 0.0 <= r < p
    ensures ((t - r) / p).Floor as real == (t - r) / p
  {
    FloorDivision(t, p);
    t - (t / p).Floor as real * p
  }

  /** Position in the current approach loop. */
  function Phase(t: real): (r: real)
    ensures 0.0 <= r < 1.0
  {
    FMod(t, APPROACH_SEC) / APPROACH_SEC
  }

  /** The interpolation fraction forced into [0, 1]. */
  function Clamp01(s: real): (c: real)
    ensures 0.0 <= c <= 1.0
    ensures s <= 0.0 ==> c == 0.0
    ensures s >= 1.0 ==> c == 1.0
    ensures 0.0 <= s <= 1.0 ==> c == s
  {
    if s < 0.0 then 0.0 else if s > 1.0 then 1.0 else s
  }

  /** Interpolation from `a` to `b` with the fraction clamped to [0, 1]. */
  function Lerp(a: real, b: real, s: real): (r: real)
    ensures s <= 0.0 ==> r == a
    ensures s >= 1.0 ==> r == b
    ensures Between(r, a, b)
  {
    var c := Clamp01(s);
    MixBetween(a, b, c);
    a + (b - a) * c
  }

  /** A straight-in approach to Frankfurt that restarts every APPROACH_SEC seconds. */
  function Approach(t: real, m: Trig): Sample {
    var phase := Phase(t);
    var lat := Lerp(START_LAT, EDDF_LAT, phase);
    var lon := Lerp(START_LON, EDDF_LON, phase);
    var alt := Lerp(START_ALT, FIELD_ELEV_M + 5.0, phase);
    var airspeed := Lerp(START_KT, END_KT, phase) * KT_TO_MS + 0.8 * m.sin(0.6 * t);
    Sample(
      0.05 * m.sin(0.4 * t), 0.03 * m.sin(0.9 * t + 1.2), 9.81 + 0.02 * m.sin(1.3 * t),
      0.02 * m.sin(0.5 * t), 0.01 * m.cos(0.6 * t), 0.03 * m.sin(0.2 * t),
      25.0, 0.0, 40.0,
      101325.0 + (-12.0 * m.sin(0.1 * t)) - (alt * 12.0) / 100.0,
      15.0 - 0.0065 * alt + 0.3 * m.sin(0.03 * t),
      lat, lon, alt, airspeed,
      BatteryVolts(t), 2.1 + 0.1 * m.sin(0.5 * t))
  }

  /** The phase repeats every APPROACH_SEC seconds. */
  lemma PhasePeriodic(t: real)
    ensures Phase(t + APPROACH_SEC) == Phase(t)
  {
    var q := (t / APPROACH_SEC).Floor;
    var q' := ((t + APPROACH_SEC) / APPROACH_SEC).Floor;
    assert (t + APPROACH_SEC) / APPROACH_SEC == t / APPROACH_SEC + 1.0;
    assert q' == q + 1;
  }

  /** The phase is zero at every loop start. */
  lemma PhaseAtLoopStart(k: int)
    ensures Phase(APPROACH_SEC * k as real) == 0.0
  {
    assert (APPROACH_SEC * k as real) / APPROACH_SEC == k as real;
  }

  /**
    The approach's position and altitude depend on time only through the
    loop phase; the airspeed does too once its sine term is taken away.
   */
  lemma ApproachPeriodic(t: real, m: Trig)
    ensures Approach(t + APPROACH_SEC, m).lat == Approach(t, m).lat
    ensures Approach(t + APPROACH_SEC, m).lon == Approach(t, m).lon
    ensures Approach(t + APPROACH_SEC, m).alt == Approach(t, m).alt
    ensures Approach(t + APPROACH_SEC, m).airspeed - 0.8 * m.sin(0.6 * (t + APPROACH_SEC))
         == Approach(t, m).airspeed - 0.8 * m.sin(0.6 * t)
  {
    PhasePeriodic(t);
  }

  /** Every loop starts at the initial pose: 50.04 N, 8.35 E, 900 m. */
  lemma ApproachStartsAtStartPose(k: int, m: Trig)
    ensures Approach(APPROACH_SEC * k as real, m).lat == 50.04
    ensures Approach(APPROACH_SEC * k as real, m).lon == 8.35
    ensures Approach(APPROACH_SEC * k as real, m).alt == 900.0
  {
    PhaseAtLoopStart(k);
  }

  /** The approach altitude never leaves [116 m, 900 m]; latitude and longitude stay between the two poses. */
  lemma ApproachBounds(t: real, m: Trig)
    ensures 116.0 <= Approach(t, m).alt <= 900.0
    ensures EDDF_LAT <= Approach(t, m).lat <= START_LAT
    ensures START_LON <= Approach(t, m).lon <= EDDF_LON
  {
  }

  /** Both scenarios emit the same constant magnetic field and the same battery drain. */
  lemma ScenariosShareMagAndBattery(t: real, m: Trig)
    ensures Loiter(t, m).mx == Approach(t, m).mx == 25.0
    ensures Loiter(t, m).my == Approach(t, m).my == 0.0
    ensures Loiter(t, m).mz == Approach(t, m).mz == 40.0
    ensures Loiter(t, m).batV == Approach(t, m).batV == 12.3 - 0.0001 * t
  {
  }

  /**
    The loiter holds its position: within 0.0001 degrees of its centre over
    Brasília, 1100 m give or take 2, at 15 m/s give or take 2, with the
    accelerometer's vertical axis fixed at 9.81.
   */
  lemma LoiterStaysOverBrasilia(t: real, m: Trig)
    requires Bounded(m)
    ensures -15.793989 <= Loiter(t, m).lat <= -15.793789
    ensures -47.882878 <= Loiter(t, m).lon <= -47.882678
    ensures 1098.0 <= Loiter(t, m).alt <= 1102.0
    ensures 13.0 <= Loiter(t, m).airspeed <= 17.0
    ensures Loiter(t, m).az == 9.81
  {
    assert -1.0 <= m.sin(0.001 * t) <= 1.0 && -1.0 <= m.cos(0.001 * t) <= 1.0;
    assert -1.0 <= m.sin(0.01 * t) <= 1.0;
    assert -1.0 <= m.sin(0.3 * t) <= 1.0;
  }
}
