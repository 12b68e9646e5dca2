/**
  The simulator's writer: header initialisation and one iteration of its
  loop as a transition on the page. Wall-clock time, the Gaussian draws and
  the float encodings come in as parameters; sleeping is not modelled.
 */
module Writer {
  import opened Results
  import opened Spans
  import opened Registers
  import opened Bytes
  import opened Access
  import opened Bits
  import opened Scenarios
  import opened Backend

  const MAGIC_VALUE: U32 := 0x53554D31
  const VERSION_VALUE: U32 := 0x00010000
  const STATUS_OK: U32 := 0x1

  /** Python's `int()` on a float: truncation toward zero. */
  function Trunc(x: real): (n: int)
    ensures x >= 0.0 ==> n as real <= x < n as real + 1.0
    ensures x < 0.0 ==> n as real - 1.0 < x <= n as real
  {
    if x >= 0.0 then x.Floor else -((-x).Floor)
  }

  /** The page after header initialisation and the seed handed to the noise generator. */
  datatype Started = Started(page: Page, seed: U32)

  /**
    MAGIC, VERSION and STATUS, then `int(now) & 0xffffffff` into RNG_SEED.
    Nothing else on the page is touched: TICK_US, the sample block and CTRL
    keep whatever the mapped block already held.
   */
  method InitHeader(p: Page, now: real) returns (r: Started)
    ensures LoadU32(r.page, Magic) == MAGIC_VALUE
    ensures LoadU32(r.page, Version) == VERSION_VALUE
    ensures LoadU32(r.page, Status) == STATUS_OK
    ensures LoadU32(r.page, RngSeed) == r.seed
    ensures r.seed == Mask32(Trunc(now))
    ensures forall k :: 12 <= k < PAGE_SIZE && !(Offset(RngSeed) <= k < Offset(RngSeed) + 4) ==> r.page[k] == p[k]
  {
    var seed := Mask32(Trunc(now));
    var p1 := PackU32(p, Magic, MAGIC_VALUE);
    var p2 := PackU32(p1, Version, VERSION_VALUE);
    var p3 := PackU32(p2, Status, STATUS_OK);
    var p4 := PackU32(p3, RngSeed, seed);
    HeaderWritten(p, p1, p2, p3, p4, seed);
    r := Started(p4, seed);
  }

  /** The four header stores, one after another, and what they leave on the page. */
  lemma HeaderWritten(p: Page, p1: Page, p2: Page, p3: Page, p4: Page, seed: U32)
    requires p1 == PackU32(p, Magic, MAGIC_VALUE)
    requires p2 == PackU32(p1, Version, VERSION_VALUE)
    requires p3 == PackU32(p2, Status, STATUS_OK)
    requires p4 == PackU32(p3, RngSeed, seed)
    ensures LoadU32(p4, Magic) == MAGIC_VALUE
    ensures LoadU32(p4, Version) == VERSION_VALUE
    ensures LoadU32(p4, Status) == STATUS_OK
    ensures LoadU32(p4, RngSeed) == seed
    ensures forall k :: 12 <= k < PAGE_SIZE && !(Offset(RngSeed) <= k < Offset(RngSeed) + 4) ==> p4[k] == p[k]
  {
    HeaderSurvives(p1, p2, p3, p4, seed);
    HeaderFrame(p, p1, p2, p3, p4);
  }

  lemma HeaderSurvives(p1: Page, p2: Page, p3: Page, p4: Page, seed: U32)
    requires p2 == PackU32(p1, Version, VERSION_VALUE)
    requires p3 == PackU32(p2, Status, STATUS_OK)
    requires p4 == PackU32(p3, RngSeed, seed)
    ensures LoadU32(p4, Magic) == LoadU32(p1, Magic)
    ensures LoadU32(p4, Version) == LoadU32(p2, Version)
    ensures LoadU32(p4, Status) == LoadU32(p3, Status)
  {
    PackKeepsOtherFields(p1, Version, Magic, VERSION_VALUE);
    PackKeepsOtherFields(p2, Status, Magic, STATUS_OK);
    PackKeepsOtherFields(p3, RngSeed, Magic, seed);
    PackKeepsOtherFields(p2, Status, Version, STATUS_OK);
    PackKeepsOtherFields(p3, RngSeed, Version, seed);
    PackKeepsOtherFields(p3, RngSeed, Status, seed);
  }

  lemma HeaderFrame(p: Page, p1: Page, p2: Page, p3: Page, p4: Page)
    requires OnlyChanged(p, p1, Magic, 4) && OnlyChanged(p1, p2, Version, 4)
    requires OnlyChanged(p2, p3, Status, 4) && OnlyChanged(p3, p4, RngSeed, 4)
    ensures forall k :: 12 <= k < PAGE_SIZE && !(Offset(RngSeed) <= k < Offset(RngSeed) + 4) ==> p4[k] == p[k]
  {
    forall k | 12 <= k < PAGE_SIZE && !(Offset(RngSeed) <= k < Offset(RngSeed) + 4)
      ensures p4[k] == p[k]
    {
      assert p1[k] == p[k];
      assert p2[k] == p1[k];
      assert p3[k] == p2[k];
    }
  }

  /** TICK_US for elapsed time `t`: `int(t * 1e6)` masked to 32 bits. */
  function TickMicros(t: real): (r: U32)
    ensures 0.0 <= t * 1000000.0 < U32_MOD as real ==> r as real <= t * 1000000.0 < r as real + 1.0
  {
    Mask32(Trunc(t * 1000000.0))
  }

  /** TICK_US wraps around every 2^32 microseconds (about 71.6 minutes) of elapsed time. */
  lemma TickMicrosWraps(t: real)
    requires t >= 0.0
    ensures TickMicros(t + 4294.967296) == TickMicros(t)
  {
    var x := t * 1000000.0;
    assert (t + 4294.967296) * 1000000.0 == x + U32_MOD as real;
    var n := Trunc(x);
    assert Trunc(x + U32_MOD as real) == n + U32_MOD;
    assert (n + U32_MOD) % U32_MOD == n % U32_MOD;
  }

  /** CTRL bit 0: freeze. */
  predicate Frozen(ctrl: U32) {
    Test(ctrl, 0)
  }

  /** CTRL bit 1: the approach scenario instead of the loiter. */
  predicate ApproachSelected(ctrl: U32) {
    Test(ctrl, 1)
  }

  /** CTRL bit 2: Gaussian noise on the inertial, pressure, temperature and airspeed fields. */
  predicate NoiseEnabled(ctrl: U32) {
    Test(ctrl, 2)
  }

  /** A cleared CTRL word selects the defaults: running, loiter, no noise. */
  lemma ClearedCtrlRunsLoiter()
    ensures !Frozen(0) && !ApproachSelected(0) && !NoiseEnabled(0)
  {
  }

  /**
    Standard-normal deviates in the order the generator draws them:
    ax, ay, az, gx, gy, gz, press, tempc, airspeed. `random.gauss(0, sd)`
    is `sd` times such a deviate.
   */
  datatype Draws = Draws(ax: real, ay: real, az: real, gx: real, gy: real, gz: real,
                         press: real, tempc: real, airspeed: real)

  const SD_DEFAULT: real := 0.02
  const SD_PRESS: real := 1.5
  const SD_TEMP: real := 0.1
  const SD_AIRSPEED: real := 0.2

  /** The fields the noise step perturbs. */
  predicate Noisy(f: Field) {
    f in {AccelX, AccelY, AccelZ, GyroX, GyroY, GyroZ, BaroP, BaroT, Airspeed}
  }

  /** The standard deviation used for a perturbed field. */
  function Sd(f: Field): real
    requires Noisy(f)
  {
    match f
    case BaroP => SD_PRESS
    case BaroT => SD_TEMP
    case Airspeed => SD_AIRSPEED
    case _ => SD_DEFAULT
  }

  /** The deviate drawn for a perturbed field. */
  function Draw(z: Draws, f: Field): real
    requires Noisy(f)
  {
    match f
    case AccelX => z.ax    case AccelY => z.ay    case AccelZ => z.az
    case GyroX => z.gx     case GyroY => z.gy     case GyroZ => z.gz
    case BaroP => z.press  case BaroT => z.tempc
    case _ => z.airspeed
  }

  /**
    The noise step: each perturbed field moves by its deviation times its
    draw; magnetic field, position, altitude and battery stay the scenario's.
   */
  function AddNoise(s: Sample, z: Draws): Sample {
    s.(
      ax := s.ax + SD_DEFAULT * z.ax, ay := s.ay + SD_DEFAULT * z.ay, az := s.az + SD_DEFAULT * z.az,
      gx := s.gx + SD_DEFAULT * z.gx, gy := s.gy + SD_DEFAULT * z.gy, gz := s.gz + SD_DEFAULT * z.gz,
      press := s.press + SD_PRESS * z.press,
      tempc := s.tempc + SD_TEMP * z.tempc,
      airspeed := s.airspeed + SD_AIRSPEED * z.airspeed)
  }

  /** What a running tick publishes: the scenario CTRL bit 1 picks, noisy when bit 2 is set. */
  function Published(ctrl: U32, t: real, z: Draws, m: Trig): Sample {
    Perturb(ctrl, Scenario(ctrl, t, m), z)
  }

  /** The scenario CTRL bit 1 picks. */
  function Scenario(ctrl: U32, t: real, m: Trig): Sample {
    if ApproachSelected(ctrl) then Approach(t, m) else Loiter(t, m)
  }

  /** The noise step, applied only when CTRL bit 2 is set. */
  function Perturb(ctrl: U32, s: Sample, z: Draws): Sample {
    if NoiseEnabled(ctrl) then AddNoise(s, z) else s
  }

  /** The bytes a sample value is stored as: a double for the two GPS angles, a float otherwise. */
  function Encode(codec: FloatCodec, f: Field, x: real): (b: seq<Byte>)
    ensures |b| == Width(f)
  {
    if EncodingOf(f) == F64 then codec.f64(x) else codec.f32(x)
  }

  /** The writes of one running tick, in the order the loop performs them. */
  function SampleStores(s: Sample, codec: FloatCodec): (ops: seq<Store>)
    ensures |ops| == |SampleFields|
  {
    [ Store(AccelX, codec.f32(s.ax)), Store(AccelY, codec.f32(s.ay)), Store(AccelZ, codec.f32(s.az)),
      Store(GyroX, codec.f32(s.gx)), Store(GyroY, codec.f32(s.gy)), Store(GyroZ, codec.f32(s.gz)),
      Store(MagX, codec.f32(s.mx)), Store(MagY, codec.f32(s.my)), Store(MagZ, codec.f32(s.mz)),
      Store(BaroP, codec.f32(s.press)), Store(BaroT, codec.f32(s.tempc)),
      Store(GpsLat, codec.f64(s.lat)), Store(GpsLon, codec.f64(s.lon)), Store(GpsAlt, codec.f32(s.alt)),
      Store(Airspeed, codec.f32(s.airspeed)),
      Store(BatV, codec.f32(s.batV)), Store(BatI, codec.f32(s.batI)) ]
  }

  /**
    The tick writes the sample block in the layout's declaration order
    (ACCEL, GYRO, MAG, BARO_P, BARO_T, LAT, LON, ALT, AIRSPEED, BAT_V, BAT_I),
    each field with its value encoded at the field's width, into ascending,
    non-overlapping slots.
   */
  lemma WriteOrder(s: Sample, codec: FloatCodec)
    ensures forall i :: 0 <= i < |SampleFields| ==>
      SampleStores(s, codec)[i].field == SampleFields[i]
      && SampleStores(s, codec)[i].bytes == Encode(codec, SampleFields[i], Value(s, SampleFields[i]))
    ensures AllFit(SampleStores(s, codec))
    ensures Ascending(StoreSpans(SampleStores(s, codec)))
  {
    StoresInOrder(s, codec);
    StoresAscend(s, codec);
  }

  /** Store `i` of the batch is the `pack_f64` or `pack_f32` call the loop makes for field `i`. */
  lemma StoreIsPack(p: Page, s: Sample, codec: FloatCodec, i: nat)
    requires i < |SampleFields|
    ensures var op := SampleStores(s, codec)[i];
      var f := SampleFields[i];
      && op.Fits()
      && Put(p, op) == if EncodingOf(f) == F64 then PackF64(p, f, codec, Value(s, f)) else PackF32(p, f, codec, Value(s, f))
  {
    StoresInOrder(s, codec);
  }

  /** Store `i` of the batch writes field `i` of the sample block with that field's encoded value. */
  lemma StoresInOrder(s: Sample, codec: FloatCodec)
    ensures forall i :: 0 <= i < |SampleFields| ==>
      SampleStores(s, codec)[i].field == SampleFields[i]
      && SampleStores(s, codec)[i].bytes == Encode(codec, SampleFields[i], Value(s, SampleFields[i]))
  {
    forall i | 0 <= i < |SampleFields|
      ensures SampleStores(s, codec)[i].field == SampleFields[i]
      ensures SampleStores(s, codec)[i].bytes == Encode(codec, SampleFields[i], Value(s, SampleFields[i]))
    {
      StoreAt(s, codec, i);
    }
  }

  /** The batch's stores fit their slots, which are those of the sample block and so ascend. */
  lemma StoresAscend(s: Sample, codec: FloatCodec)
    ensures AllFit(SampleStores(s, codec))
    ensures Ascending(StoreSpans(SampleStores(s, codec)))
  {
    var ops := SampleStores(s, codec);
    StoresInOrder(s, codec);
    SampleBlockAscending();
    assert StoreSpans(ops) == SpansOf(SampleFields);
  }

  /** The store at position `i` of the tick's batch. */
  lemma StoreAt(s: Sample, codec: FloatCodec, i: int)
    requires 0 <= i < |SampleFields|
    ensures SampleStores(s, codec)[i].field == SampleFields[i]
    ensures SampleStores(s, codec)[i].bytes == Encode(codec, SampleFields[i], Value(s, SampleFields[i]))
  {
    if i < 5 {
      StoresInertial(s, codec, i);
    } else if i < 9 {
      StoresMagnetic(s, codec, i);
    } else if i < 13 {
      StoresAirData(s, codec, i);
    } else {
      StoresTail(s, codec, i);
    }
  }

  /** Part of `StoreAt`'s case split (stores 0 to 4); separate only to keep each proof small. */
  lemma StoresInertial(s: Sample, codec: FloatCodec, i: int)
    requires 0 <= i < 5
    ensures SampleStores(s, codec)[i].field == SampleFields[i]
    ensures SampleStores(s, codec)[i].bytes == Encode(codec, SampleFields[i], Value(s, SampleFields[i]))
  {
    if i < 3 {
      StoresAccel(s, codec, i);
    } else if i == 3 {
    } else {
      assert i == 4;
    }
  }

  /** Part of `StoresInertial`'s case split (stores 0 to 2); separate only to keep each proof small. */
  lemma StoresAccel(s: Sample, codec: FloatCodec, i: int)
    requires 0 <= i < 3
    ensures SampleStores(s, codec)[i].field == SampleFields[i]
    ensures SampleStores(s, codec)[i].bytes == Encode(codec, SampleFields[i], Value(s, SampleFields[i]))
  {
    if i == 0 {
    } else if i == 1 {
    } else {
      assert i == 2;
    }
  }

  /** Part of `StoreAt`'s case split (stores 5 to 8); separate only to keep each proof small. */
  lemma StoresMagnetic(s: Sample, codec: FloatCodec, i: int)
    requires 5 <= i < 9
    ensures SampleStores(s, codec)[i].field == SampleFields[i]
    ensures SampleStores(s, codec)[i].bytes == Encode(codec, SampleFields[i], Value(s, SampleFields[i]))
  {
    if i == 5 {
    } else if i == 6 {
    } else if i == 7 {
    } else {
      assert i == 8;
    }
  }

  /** Part of `StoreAt`'s case split (stores 9 to 12); separate only to keep each proof small. */
  lemma StoresAirData(s: Sample, codec: FloatCodec, i: int)
    requires 9 <= i < 13
    ensures SampleStores(s, codec)[i].field == SampleFields[i]
    ensures SampleStores(s, codec)[i].bytes == Encode(codec, SampleFields[i], Value(s, SampleFields[i]))
  {
    if i == 9 {
    } else if i == 10 {
    } else if i == 11 {
    } else {
      assert i == 12;
    }
  }

  /** Part of `StoreAt`'s case split (stores 13 to 16); separate only to keep each proof small. */
  lemma StoresTail(s: Sample, codec: FloatCodec, i: int)
    requires 13 <= i < 17
    ensures SampleStores(s, codec)[i].field == SampleFields[i]
    ensures SampleStores(s, codec)[i].bytes == Encode(codec, SampleFields[i], Value(s, SampleFields[i]))
  {
    if i == 13 {
    } else if i == 14 {
    } else if i == 15 {
    } else {
      assert i == 16;
    }
  }

  /**
    One loop iteration. TICK_US is stamped first, on every tick; CTRL is read
    afterwards; a frozen tick stops there. Otherwise the selected, possibly
    noisy sample is written field by field.
   */
  function Tick(p: Page, t: real, z: Draws, m: Trig, codec: FloatCodec): Page {
    var p1 := PackU32(p, TickUs, TickMicros(t));
    var ctrl := LoadU32(p1, Ctrl);
    if Frozen(ctrl) then p1
    else
      WriteOrder(Published(ctrl, t, z, m), codec);
      ApplyStores(p1, SampleStores(Published(ctrl, t, z, m), codec))
  }

  /** Reading CTRL after stamping TICK_US sees the CTRL the tick started with. */
  lemma StampKeepsCtrl(p: Page, t: real)
    ensures LoadU32(PackU32(p, TickUs, TickMicros(t)), Ctrl) == LoadU32(p, Ctrl)
  {
    PackKeepsOtherFields(p, TickUs, Ctrl, TickMicros(t));
  }

  /** No sample store reaches outside [0x010, 0x05C). */
  lemma StoresInsideSampleBlock(s: Sample, codec: FloatCodec, k: nat)
    requires k < 0x010 || 0x05C <= k
    ensures forall i :: 0 <= i < |SampleStores(s, codec)| ==> !SampleStores(s, codec)[i].Span().Contains(k)
  {
    StoresInOrder(s, codec);
    SampleSlotsInBlock();
  }

  /**
    Every tick, frozen or not, leaves TICK_US holding `int(t * 1e6)` masked
    to 32 bits, and never writes a byte outside TICK_US and the sample block:
    header, RNG_SEED and CTRL are left alone.
   */
  lemma TickStampsAndStaysInBlock(p: Page, t: real, z: Draws, m: Trig, codec: FloatCodec)
    ensures LoadU32(Tick(p, t, z, m, codec), TickUs) == TickMicros(t)
    ensures forall k :: 0 <= k < PAGE_SIZE && (k < 0x00C || 0x05C <= k) ==> Tick(p, t, z, m, codec)[k] == p[k]
  {
    var p1 := PackU32(p, TickUs, TickMicros(t));
    var ctrl := LoadU32(p1, Ctrl);
    if !Frozen(ctrl) {
      BatchStaysInBlock(p1, Published(ctrl, t, z, m), codec);
    }
  }

  /** The batch of sample stores leaves every byte outside [0x010, 0x05C) as it was. */
  lemma BatchStaysInBlock(p: Page, s: Sample, codec: FloatCodec)
    ensures AllFit(SampleStores(s, codec))
    ensures forall k :: 0 <= k < PAGE_SIZE && (k < 0x010 || 0x05C <= k) ==> ApplyStores(p, SampleStores(s, codec))[k] == p[k]
    ensures Load4(ApplyStores(p, SampleStores(s, codec)), TickUs) == Load4(p, TickUs)
  {
    var ops := SampleStores(s, codec);
    StoresAscend(s, codec);
    forall k | 0 <= k < PAGE_SIZE && (k < 0x010 || 0x05C <= k)
      ensures ApplyStores(p, ops)[k] == p[k]
    {
      StoresInsideSampleBlock(s, codec, k);
      ApplyStoresFrame(p, ops, k);
    }
    assert Load4(ApplyStores(p, ops), TickUs) == Load4(p, TickUs);
  }

  /**
    A tick that finds bit 0 of CTRL set changes nothing but TICK_US: every
    sample byte, the header, RNG_SEED and CTRL read as before.
   */
  lemma FrozenTickOnlyStamps(p: Page, t: real, z: Draws, m: Trig, codec: FloatCodec)
    requires Frozen(LoadU32(p, Ctrl))
    ensures forall k :: 0 <= k < PAGE_SIZE && !(0x00C <= k < 0x010) ==> Tick(p, t, z, m, codec)[k] == p[k]
    ensures LoadU32(Tick(p, t, z, m, codec), Ctrl) == LoadU32(p, Ctrl)
  {
    StampKeepsCtrl(p, t);
  }

  /**
    A running tick publishes every field of the sample block: reading a
    field's slot gives the encoding of that field's value in the sample the
    scenario bit and the noise bit select.
   */
  lemma RunningTickPublishes(p: Page, t: real, z: Draws, m: Trig, codec: FloatCodec, f: Field)
    requires !Frozen(LoadU32(p, Ctrl))
    requires IsSampleField(f)
    ensures Slot(Tick(p, t, z, m, codec), f) == Encode(codec, f, Value(Published(LoadU32(p, Ctrl), t, z, m), f))
  {
    StampKeepsCtrl(p, t);
    var ctrl := LoadU32(p, Ctrl);
    var p1 := PackU32(p, TickUs, TickMicros(t));
    var s := Published(ctrl, t, z, m);
    var ops := SampleStores(s, codec);
    WriteOrder(s, codec);
    SampleFieldsListed(f);
    var i := IndexOf(f) - 4;
    ApplyStoresReadBack(p1, ops, i);
  }

  /** After a running tick the slot of the `i`-th store holds exactly the bytes that store wrote. */
  lemma RunningTickStore(p: Page, t: real, z: Draws, m: Trig, codec: FloatCodec, i: nat)
    requires !Frozen(LoadU32(p, Ctrl))
    requires i < |SampleFields|
    ensures var op := SampleStores(Published(LoadU32(p, Ctrl), t, z, m), codec)[i];
      Slot(Tick(p, t, z, m, codec), op.field) == op.bytes
  {
    StampKeepsCtrl(p, t);
    var s := Published(LoadU32(p, Ctrl), t, z, m);
    WriteOrder(s, codec);
    ApplyStoresReadBack(PackU32(p, TickUs, TickMicros(t)), SampleStores(s, codec), i);
  }

  /** Every slot of the sample block holds the bytes the tick's batch for `v` writes there. */
  predicate Shows(q: Page, v: Sample, codec: FloatCodec) {
    forall i :: 0 <= i < 17 ==> Slot(q, SampleStores(v, codec)[i].field) == SampleStores(v, codec)[i].bytes
  }

  /** After a running tick the page shows the published sample. */
  lemma RunningTickShows(p: Page, t: real, z: Draws, m: Trig, codec: FloatCodec)
    requires !Frozen(LoadU32(p, Ctrl))
    ensures Shows(Tick(p, t, z, m, codec), Published(LoadU32(p, Ctrl), t, z, m), codec)
  {
    forall i | 0 <= i < |SampleFields|
      ensures var op := SampleStores(Published(LoadU32(p, Ctrl), t, z, m), codec)[i];
        Slot(Tick(p, t, z, m, codec), op.field) == op.bytes
    {
      RunningTickStore(p, t, z, m, codec, i);
    }
  }

  /** Bit 1 picks the approach when set and the loiter when clear; without bit 2 that sample is published as is. */
  lemma ScenarioSelection(ctrl: U32, t: real, z: Draws, m: Trig)
    ensures ApproachSelected(ctrl) ==> Scenario(ctrl, t, m) == Approach(t, m)
    ensures !ApproachSelected(ctrl) ==> Scenario(ctrl, t, m) == Loiter(t, m)
    ensures !NoiseEnabled(ctrl) ==> Published(ctrl, t, z, m) == Scenario(ctrl, t, m)
  {
  }

  /**
    Bit 2 only perturbs the noisy fields: magnetic field, position,
    altitude and battery always keep the scenario's values, and without
    bit 2 every field does.
   */
  lemma NoiseSelection(ctrl: U32, s: Sample, z: Draws, f: Field)
    ensures !Noisy(f) || !NoiseEnabled(ctrl) ==> Value(Perturb(ctrl, s, z), f) == Value(s, f)
    ensures Noisy(f) && NoiseEnabled(ctrl) ==> Value(Perturb(ctrl, s, z), f) == Value(s, f) + Sd(f) * Draw(z, f)
  {
    if NoiseEnabled(ctrl) {
      NoiseMoves(s, z, f);
    }
  }

  /** The noise step field by field: a perturbed field moves by its deviation times its draw, any other stays. */
  lemma NoiseMoves(s: Sample, z: Draws, f: Field)
    ensures !Noisy(f) ==> Value(AddNoise(s, z), f) == Value(s, f)
    ensures Noisy(f) ==> Value(AddNoise(s, z), f) == Value(s, f) + Sd(f) * Draw(z, f)
  {
    match f {
      case AccelX => case AccelY => case AccelZ =>
      case GyroX => case GyroY => case GyroZ =>
      case MagX => case MagY => case MagZ =>
      case BaroP => case BaroT =>
      case GpsLat => case GpsLon => case GpsAlt =>
      case Airspeed => case BatV => case BatI =>
      case Magic => case Version => case Status => case TickUs =>
      case RngSeed => case Ctrl =>
    }
  }

  /** The time and deviates a tick receives. */
  datatype TickInput = TickInput(t: real, draws: Draws)

  /** Successive ticks with no outside write to the page in between. */
  function Run(p: Page, ins: seq<TickInput>, m: Trig, codec: FloatCodec): Page
    decreases |ins|
  {
    if |ins| == 0 then p else Run(Tick(p, ins[0].t, ins[0].draws, m, codec), ins[1..], m, codec)
  }

  /**
    While CTRL holds the freeze bit, any number of ticks leave every byte but
    TICK_US unchanged, and after at least one tick TICK_US shows the latest
    tick's time: freezing hides updates, not the clock.
   */
  lemma {:induction false} FrozenRunKeepsPage(p: Page, ins: seq<TickInput>, m: Trig, codec: FloatCodec)
    requires Frozen(LoadU32(p, Ctrl))
    ensures forall k :: 0 <= k < PAGE_SIZE && !(0x00C <= k < 0x010) ==> Run(p, ins, m, codec)[k] == p[k]
    ensures |ins| > 0 ==> LoadU32(Run(p, ins, m, codec), TickUs) == TickMicros(ins[|ins| - 1].t)
    decreases |ins|
  {
    if |ins| > 0 {
      var p1 := Tick(p, ins[0].t, ins[0].draws, m, codec);
      FrozenTickOnlyStamps(p, ins[0].t, ins[0].draws, m, codec);
      TickStampsAndStaysInBlock(p, ins[0].t, ins[0].draws, m, codec);
      FrozenRunKeepsPage(p1, ins[1..], m, codec);
      var q := Run(p1, ins[1..], m, codec);
      assert Run(p, ins, m, codec) == q;
      forall k | 0 <= k < PAGE_SIZE && !(0x00C <= k < 0x010)
        ensures q[k] == p[k]
      {
        assert q[k] == p1[k];
      }
      if |ins| == 1 {
        assert q == p1;
      } else {
        assert ins[1..][|ins| - 2] == ins[|ins| - 1];
      }
    }
  }

  /** The sleep between ticks: the rate is floored at 1e-6 Hz, so the period is positive and at most 1e6 s. */
  function Period(rate: real): (p: real)
    ensures 0.0 < p <= 1000000.0
    ensures rate >= 0.000001 ==> p * rate == 1.0
  {
    var r := if rate < 0.000001 then 0.000001 else rate;
    assert r * (1.0 / r) == 1.0;
    1.0 / r
  }

  /** The mapped file system, the writer's mapping and the seed after start-up. */
  datatype Session = Session(fs: Fs, mapping: Mapping, seed: U32)

  /** A page whose header words are the writer's and whose RNG_SEED holds `seed`. */
  predicate Initialised(p: Page, seed: U32) {
    && LoadU32(p, Magic) == MAGIC_VALUE
    && LoadU32(p, Version) == VERSION_VALUE
    && LoadU32(p, Status) == STATUS_OK
    && LoadU32(p, RngSeed) == seed
  }

  /** The writer's mapping shows a full page carrying the header and the seed drawn from `now`. */
  predicate Booted(s: Session, now: real) {
    && s.mapping.path in s.fs && |s.fs[s.mapping.path]| >= PAGE_SIZE
    && Initialised(View(s.fs, s.mapping), s.seed)
    && s.seed == Mask32(Trunc(now))
  }

  /**
    What start-up may change in a file: the length stays, and past the three
    header words only RNG_SEED's four bytes can differ. TICK_US, the sample
    block, CTRL and everything beyond the first page are kept.
   */
  predicate HeaderOnly(before: seq<Byte>, after: seq<Byte>) {
    && |after| == |before|
    && forall k :: 12 <= k < |before| && !(Offset(RngSeed) <= k < Offset(RngSeed) + 4) ==> after[k] == before[k]
  }

  /** Every file other than `path` is as it was. */
  predicate OthersKept(before: Fs, after: Fs, path: string) {
    forall q :: q in before && q != path ==> q in after && after[q] == before[q]
  }

  /**
    `init_header` through an established mapping: the header and the seed go
    into the first page of the file and nothing else changes, so a CTRL value
    set before start-up (by `ctrl.py`, say) is still there after it.
   */
  method InitMapped(fs: Fs, m: Mapping, now: real) returns (s: Session)
    requires m.path in fs && |fs[m.path]| >= PAGE_SIZE
    ensures s.mapping == m && s.fs.Keys == fs.Keys
    ensures m.path in s.fs && HeaderOnly(fs[m.path], s.fs[m.path])
    ensures OthersKept(fs, s.fs, m.path)
    ensures Booted(s, now)
    ensures LoadU32(View(s.fs, m), Ctrl) == LoadU32(View(fs, m), Ctrl)
  {
    var st := InitHeader(View(fs, m), now);
    var b := WritePage(fs[m.path], st.page);
    WrittenHeaderOnly(fs[m.path], st.page);
    var fs2 := fs[m.path := b];
    s := Session(fs2, m, st.seed);
  }

  /** Writing back a page that differs from the file's first page only in the header leaves a header-only change. */
  lemma WrittenHeaderOnly(b: seq<Byte>, page: Page)
    requires |b| >= PAGE_SIZE
    requires forall k :: 12 <= k < PAGE_SIZE && !(Offset(RngSeed) <= k < Offset(RngSeed) + 4) ==> page[k] == b[..PAGE_SIZE][k]
    ensures HeaderOnly(b, WritePage(b, page))
    ensures WritePage(b, page)[..PAGE_SIZE] == page
    ensures LoadU32(page, Ctrl) == LoadU32(b[..PAGE_SIZE], Ctrl)
  {
    var r := WritePage(b, page);
    forall k | 12 <= k < |b| && !(Offset(RngSeed) <= k < Offset(RngSeed) + 4)
      ensures r[k] == b[k]
    {
      if k < PAGE_SIZE {
        assert r[k] == r[..PAGE_SIZE][k];
      } else {
        assert r[k] == r[PAGE_SIZE..][k - PAGE_SIZE];
      }
    }
    HeaderOnlyKeepsCtrl(b, r);
  }

  /** Bytes that start-up may not change include CTRL's four. */
  lemma HeaderOnlyKeepsCtrl(before: seq<Byte>, after: seq<Byte>)
    requires |before| >= PAGE_SIZE && HeaderOnly(before, after)
    ensures LoadU32(after[..PAGE_SIZE], Ctrl) == LoadU32(before[..PAGE_SIZE], Ctrl)
  {
    var a: Page := after[..PAGE_SIZE];
    var b: Page := before[..PAGE_SIZE];
    forall k | Offset(Ctrl) <= k < Offset(Ctrl) + 4
      ensures a[k] == b[k]
    {
      assert after[k] == before[k];
    }
    SlicesAgree(a, b, Offset(Ctrl), Offset(Ctrl) + 4);
  }

  /**
    Start-up: `open_map` for the chosen backend, then the header and the
    seed written through the mapping into the first page of the file. On
    "uio" and "shm" the read-only openers of the same backend then succeed.
   */
  method Start(fs: Fs, backend: string, uioPath: string, shmPath: string, now: real) returns (r: Result<Session, OpenError>)
    ensures backend == "uio" ==> (r.Ok? <==> uioPath in fs && |fs[uioPath]| >= PAGE_SIZE)
    ensures backend == "uio" && uioPath !in fs ==> r == Err(NoSuchFile(uioPath))
    ensures backend == "uio" && uioPath in fs && |fs[uioPath]| < PAGE_SIZE ==> r == Err(TooSmall(uioPath))
    ensures backend == "shm" ==> r.Ok?
    ensures backend != "uio" && backend != "shm" ==> r == Err(UnknownBackend(backend))
    ensures r.Ok? ==> (r.value.mapping == Mapping(ReaderPath(backend, uioPath, shmPath), ReadWrite)
      && r.value.fs.Keys == fs.Keys + {r.value.mapping.path})
    ensures r.Ok? ==> Booted(r.value, now)
    ensures r.Ok? ==> ReaderOpenMap(r.value.fs, backend, uioPath, shmPath) == Ok(Mapping(r.value.mapping.path, ReadOnly))
    ensures r.Ok? && backend == "uio" ==>
      && HeaderOnly(fs[uioPath], r.value.fs[uioPath])
      && OthersKept(fs, r.value.fs, uioPath)
    ensures r.Ok? && backend == "shm" ==>
      var fs1 := EnsureShm(fs, shmPath);
      && HeaderOnly(fs1[shmPath], r.value.fs[shmPath])
      && OthersKept(fs1, r.value.fs, shmPath)
    ensures r.Ok? && r.value.mapping.path in fs && |fs[r.value.mapping.path]| >= PAGE_SIZE ==>
      LoadU32(View(r.value.fs, r.value.mapping), Ctrl) == LoadU32(View(fs, r.value.mapping), Ctrl)
  {
    var om := WriterOpenMap(fs, backend, uioPath, shmPath);
    if om.Err? {
      r := Err(om.error);
    } else if backend == "uio" {
      assert om.value == (fs, Mapping(uioPath, ReadWrite));
      var s := InitMapped(fs, Mapping(uioPath, ReadWrite), now);
      assert s.fs.Keys == fs.Keys + {uioPath};
      r := Ok(s);
    } else {
      var fs1 := EnsureShm(fs, shmPath);
      assert om.value == (fs1, Mapping(shmPath, ReadWrite));
      var s := InitMapped(fs1, Mapping(shmPath, ReadWrite), now);
      if shmPath in fs && |fs[shmPath]| >= PAGE_SIZE {
        assert View(fs1, Mapping(shmPath, ReadWrite)) == View(fs, Mapping(shmPath, ReadWrite));
      }
      assert s.fs.Keys == fs.Keys + {shmPath};
      r := Ok(s);
    }
  }
}
