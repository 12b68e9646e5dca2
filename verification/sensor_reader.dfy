/**
  The MAVLink bridge's register reader: a handle that opens the selected
  backend read-only, maps one page, and decodes a flight sample from it.
  The open descriptor count is explicit so that the handle's resource use
  can be stated. The page the mapping shows when a sample is read is a
  parameter: another process writes it concurrently.
 */
module SensorReader {
  import opened Results
  import opened Registers
  import opened Bytes
  import opened Access
  import opened Backend
  import Writer
  import Scenarios

  /**
    The handle: the configured backend and paths, plus the descriptor and
    the mapping it holds once opened (`_fd` and `_mem`).
   */
  datatype Reader = Reader(backend: string, uioPath: string, shmPath: string,
                           fd: Option<string>, mem: Option<Mapping>)
  {
    /** Descriptor and mapping are recorded together, on the same path, read-only. */
    predicate Valid() {
      (fd.Some? <==> mem.Some?) && (mem.Some? ==> fd == Some(mem.value.path) && mem.value.prot == ReadOnly)
    }
  }

  /** A fresh handle holds nothing. */
  function NewReader(backend: string, uioPath: string, shmPath: string): (r: Reader)
    ensures r.Valid() && r.fd.None? && r.mem.None?
  {
    Reader(backend, uioPath, shmPath, None, None)
  }

  /** The handle after `open()`, the number of descriptors the process holds, and the error raised, if any. */
  datatype OpenOutcome = OpenOutcome(reader: Reader, fds: nat, error: Option<OpenError>)

  /**
    `open()`: nothing to do when already mapped. Otherwise the path the
    backend selects is opened O_RDONLY and one page mapped PROT_READ. The
    handle records descriptor and mapping only after both succeed, so a
    mapping failure leaves the just-opened descriptor held by the process
    but unknown to the handle.
   */
  function Open(r: Reader, fs: Fs, fds: nat): (o: OpenOutcome)
    requires r.Valid()
    ensures o.reader.Valid()
    ensures r.mem.Some? ==> o == OpenOutcome(r, fds, None)
    ensures r.mem.None? ==> (o.error.None? <==> ReaderOpenMap(fs, r.backend, r.uioPath, r.shmPath).Ok?)
    ensures o.error.None? ==> o.reader.mem.Some?
    ensures r.mem.None? && o.error.None? ==> o.reader.mem.value.path == ReaderPath(r.backend, r.uioPath, r.shmPath)
    ensures o.error.Some? ==> o.reader == r
    ensures r.mem.None? && o.error.None? ==> o.fds == fds + 1
    ensures o.error == Some(NoSuchFile(ReaderPath(r.backend, r.uioPath, r.shmPath))) ==> o.fds == fds
    ensures o.error == Some(TooSmall(ReaderPath(r.backend, r.uioPath, r.shmPath))) ==> o.fds == fds + 1
    ensures var path := ReaderPath(r.backend, r.uioPath, r.shmPath);
      r.mem.None? && path !in fs ==> o.error == Some(NoSuchFile(path))
    ensures var path := ReaderPath(r.backend, r.uioPath, r.shmPath);
      r.mem.None? && path in fs && |fs[path]| < PAGE_SIZE ==> o.error == Some(TooSmall(path))
  {
    if r.mem.Some? then OpenOutcome(r, fds, None)
    else
      var path := ReaderPath(r.backend, r.uioPath, r.shmPath);
      match ReaderOpenMap(fs, r.backend, r.uioPath, r.shmPath)
      case Ok(m) => OpenOutcome(r.(fd := Some(path), mem := Some(m)), fds + 1, None)
      case Err(e) =>
        if e.NoSuchFile? then OpenOutcome(r, fds, Some(e))
        else OpenOutcome(r, fds + 1, Some(e))
  }

  /** The handle after `close()` and the descriptors the process still holds. */
  datatype Closed = Closed(reader: Reader, fds: nat)

  /** `close()`: unmaps and closes whatever the handle holds, each at most once. */
  function Close(r: Reader, fds: nat): (c: Closed)
    requires r.Valid()
    requires r.fd.Some? ==> fds >= 1
    ensures c.reader.Valid() && c.reader.fd.None? && c.reader.mem.None?
    ensures c.reader.backend == r.backend && c.reader.uioPath == r.uioPath && c.reader.shmPath == r.shmPath
    ensures c.fds == if r.fd.Some? then fds - 1 else fds
  {
    Closed(r.(fd := None, mem := None), if r.fd.Some? then fds - 1 else fds)
  }

  /** Opening twice is opening once: the second call changes nothing. */
  lemma OpenIsIdempotent(r: Reader, fs: Fs, fds: nat)
    requires r.Valid()
    ensures var o := Open(r, fs, fds);
      o.error.None? ==> Open(o.reader, fs, o.fds) == o
  {
  }

  /** Closing twice is closing once. */
  lemma CloseIsIdempotent(r: Reader, fds: nat)
    requires r.Valid()
    requires r.fd.Some? ==> fds >= 1
    ensures var c := Close(r, fds); Close(c.reader, c.fds) == c
  {
  }

  /** A successful open followed by a close gives back exactly the descriptor it took. */
  lemma OpenThenCloseBalances(r: Reader, fs: Fs, fds: nat)
    requires r.Valid() && r.mem.None?
    ensures var o := Open(r, fs, fds);
      o.error.None? ==> Close(o.reader, o.fds) == Closed(r, fds)
  {
  }

  /** A page that is present but shorter than PAGE_SIZE makes `open()` raise and keeps one descriptor open. */
  lemma ShortFileLeaksDescriptor(r: Reader, fs: Fs, fds: nat)
    requires r.Valid() && r.mem.None?
    requires ReaderPath(r.backend, r.uioPath, r.shmPath) in fs
    requires |fs[ReaderPath(r.backend, r.uioPath, r.shmPath)]| < PAGE_SIZE
    ensures Open(r, fs, fds).error == Some(TooSmall(ReaderPath(r.backend, r.uioPath, r.shmPath)))
    ensures Open(r, fs, fds).fds == fds + 1
    ensures Open(r, fs, fds).reader.fd.None?
  {
  }

  datatype ReaderError = NotOpened

  /**
    What `read_sample` returns: TICK_US decoded, and the raw little-endian
    words of each float register it reads (their IEEE 754 decoding is not
    modelled). Battery voltage and current are not part of it.
   */
  datatype SensorSample = SensorSample(
    tick: U32,
    accel: (Bytes4, Bytes4, Bytes4),
    gyro: (Bytes4, Bytes4, Bytes4),
    mag: (Bytes4, Bytes4, Bytes4),
    press: Bytes4, temp: Bytes4,
    lat: Bytes8, lon: Bytes8, alt: Bytes4,
    airspeed: Bytes4)

  /** `_read_u32`: a little-endian word at a register. */
  function ReadU32(p: Page, f: Field): (v: U32)
    requires Width(f) == 4
    ensures EncodeU32(v) == Slot(p, f)
  {
    EncodeDecodeU32(Load4(p, f));
    LoadU32(p, f)
  }

  /** `_read_f32`: the raw word of a single-precision register. */
  function ReadF32(p: Page, f: Field): (b: Bytes4)
    requires Width(f) == 4
    ensures b == Slot(p, f)
  {
    Load4(p, f)
  }

  /** `_read_f64`: the raw bytes of a double-precision register. */
  function ReadF64(p: Page, f: Field): (b: Bytes8)
    requires Width(f) == 8
    ensures b == Slot(p, f)
  {
    Load8(p, f)
  }

  /** Decoding the page: each element taken from its own register. */
  function DecodeSample(p: Page): (s: SensorSample)
    ensures EncodeU32(s.tick) == Slot(p, TickUs)
    ensures s.accel == (Slot(p, AccelX), Slot(p, AccelY), Slot(p, AccelZ))
    ensures s.gyro == (Slot(p, GyroX), Slot(p, GyroY), Slot(p, GyroZ))
    ensures s.mag == (Slot(p, MagX), Slot(p, MagY), Slot(p, MagZ))
    ensures s.press == Slot(p, BaroP) && s.temp == Slot(p, BaroT)
    ensures s.lat == Slot(p, GpsLat) && s.lon == Slot(p, GpsLon) && s.alt == Slot(p, GpsAlt)
    ensures s.airspeed == Slot(p, Airspeed)
  {
    SensorSample(
      ReadU32(p, TickUs),
      (ReadF32(p, AccelX), ReadF32(p, AccelY), ReadF32(p, AccelZ)),
      (ReadF32(p, GyroX), ReadF32(p, GyroY), ReadF32(p, GyroZ)),
      (ReadF32(p, MagX), ReadF32(p, MagY), ReadF32(p, MagZ)),
      ReadF32(p, BaroP), ReadF32(p, BaroT),
      ReadF64(p, GpsLat), ReadF64(p, GpsLon), ReadF32(p, GpsAlt),
      ReadF32(p, Airspeed))
  }

  /** `read_sample`: refused with "sensor not opened" unless the handle holds a mapping. */
  function ReadSample(r: Reader, live: Page): (res: Result<SensorSample, ReaderError>)
    ensures res.Ok? <==> r.mem.Some?
    ensures res.Err? ==> res.error == NotOpened
    ensures res.Ok? ==> res.value == DecodeSample(live)
  {
    if r.mem.None? then Err(NotOpened) else Ok(DecodeSample(live))
  }

  /** Two pages that agree on a block agree on every register inside it. */
  lemma SlotInBlock(p: Page, q: Page, lo: nat, hi: nat, f: Field)
    requires lo <= Offset(f) && Offset(f) + Width(f) <= hi <= PAGE_SIZE
    requires p[lo..hi] == q[lo..hi]
    ensures Slot(p, f) == Slot(q, f)
  {
    var a, b := Offset(f) - lo, Offset(f) - lo + Width(f);
    SliceOfSlice(p, lo, hi, a, b);
    SliceOfSlice(q, lo, hi, a, b);
  }

  /** Pages that agree on a block covering ACCEL to MAG decode to the same three vectors. */
  lemma VectorsAgree(p: Page, q: Page, lo: nat, hi: nat)
    requires lo <= 0x010 && 0x034 <= hi <= PAGE_SIZE
    requires p[lo..hi] == q[lo..hi]
    ensures DecodeSample(p).accel == DecodeSample(q).accel
    ensures DecodeSample(p).gyro == DecodeSample(q).gyro
    ensures DecodeSample(p).mag == DecodeSample(q).mag
  {
    SlotInBlock(p, q, lo, hi, AccelX);
    SlotInBlock(p, q, lo, hi, AccelY);
    SlotInBlock(p, q, lo, hi, AccelZ);
    SlotInBlock(p, q, lo, hi, GyroX);
    SlotInBlock(p, q, lo, hi, GyroY);
    SlotInBlock(p, q, lo, hi, GyroZ);
    SlotInBlock(p, q, lo, hi, MagX);
    SlotInBlock(p, q, lo, hi, MagY);
    SlotInBlock(p, q, lo, hi, MagZ);
  }

  /** Pages that agree on a block covering BARO_P to AIRSPEED decode to the same air and position data. */
  lemma AirDataAgree(p: Page, q: Page, lo: nat, hi: nat)
    requires lo <= 0x034 && 0x054 <= hi <= PAGE_SIZE
    requires p[lo..hi] == q[lo..hi]
    ensures DecodeSample(p).press == DecodeSample(q).press && DecodeSample(p).temp == DecodeSample(q).temp
    ensures DecodeSample(p).lat == DecodeSample(q).lat && DecodeSample(p).lon == DecodeSample(q).lon
    ensures DecodeSample(p).alt == DecodeSample(q).alt && DecodeSample(p).airspeed == DecodeSample(q).airspeed
  {
    SlotInBlock(p, q, lo, hi, BaroP);
    SlotInBlock(p, q, lo, hi, BaroT);
    SlotInBlock(p, q, lo, hi, GpsLat);
    SlotInBlock(p, q, lo, hi, GpsLon);
    SlotInBlock(p, q, lo, hi, GpsAlt);
    SlotInBlock(p, q, lo, hi, Airspeed);
  }

  /** Decoded samples that agree element by element are the same sample. */
  lemma SamplesEqual(a: SensorSample, b: SensorSample)
    requires a.tick == b.tick && a.accel == b.accel && a.gyro == b.gyro && a.mag == b.mag
    requires a.press == b.press && a.temp == b.temp && a.lat == b.lat && a.lon == b.lon
    requires a.alt == b.alt && a.airspeed == b.airspeed
    ensures a == b
  {
  }

  /** The sample depends on nothing but the bytes of TICK_US and the registers after it, up to AIRSPEED. */
  lemma DecodeSeesOnlyItsRegisters(p: Page, q: Page)
    requires p[0x00C..0x054] == q[0x00C..0x054]
    ensures DecodeSample(p) == DecodeSample(q)
  {
    SlotInBlock(p, q, 0x00C, 0x054, TickUs);
    EncodeDecodeU32(Slot(p, TickUs));
    VectorsAgree(p, q, 0x00C, 0x054);
    AirDataAgree(p, q, 0x00C, 0x054);
    SamplesEqual(DecodeSample(p), DecodeSample(q));
  }

  /**
    The accelerometer registers of a page showing `v`.
    Part of `ShownVectors`'s case split; separate only to keep each proof small.
   */
  lemma ShowsAccel(q: Page, v: Scenarios.Sample, codec: FloatCodec)
    requires Writer.Shows(q, v, codec)
    ensures Slot(q, AccelX) == codec.f32(v.ax) && Slot(q, AccelY) == codec.f32(v.ay) && Slot(q, AccelZ) == codec.f32(v.az)
  {
    var ops := Writer.SampleStores(v, codec);
    assert Slot(q, ops[0].field) == ops[0].bytes;
    assert Slot(q, ops[1].field) == ops[1].bytes;
    assert Slot(q, ops[2].field) == ops[2].bytes;
  }

  /**
    The gyroscope registers of a page showing `v`.
    Part of `ShownVectors`'s case split; separate only to keep each proof small.
   */
  lemma ShowsGyro(q: Page, v: Scenarios.Sample, codec: FloatCodec)
    requires Writer.Shows(q, v, codec)
    ensures Slot(q, GyroX) == codec.f32(v.gx) && Slot(q, GyroY) == codec.f32(v.gy) && Slot(q, GyroZ) == codec.f32(v.gz)
  {
    var ops := Writer.SampleStores(v, codec);
    assert Slot(q, ops[3].field) == ops[3].bytes;
    assert Slot(q, ops[4].field) == ops[4].bytes;
    assert Slot(q, ops[5].field) == ops[5].bytes;
  }

  /**
    The magnetometer registers of a page showing `v`.
    Part of `ShownVectors`'s case split; separate only to keep each proof small.
   */
  lemma ShowsMag(q: Page, v: Scenarios.Sample, codec: FloatCodec)
    requires Writer.Shows(q, v, codec)
    ensures Slot(q, MagX) == codec.f32(v.mx) && Slot(q, MagY) == codec.f32(v.my) && Slot(q, MagZ) == codec.f32(v.mz)
  {
    var ops := Writer.SampleStores(v, codec);
    assert Slot(q, ops[6].field) == ops[6].bytes;
    assert Slot(q, ops[7].field) == ops[7].bytes;
    assert Slot(q, ops[8].field) == ops[8].bytes;
  }

  /**
    The barometer and airspeed registers of a page showing `v`.
    Part of `ShownAirData`'s case split; separate only to keep each proof small.
   */
  lemma ShowsAir(q: Page, v: Scenarios.Sample, codec: FloatCodec)
    requires Writer.Shows(q, v, codec)
    ensures Slot(q, BaroP) == codec.f32(v.press) && Slot(q, BaroT) == codec.f32(v.tempc) && Slot(q, Airspeed) == codec.f32(v.airspeed)
  {
    var ops := Writer.SampleStores(v, codec);
    assert Slot(q, ops[9].field) == ops[9].bytes;
    assert Slot(q, ops[10].field) == ops[10].bytes;
    assert Slot(q, ops[14].field) == ops[14].bytes;
  }

  /**
    The position registers of a page showing `v`.
    Part of `ShownAirData`'s case split; separate only to keep each proof small.
   */
  lemma ShowsPosition(q: Page, v: Scenarios.Sample, codec: FloatCodec)
    requires Writer.Shows(q, v, codec)
    ensures Slot(q, GpsLat) == codec.f64(v.lat) && Slot(q, GpsLon) == codec.f64(v.lon) && Slot(q, GpsAlt) == codec.f32(v.alt)
  {
    var ops := Writer.SampleStores(v, codec);
    assert Slot(q, ops[11].field) == ops[11].bytes;
    assert Slot(q, ops[12].field) == ops[12].bytes;
    assert Slot(q, ops[13].field) == ops[13].bytes;
  }

  /** A page showing sample `v` decodes to the encodings of `v`'s three vectors. */
  lemma ShownVectors(q: Page, v: Scenarios.Sample, codec: FloatCodec)
    requires Writer.Shows(q, v, codec)
    ensures var s := DecodeSample(q);
      && s.accel == (codec.f32(v.ax), codec.f32(v.ay), codec.f32(v.az))
      && s.gyro == (codec.f32(v.gx), codec.f32(v.gy), codec.f32(v.gz))
      && s.mag == (codec.f32(v.mx), codec.f32(v.my), codec.f32(v.mz))
  {
    ShowsAccel(q, v, codec);
    ShowsGyro(q, v, codec);
    ShowsMag(q, v, codec);
  }

  /** A page showing sample `v` decodes to the encodings of `v`'s air data and position. */
  lemma ShownAirData(q: Page, v: Scenarios.Sample, codec: FloatCodec)
    requires Writer.Shows(q, v, codec)
    ensures var s := DecodeSample(q);
      && s.press == codec.f32(v.press) && s.temp == codec.f32(v.tempc)
      && s.lat == codec.f64(v.lat) && s.lon == codec.f64(v.lon) && s.alt == codec.f32(v.alt)
      && s.airspeed == codec.f32(v.airspeed)
  {
    ShowsAir(q, v, codec);
    ShowsPosition(q, v, codec);
  }

  /** After a running tick the three vectors read back as the encodings of the published ones. */
  lemma ReadsPublishedVectors(p: Page, t: real, z: Writer.Draws, m: Scenarios.Trig, codec: FloatCodec)
    requires !Writer.Frozen(LoadU32(p, Ctrl))
    ensures var s := DecodeSample(Writer.Tick(p, t, z, m, codec));
      var v := Writer.Published(LoadU32(p, Ctrl), t, z, m);
      && s.accel == (codec.f32(v.ax), codec.f32(v.ay), codec.f32(v.az))
      && s.gyro == (codec.f32(v.gx), codec.f32(v.gy), codec.f32(v.gz))
      && s.mag == (codec.f32(v.mx), codec.f32(v.my), codec.f32(v.mz))
  {
    Writer.RunningTickShows(p, t, z, m, codec);
    ShownVectors(Writer.Tick(p, t, z, m, codec), Writer.Published(LoadU32(p, Ctrl), t, z, m), codec);
  }

  /** After a running tick pressure, temperature, position and airspeed read back as the published encodings. */
  lemma ReadsPublishedAirData(p: Page, t: real, z: Writer.Draws, m: Scenarios.Trig, codec: FloatCodec)
    requires !Writer.Frozen(LoadU32(p, Ctrl))
    ensures var s := DecodeSample(Writer.Tick(p, t, z, m, codec));
      var v := Writer.Published(LoadU32(p, Ctrl), t, z, m);
      && s.press == codec.f32(v.press) && s.temp == codec.f32(v.tempc)
      && s.lat == codec.f64(v.lat) && s.lon == codec.f64(v.lon) && s.alt == codec.f32(v.alt)
      && s.airspeed == codec.f32(v.airspeed)
  {
    Writer.RunningTickShows(p, t, z, m, codec);
    ShownAirData(Writer.Tick(p, t, z, m, codec), Writer.Published(LoadU32(p, Ctrl), t, z, m), codec);
  }

  /**
    Writer to reader: after a running tick the bridge reads the tick's
    timestamp and, register by register, the encodings of the sample the
    writer published.
   */
  lemma ReadsWhatTickPublished(p: Page, t: real, z: Writer.Draws, m: Scenarios.Trig, codec: FloatCodec)
    requires !Writer.Frozen(LoadU32(p, Ctrl))
    ensures var s := DecodeSample(Writer.Tick(p, t, z, m, codec));
      var v := Writer.Published(LoadU32(p, Ctrl), t, z, m);
      && s.tick == Writer.TickMicros(t)
      && s.accel == (codec.f32(v.ax), codec.f32(v.ay), codec.f32(v.az))
      && s.gyro == (codec.f32(v.gx), codec.f32(v.gy), codec.f32(v.gz))
      && s.mag == (codec.f32(v.mx), codec.f32(v.my), codec.f32(v.mz))
      && s.press == codec.f32(v.press) && s.temp == codec.f32(v.tempc)
      && s.lat == codec.f64(v.lat) && s.lon == codec.f64(v.lon) && s.alt == codec.f32(v.alt)
      && s.airspeed == codec.f32(v.airspeed)
  {
    Writer.TickStampsAndStaysInBlock(p, t, z, m, codec);
    ReadsPublishedVectors(p, t, z, m, codec);
    ReadsPublishedAirData(p, t, z, m, codec);
  }

  /** Writer to reader, frozen: the bridge sees the new timestamp next to the previous sample. */
  lemma FrozenTickReadsOldSample(p: Page, t: real, z: Writer.Draws, m: Scenarios.Trig, codec: FloatCodec)
    requires Writer.Frozen(LoadU32(p, Ctrl))
    ensures DecodeSample(Writer.Tick(p, t, z, m, codec)) == DecodeSample(p).(tick := Writer.TickMicros(t))
  {
    var q := Writer.Tick(p, t, z, m, codec);
    Writer.FrozenTickOnlyStamps(p, t, z, m, codec);
    Writer.TickStampsAndStaysInBlock(p, t, z, m, codec);
    assert q[0x010..0x054] == p[0x010..0x054];
    VectorsAgree(q, p, 0x010, 0x054);
    AirDataAgree(q, p, 0x010, 0x054);
    SamplesEqual(DecodeSample(q), DecodeSample(p).(tick := Writer.TickMicros(t)));
  }
}
