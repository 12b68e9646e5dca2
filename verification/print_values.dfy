/**
  `print_values`: the seven values one line shows (TICK_US, ACCEL_X, GYRO_Z,
  AIRSPEED, the two GPS doubles and GPS_ALT), polled `count` times. Floats
  are kept as their little-endian words; formatting is not modelled.
 */
module PrintValues {
  import opened Results
  import opened Registers
  import opened Bytes
  import opened Access
  import opened Backend
  import opened Polling
  import SensorReader

  datatype Line = Line(tick: U32, ax: Bytes4, gz: Bytes4, v: Bytes4, lat: Bytes8, lon: Bytes8, alt: Bytes4)

  /** One line of output, read from its registers. */
  function LineOf(p: Page): (l: Line)
    ensures EncodeU32(l.tick) == Slot(p, TickUs)
    ensures l.ax == Slot(p, AccelX) && l.gz == Slot(p, GyroZ) && l.v == Slot(p, Airspeed)
    ensures l.lat == Slot(p, GpsLat) && l.lon == Slot(p, GpsLon) && l.alt == Slot(p, GpsAlt)
  {
    EncodeDecodeU32(Load4(p, TickUs));
    Line(LoadU32(p, TickUs), Load4(p, AccelX), Load4(p, GyroZ), Load4(p, Airspeed),
         Load8(p, GpsLat), Load8(p, GpsLon), Load4(p, GpsAlt))
  }

  /** The tool and the MAVLink bridge agree on every value they both read from a page. */
  lemma LineAgreesWithBridge(p: Page)
    ensures var s := SensorReader.DecodeSample(p);
      LineOf(p) == Line(s.tick, s.accel.0, s.gyro.2, s.airspeed, s.lat, s.lon, s.alt)
  {
    var s := SensorReader.DecodeSample(p);
    var l := LineOf(p);
    DecodeU32Injective(l.tick, s.tick);
  }

  /** Two words whose encodings agree are the same word. */
  lemma DecodeU32Injective(a: U32, b: U32)
    requires EncodeU32(a) == EncodeU32(b)
    ensures a == b
  {
    DecodeEncodeU32(a);
    DecodeEncodeU32(b);
  }

  /** `main`: open the selected backend, print `count` lines, release everything in `finally`. */
  method Run(fs: Fs, backend: string, uioPath: string, shmPath: string, count: int,
             stop: Option<nat>, live: nat -> Page, fds: nat)
    returns (o: Outcome<Line>)
    ensures o.error.None? <==> ReaderOpenMap(fs, backend, uioPath, shmPath).Ok?
    ensures o.error.None? ==> o.fds == fds
    ensures o.error == Some(NoSuchFile(ReaderPath(backend, uioPath, shmPath))) ==> o.fds == fds
    ensures o.error == Some(TooSmall(ReaderPath(backend, uioPath, shmPath))) ==> o.fds == fds + 1
    ensures ReaderPath(backend, uioPath, shmPath) !in fs ==> o.error == Some(NoSuchFile(ReaderPath(backend, uioPath, shmPath)))
    ensures var path := ReaderPath(backend, uioPath, shmPath);
      path in fs && |fs[path]| < PAGE_SIZE ==> o.error == Some(TooSmall(path))
    ensures o.error.Some? ==> o.lines == [] && !o.interrupted
    ensures o.error.None? ==> (o.interrupted <==> stop.Some? && stop.value < Runs(count))
    ensures o.error.None? ==> |o.lines| == if o.interrupted then stop.value else Runs(count)
    ensures forall i :: 0 <= i < |o.lines| ==> o.lines[i] == LineOf(live(i))
  {
    o := PollTool(fs, backend, uioPath, shmPath, count, stop, live, LineOf, fds);
  }
}
