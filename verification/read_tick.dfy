/**
  `read_tick`: TICK_US polled `count` times from the selected backend.
 */
module ReadTick {
  import opened Results
  import opened Registers
  import opened Bytes
  import opened Access
  import opened Backend
  import opened Polling
  import SensorReader
  import Writer
  import Scenarios

  /** The printed value: TICK_US as a little-endian unsigned word. */
  function TickOf(p: Page): (t: U32)
    ensures EncodeU32(t) == Slot(p, TickUs)
  {
    EncodeDecodeU32(Load4(p, TickUs));
    LoadU32(p, TickUs)
  }

  /** The tool prints the timestamp the MAVLink bridge reads. */
  lemma TickAgreesWithBridge(p: Page)
    ensures TickOf(p) == SensorReader.DecodeSample(p).tick
  {
    DecodeEncodeU32(TickOf(p));
    DecodeEncodeU32(SensorReader.DecodeSample(p).tick);
  }

  /** Right after any writer tick, frozen or not, the tool prints that tick's time in microseconds. */
  lemma ShowsWriterClock(p: Page, t: real, z: Writer.Draws, m: Scenarios.Trig, codec: FloatCodec)
    ensures TickOf(Writer.Tick(p, t, z, m, codec)) == Writer.TickMicros(t)
  {
    Writer.TickStampsAndStaysInBlock(p, t, z, m, codec);
  }

  /** `main`: open read-only, map, print TICK_US `count` times, release in `finally`. */
  method Run(fs: Fs, backend: string, uioPath: string, shmPath: string, count: int,
             stop: Option<nat>, live: nat -> Page, fds: nat)
    returns (o: Outcome<U32>)
    ensures o.error.None? <==> ReaderOpenMap(fs, backend, uioPath, shmPath).Ok?
    ensures o.error.None? ==> o.fds == fds
    ensures o.error == Some(NoSuchFile(ReaderPath(backend, uioPath, shmPath))) ==> o.fds == fds
    ensures o.error == Some(TooSmall(ReaderPath(backend, uioPath, shmPath))) ==> o.fds == fds + 1
    ensures ReaderPath(backend, uioPath, shmPath) !in fs ==> o.error == Some(NoSuchFile(ReaderPath(backend, uioPath, shmPath)))
    ensures var path := ReaderPath(backend, uioPath, shmPath);
      path in fs && |fs[path]| < PAGE_SIZE ==> o.error == Some(TooSmall(path))
    ensures o.error.Some? ==> o.lines == [] && !o.interrupted
    ensures o.error.None? ==> (o.interrupted <==> stop.Some? && stop.value < Runs(count))
    ensures o.error.None? ==> |o.lines| == if o.interrupted then stop.value else Runs(count)
    ensures forall i :: 0 <= i < |o.lines| ==> o.lines[i] == TickOf(live(i))
  {
    o := PollTool(fs, backend, uioPath, shmPath, count, stop, live, TickOf, fds);
  }
}
