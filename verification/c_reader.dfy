/**
  The minimal C reader: map the page named on the command line (the device
  node by default) and read the three accelerometer floats and the airspeed
  twenty times. The offsets are its own `#define`s; floats stay as their
  little-endian words; `printf` and `usleep` are not modelled.
 */
module CReader {
  import opened Results
  import opened Registers
  import opened Bytes
  import opened Access
  import opened Backend
  import opened Polling
  import SensorReader

  const C_PAGE: nat := 4096
  const C_ACCEL_X: nat := 0x010
  const C_ACCEL_Y: nat := 0x014
  const C_ACCEL_Z: nat := 0x018
  const C_AIRSPEED: nat := 0x050
  const DEFAULT_PATH: string := "/dev/uio0"
  const ITERATIONS: nat := 20

  /** The program's private constants agree with the register layout. */
  lemma ConstantsAgreeWithLayout()
    ensures C_PAGE == PAGE_SIZE
    ensures C_ACCEL_X == Offset(AccelX) && C_ACCEL_Y == Offset(AccelY) && C_ACCEL_Z == Offset(AccelZ)
    ensures C_AIRSPEED == Offset(Airspeed)
  {
  }

  /** `r32`: the four bytes at a byte offset of the mapping. */
  function R32(p: Page, off: nat): (b: Bytes4)
    requires off + 4 <= C_PAGE
    ensures forall k :: 0 <= k < 4 ==> b[k] == p[off + k]
  {
    p[off..off + 4]
  }

  datatype CLine = CLine(ax: Bytes4, ay: Bytes4, az: Bytes4, v: Bytes4)

  function LineOf(p: Page): CLine {
    CLine(R32(p, C_ACCEL_X), R32(p, C_ACCEL_Y), R32(p, C_ACCEL_Z), R32(p, C_AIRSPEED))
  }

  /** The C reader and the MAVLink bridge read the same accelerometer and airspeed words. */
  lemma LineAgreesWithBridge(p: Page)
    ensures var s := SensorReader.DecodeSample(p);
      LineOf(p) == CLine(s.accel.0, s.accel.1, s.accel.2, s.airspeed)
  {
  }

  /** `argv[1]` when given, the device node otherwise; `argv[0]` is the program name. */
  function PathOf(argv: seq<string>): (path: string)
    ensures |argv| > 1 ==> path == argv[1]
    ensures |argv| <= 1 ==> path == DEFAULT_PATH
  {
    if |argv| > 1 then argv[1] else DEFAULT_PATH
  }

  /** How the process ends: a `return` from `main`, or a fatal signal. */
  datatype Exit = Exited(status: int) | Killed(signal: nat)

  /** The signal a load from a mapped page lying wholly past the end of the file raises. */
  const SIGBUS: nat := 7

  /**
    `main`. Exit status 1 when `open` fails (the path is missing) or when the
    kernel refuses the mapping (`refused`, for causes the file map cannot
    express). `mmap` does not check a regular file's size: an empty file is
    killed by SIGBUS at the first `r32`, and any other short file prints its
    twenty lines from the page zero-extended past its end. A full page
    prints what the mapping shows at each poll (`live`).
   */
  method Run(fs: Fs, argv: seq<string>, refused: bool, live: nat -> Page) returns (exit: Exit, lines: seq<CLine>)
    ensures exit == Exited(1) <==> PathOf(argv) !in fs || refused
    ensures exit.Killed? <==> PathOf(argv) in fs && !refused && |fs[PathOf(argv)]| == 0
    ensures exit.Killed? ==> exit.signal == SIGBUS
    ensures exit.Exited? ==> exit.status == 0 || exit.status == 1
    ensures exit != Exited(0) ==> lines == []
    ensures exit == Exited(0) ==> |lines| == ITERATIONS
    ensures exit == Exited(0) && |fs[PathOf(argv)]| >= C_PAGE ==>
      forall i :: 0 <= i < |lines| ==> lines[i] == LineOf(live(i))
    ensures exit == Exited(0) && |fs[PathOf(argv)]| < C_PAGE ==>
      forall i :: 0 <= i < |lines| ==> lines[i] == LineOf(Resize(fs[PathOf(argv)]))
  {
    var path := PathOf(argv);
    if path !in fs || refused {
      exit, lines := Exited(1), [];
    } else if |fs[path]| == 0 {
      exit, lines := Killed(SIGBUS), [];
    } else {
      var interrupted;
      if |fs[path]| < C_PAGE {
        var shown := Resize(fs[path]);
        lines, interrupted := Poll(ITERATIONS, None, (i: nat) => shown, LineOf);
      } else {
        lines, interrupted := Poll(ITERATIONS, None, live, LineOf);
      }
      exit := Exited(0);
    }
  }

  /** A file that ends before the accelerometer words prints nothing but zero words. */
  lemma TinyFilePrintsZeros(b: seq<Byte>)
    requires |b| <= C_ACCEL_X
    ensures LineOf(Resize(b)) == CLine([0, 0, 0, 0], [0, 0, 0, 0], [0, 0, 0, 0], [0, 0, 0, 0])
  {
    var p := Resize(b);
    assert R32(p, C_ACCEL_X) == [0, 0, 0, 0];
    assert R32(p, C_ACCEL_Y) == [0, 0, 0, 0];
    assert R32(p, C_ACCEL_Z) == [0, 0, 0, 0];
    assert R32(p, C_AIRSPEED) == [0, 0, 0, 0];
  }
}
