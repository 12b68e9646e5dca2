/**
  The polling loop the command-line readers share: open the page read-only,
  decode it `count` times, and release the mapping and the descriptor in a
  `finally`, whether the loop ran to the end or was interrupted. The page
  each iteration sees is a parameter (another process writes it), and so is
  the iteration, if any, at which an exception (Ctrl-C during the sleep, a
  closed stdout) ends the loop early. Sleeping and printing are not modelled.
 */
module Polling {
  import opened Results
  import opened Registers
  import opened Bytes
  import opened Backend

  /** The number of iterations `range(count)` performs. */
  function Runs(count: int): (n: nat)
    ensures count <= 0 ==> n == 0
    ensures count >= 0 ==> n == count
  {
    if count < 0 then 0 else count
  }

  /**
    The loop: iteration `i` decodes `live(i)`. An exception raised in
    iteration `stop` keeps that iteration's output from appearing.
   */
  method Poll<T>(count: int, stop: Option<nat>, live: nat -> Page, decode: Page -> T)
    returns (out: seq<T>, interrupted: bool)
    ensures interrupted <==> stop.Some? && stop.value < Runs(count)
    ensures |out| == if interrupted then stop.value else Runs(count)
    ensures forall i :: 0 <= i < |out| ==> out[i] == decode(live(i))
  {
    out := [];
    interrupted := false;
    var i := 0;
    while i < count
      invariant 0 <= i <= Runs(count)
      invariant |out| == i
      invariant forall k :: 0 <= k < i ==> out[k] == decode(live(k))
      invariant stop.Some? ==> i <= stop.value
    {
      if stop == Some(i) {
        interrupted := true;
        return;
      }
      out := out + [decode(live(i))];
      i := i + 1;
    }
  }

  /** What a polling tool leaves behind: its output, the open error if any, and the descriptors the process holds. */
  datatype Outcome<T> = Outcome(lines: seq<T>, error: Option<OpenError>, interrupted: bool, fds: nat)

  /**
    A whole polling tool. A missing path fails in `os.open` and takes no
    descriptor; a path too short for a page fails in `mmap`, which runs
    before the `try`, so the descriptor stays open. Once both succeeded the
    `finally` gives the descriptor back on every path out of the loop.
   */
  method PollTool<T>(fs: Fs, backend: string, uioPath: string, shmPath: string, count: int,
                     stop: Option<nat>, live: nat -> Page, decode: Page -> T, fds: nat)
    returns (o: Outcome<T>)
    ensures o.error.None? <==> ReaderOpenMap(fs, backend, uioPath, shmPath).Ok?
    ensures o.error.Some? ==> o.lines == [] && !o.interrupted
    ensures o.error.Some? && o.error.value.NoSuchFile? ==> o.fds == fds
    ensures o.error.Some? && !o.error.value.NoSuchFile? ==> o.fds == fds + 1
    ensures o.error.None? ==> o.fds == fds
    ensures ReaderPath(backend, uioPath, shmPath) !in fs ==> o.error == Some(NoSuchFile(ReaderPath(backend, uioPath, shmPath)))
    ensures var path := ReaderPath(backend, uioPath, shmPath);
      path in fs && |fs[path]| < PAGE_SIZE ==> o.error == Some(TooSmall(path))
    ensures o.error.None? ==> (o.interrupted <==> stop.Some? && stop.value < Runs(count))
    ensures o.error.None? ==> |o.lines| == if o.interrupted then stop.value else Runs(count)
    ensures forall i :: 0 <= i < |o.lines| ==> o.lines[i] == decode(live(i))
  {
    match ReaderOpenMap(fs, backend, uioPath, shmPath)
    case Err(e) =>
      var held := if e.NoSuchFile? then fds else fds + 1;
      o := Outcome([], Some(e), false, held);
    case Ok(_) =>
      var held := fds + 1;
      var lines, interrupted := Poll(count, stop, live, decode);
      held := held - 1;
      o := Outcome(lines, None, interrupted, held);
  }
}
