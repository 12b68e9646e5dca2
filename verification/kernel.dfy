/**
  The kernel module that backs the device node: on load it allocates one
  zero-filled page, writes the three header words (native byte order,
  little-endian on the targets the system runs on) and registers the UIO
  device; on unload it unregisters and frees. Allocation and registration
  outcomes are parameters. The effects are recorded in order so that the
  pairing of allocation and free can be stated.
 */
module Kernel {
  import opened Results
  import opened Registers
  import opened Bytes
  import opened Access
  import opened Backend
  import Writer

  const MMIO_SIZE: nat := 4096
  const ENOMEM: int := 12
  const ENODEV: int := 19

  datatype Event = Allocated | Registered | Unregistered | Freed

  /** The module's state: the register page it owns, and whether the device is registered. */
  datatype Module = Module(mmio: Option<Page>, registered: bool) {
    /** A registered device always has its page behind it. */
    predicate Valid() {
      registered ==> mmio.Some?
    }
  }

  const Unloaded: Module := Module(None, false)

  datatype Loaded = Loaded(ret: int, state: Module, trace: seq<Event>)

  /** Number of allocations minus number of frees in a trace. */
  function Held(trace: seq<Event>): int {
    if |trace| == 0 then 0
    else Held(trace[..|trace| - 1]) + (match trace[|trace| - 1] case Allocated => 1 case Freed => -1 case _ => 0)
  }

  /** The page as the device exposes it right after loading. */
  function DevicePage(): (p: Page)
    ensures LoadU32(p, Magic) == Writer.MAGIC_VALUE
    ensures LoadU32(p, Version) == Writer.VERSION_VALUE
    ensures LoadU32(p, Status) == Writer.STATUS_OK
    ensures forall k :: 12 <= k < PAGE_SIZE ==> p[k] == 0
  {
    var p0 := ZeroPage();
    var p1 := PackU32(p0, Magic, Writer.MAGIC_VALUE);
    var p2 := PackU32(p1, Version, Writer.VERSION_VALUE);
    var p3 := PackU32(p2, Status, Writer.STATUS_OK);
    PackKeepsOtherFields(p1, Version, Magic, Writer.VERSION_VALUE);
    PackKeepsOtherFields(p2, Status, Magic, Writer.STATUS_OK);
    PackKeepsOtherFields(p2, Status, Version, Writer.STATUS_OK);
    ZeroTail(p0, p1, p2, p3);
    p3
  }

  lemma ZeroTail(p0: Page, p1: Page, p2: Page, p3: Page)
    requires p0 == ZeroPage()
    requires OnlyChanged(p0, p1, Magic, 4) && OnlyChanged(p1, p2, Version, 4) && OnlyChanged(p2, p3, Status, 4)
    ensures forall k :: 12 <= k < PAGE_SIZE ==> p3[k] == 0
  {
    forall k | 12 <= k < PAGE_SIZE
      ensures p3[k] == 0
    {
      assert p1[k] == p0[k];
      assert p2[k] == p1[k];
    }
  }

  /**
    `sim_init` with registration given a parent device (the intended
    behaviour; see `SimInitAsWritten`): 0 with the page owned and the device
    registered; -ENOMEM when the allocation fails, with nothing done;
    -ENODEV when registration fails, with the page freed again.
   */
  function SimInit(allocOk: bool, registerOk: bool): (r: Loaded)
    ensures r.state.Valid()
    ensures r.ret == 0 <==> allocOk && registerOk
    ensures r.ret == 0 ==> r.state == Module(Some(DevicePage()), true)
    ensures !allocOk ==> r.ret == -ENOMEM && r.state == Unloaded && r.trace == []
    ensures allocOk && !registerOk ==> r.ret == -ENODEV && r.state == Unloaded
    ensures Held(r.trace) == if r.state.mmio.Some? then 1 else 0
  {
    if !allocOk then Loaded(-ENOMEM, Unloaded, [])
    else if !registerOk then
      assert Held([Allocated, Freed]) == Held([Allocated]) - 1;
      Loaded(-ENODEV, Unloaded, [Allocated, Freed])
    else
      assert Held([Allocated, Registered]) == Held([Allocated]);
      Loaded(0, Module(Some(DevicePage()), true), [Allocated, Registered])
  }

  /**
    `uio_register_device(parent, info)` as the Linux UIO core implements it
    (`__uio_register_device` in drivers/uio/uio.c): a missing parent device
    is refused with -EINVAL before anything else is looked at; with a parent
    the outcome is `ok`.
   */
  function UioRegister(hasParent: bool, ok: bool): bool {
    hasParent && ok
  }

  /**
    `sim_init` as written: it registers with a NULL parent, so the UIO core
    always refuses and the module never loads. Allocation succeeding ends in
    -ENODEV with the page freed again.
   */
  function SimInitAsWritten(allocOk: bool, registerOk: bool): (r: Loaded)
    ensures r.ret != 0 && r.state == Unloaded
    ensures allocOk ==> r.ret == -ENODEV && Held(r.trace) == 0
  {
    SimInit(allocOk, UioRegister(false, registerOk))
  }

  /** Even when allocation and every other check of registration would succeed, loading fails. */
  lemma NullParentNeverLoads()
    ensures SimInitAsWritten(true, true).ret == -ENODEV
    ensures SimInit(true, UioRegister(true, true)).ret == 0
  {
  }

  /** `sim_exit`: unregister, then free; the module is left holding nothing. */
  function SimExit(m: Module): (r: Loaded)
    ensures r.ret == 0 && r.state == Unloaded
    ensures r.trace == [Unregistered, Freed]
    ensures Held(r.trace) == -1
  {
    assert Held([Unregistered, Freed]) == Held([Unregistered]) - 1;
    Loaded(0, Unloaded, [Unregistered, Freed])
  }

  /** Appending traces adds their balances. */
  lemma {:induction false} HeldAppend(a: seq<Event>, b: seq<Event>)
    ensures Held(a + b) == Held(a) + Held(b)
    decreases |b|
  {
    if |b| > 0 {
      var b' := b[..|b| - 1];
      assert (a + b)[..|a + b| - 1] == a + b';
      HeldAppend(a, b');
    } else {
      assert a + b == a;
    }
  }

  /** Loading successfully and unloading again frees exactly what was allocated. */
  lemma LoadUnloadBalanced()
    ensures var i := SimInit(true, true); var e := SimExit(i.state);
      Held(i.trace + e.trace) == 0 && e.state == Unloaded
  {
    var i := SimInit(true, true);
    HeldAppend(i.trace, SimExit(i.state).trace);
  }

  /** The device's block is exactly one register page. */
  lemma MmioIsOnePage()
    ensures MMIO_SIZE == PAGE_SIZE
  {
  }

  /** The device's header words are byte for byte the ones on any page the writer has initialised. */
  lemma DeviceHeaderIsWritersHeader(w: Page, seed: U32)
    requires Writer.Initialised(w, seed)
    ensures DevicePage()[0..12] == w[0..12]
  {
    var d := DevicePage();
    SameWord(d, w, Magic);
    SameWord(d, w, Version);
    SameWord(d, w, Status);
    SameHeader(d, w);
  }

  /**
    Past the header the device page starts at zero: TICK_US 0 and CTRL 0,
    which a writer tick reads as running, loiter scenario, no noise.
   */
  lemma DeviceStartsRunningLoiter()
    ensures LoadU32(DevicePage(), TickUs) == 0 && LoadU32(DevicePage(), Ctrl) == 0
    ensures !Writer.Frozen(LoadU32(DevicePage(), Ctrl))
    ensures !Writer.ApproachSelected(LoadU32(DevicePage(), Ctrl))
    ensures !Writer.NoiseEnabled(LoadU32(DevicePage(), Ctrl))
  {
    ZeroTailRunsLoiter(DevicePage());
  }

  /** A page zero past the header has TICK_US and CTRL both 0. */
  lemma ZeroTailRunsLoiter(d: Page)
    requires forall k :: 12 <= k < PAGE_SIZE ==> d[k] == 0
    ensures LoadU32(d, TickUs) == 0 && LoadU32(d, Ctrl) == 0
    ensures !Writer.Frozen(LoadU32(d, Ctrl))
    ensures !Writer.ApproachSelected(LoadU32(d, Ctrl))
    ensures !Writer.NoiseEnabled(LoadU32(d, Ctrl))
  {
    ZeroWord(d, TickUs);
    ZeroWord(d, Ctrl);
    Writer.ClearedCtrlRunsLoiter();
  }

  /** Equal unsigned reads mean equal bytes. */
  lemma SameWord(d: Page, w: Page, f: Field)
    requires LoadU32(d, f) == LoadU32(w, f)
    ensures Load4(d, f) == Load4(w, f)
  {
    EncodeDecodeU32(Load4(d, f));
    EncodeDecodeU32(Load4(w, f));
  }

  lemma SameHeader(d: Page, w: Page)
    requires Load4(d, Magic) == Load4(w, Magic)
    requires Load4(d, Version) == Load4(w, Version)
    requires Load4(d, Status) == Load4(w, Status)
    ensures d[0..12] == w[0..12]
  {
    forall k | 0 <= k < 12
      ensures d[k] == w[k]
    {
      if k < 4 {
        assert d[k] == Load4(d, Magic)[k] && w[k] == Load4(w, Magic)[k];
      } else if k < 8 {
        assert d[k] == Load4(d, Version)[k - 4] && w[k] == Load4(w, Version)[k - 4];
      } else {
        assert d[k] == Load4(d, Status)[k - 8] && w[k] == Load4(w, Status)[k - 8];
      }
    }
  }

  /** A word lying in the zeroed part of the page reads as 0. */
  lemma ZeroWord(d: Page, f: Field)
    requires 12 <= Offset(f)
    requires forall k :: 12 <= k < PAGE_SIZE ==> d[k] == 0
    ensures LoadU32(d, f) == 0
  {
    assert Load4(d, f) == [0, 0, 0, 0];
  }

  /** Once the module is loaded, a read-only opener of the device node finds a full page. */
  lemma LoadedDeviceOpens(fs: Fs, uioPath: string, shmPath: string)
    ensures var i := SimInit(true, true);
      ReaderOpenMap(fs[uioPath := i.state.mmio.value], "uio", uioPath, shmPath) == Ok(Mapping(uioPath, ReadOnly))
  {
  }
}
