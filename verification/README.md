# datareadtel register page, modelled in Dafny

The system simulates a flight-sensor peripheral as one 4096-byte register
page. A writer process (`sim/sim_writer.py`) stamps a microsecond tick and
publishes a flight sample from one of two scenarios (`sim/scenarios.py`) into
fixed little-endian slots (`common/registers.py`). Several readers map the
same page read-only and decode it:

- the MAVLink bridge's `_SensorRegisterReader`;
- `tools/print_values.py` and `tools/read_tick.py`;
- the C example `examples/reader.c`.

A control word CTRL on the page lets `tools/ctrl.py` freeze the writer,
switch the scenario and turn noise on. A kernel module
(`kernel/uio_sim_sensor.c`) provides the page as a UIO device. It is
zero-filled, with the three header words written at load.

The model is functional. A page is a `seq<Byte>` of length 4096, and each
register is a `Field` with an offset and a width. The writer's loop body is
a pure transition `Writer.Tick` on pages, and each reader is a decoding
function of the page. Some inputs are parameters rather than computations:

- the IEEE-754 float encodings (`FloatCodec`);
- sine and cosine (`Trig`);
- the Gaussian deviates (`Draws`);
- wall-clock time;
- the page a reader sees on each poll (another process writes it).

Python's unbounded integers are kept unbounded. `& 0xffffffff` is
`Bytes.Mask32`, `int()` is truncation toward zero (`Writer.Trunc`), and
Python's float `%` is the floored remainder (`Scenarios.FMod`). The CTRL
bit operations follow Python's `|`, `&` and `~` on non-negative integers
(`Bits`). This lets the model show the one way `ctrl.py` can fail to write:
a set index above 32.

Modules follow the program's structure:

| module | what it models |
|---|---|
| `Registers` | `common/registers.py` |
| `Bytes` | the `<I` codec and the float slots |
| `Access` | `pack_*`, `rd_u32` and the read helpers |
| `Backend` | opening and mapping the device node or the shared-memory file |
| `Bits` and `CtrlTool` | `tools/ctrl.py` |
| `Scenarios` | `sim/scenarios.py` |
| `Writer` | `sim/sim_writer.py` |
| `SensorReader` | the bridge's reader class |
| `Polling`, `PrintValues`, `ReadTick`, `CReader` | the polling tools |
| `Kernel` | the UIO module |

Behaviour of the code worth stating explicitly:

- TICK_US is written before CTRL is read, so a frozen tick still advances
  TICK_US. Only the sample block stays as it was (`Writer.FrozenTickOnlyStamps`,
  `Writer.FrozenRunKeepsPage`).
- Noise perturbs nine fields: the three accelerations, the three rates,
  pressure, temperature and airspeed.
- The approach airspeed is not periodic in the loop length, because its
  `0.8 * sin(0.6 * t)` term is not. Only lat, lon, alt and the interpolated
  part of the airspeed repeat every 360 s (`Scenarios.ApproachPeriodic`).
- The writer loop does not catch per-tick failures. Only `KeyboardInterrupt`
  is caught, and it ends the loop.
- The Python readers hold their descriptor while `mmap` runs. When the
  mapping fails after `open` succeeded, the descriptor is never closed
  (`SensorReader.ShortFileLeaksDescriptor`, `Polling.PollTool`).
- The C reader does not check the file size. Python's `mmap` rejects a file
  shorter than a page, but the C reader maps it anyway. It prints zeros past
  the end of the file, or is killed by SIGBUS when the file is empty
  (`CReader.Run`).
- The kernel module registers its UIO device with a NULL parent, which the
  UIO core refuses, so the module as written never loads (see Findings).
  The rest of the model describes the module with a parent device.

## Model

| member | source | states |
|---|---|---|
| Registers.Width | common/registers.py:18-19 | the two GPS angles occupy eight bytes and every other register four |
| Registers.WidthFollowsEncoding | common/registers.py:18-19 | a slot is eight bytes wide exactly when it holds a double |
| Registers.Offset | common/registers.py:3-27 | every offset is a multiple of 4, and every slot, even an 8-byte one, ends inside the 4096-byte page |
| Registers.DeclaredIsComplete | common/registers.py:3-25 | the declaration table lists all 23 registers |
| Registers.DeclaredAscending | common/registers.py:3-25 | each register ends no later than the next declared register begins |
| Registers.NoOverlap | common/registers.py:3-25 | offsets strictly increase in declaration order, and an earlier register's bytes end at or before any later register's first byte |
| Registers.DistinctFieldsDisjoint | common/registers.py:3-25 | two different registers never share a byte |
| Registers.InertialRunContiguous | common/registers.py:7-17 | ACCEL, GYRO and MAG x/y/z, BARO_P and BARO_T are back-to-back 4-byte slots from 0x010 up to 0x03C |
| Registers.GpsSlots | common/registers.py:18-20 | GPS_LAT64 and GPS_LON64 are 8-byte slots, with GPS_LON64 = GPS_LAT64 + 8 and GPS_ALT = GPS_LON64 + 8 |
| Registers.SampleBlockBeforeSeed | common/registers.py:6-25 | the sample block ends at 0x05C, before RNG_SEED; CTRL = RNG_SEED + 4; every sample register lies after TICK_US and inside the block |
| Registers.SampleFieldsInDeclared | common/registers.py:7-23 | the sample fields are the declaration table's entries from ACCEL_X to BAT_I |
| Registers.SampleFieldsListed | common/registers.py:7-23 | a register is declared between TICK_US and RNG_SEED if and only if it is in the sample list, at its declared position |
| Registers.SampleBlockAscending | common/registers.py:7-23 | the slots of the sample block ascend without overlap |
| Registers.SampleSlotsInBlock | common/registers.py:7-23 | every sample slot lies inside [0x010, 0x05C) |
| Bytes.ZeroPage | kernel/uio_sim_sensor.c:19 | a freshly allocated page holds 0 in every byte |
| Bytes.Mask32 | sim/sim_writer.py:29 | `v & 0xffffffff` is the u32 congruent to `v` modulo 2^32, and the identity on values that already fit |
| Bytes.DecodeEncodeU32 | sim/sim_writer.py:29-32 | reading a `<I` word back after packing `v` gives `v` modulo 2^32 |
| Bytes.EncodeDecodeU32 | tools/print_values.py:22 | every four-byte pattern is the `<I` encoding of the word it decodes to, so the unsigned read loses nothing |
| Access.PackU32 | sim/sim_writer.py:29 | after `pack_u32` the register reads `v & 0xffffffff`, and only the register's four bytes may differ |
| Access.PackF32 | sim/sim_writer.py:30 | after `pack_f32` the register holds the single-precision encoding, and only its four bytes may differ |
| Access.PackF64 | sim/sim_writer.py:31 | after `pack_f64` the register holds the double-precision encoding, and only its eight bytes may differ |
| Access.PackThenLoad | sim/sim_writer.py:29-32 | `rd_u32` at a register just written by `pack_u32` returns the masked value, from the little-endian bytes of `v` |
| Access.LoadU32 | sim/sim_writer.py:32 | `rd_u32` decodes the register's four bytes as `<I`; see `Access.PackThenLoad` (a packed value reads back masked) and `Bytes.DecodeEncodeU32` / `Bytes.EncodeDecodeU32` (the two round trips) |
| Access.PackKeepsOtherFields | sim/sim_writer.py:29 | a pack into one register leaves every other register's bytes as they were |
| Access.ApplyStoresFrame | sim/sim_writer.py:81-87 | a byte that no store in a sequence of stores covers keeps its value |
| Access.ApplyStoresReadBack | sim/sim_writer.py:81-87 | when stores go to ascending, non-overlapping slots, each slot ends up holding exactly the bytes its store wrote |
| Backend.Resize | sim/sim_writer.py:14 | `ftruncate` to a page cuts a longer file and zero-extends a shorter one |
| Backend.EnsureShm | sim/sim_writer.py:12-15 | `ensure_shm` leaves the path present at exactly one page and every other file unchanged |
| Backend.MapExisting | sim/sim_writer.py:19-20 | opening without O_CREAT and mapping a page succeeds if and only if the path exists with at least a page; a missing path is `NoSuchFile` (from `os.open`), a present but short file is `TooSmall` (from `mmap`) |
| Backend.WriterOpenMap | sim/sim_writer.py:17-27 | "uio" maps the device read-write as it is, and succeeds if and only if it holds a page; "shm" creates and sizes the file first, and succeeds for any path in the model, which has no directories or permissions; any other backend name is rejected |
| Backend.ReaderOpenMap | tools/print_values.py:11-19 | the readers open the backend's path read-only and succeed if and only if it already holds a page; a missing path is `NoSuchFile` and a short file `TooSmall`; nothing is created |
| Bits.Set | tools/ctrl.py:31 | or-ing in `1 << k` adds 2^k exactly when bit k was clear |
| Bits.Clear | tools/ctrl.py:33 | and-ing with `~(1 << k)` subtracts 2^k exactly when bit k was set |
| Bits.SetTest | tools/ctrl.py:31 | after setting bit k, bit k is set and every other bit is unchanged |
| Bits.ClearTest | tools/ctrl.py:33 | after clearing bit k, bit k is clear and every other bit is unchanged |
| Bits.SetIdempotent | tools/ctrl.py:31 | setting a bit twice equals setting it once |
| Bits.SetThenClear | tools/ctrl.py:30-33 | clearing a bit just set gives the value with that bit clear, which is the original when the bit was clear before |
| Bits.SetWidth | tools/ctrl.py:31 | setting bit k of an n-bit value stays below 2^n if and only if k < n |
| CtrlTool.Update | tools/ctrl.py:30-35 | the new CTRL word is the set-then-clear result when it fits in 32 bits; otherwise the out-of-range value is the error |
| CtrlTool.Apply | tools/ctrl.py:30-33 | set bit `set - 1` when `set > 0`, then clear bit `clear - 1` when `clear > 0`; see `CtrlTool.ApplyBits` (every bit of the result is the intended one) and `CtrlTool.UpdateSucceedsIff` (when the result fits the pack) |
| CtrlTool.ApplyBits | tools/ctrl.py:30-33 | every bit of the result is the intended one: the cleared bit is 0, otherwise the set bit is 1, and every other bit is unchanged |
| CtrlTool.UpdateSucceedsIff | tools/ctrl.py:30-35 | the write-back happens if and only if no set index above 32 is left uncleared |
| CtrlTool.NoIndexNoChange | tools/ctrl.py:16-33 | with both indices 0 (the defaults) CTRL is written back unchanged |
| CtrlTool.SetAndClearSameBit | tools/ctrl.py:30-33 | set and clear of the same bit in one call leave it cleared, because set runs first |
| CtrlTool.SetTwice | tools/ctrl.py:31 | setting the same bit a second time gives the same word |
| CtrlTool.SetThenClearRestores | tools/ctrl.py:30-33 | setting a clear bit and then clearing it in a second call restores CTRL |
| CtrlTool.WideSetRefused | tools/ctrl.py:31-35 | a set index above 32 with no matching clear makes the `<I` pack fail, and nothing is written |
| CtrlTool.Run | tools/ctrl.py:20-36 | the tool fails with the open error on a missing or short file; on a full page it succeeds if and only if the update of CTRL fits the `<I` pack, and otherwise fails with that update's error; on success CTRL reads `before` and then `after` = the update of `before`, and only CTRL's four bytes of that one file change |
| Scenarios.MixBetween | sim/scenarios.py:47 | `a + (b - a) * s` with s in [0, 1] lies between a and b and equals them at the ends |
| Scenarios.FMod | sim/scenarios.py:44 | Python's `t % p` for p > 0 lies in [0, p), and `t` minus it is a whole multiple of p |
| Scenarios.Phase | sim/scenarios.py:44 | the loop phase lies in [0, 1) for every t |
| Scenarios.Clamp01 | sim/scenarios.py:46 | the fraction is clamped into [0, 1]: below 0 gives 0, above 1 gives 1, and values in range are kept |
| Scenarios.Lerp | sim/scenarios.py:45-47 | `lerp(a, b, s)` is a for s <= 0 and b for s >= 1, and always lies between a and b |
| Scenarios.PhasePeriodic | sim/scenarios.py:44 | the phase at t + 360 equals the phase at t |
| Scenarios.PhaseAtLoopStart | sim/scenarios.py:44 | the phase is 0 at every multiple of 360 s |
| Scenarios.ApproachPeriodic | sim/scenarios.py:44-54 | approach lat, lon and alt, and the airspeed without its sine term, repeat every 360 s |
| Scenarios.ApproachStartsAtStartPose | sim/scenarios.py:37-51 | every loop starts at 50.04 N, 8.35 E, 900 m |
| Scenarios.ApproachBounds | sim/scenarios.py:33-51 | the approach altitude stays in [116, 900], and lat and lon stay between the start pose and the field |
| Scenarios.ScenariosShareMagAndBattery | sim/scenarios.py:15-72 | both scenarios emit the magnetic field (25, 0, 40) and `bat_v = 12.3 - 0.0001 t` |
| Scenarios.Loiter | sim/scenarios.py:4-29 | the loiter sample; see `Scenarios.LoiterStaysOverBrasilia` and `Scenarios.ScenariosShareMagAndBattery` |
| Scenarios.LoiterStaysOverBrasilia | sim/scenarios.py:4-29 | with sine and cosine in [-1, 1], the loiter stays within 0.0001 degrees of -15.793889, -47.882778, at 1100 ± 2 m and 15 ± 2 m/s, with ACCEL_Z fixed at 9.81 |
| Scenarios.Approach | sim/scenarios.py:31-74 | the approach sample; see `Scenarios.ApproachPeriodic`, `Scenarios.ApproachStartsAtStartPose`, `Scenarios.ApproachBounds` and `Scenarios.ScenariosShareMagAndBattery` |
| Writer.Trunc | sim/sim_writer.py:49 | `int()` of a float truncates toward zero |
| Writer.InitHeader | sim/sim_writer.py:46-50 | after init MAGIC = 0x53554D31, VERSION = 0x00010000, STATUS = 1 and RNG_SEED = `int(now) & 0xffffffff`; no other byte past the header changes |
| Writer.TickMicros | sim/sim_writer.py:61 | TICK_US for elapsed time `t` is the whole number of microseconds in `t` while that fits 32 bits |
| Writer.TickMicrosWraps | sim/sim_writer.py:61 | TICK_US wraps around after 2^32 microseconds (about 71.6 minutes) |
| Writer.AddNoise | sim/sim_writer.py:72-78 | the noise step; see `Writer.NoiseMoves` (exactly the nine perturbed registers move, each by its deviation times its draw) and `Writer.NoiseSelection` (applied only when CTRL bit 2 is set) |
| Writer.Tick | sim/sim_writer.py:59-87 | one loop iteration; see `Writer.TickStampsAndStaysInBlock`, `Writer.FrozenTickOnlyStamps`, `Writer.RunningTickPublishes`, `Writer.RunningTickShows` and `SensorReader.ReadsWhatTickPublished` |
| Writer.Run | sim/sim_writer.py:57-89 | the loop as a chain of ticks; see `Writer.FrozenRunKeepsPage` |
| Writer.ClearedCtrlRunsLoiter | sim/sim_writer.py:64-72 | CTRL = 0 means running, loiter and no noise |
| Writer.Encode | sim/sim_writer.py:81-87 | each value is stored at its register's width: 8 bytes for the GPS angles, 4 otherwise |
| Writer.WriteOrder | sim/sim_writer.py:81-87 | a running tick writes the sample block in declaration order (ACCEL, GYRO, MAG, BARO_P, BARO_T, LAT, LON, ALT, AIRSPEED, BAT_V, BAT_I), each register with its own value at its width, into ascending, non-overlapping slots |
| Writer.StampKeepsCtrl | sim/sim_writer.py:61-63 | stamping TICK_US does not disturb the CTRL word read next |
| Writer.TickStampsAndStaysInBlock | sim/sim_writer.py:59-87 | every tick, frozen or not, leaves TICK_US = `int(t * 1e6) & 0xffffffff` and writes no byte outside TICK_US and the sample block |
| Writer.FrozenTickOnlyStamps | sim/sim_writer.py:61-66 | with CTRL bit 0 set, a tick changes no byte except TICK_US's, and CTRL reads as before |
| Writer.RunningTickPublishes | sim/sim_writer.py:63-87 | after a running tick, every sample register holds the encoding of its value in the sample that CTRL bits 1 and 2 select |
| Writer.RunningTickShows | sim/sim_writer.py:81-87 | after a running tick, every slot holds the bytes the tick's store wrote there |
| Writer.ScenarioSelection | sim/sim_writer.py:69 | CTRL bit 1 selects the approach when set and the loiter when clear; without bit 2 the scenario's sample is published unchanged |
| Writer.NoiseSelection | sim/sim_writer.py:72-78 | with bit 2 set, each of ax, ay, az, gx, gy, gz, press, tempc and airspeed moves by its standard deviation times its draw; every other value, and every value without bit 2, is the scenario's |
| Writer.NoiseMoves | sim/sim_writer.py:73-78 | the noise step moves a perturbed field by deviation × draw (0.02, 1.5, 0.1 or 0.2) and leaves the magnetic field, position, altitude and battery alone |
| Writer.FrozenRunKeepsPage | sim/sim_writer.py:57-66 | while CTRL holds the freeze bit, any number of ticks leave every byte but TICK_US unchanged, and TICK_US shows the latest tick's time |
| Writer.Period | sim/sim_writer.py:54 | the sleep period is positive, at most 1e6 s, and 1/rate for rates of at least 1e-6 Hz |
| Writer.InitMapped | sim/sim_writer.py:46-50 | writing the header through a mapping leaves that file carrying the header and the seed, at its old length; past the header words only RNG_SEED may change, so TICK_US, the sample block and a CTRL value set before start-up survive; no other file changes |
| Writer.HeaderOnlyKeepsCtrl | sim/sim_writer.py:46-50 | a file changed only in the header words and RNG_SEED reads the same CTRL as before |
| Writer.StoreIsPack | sim/sim_writer.py:81-87 | each store of a running tick's batch is exactly the loop's `pack_f64` (LAT, LON) or `pack_f32` call for that register |
| Writer.Start | sim/sim_writer.py:43-50 | "uio" succeeds if and only if the device holds a page, and otherwise fails with `NoSuchFile` for a missing device or `TooSmall` for a short one; "shm" succeeds for any path in the model, which has no directories or permissions; any other backend is rejected; afterwards the mapped file carries the header and the seed, a read-only opener of the same backend succeeds, only the header words and RNG_SEED of that file differ from the opened file, no other file changes, and a CTRL value already on a full page survives the restart |
| SensorReader.NewReader | scripts/gr_pluto_mavlink.py:58-63 | a new handle holds no descriptor and no mapping |
| SensorReader.Open | scripts/gr_pluto_mavlink.py:65-78 | `open` does nothing when already mapped; otherwise it succeeds if and only if the backend's path holds a page; the mapping is read-only; the handle records the descriptor and mapping only on success; a missing path reports `NoSuchFile` and a short file `TooSmall`, and the failed `mmap` still holds the descriptor |
| SensorReader.Close | scripts/gr_pluto_mavlink.py:80-86 | `close` returns the handle to the not-opened state and releases its descriptor, if any |
| SensorReader.OpenIsIdempotent | scripts/gr_pluto_mavlink.py:66-67 | a second `open` after a successful one changes nothing |
| SensorReader.CloseIsIdempotent | scripts/gr_pluto_mavlink.py:80-86 | closing twice is closing once |
| SensorReader.OpenThenCloseBalances | scripts/gr_pluto_mavlink.py:65-86 | a successful open followed by close restores the handle and the process's descriptor count |
| SensorReader.ShortFileLeaksDescriptor | scripts/gr_pluto_mavlink.py:75-78 | a present but short file makes `open` raise after `os.open` succeeded, so one descriptor stays held that the handle does not know about |
| SensorReader.ReadU32 | scripts/gr_pluto_mavlink.py:88-91 | `_read_u32` returns the word whose little-endian encoding is the register's four bytes |
| SensorReader.ReadF32 | scripts/gr_pluto_mavlink.py:93-96 | `_read_f32` consumes exactly the register's four bytes |
| SensorReader.ReadF64 | scripts/gr_pluto_mavlink.py:98-101 | `_read_f64` consumes exactly the register's eight bytes |
| SensorReader.DecodeSample | scripts/gr_pluto_mavlink.py:106-127 | TICK_US is decoded as a little-endian u32, and each other element comes from its own register |
| SensorReader.ReadSample | scripts/gr_pluto_mavlink.py:103-139 | `read_sample` raises "sensor not opened" exactly when the handle holds no mapping, and otherwise decodes the live page |
| SensorReader.DecodeSeesOnlyItsRegisters | scripts/gr_pluto_mavlink.py:106-127 | the decoded sample depends only on the bytes from TICK_US to the end of AIRSPEED |
| SensorReader.ReadsPublishedVectors | scripts/gr_pluto_mavlink.py:107-121 | after a running tick, the accelerometer, gyro and magnetometer read back as the encodings of the published values |
| SensorReader.ReadsPublishedAirData | scripts/gr_pluto_mavlink.py:122-127 | after a running tick, pressure, temperature, position and airspeed read back as the encodings of the published values |
| SensorReader.ReadsWhatTickPublished | sim/sim_writer.py:61-87 | after a running tick the bridge reads the tick's timestamp and, register by register, the encodings of the published sample |
| SensorReader.FrozenTickReadsOldSample | sim/sim_writer.py:61-66 | after a frozen tick the bridge reads the new timestamp next to the previous sample |
| Polling.Runs | tools/print_values.py:36 | `range(count)` runs `count` times, and never for a negative count |
| Polling.Poll | tools/print_values.py:36-41 | the loop decodes the live page once per iteration, exactly `count` times unless an exception ends it early, keeping the lines printed before it |
| Polling.PollTool | tools/print_values.py:34-43 | the tool fails if and only if the read-only open fails, reporting `NoSuchFile` for a missing path and `TooSmall` for a short file; after a successful open the `finally` returns the descriptor on every path; a failed `mmap` keeps it |
| PrintValues.LineOf | tools/print_values.py:37-39 | a line holds TICK_US as an unsigned word and ax, gz, airspeed, lat, lon and alt from their own registers |
| PrintValues.LineAgreesWithBridge | tools/print_values.py:37-39 | the tool and the bridge read the same values from a page |
| PrintValues.Run | tools/print_values.py:34-43 | after a successful open, exactly `count` lines (none for a negative count), one per poll from the live page, unless Ctrl-C arrives before that many, which leaves exactly the lines printed so far; the descriptor is released on every exit after a successful open; a failed open prints nothing, reporting `NoSuchFile` for a missing path and `TooSmall` for a short file |
| ReadTick.TickOf | tools/read_tick.py:22-23 | a poll decodes exactly the four little-endian bytes at TICK_US as an unsigned value |
| ReadTick.TickAgreesWithBridge | tools/read_tick.py:22-23 | the tool prints the timestamp the bridge reads |
| ReadTick.ShowsWriterClock | sim/sim_writer.py:61 | right after any writer tick, frozen or not, the tool prints that tick's `int(t * 1e6) & 0xffffffff` |
| ReadTick.Run | tools/read_tick.py:14-27 | read-only open of the selected backend, then exactly `count` polls of TICK_US (none for a negative count) unless Ctrl-C arrives before that many, which leaves exactly the values printed so far; the descriptor is released in `finally`; a failed open prints nothing, reporting `NoSuchFile` for a missing path and `TooSmall` for a short file |
| Kernel.DevicePage | kernel/uio_sim_sensor.c:19-25 | the device page carries the three header words and is zero everywhere past them |
| Kernel.SimInit | kernel/uio_sim_sensor.c:18-44 | with registration given a parent device, load returns 0 with the page held and the device registered; -ENOMEM with nothing done; or -ENODEV with the page freed again |
| Kernel.SimInitAsWritten | kernel/uio_sim_sensor.c:36-39 | registering with a NULL parent is always refused, so load never returns 0: after a successful allocation it returns -ENODEV holding nothing |
| Kernel.NullParentNeverLoads | kernel/uio_sim_sensor.c:36-39 | with allocation and registration otherwise succeeding, the module as written returns -ENODEV, while the same load with a parent device returns 0 |
| Kernel.SimExit | kernel/uio_sim_sensor.c:46-50 | unload unregisters before freeing and leaves nothing held |
| Kernel.LoadUnloadBalanced | kernel/uio_sim_sensor.c:18-50 | a successful load followed by an unload frees exactly what was allocated |
| Kernel.MmioIsOnePage | kernel/uio_sim_sensor.c:9 | MMIO_SIZE equals PAGE_SIZE |
| Kernel.DeviceHeaderIsWritersHeader | kernel/uio_sim_sensor.c:23-25 | the module's header bytes are exactly those on any page the Python writer has initialised |
| Kernel.DeviceStartsRunningLoiter | kernel/uio_sim_sensor.c:19 | on the fresh device TICK_US and CTRL are 0, so a writer starts running the loiter without noise |
| Kernel.LoadedDeviceOpens | kernel/uio_sim_sensor.c:32-40 | once loaded, a read-only opener of the device node finds a full page |
| CReader.ConstantsAgreeWithLayout | examples/reader.c:12-16 | PAGE, ACCEL_X/Y/Z and AIRSPEED in the C reader agree with the register table |
| CReader.R32 | examples/reader.c:18-20 | `r32` reads the four bytes at its offset, always inside the mapped page |
| CReader.LineAgreesWithBridge | examples/reader.c:33-36 | the C reader reads the same accelerometer and airspeed bytes as the bridge |
| CReader.PathOf | examples/reader.c:23-24 | `argv[1]` when given, `/dev/uio0` otherwise |
| CReader.Run | examples/reader.c:22-44 | exit status 1 exactly when the path is missing (`open` fails) or the kernel refuses the mapping; `mmap` does not check a regular file's size, so an empty file is killed by SIGBUS at the first `r32` with no line printed, and any other file gives exactly 20 lines and status 0: from the live page for a full page, from the zero-extended file for a short one |
| CReader.TinyFilePrintsZeros | examples/reader.c:29-36 | a file that ends before ACCEL_X prints only zero words |

## Left out

- IEEE-754 single and double encoding and decoding: float slots are opaque 4- and 8-byte patterns, and the codec is a parameter.
- `math.sin` and `math.cos`: parameters (`Scenarios.Trig`), because floating-point numerics are not modelled. The scenarios are computed over exact reals.
- `random.seed` and `random.gauss`: the deviates of each tick are an input (`Writer.Draws`). The generator's state and its seeding from RNG_SEED are not modelled; only the seed value written to the page is.
- Wall-clock time and `time.sleep`: elapsed time is an input to each tick, and the period is only bounded (`Writer.Period`).
- Writer.Period: states the bounds of the sleep period but does not model the sleep itself.
- Writer.TickMicros / Writer.Period: the product `t * 1e6` and the quotient `1.0 / rate` are exact, not rounded to double, so TICK_US can differ by one microsecond. For example, when `t` is the double nearest 1e-6 (just below it), Python's product rounds to 1.0 and gives 1, while the exact product truncates to 0.
- Polling.PollTool: `interrupted` means "fewer than `count` lines", not "KeyboardInterrupt was raised". A Ctrl-C during the last poll's sleep (`stop == Some(count)`) still ends the Python tool through the exception, but is reported here as an uninterrupted run of `count` lines.
- Outside writes between ticks: `Writer.Run` chains ticks with no other process writing CTRL in between. A `ctrl.py` run between ticks is modelled separately (`CtrlTool.Run`).
- System calls are modelled only by their outcome on a map from paths to file contents. This covers `os.open`, `mmap`, `ftruncate`, `flush`, `munmap` and `close`. O_SYNC and MAP_SHARED visibility are not modelled.
- Directories and permissions: the file map has neither. So the writer's O_CREAT open of the shared-memory file (a missing directory, no write permission) and the readers' O_RDONLY open (no read permission) never fail for those reasons. This is why `Backend.WriterOpenMap` and `Writer.Start` always succeed on "shm".
- Concurrency and torn reads: a reader sees a whole page per poll, supplied as a parameter.
- Scenarios.Value: the header words, RNG_SEED and CTRL carry no sample value and read as 0.
- SensorReader.DecodeSample: float registers stay as their raw bytes, and the `SensorSample` field names, units and types of the bridge are not reproduced.
- CReader.Run: does not model the descriptor that stays open when `mmap` fails after `open`, because the process exits anyway. Why the kernel refuses a mapping (a directory, a device without a map) is an input, `refused`. A short file is taken to keep its contents while the reader polls. Native float reads are taken as the raw little-endian words.
- Kernel.DevicePage: assumes a little-endian target for the native `u32` stores.
- `printf` and `print` output formatting, argparse and the `--interval` sleep of the tools.
- The UIO interrupt handler, `sim_uio` name and version fields, and `pr_info`/`pr_err` logging.
- The rest of `scripts/gr_pluto_mavlink.py`: the `SensorMavlinkSource` thread, MAVLink encoding, and the Pluto sink. These are concurrency and external libraries.
- `tch.py`, `tcj.py` (GUI flowgraphs) and `common/__init__.py` (a re-export with no behaviour).

## Findings

| source | as written | input that shows it | evidently intended | confidence | as-written member | corrected member |
|---|---|---|---|---|---|---|
| kernel/uio_sim_sensor.c:36 | `uio_register_device(NULL, &sim_uio)`: the Linux UIO core (`__uio_register_device` in drivers/uio/uio.c) refuses a NULL parent with -EINVAL | allocation succeeds and registration would otherwise succeed: `sim_init` still returns -ENODEV, and /dev/uio0 never appears | register with a parent device (a platform device, for instance), so that a successful load returns 0 and exposes the page | high; not executed | Kernel.SimInitAsWritten, Kernel.NullParentNeverLoads | Kernel.SimInit, Kernel.LoadUnloadBalanced |
