/**
  Opening and mapping the register block. The file system is a map from path
  to file contents; the device node and the shared-memory file are both
  entries in it. Opening without O_CREAT fails on a missing path, and mapping
  PAGE_SIZE bytes fails on a file shorter than a page.
 */
module Backend {
  import opened Results
  import opened Registers
  import opened Bytes

  datatype Prot = ReadOnly | ReadWrite

  type Fs = map<string, seq<Byte>>

  /** A live mapping of the first PAGE_SIZE bytes of `path`. */
  datatype Mapping = Mapping(path: string, prot: Prot)

  /**
    Why opening failed. `NoSuchFile` is raised by `os.open`, before any
    descriptor exists; `TooSmall` is raised by `mmap` after `os.open`
    succeeded; `UnknownBackend` is the writer's `SystemExit`.
   */
  datatype OpenError = NoSuchFile(path: string) | TooSmall(path: string) | UnknownBackend(name: string)

  /** `ftruncate(fd, PAGE_SIZE)`: cut a longer file, zero-extend a shorter one. */
  function Resize(b: seq<Byte>): (r: seq<Byte>)
    ensures |r| == PAGE_SIZE
    ensures forall k :: 0 <= k < PAGE_SIZE ==> r[k] == (if k < |b| then b[k] else 0)
  {
    if |b| >= PAGE_SIZE then b[..PAGE_SIZE] else b + seq(PAGE_SIZE - |b|, _ => 0)
  }

  /** `ensure_shm`: open with O_CREAT (an absent file starts empty), then resize to one page. */
  function EnsureShm(fs: Fs, path: string): (r: Fs)
    ensures path in r && |r[path]| == PAGE_SIZE
    ensures r.Keys == fs.Keys + {path}
    ensures forall q :: q in fs && q != path ==> r[q] == fs[q]
  {
    fs[path := Resize(if path in fs then fs[path] else [])]
  }

  /** `os.open` without O_CREAT followed by `mmap(fd, PAGE_SIZE, ..., prot)`. */
  function MapExisting(fs: Fs, path: string, prot: Prot): (r: Result<Mapping, OpenError>)
    ensures r.Ok? <==> path in fs && |fs[path]| >= PAGE_SIZE
    ensures r.Ok? ==> r.value == Mapping(path, prot)
    ensures r.Err? ==> (r.error == NoSuchFile(path) <==> path !in fs)
    ensures r.Err? && path in fs ==> r.error == TooSmall(path)
  {
    if path !in fs then Err(NoSuchFile(path))
    else if |fs[path]| < PAGE_SIZE then Err(TooSmall(path))
    else Ok(Mapping(path, prot))
  }

  /** The page a mapping shows. */
  function View(fs: Fs, m: Mapping): Page
    requires m.path in fs && |fs[m.path]| >= PAGE_SIZE
  {
    fs[m.path][..PAGE_SIZE]
  }

  /** Writing a whole page through a mapping: the file's first PAGE_SIZE bytes become `page`, the rest stay. */
  function WritePage(b: seq<Byte>, page: Page): (r: seq<Byte>)
    requires |b| >= PAGE_SIZE
    ensures |r| == |b| && r[..PAGE_SIZE] == page
    ensures r[PAGE_SIZE..] == b[PAGE_SIZE..]
  {
    page + b[PAGE_SIZE..]
  }

  /**
    The writer's `open_map`: the device is opened read-write as it is; the
    shared-memory file is created and sized first; any other backend name
    is rejected.
   */
  function WriterOpenMap(fs: Fs, backend: string, uioPath: string, shmPath: string): (r: Result<(Fs, Mapping), OpenError>)
    ensures r.Ok? ==> r.value.1.prot == ReadWrite && r.value.1.path in r.value.0 && |r.value.0[r.value.1.path]| >= PAGE_SIZE
    ensures backend == "uio" ==> (r.Ok? <==> uioPath in fs && |fs[uioPath]| >= PAGE_SIZE)
    ensures backend == "uio" && r.Ok? ==> r.value.0 == fs && r.value.1.path == uioPath
    ensures backend == "shm" ==> r.Ok? && r.value.1.path == shmPath && r.value.0 == EnsureShm(fs, shmPath)
    ensures backend != "uio" && backend != "shm" ==> r == Err(UnknownBackend(backend))
  {
    if backend == "uio" then
      match MapExisting(fs, uioPath, ReadWrite)
      case Ok(m) => Ok((fs, m))
      case Err(e) => Err(e)
    else if backend == "shm" then
      var fs' := EnsureShm(fs, shmPath);
      Ok((fs', Mapping(shmPath, ReadWrite)))
    else
      Err(UnknownBackend(backend))
  }

  /** The path the readers open: the device for "uio", the shared-memory file otherwise. */
  function ReaderPath(backend: string, uioPath: string, shmPath: string): string {
    if backend == "uio" then uioPath else shmPath
  }

  /**
    The readers' `open_map`: O_RDONLY and PROT_READ for both backends. It
    never creates or resizes anything: it succeeds only on a path that
    already holds at least a page, and it hands back no new file system.
   */
  function ReaderOpenMap(fs: Fs, backend: string, uioPath: string, shmPath: string): (r: Result<Mapping, OpenError>)
    ensures r.Ok? <==> ReaderPath(backend, uioPath, shmPath) in fs && |fs[ReaderPath(backend, uioPath, shmPath)]| >= PAGE_SIZE
    ensures r.Ok? ==> r.value.prot == ReadOnly && r.value.path == ReaderPath(backend, uioPath, shmPath)
    ensures ReaderPath(backend, uioPath, shmPath) !in fs ==> r == Err(NoSuchFile(ReaderPath(backend, uioPath, shmPath)))
    ensures var path := ReaderPath(backend, uioPath, shmPath);
      path in fs && |fs[path]| < PAGE_SIZE ==> r == Err(TooSmall(path))
  {
    MapExisting(fs, ReaderPath(backend, uioPath, shmPath), ReadOnly)
  }
}
