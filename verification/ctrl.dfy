/**
  The control tool: read CTRL, set one bit and/or clear one bit (1-based
  indices, set before clear, 0 meaning "none"), write the word back. The
  arithmetic is on unbounded integers, so a set index above 32 produces a
  value the `<I` pack refuses, and nothing is written.
 */
module CtrlTool {
  import opened Results
  import opened Registers
  import opened Bytes
  import opened Access
  import opened Bits
  import opened Backend

  datatype CtrlError = OpenFailed(cause: OpenError) | PackOutOfRange(value: nat)

  /** The CTRL value before and after, and the file system after the write-back. */
  datatype Report = Report(before: U32, after: U32, fs: Fs)

  lemma Pow2Is32()
    ensures Pow2(32) == U32_MOD
  {
    Pow2Add(16, 16);
    assert Pow2(16) == 0x1_0000 by {
      Pow2Add(8, 8);
      assert Pow2(8) == 0x100;
    }
  }

  /** The bit arithmetic of the tool: set first (index > 0), then clear (index > 0). */
  function Apply(ctrl: nat, setIdx: int, clearIdx: int): nat {
    var v := if setIdx > 0 then Set(ctrl, setIdx - 1) else ctrl;
    if clearIdx > 0 then Clear(v, clearIdx - 1) else v
  }

  /** The new CTRL value, or the out-of-range value the `<I` pack rejects. */
  function Update(ctrl: U32, setIdx: int, clearIdx: int): (r: Result<U32, CtrlError>)
    ensures r.Ok? ==> r.value == Apply(ctrl, setIdx, clearIdx)
    ensures r.Err? ==> r.error == PackOutOfRange(Apply(ctrl, setIdx, clearIdx)) && Apply(ctrl, setIdx, clearIdx) >= U32_MOD
  {
    var v := Apply(ctrl, setIdx, clearIdx);
    if v < U32_MOD then Ok(v) else Err(PackOutOfRange(v))
  }

  /** What bit `j` of CTRL is meant to be after the tool: clear wins, then set, otherwise unchanged. */
  predicate Intended(ctrl: nat, setIdx: int, clearIdx: int, j: nat) {
    if clearIdx > 0 && j == clearIdx - 1 then false
    else if setIdx > 0 && j == setIdx - 1 then true
    else Test(ctrl, j)
  }

  /** Every bit of the result is the intended one; untargeted bits never change. */
  lemma ApplyBits(ctrl: nat, setIdx: int, clearIdx: int, j: nat)
    ensures Test(Apply(ctrl, setIdx, clearIdx), j) == Intended(ctrl, setIdx, clearIdx, j)
  {
    var v := if setIdx > 0 then Set(ctrl, setIdx - 1) else ctrl;
    if setIdx > 0 {
      SetTest(ctrl, setIdx - 1, j);
    }
    if clearIdx > 0 {
      ClearTest(v, clearIdx - 1, j);
    }
  }

  /**
    The write-back succeeds exactly when the value still fits 32 bits: it
    fails precisely when a bit above 31 is set and not cleared again.
   */
  lemma UpdateSucceedsIff(ctrl: U32, setIdx: int, clearIdx: int)
    ensures Update(ctrl, setIdx, clearIdx).Ok? <==> !(setIdx > 32 && clearIdx != setIdx)
  {
    Pow2Is32();
    var v := if setIdx > 0 then Set(ctrl, setIdx - 1) else ctrl;
    var w := Apply(ctrl, setIdx, clearIdx);
    if setIdx <= 0 {
    } else if setIdx <= 32 {
      SetWidth(ctrl, setIdx - 1, 32);
    } else {
      var k := setIdx - 1;
      Pow2Monotone(32, k);
      TestBound(ctrl, k);
      SetTest(ctrl, k, k);
      if clearIdx == setIdx {
        assert w == ctrl;
      } else {
        ApplyBits(ctrl, setIdx, clearIdx, k);
        TestBound(w, k);
      }
    }
  }

  /** Index 0 (the default) for both leaves CTRL as it was. */
  lemma NoIndexNoChange(ctrl: U32)
    ensures Update(ctrl, 0, 0) == Ok(ctrl)
  {
  }

  /** Set and clear of the same bit in one call leave that bit cleared and everything else alone. */
  lemma SetAndClearSameBit(ctrl: U32, n: int)
    requires n > 0
    ensures Update(ctrl, n, n) == Ok(Clear(ctrl, n - 1))
  {
    SetThenClear(ctrl, n - 1);
  }

  /** Setting the same bit a second time gives the value the first set gave. */
  lemma SetTwice(ctrl: U32, n: int)
    requires 0 < n <= 32
    ensures Update(ctrl, n, 0).Ok?
    ensures Update(Update(ctrl, n, 0).value, n, 0) == Update(ctrl, n, 0)
  {
    UpdateSucceedsIff(ctrl, n, 0);
    SetIdempotent(ctrl, n - 1);
  }

  /** Setting a clear bit and then clearing it in a second call restores CTRL. */
  lemma SetThenClearRestores(ctrl: U32, n: int)
    requires 0 < n <= 32
    requires !Test(ctrl, n - 1)
    ensures Update(ctrl, n, 0).Ok?
    ensures Update(Update(ctrl, n, 0).value, 0, n) == Ok(ctrl)
  {
    UpdateSucceedsIff(ctrl, n, 0);
    SetThenClear(ctrl, n - 1);
  }

  /** A set index above 32 with no matching clear is refused by the pack. */
  lemma WideSetRefused(ctrl: U32, n: int, clearIdx: int)
    requires n > 32 && clearIdx != n
    ensures Update(ctrl, n, clearIdx).Err?
  {
    UpdateSucceedsIff(ctrl, n, clearIdx);
  }

  /**
    The whole tool: open the selected backend read-write (never creating it),
    read CTRL, update it and write the four bytes back into the mapped file.
    It fails on a missing or short file, and when the updated value does not
    fit the `<I` pack; otherwise it succeeds.
   */
  function Run(fs: Fs, backend: string, uioPath: string, shmPath: string, setIdx: int, clearIdx: int): (r: Result<Report, CtrlError>)
    ensures r.Ok? ==> var path := ReaderPath(backend, uioPath, shmPath);
      && path in fs && |fs[path]| >= PAGE_SIZE
      && r.value.fs.Keys == fs.Keys
      && r.value.before == LoadU32(View(fs, Mapping(path, ReadWrite)), Ctrl)
      && Update(r.value.before, setIdx, clearIdx) == Ok(r.value.after)
      && |r.value.fs[path]| == |fs[path]|
      && LoadU32(View(r.value.fs, Mapping(path, ReadWrite)), Ctrl) == r.value.after
      && (forall k :: 0 <= k < |fs[path]| && !(Offset(Ctrl) <= k < Offset(Ctrl) + 4) ==> r.value.fs[path][k] == fs[path][k])
      && (forall q :: q in fs && q != path ==> r.value.fs[q] == fs[q])
    ensures ReaderPath(backend, uioPath, shmPath) !in fs ==> r == Err(OpenFailed(NoSuchFile(ReaderPath(backend, uioPath, shmPath))))
    ensures var path := ReaderPath(backend, uioPath, shmPath);
      path in fs && |fs[path]| < PAGE_SIZE ==> r == Err(OpenFailed(TooSmall(path)))
    ensures var path := ReaderPath(backend, uioPath, shmPath);
      path in fs && |fs[path]| >= PAGE_SIZE ==>
        var u := Update(LoadU32(View(fs, Mapping(path, ReadWrite)), Ctrl), setIdx, clearIdx);
        (r.Ok? <==> u.Ok?) && (u.Err? ==> r == Err(u.error))
  {
    var path := ReaderPath(backend, uioPath, shmPath);
    match MapExisting(fs, path, ReadWrite)
    case Err(e) => Err(OpenFailed(e))
    case Ok(m) =>
      var before := LoadU32(View(fs, m), Ctrl);
      match Update(before, setIdx, clearIdx)
      case Err(e) => Err(e)
      case Ok(after) =>
        var file' := Splice(fs[path], Offset(Ctrl), EncodeU32(after));
        var fs' := fs[path := file'];
        assert View(fs', m) == PackU32(View(fs, m), Ctrl, after);
        Ok(Report(before, after, fs'))
  }
}
