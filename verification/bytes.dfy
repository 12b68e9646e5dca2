/**
  The page as bytes: splicing a byte string in at an offset, the little-endian
  unsigned 32-bit codec (`struct` format `<I`), and opaque 4- and 8-byte float
  slots whose IEEE-754 encoding is supplied from outside.
 */
module Bytes {
  import opened Registers

  type Byte = b: int | 0 <= b < 256

  type Bytes4 = b: seq<Byte> | |b| == 4 witness [0, 0, 0, 0]

  type Bytes8 = b: seq<Byte> | |b| == 8 witness [0, 0, 0, 0, 0, 0, 0, 0]

  /** The mapped register block. */
  type Page = p: seq<Byte> | |p| == PAGE_SIZE witness seq(PAGE_SIZE, _ => 0)

  const U32_MOD: int := 0x1_0000_0000

  type U32 = v: int | 0 <= v < U32_MOD

  /**
    The IEEE-754 single and double encodings (`<f` and `<d`) of a value. They
    are not modelled; every operation takes the pair as a parameter.
   */
  datatype FloatCodec = FloatCodec(f32: real -> Bytes4, f64: real -> Bytes8)

  function ZeroPage(): (p: Page)
    ensures forall k :: 0 <= k < PAGE_SIZE ==> p[k] == 0
  {
    seq(PAGE_SIZE, _ => 0)
  }

  /** `v & 0xffffffff` on an unbounded integer: the unique u32 congruent to `v`. */
  function Mask32(v: int): (r: U32)
    ensures (v - r) % U32_MOD == 0
    ensures 0 <= v < U32_MOD ==> r == v
  {
    v % U32_MOD
  }

  /** The four little-endian bytes of `v & 0xffffffff`. */
  function EncodeU32(v: int): (b: Bytes4)
  {
    var w := Mask32(v);
    [w % 0x100, (w / 0x100) % 0x100, (w / 0x1_0000) % 0x100, w / 0x100_0000]
  }

  /** Four little-endian bytes read as an unsigned value. */
  function DecodeU32(b: Bytes4): U32 {
    var b0, b1, b2, b3: int := b[0], b[1], b[2], b[3];
    b0 + 0x100 * b1 + 0x1_0000 * b2 + 0x100_0000 * b3
  }

  /** Decoding what was encoded recovers the value modulo 2^32. */
  lemma DecodeEncodeU32(v: int)
    ensures DecodeU32(EncodeU32(v)) == Mask32(v)
  {
    var w := Mask32(v);
    var b := EncodeU32(v);
    assert w == b[0] + 0x100 * (w / 0x100);
    assert w / 0x100 == b[1] + 0x100 * (w / 0x1_0000);
    assert w / 0x1_0000 == b[2] as int + 0x100 * b[3] as int;
  }

  /** Every four-byte pattern is the encoding of the value it decodes to. */
  lemma EncodeDecodeU32(b: Bytes4)
    ensures EncodeU32(DecodeU32(b)) == b
  {
    var w := DecodeU32(b);
    var b0, b1, b2, b3: int := b[0], b[1], b[2], b[3];
    assert Mask32(w) == w;
    DivMod(w, 0x100, b0, b1 + 0x100 * b2 + 0x1_0000 * b3);
    DivMod(w, 0x1_0000, b0 + 0x100 * b1, b2 + 0x100 * b3);
    DivMod(w, 0x100_0000, b0 + 0x100 * b1 + 0x1_0000 * b2, b3);
    DivMod(b1 + 0x100 * b2 + 0x1_0000 * b3, 0x100, b1, b2 + 0x100 * b3);
    DivMod(b2 + 0x100 * b3, 0x100, b2, b3);
  }

  /** Quotient and remainder of `a` by `d` when `a` is split as `r + d * q`. */
  lemma DivMod(a: int, d: int, r: int, q: int)
    requires d == 0x100 || d == 0x1_0000 || d == 0x100_0000
    requires 0 <= r < d && a == r + d * q
    ensures a / d == q && a % d == r
  {
    if d == 0x100 {
      assert a == r + 0x100 * q;
    } else if d == 0x1_0000 {
      assert a == r + 0x1_0000 * q;
    } else {
      assert a == r + 0x100_0000 * q;
    }
  }

  /** Overwrites `|b|` bytes of `p` starting at `off` (seek, then write). */
  function Splice(p: seq<Byte>, off: nat, b: seq<Byte>): (r: seq<Byte>)
    requires off + |b| <= |p|
    ensures |r| == |p|
    ensures r[off..off + |b|] == b
    ensures forall k :: 0 <= k < |p| && !(off <= k < off + |b|) ==> r[k] == p[k]
  {
    p[..off] + b + p[off + |b|..]
  }

  /** Bytes outside the overwritten range read back as before. */
  lemma SpliceKeepsDisjoint(p: seq<Byte>, off: nat, b: seq<Byte>, lo: nat, n: nat)
    requires off + |b| <= |p| && lo + n <= |p|
    requires off + |b| <= lo || lo + n <= off
    ensures Splice(p, off, b)[lo..lo + n] == p[lo..lo + n]
  {
    var r := Splice(p, off, b);
    forall k | lo <= k < lo + n
      ensures r[k] == p[k]
    {
    }
  }

  /** A range inside a slice is the same range of the whole sequence, shifted. */
  lemma SliceOfSlice(p: seq<Byte>, lo: nat, hi: nat, a: nat, b: nat)
    requires lo <= hi <= |p| && a <= b <= hi - lo
    ensures p[lo..hi][a..b] == p[lo + a..lo + b]
  {
    var x, y := p[lo..hi][a..b], p[lo + a..lo + b];
    forall k | 0 <= k < b - a
      ensures x[k] == y[k]
    {
    }
  }
}
