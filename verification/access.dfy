/**
  Register-level access to the page: the writer's `pack_u32`/`pack_f32`/
  `pack_f64`/`rd_u32`, the readers' `ru32`/`rf32`/`rf64` and `_read_*`
  helpers, and a batch of field stores applied in order. Every call site in
  the system passes a register constant, so these take a `Field`.
 */
module Access {
  import opened Spans
  import opened Registers
  import opened Bytes

  /** The four bytes at a field's offset (what `mem.read(4)` returns after `seek`). */
  function Load4(p: Page, f: Field): Bytes4 {
    p[Offset(f)..Offset(f) + 4]
  }

  /** The eight bytes at a field's offset (what `mem.read(8)` returns after `seek`). */
  function Load8(p: Page, f: Field): Bytes8 {
    p[Offset(f)..Offset(f) + 8]
  }

  /** All the bytes of a field's slot, at its own width. */
  function Slot(p: Page, f: Field): (b: seq<Byte>)
    ensures |b| == Width(f)
  {
    p[Offset(f)..Offset(f) + Width(f)]
  }

  /** A little-endian unsigned read of a field. */
  function LoadU32(p: Page, f: Field): U32 {
    DecodeU32(Load4(p, f))
  }

  /** Bytes `[Offset(f), Offset(f) + n)` are the only ones allowed to differ between `p` and `r`. */
  predicate OnlyChanged(p: Page, r: Page, f: Field, n: nat) {
    forall k :: 0 <= k < PAGE_SIZE && !(Offset(f) <= k < Offset(f) + n) ==> r[k] == p[k]
  }

  /** `pack_u32`: stores `v & 0xffffffff` little-endian at the field. */
  function PackU32(p: Page, f: Field, v: int): (r: Page)
    ensures LoadU32(r, f) == Mask32(v)
    ensures OnlyChanged(p, r, f, 4)
  {
    DecodeEncodeU32(v);
    Splice(p, Offset(f), EncodeU32(v))
  }

  /** `pack_f32`: stores the single-precision encoding of `v` at the field. */
  function PackF32(p: Page, f: Field, codec: FloatCodec, v: real): (r: Page)
    ensures Load4(r, f) == codec.f32(v)
    ensures OnlyChanged(p, r, f, 4)
  {
    Splice(p, Offset(f), codec.f32(v))
  }

  /** `pack_f64`: stores the double-precision encoding of `v` at the field. */
  function PackF64(p: Page, f: Field, codec: FloatCodec, v: real): (r: Page)
    ensures Load8(r, f) == codec.f64(v)
    ensures OnlyChanged(p, r, f, 8)
  {
    Splice(p, Offset(f), codec.f64(v))
  }

  /** Reading back what `pack_u32` left: a u32 field read after the pack is the masked value. */
  lemma PackThenLoad(p: Page, f: Field, v: int)
    ensures Load4(PackU32(p, f, v), f) == EncodeU32(v)
    ensures LoadU32(PackU32(p, f, v), f) == Mask32(v)
  {
  }

  /** A pack at one field leaves every other field's bytes as they were. */
  lemma PackKeepsOtherFields(p: Page, f: Field, g: Field, v: int)
    requires f != g
    ensures Load4(PackU32(p, f, v), g) == Load4(p, g)
  {
    DistinctFieldsDisjoint(f, g);
    SpliceKeepsDisjoint(p, Offset(f), EncodeU32(v), Offset(g), 4);
  }

  /** One field write of a batch: the field and the encoded bytes put there. */
  datatype Store = Store(field: Field, bytes: seq<Byte>) {

    predicate Fits() {
      |bytes| == Width(field)
    }

    function Span(): Span {
      Spans.Span(Offset(field), |bytes|)
    }
  }

  predicate AllFit(ops: seq<Store>) {
    forall i :: 0 <= i < |ops| ==> ops[i].Fits()
  }

  function StoreSpans(ops: seq<Store>): (s: seq<Span>)
    ensures |s| == |ops|
    ensures forall i :: 0 <= i < |ops| ==> s[i] == ops[i].Span()
  {
    seq(|ops|, i requires 0 <= i < |ops| => ops[i].Span())
  }

  function Put(p: Page, s: Store): (r: Page)
    requires s.Fits()
  {
    Splice(p, Offset(s.field), s.bytes)
  }

  /** The stores performed one after another, first to last. */
  function ApplyStores(p: Page, ops: seq<Store>): Page
    requires AllFit(ops)
    decreases |ops|
  {
    if |ops| == 0 then p else ApplyStores(Put(p, ops[0]), ops[1..])
  }

  /** A byte that no store covers keeps its value. */
  lemma {:induction false} ApplyStoresFrame(p: Page, ops: seq<Store>, k: nat)
    requires AllFit(ops)
    requires k < PAGE_SIZE
    requires forall i :: 0 <= i < |ops| ==> !ops[i].Span().Contains(k)
    ensures ApplyStores(p, ops)[k] == p[k]
    decreases |ops|
  {
    if |ops| > 0 {
      assert !ops[0].Span().Contains(k);
      assert forall i :: 0 <= i < |ops| - 1 ==> ops[1..][i] == ops[i + 1];
      ApplyStoresFrame(Put(p, ops[0]), ops[1..], k);
    }
  }

  /**
    When the stores go to ascending, non-overlapping slots, every slot ends up
    holding exactly the bytes its store wrote: no later store clobbers an
    earlier one.
   */
  lemma {:induction false} ApplyStoresReadBack(p: Page, ops: seq<Store>, i: nat)
    requires AllFit(ops)
    requires Ascending(StoreSpans(ops))
    requires i < |ops|
    ensures ApplyStores(p, ops)[Offset(ops[i].field)..Offset(ops[i].field) + |ops[i].bytes|] == ops[i].bytes
    decreases |ops|
  {
    if i == 0 {
      FirstStoreReadBack(p, ops);
    } else {
      var rest := ops[1..];
      assert forall j :: 0 <= j < |rest| ==> rest[j] == ops[j + 1];
      assert StoreSpans(rest) == StoreSpans(ops)[1..];
      ApplyStoresReadBack(Put(p, ops[0]), rest, i - 1);
      assert rest[i - 1] == ops[i];
    }
  }

  /** The first store of an ascending batch survives the rest of the batch. */
  lemma FirstStoreReadBack(p: Page, ops: seq<Store>)
    requires AllFit(ops)
    requires Ascending(StoreSpans(ops))
    requires |ops| > 0
    ensures ApplyStores(p, ops)[Offset(ops[0].field)..Offset(ops[0].field) + |ops[0].bytes|] == ops[0].bytes
  {
    var rest := ops[1..];
    var q := Put(p, ops[0]);
    var lo, hi := Offset(ops[0].field), Offset(ops[0].field) + |ops[0].bytes|;
    var r := ApplyStores(q, rest);
    assert ApplyStores(p, ops) == r;
    forall k | lo <= k < hi
      ensures r[k] == q[k]
    {
      LaterStoresMiss(ops, k);
      ApplyStoresFrame(q, rest, k);
    }
    SlicesAgree(r, q, lo, hi);
  }

  /** Sequences that agree at every index of a range agree on the slice. */
  lemma SlicesAgree(r: seq<Byte>, q: seq<Byte>, lo: nat, hi: nat)
    requires lo <= hi <= |r| && hi <= |q|
    requires forall k :: lo <= k < hi ==> r[k] == q[k]
    ensures r[lo..hi] == q[lo..hi]
  {
    assert forall j :: 0 <= j < hi - lo ==> r[lo..hi][j] == r[lo + j] && q[lo..hi][j] == q[lo + j];
  }

  /** In an ascending batch no later store covers a byte of the first store's slot. */
  lemma LaterStoresMiss(ops: seq<Store>, k: nat)
    requires Ascending(StoreSpans(ops))
    requires |ops| > 0 && ops[0].Span().Contains(k)
    ensures forall j :: 0 <= j < |ops| - 1 ==> !ops[1..][j].Span().Contains(k)
  {
    var sp := StoreSpans(ops);
    AscendingIsSorted(sp);
    forall j | 0 <= j < |ops| - 1
      ensures !ops[1..][j].Span().Contains(k)
    {
      assert Precedes(sp[0], sp[j + 1]);
      assert ops[1..][j] == ops[j + 1];
    }
  }
}
