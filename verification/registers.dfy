/**
  The register page layout: the binary contract every writer and reader of the
  4096-byte block agrees on. Each field has a byte offset, an encoding and a
  width; offsets are little-endian slots inside one page.
 */
module Registers {
  import opened Spans

  const PAGE_SIZE: nat := 4096

  datatype Field =
    | Magic | Version | Status | TickUs
    | AccelX | AccelY | AccelZ
    | GyroX | GyroY | GyroZ
    | MagX | MagY | MagZ
    | BaroP | BaroT
    | GpsLat | GpsLon | GpsAlt
    | Airspeed | BatV | BatI
    | RngSeed | Ctrl

  /** How the slot's bytes are interpreted: an unsigned word or an IEEE-754 float. */
  datatype Encoding = U32 | F32 | F64

  function EncodingOf(f: Field): Encoding {
    match f
    case Magic | Version | Status | TickUs | RngSeed | Ctrl => U32
    case GpsLat | GpsLon => F64
    case _ => F32
  }

  /** Bytes a slot occupies: doubles take eight, everything else four. */
  function Width(f: Field): (w: nat)
    ensures w == 4 || w == 8
  {
    match f
    case GpsLat | GpsLon => 8
    case _ => 4
  }

  /** The width follows the encoding: eight bytes exactly for the doubles. */
  lemma WidthFollowsEncoding(f: Field)
    ensures Width(f) == 8 <==> EncodingOf(f) == F64
  {
  }

  /** Byte offset of a field inside the page. */
  function Offset(f: Field): (o: nat)
    ensures o % 4 == 0
    ensures o + 8 <= PAGE_SIZE
  {
    match f
    case Magic    => 0x000
    case Version  => 0x004
    case Status   => 0x008
    case TickUs   => 0x00C
    case AccelX   => 0x010
    case AccelY   => 0x014
    case AccelZ   => 0x018
    case GyroX    => 0x01C
    case GyroY    => 0x020
    case GyroZ    => 0x024
    case MagX     => 0x028
    case MagY     => 0x02C
    case MagZ     => 0x030
    case BaroP    => 0x034
    case BaroT    => 0x038
    case GpsLat   => 0x03C
    case GpsLon   => 0x044
    case GpsAlt   => 0x04C
    case Airspeed => 0x050
    case BatV     => 0x054
    case BatI     => 0x058
    case RngSeed  => 0x100
    case Ctrl     => 0x104
  }

  function SpanOf(f: Field): Span {
    Span(Offset(f), Width(f))
  }

  /** The fields in the order the layout table declares them. */
  const Declared: seq<Field> := [
    Magic, Version, Status, TickUs,
    AccelX, AccelY, AccelZ, GyroX, GyroY, GyroZ, MagX, MagY, MagZ,
    BaroP, BaroT, GpsLat, GpsLon, GpsAlt, Airspeed, BatV, BatI,
    RngSeed, Ctrl
  ]

  /** The flight-sample block: the fields a writer tick publishes, TICK_US excluded. */
  const SampleFields: seq<Field> := [
    AccelX, AccelY, AccelZ, GyroX, GyroY, GyroZ, MagX, MagY, MagZ,
    BaroP, BaroT, GpsLat, GpsLon, GpsAlt, Airspeed, BatV, BatI
  ]

  /** A field of the sample block: declared after TICK_US and before RNG_SEED. */
  predicate IsSampleField(f: Field) {
    4 <= IndexOf(f) < 21
  }

  function SpansOf(fs: seq<Field>): (s: seq<Span>)
    ensures |s| == |fs|
    ensures forall i :: 0 <= i < |fs| ==> s[i] == SpanOf(fs[i])
  {
    seq(|fs|, i requires 0 <= i < |fs| => SpanOf(fs[i]))
  }

  /** Position of a field in the declaration order. */
  function IndexOf(f: Field): (i: nat)
    ensures i < |Declared| && Declared[i] == f
  {
    match f
    case Magic => 0     case Version => 1   case Status => 2    case TickUs => 3
    case AccelX => 4    case AccelY => 5    case AccelZ => 6
    case GyroX => 7     case GyroY => 8     case GyroZ => 9
    case MagX => 10     case MagY => 11     case MagZ => 12
    case BaroP => 13    case BaroT => 14
    case GpsLat => 15   case GpsLon => 16   case GpsAlt => 17
    case Airspeed => 18 case BatV => 19     case BatI => 20
    case RngSeed => 21  case Ctrl => 22
  }

  /** Slots of the sample block ascend in declaration order. */
  lemma SampleBlockAscending()
    ensures Ascending(SpansOf(SampleFields))
  {
    DeclaredAscending();
    SampleFieldsInDeclared();
    var s, d := SpansOf(SampleFields), SpansOf(Declared);
    forall i | 0 <= i < |s| - 1
      ensures Precedes(s[i], s[i + 1])
    {
      assert s[i] == d[i + 4] && s[i + 1] == d[i + 5];
    }
  }

  /** The sample block is the stretch of the declaration table after TICK_US and before RNG_SEED. */
  lemma SampleFieldsInDeclared()
    ensures SampleFields == Declared[4..21]
  {
  }

  /** The sample fields are exactly the entries of the sample block, each at its declared position. */
  lemma SampleFieldsListed(f: Field)
    ensures IsSampleField(f) <==> f in SampleFields
    ensures IsSampleField(f) ==> SampleFields[IndexOf(f) - 4] == f
  {
    if IsSampleField(f) {
      SampleFieldAtIndex(f);
    }
    if f in SampleFields {
      ListedIsSampleField(f);
    }
  }

  lemma SampleFieldAtIndex(f: Field)
    requires IsSampleField(f)
    ensures SampleFields[IndexOf(f) - 4] == f
  {
    SampleFieldsInDeclared();
    assert SampleFields[IndexOf(f) - 4] == Declared[4..21][IndexOf(f) - 4];
  }

  lemma ListedIsSampleField(f: Field)
    requires f in SampleFields
    ensures IsSampleField(f)
  {
    var j :| 0 <= j < |SampleFields| && SampleFields[j] == f;
    if j < 9 {
      assert f in {AccelX, AccelY, AccelZ, GyroX, GyroY, GyroZ, MagX, MagY, MagZ};
    } else {
      assert f in {BaroP, BaroT, GpsLat, GpsLon, GpsAlt, Airspeed, BatV, BatI};
    }
  }

  /** Every field appears in the table exactly once. */
  lemma DeclaredIsComplete(f: Field)
    ensures f in Declared
    ensures |Declared| == 23
  {
  }

  /** Each field ends no later than the next declared field begins. */
  lemma DeclaredAscending()
    ensures Ascending(SpansOf(Declared))
  {
    var s := SpansOf(Declared);
    forall i | 0 <= i < |s| - 1
      ensures Precedes(s[i], s[i + 1])
    {
      if i < 6 {
        NeighboursLow(i);
      } else if i < 12 {
        NeighboursMid(i);
      } else if i < 17 {
        NeighboursHigh(i);
      } else {
        NeighboursTop(i);
      }
    }
  }

  /** Part of `DeclaredAscending`'s case split (pairs starting at declared fields 0 to 5); separate only to keep each proof small. */
  lemma NeighboursLow(i: nat)
    requires i < 6
    ensures Precedes(SpanOf(Declared[i]), SpanOf(Declared[i + 1]))
  {
    if i == 0 {
    } else if i == 1 {
    } else if i == 2 {
    } else if i == 3 {
    } else if i == 4 {
    } else {
      assert i == 5;
    }
  }

  /** Part of `DeclaredAscending`'s case split (pairs starting at declared fields 6 to 11); separate only to keep each proof small. */
  lemma NeighboursMid(i: nat)
    requires 6 <= i < 12
    ensures Precedes(SpanOf(Declared[i]), SpanOf(Declared[i + 1]))
  {
    if i == 6 {
    } else if i == 7 {
    } else if i == 8 {
    } else if i == 9 {
    } else if i == 10 {
    } else {
      assert i == 11;
    }
  }

  /** Part of `DeclaredAscending`'s case split (pairs starting at declared fields 12 to 16); separate only to keep each proof small. */
  lemma NeighboursHigh(i: nat)
    requires 12 <= i < 17
    ensures Precedes(SpanOf(Declared[i]), SpanOf(Declared[i + 1]))
  {
    if i == 12 {
    } else if i == 13 {
    } else if i == 14 {
    } else if i == 15 {
    } else {
      assert i == 16;
    }
  }

  /** Part of `DeclaredAscending`'s case split (pairs starting at declared fields 17 on); separate only to keep each proof small. */
  lemma NeighboursTop(i: nat)
    requires 17 <= i < 22
    ensures Precedes(SpanOf(Declared[i]), SpanOf(Declared[i + 1]))
  {
    if i == 17 {
    } else if i == 18 {
    } else if i == 19 {
    } else if i == 20 {
    } else {
      assert i == 21;
    }
  }

  /**
    Offsets strictly increase in declaration order and no two fields overlap:
    whenever field i is declared before field j, field i's bytes end at or
    before field j's first byte.
   */
  lemma NoOverlap(i: nat, j: nat)
    requires i < j < |Declared|
    ensures Offset(Declared[i]) + Width(Declared[i]) <= Offset(Declared[j])
    ensures Offset(Declared[i]) < Offset(Declared[j])
  {
    DeclaredAscending();
    AscendingIsSorted(SpansOf(Declared));
    assert Precedes(SpansOf(Declared)[i], SpansOf(Declared)[j]);
  }

  /** Distinct fields occupy disjoint byte ranges. */
  lemma DistinctFieldsDisjoint(f: Field, g: Field)
    requires f != g
    ensures Offset(f) + Width(f) <= Offset(g) || Offset(g) + Width(g) <= Offset(f)
  {
    var i, j := IndexOf(f), IndexOf(g);
    if i < j {
      NoOverlap(i, j);
    } else {
      NoOverlap(j, i);
    }
  }

  /** ACCEL, GYRO and MAG x/y/z and BARO_P/BARO_T are contiguous 4-byte slots from 0x010 up to 0x03B. */
  lemma InertialRunContiguous()
    ensures forall i :: 4 <= i < 15 ==> Offset(Declared[i]) == 0x010 + 4 * (i - 4) && Width(Declared[i]) == 4
    ensures Offset(BaroT) + Width(BaroT) == 0x03C
  {
  }

  /** Latitude and longitude are back-to-back doubles followed by the altitude float. */
  lemma GpsSlots()
    ensures Width(GpsLat) == 8 && Width(GpsLon) == 8
    ensures Offset(GpsLon) == Offset(GpsLat) + 8
    ensures Offset(GpsAlt) == Offset(GpsLon) + 8
  {
  }

  /** The sample block (TICK_US up to the end of BAT_I) ends before RNG_SEED; CTRL follows RNG_SEED. */
  lemma SampleBlockBeforeSeed()
    ensures Offset(BatI) + Width(BatI) == 0x05C
    ensures Offset(BatI) + Width(BatI) <= Offset(RngSeed)
    ensures Offset(Ctrl) == Offset(RngSeed) + 4
    ensures forall f :: IsSampleField(f) ==> Offset(TickUs) < Offset(f) && Offset(f) + Width(f) <= 0x05C
  {
  }

  /** Every slot of the sample block lies inside [0x010, 0x05C). */
  lemma SampleSlotsInBlock()
    ensures forall i :: 0 <= i < |SampleFields| ==>
      0x010 <= Offset(SampleFields[i]) && Offset(SampleFields[i]) + Width(SampleFields[i]) <= 0x05C
  {
    var s := SpansOf(SampleFields);
    SampleBlockAscending();
    AscendingIsSorted(s);
    forall i | 0 <= i < |SampleFields|
      ensures 0x010 <= s[i].start && s[i].End() <= 0x05C
    {
      if 0 < i {
        assert Precedes(s[0], s[i]);
      }
      if i < 16 {
        assert Precedes(s[i], s[16]);
      }
    }
  }
}
