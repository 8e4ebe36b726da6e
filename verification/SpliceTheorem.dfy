/** The insertion theorem for whole files, and its independence of the order of marks. */
module SpliceTheorem {
  import opened Wrappers
  import opened ByteOrder
  import opened JpegSegments
  import opened Tiff
  import opened IfdWalk
  import opened WalkEnd
  import opened Relocation
  import opened Splice
  import opened SpliceMeaning
  import opened ExifOrientation

  /** The block of a grown file has the meaning of the old one at its new offsets, plus the Orientation field, exactly
      when every pointer field behind IFD0 holds an offset that stays 12 bytes inside the old block and no directory
      passed over by the walk holds an offset that moves. */
  lemma GrownKeepsMeaning(jpeg: bytes, loc: Location, orientation: nat, out: bytes, h: nat)
    requires IsExifAt(jpeg, loc) && Editable(jpeg, loc) && orientation < 0x1_0000
    requires Grown(jpeg, loc, orientation, out)
    requires Tidy(TiffOf(jpeg, loc), LayoutIn(jpeg, loc), WalkIn(jpeg, loc))
    requires ReadBlock(TiffOf(jpeg, loc), LayoutIn(jpeg, loc), h).Some?
    requires var lay := LayoutIn(jpeg, loc); Parted(ReadBlock(TiffOf(jpeg, loc), lay, h).value, lay.ifd0, E4(lay))
    ensures |jpeg| <= |out| && Complete(out, Shifted(jpeg, loc, out))
    ensures var t, lay, u := TiffOf(jpeg, loc), LayoutIn(jpeg, loc), TiffOf(out, Shifted(jpeg, loc, out));
            var d := ReadBlock(t, lay, h).value;
            ReadBlock(u, lay, h) == Some(WithOrientation(Relocated(d, E4(lay)), lay.en, orientation))
            <==> AllShift(t, lay, WalkIn(jpeg, loc).fields) && Covered(d, E4(lay))
  {
    hide U16, U32, Inserted, MarksPlaced, Exact, Tidy, IsExifAt, Exchanged, ParseLayout, ReadDirectory, Relocated,
      AllShift, Walk, Covered, Parted, FullWalk;
    var t, lay := TiffOf(jpeg, loc), LayoutIn(jpeg, loc);
    var fields := WalkIn(jpeg, loc).fields;
    MarksArePlaced(t, lay);
    var u :| |u| == |t| + 12 && Inserted(t, lay, fields, orientation, u) && out == Exchanged(jpeg, loc, u);
    ExchangedFound(jpeg, loc, u);
    ExchangedParts(jpeg, loc, u);
    MeaningKept(t, lay, orientation, u, h);
  }

  // ----- the order of the marks does not matter -----

  lemma LastDigit(a: byte, x: int, b: byte, y: int)
    requires a + 256 * x == b + 256 * y
    ensures a == b && x == y
  {
  }

  lemma WordBytes(en: Endian, a: bytes, b: bytes, p: nat)
    requires p + 4 <= |a| && p + 4 <= |b| && U32(en, a, p) == U32(en, b, p)
    ensures a[p] == b[p] && a[p + 1] == b[p + 1] && a[p + 2] == b[p + 2] && a[p + 3] == b[p + 3]
  {
    var a0: int, a1: int, a2: int, a3: int := a[p], a[p + 1], a[p + 2], a[p + 3];
    var b0: int, b1: int, b2: int, b3: int := b[p], b[p + 1], b[p + 2], b[p + 3];
    match en
    case Little =>
      LastDigit(a0, a1 + 256 * (a2 + 256 * a3), b0, b1 + 256 * (b2 + 256 * b3));
      LastDigit(a1, a2 + 256 * a3, b1, b2 + 256 * b3);
      LastDigit(a2, a3, b2, b3);
    case Big =>
      LastDigit(a3, a2 + 256 * (a1 + 256 * a0), b3, b2 + 256 * (b1 + 256 * b0));
      LastDigit(a2, a1 + 256 * a0, b2, b1 + 256 * b0);
      LastDigit(a1, a0, b1, b0);
  }

  /** If the marked fields do not overlap, there is only one way to insert the entry. */
  lemma InsertedUnique(t: bytes, lay: Layout, fields: set<nat>, orientation: nat, a: bytes, b: bytes)
    requires LayoutOf(t, lay) && MarksPlaced(t, lay, fields) && orientation < 0x1_0000
    requires forall m :: m in fields ==> Isolated(fields, m)
    requires Inserted(t, lay, fields, orientation, a) && Inserted(t, lay, fields, orientation, b)
    ensures a == b
  {
    hide U16, U32, OrientationEntry, MarksPlaced;
    forall q | 0 <= q < |a| ensures a[q] == b[q] {
      if lay.ifd0 <= q < lay.ifd0 + 2 {
        CountBytes(lay.en, a, b, lay.ifd0);
      } else if lay.end <= q < lay.end + 12 {
        assert a[q] == a[lay.end..lay.end + 12][q - lay.end] && b[q] == b[lay.end..lay.end + 12][q - lay.end];
      } else {
        var p := if q < lay.end then q else q - 12;
        assert Moved(lay, p) == q;
        if !ClearAt(fields, p) {
          MarkedByte(t, lay, fields, orientation, a, b, p);
        }
      }
    }
  }

  lemma MarkedByte(t: bytes, lay: Layout, fields: set<nat>, orientation: nat, a: bytes, b: bytes, p: nat)
    requires LayoutOf(t, lay) && MarksPlaced(t, lay, fields) && orientation < 0x1_0000
    requires forall m :: m in fields ==> Isolated(fields, m)
    requires Inserted(t, lay, fields, orientation, a) && Inserted(t, lay, fields, orientation, b)
    requires p < |t| && !ClearAt(fields, p)
    ensures Moved(lay, p) < |a| == |b| && a[Moved(lay, p)] == b[Moved(lay, p)]
  {
    hide U16, U32, OrientationEntry, MarksPlaced;
    var m :| m in fields && m <= p < m + 4;
    MarkWithin(t, lay, fields, m);
    assert Isolated(fields, m);
    WordBytes(lay.en, a, b, Moved(lay, m));
  }

  lemma CountBytes(en: Endian, a: bytes, b: bytes, p: nat)
    requires p + 2 <= |a| && p + 2 <= |b| && U16(en, a, p) == U16(en, b, p)
    ensures a[p] == b[p] && a[p + 1] == b[p + 1]
  {
  }

  lemma MarkWithin(t: bytes, lay: Layout, fields: set<nat>, m: nat)
    requires LayoutOf(t, lay) && MarksPlaced(t, lay, fields) && m in fields
    ensures m + 4 <= |t| && (m + 4 <= lay.end || lay.end <= m)
  {
    hide U16, U32;
  }
}
