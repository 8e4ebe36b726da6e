/** Sample blocks: one that keeps its meaning, and one that loses it for each half of the condition it takes. */
module SpliceSamples {
  import opened Wrappers
  import opened ByteOrder
  import opened Tiff
  import opened IfdWalk
  import opened WalkEnd
  import opened Relocation
  import opened Splice
  import opened SpliceMeaning

  /** IFD0 at `root` with an Exif or GPS pointer and nothing else, and the directory at `sub` with one 8-byte value and
      nothing else. */
  predicate TwoTables(t: bytes, root: nat, sub: nat, value: nat, tag: nat, inner: nat) {
    && tag in {0x8769, 0x8825} && inner !in {0x8769, 0x8825, 0x0112}
    && root + 18 <= |t| && sub + 18 <= |t| && value + 8 <= |t| <= 0xFFFF
    && U16(Little, t, root) == 1 && RawAt(t, Little, root + 2) == RawEntry(tag, 4, 1, sub)
    && U32(Little, t, root + 14) == 0
    && U16(Little, t, sub) == 1 && RawAt(t, Little, sub + 2) == RawEntry(inner, 5, 1, value)
    && U32(Little, t, sub + 14) == 0
  }

  function ValueDir(inner: nat, value: nat, bytes: bytes): Directory {
    Directory([Field(inner, 5, 1, OutOfLine(value, bytes))], NoNext)
  }

  function TwoDirectories(tag: nat, inner: nat, sub: nat, value: nat, bytes: bytes): Directory {
    Directory([Field(tag, 4, 1, SubDir(sub, ValueDir(inner, value, bytes)))], NoNext)
  }

  /** A table of a single entry. */
  lemma OneField(t: bytes, off: nat, depth: nat, h: nat, f: Field)
    requires h > 0 && off + 14 <= |t| && ReadField(t, Little, off + 2, depth, h) == Some(f)
    ensures EntryAt(off, 1) == off + 14 && ReadFields(t, Little, off, depth, h, 1) == Some([f])
  {
    hide ReadField;
    assert ReadFields(t, Little, off, depth, h, 0) == Some([]);
    assert [] + [f] == [f];
  }

  lemma TablesRead(t: bytes, root: nat, sub: nat, value: nat, tag: nat, inner: nat)
    requires TwoTables(t, root, sub, value, tag, inner)
    ensures ReadDirectory(t, Little, root, 0, 2) == Some(TwoDirectories(tag, inner, sub, value, t[value..value + 8]))
  {
    hide U16, U32, RawAt, ReadFields;
    var f := Field(inner, 5, 1, OutOfLine(value, t[value..value + 8]));
    assert ReadField(t, Little, sub + 2, 1, 1) == Some(f);
    OneField(t, sub, 1, 1, f);
    var g := Field(tag, 4, 1, SubDir(sub, Directory([f], NoNext)));
    assert ReadField(t, Little, root + 2, 0, 2) == Some(g);
    OneField(t, root, 0, 2, g);
  }

  lemma OneEntry(t: bytes, e4: nat, off: nat, depth: nat, h: nat)
    requires h > 0 && off + 14 <= |t|
    ensures EntryAt(off, 1) == off + 14
    ensures WalkEntries(t, Little, e4, off, depth, h, 1)
        == Both(Marked({}, {}), WalkEntry(t, Little, e4, off + 2, depth, h))
  {
    hide WalkEntry;
    assert WalkEntries(t, Little, e4, off, depth, h, 0) == Marked({}, {});
  }

  function SubWalk(sub: nat, value: nat, e4: nat): Walked {
    Marked(if e4 <= value then {sub + 10} else {}, {(sub, 1)})
  }

  lemma SubWalked(t: bytes, root: nat, sub: nat, value: nat, e4: nat, tag: nat, inner: nat)
    requires TwoTables(t, root, sub, value, tag, inner)
    ensures Walk(t, Little, e4, sub, 1, 1) == SubWalk(sub, value, e4)
  {
    hide U16, U32, RawAt, WalkEntries;
    OneEntry(t, e4, sub, 1, 1);
  }

  lemma SubWalkMarked(sub: nat, value: nat, e4: nat)
    ensures SubWalk(sub, value, e4).Marked?
  {
  }

  function RootMarks(root: nat, sub: nat, value: nat, e4: nat): Walked {
    if e4 <= sub then Marked({root + 10} + SubWalk(sub, value, e4).fields, {(root, 0)} + SubWalk(sub, value, e4).tables)
    else Marked({}, {(root, 0)})
  }

  /** What is marked: the Exif pointer and the exposure time's offset, or nothing when the Exif directory is passed
      over. */
  lemma TablesWalked(t: bytes, root: nat, sub: nat, value: nat, e4: nat, tag: nat, inner: nat)
    requires TwoTables(t, root, sub, value, tag, inner)
    ensures FullWalk(t, Little, e4, (root, 0)) == RootMarks(root, sub, value, e4)
  {
    hide U16, U32, RawAt, FullWalk, WalkEntries, SubWalk;
    SubWalked(t, root, sub, value, e4, tag, inner);
    OneEntry(t, e4, root, 0, 2);
    var sw := SubWalk(sub, value, e4);
    assert sw.Marked? by {
      SubWalkMarked(sub, value, e4);
    }
    var es := if e4 <= sub then Marked({root + 10} + sw.fields, sw.tables) else Marked({}, {});
    assert WalkEntry(t, Little, e4, root + 2, 0, 2) == es by {
      assert {} + sw.tables == sw.tables;
    }
    assert WalkEntries(t, Little, e4, root, 0, 2, 1) == es by {
      assert {} + es.fields == es.fields && {} + es.tables == es.tables;
    }
    assert {} + es.fields + {} == es.fields;
    assert Walk(t, Little, e4, root, 0, 2) == RootMarks(root, sub, value, e4);
    FullWalkAt(t, Little, e4, (root, 0), 2);
  }

  lemma TablesLayout(t: bytes, root: nat, sub: nat, value: nat, tag: nat, inner: nat)
    requires TwoTables(t, root, sub, value, tag, inner) && 8 <= root
    requires t[0] == t[1] == 0x49 && U16(Little, t, 2) == 42 && U32(Little, t, 4) == root
    ensures var lay := Layout(Little, root, 1, root + 14);
            ParseLayout(t) == Some(lay) && LayoutOf(t, lay) && NoOrientation(t, lay)
  {
    hide U16, U32;
    assert t[..2] == [0x49, 0x49];
    assert RawAt(t, Little, root + 2).tag == tag;
  }

  lemma TableOneTidy(t: bytes, lay: Layout, fields: set<nat>, v: Visit)
    requires v.0 + 18 <= |t| && U16(lay.en, t, v.0) == 1 && U32(lay.en, t, v.0 + 14) == 0
    requires EntryTidy(t, lay, fields, v.0 + 2, v.1)
    requires Clear(fields, v.0, v.0 + 2) && Clear(fields, v.0 + 14, v.0 + 18)
    ensures TableFits(t, lay.en, v.0) && TableTidy(t, lay, fields, v)
  {
    hide U16, U32, EntryTidy, Clear;
  }

  /** Neither pointer overlaps anything, as long as the value comes last. */
  lemma TablesTidy(t: bytes, root: nat, sub: nat, value: nat, tag: nat, inner: nat)
    requires TwoTables(t, root, sub, value, tag, inner) && sub + 18 <= value && root + 18 <= value
    requires sub + 18 <= root || root + 18 <= sub
    ensures var lay := Layout(Little, root, 1, root + 14); Tidy(t, lay, RootMarks(root, sub, value, root + 18))
  {
    hide U16, U32, RawAt, TableTidy;
    var lay, w := Layout(Little, root, 1, root + 14), RootMarks(root, sub, value, root + 18);
    TableOneTidy(t, lay, w.fields, (root, 0));
    if root + 18 <= sub {
      TableOneTidy(t, lay, w.fields, (sub, 1));
    }
  }

  lemma TablesParted(tag: nat, inner: nat, sub: nat, value: nat, bytes: bytes, ifd0: nat, e4: nat)
    requires (e4 <= sub || sub + 18 <= ifd0) && e4 <= value
    ensures Parted(TwoDirectories(tag, inner, sub, value, bytes), ifd0, e4)
  {
    var d := ValueDir(inner, value, bytes);
    assert FieldParted(d.fields[0], ifd0, e4) && FieldBefore(d.fields[0], ifd0, e4);
    assert LinkParted(d.next, ifd0, e4) && LinkBefore(d.next, ifd0, e4);
    assert Parted(d, ifd0, e4) && (sub + 18 <= ifd0 ==> Before(d, sub, ifd0, e4));
  }

  lemma TablesCovered(tag: nat, inner: nat, sub: nat, value: nat, bytes: bytes, e4: nat)
    ensures Covered(TwoDirectories(tag, inner, sub, value, bytes), e4) <==> e4 <= sub || value < e4
  {
    var d := ValueDir(inner, value, bytes);
    assert FieldStays(d.fields[0], e4) <==> value < e4;
    assert Stays(d, e4) <==> value < e4;
    assert LinkCovered(d.next, e4) && FieldCovered(d.fields[0], e4);
    assert FieldCovered(TwoDirectories(tag, inner, sub, value, bytes).fields[0], e4) <==> e4 <= sub || value < e4;
  }

  // ----- an offset that fails the length test -----

  /** A little-endian block: IFD0 with one Exif pointer, an Exif directory with one exposure time, and its 8-byte value
      at the very end. */
  function EndSample(): (s: bytes)
    ensures |s| == 52
  {
    [0x49, 0x49, 0x2A, 0, 8, 0, 0, 0]                        // header
    + [1, 0, 0x69, 0x87, 4, 0, 1, 0, 0, 0, 26, 0, 0, 0]      // IFD0: Exif directory at 26
    + [0, 0, 0, 0]                                           // no next directory
    + [1, 0, 0x9A, 0x82, 5, 0, 1, 0, 0, 0, 44, 0, 0, 0]      // Exif: exposure time at 44
    + [0, 0, 0, 0]                                           // no next directory
    + [1, 0, 0, 0, 100, 0, 0, 0]                             // 1/100
  }

  /** The same, with the Exif directory in front of IFD0. */
  function LowSample(): (s: bytes)
    ensures |s| == 52
  {
    [0x49, 0x49, 0x2A, 0, 26, 0, 0, 0]                       // header
    + [1, 0, 0x9A, 0x82, 5, 0, 1, 0, 0, 0, 44, 0, 0, 0]      // Exif: exposure time at 44
    + [0, 0, 0, 0]                                           // no next directory
    + [1, 0, 0x69, 0x87, 4, 0, 1, 0, 0, 0, 8, 0, 0, 0]       // IFD0: Exif directory at 8
    + [0, 0, 0, 0]                                           // no next directory
    + [1, 0, 0, 0, 100, 0, 0, 0]                             // 1/100
  }

  lemma EndBytes()
    ensures TwoTables(EndSample(), 8, 26, 44, 0x8769, 0x829A)
    ensures EndSample()[0] == EndSample()[1] == 0x49 && U16(Little, EndSample(), 2) == 42 &&
        U32(Little, EndSample(), 4) == 8
  {
  }

  lemma LowBytes()
    ensures TwoTables(LowSample(), 26, 8, 44, 0x8769, 0x829A)
    ensures LowSample()[0] == LowSample()[1] == 0x49 && U16(Little, LowSample(), 2) == 42 &&
        U32(Little, LowSample(), 4) == 26
  {
  }

  const END_LAYOUT := Layout(Little, 8, 1, 22)
  const LOW_LAYOUT := Layout(Little, 26, 1, 40)

  /** The block is well formed, tidy and readable, and both pointers are marked. */
  lemma EndReadable()
    ensures ParseLayout(EndSample()) == Some(END_LAYOUT) && NoOrientation(EndSample(), END_LAYOUT)
    ensures RootWalk(EndSample(), END_LAYOUT) == Marked({18, 36}, {(8, 0), (26, 1)})
    ensures Tidy(EndSample(), END_LAYOUT, RootWalk(EndSample(), END_LAYOUT))
    ensures ReadBlock(EndSample(), END_LAYOUT, 2) == Some(TwoDirectories(0x8769, 0x829A, 26, 44, EndSample()[44..52]))
    ensures Parted(TwoDirectories(0x8769, 0x829A, 26, 44, EndSample()[44..52]), 8, 26)
  {
    hide U16, U32, RawAt, EndSample, FullWalk, Tidy, TwoTables, Parted, ParseLayout, HasTag, ReadDirectory;
    EndBytes();
    TablesParted(0x8769, 0x829A, 26, 44, EndSample()[44..52], 8, 26);
    TablesTidy(EndSample(), 8, 26, 44, 0x8769, 0x829A);
    TablesLayout(EndSample(), 8, 26, 44, 0x8769, 0x829A);
    TablesRead(EndSample(), 8, 26, 44, 0x8769, 0x829A);
    TablesWalked(EndSample(), 8, 26, 44, 26, 0x8769, 0x829A);
  }

  /** The block is well formed, tidy and readable, and nothing is marked. */
  lemma LowReadable()
    ensures ParseLayout(LowSample()) == Some(LOW_LAYOUT) && NoOrientation(LowSample(), LOW_LAYOUT)
    ensures RootWalk(LowSample(), LOW_LAYOUT) == Marked({}, {(26, 0)})
    ensures Tidy(LowSample(), LOW_LAYOUT, RootWalk(LowSample(), LOW_LAYOUT))
    ensures ReadBlock(LowSample(), LOW_LAYOUT, 2) == Some(TwoDirectories(0x8769, 0x829A, 8, 44, LowSample()[44..52]))
    ensures Parted(TwoDirectories(0x8769, 0x829A, 8, 44, LowSample()[44..52]), 26, 44)
  {
    hide U16, U32, RawAt, LowSample, FullWalk, Tidy, TwoTables, Parted, ParseLayout, HasTag, ReadDirectory;
    LowBytes();
    TablesParted(0x8769, 0x829A, 8, 44, LowSample()[44..52], 26, 44);
    TablesTidy(LowSample(), 26, 8, 44, 0x8769, 0x829A);
    TablesLayout(LowSample(), 26, 8, 44, 0x8769, 0x829A);
    TablesRead(LowSample(), 26, 8, 44, 0x8769, 0x829A);
    TablesWalked(LowSample(), 26, 8, 44, 44, 0x8769, 0x829A);
  }

  /** The exposure time's offset fails the length test, stays 44, and no longer names the value, which has moved to
      56. */
  lemma LengthTestLosesValue(orientation: nat, u: bytes)
    requires Edit(EndSample(), END_LAYOUT, RootWalk(EndSample(), END_LAYOUT), orientation, u)
    ensures !AllShift(EndSample(), END_LAYOUT, RootWalk(EndSample(), END_LAYOUT).fields)
    ensures Covered(TwoDirectories(0x8769, 0x829A, 26, 44, EndSample()[44..52]), 26)
    ensures ReadBlock(u, END_LAYOUT, 2)
         != Some(WithOrientation(
              Relocated(TwoDirectories(0x8769, 0x829A, 26, 44, EndSample()[44..52]), 26), Little, orientation))
    ensures |u| == 64 && U32(Little, u, 48) == 44 && u[44..52] != u[56..64] == EndSample()[44..52]
  {
    hide U16, U32, EndSample, OrientationEntry, LayoutOf, MarksPlaced, Exact, ReadBlock, WithOrientation, Tidy,
      Relocated, FullWalk, Parted, Covered;
    var t := EndSample();
    EndReadable();
    EndBytes();
    EndValue();
    TablesCovered(0x8769, 0x829A, 26, 44, t[44..52], 26);
    assert 36 in {18, 36} && U32(Little, t, 36) == 44;
    MarkMoved(t, END_LAYOUT, {18, 36}, orientation, u, 36);
    BytesKept(t, END_LAYOUT, {18, 36}, orientation, u, 44, 52);
    assert u[44..52][4] == u[48];
    LowByte(u, 48);
    MeaningKept(t, END_LAYOUT, orientation, u, 2);
  }

  lemma LowByte(u: bytes, p: nat)
    requires p + 4 <= |u|
    ensures U32(Little, u, p) == 44 ==> u[p] == 44
  {
  }

  lemma EndValue()
    ensures EndSample()[44..52] == [1, 0, 0, 0, 100, 0, 0, 0]
  {
  }

  /** The walk passes over the Exif directory, the exposure time's offset stays 44, and no longer names the value, which
      has moved to 56. */
  lemma LowTableLosesValue(orientation: nat, u: bytes)
    requires 1 <= orientation <= 8
    requires Edit(LowSample(), LOW_LAYOUT, RootWalk(LowSample(), LOW_LAYOUT), orientation, u)
    ensures AllShift(LowSample(), LOW_LAYOUT, RootWalk(LowSample(), LOW_LAYOUT).fields)
    ensures !Covered(TwoDirectories(0x8769, 0x829A, 8, 44, LowSample()[44..52]), 44)
    ensures ReadBlock(u, LOW_LAYOUT, 2)
         != Some(WithOrientation(
              Relocated(TwoDirectories(0x8769, 0x829A, 8, 44, LowSample()[44..52]), 44), Little, orientation))
    ensures |u| == 64 && U32(Little, u, 18) == 44 && u[44..52] != u[56..64] == LowSample()[44..52]
  {
    hide U16, U32, LowSample, LayoutOf, MarksPlaced, Exact, ReadBlock, WithOrientation, Tidy, Relocated, FullWalk,
      Parted, Covered;
    var t := LowSample();
    LowReadable();
    LowBytes();
    LowValue();
    TablesCovered(0x8769, 0x829A, 8, 44, t[44..52], 44);
    assert Clear({}, 18, 22);
    BytesKept(t, LOW_LAYOUT, {}, orientation, u, 18, 22);
    WordKept(Little, t, 18, u, 18);
    assert U32(Little, t, 18) == 44;
    BytesKept(t, LOW_LAYOUT, {}, orientation, u, 44, 52);
    assert u[44..52][4] == u[48] == u[40..52][8] == OrientationEntry(Little, orientation)[8];
    MeaningKept(t, LOW_LAYOUT, orientation, u, 2);
  }

  lemma LowValue()
    ensures LowSample()[44..52] == [1, 0, 0, 0, 100, 0, 0, 0]
  {
  }

  // ----- a block that keeps its meaning -----

  /** A block with a GPS directory, one rational in it, and twelve bytes behind that. */
  function GpsSample(): (s: bytes)
    ensures |s| == 64
  {
    [0x49, 0x49, 0x2A, 0, 8, 0, 0, 0]                        // header
    + [1, 0, 0x25, 0x88, 4, 0, 1, 0, 0, 0, 26, 0, 0, 0]      // IFD0: GPS directory at 26
    + [0, 0, 0, 0]                                           // no next directory
    + [1, 0, 2, 0, 5, 0, 1, 0, 0, 0, 44, 0, 0, 0]            // GPS: latitude at 44
    + [0, 0, 0, 0]                                           // no next directory
    + [48, 0, 0, 0, 1, 0, 0, 0]                              // 48/1
    + [0, 0, 0, 0, 0, 0, 0, 0, 0, 0, 0, 0]
  }

  lemma GpsBytes()
    ensures TwoTables(GpsSample(), 8, 26, 44, 0x8825, 2)
    ensures GpsSample()[0] == GpsSample()[1] == 0x49 && U16(Little, GpsSample(), 2) == 42
    ensures U32(Little, GpsSample(), 4) == 8
  {
  }

  /** The GPS pointer and the latitude's offset are marked. */
  lemma GpsReadable()
    ensures ParseLayout(GpsSample()) == Some(END_LAYOUT) && NoOrientation(GpsSample(), END_LAYOUT)
    ensures RootWalk(GpsSample(), END_LAYOUT) == Marked({18, 36}, {(8, 0), (26, 1)})
    ensures Tidy(GpsSample(), END_LAYOUT, RootWalk(GpsSample(), END_LAYOUT))
    ensures ReadBlock(GpsSample(), END_LAYOUT, 2) == Some(TwoDirectories(0x8825, 2, 26, 44, GpsSample()[44..52]))
    ensures Parted(TwoDirectories(0x8825, 2, 26, 44, GpsSample()[44..52]), 8, 26)
  {
    hide U16, U32, RawAt, GpsSample, FullWalk, Tidy, TwoTables, Parted, ParseLayout, HasTag, ReadDirectory;
    GpsBytes();
    TablesParted(0x8825, 2, 26, 44, GpsSample()[44..52], 8, 26);
    TablesTidy(GpsSample(), 8, 26, 44, 0x8825, 2);
    TablesLayout(GpsSample(), 8, 26, 44, 0x8825, 2);
    TablesRead(GpsSample(), 8, 26, 44, 0x8825, 2);
    TablesWalked(GpsSample(), 8, 26, 44, 26, 0x8825, 2);
  }

  /** After an insertion the GPS directory is read at 38 and the latitude at 56, followed by the Orientation field. */
  lemma GpsKept(orientation: nat, u: bytes)
    requires Edit(GpsSample(), END_LAYOUT, RootWalk(GpsSample(), END_LAYOUT), orientation, u)
    ensures U32(Little, u, 18) == 38 && U32(Little, u, 48) == 56 && u[56..64] == GpsSample()[44..52]
    ensures ReadBlock(u, END_LAYOUT, 2)
         == Some(Directory(
              [Field(0x8825, 4, 1, SubDir(38, ValueDir(2, 56, GpsSample()[44..52]))),
               Field(0x0112, 3, 1, Inline(PutU16(Little, orientation) + [0, 0]))], NoNext))
  {
    hide U16, U32, GpsSample, OrientationEntry, LayoutOf, MarksPlaced, Exact, ReadBlock, Tidy, FullWalk, Parted,
      Covered, PutU16, Relocated, OrientationField;
    var t := GpsSample();
    var d := TwoDirectories(0x8825, 2, 26, 44, t[44..52]);
    GpsReadable();
    GpsBytes();
    assert 18 in {18, 36} && U32(Little, t, 18) == 26 && U32(Little, t, 36) == 44;
    MarkMoved(t, END_LAYOUT, {18, 36}, orientation, u, 18);
    MarkMoved(t, END_LAYOUT, {18, 36}, orientation, u, 36);
    BytesKept(t, END_LAYOUT, {18, 36}, orientation, u, 44, 52);
    TablesCovered(0x8825, 2, 26, 44, t[44..52], 26);
    MeaningKept(t, END_LAYOUT, orientation, u, 2);
    TablesMoved(0x8825, 2, 26, 44, t[44..52], 26);
    GpsOrientation(orientation);
    var f, x := TwoDirectories(0x8825, 2, 38, 56, t[44..52]).fields[0], OrientationField(Little, orientation);
    assert [f] + [x] == [f, x];
    assert AllShift(t, END_LAYOUT, {18, 36});
  }

  lemma TablesMoved(tag: nat, inner: nat, sub: nat, value: nat, bytes: bytes, e4: nat)
    requires e4 <= sub && e4 <= value
    ensures Relocated(TwoDirectories(tag, inner, sub, value, bytes), e4)
         == TwoDirectories(tag, inner, sub + 12, value + 12, bytes)
  {
    var f := Field(inner, 5, 1, OutOfLine(value, bytes));
    assert RelocatedFields([], e4) == [];
    RelocatedAppend([], f, e4);
    assert [] + [f] == [f] && [] + [RelocatedField(f, e4)] == [RelocatedField(f, e4)];
    var d := ValueDir(inner, value, bytes);
    assert RelocatedLink(NoNext, e4) == NoNext;
    assert Relocated(d, e4) == ValueDir(inner, value + 12, bytes);
    var g := Field(tag, 4, 1, SubDir(sub, d));
    RelocatedAppend([], g, e4);
    assert [] + [g] == [g] && [] + [RelocatedField(g, e4)] == [RelocatedField(g, e4)];
    assert RelocatedField(g, e4) == Field(tag, 4, 1, SubDir(sub + 12, ValueDir(inner, value + 12, bytes)));
  }

  lemma GpsOrientation(orientation: nat)
    requires orientation < 0x1_0000
    ensures OrientationField(Little, orientation) == Field(0x0112, 3, 1, Inline(PutU16(Little, orientation) + [0, 0]))
  {
  }
}
