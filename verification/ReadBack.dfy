/** Reading the orientation back from an edited block: exactly when an inserted or rewritten value is found again. */
module ReadBack {
  import opened Wrappers
  import opened ByteOrder
  import opened Tiff
  import opened Splice
  import opened SpliceMeaning
  import opened Rewrite

  /** The last Orientation entry of IFD0 holds `orientation` where a SHORT would stand, whatever its type and count. */
  ghost predicate Stored(t: bytes, orientation: nat) {
    && ParseLayout(t).Some?
    && var lay := ParseLayout(t).value;
       exists i :: IsLastOrientation(t, lay, i) && U16(lay.en, t, EntryAt(lay.ifd0, i) + 8) == orientation
  }

  ghost predicate AtMostOne(t: bytes) {
    ParseLayout(t).Some? ==>
      var lay := ParseLayout(t).value;
      forall i, j :: 0 <= i < j < lay.count ==> !(HasTag(t, lay, i) && HasTag(t, lay, j))
  }

  /** Two blocks that agree on the header and on the first `k` entry tags have the same layout up to the entry count. */
  lemma HeaderAgrees(t: bytes, u: bytes, lay: Layout)
    requires LayoutOf(t, lay) && |t| <= |u| && u[..lay.ifd0] == t[..lay.ifd0]
    requires lay.count <= U16(lay.en, u, lay.ifd0) < 0xFFFF && EntryAt(lay.ifd0, U16(lay.en, u, lay.ifd0)) + 4 <= |u|
    ensures var n := U16(lay.en, u, lay.ifd0); ParseLayout(u) == Some(Layout(lay.en, lay.ifd0, n, EntryAt(lay.ifd0, n)))
  {
    assert forall i :: 0 <= i < 8 ==> u[..lay.ifd0][i] == t[..lay.ifd0][i];
    assert u[..2] == t[..2];
    assert U16(lay.en, u, 2) == U16(lay.en, t, 2);
    SameWord(lay.en, u, 4, t, 4);
  }

  // ----- a rewritten value -----

  /** Rewriting keeps the layout and every tag, and stores the orientation. */
  lemma RewrittenStored(t: bytes, lay: Layout, i: nat, orientation: nat)
    requires ParseLayout(t) == Some(lay) && IsLastOrientation(t, lay, i) && orientation < 0x1_0000
    ensures var u := RewrittenBlock(t, lay, i, orientation);
            && Stored(u, orientation) && (AtMostOne(t) ==> AtMostOne(u)) && ParseLayout(u) == Some(lay)
            && IsLastOrientation(u, lay, i)
  {
    hide U16, U32, ParseLayout, RewrittenBlock, PutU16, SameOutside;
    var u, p := RewrittenBlock(t, lay, i, orientation), EntryAt(lay.ifd0, i) + 8;
    RewrittenHead(t, lay, i, orientation);
    HeaderAgrees(t, u, lay);
    RewrittenOutside(t, lay, i, orientation);
    forall j | 0 <= j < lay.count ensures HasTag(u, lay, j) == HasTag(t, lay, j) {
      TagInEntries(lay, j);
      OutsideShort(t, u, p, lay.en, EntryAt(lay.ifd0, j));
    }
    assert IsLastOrientation(u, lay, i);
  }

  lemma TagInEntries(lay: Layout, j: nat)
    requires j < lay.count
    ensures EntryAt(lay.ifd0, j) + 12 <= EntryAt(lay.ifd0, lay.count)
  {
  }

  lemma RewrittenHead(t: bytes, lay: Layout, i: nat, orientation: nat)
    requires LayoutOf(t, lay) && i < lay.count && orientation < 0x1_0000
    ensures var p, u := EntryAt(lay.ifd0, i) + 8, RewrittenBlock(t, lay, i, orientation);
            && u[..lay.ifd0] == t[..lay.ifd0] && U16(lay.en, u, lay.ifd0) == lay.count
            && EntryAt(lay.ifd0, lay.count) + 4 <= |u| && U16(lay.en, u, p) == orientation
  {
    hide U32;
    var s, p := PutU16(lay.en, orientation), EntryAt(lay.ifd0, i) + 8;
    var u := RewrittenBlock(t, lay, i, orientation);
    assert u[p] == s[0] && u[p + 1] == s[1];
    assert u[lay.ifd0] == t[lay.ifd0] && u[lay.ifd0 + 1] == t[lay.ifd0 + 1];
  }

  /** The value of entry `i`, once rewritten, is what a reader finds: the entry is a SHORT whose value stands in it, or
      the value, taken as an offset into the block, happens to lead to itself. */
  predicate Legible(t: bytes, lay: Layout, i: nat, orientation: nat)
    requires LayoutOf(t, lay) && i < lay.count
  {
    var raw := RawAt(t, lay.en, EntryAt(lay.ifd0, i));
    && raw.typ == 3 && raw.count > 0
    && (raw.count <= 2 || (lay.en.Little? && raw.word < 0x1_0000 && orientation + 2 * raw.count <= |t|
                           && U16(Little, t, orientation) == orientation))
  }

  /** After a rewrite the orientation is read back exactly if the entry was legible. */
  lemma RewrittenYields(t: bytes, lay: Layout, i: nat, orientation: nat)
    requires ParseLayout(t) == Some(lay) && IsLastOrientation(t, lay, i) && 1 <= orientation <= 8 && |t| <= 0xFFFF
    ensures Yields(RewrittenBlock(t, lay, i, orientation), orientation) <==> Legible(t, lay, i, orientation)
  {
    hide U16, U32, ParseLayout, RewrittenBlock, RawAt, ReadField;
    var u := RewrittenBlock(t, lay, i, orientation);
    RewrittenStored(t, lay, i, orientation);
    LastUnique(u, lay, i, orientation);
    RewrittenRead(t, lay, i, orientation);
  }

  /** What the block yields is decided by its one last Orientation entry. */
  lemma LastUnique(u: bytes, lay: Layout, i: nat, orientation: nat)
    requires ParseLayout(u) == Some(lay) && IsLastOrientation(u, lay, i)
    ensures Yields(u, orientation)
       <==> FirstShort(lay.en, ReadField(u, lay.en, EntryAt(lay.ifd0, i), 0, 1)) == Some(orientation)
  {
    hide ParseLayout, ReadField, FirstShort, HasTag;
    if Yields(u, orientation) {
      var k :| IsLastOrientation(u, lay, k)
               && FirstShort(lay.en, ReadField(u, lay.en, EntryAt(lay.ifd0, k), 0, 1)) == Some(orientation);
      assert HasTag(u, lay, i) && HasTag(u, lay, k);
    }
  }

  lemma RewrittenRead(t: bytes, lay: Layout, i: nat, orientation: nat)
    requires LayoutOf(t, lay) && IsLastOrientation(t, lay, i) && 1 <= orientation <= 8 && |t| <= 0xFFFF
    ensures FirstShort(lay.en, ReadField(RewrittenBlock(t, lay, i, orientation), lay.en, EntryAt(lay.ifd0, i), 0, 1))
        == Some(orientation)
       <==> Legible(t, lay, i, orientation)
  {
    hide U16, U32, RewrittenBlock, PutU16;
    var u, e := RewrittenBlock(t, lay, i, orientation), EntryAt(lay.ifd0, i);
    var raw := RawAt(t, lay.en, e);
    RewrittenRaw(t, lay, i, orientation);
    if raw.typ == 3 && 1 <= raw.count <= 2 {
      FirstOf(lay.en, PutU16(lay.en, orientation), t[e + 8..e + 12][2..], orientation);
    } else if raw.typ == 3 && raw.count > 2 && lay.en.Little? && raw.word < 0x1_0000 &&
        orientation + 2 * raw.count <= |t| {
      RewrittenOutside(t, lay, i, orientation);
      OutsideShort(t, u, e + 8, Little, orientation);
      SliceShort(u, orientation, orientation + 2 * raw.count);
    }
  }

  lemma FirstOf(en: Endian, s: bytes, rest: bytes, v: nat)
    requires |s| == 2 && U16(en, s, 0) == v
    ensures U16(en, s + rest, 0) == v
  {
  }

  lemma SliceShort(u: bytes, lo: nat, hi: nat)
    requires lo + 2 <= hi <= |u|
    ensures U16(Little, u[lo..hi], 0) == U16(Little, u, lo)
  {
  }

  /** Every orientation can be read back after a rewrite exactly if the entry is a SHORT with one or two values. */
  lemma AlwaysLegible(t: bytes, lay: Layout, i: nat)
    requires LayoutOf(t, lay) && i < lay.count
    ensures (forall orientation :: 1 <= orientation <= 8 ==> Legible(t, lay, i, orientation))
       <==> RawAt(t, lay.en, EntryAt(lay.ifd0, i)).typ == 3 && 1 <= RawAt(t, lay.en, EntryAt(lay.ifd0, i)).count <= 2
  {
    hide U32, RawAt;
    if forall orientation :: 1 <= orientation <= 8 ==> Legible(t, lay, i, orientation) {
      assert Legible(t, lay, i, 1);
      if lay.en.Little? {
        assert t[..2][1] == 0x49;
      }
    }
  }

  /** A big-endian block whose Orientation entry is a LONG. */
  function LongSample(): (s: bytes)
    ensures |s| == 26
  {
    [0x4D, 0x4D, 0, 0x2A, 0, 0, 0, 8, 0, 1, 0x01, 0x12, 0, 4, 0, 0, 0, 1, 0, 0, 0, 1, 0, 0, 0, 0]
  }

  /** Rewriting it stores the orientation in the upper half of the LONG, and no reader finds it. */
  lemma LongNotReadBack(orientation: nat)
    requires 1 <= orientation <= 8
    ensures var lay := Layout(Big, 8, 1, 22);
            && ParseLayout(LongSample()) == Some(lay) && IsLastOrientation(LongSample(), lay, 0)
            && var u := RewrittenBlock(LongSample(), lay, 0, orientation);
               && Stored(u, orientation) && !Yields(u, orientation)
               && RawAt(u, Big, 10) == RawEntry(ORIENTATION_TAG, 4, 1, orientation * 0x1_0000 + 1)
  {
    hide U16, U32, RewrittenBlock, LongSample, Stored, Yields;
    var t, lay := LongSample(), Layout(Big, 8, 1, 22);
    LongParses();
    assert IsLastOrientation(t, lay, 0);
    RewrittenStored(t, lay, 0, orientation);
    RewrittenYields(t, lay, 0, orientation);
    RewrittenRaw(t, lay, 0, orientation);
  }

  lemma LongParses()
    ensures ParseLayout(LongSample()) == Some(Layout(Big, 8, 1, 22))
    ensures RawAt(LongSample(), Big, 10) == RawEntry(ORIENTATION_TAG, 4, 1, 1)
  {
    hide U16, U32, LongSample, RawAt;
    LongBytes();
    assert LongSample()[..2] == [0x4D, 0x4D];
  }

  lemma LongBytes()
    ensures LongSample()[0] == LongSample()[1] == 0x4D && U16(Big, LongSample(), 2) == 42 &&
        U32(Big, LongSample(), 4) == 8
    ensures U16(Big, LongSample(), 8) == 1 && RawAt(LongSample(), Big, 10) == RawEntry(ORIENTATION_TAG, 4, 1, 1)
  {
  }

  // ----- an inserted value -----

  lemma InsertedYields(t: bytes, lay: Layout, fields: set<nat>, orientation: nat, u: bytes)
    requires ParseLayout(t) == Some(lay) && NoOrientation(t, lay) && lay.count + 1 < 0xFFFF
    requires MarksPlaced(t, lay, fields) && orientation < 0x1_0000
    requires Inserted(t, lay, fields, orientation, u)
    ensures Yields(u, orientation) && Stored(u, orientation) && AtMostOne(u)
    ensures ParseLayout(u) == Some(Layout(lay.en, lay.ifd0, lay.count + 1, lay.end + 12))
  {
    hide U16, U32, OrientationEntry, ParseLayout, MarksPlaced, Inserted, ReadField, FirstShort;
    var lay' := Layout(lay.en, lay.ifd0, lay.count + 1, lay.end + 12);
    InsertedHead(t, lay, fields, orientation, u);
    HeaderAgrees(t, u, lay);
    NewEntryHolds(lay.en, orientation, u, lay.end);
    NewEntryShort(lay.en, orientation, u, lay.end);
    forall j | 0 <= j < lay.count ensures !HasTag(u, lay', j) {
      TagKept(t, lay, fields, orientation, u, j);
      assert !HasTag(t, lay, j);
    }
    assert IsLastOrientation(u, lay', lay.count);
  }

  lemma InsertedHead(t: bytes, lay: Layout, fields: set<nat>, orientation: nat, u: bytes)
    requires LayoutOf(t, lay) && MarksPlaced(t, lay, fields) && orientation < 0x1_0000
    requires Inserted(t, lay, fields, orientation, u)
    ensures |u| == |t| + 12 && u[..lay.ifd0] == t[..lay.ifd0] && U16(lay.en, u, lay.ifd0) == lay.count + 1
    ensures lay.end + 12 <= |u| && u[lay.end..lay.end + 12] == OrientationEntry(lay.en, orientation)
    ensures lay.end == EntryAt(lay.ifd0, lay.count) && lay.end + 16 <= |u|
  {
    hide U16, U32, OrientationEntry, MarksPlaced;
    forall p | 0 <= p < lay.ifd0 ensures u[p] == t[p] {
      HeaderClear(t, lay, fields, p);
    }
  }

  lemma HeaderClear(t: bytes, lay: Layout, fields: set<nat>, p: nat)
    requires MarksPlaced(t, lay, fields) && p < lay.ifd0 <= lay.end
    ensures ClearAt(fields, p)
  {
    hide U32;
  }

  lemma TagKept(t: bytes, lay: Layout, fields: set<nat>, orientation: nat, u: bytes, j: nat)
    requires LayoutOf(t, lay) && MarksPlaced(t, lay, fields) && orientation < 0x1_0000 && j < lay.count
    requires Inserted(t, lay, fields, orientation, u)
    ensures U16(lay.en, u, EntryAt(lay.ifd0, j)) == U16(lay.en, t, EntryAt(lay.ifd0, j))
  {
    hide U32, OrientationEntry;
    var e := EntryAt(lay.ifd0, j);
    forall m | m in fields ensures e + 1 < m || m + 4 <= e {
      if m < E4(lay) && m != lay.end {
        var i :| 0 <= i < lay.count && m == EntryAt(lay.ifd0, i) + 8;
      }
    }
    assert ClearAt(fields, e) && ClearAt(fields, e + 1);
    assert u[Moved(lay, e)] == t[e] && u[Moved(lay, e + 1)] == t[e + 1];
  }

  function TagAt(t: bytes, lay: Layout, i: nat): nat
    requires LayoutOf(t, lay) && i < lay.count
  {
    U16(lay.en, t, EntryAt(lay.ifd0, i))
  }

  /** The entries of IFD0 are in ascending order of tags, as section 2 of TIFF 6.0 demands. */
  predicate Ascending(t: bytes, lay: Layout)
    requires LayoutOf(t, lay)
  {
    forall i, j :: 0 <= i < j < lay.count ==> TagAt(t, lay, i) < TagAt(t, lay, j)
  }

  /** The new entry is the last one: IFD0 is in order afterwards exactly if it was before and its last tag was
      smaller. */
  lemma InsertedAscending(t: bytes, lay: Layout, fields: set<nat>, orientation: nat, u: bytes)
    requires ParseLayout(t) == Some(lay) && NoOrientation(t, lay) && lay.count + 1 < 0xFFFF
    requires MarksPlaced(t, lay, fields) && orientation < 0x1_0000
    requires Inserted(t, lay, fields, orientation, u)
    ensures var lay' := Layout(lay.en, lay.ifd0, lay.count + 1, lay.end + 12);
            LayoutOf(u, lay') &&
            (Ascending(u, lay') <==> Ascending(t, lay) && TagAt(t, lay, lay.count - 1) < ORIENTATION_TAG)
  {
    hide U16, U32, OrientationEntry, MarksPlaced, Inserted, ParseLayout, Yields, Stored, AtMostOne;
    var lay' := Layout(lay.en, lay.ifd0, lay.count + 1, lay.end + 12);
    InsertedYields(t, lay, fields, orientation, u);
    InsertedHead(t, lay, fields, orientation, u);
    NewEntryHolds(lay.en, orientation, u, lay.end);
    forall j | 0 <= j < lay.count ensures TagAt(u, lay', j) == TagAt(t, lay, j) {
      TagKept(t, lay, fields, orientation, u, j);
    }
    assert TagAt(u, lay', lay.count) == ORIENTATION_TAG;
    if Ascending(t, lay) && TagAt(t, lay, lay.count - 1) < ORIENTATION_TAG {
      forall i, j | 0 <= i < j < lay'.count ensures TagAt(u, lay', i) < TagAt(u, lay', j) {
        assert i < lay.count - 1 ==> TagAt(t, lay, i) < TagAt(t, lay, lay.count - 1);
      }
    }
  }

  lemma NewEntryHolds(en: Endian, orientation: nat, u: bytes, p: nat)
    requires orientation < 0x1_0000 && p + 12 <= |u| && u[p..p + 12] == OrientationEntry(en, orientation)
    ensures U16(en, u, p) == ORIENTATION_TAG && U16(en, u, p + 8) == orientation
  {
    hide PutU32;
    var entry, tag, value := OrientationEntry(en, orientation), PutU16(en, ORIENTATION_TAG), PutU16(en, orientation);
    assert entry[0] == tag[0] && entry[1] == tag[1] && entry[8] == value[0] && entry[9] == value[1];
    assert u[p..p + 12][0] == u[p] && u[p..p + 12][1] == u[p + 1] && u[p..p + 12][8] == u[p + 8] &&
        u[p..p + 12][9] == u[p + 9];
  }

  lemma NewEntryShort(en: Endian, orientation: nat, u: bytes, p: nat)
    requires orientation < 0x1_0000 && p + 12 <= |u| && u[p..p + 12] == OrientationEntry(en, orientation)
    ensures FirstShort(en, ReadField(u, en, p, 0, 1)) == Some(orientation)
  {
    hide U16, U32, PutU16, OrientationEntry, ReadField;
    NewEntryRead(en, orientation, u, p, 1);
    FirstOf(en, PutU16(en, orientation), PutU16(en, 0), orientation);
  }
}
