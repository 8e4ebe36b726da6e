/** `inject_exif_orientation` and `ensure_exif_orientation`: what the edited file reads back as and what it keeps. */
module ExifOrientation {
  import opened Wrappers
  import opened ByteOrder
  import opened JpegSegments
  import opened Tiff
  import opened IfdWalk
  import opened Splice
  import opened Rewrite
  import opened ReadBack

  // ----- exchanging the block -----

  /** After exchanging the block the scan finds the segment at the same place, with the new length and the new block;
      every byte before and behind the segment is unchanged. */
  lemma ExchangedFound(jpeg: bytes, loc: Location, u: bytes)
    requires IsExifAt(jpeg, loc) && Complete(jpeg, loc) && |u| + 8 <= 0xFFFF
    ensures var out := Exchanged(jpeg, loc, u);
            var loc' := Location(loc.pos, |u| + 10);
            && IsExifAt(out, loc') && loc.pos + loc'.total <= |out|
            && TiffOf(out, loc') == u
            && out[..loc.pos] == jpeg[..loc.pos]
            && out[loc.pos + loc'.total..] == jpeg[loc.pos + loc.total..]
  {
    var out := Exchanged(jpeg, loc, u);
    var p, len := loc.pos, PutU16(Big, |u| + 8);
    ReachesMin(jpeg, 2, p);
    ExchangedParts(jpeg, loc, u);
    assert out[p + 2] == out[p + 2..p + 4][0] == len[0] && out[p + 3] == out[p + 2..p + 4][1] == len[1];
    assert out[p] == out[p..p + 2][0] && out[p + 1] == out[p..p + 2][1];
    assert Inspect(out, p) == Found(|u| + 10);
    assert jpeg[p] == jpeg[p..p + 2][0];
    assert out[0] == out[..p][0] && out[1] == out[..p][1];
    ReachesAgree(jpeg, out, 2, p);
  }

  lemma ExchangedParts(jpeg: bytes, loc: Location, u: bytes)
    requires Complete(jpeg, loc) && |u| + 8 <= 0xFFFF
    ensures var out, p := Exchanged(jpeg, loc, u), loc.pos;
            && |out| == |jpeg| - loc.total + |u| + 10
            && out[..p] == jpeg[..p] && out[p..p + 2] == [0xFF, 0xE1] && out[p + 2..p + 4] == PutU16(Big, |u| + 8)
            && out[p + 4..p + 10] == jpeg[p + 4..p + 10] && out[p + 10..p + 10 + |u|] == u
            && out[p + 10 + |u|..] == jpeg[p + loc.total..]
  {
    hide PutU16;
  }

  lemma {:induction false} ReachesMin(jpeg: bytes, from: nat, pos: nat)
    requires Reaches(jpeg, from, pos)
    ensures from <= pos
    decreases pos - from
  {
  }

  /** Rewriting two bytes of the block is an exchange as well. */
  lemma OverwriteIsExchange(jpeg: bytes, loc: Location, p: nat, s: bytes)
    requires IsExifAt(jpeg, loc) && Complete(jpeg, loc) && p + |s| <= loc.total - 10
    ensures |TiffOf(jpeg, loc)| + 8 <= 0xFFFF
    ensures Overwritten(jpeg, loc.pos + 10 + p, s) == Exchanged(jpeg, loc, Overwritten(TiffOf(jpeg, loc), p, s))
  {
    hide PutU16, U16, U32, Overwritten;
    SegmentHead(jpeg, loc);
    OverwriteSplits(jpeg, loc.pos + 10, loc.pos + loc.total, p, s);
  }

  /** The ten bytes before the block are the ones an exchange writes. */
  lemma SegmentHead(jpeg: bytes, loc: Location)
    requires IsExifAt(jpeg, loc) && Complete(jpeg, loc)
    ensures loc.total - 2 <= 0xFFFF
    ensures jpeg[..loc.pos] + [0xFF, 0xE1] + PutU16(Big, loc.total - 2) + jpeg[loc.pos + 4..loc.pos + 10]
        == jpeg[..loc.pos + 10]
  {
    hide PutU16;
    PutReadU16(Big, jpeg, loc.pos + 2);
    assert jpeg[loc.pos..loc.pos + 2] == [0xFF, 0xE1];
  }

  /** Overwriting inside a slice is overwriting the slice. */
  lemma OverwriteSplits(a: bytes, lo: nat, hi: nat, p: nat, s: bytes)
    requires lo <= hi <= |a| && p + |s| <= hi - lo
    ensures Overwritten(a, lo + p, s) == a[..lo] + Overwritten(a[lo..hi], p, s) + a[hi..]
  {
    assert a[..lo + p] == a[..lo] + a[lo..hi][..p];
    assert a[lo + p + |s|..] == a[lo..hi][p + |s|..] + a[hi..];
  }

  // ----- splicing -----

  /** A result of `splice_orientation_into_app1`. */
  ghost predicate Spliced(jpeg: bytes, loc: Location, orientation: nat, out: bytes) {
    && Editable(jpeg, loc) && orientation < 0x1_0000
    && (Rewritten(jpeg, loc, orientation, out) || Grown(jpeg, loc, orientation, out))
  }

  /** Where the segment is found after a change of length. */
  function Shifted(jpeg: bytes, loc: Location, out: bytes): Location
    requires |jpeg| <= |out|
  {
    Location(loc.pos, loc.total + |out| - |jpeg|)
  }

  /** A file that differs from `jpeg` only inside the segment at `loc`, in which the scan finds the segment again. */
  ghost predicate Located(jpeg: bytes, loc: Location, out: bytes) {
    && |jpeg| <= |out|
    && var loc' := Shifted(jpeg, loc, out);
    && IsExifAt(out, loc') && Complete(out, loc')
    && out[..loc.pos] == jpeg[..loc.pos]
    && out[loc.pos + loc'.total..] == jpeg[loc.pos + loc.total..]
  }

  /** The edited segment's block. */
  function EditedBlock(jpeg: bytes, loc: Location, out: bytes): bytes
    requires |jpeg| <= |out| && Complete(out, Shifted(jpeg, loc, out))
  {
    TiffOf(out, Shifted(jpeg, loc, out))
  }

  /** There is no Orientation entry yet, or the last one can hold `orientation` where a reader finds it. */
  ghost predicate Receptive(t: bytes, lay: Layout, orientation: nat)
    requires LayoutOf(t, lay)
  {
    NoOrientation(t, lay) || exists i :: IsLastOrientation(t, lay, i) && Legible(t, lay, i, orientation)
  }

  /** After splicing the segment is found where it was, grown by 0 or 12 bytes, and the rest of the file is untouched.
      The block holds the orientation, and a reader finds it exactly if the block was receptive. */
  lemma SplicedReadsBack(jpeg: bytes, loc: Location, orientation: nat, out: bytes)
    requires IsExifAt(jpeg, loc) && Spliced(jpeg, loc, orientation, out)
    ensures |out| == |jpeg| + if NoOrientation(TiffOf(jpeg, loc), LayoutIn(jpeg, loc)) then 12 else 0
    ensures Located(jpeg, loc, out) && Stored(EditedBlock(jpeg, loc, out), orientation)
    ensures 1 <= orientation <= 8 ==>
              var t, lay := TiffOf(jpeg, loc), LayoutIn(jpeg, loc);
              Yields(EditedBlock(jpeg, loc, out), orientation) <==> Receptive(t, lay, orientation)
    ensures AtMostOne(TiffOf(jpeg, loc)) ==> AtMostOne(EditedBlock(jpeg, loc, out))
  {
    hide U16, U32, Exchanged, Overwritten, Inserted, MarksPlaced, PutU16, Yields, Stored, AtMostOne, IsExifAt, RootWalk,
      HasTag, Legible, RewrittenBlock;
    var t, lay := TiffOf(jpeg, loc), LayoutIn(jpeg, loc);
    if Rewritten(jpeg, loc, orientation, out) {
      var i :| IsLastOrientation(t, lay, i) && loc.pos + 10 + EntryAt(lay.ifd0, i) + 10 <= |jpeg|
        && out == Overwritten(jpeg, loc.pos + 10 + EntryAt(lay.ifd0, i) + 8, PutU16(lay.en, orientation));
      RewrittenIsRead(jpeg, loc, lay, i, orientation);
      ReceptiveWhen(t, lay, i, orientation);
    } else {
      var fields := WalkIn(jpeg, loc).fields;
      var u :| |u| == |t| + 12 && Inserted(t, lay, fields, orientation, u) && out == Exchanged(jpeg, loc, u);
      GrownIsRead(jpeg, loc, lay, fields, orientation, u);
    }
  }

  lemma ReceptiveWhen(t: bytes, lay: Layout, i: nat, orientation: nat)
    requires LayoutOf(t, lay) && IsLastOrientation(t, lay, i)
    ensures !NoOrientation(t, lay) && (Receptive(t, lay, orientation) <==> Legible(t, lay, i, orientation))
  {
    hide HasTag, Legible;
    assert HasTag(t, lay, i);
    if k :| IsLastOrientation(t, lay, k) && Legible(t, lay, k, orientation) {
      assert HasTag(t, lay, k) && k == i;
    }
  }

  lemma RewrittenIsRead(jpeg: bytes, loc: Location, lay: Layout, i: nat, orientation: nat)
    requires IsExifAt(jpeg, loc) && Editable(jpeg, loc) && lay == LayoutIn(jpeg, loc) && orientation < 0x1_0000
    requires IsLastOrientation(TiffOf(jpeg, loc), lay, i)
    ensures loc.pos + 10 + EntryAt(lay.ifd0, i) + 10 <= |jpeg|
    ensures var t, out := TiffOf(jpeg, loc),
        Overwritten(jpeg, loc.pos + 10 + EntryAt(lay.ifd0, i) + 8, PutU16(lay.en, orientation));
            && |out| == |jpeg| && Located(jpeg, loc, out)
            && TiffOf(out, loc) == RewrittenBlock(t, lay, i, orientation)
            && Stored(TiffOf(out, loc), orientation)
            && (1 <= orientation <= 8 ==> (Yields(TiffOf(out, loc), orientation) <==> Legible(t, lay, i, orientation)))
            && (AtMostOne(t) ==> AtMostOne(TiffOf(out, loc)))
  {
    hide U16, U32, Exchanged, PutU16, Yields, Stored, AtMostOne, IsExifAt, Legible;
    var t, p, s := TiffOf(jpeg, loc), EntryAt(lay.ifd0, i) + 8, PutU16(lay.en, orientation);
    OverwriteIsExchange(jpeg, loc, p, s);
    ExchangedFound(jpeg, loc, Overwritten(t, p, s));
    RewrittenStored(t, lay, i, orientation);
    if 1 <= orientation <= 8 {
      RewrittenYields(t, lay, i, orientation);
    }
  }

  lemma GrownIsRead(jpeg: bytes, loc: Location, lay: Layout, fields: set<nat>, orientation: nat, u: bytes)
    requires IsExifAt(jpeg, loc) && Editable(jpeg, loc) && lay == LayoutIn(jpeg, loc) && NeedsInsertion(jpeg, loc)
    requires orientation < 0x1_0000 && MarksPlaced(TiffOf(jpeg, loc), lay, fields)
    requires Inserted(TiffOf(jpeg, loc), lay, fields, orientation, u)
    ensures |u| + 8 <= 0xFFFF
    ensures var out := Exchanged(jpeg, loc, u);
            && |out| == |jpeg| + 12 && Located(jpeg, loc, out)
            && Yields(EditedBlock(jpeg, loc, out), orientation) && Stored(EditedBlock(jpeg, loc, out), orientation)
            && AtMostOne(EditedBlock(jpeg, loc, out))
  {
    hide U16, U32, Exchanged, Inserted, MarksPlaced, Yields, Stored, AtMostOne, IsExifAt;
    var t := TiffOf(jpeg, loc);
    InsertedHead(t, lay, fields, orientation, u);
    InsertedYields(t, lay, fields, orientation, u);
    ExchangedFound(jpeg, loc, u);
    ExchangedParts(jpeg, loc, u);
  }

  /** Splicing the same orientation into a file that already holds it changes nothing. */
  lemma SpliceAgain(jpeg: bytes, loc: Location, orientation: nat, out: bytes)
    requires IsExifAt(jpeg, loc) && Complete(jpeg, loc) && Stored(TiffOf(jpeg, loc), orientation)
    requires Spliced(jpeg, loc, orientation, out)
    ensures out == jpeg
  {
    hide U16, U32, PutU16, IsExifAt, ParseLayout, Overwritten, HasTag, Inserted, MarksPlaced, RootWalk, Exchanged;
    var t, lay := TiffOf(jpeg, loc), LayoutIn(jpeg, loc);
    var i :| IsLastOrientation(t, lay, i) && U16(lay.en, t, EntryAt(lay.ifd0, i) + 8) == orientation;
    assert HasTag(t, lay, i);
    var k :| IsLastOrientation(t, lay, k) && loc.pos + 10 + EntryAt(lay.ifd0, k) + 10 <= |jpeg|
        && out == Overwritten(jpeg, loc.pos + 10 + EntryAt(lay.ifd0, k) + 8, PutU16(lay.en, orientation));
    assert HasTag(t, lay, k) && i == k;
    WriteBack(jpeg, loc, EntryAt(lay.ifd0, i) + 8, lay.en);
  }

  /** Writing back what is read changes nothing. */
  lemma WriteBack(jpeg: bytes, loc: Location, p: nat, en: Endian)
    requires Complete(jpeg, loc) && p + 2 <= |TiffOf(jpeg, loc)|
    ensures Overwritten(jpeg, loc.pos + 10 + p, PutU16(en, U16(en, TiffOf(jpeg, loc), p))) == jpeg
  {
    hide U16, PutU16, Overwritten;
    PutReadU16(en, TiffOf(jpeg, loc), p);
    OverwrittenSame(jpeg, loc.pos + 10, loc.pos + loc.total, p);
  }

  lemma OverwrittenSame(a: bytes, lo: nat, hi: nat, p: nat)
    requires lo <= hi <= |a| && p + 2 <= hi - lo
    ensures Overwritten(a, lo + p, a[lo..hi][p..p + 2]) == a
  {
    var s := a[lo..hi][p..p + 2];
    assert s[0] == a[lo + p] && s[1] == a[lo + p + 1];
    assert a == a[..lo + p] + [a[lo + p], a[lo + p + 1]] + a[lo + p + 2..];
  }

  /** Splicing is idempotent. */
  lemma SpliceIdempotent(jpeg: bytes, loc: Location, orientation: nat, out: bytes, out': bytes)
    requires IsExifAt(jpeg, loc) && Spliced(jpeg, loc, orientation, out)
    requires |jpeg| <= |out| && Spliced(out, Shifted(jpeg, loc, out), orientation, out')
    ensures out' == out
  {
    SplicedReadsBack(jpeg, loc, orientation, out);
    SpliceAgain(out, Shifted(jpeg, loc, out), orientation, out');
  }

  // ----- injecting -----

  /** The 36-byte APP1 segment carrying only an Orientation entry. */
  function MinimalSegment(orientation: nat): (s: bytes)
    requires orientation < 0x1_0000
    ensures |s| == 36
  {
    [0xFF, 0xE1, 0x00, 0x22] + EXIF_HEADER + MinimalBlock(orientation)
  }

  function MinimalBlock(orientation: nat): (s: bytes)
    requires orientation < 0x1_0000
    ensures |s| == 26
  {
    [0x49, 0x49, 0x2A, 0, 8, 0, 0, 0, 1, 0, 0x12, 0x01, 3, 0, 1, 0, 0, 0]
    + [orientation % 256, orientation / 256, 0, 0, 0, 0, 0, 0]
  }

  /** `inject_exif_orientation`. */
  method InjectExifOrientation(jpeg: bytes, orientation: nat) returns (out: bytes)
    requires orientation < 0x1_0000
    ensures out == jpeg || Injected(jpeg, orientation, out)
    ensures out == jpeg <==> !StartsJpeg(jpeg) || exists loc :: IsExifAt(jpeg, loc)
  {
    if |jpeg| < 4 || jpeg[0] != 0xFF || jpeg[1] != 0xD8 {
      return jpeg;
    }
    var found := FindExifApp1(jpeg);
    if found.Some? {
      return jpeg;
    }
    out := jpeg[..2] + MinimalSegment(orientation) + jpeg[2..];
  }

  ghost predicate Injected(jpeg: bytes, orientation: nat, out: bytes) {
    && StartsJpeg(jpeg) && orientation < 0x1_0000 && (forall loc :: !IsExifAt(jpeg, loc))
    && out == jpeg[..2] + MinimalSegment(orientation) + jpeg[2..]
  }

  /** An injected segment is found right behind the SOI marker, yields the orientation, and is the only addition. */
  lemma InjectedReadsBack(jpeg: bytes, orientation: nat, out: bytes)
    requires Injected(jpeg, orientation, out)
    ensures |out| == |jpeg| + 36 && out[..2] == jpeg[..2] && out[38..] == jpeg[2..]
    ensures IsExifAt(out, Location(2, 36)) && Complete(out, Location(2, 36))
    ensures Yields(TiffOf(out, Location(2, 36)), orientation) && AtMostOne(TiffOf(out, Location(2, 36)))
  {
    hide MinimalBlock, Yields, AtMostOne;
    var s := MinimalSegment(orientation);
    assert out[2..38] == s;
    assert out[2] == s[0] && out[3] == s[1] && out[4] == s[2] && out[5] == s[3];
    assert out[6..12] == s[4..10] == EXIF_HEADER;
    assert Inspect(out, 2) == Found(36);
    assert out[0] == jpeg[0] && out[1] == jpeg[1];
    assert TiffOf(out, Location(2, 36)) == MinimalBlock(orientation);
    MinimalYields(orientation);
  }

  lemma MinimalYields(orientation: nat)
    requires orientation < 0x1_0000
    ensures Yields(MinimalBlock(orientation), orientation) && AtMostOne(MinimalBlock(orientation))
  {
    hide U16, U32, MinimalBlock, ReadField;
    var t, lay := MinimalBlock(orientation), Layout(Little, 8, 1, 22);
    MinimalParses(orientation);
    assert IsLastOrientation(t, lay, 0);
    MinimalRead(orientation);
    LastUnique(t, lay, 0, orientation);
  }

  lemma MinimalParses(orientation: nat)
    requires orientation < 0x1_0000
    ensures ParseLayout(MinimalBlock(orientation)) == Some(Layout(Little, 8, 1, 22))
    ensures RawAt(MinimalBlock(orientation), Little, 10) == RawEntry(ORIENTATION_TAG, 3, 1, orientation)
  {
    hide U16, U32, MinimalBlock, RawAt;
    MinimalBytes(orientation);
    assert MinimalBlock(orientation)[..2] == [0x49, 0x49];
  }

  lemma MinimalBytes(orientation: nat)
    requires orientation < 0x1_0000
    ensures var t := MinimalBlock(orientation);
            && t[0] == t[1] == 0x49 && U16(Little, t, 2) == 42 && U32(Little, t, 4) == 8 && U16(Little, t, 8) == 1
            && RawAt(t, Little, 10) == RawEntry(ORIENTATION_TAG, 3, 1, orientation)
  {
  }

  /** The injected block holds one directory with the Orientation entry alone. */
  lemma MinimalMeaning(orientation: nat)
    requires orientation < 0x1_0000
    ensures ReadDirectory(MinimalBlock(orientation), Little, 8, 0, 1)
         == Some(Directory([Field(0x0112, 3, 1, Inline([orientation % 256, orientation / 256, 0, 0]))], NoNext))
  {
    hide U16, U32, MinimalBlock, RawAt;
    var t := MinimalBlock(orientation);
    MinimalParses(orientation);
    MinimalBytes(orientation);
    var f := Field(0x0112, 3, 1, Inline([orientation % 256, orientation / 256, 0, 0]));
    assert ReadField(t, Little, 10, 0, 1) == Some(f) by {
      MinimalTail(orientation);
    }
    assert ReadFields(t, Little, 8, 0, 1, 0) == Some([]);
    assert [] + [f] == [f] && EntryAt(8, 0) == 10 && EntryAt(8, 1) == 22;
    assert ReadFields(t, Little, 8, 0, 1, 1) == Some([f]);
    MinimalTail(orientation);
  }

  lemma MinimalTail(orientation: nat)
    requires orientation < 0x1_0000
    ensures MinimalBlock(orientation)[18..22] == [orientation % 256, orientation / 256, 0, 0]
    ensures U32(Little, MinimalBlock(orientation), 22) == 0
  {
  }

  lemma MinimalRead(orientation: nat)
    requires orientation < 0x1_0000
    ensures FirstShort(Little, ReadField(MinimalBlock(orientation), Little, 10, 0, 1)) == Some(orientation)
  {
    hide U16, U32, MinimalBlock;
    MinimalParses(orientation);
    MinimalValue(orientation);
  }

  lemma MinimalValue(orientation: nat)
    requires orientation < 0x1_0000
    ensures U16(Little, MinimalBlock(orientation)[18..22], 0) == orientation
  {
  }

  // ----- ensuring -----

  /** The file reaches a start-of-scan marker and does not show the wanted orientation yet. */
  predicate Wanted(jpeg: bytes, orientation: nat, existing: Option<nat>) {
    && 1 <= orientation <= 8 && existing != Some(orientation) && !(orientation == 1 && existing.None?)
    && exists i :: 0 <= i < |jpeg| - 1 && jpeg[i] == 0xFF && jpeg[i + 1] == 0xDA
  }

  /** The block has an Orientation entry to rewrite, or room for one and pointers that can all be found. */
  ghost predicate Spliceable(jpeg: bytes, loc: Location) {
    && Editable(jpeg, loc)
    && (NoOrientation(TiffOf(jpeg, loc), LayoutIn(jpeg, loc)) ==>
        NeedsInsertion(jpeg, loc) && WalkIn(jpeg, loc).Marked?)
  }

  /** `ensure_exif_orientation`; `existing` is what the Exif library reads from the file. The file is changed exactly
      when a change is wanted and possible. */
  method EnsureExifOrientation(jpeg: bytes, orientation: nat, existing: Option<nat>) returns (out: bytes)
    requires orientation < 0x1_0000
    requires forall loc :: IsExifAt(jpeg, loc) ==> WalkEnds(jpeg, loc)
    ensures !Wanted(jpeg, orientation, existing) || !StartsJpeg(jpeg) ==> out == jpeg
    ensures Wanted(jpeg, orientation, existing) && StartsJpeg(jpeg) && (forall loc :: !IsExifAt(jpeg, loc))
      ==> Injected(jpeg, orientation, out)
    ensures forall loc :: Wanted(jpeg, orientation, existing) && IsExifAt(jpeg, loc) ==>
              if Spliceable(jpeg, loc) then Spliced(jpeg, loc, orientation, out) else out == jpeg
  {
    hide IsExifAt, Injected, Spliced, Spliceable;
    if !(1 <= orientation <= 8) || existing == Some(orientation) || (orientation == 1 && existing.None?) {
      NotStarting(jpeg);
      return jpeg;
    }
    if !(exists i :: 0 <= i < |jpeg| - 1 && jpeg[i] == 0xFF && jpeg[i + 1] == 0xDA) {
      NotStarting(jpeg);
      return jpeg;
    }
    NotStarting(jpeg);
    var found := FindExifApp1(jpeg);
    if found.None? {
      out := InjectExifOrientation(jpeg, orientation);
    } else {
      var loc := found.value;
      FoundAt(jpeg, loc);
      var r := SpliceOrientation(jpeg, loc, orientation);
      SpliceDecided(jpeg, loc, orientation, r);
      out := if r.Some? then r.value else jpeg;
    }
  }

  /** No segment is found in what is not a JPEG file. */
  lemma NotStarting(jpeg: bytes)
    ensures !StartsJpeg(jpeg) ==> forall loc :: !IsExifAt(jpeg, loc)
  {
  }

  lemma FoundAt(jpeg: bytes, loc: Location)
    requires IsExifAt(jpeg, loc)
    ensures StartsJpeg(jpeg) && Inspect(jpeg, loc.pos) == Found(loc.total)
    ensures forall other :: IsExifAt(jpeg, other) ==> other == loc
  {
    forall other | IsExifAt(jpeg, other) ensures other == loc {
      ExifUnique(jpeg, 2, other.pos, loc.pos);
    }
  }

  /** A splice succeeds exactly on spliceable blocks. */
  lemma SpliceDecided(jpeg: bytes, loc: Location, orientation: nat, r: Option<bytes>)
    requires orientation < 0x1_0000
    requires r.Some? ==> Editable(jpeg, loc)
    requires r.Some? ==> Rewritten(jpeg, loc, orientation, r.value) || Grown(jpeg, loc, orientation, r.value)
    requires r.None? ==> !Editable(jpeg, loc) || (NoOrientation(TiffOf(jpeg, loc), LayoutIn(jpeg, loc))
                          && (NeedsInsertion(jpeg, loc) ==> WalkIn(jpeg, loc).Rejected?))
    ensures r.Some? <==> Spliceable(jpeg, loc)
    ensures r.Some? ==> Spliced(jpeg, loc, orientation, r.value)
  {
    hide Inserted, MarksPlaced, Exchanged, Overwritten, Walk, HasTag, ParseLayout;
    if r.Some? && Rewritten(jpeg, loc, orientation, r.value) {
      var t, lay := TiffOf(jpeg, loc), LayoutIn(jpeg, loc);
      var i :| IsLastOrientation(t, lay, i) && loc.pos + 10 + EntryAt(lay.ifd0, i) + 10 <= |jpeg|
        && r.value == Overwritten(jpeg, loc.pos + 10 + EntryAt(lay.ifd0, i) + 8, PutU16(lay.en, orientation));
      assert HasTag(t, lay, i);
    }
  }

  /** A file changed by `ensure_exif_orientation` differs from the original only by one Exif segment. A reader finds the
      orientation in an injected segment always, in an edited one exactly if its block was receptive. */
  lemma EnsuredReadsBack(jpeg: bytes, orientation: nat, out: bytes)
    requires 1 <= orientation <= 8
    requires Injected(jpeg, orientation, out) ||
        exists loc :: IsExifAt(jpeg, loc) && Spliced(jpeg, loc, orientation, out)
    ensures
      || (|out| == |jpeg| + 36 && Located(jpeg, Location(2, 0), out)
          && Yields(EditedBlock(jpeg, Location(2, 0), out), orientation))
      || (exists loc :: IsExifAt(jpeg, loc) && Editable(jpeg, loc) && (|out| == |jpeg| || |out| == |jpeg| + 12)
            && Located(jpeg, loc, out)
            && (Yields(EditedBlock(jpeg, loc, out), orientation)
                <==> Receptive(TiffOf(jpeg, loc), LayoutIn(jpeg, loc), orientation)))
  {
    hide IsExifAt, Located, Yields, Receptive, Rewritten, Grown;
    if Injected(jpeg, orientation, out) {
      InjectedReadsBack(jpeg, orientation, out);
      InjectedShifted(jpeg, orientation, out);
    } else {
      var loc :| IsExifAt(jpeg, loc) && Spliced(jpeg, loc, orientation, out);
      SplicedReadsBack(jpeg, loc, orientation, out);
    }
  }

  lemma InjectedShifted(jpeg: bytes, orientation: nat, out: bytes)
    requires Injected(jpeg, orientation, out)
    ensures |out| == |jpeg| + 36 && Located(jpeg, Location(2, 0), out)
    ensures Yields(EditedBlock(jpeg, Location(2, 0), out), orientation)
  {
    hide IsExifAt, Yields, AtMostOne;
    InjectedReadsBack(jpeg, orientation, out);
    assert Shifted(jpeg, Location(2, 0), out) == Location(2, 36);
  }
}
