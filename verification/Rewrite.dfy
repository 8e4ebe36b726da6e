/** Rewriting an Orientation value in place: what a reader of the block sees afterwards. */
module Rewrite {
  import opened Wrappers
  import opened ByteOrder
  import opened Tiff
  import opened Splice
  import opened SpliceMeaning

  /** The first value of a SHORT field, as `read_exif_orientation_from_bytes` takes it. */
  function FirstShort(en: Endian, f: Option<Field>): Option<nat> {
    if f.None? || f.value.typ != 3 || f.value.count == 0 then None
    else
      match f.value.payload
      case Inline(raw) => if |raw| >= 2 then Some(U16(en, raw, 0)) else None
      case OutOfLine(_, value) => if |value| >= 2 then Some(U16(en, value, 0)) else None
      case _ => None
  }

  /** A reader of the block finds `orientation` in the last Orientation entry of IFD0. */
  ghost predicate Yields(t: bytes, orientation: nat) {
    && ParseLayout(t).Some?
    && var lay := ParseLayout(t).value;
       exists i :: IsLastOrientation(t, lay, i)
                   && FirstShort(lay.en, ReadField(t, lay.en, EntryAt(lay.ifd0, i), 0, 1)) == Some(orientation)
  }

  /** The block with the first two bytes of the value of entry `i` rewritten. */
  function RewrittenBlock(t: bytes, lay: Layout, i: nat, orientation: nat): (u: bytes)
    requires LayoutOf(t, lay) && i < lay.count && orientation < 0x1_0000
    ensures |u| == |t|
  {
    Overwritten(t, EntryAt(lay.ifd0, i) + 8, PutU16(lay.en, orientation))
  }

  // ----- bytes -----

  /** `u` is `t` but for the two bytes at `p`. */
  ghost predicate SameOutside(t: bytes, u: bytes, p: nat) {
    |u| == |t| && forall q :: 0 <= q < |t| && (q < p || p + 2 <= q) ==> u[q] == t[q]
  }

  predicate Apart(lo: nat, hi: nat, p: nat) {
    hi <= p || p + 2 <= lo
  }

  lemma OutsideShort(t: bytes, u: bytes, p: nat, en: Endian, q: nat)
    requires SameOutside(t, u, p) && q + 2 <= |t| && Apart(q, q + 2, p)
    ensures U16(en, u, q) == U16(en, t, q)
  {
  }

  lemma OutsideWord(t: bytes, u: bytes, p: nat, en: Endian, q: nat)
    requires SameOutside(t, u, p) && q + 4 <= |t| && Apart(q, q + 4, p)
    ensures U32(en, u, q) == U32(en, t, q)
  {
    SameWord(en, u, q, t, q);
  }

  lemma OutsideSlice(t: bytes, u: bytes, p: nat, lo: nat, hi: nat)
    requires SameOutside(t, u, p) && lo <= hi <= |t| && Apart(lo, hi, p)
    ensures u[lo..hi] == t[lo..hi]
  {
  }

  lemma OutsideRaw(t: bytes, u: bytes, p: nat, en: Endian, e: nat)
    requires SameOutside(t, u, p) && e + 12 <= |t| && Apart(e, e + 12, p)
    ensures RawAt(u, en, e) == RawAt(t, en, e) && u[e + 8..e + 12] == t[e + 8..e + 12]
  {
    hide SameOutside, U16, U32;
    OutsideShort(t, u, p, en, e);
    OutsideShort(t, u, p, en, e + 2);
    OutsideWord(t, u, p, en, e + 4);
    OutsideWord(t, u, p, en, e + 8);
    OutsideSlice(t, u, p, e + 8, e + 12);
  }

  lemma OutsideLength(t: bytes, u: bytes, p: nat)
    requires SameOutside(t, u, p)
    ensures |u| == |t|
  {
  }

  // ----- a directory that keeps away from the two bytes is read as before -----

  /** The directory `d` at `at`, with everything it leads to, does not touch the two bytes at `p`. */
  ghost predicate Away(d: Directory, at: nat, p: nat)
    decreases d, 1
  {
    && Apart(at, EntryAt(at, |d.fields|) + 4, p)
    && (forall i :: 0 <= i < |d.fields| ==> FieldAway(d.fields[i], p))
    && LinkAway(d.next, p)
  }

  ghost predicate FieldAway(f: Field, p: nat)
    decreases f, 0
  {
    match f.payload
    case Inline(_) => true
    case OutOfLine(at, value) => Apart(at, at + |value|, p)
    case OutOfLineDir(at, value, dir) => Apart(at, at + |value|, p) && Away(dir, at, p)
    case SubDir(at, dir) => Away(dir, at, p)
  }

  ghost predicate LinkAway(l: Link, p: nat)
    decreases l, 0
  {
    match l
    case NoNext => true
    case NextDir(at, dir) => Away(dir, at, p)
    case NextUnread(_) => true
  }

  lemma {:induction false} AwayKept(t: bytes, u: bytes, p: nat, en: Endian, off: nat, depth: nat, h: nat)
    requires SameOutside(t, u, p) && ReadDirectory(t, en, off, depth, h).Some?
    requires Away(ReadDirectory(t, en, off, depth, h).value, off, p)
    ensures ReadDirectory(u, en, off, depth, h) == ReadDirectory(t, en, off, depth, h)
    decreases h, 2, 0
  {
    hide SameOutside, U16, U32, ReadField, ReadNext, FieldAway, LinkAway;
    OutsideLength(t, u, p);
    OutsideShort(t, u, p, en, off);
    AwayFieldsKept(t, u, p, en, off, depth, h, EntryCount(t, en, off));
    AwayLinkKept(t, u, p, en, EntriesEnd(t, en, off), depth, h);
  }

  lemma {:induction false} AwayFieldsKept(t: bytes, u: bytes, p: nat, en: Endian, off: nat, depth: nat, h: nat, k: nat)
    requires SameOutside(t, u, p) && h > 0 && EntryAt(off, k) <= |t| && Apart(off, EntryAt(off, k), p)
    requires ReadFields(t, en, off, depth, h, k).Some?
    requires forall i :: 0 <= i < k ==> FieldAway(ReadFields(t, en, off, depth, h, k).value[i], p)
    ensures |u| == |t| && ReadFields(u, en, off, depth, h, k) == ReadFields(t, en, off, depth, h, k)
    decreases h, 1, k
  {
    hide SameOutside, U16, U32, ReadField, FieldAway;
    OutsideLength(t, u, p);
    if k > 0 {
      var e, all := EntryAt(off, k - 1), ReadFields(t, en, off, depth, h, k).value;
      var before := ReadFields(t, en, off, depth, h, k - 1).value;
      assert forall i :: 0 <= i < k - 1 ==> before[i] == all[i];
      assert ReadField(t, en, e, depth, h) == Some(all[k - 1]);
      AwayFieldsKept(t, u, p, en, off, depth, h, k - 1);
      AwayFieldKept(t, u, p, en, e, depth, h);
    }
  }

  lemma {:induction false} AwayFieldKept(t: bytes, u: bytes, p: nat, en: Endian, e: nat, depth: nat, h: nat)
    requires SameOutside(t, u, p) && h > 0 && e + 12 <= |t| && Apart(e, e + 12, p)
    requires ReadField(t, en, e, depth, h).Some? && FieldAway(ReadField(t, en, e, depth, h).value, p)
    ensures |u| == |t| && ReadField(u, en, e, depth, h) == ReadField(t, en, e, depth, h)
    decreases h, 0, 0
  {
    hide SameOutside, U16, U32, RawAt, ReadDirectory, Away, ValueSize;
    OutsideLength(t, u, p);
    OutsideRaw(t, u, p, en, e);
    var raw := RawAt(t, en, e);
    match Classify(raw, depth)
    case Literal =>
    case Remote(size) =>
      OutsideSlice(t, u, p, raw.word, raw.word + size);
    case RemoteTable(size) =>
      OutsideSlice(t, u, p, raw.word, raw.word + size);
      AwayKept(t, u, p, en, raw.word, Deeper(depth), h - 1);
    case Table =>
      AwayKept(t, u, p, en, raw.word, Deeper(depth), h - 1);
  }

  lemma {:induction false} AwayLinkKept(t: bytes, u: bytes, p: nat, en: Endian, q: nat, depth: nat, h: nat)
    requires SameOutside(t, u, p) && h > 0 && q + 4 <= |t| && Apart(q, q + 4, p)
    requires ReadNext(t, en, q, depth, h).Some? && LinkAway(ReadNext(t, en, q, depth, h).value, p)
    ensures |u| == |t| && ReadNext(u, en, q, depth, h) == ReadNext(t, en, q, depth, h)
    decreases h, 0, 0
  {
    hide SameOutside, U32, ReadDirectory, Away;
    OutsideLength(t, u, p);
    OutsideWord(t, u, p, en, q);
    var word := U32(en, t, q);
    if word != 0 && depth == 0 {
      AwayKept(t, u, p, en, word, Deeper(depth), h - 1);
    }
  }

  // ----- the rewritten entry -----

  /** The word of an entry after its first two bytes have been overwritten. */
  function Patched(en: Endian, word: nat, orientation: nat): nat {
    match en
    case Little => word / 0x1_0000 * 0x1_0000 + orientation
    case Big => orientation * 0x1_0000 + word % 0x1_0000
  }

  lemma RewrittenOutside(t: bytes, lay: Layout, i: nat, orientation: nat)
    requires LayoutOf(t, lay) && i < lay.count && orientation < 0x1_0000
    ensures SameOutside(t, RewrittenBlock(t, lay, i, orientation), EntryAt(lay.ifd0, i) + 8)
  {
    hide U16, U32, PutU16;
  }

  lemma ValuePatched(en: Endian, t: bytes, u: bytes, p: nat, orientation: nat)
    requires SameOutside(t, u, p) && p + 4 <= |t| && orientation < 0x1_0000 && u[p..p + 2] == PutU16(en, orientation)
    ensures U32(en, u, p) == Patched(en, U32(en, t, p), orientation)
  {
    hide U16, U32, PutU16, SameOutside;
    OutsideLength(t, u, p);
    ShortAt(en, u, p, PutU16(en, orientation));
    OutsideShort(t, u, p, en, p + 2);
    WordHalves(en, t, p);
    WordHalves(en, u, p);
  }

  /** A short inside a slice of two bytes. */
  lemma ShortAt(en: Endian, u: bytes, p: nat, s: bytes)
    requires p + 2 <= |u| && u[p..p + 2] == s
    ensures U16(en, u, p) == U16(en, s, 0)
  {
    assert u[p] == s[0] && u[p + 1] == s[1];
  }

  lemma WordHalves(en: Endian, t: bytes, p: nat)
    requires p + 4 <= |t|
    ensures U32(en, t, p) == match en
                             case Little => U16(en, t, p) + 0x1_0000 * U16(en, t, p + 2)
                             case Big => 0x1_0000 * U16(en, t, p) + U16(en, t, p + 2)
  {
  }

  /** The entry keeps tag, type and count. */
  lemma RewrittenRaw(t: bytes, lay: Layout, i: nat, orientation: nat)
    requires LayoutOf(t, lay) && i < lay.count && orientation < 0x1_0000
    ensures var u, e := RewrittenBlock(t, lay, i, orientation), EntryAt(lay.ifd0, i);
            var raw := RawAt(t, lay.en, e);
            && RawAt(u, lay.en, e) == raw.(word := Patched(lay.en, raw.word, orientation))
            && u[e + 8..e + 12] == PutU16(lay.en, orientation) + t[e + 8..e + 12][2..]
  {
    hide U16, U32, PutU16, SameOutside, Patched, Overwritten;
    var u, e := RewrittenBlock(t, lay, i, orientation), EntryAt(lay.ifd0, i);
    RewrittenOutside(t, lay, i, orientation);
    OutsideShort(t, u, e + 8, lay.en, e);
    OutsideShort(t, u, e + 8, lay.en, e + 2);
    OutsideWord(t, u, e + 8, lay.en, e + 4);
    OverwrittenSlices(t, e + 8, PutU16(lay.en, orientation));
    ValuePatched(lay.en, t, u, e + 8, orientation);
  }

  lemma OverwrittenSlices(t: bytes, p: nat, s: bytes)
    requires p + 4 <= |t| && |s| == 2
    ensures var u := Overwritten(t, p, s); u[p..p + 2] == s && u[p..p + 4] == s + t[p..p + 4][2..]
  {
  }

  // ----- what the rewrite does to the block's meaning -----

  /** Apart from field `i` itself nothing that the reader looks at touches the two bytes at `p`. */
  ghost predicate OthersAway(d: Directory, i: nat, p: nat) {
    (forall j :: 0 <= j < |d.fields| && j != i ==> FieldAway(d.fields[j], p)) && LinkAway(d.next, p)
  }

  lemma {:induction false} RootFieldsKept(t: bytes, u: bytes, p: nat, en: Endian, off: nat, h: nat, i: nat, k: nat)
    requires SameOutside(t, u, p) && p == EntryAt(off, i) + 8 && p + 4 <= |t| && h > 0 && EntryAt(off, k) <= |t|
    requires ReadFields(t, en, off, 0, h, k).Some?
    requires forall j :: 0 <= j < k && j != i ==> FieldAway(ReadFields(t, en, off, 0, h, k).value[j], p)
    ensures |u| == |t|
    ensures var fs := ReadFields(t, en, off, 0, h, k).value;
            ReadFields(u, en, off, 0, h, k)
              == if k <= i then Some(fs)
                 else
                   var x := ReadField(u, en, EntryAt(off, i), 0, h);
                   if x.None? then None else Some(fs[i := x.value])
    decreases k
  {
    hide SameOutside, U16, U32, ReadField, FieldAway;
    OutsideLength(t, u, p);
    if k > 0 {
      var e, all := EntryAt(off, k - 1), ReadFields(t, en, off, 0, h, k).value;
      var before := ReadFields(t, en, off, 0, h, k - 1).value;
      assert forall j :: 0 <= j < k - 1 ==> before[j] == all[j];
      assert ReadField(t, en, e, 0, h) == Some(all[k - 1]);
      RootFieldsKept(t, u, p, en, off, h, i, k - 1);
      if k - 1 != i {
        AwayFieldKept(t, u, p, en, e, 0, h);
      }
      var x := ReadField(u, en, EntryAt(off, i), 0, h);
      if x.Some? {
        ExchangeStep(before, all[k - 1], i, x.value);
      }
      assert all == before + [all[k - 1]];
    }
  }

  lemma ExchangeStep(before: seq<Field>, last: Field, i: nat, x: Field)
    ensures i < |before| ==> (before + [last])[i := x] == before[i := x] + [last]
    ensures i == |before| ==> (before + [last])[i := x] == before + [x]
  {
  }

  /** Rewriting changes one field and nothing else: a reader sees the old directories with that field exchanged, for a
      field of the same tag, type and count with two new bytes if its value stands in the entry, and for whatever the
      overwritten offset leads to, if anything, otherwise. */
  lemma RewriteKeepsRest(t: bytes, lay: Layout, i: nat, orientation: nat, h: nat)
    requires LayoutOf(t, lay) && IsLastOrientation(t, lay, i) && orientation < 0x1_0000
    requires ReadBlock(t, lay, h).Some? && OthersAway(ReadBlock(t, lay, h).value, i, EntryAt(lay.ifd0, i) + 8)
    ensures var u, d := RewrittenBlock(t, lay, i, orientation), ReadBlock(t, lay, h).value;
            var x := ReadField(u, lay.en, EntryAt(lay.ifd0, i), 0, h);
            && |d.fields| == lay.count
            && ReadBlock(u, lay, h) == (if x.None? then None else Some(Directory(d.fields[i := x.value], d.next)))
            && match d.fields[i].payload
               case Inline(raw) => |raw| == 4 &&
                   x == Some(d.fields[i].(payload := Inline(PutU16(lay.en, orientation) + raw[2..])))
               case OutOfLine(at, value) =>
                 var at' := Patched(lay.en, at, orientation);
                 x == if at' + |value| <= |t| then Some(d.fields[i].(payload := OutOfLine(at', u[at'..at' + |value|])))
                     else None
               case _ => false
  {
    hide SameOutside, U16, U32, PutU16, Patched, FieldAway, LinkAway, ReadNext, RewrittenBlock, HasTag;
    var u, d, e := RewrittenBlock(t, lay, i, orientation), ReadBlock(t, lay, h).value, EntryAt(lay.ifd0, i);
    RewrittenOutside(t, lay, i, orientation);
    OutsideShort(t, u, e + 8, lay.en, lay.ifd0);
    OutsideLength(t, u, e + 8);
    RootFieldsKept(t, u, e + 8, lay.en, lay.ifd0, h, i, lay.count);
    AwayLinkKept(t, u, e + 8, lay.en, lay.end, 0, h);
    FieldAt(t, lay, h, lay.count, i);
    FieldRewritten(t, lay, i, orientation, h);
  }

  lemma {:induction false} FieldAt(t: bytes, lay: Layout, h: nat, k: nat, i: nat)
    requires LayoutOf(t, lay) && h > 0 && i < k <= lay.count && ReadFields(t, lay.en, lay.ifd0, 0, h, k).Some?
    ensures ReadField(t, lay.en, EntryAt(lay.ifd0, i), 0, h) == Some(ReadFields(t, lay.en, lay.ifd0, 0, h, k).value[i])
    decreases k
  {
    hide ReadField, U16, U32;
    if i < k - 1 {
      FieldAt(t, lay, h, k - 1, i);
    }
  }

  lemma FieldRewritten(t: bytes, lay: Layout, i: nat, orientation: nat, h: nat)
    requires LayoutOf(t, lay) && i < lay.count && HasTag(t, lay, i) && orientation < 0x1_0000 && h > 0
    requires ReadField(t, lay.en, EntryAt(lay.ifd0, i), 0, h).Some?
    ensures var u, e := RewrittenBlock(t, lay, i, orientation), EntryAt(lay.ifd0, i);
            var f, x := ReadField(t, lay.en, e, 0, h).value, ReadField(u, lay.en, e, 0, h);
            match f.payload
            case Inline(raw) => |raw| == 4 && x == Some(f.(payload := Inline(PutU16(lay.en, orientation) + raw[2..])))
            case OutOfLine(at, value) =>
              var at' := Patched(lay.en, at, orientation);
              x == if at' + |value| <= |t| then Some(f.(payload := OutOfLine(at', u[at'..at' + |value|]))) else None
            case _ => false
  {
    hide U16, U32, PutU16, Patched, RewrittenBlock, ValueSize, ReadDirectory;
    RewrittenRaw(t, lay, i, orientation);
  }
}
