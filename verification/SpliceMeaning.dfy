/** Inserting the Orientation entry keeps what a reader of the block sees. */
module SpliceMeaning {
  import opened Wrappers
  import opened ByteOrder
  import opened Tiff
  import opened IfdWalk
  import opened WalkEnd
  import opened Relocation
  import opened Splice

  // ----- the new field -----

  function OrientationField(en: Endian, orientation: nat): Field
    requires orientation < 0x1_0000
  {
    Field(ORIENTATION_TAG, 3, 1, Inline(PutU16(en, orientation) + PutU16(en, 0)))
  }

  ghost function WithOrientation(d: Directory, en: Endian, orientation: nat): Directory
    requires orientation < 0x1_0000
  {
    Directory(d.fields + [OrientationField(en, orientation)], d.next)
  }

  // ----- blocks whose parts do not overlap -----

  /** An out-of-line value avoids IFD0 and every marked field. */
  ghost predicate ValueTidy(t: bytes, lay: Layout, fields: set<nat>, at: nat, size: nat) {
    Clear(fields, at, at + size) && (at + size <= lay.ifd0 || E4(lay) <= at)
  }

  ghost predicate EntryTidy(t: bytes, lay: Layout, fields: set<nat>, e: nat, depth: nat)
    requires e + 12 <= |t|
  {
    var raw := RawAt(t, lay.en, e);
    && Clear(fields, e, e + 8)
    && (!EntryPoints(t, lay.en, E4(lay), e, depth) ==> Clear(fields, e + 8, e + 12))
    && match Classify(raw, depth)
       case Unknown => true
       case Literal => true
       case Remote(size) => ValueTidy(t, lay, fields, raw.word, size)
       case RemoteTable(size) => ValueTidy(t, lay, fields, raw.word, size)
       case Table => true
  }

  ghost predicate LinkTidy(t: bytes, lay: Layout, fields: set<nat>, p: nat)
    requires p + 4 <= |t|
  {
    NextPoints(t, lay.en, E4(lay), p) || Clear(fields, p, p + 4)
  }

  ghost predicate TableTidy(t: bytes, lay: Layout, fields: set<nat>, v: Visit)
    requires TableFits(t, lay.en, v.0)
  {
    && (v.0 != lay.ifd0 ==> Clear(fields, v.0, v.0 + 2))
    && (forall i {:trigger EntryAt(v.0, i)} :: 0 <= i < EntryCount(t, lay.en, v.0)
          ==> EntryTidy(t, lay, fields, EntryAt(v.0, i), v.1))
    && LinkTidy(t, lay, fields, EntriesEnd(t, lay.en, v.0))
  }

  /** Pointer fields overlap neither each other nor any other byte of the visited tables and their values. */
  ghost predicate Tidy(t: bytes, lay: Layout, w: Walked)
    requires w.Marked?
  {
    && (forall m :: m in w.fields ==> Isolated(w.fields, m))
    && (forall v :: v in w.tables ==> TableFits(t, lay.en, v.0) && TableTidy(t, lay, w.fields, v))
  }

  /** `u` results from inserting `orientation` into the tidy block `t` with walk `w`. */
  ghost predicate Edit(t: bytes, lay: Layout, w: Walked, orientation: nat, u: bytes) {
    && LayoutOf(t, lay) && orientation < 0x1_0000
    && Exact(t, lay.en, E4(lay), (lay.ifd0, 0), w)
    && MarksPlaced(t, lay, w.fields)
    && Tidy(t, lay, w)
    && Inserted(t, lay, w.fields, orientation, u)
  }

  // ----- bytes -----

  /** Unmarked bytes keep their content. */
  lemma BytesKept(t: bytes, lay: Layout, fields: set<nat>, orientation: nat, u: bytes, lo: nat, hi: nat)
    requires LayoutOf(t, lay) && orientation < 0x1_0000 && MarksPlaced(t, lay, fields)
    requires Inserted(t, lay, fields, orientation, u)
    requires lo <= hi <= |t| && Clear(fields, lo, hi)
    requires hi <= lay.ifd0 || (lay.ifd0 + 2 <= lo && hi <= lay.end) || lay.end <= lo
    ensures u[Moved(lay, lo)..Moved(lay, lo) + hi - lo] == t[lo..hi]
  {
    hide U16, U32, MarksPlaced, OrientationEntry;
    var q := Moved(lay, lo);
    var a, b := u[q..q + hi - lo], t[lo..hi];
    forall i | 0 <= i < |b| ensures a[i] == b[i] {
      assert ClearAt(fields, lo + i);
      assert Moved(lay, lo + i) == q + i;
    }
  }

  /** Eight equal bytes hold equal tag, type and count. */
  lemma HeadKept(en: Endian, t: bytes, e: nat, u: bytes, q: nat)
    requires e + 12 <= |t| && q + 12 <= |u| && u[q..q + 8] == t[e..e + 8]
    ensures RawAt(u, en, q) == RawAt(t, en, e).(word := U32(en, u, q + 8))
  {
    var a, b := u[q..q + 8], t[e..e + 8];
    assert a[0] == b[0] && a[1] == b[1] && a[2] == b[2] && a[3] == b[3];
    assert a[4] == b[4] && a[5] == b[5] && a[6] == b[6] && a[7] == b[7];
    SameWord(en, u, q + 4, t, e + 4);
  }

  lemma WordKept(en: Endian, t: bytes, p: nat, u: bytes, q: nat)
    requires p + 4 <= |t| && q + 4 <= |u| && u[q..q + 4] == t[p..p + 4]
    ensures U32(en, u, q) == U32(en, t, p)
  {
    var a, b := u[q..q + 4], t[p..p + 4];
    assert a[0] == b[0] && a[1] == b[1] && a[2] == b[2] && a[3] == b[3];
    SameWord(en, u, q, t, p);
  }

  /** The entry lies in IFD0 or behind it, and belongs to the visited table `v`. */
  ghost predicate EntryOfTable(t: bytes, lay: Layout, w: Walked, v: Visit, i: nat) {
    && w.Marked? && v in w.tables && TableFits(t, lay.en, v.0) && i < EntryCount(t, lay.en, v.0)
    && (v.0 == lay.ifd0 || E4(lay) <= v.0)
  }

  lemma PointerMarked(t: bytes, lay: Layout, w: Walked, orientation: nat, u: bytes, v: Visit, i: nat)
    requires Edit(t, lay, w, orientation, u) && EntryOfTable(t, lay, w, v, i)
    requires EntryPoints(t, lay.en, E4(lay), EntryAt(v.0, i), v.1)
    ensures EntryAt(v.0, i) + 8 in w.fields && Isolated(w.fields, EntryAt(v.0, i) + 8)
  {
    assert IsEntryField(t, lay.en, E4(lay), v, EntryCount(t, lay.en, v.0), EntryAt(v.0, i) + 8);
    assert Owned(t, lay.en, E4(lay), EntryAt(v.0, i) + 8, w.tables);
  }

  /** What the reader finds in the last word of a copied entry. */
  function NewWord(t: bytes, lay: Layout, e: nat, depth: nat): nat
    requires e + 12 <= |t|
  {
    var word := RawAt(t, lay.en, e).word;
    if EntryPoints(t, lay.en, E4(lay), e, depth) && Shifts(t, lay, e + 8) then word + 12 else word
  }

  lemma InsertedLength(t: bytes, lay: Layout, fields: set<nat>, orientation: nat, u: bytes)
    requires LayoutOf(t, lay) && orientation < 0x1_0000 && MarksPlaced(t, lay, fields)
    requires Inserted(t, lay, fields, orientation, u)
    ensures |u| == |t| + 12
  {
  }

  lemma MarkMoved(t: bytes, lay: Layout, fields: set<nat>, orientation: nat, u: bytes, m: nat)
    requires LayoutOf(t, lay) && orientation < 0x1_0000 && MarksPlaced(t, lay, fields)
    requires Inserted(t, lay, fields, orientation, u) && m in fields && Isolated(fields, m)
    ensures m + 4 <= |t| && |u| == |t| + 12
    ensures U32(lay.en, u, Moved(lay, m)) == U32(lay.en, t, m) + if Shifts(t, lay, m) then 12 else 0
  {
    hide U32;
  }

  /** An entry keeps tag, type and count; its last word is moved along when it points into the moved area. */
  lemma RawKept(t: bytes, lay: Layout, fields: set<nat>, orientation: nat, u: bytes, e: nat, depth: nat)
    requires LayoutOf(t, lay) && orientation < 0x1_0000 && MarksPlaced(t, lay, fields)
    requires Inserted(t, lay, fields, orientation, u)
    requires e + 12 <= |t| && ((lay.ifd0 + 2 <= e && e + 12 <= lay.end) || E4(lay) <= e)
    requires EntryTidy(t, lay, fields, e, depth)
    requires EntryPoints(t, lay.en, E4(lay), e, depth) ==> e + 8 in fields && Isolated(fields, e + 8)
    ensures Moved(lay, e) + 12 <= |u|
    ensures RawAt(u, lay.en, Moved(lay, e)) == RawAt(t, lay.en, e).(word := NewWord(t, lay, e, depth))
    ensures !EntryPoints(t, lay.en, E4(lay), e, depth) ==> u[Moved(lay, e) + 8..Moved(lay, e) + 12] == t[e + 8..e + 12]
  {
    hide Inserted, MarksPlaced, U16, U32, ValueSize, ValueTidy, Shifts;
    var q := Moved(lay, e);
    assert Moved(lay, e + 8) == q + 8;
    InsertedLength(t, lay, fields, orientation, u);
    BytesKept(t, lay, fields, orientation, u, e, e + 8);
    HeadKept(lay.en, t, e, u, q);
    if !EntryPoints(t, lay.en, E4(lay), e, depth) {
      BytesKept(t, lay, fields, orientation, u, e + 8, e + 12);
      WordKept(lay.en, t, e + 8, u, q + 8);
    } else {
      MarkMoved(t, lay, fields, orientation, u, e + 8);
    }
  }

  // ----- the tree -----

  ghost predicate AllShift(t: bytes, lay: Layout, fields: set<nat>) {
    forall m :: m in fields ==> m + 4 <= |t| && Shifts(t, lay, m)
  }

  /** A directory behind IFD0 is read back at its new place exactly when every pointer below it passes the length test
      and no directory that the walk passes over holds an offset that moves. */
  lemma {:induction false} DirectoryKept(t: bytes, lay: Layout, w: Walked, orientation: nat, u: bytes, v: Visit, h: nat)
    requires Edit(t, lay, w, orientation, u) && |t| <= 0xFFFF
    requires v in w.tables && E4(lay) <= v.0
    requires ReadDirectory(t, lay.en, v.0, v.1, h).Some?
    requires Parted(ReadDirectory(t, lay.en, v.0, v.1, h).value, lay.ifd0, E4(lay))
    ensures Walk(t, lay.en, E4(lay), v.0, v.1, h).Marked?
    ensures var d := ReadDirectory(t, lay.en, v.0, v.1, h).value;
            ReadDirectory(u, lay.en, v.0 + 12, v.1, h) == Some(Relocated(d, E4(lay)))
            <==> AllShift(t, lay, Walk(t, lay.en, E4(lay), v.0, v.1, h).fields) && Covered(d, E4(lay))
    decreases h, 2, 0
  {
    hide Edit, E4, U16, U32, EntryAt, FieldParted, LinkParted, FieldCovered, LinkCovered, RelocatedField, RelocatedLink;
    ReadableIsWalked(t, lay.en, E4(lay), v.0, v.1, h);
    var n := EntryCount(t, lay.en, v.0);
    HeaderKept(t, lay, w, orientation, u, v);
    FieldsKept(t, lay, w, orientation, u, v, v.0 + 12, h, n);
    LinkKept(t, lay, w, orientation, u, v, h);
  }

  lemma HeaderKept(t: bytes, lay: Layout, w: Walked, orientation: nat, u: bytes, v: Visit)
    requires Edit(t, lay, w, orientation, u) && v in w.tables && E4(lay) <= v.0
    ensures TableFits(t, lay.en, v.0)
    ensures TableFits(u, lay.en, v.0 + 12) && EntryCount(u, lay.en, v.0 + 12) == EntryCount(t, lay.en, v.0)
    ensures EntriesEnd(u, lay.en, v.0 + 12) == EntriesEnd(t, lay.en, v.0) + 12
  {
    hide U32, EntryTidy, LinkTidy, OrientationEntry, MarksPlaced;
    assert TableTidy(t, lay, w.fields, v);
    var off := v.0;
    assert ClearAt(w.fields, off) && ClearAt(w.fields, off + 1);
    assert u[off + 12] == t[off] && u[off + 13] == t[off + 1];
  }

  /** The first `k` fields of `v`, read at `off'` in the new block. */
  lemma {:induction false} FieldsKept(
      t: bytes, lay: Layout, w: Walked, orientation: nat, u: bytes, v: Visit, off': nat, h: nat, k: nat)
    requires Edit(t, lay, w, orientation, u) && |t| <= 0xFFFF && h > 0
    requires v in w.tables && TableFits(t, lay.en, v.0) && k <= EntryCount(t, lay.en, v.0)
    requires (v.0 == lay.ifd0 && off' == v.0) || (E4(lay) <= v.0 && off' == v.0 + 12)
    requires ReadFields(t, lay.en, v.0, v.1, h, k).Some?
    requires forall i :: 0 <= i < k ==> FieldParted(ReadFields(t, lay.en, v.0, v.1, h, k).value[i], lay.ifd0, E4(lay))
    ensures WalkEntries(t, lay.en, E4(lay), v.0, v.1, h, k).Marked?
    ensures EntryAt(off', k) <= |u|
    ensures var fs := ReadFields(t, lay.en, v.0, v.1, h, k).value;
            ReadFields(u, lay.en, off', v.1, h, k) == Some(RelocatedFields(fs, E4(lay)))
            <==> AllShift(t, lay, WalkEntries(t, lay.en, E4(lay), v.0, v.1, h, k).fields)
                 && forall i :: 0 <= i < k ==> FieldCovered(fs[i], E4(lay))
    decreases h, 1, k
  {
    hide Edit, U16, U32, RelocatedField, ReadField, WalkEntry, AllShift, RelocatedFields, EntryOfTable, FieldParted,
      FieldCovered;
    EntryPlaces(t, lay, w, orientation, u, v, off', k);
    if k > 0 {
      var all := ReadFields(t, lay.en, v.0, v.1, h, k).value;
      var before, last := ReadFields(t, lay.en, v.0, v.1, h, k - 1).value,
          ReadField(t, lay.en, EntryAt(v.0, k - 1), v.1, h).value;
      assert all == before + [last];
      assert forall i :: 0 <= i < k - 1 ==> before[i] == all[i];
      assert all[k - 1] == last;
      FieldsKept(t, lay, w, orientation, u, v, off', h, k - 1);
      FieldKept(t, lay, w, orientation, u, v, k - 1, h);
      RelocatedAppend(before, last, E4(lay));
      AppendIff(ReadFields(u, lay.en, off', v.1, h, k - 1), ReadField(u, lay.en, EntryAt(off', k - 1), v.1, h),
        RelocatedFields(before, E4(lay)), RelocatedField(last, E4(lay)));
      AllShiftUnion(t, lay, WalkEntries(t, lay.en, E4(lay), v.0, v.1, h, k - 1).fields,
        WalkEntry(t, lay.en, E4(lay), EntryAt(v.0, k - 1), v.1, h).fields);
    } else {
      AllShiftNone(t, lay);
    }
  }

  lemma AllShiftUnion(t: bytes, lay: Layout, a: set<nat>, b: set<nat>)
    ensures AllShift(t, lay, a + b) <==> AllShift(t, lay, a) && AllShift(t, lay, b)
  {
  }

  lemma AllShiftNone(t: bytes, lay: Layout)
    ensures AllShift(t, lay, {}) && RelocatedFields([], E4(lay)) == []
  {
  }

  lemma EntryPlaces(t: bytes, lay: Layout, w: Walked, orientation: nat, u: bytes, v: Visit, off': nat, k: nat)
    requires Edit(t, lay, w, orientation, u)
    requires v in w.tables && TableFits(t, lay.en, v.0) && k <= EntryCount(t, lay.en, v.0)
    requires (v.0 == lay.ifd0 && off' == v.0) || (E4(lay) <= v.0 && off' == v.0 + 12)
    ensures EntryAt(off', k) <= |u|
    ensures k > 0 ==> EntryAt(off', k - 1) == Moved(lay, EntryAt(v.0, k - 1)) && EntryOfTable(t, lay, w, v, k - 1)
  {
  }

  /** Everything the tree argument needs to know about the bytes of one entry. */
  lemma EntryFacts(t: bytes, lay: Layout, w: Walked, orientation: nat, u: bytes, v: Visit, i: nat)
    requires Edit(t, lay, w, orientation, u) && EntryOfTable(t, lay, w, v, i)
    ensures var e := EntryAt(v.0, i);
            var points := EntryPoints(t, lay.en, E4(lay), e, v.1);
            && Moved(lay, e) + 12 <= |u|
            && RawAt(u, lay.en, Moved(lay, e)) == RawAt(t, lay.en, e).(word := NewWord(t, lay, e, v.1))
            && (!points ==> u[Moved(lay, e) + 8..Moved(lay, e) + 12] == t[e + 8..e + 12])
            && EntryTidy(t, lay, w.fields, e, v.1)
            && (EntryDescends(t, lay.en, E4(lay), e, v.1) ==> (RawAt(t, lay.en, e).word, Deeper(v.1)) in w.tables)
  {
    hide U16, U32, RawAt, Inserted, MarksPlaced, NewWord, EntryTidy, LinkTidy, EntryPoints, Classify;
    var e := EntryAt(v.0, i);
    assert TableTidy(t, lay, w.fields, v);
    assert Settled(t, lay.en, E4(lay), v, w.tables);
    if EntryPoints(t, lay.en, E4(lay), e, v.1) {
      PointerMarked(t, lay, w, orientation, u, v, i);
    }
    RawKept(t, lay, w.fields, orientation, u, e, v.1);
  }

  /** An out-of-line value is found at its new offset. */
  lemma ValueKept(t: bytes, lay: Layout, w: Walked, orientation: nat, u: bytes, at: nat, size: nat)
    requires Edit(t, lay, w, orientation, u) && ValueTidy(t, lay, w.fields, at, size) && at + size <= |t|
    ensures NewOffset(at, E4(lay)) + size <= |u| &&
        u[NewOffset(at, E4(lay))..NewOffset(at, E4(lay)) + size] == t[at..at + size]
  {
    hide U16, U32;
    BytesKept(t, lay, w.fields, orientation, u, at, at + size);
  }

  /** Nothing in front of IFD0 changes. */
  lemma StartKept(t: bytes, lay: Layout, w: Walked, orientation: nat, u: bytes)
    requires Edit(t, lay, w, orientation, u)
    ensures SameStart(t, u, lay.ifd0) && lay.ifd0 <= E4(lay)
  {
    hide U16, U32, Tidy, OrientationEntry;
    InsertedLength(t, lay, w.fields, orientation, u);
    assert Clear(w.fields, 0, lay.ifd0);
    BytesKept(t, lay, w.fields, orientation, u, 0, lay.ifd0);
  }

  lemma ReadInside(t: bytes, en: Endian, off: nat, depth: nat, h: nat)
    ensures ReadDirectory(t, en, off, depth, h).Some? ==> off <= |t|
  {
  }

  lemma {:induction false} FieldKept(
      t: bytes, lay: Layout, w: Walked, orientation: nat, u: bytes, v: Visit, i: nat, h: nat)
    requires Edit(t, lay, w, orientation, u) && |t| <= 0xFFFF && h > 0
    requires EntryOfTable(t, lay, w, v, i)
    requires ReadField(t, lay.en, EntryAt(v.0, i), v.1, h).Some?
    requires FieldParted(ReadField(t, lay.en, EntryAt(v.0, i), v.1, h).value, lay.ifd0, E4(lay))
    ensures WalkEntry(t, lay.en, E4(lay), EntryAt(v.0, i), v.1, h).Marked?
    ensures Moved(lay, EntryAt(v.0, i)) + 12 <= |u|
    ensures var f := ReadField(t, lay.en, EntryAt(v.0, i), v.1, h).value;
            ReadField(u, lay.en, Moved(lay, EntryAt(v.0, i)), v.1, h) == Some(RelocatedField(f, E4(lay)))
            <==> && AllShift(t, lay, WalkEntry(t, lay.en, E4(lay), EntryAt(v.0, i), v.1, h).fields)
                 && FieldCovered(f, E4(lay))
    decreases h, 0, 0
  {
    hide Edit, U16, U32, RawAt, Moved, Clear, ValueSize, ValueTidy, ReadDirectory, Walk, Relocated, Stays, Covered,
      Before, Parted, SameStart;
    StartKept(t, lay, w, orientation, u);
    var e := EntryAt(v.0, i);
    var raw := RawAt(t, lay.en, e);
    EntryFacts(t, lay, w, orientation, u, v, i);
    ReadInside(t, lay.en, raw.word, Deeper(v.1), h - 1);
    match Classify(raw, v.1)
    case Literal =>
    case Remote(size) =>
      ValueKept(t, lay, w, orientation, u, raw.word, size);
    case RemoteTable(size) =>
      ValueKept(t, lay, w, orientation, u, raw.word, size);
      if E4(lay) <= raw.word {
        DirectoryKept(t, lay, w, orientation, u, (raw.word, Deeper(v.1)), h - 1);
      } else {
        LowKept(t, u, lay.en, lay.ifd0, E4(lay), raw.word, Deeper(v.1), h - 1);
      }
    case Table =>
      if E4(lay) <= raw.word {
        DirectoryKept(t, lay, w, orientation, u, (raw.word, Deeper(v.1)), h - 1);
      } else {
        LowKept(t, u, lay.en, lay.ifd0, E4(lay), raw.word, Deeper(v.1), h - 1);
      }
  }

  /** Everything the tree argument needs to know about the bytes of a link field. */
  lemma LinkFacts(t: bytes, lay: Layout, w: Walked, orientation: nat, u: bytes, v: Visit)
    requires Edit(t, lay, w, orientation, u)
    requires v in w.tables && TableFits(t, lay.en, v.0) && (v.0 == lay.ifd0 || E4(lay) <= v.0)
    ensures var p := EntriesEnd(t, lay.en, v.0);
            var word := U32(lay.en, t, p);
            && |u| == |t| + 12 && p + 4 <= |t|
            && U32(lay.en, u, p + 12)
                == (if NextPoints(t, lay.en, E4(lay), p) && Shifts(t, lay, p) then word + 12 else word)
            && (NextPoints(t, lay.en, E4(lay), p) && v.1 == 0 ==> (word, Deeper(v.1)) in w.tables)
  {
    hide U16, U32, Inserted, EntryTidy, MarksPlaced, Shifts;
    var p := EntriesEnd(t, lay.en, v.0);
    InsertedLength(t, lay, w.fields, orientation, u);
    assert TableTidy(t, lay, w.fields, v);
    assert Settled(t, lay.en, E4(lay), v, w.tables);
    if !NextPoints(t, lay.en, E4(lay), p) {
      BytesKept(t, lay, w.fields, orientation, u, p, p + 4);
      WordKept(lay.en, t, p, u, p + 12);
    } else {
      assert IsPointerField(t, lay.en, E4(lay), v, p);
      assert Owned(t, lay.en, E4(lay), p, w.tables);
      MarkMoved(t, lay, w.fields, orientation, u, p);
    }
  }

  lemma {:induction false} LinkKept(t: bytes, lay: Layout, w: Walked, orientation: nat, u: bytes, v: Visit, h: nat)
    requires Edit(t, lay, w, orientation, u) && |t| <= 0xFFFF && h > 0
    requires v in w.tables && TableFits(t, lay.en, v.0) && (v.0 == lay.ifd0 || E4(lay) <= v.0)
    requires ReadNext(t, lay.en, EntriesEnd(t, lay.en, v.0), v.1, h).Some?
    requires LinkParted(ReadNext(t, lay.en, EntriesEnd(t, lay.en, v.0), v.1, h).value, lay.ifd0, E4(lay))
    ensures WalkNext(t, lay.en, E4(lay), EntriesEnd(t, lay.en, v.0), v.1, h).Marked?
    ensures EntriesEnd(t, lay.en, v.0) + 16 <= |u|
    ensures var l := ReadNext(t, lay.en, EntriesEnd(t, lay.en, v.0), v.1, h).value;
            ReadNext(u, lay.en, EntriesEnd(t, lay.en, v.0) + 12, v.1, h) == Some(RelocatedLink(l, E4(lay)))
            <==> && AllShift(t, lay, WalkNext(t, lay.en, E4(lay), EntriesEnd(t, lay.en, v.0), v.1, h).fields)
                 && LinkCovered(l, E4(lay))
    decreases h, 0, 0
  {
    hide Edit, U16, U32, EntryAt, EntriesEnd, ReadDirectory, Walk, Relocated, Stays, Covered, Before, Parted, SameStart;
    var word := U32(lay.en, t, EntriesEnd(t, lay.en, v.0));
    LinkFacts(t, lay, w, orientation, u, v);
    StartKept(t, lay, w, orientation, u);
    ReadInside(t, lay.en, word, Deeper(v.1), h - 1);
    if word != 0 && v.1 == 0 {
      if E4(lay) <= word {
        DirectoryKept(t, lay, w, orientation, u, (word, Deeper(v.1)), h - 1);
      } else {
        LowKept(t, u, lay.en, lay.ifd0, E4(lay), word, Deeper(v.1), h - 1);
      }
    }
  }

  // ----- the whole block -----

  /** What a reader sees of the block, at most `h` tables deep. */
  ghost function ReadBlock(t: bytes, lay: Layout, h: nat): Option<Directory> {
    ReadDirectory(t, lay.en, lay.ifd0, 0, h)
  }

  /** The inserted entry, as the reader sees it. */
  lemma NewEntryRead(en: Endian, orientation: nat, u: bytes, p: nat, h: nat)
    requires orientation < 0x1_0000 && h > 0 && p + 12 <= |u| && u[p..p + 12] == OrientationEntry(en, orientation)
    ensures ReadField(u, en, p, 0, h) == Some(OrientationField(en, orientation))
  {
    hide U16, U32, PutU16, OrientationEntry;
    var entry := OrientationEntry(en, orientation);
    OrientationRaw(en, orientation);
    assert u[p..p + 8] == entry[..8];
    HeadKept(en, entry, 0, u, p);
    assert u[p + 8..p + 12] == entry[8..12];
    WordKept(en, entry, 8, u, p + 8);
  }

  lemma NewEntryBytes(t: bytes, lay: Layout, w: Walked, orientation: nat, u: bytes)
    requires Edit(t, lay, w, orientation, u)
    ensures |u| == |t| + 12 && lay.end + 16 <= |u| && u[lay.end..lay.end + 12] == OrientationEntry(lay.en, orientation)
  {
    hide Tidy, Exact, MarksPlaced, OrientationEntry, U32, U16;
  }

  lemma OrientationRaw(en: Endian, orientation: nat)
    requires orientation < 0x1_0000
    ensures var entry := OrientationEntry(en, orientation);
            && RawAt(entry, en, 0).tag == ORIENTATION_TAG && RawAt(entry, en, 0).typ == 3 &&
                RawAt(entry, en, 0).count == 1
            && entry[8..12] == PutU16(en, orientation) + PutU16(en, 0)
  {
    var entry := OrientationEntry(en, orientation);
    assert entry[4..8] == PutU32(en, 1);
    assert entry[2..4] == PutU16(en, 3);
    assert U16(en, entry, 2) == U16(en, PutU16(en, 3), 0);
    WordKept(en, PutU32(en, 1), 0, entry, 4);
  }

  /** The grown IFD0 is a table of one more entry at the old place. */
  lemma GrownTable(t: bytes, lay: Layout, w: Walked, orientation: nat, u: bytes)
    requires Edit(t, lay, w, orientation, u)
    ensures TableFits(u, lay.en, lay.ifd0) && EntryCount(u, lay.en, lay.ifd0) == lay.count + 1
    ensures EntriesEnd(u, lay.en, lay.ifd0) == lay.end + 12 && EntryAt(lay.ifd0, lay.count) == lay.end
  {
    hide Tidy, Exact, MarksPlaced, OrientationEntry, U32;
  }

  /** Inserting the entry keeps the meaning of a tidy block: the reader sees the same directories, every field with its
      tag, type, count and value, at their new offsets, and one Orientation field more — exactly when every pointer
      field behind IFD0 passes the length test of the patch loop, and no directory that the walk passes over, because it
      lies in front of IFD0, holds an offset into the part that moves. */
  lemma MeaningKept(t: bytes, lay: Layout, orientation: nat, u: bytes, h: nat)
    requires LayoutOf(t, lay) && |t| <= 0xFFFF && orientation < 0x1_0000
    requires ReadBlock(t, lay, h).Some?
    requires Parted(ReadBlock(t, lay, h).value, lay.ifd0, E4(lay))
    requires Edit(t, lay, RootWalk(t, lay), orientation, u)
    ensures var d := ReadBlock(t, lay, h).value;
            ReadBlock(u, lay, h) == Some(WithOrientation(Relocated(d, E4(lay)), lay.en, orientation))
            <==> AllShift(t, lay, RootWalk(t, lay).fields) && Covered(d, E4(lay))
  {
    hide Edit, U16, U32, ReadField, WalkEntry, OrientationField, EntryAt, ReadNext, WalkNext, AllShift,
      RelocatedFields, RelocatedLink, RelocatedField, FieldParted, LinkParted, FieldCovered, LinkCovered, FullWalk;
    var w, v := RootWalk(t, lay), (lay.ifd0, 0);
    var d := ReadBlock(t, lay, h).value;
    RootRead(t, lay, h);
    RootVisited(t, lay, w, orientation, u);
    FieldsKept(t, lay, w, orientation, u, v, lay.ifd0, h, lay.count);
    NewEntryBytes(t, lay, w, orientation, u);
    NewEntryRead(lay.en, orientation, u, lay.end, h);
    LinkKept(t, lay, w, orientation, u, v, h);
    var a, b := WalkEntries(t, lay.en, E4(lay), v.0, v.1, h, lay.count).fields,
        WalkNext(t, lay.en, E4(lay), lay.end, v.1, h).fields;
    AllShiftUnion(t, lay, a, b);
    assert {} + a == a;
    GrownRead(t, lay, w, orientation, u, h, RelocatedFields(d.fields, E4(lay)), OrientationField(lay.en, orientation),
      RelocatedLink(d.next, E4(lay)));
  }

  /** The grown IFD0 is read as expected exactly when its old fields, the new one and its link are. */
  lemma GrownRead(
      t: bytes, lay: Layout, w: Walked, orientation: nat, u: bytes, h: nat, fs: seq<Field>, x: Field, l: Link)
    requires Edit(t, lay, w, orientation, u) && h > 0 && |fs| == lay.count
    ensures |u| == |t| + 12 && lay.end + 16 <= |u| && EntryAt(lay.ifd0, lay.count) == lay.end
    ensures ReadBlock(u, lay, h) == Some(Directory(fs + [x], l))
       <==> && ReadFields(u, lay.en, lay.ifd0, 0, h, lay.count) == Some(fs)
            && ReadField(u, lay.en, lay.end, 0, h) == Some(x)
            && ReadNext(u, lay.en, lay.end + 12, 0, h) == Some(l)
  {
    hide Edit, U16, U32, ReadField, ReadNext;
    GrownTable(t, lay, w, orientation, u);
    NewEntryBytes(t, lay, w, orientation, u);
    var before, last := ReadFields(u, lay.en, lay.ifd0, 0, h, lay.count), ReadField(u, lay.en, lay.end, 0, h);
    AppendIff(before, last, fs, x);
    var n: nat := lay.count + 1;
    assert ReadFields(u, lay.en, lay.ifd0, 0, h, n)
        == if before.None? || last.None? then None else Some(before.value + [last.value]);
    var link := ReadNext(u, lay.en, lay.end + 12, 0, h);
    assert ReadBlock(u, lay, h)
        == if before.None? || last.None? || link.None? then None
            else Some(Directory(before.value + [last.value], link.value));
  }

  /** What the reader understands is walked to the end, within the reader's height. */
  lemma RootRead(t: bytes, lay: Layout, h: nat)
    requires LayoutOf(t, lay) && |t| <= 0xFFFF && ReadBlock(t, lay, h).Some?
    ensures RootWalk(t, lay).Marked? && RootWalk(t, lay) == Walk(t, lay.en, E4(lay), lay.ifd0, 0, h)
  {
    hide FullWalk, Walk, ReadDirectory;
    ReadableIsWalked(t, lay.en, E4(lay), lay.ifd0, 0, h);
    FullWalkAt(t, lay.en, E4(lay), (lay.ifd0, 0), h);
  }

  lemma RootVisited(t: bytes, lay: Layout, w: Walked, orientation: nat, u: bytes)
    requires Edit(t, lay, w, orientation, u)
    ensures (lay.ifd0, 0) in w.tables
  {
  }
}
