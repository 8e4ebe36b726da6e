/** What the pointer walk visits and marks, in the terms of the file format alone. */
module WalkMarks {
  import opened Wrappers
  import opened ByteOrder
  import opened Tiff
  import opened IfdWalk

  // ----- the format -----

  /** A value of a known type with a 32-bit size. */
  ghost predicate Known(typ: nat, count: nat) {
    exists w: nat :: IsType(typ, w) && w * count < 0x1_0000_0000
  }

  /** A value of a known type that does not fit in the entry. */
  ghost predicate Large(typ: nat, count: nat) {
    exists w: nat :: IsType(typ, w) && 4 < w * count < 0x1_0000_0000
  }

  /** 1 to 8192 entries, and the link field, inside the block. */
  predicate Fits(t: bytes, en: Endian, off: nat) {
    off + 2 <= |t| && 1 <= U16(en, t, off) <= 0x2000 && off + 2 + 12 * U16(en, t, off) + 4 <= |t|
  }

  ghost predicate KnownEntry(t: bytes, en: Endian, e: nat)
    requires e + 12 <= |t|
  {
    Known(U16(en, t, e + 2), U32(en, t, e + 4))
  }

  ghost predicate WellFormed(t: bytes, en: Endian, v: Visit) {
    Fits(t, en, v.0) && forall i :: 0 <= i < U16(en, t, v.0) ==> KnownEntry(t, en, v.0 + 2 + 12 * i)
  }

  /** The offset at `p` lies in the moved area or at its end. */
  predicate MovesAt(t: bytes, en: Endian, e4: nat, p: nat)
    requires p + 4 <= |t|
  {
    e4 <= U32(en, t, p) <= |t|
  }

  /** The Exif and GPS pointers. */
  predicate PointerTag(tag: nat) {
    tag == 0x8769 || tag == 0x8825
  }

  /** The entry at `e` holds an offset into the moved area: of a large value, or of an Exif or GPS directory. */
  ghost predicate OffsetEntry(t: bytes, en: Endian, e4: nat, e: nat)
    requires e + 12 <= |t|
  {
    var typ, count := U16(en, t, e + 2), U32(en, t, e + 4);
    MovesAt(t, en, e4, e + 8) && (Large(typ, count) || (PointerTag(U16(en, t, e)) && typ == 4 && count == 1))
  }

  /** The entry at `e` is an Exif or GPS pointer into the moved area; out-of-line ones count only on the first two
      levels. */
  ghost predicate PointerEntry(t: bytes, en: Endian, e4: nat, e: nat, depth: nat)
    requires e + 12 <= |t|
  {
    var typ, count := U16(en, t, e + 2), U32(en, t, e + 4);
    && MovesAt(t, en, e4, e + 8) && PointerTag(U16(en, t, e))
    && ((typ == 4 && count == 1) || (Large(typ, count) && depth < 2))
  }

  predicate LinkMoves(t: bytes, en: Endian, e4: nat, p: nat)
    requires p + 4 <= |t|
  {
    U32(en, t, p) != 0 && MovesAt(t, en, e4, p)
  }

  /** Entry `i` of the table at `v` leads to the table at `w`. */
  ghost predicate EntryLeads(t: bytes, en: Endian, e4: nat, v: Visit, i: nat, w: Visit)
    requires Fits(t, en, v.0) && i < U16(en, t, v.0)
  {
    var e := v.0 + 2 + 12 * i;
    PointerEntry(t, en, e4, e, v.1) && w == (U32(en, t, e + 8), (v.1 + 1) % 256)
  }

  /** The link of the table at `v` leads to the table at `w`; only the top-level chain is followed. */
  predicate LinkLeads(t: bytes, en: Endian, e4: nat, v: Visit, w: Visit)
    requires Fits(t, en, v.0)
  {
    var p := v.0 + 2 + 12 * U16(en, t, v.0);
    v.1 == 0 && LinkMoves(t, en, e4, p) && w == (U32(en, t, p), 1)
  }

  ghost predicate Leads(t: bytes, en: Endian, e4: nat, v: Visit, w: Visit) {
    && Fits(t, en, v.0)
    && ((exists i: nat :: i < U16(en, t, v.0) && EntryLeads(t, en, e4, v, i, w)) || LinkLeads(t, en, e4, v, w))
  }

  ghost predicate LeadsAlong(t: bytes, en: Endian, e4: nat, p: seq<Visit>) {
    p != [] && forall i :: 0 <= i < |p| - 1 ==> Leads(t, en, e4, p[i], p[i + 1])
  }

  /** Pointers and links lead from `v` to `w`. */
  ghost predicate Reaches(t: bytes, en: Endian, e4: nat, v: Visit, w: Visit) {
    exists p :: LeadsAlong(t, en, e4, p) && p[0] == v && p[|p| - 1] == w
  }

  /** `m` is the value or link field of the table at `v`, and holds an offset that moves. */
  ghost predicate OffsetField(t: bytes, en: Endian, e4: nat, v: Visit, m: nat) {
    && Fits(t, en, v.0)
    && var n := U16(en, t, v.0);
       || (exists i: nat :: i < n && m == v.0 + 2 + 12 * i + 8 && OffsetEntry(t, en, e4, v.0 + 2 + 12 * i))
       || (m == v.0 + 2 + 12 * n && LinkMoves(t, en, e4, m))
  }

  /** `m` is such a field of a table that is reached from `v`. */
  ghost predicate ReachedOffset(t: bytes, en: Endian, e4: nat, v: Visit, m: nat) {
    exists u :: Reaches(t, en, e4, v, u) && OffsetField(t, en, e4, u, m)
  }

  // ----- what the walk makes of an entry -----

  lemma WidthUnique(typ: nat, a: nat, b: nat)
    requires IsType(typ, a) && IsType(typ, b)
    ensures a == b
  {
  }

  lemma SizeKnown(typ: nat, count: nat)
    ensures ValueSize(typ, count).Some? <==> Known(typ, count)
    ensures Large(typ, count) <==> ValueSize(typ, count).Some? && ValueSize(typ, count).value > 4
  {
    if w: nat :| IsType(typ, w) && w * count < 0x1_0000_0000 {
      ValueSizeStandard(typ, count, w);
    }
    ValueSizeStandard(typ, count, 0);
    forall w: nat | IsType(typ, w) && 4 < w * count < 0x1_0000_0000 ensures ValueSize(typ, count) == Some(w * count) {
      ValueSizeStandard(typ, count, w);
    }
  }

  lemma EntryKinds(t: bytes, en: Endian, e4: nat, e: nat, depth: nat)
    requires e + 12 <= |t|
    ensures Classify(RawAt(t, en, e), depth).Unknown? <==> !KnownEntry(t, en, e)
    ensures EntryPoints(t, en, e4, e, depth) <==> OffsetEntry(t, en, e4, e)
    ensures EntryDescends(t, en, e4, e, depth) <==> PointerEntry(t, en, e4, e, depth)
  {
    hide U16, U32, ValueSize, Known, Large;
    SizeKnown(U16(en, t, e + 2), U32(en, t, e + 4));
    LongSize();
  }

  lemma LongSize()
    ensures ValueSize(4, 1).Some? && ValueSize(4, 1).value == 4
  {
  }

  // ----- every visited table is reached and well formed -----

  lemma ReachesSelf(t: bytes, en: Endian, e4: nat, v: Visit)
    ensures Reaches(t, en, e4, v, v)
  {
    hide Leads;
    assert LeadsAlong(t, en, e4, [v]);
  }

  lemma ReachesOn(t: bytes, en: Endian, e4: nat, v: Visit, w: Visit, u: Visit)
    requires Leads(t, en, e4, v, w) && Reaches(t, en, e4, w, u)
    ensures Reaches(t, en, e4, v, u)
  {
    hide Leads;
    var p :| LeadsAlong(t, en, e4, p) && p[0] == w && p[|p| - 1] == u;
    var q := [v] + p;
    assert forall i :: 0 < i < |q| ==> q[i] == p[i - 1];
    assert LeadsAlong(t, en, e4, q) && q[0] == v && q[|q| - 1] == u;
  }

  /** All of `tables` are well formed and reached from `v`. */
  ghost predicate Found(t: bytes, en: Endian, e4: nat, v: Visit, tables: set<Visit>) {
    forall u :: u in tables ==> WellFormed(t, en, u) && Reaches(t, en, e4, v, u)
  }

  lemma FoundOn(t: bytes, en: Endian, e4: nat, v: Visit, w: Visit, tables: set<Visit>)
    requires Leads(t, en, e4, v, w) && Found(t, en, e4, w, tables)
    ensures Found(t, en, e4, v, tables)
  {
    hide Leads, Reaches, WellFormed;
    forall u | u in tables ensures Reaches(t, en, e4, v, u) {
      ReachesOn(t, en, e4, v, w, u);
    }
  }

  lemma {:induction false} TablesFound(t: bytes, en: Endian, e4: nat, off: nat, depth: nat, h: nat)
    requires Walk(t, en, e4, off, depth, h).Marked?
    ensures Found(t, en, e4, (off, depth), Walk(t, en, e4, off, depth, h).tables)
    decreases h, 2, 0
  {
    hide U16, U32, KnownEntry, Reaches, Leads, WalkEntries, WalkNext;
    var n := EntryCount(t, en, off);
    EntriesFound(t, en, e4, (off, depth), h, n);
    NextFound(t, en, e4, (off, depth), h);
    ReachesSelf(t, en, e4, (off, depth));
  }

  lemma {:induction false} EntriesFound(t: bytes, en: Endian, e4: nat, v: Visit, h: nat, k: nat)
    requires h > 0 && Fits(t, en, v.0) && k <= U16(en, t, v.0) && EntryAt(v.0, k) <= |t|
    requires WalkEntries(t, en, e4, v.0, v.1, h, k).Marked?
    ensures forall i :: 0 <= i < k ==> KnownEntry(t, en, v.0 + 2 + 12 * i)
    ensures Found(t, en, e4, v, WalkEntries(t, en, e4, v.0, v.1, h, k).tables)
    decreases h, 1, k
  {
    hide U16, U32, KnownEntry, Reaches, WalkEntry, WellFormed;
    if k > 0 {
      EntriesFound(t, en, e4, v, h, k - 1);
      EntryFound(t, en, e4, v, h, k - 1);
    }
  }

  lemma {:induction false} EntryFound(t: bytes, en: Endian, e4: nat, v: Visit, h: nat, i: nat)
    requires h > 0 && Fits(t, en, v.0) && i < U16(en, t, v.0) && EntryAt(v.0, i) + 12 <= |t|
    requires WalkEntry(t, en, e4, EntryAt(v.0, i), v.1, h).Marked?
    ensures KnownEntry(t, en, EntryAt(v.0, i))
    ensures Found(t, en, e4, v, WalkEntry(t, en, e4, EntryAt(v.0, i), v.1, h).tables)
    decreases h, 0, 0
  {
    hide U16, U32, KnownEntry, Reaches, Walk, PointerEntry, Found;
    var e := EntryAt(v.0, i);
    EntryKinds(t, en, e4, e, v.1);
    if EntryDescends(t, en, e4, e, v.1) {
      var w := (RawAt(t, en, e).word, Deeper(v.1));
      TablesFound(t, en, e4, w.0, w.1, h - 1);
      assert EntryLeads(t, en, e4, v, i, w);
      FoundOn(t, en, e4, v, w, Walk(t, en, e4, w.0, w.1, h - 1).tables);
      assert WalkEntry(t, en, e4, e, v.1, h).tables == Walk(t, en, e4, w.0, w.1, h - 1).tables;
    } else {
      NothingFound(t, en, e4, v);
    }
  }

  lemma NothingFound(t: bytes, en: Endian, e4: nat, v: Visit)
    ensures Found(t, en, e4, v, {})
  {
  }

  lemma {:induction false} NextFound(t: bytes, en: Endian, e4: nat, v: Visit, h: nat)
    requires h > 0 && Fits(t, en, v.0)
    requires WalkNext(t, en, e4, EntriesEnd(t, en, v.0), v.1, h).Marked?
    ensures Found(t, en, e4, v, WalkNext(t, en, e4, EntriesEnd(t, en, v.0), v.1, h).tables)
    decreases h, 0, 0
  {
    hide U16, U32, Reaches, Walk, Found;
    var p := EntriesEnd(t, en, v.0);
    if v.1 == 0 && NextPoints(t, en, e4, p) {
      var w := (U32(en, t, p), 1);
      TablesFound(t, en, e4, w.0, w.1, h - 1);
      assert LinkLeads(t, en, e4, v, w);
      FoundOn(t, en, e4, v, w, Walk(t, en, e4, w.0, w.1, h - 1).tables);
      assert WalkNext(t, en, e4, p, v.1, h).tables == Walk(t, en, e4, w.0, w.1, h - 1).tables;
    } else {
      NothingFound(t, en, e4, v);
    }
  }

  // ----- a rejected walk has met a malformed table -----

  lemma {:induction false} BadTable(t: bytes, en: Endian, e4: nat, off: nat, depth: nat, h: nat) returns (u: Visit)
    requires Walk(t, en, e4, off, depth, h).Rejected?
    ensures Reaches(t, en, e4, (off, depth), u) && !WellFormed(t, en, u)
    decreases h, 2, 0
  {
    hide U16, U32, KnownEntry, Reaches, WalkEntries, WalkNext;
    if !Fits(t, en, off) {
      u := (off, depth);
      ReachesSelf(t, en, e4, u);
    } else if WalkEntries(t, en, e4, off, depth, h, EntryCount(t, en, off)).Rejected? {
      u := BadEntry(t, en, e4, (off, depth), h, EntryCount(t, en, off));
    } else {
      u := BadNext(t, en, e4, (off, depth), h);
    }
  }

  lemma {:induction false} BadEntry(t: bytes, en: Endian, e4: nat, v: Visit, h: nat, k: nat) returns (u: Visit)
    requires h > 0 && Fits(t, en, v.0) && k <= U16(en, t, v.0) && EntryAt(v.0, k) <= |t|
    requires WalkEntries(t, en, e4, v.0, v.1, h, k).Rejected?
    ensures Reaches(t, en, e4, v, u) && !WellFormed(t, en, u)
    decreases h, 1, k
  {
    hide U16, U32, KnownEntry, Reaches, Walk, PointerEntry;
    var e := EntryAt(v.0, k - 1);
    if WalkEntries(t, en, e4, v.0, v.1, h, k - 1).Rejected? {
      u := BadEntry(t, en, e4, v, h, k - 1);
    } else {
      EntryKinds(t, en, e4, e, v.1);
      if !KnownEntry(t, en, e) {
        u := v;
        ReachesSelf(t, en, e4, v);
      } else {
        var w := (RawAt(t, en, e).word, Deeper(v.1));
        u := BadTable(t, en, e4, w.0, w.1, h - 1);
        assert EntryLeads(t, en, e4, v, k - 1, w);
        ReachesOn(t, en, e4, v, w, u);
      }
    }
  }

  lemma {:induction false} BadNext(t: bytes, en: Endian, e4: nat, v: Visit, h: nat) returns (u: Visit)
    requires h > 0 && Fits(t, en, v.0)
    requires WalkNext(t, en, e4, EntriesEnd(t, en, v.0), v.1, h).Rejected?
    ensures Reaches(t, en, e4, v, u) && !WellFormed(t, en, u)
    decreases h, 0, 0
  {
    hide U16, U32, Reaches, Walk;
    var p := EntriesEnd(t, en, v.0);
    var w := (U32(en, t, p), 1);
    u := BadTable(t, en, e4, w.0, w.1, h - 1);
    assert LinkLeads(t, en, e4, v, w);
    ReachesOn(t, en, e4, v, w, u);
  }

  // ----- the walk, exactly -----

  /** What a visited table leads to is visited. */
  lemma LeadsVisited(t: bytes, en: Endian, e4: nat, v: Visit, w: Visit, tables: set<Visit>)
    requires Settled(t, en, e4, v, tables) && Leads(t, en, e4, v, w)
    ensures w in tables
  {
    hide U16, U32, Classify, PointerEntry;
    if i: nat :| i < U16(en, t, v.0) && EntryLeads(t, en, e4, v, i, w) {
      EntryKinds(t, en, e4, EntryAt(v.0, i), v.1);
    }
  }

  lemma {:induction false} PathVisited(t: bytes, en: Endian, e4: nat, tables: set<Visit>, p: seq<Visit>, i: nat)
    requires (forall v :: v in tables ==> Settled(t, en, e4, v, tables))
    requires LeadsAlong(t, en, e4, p) && p[0] in tables && i < |p|
    ensures p[i] in tables
  {
    hide Leads, Settled;
    if i > 0 {
      PathVisited(t, en, e4, tables, p, i - 1);
      LeadsVisited(t, en, e4, p[i - 1], p[i], tables);
    }
  }

  lemma FieldLiteral(t: bytes, en: Endian, e4: nat, v: Visit, m: nat)
    requires TableFits(t, en, v.0) && Fits(t, en, v.0)
    ensures IsPointerField(t, en, e4, v, m) <==> OffsetField(t, en, e4, v, m)
  {
    hide U16, U32, EntryPoints, OffsetEntry;
    forall i: nat | i < U16(en, t, v.0)
      ensures EntryPoints(t, en, e4, EntryAt(v.0, i), v.1) <==> OffsetEntry(t, en, e4, v.0 + 2 + 12 * i)
    {
      EntryKinds(t, en, e4, EntryAt(v.0, i), v.1);
    }
    if IsEntryField(t, en, e4, v, U16(en, t, v.0), m) {
      var i: nat :| i < U16(en, t, v.0) && m == EntryAt(v.0, i) + 8 && EntryPoints(t, en, e4, EntryAt(v.0, i), v.1);
      assert m == v.0 + 2 + 12 * i + 8 && OffsetEntry(t, en, e4, v.0 + 2 + 12 * i);
    }
    if i: nat :| i < U16(en, t, v.0) && m == v.0 + 2 + 12 * i + 8 && OffsetEntry(t, en, e4, v.0 + 2 + 12 * i) {
      assert m == EntryAt(v.0, i) + 8 && EntryPoints(t, en, e4, EntryAt(v.0, i), v.1);
    }
  }

  /** A walk that ends accepts the block exactly if every table it reaches is well formed. It then visits exactly those
      tables, and marks exactly their fields that hold offsets into the moved area: of large values, of Exif and GPS
      directories, and of links. */
  lemma WalkByFormat(t: bytes, en: Endian, e4: nat, off: nat, depth: nat, h: nat)
    requires !Walk(t, en, e4, off, depth, h).Unfinished?
    ensures var w, v := Walk(t, en, e4, off, depth, h), (off, depth);
            && (w.Marked? <==> forall u :: Reaches(t, en, e4, v, u) ==> WellFormed(t, en, u))
            && (w.Marked? ==>
                  && (forall u :: u in w.tables <==> Reaches(t, en, e4, v, u))
                  && (forall m :: m in w.fields <==> ReachedOffset(t, en, e4, v, m)))
  {
    hide Walk, Reaches, WellFormed, OffsetField, Settled, IsPointerField, TableFits;
    var w, v := Walk(t, en, e4, off, depth, h), (off, depth);
    if w.Rejected? {
      var u := BadTable(t, en, e4, off, depth, h);
    } else {
      WalkExact(t, en, e4, off, depth, h);
      TablesFound(t, en, e4, off, depth, h);
      forall u ensures u in w.tables <==> Reaches(t, en, e4, v, u) {
        if Reaches(t, en, e4, v, u) {
          ReachedVisited(t, en, e4, v, u, w.tables);
        }
      }
      forall m ensures m in w.fields <==> exists u :: u in w.tables && OffsetField(t, en, e4, u, m) {
        forall u | u in w.tables
          ensures TableFits(t, en, u.0) && (IsPointerField(t, en, e4, u, m) <==> OffsetField(t, en, e4, u, m))
        {
          VisitedFits(t, en, e4, u, w.tables);
          FieldLiteral(t, en, e4, u, m);
        }
      }
    }
  }

  lemma ReachedVisited(t: bytes, en: Endian, e4: nat, v: Visit, u: Visit, tables: set<Visit>)
    requires v in tables && forall x :: x in tables ==> Settled(t, en, e4, x, tables)
    requires Reaches(t, en, e4, v, u)
    ensures u in tables
  {
    hide Leads, Settled;
    var p :| LeadsAlong(t, en, e4, p) && p[0] == v && p[|p| - 1] == u;
    PathVisited(t, en, e4, tables, p, |p| - 1);
  }

  lemma VisitedFits(t: bytes, en: Endian, e4: nat, u: Visit, tables: set<Visit>)
    requires Settled(t, en, e4, u, tables) && WellFormed(t, en, u)
    ensures TableFits(t, en, u.0) && Fits(t, en, u.0)
  {
  }
}
