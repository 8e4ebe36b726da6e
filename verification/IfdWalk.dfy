/** `walk_ifd`: discovery of every pointer field that a 12-byte insertion has to shift. */
module IfdWalk {
  import opened ByteOrder
  import opened Tiff

  /** A table position together with the nesting level at which it is visited. */
  type Visit = (nat, nat)

  datatype Walked =
    | Unfinished                                        // the walk goes deeper than the allowed height
    | Rejected                                          // some visited table is malformed
    | Marked(fields: set<nat>, tables: set<Visit>)      // fields to shift, tables visited

  function Both(a: Walked, b: Walked): Walked {
    if !a.Marked? then a
    else if !b.Marked? then b
    else Marked(a.fields + b.fields, a.tables + b.tables)
  }

  /** An offset is shifted when it lies in the moved region or right at its end. */
  predicate Moves(t: bytes, e4: nat, word: nat) {
    e4 <= word <= |t|
  }

  function Walk(t: bytes, en: Endian, e4: nat, off: nat, depth: nat, h: nat): Walked
    decreases h, 2, 0
  {
    if h == 0 then Unfinished
    else if !TableFits(t, en, off) || EntryCount(t, en, off) > 0x2000 then Rejected
    else
      Both(Both(Marked({}, {(off, depth)}), WalkEntries(t, en, e4, off, depth, h, EntryCount(t, en, off))),
           WalkNext(t, en, e4, EntriesEnd(t, en, off), depth, h))
  }

  /** The first `k` entries of the table at `off`, in order. */
  function WalkEntries(t: bytes, en: Endian, e4: nat, off: nat, depth: nat, h: nat, k: nat): Walked
    requires h > 0 && EntryAt(off, k) <= |t|
    decreases h, 1, k
  {
    if k == 0 then Marked({}, {})
    else Both(WalkEntries(t, en, e4, off, depth, h, k - 1), WalkEntry(t, en, e4, EntryAt(off, k - 1), depth, h))
  }

  function WalkEntry(t: bytes, en: Endian, e4: nat, e: nat, depth: nat, h: nat): Walked
    requires h > 0 && e + 12 <= |t|
    decreases h, 0, 0
  {
    var raw := RawAt(t, en, e);
    match Classify(raw, depth)
    case Unknown => Rejected
    case Literal => Marked({}, {})
    case Remote(_) => if Moves(t, e4, raw.word) then Marked({e + 8}, {}) else Marked({}, {})
    case _ =>
      if Moves(t, e4, raw.word)
      then Both(Marked({e + 8}, {}), Walk(t, en, e4, raw.word, Deeper(depth), h - 1)) else Marked({}, {})
  }

  function WalkNext(t: bytes, en: Endian, e4: nat, p: nat, depth: nat, h: nat): Walked
    requires h > 0 && p + 4 <= |t|
    decreases h, 0, 0
  {
    var word := U32(en, t, p);
    if word == 0 || !Moves(t, e4, word) then Marked({}, {})
    else if depth == 0 then Both(Marked({p}, {}), Walk(t, en, e4, word, Deeper(depth), h - 1))
    else Marked({p}, {})
  }

  /** `walk_ifd`, adding to `marks`. It returns only on blocks whose walk is finite, of height `h`. */
  method WalkIfd(t: bytes, en: Endian, off: nat, depth: nat, e4: nat, marks: set<nat>, ghost h: nat)
    returns (ok: bool, out: set<nat>)
    requires depth < 256
    requires !Walk(t, en, e4, off, depth, h).Unfinished?
    ensures ok <==> Walk(t, en, e4, off, depth, h).Marked?
    ensures ok ==> out == marks + Walk(t, en, e4, off, depth, h).fields
    decreases h, 2
  {
    out := marks;
    if off + 2 > |t| {
      return false, out;
    }
    var n := U16(en, t, off);
    var entriesEnd := off + 2 + n * 12;
    if n == 0 || n > 0x2000 || entriesEnd + 4 > |t| {
      return false, out;
    }
    ok, out := VisitEntries(t, en, off, n, depth, e4, out, h);
    if ok {
      ok, out := VisitNext(t, en, entriesEnd, depth, e4, out, h);
    }
  }

  /** The entry loop. */
  method VisitEntries(t: bytes, en: Endian, off: nat, n: nat, depth: nat, e4: nat, marks: set<nat>, ghost h: nat)
    returns (ok: bool, out: set<nat>)
    requires depth < 256 && h > 0 && EntryAt(off, n) <= |t|
    requires !WalkEntries(t, en, e4, off, depth, h, n).Unfinished?
    ensures ok <==> WalkEntries(t, en, e4, off, depth, h, n).Marked?
    ensures ok ==> out == marks + WalkEntries(t, en, e4, off, depth, h, n).fields
    decreases h, 1
  {
    hide U16, U32, WalkEntry;
    out := marks;
    for i := 0 to n
      invariant WalkEntries(t, en, e4, off, depth, h, i).Marked?
      invariant out == marks + WalkEntries(t, en, e4, off, depth, h, i).fields
    {
      PrefixDecides(t, en, e4, off, depth, h, i + 1, n);
      ok, out := VisitEntry(t, en, off + 2 + i * 12, depth, e4, out, h);
      if !ok {
        return;
      }
    }
    ok := true;
  }

  /** One turn of the entry loop. */
  method VisitEntry(t: bytes, en: Endian, e: nat, depth: nat, e4: nat, marks: set<nat>, ghost h: nat)
    returns (ok: bool, out: set<nat>)
    requires depth < 256 && h > 0 && e + 12 <= |t|
    requires !WalkEntry(t, en, e4, e, depth, h).Unfinished?
    ensures ok <==> WalkEntry(t, en, e4, e, depth, h).Marked?
    ensures ok ==> out == marks + WalkEntry(t, en, e4, e, depth, h).fields
    decreases h, 0
  {
    hide U16, U32, Walk;
    out := marks;
    var tag, typ := U16(en, t, e), U16(en, t, e + 2);
    var cnt := U32(en, t, e + 4);
    var size := ValueSize(typ, cnt);
    if size.None? {
      return false, out;
    }
    var word := U32(en, t, e + 8);
    if size.value > 4 {
      if word >= e4 && word <= |t| {
        out := out + {e + 8};
        if depth < 2 && IsSubIfdTag(tag) {
          ok, out := WalkIfd(t, en, word, depth + 1, e4, out, h - 1);
          return;
        }
      }
    } else if cnt == 1 && typ == 4 {
      if IsSubIfdTag(tag) && word >= e4 && word <= |t| {
        out := out + {e + 8};
        ok, out := WalkIfd(t, en, word, (depth + 1) % 256, e4, out, h - 1);
        return;
      }
    }
    ok := true;
  }

  /** The next-table field after the entry loop. */
  method VisitNext(t: bytes, en: Endian, p: nat, depth: nat, e4: nat, marks: set<nat>, ghost h: nat)
    returns (ok: bool, out: set<nat>)
    requires depth < 256 && h > 0 && p + 4 <= |t|
    requires !WalkNext(t, en, e4, p, depth, h).Unfinished?
    ensures ok <==> WalkNext(t, en, e4, p, depth, h).Marked?
    ensures ok ==> out == marks + WalkNext(t, en, e4, p, depth, h).fields
    decreases h, 0
  {
    ok, out := true, marks;
    var next := U32(en, t, p);
    if next != 0 && next >= e4 && next <= |t| {
      out := out + {p};
      if depth == 0 {
        ok, out := WalkIfd(t, en, next, depth + 1, e4, out, h - 1);
      }
    }
  }

  /** A walk that stops inside its first `k` entries stops the same way over all of them. */
  lemma {:induction false} PrefixDecides(t: bytes, en: Endian, e4: nat, off: nat, depth: nat, h: nat, k: nat, n: nat)
    requires h > 0 && k <= n && EntryAt(off, n) <= |t|
    ensures !WalkEntries(t, en, e4, off, depth, h, k).Marked?
            ==> WalkEntries(t, en, e4, off, depth, h, n) == WalkEntries(t, en, e4, off, depth, h, k)
    decreases n - k
  {
    if k < n {
      PrefixDecides(t, en, e4, off, depth, h, k, n - 1);
    }
  }

  // ----- what the marks are -----

  predicate EntryPoints(t: bytes, en: Endian, e4: nat, e: nat, depth: nat)
    requires e + 12 <= |t|
  {
    var raw := RawAt(t, en, e);
    var kind := Classify(raw, depth);
    (kind.Remote? || kind.RemoteTable? || kind.Table?) && Moves(t, e4, raw.word)
  }

  predicate EntryDescends(t: bytes, en: Endian, e4: nat, e: nat, depth: nat)
    requires e + 12 <= |t|
  {
    EntryPoints(t, en, e4, e, depth) && !Classify(RawAt(t, en, e), depth).Remote?
  }

  predicate NextPoints(t: bytes, en: Endian, e4: nat, p: nat)
    requires p + 4 <= |t|
  {
    U32(en, t, p) != 0 && Moves(t, e4, U32(en, t, p))
  }

  /** `m` is the value field of one of the first `k` entries of `v`, and holds an offset that moves. */
  ghost predicate IsEntryField(t: bytes, en: Endian, e4: nat, v: Visit, k: nat, m: nat)
    requires EntryAt(v.0, k) <= |t|
  {
    exists i :: 0 <= i < k && m == EntryAt(v.0, i) + 8 && EntryPoints(t, en, e4, EntryAt(v.0, i), v.1)
  }

  ghost predicate IsPointerField(t: bytes, en: Endian, e4: nat, v: Visit, m: nat)
    requires TableFits(t, en, v.0)
  {
    || IsEntryField(t, en, e4, v, EntryCount(t, en, v.0), m)
    || (m == EntriesEnd(t, en, v.0) && NextPoints(t, en, e4, m))
  }

  /** The tables that the first `k` entries of `v` lead to are all in `tables`. */
  ghost predicate EntriesLeadInto(t: bytes, en: Endian, e4: nat, v: Visit, k: nat, tables: set<Visit>)
    requires EntryAt(v.0, k) <= |t|
  {
    forall i :: 0 <= i < k && EntryDescends(t, en, e4, EntryAt(v.0, i), v.1)
      ==> (RawAt(t, en, EntryAt(v.0, i)).word, Deeper(v.1)) in tables
  }

  ghost predicate NextLeadsInto(t: bytes, en: Endian, e4: nat, v: Visit, tables: set<Visit>)
    requires TableFits(t, en, v.0)
  {
    var p := EntriesEnd(t, en, v.0);
    v.1 == 0 && NextPoints(t, en, e4, p) ==> (U32(en, t, p), Deeper(v.1)) in tables
  }

  /** A visited table: well placed, with everything it leads to visited as well. */
  ghost predicate Settled(t: bytes, en: Endian, e4: nat, v: Visit, tables: set<Visit>) {
    && TableFits(t, en, v.0)
    && EntriesLeadInto(t, en, e4, v, EntryCount(t, en, v.0), tables)
    && NextLeadsInto(t, en, e4, v, tables)
  }

  /** Every table in `w` is settled and past `e4`, and every mark of `w` belongs to one of them. */
  ghost predicate Consistent(t: bytes, en: Endian, e4: nat, w: Walked)
    requires w.Marked?
  {
    && (forall v :: v in w.tables ==> v.0 >= e4 && Settled(t, en, e4, v, w.tables))
    && (forall v, m :: v in w.tables && IsPointerField(t, en, e4, v, m) ==> m in w.fields)
  }

  ghost predicate Owned(t: bytes, en: Endian, e4: nat, m: nat, tables: set<Visit>) {
    exists v :: v in tables && TableFits(t, en, v.0) && IsPointerField(t, en, e4, v, m)
  }

  lemma BothConsistent(t: bytes, en: Endian, e4: nat, a: Walked, b: Walked)
    requires a.Marked? && b.Marked? && Consistent(t, en, e4, a) && Consistent(t, en, e4, b)
    ensures Consistent(t, en, e4, Both(a, b))
    ensures forall m :: Owned(t, en, e4, m, a.tables + b.tables)
                   <==> Owned(t, en, e4, m, a.tables) || Owned(t, en, e4, m, b.tables)
  {
    var w := Both(a, b);
    forall v | v in w.tables ensures Settled(t, en, e4, v, w.tables) {
      assert v in a.tables || v in b.tables;
    }
  }

  /** `w` marks exactly the pointer fields of the tables it visits from `v`, and visits all they lead to. */
  ghost predicate Exact(t: bytes, en: Endian, e4: nat, v: Visit, w: Walked) {
    && w.Marked? && v in w.tables
    && (forall u :: u in w.tables ==> Settled(t, en, e4, u, w.tables))
    && (forall u :: u in w.tables ==> u == v || u.0 >= e4)
    && (forall m :: m in w.fields <==> Owned(t, en, e4, m, w.tables))
  }

  /** The marks are exactly the pointer fields of the visited tables, and every table reached is visited. */
  lemma {:induction false} WalkExact(t: bytes, en: Endian, e4: nat, off: nat, depth: nat, h: nat)
    requires Walk(t, en, e4, off, depth, h).Marked?
    ensures Exact(t, en, e4, (off, depth), Walk(t, en, e4, off, depth, h))
    decreases h, 2, 0
  {
    var v, n, p := (off, depth), EntryCount(t, en, off), EntriesEnd(t, en, off);
    EntriesExact(t, en, e4, off, depth, h, n);
    NextExact(t, en, e4, off, depth, h);
    TableMarked(t, en, e4, v, WalkEntries(t, en, e4, off, depth, h, n), WalkNext(t, en, e4, p, depth, h));
  }

  /** A table's entries and link, taken together with the table itself. */
  lemma TableMarked(t: bytes, en: Endian, e4: nat, v: Visit, es: Walked, nx: Walked)
    requires TableFits(t, en, v.0)
    requires EntriesMarked(t, en, e4, v, EntryCount(t, en, v.0), es)
    requires NextMarked(t, en, e4, v, nx)
    ensures Exact(t, en, e4, v, Both(Both(Marked({}, {v}), es), nx))
  {
    var w := Both(Both(Marked({}, {v}), es), nx);
    assert Settled(t, en, e4, v, w.tables);
    forall m ensures m in w.fields <==> Owned(t, en, e4, m, w.tables) {
      assert IsPointerField(t, en, e4, v, m) ==> m in w.fields;
    }
  }

  /** A pointer field followed by the walk of the table it leads to. */
  lemma LinkMarked(t: bytes, en: Endian, e4: nat, field: nat, v: Visit, w: Walked)
    requires v.0 >= e4 && Exact(t, en, e4, v, w)
    ensures var x := Both(Marked({field}, {}), w);
            && Consistent(t, en, e4, x) && v in x.tables
            && (forall m :: m in x.fields <==> m == field || Owned(t, en, e4, m, x.tables))
  {
    assert Both(Marked({field}, {}), w).tables == w.tables;
  }

  /** `w` is what the first `k` entries of `v` contribute. */
  ghost predicate EntriesMarked(t: bytes, en: Endian, e4: nat, v: Visit, k: nat, w: Walked)
    requires EntryAt(v.0, k) <= |t|
  {
    && w.Marked? && Consistent(t, en, e4, w)
    && EntriesLeadInto(t, en, e4, v, k, w.tables)
    && (forall m :: m in w.fields <==> IsEntryField(t, en, e4, v, k, m) || Owned(t, en, e4, m, w.tables))
  }

  /** `w` is what the entry at `e` contributes. */
  ghost predicate EntryMarked(t: bytes, en: Endian, e4: nat, e: nat, depth: nat, w: Walked)
    requires e + 12 <= |t|
  {
    && w.Marked? && Consistent(t, en, e4, w)
    && (EntryDescends(t, en, e4, e, depth) ==> (RawAt(t, en, e).word, Deeper(depth)) in w.tables)
    && (forall m :: m in w.fields
          <==> (m == e + 8 && EntryPoints(t, en, e4, e, depth)) || Owned(t, en, e4, m, w.tables))
  }

  lemma EntryFieldStep(t: bytes, en: Endian, e4: nat, v: Visit, k: nat, m: nat)
    requires EntryAt(v.0, k + 1) <= |t|
    ensures IsEntryField(t, en, e4, v, k + 1, m)
       <==> || IsEntryField(t, en, e4, v, k, m)
            || (m == EntryAt(v.0, k) + 8 && EntryPoints(t, en, e4, EntryAt(v.0, k), v.1))
  {
  }

  lemma LeadIntoStep(t: bytes, en: Endian, e4: nat, v: Visit, k: nat, a: set<Visit>, b: set<Visit>)
    requires EntryAt(v.0, k + 1) <= |t|
    requires EntriesLeadInto(t, en, e4, v, k, a)
    requires EntryDescends(t, en, e4, EntryAt(v.0, k), v.1) ==> (RawAt(t, en, EntryAt(v.0, k)).word, Deeper(v.1)) in b
    ensures EntriesLeadInto(t, en, e4, v, k + 1, a + b)
  {
  }

  lemma MarkOneMore(t: bytes, en: Endian, e4: nat, v: Visit, k: nat, a: Walked, b: Walked)
    requires EntryAt(v.0, k + 1) <= |t|
    requires EntriesMarked(t, en, e4, v, k, a) && EntryMarked(t, en, e4, EntryAt(v.0, k), v.1, b)
    ensures EntriesMarked(t, en, e4, v, k + 1, Both(a, b))
  {
    var w := Both(a, b);
    assert Consistent(t, en, e4, w) by {
      BothConsistent(t, en, e4, a, b);
    }
    LeadIntoStep(t, en, e4, v, k, a.tables, b.tables);
    forall m ensures m in w.fields <==> IsEntryField(t, en, e4, v, k + 1, m) || Owned(t, en, e4, m, w.tables) {
      EntryFieldStep(t, en, e4, v, k, m);
      BothConsistent(t, en, e4, a, b);
    }
  }

  lemma {:induction false} EntriesExact(t: bytes, en: Endian, e4: nat, off: nat, depth: nat, h: nat, k: nat)
    requires h > 0 && EntryAt(off, k) <= |t|
    requires WalkEntries(t, en, e4, off, depth, h, k).Marked?
    ensures EntriesMarked(t, en, e4, (off, depth), k, WalkEntries(t, en, e4, off, depth, h, k))
    decreases h, 1, k
  {
    hide U16, U32, EntriesMarked, EntryMarked, WalkEntry;
    if k > 0 {
      var e := EntryAt(off, k - 1);
      EntriesExact(t, en, e4, off, depth, h, k - 1);
      EntryExact(t, en, e4, e, depth, h);
      MarkOneMore(t, en, e4, (off, depth), k - 1,
        WalkEntries(t, en, e4, off, depth, h, k - 1), WalkEntry(t, en, e4, e, depth, h));
    } else {
      NothingMarked(t, en, e4, (off, depth));
    }
  }

  lemma NothingMarked(t: bytes, en: Endian, e4: nat, v: Visit)
    requires EntryAt(v.0, 0) <= |t|
    ensures EntriesMarked(t, en, e4, v, 0, Marked({}, {}))
  {
  }

  lemma {:induction false} EntryExact(t: bytes, en: Endian, e4: nat, e: nat, depth: nat, h: nat)
    requires h > 0 && e + 12 <= |t|
    requires WalkEntry(t, en, e4, e, depth, h).Marked?
    ensures EntryMarked(t, en, e4, e, depth, WalkEntry(t, en, e4, e, depth, h))
    decreases h, 0, 0
  {
    if EntryDescends(t, en, e4, e, depth) {
      var word := RawAt(t, en, e).word;
      WalkExact(t, en, e4, word, Deeper(depth), h - 1);
      LinkMarked(t, en, e4, e + 8, (word, Deeper(depth)), Walk(t, en, e4, word, Deeper(depth), h - 1));
    }
  }

  /** `w` is what the link field of `v` contributes. */
  ghost predicate NextMarked(t: bytes, en: Endian, e4: nat, v: Visit, w: Walked)
    requires TableFits(t, en, v.0)
  {
    var p := EntriesEnd(t, en, v.0);
    && w.Marked? && Consistent(t, en, e4, w)
    && NextLeadsInto(t, en, e4, v, w.tables)
    && (forall m :: m in w.fields <==> (m == p && NextPoints(t, en, e4, p)) || Owned(t, en, e4, m, w.tables))
  }

  lemma {:induction false} NextExact(t: bytes, en: Endian, e4: nat, off: nat, depth: nat, h: nat)
    requires h > 0 && TableFits(t, en, off)
    requires WalkNext(t, en, e4, EntriesEnd(t, en, off), depth, h).Marked?
    ensures NextMarked(t, en, e4, (off, depth), WalkNext(t, en, e4, EntriesEnd(t, en, off), depth, h))
    decreases h, 0, 0
  {
    var p := EntriesEnd(t, en, off);
    var word := U32(en, t, p);
    if depth == 0 && NextPoints(t, en, e4, p) {
      WalkExact(t, en, e4, word, Deeper(depth), h - 1);
      LinkMarked(t, en, e4, p, (word, Deeper(depth)), Walk(t, en, e4, word, Deeper(depth), h - 1));
    }
  }

  // ----- when the walk ends -----

  /** Allowing a greater height never changes a finished walk. */
  lemma {:induction false} HeightIrrelevant(t: bytes, en: Endian, e4: nat, off: nat, depth: nat, h: nat)
    requires !Walk(t, en, e4, off, depth, h).Unfinished?
    ensures Walk(t, en, e4, off, depth, h + 1) == Walk(t, en, e4, off, depth, h)
    decreases h, 1
  {
    if TableFits(t, en, off) && EntryCount(t, en, off) <= 0x2000 {
      var n := EntryCount(t, en, off);
      EntriesHeightIrrelevant(t, en, e4, off, depth, h, n);
      var p := EntriesEnd(t, en, off);
      if WalkEntries(t, en, e4, off, depth, h, n).Marked? && NextPoints(t, en, e4, p) && depth == 0 {
        HeightIrrelevant(t, en, e4, U32(en, t, p), Deeper(depth), h - 1);
      }
    }
  }

  lemma {:induction false} EntriesHeightIrrelevant(t: bytes, en: Endian, e4: nat, off: nat, depth: nat, h: nat, k: nat)
    requires h > 0 && EntryAt(off, k) <= |t|
    requires !WalkEntries(t, en, e4, off, depth, h, k).Unfinished?
    ensures WalkEntries(t, en, e4, off, depth, h + 1, k) == WalkEntries(t, en, e4, off, depth, h, k)
    decreases h, 0, k
  {
    hide U16, U32, Walk;
    if k > 0 {
      var e := EntryAt(off, k - 1);
      EntriesHeightIrrelevant(t, en, e4, off, depth, h, k - 1);
      if WalkEntries(t, en, e4, off, depth, h, k - 1).Marked? && EntryDescends(t, en, e4, e, depth) {
        HeightIrrelevant(t, en, e4, RawAt(t, en, e).word, Deeper(depth), h - 1);
      }
    }
  }

  /** A block the reader understands is walked to the end and accepted. */
  lemma {:induction false} ReadableIsWalked(t: bytes, en: Endian, e4: nat, off: nat, depth: nat, h: nat)
    requires |t| <= 0xFFFF
    requires ReadDirectory(t, en, off, depth, h).Some?
    ensures Walk(t, en, e4, off, depth, h).Marked?
    decreases h, 1
  {
    FieldsWalked(t, en, e4, off, depth, h, EntryCount(t, en, off));
    var p := EntriesEnd(t, en, off);
    if NextPoints(t, en, e4, p) && depth == 0 {
      ReadableIsWalked(t, en, e4, U32(en, t, p), Deeper(depth), h - 1);
    }
  }

  lemma {:induction false} FieldsWalked(t: bytes, en: Endian, e4: nat, off: nat, depth: nat, h: nat, k: nat)
    requires |t| <= 0xFFFF && h > 0 && EntryAt(off, k) <= |t|
    requires ReadFields(t, en, off, depth, h, k).Some?
    ensures WalkEntries(t, en, e4, off, depth, h, k).Marked?
    decreases h, 0, k
  {
    hide U16, U32, ReadDirectory, Walk;
    if k > 0 {
      var e := EntryAt(off, k - 1);
      FieldsWalked(t, en, e4, off, depth, h, k - 1);
      if EntryDescends(t, en, e4, e, depth) {
        ReadableIsWalked(t, en, e4, RawAt(t, en, e).word, Deeper(depth), h - 1);
      }
    }
  }
}
