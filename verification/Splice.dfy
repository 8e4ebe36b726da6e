/** `splice_orientation_into_app1`: rewriting or inserting the Orientation entry of IFD0. */
module Splice {
  import opened Wrappers
  import opened ByteOrder
  import opened JpegSegments
  import opened Tiff
  import opened IfdWalk
  import opened WalkEnd

  /** Byte order of a block, and where its first directory and that directory's entries end. */
  datatype Layout = Layout(en: Endian, ifd0: nat, count: nat, end: nat)

  /** Start of the area that moves when an entry is inserted. */
  function E4(lay: Layout): nat {
    lay.end + 4
  }

  function ParseEndian(t: bytes): Option<Endian>
    requires |t| >= 2
  {
    if t[..2] == [0x49, 0x49] then Some(Little)
    else if t[..2] == [0x4D, 0x4D] then Some(Big)
    else None
  }

  function ParseLayout(t: bytes): (r: Option<Layout>)
    ensures r.Some? ==> LayoutOf(t, r.value)
  {
    if |t| < 8 || ParseEndian(t).None? then None
    else
      var en := ParseEndian(t).value;
      var ifd0 := U32(en, t, 4);
      if U16(en, t, 2) != 42 || ifd0 < 8 || ifd0 + 2 > |t| then None
      else
        var count := U16(en, t, ifd0);
        var end := ifd0 + 2 + count * 12;
        if count == 0 || count >= 0xFFFF || end + 4 > |t| then None
        else Some(Layout(en, ifd0, count, end))
  }

  predicate LayoutOf(t: bytes, lay: Layout) {
    && 8 <= lay.ifd0 && TableFits(t, lay.en, lay.ifd0)
    && lay.count == EntryCount(t, lay.en, lay.ifd0) < 0xFFFF
    && lay.end == EntriesEnd(t, lay.en, lay.ifd0)
    && ParseEndian(t) == Some(lay.en) && U16(lay.en, t, 2) == 42 && U32(lay.en, t, 4) == lay.ifd0
  }

  /** Which blocks have a layout, and which, byte by byte. */
  lemma LayoutExact(t: bytes, lay: Layout)
    ensures ParseLayout(t) == Some(lay)
       <==> && |t| >= 8 && t[0] == t[1]
            && ((lay.en.Little? && t[0] == 0x49) || (lay.en.Big? && t[0] == 0x4D))
            && U16(lay.en, t, 2) == 42 && U32(lay.en, t, 4) == lay.ifd0
            && 8 <= lay.ifd0 && lay.ifd0 + 2 <= |t|
            && U16(lay.en, t, lay.ifd0) == lay.count && 1 <= lay.count <= 0xFFFE
            && lay.end == lay.ifd0 + 2 + 12 * lay.count && lay.end + 4 <= |t|
  {
    hide U16, U32;
    if |t| >= 8 {
      assert t[..2] == [t[0], t[1]];
    }
  }

  predicate HasTag(t: bytes, lay: Layout, i: nat)
    requires LayoutOf(t, lay) && i < lay.count
  {
    U16(lay.en, t, EntryAt(lay.ifd0, i)) == ORIENTATION_TAG
  }

  /** The last Orientation entry of IFD0. */
  ghost predicate IsLastOrientation(t: bytes, lay: Layout, i: nat)
    requires LayoutOf(t, lay)
  {
    i < lay.count && HasTag(t, lay, i) && forall j :: i < j < lay.count ==> !HasTag(t, lay, j)
  }

  predicate NoOrientation(t: bytes, lay: Layout)
    requires LayoutOf(t, lay)
  {
    forall i :: 0 <= i < lay.count ==> !HasTag(t, lay, i)
  }

  method FindOrientation(t: bytes, lay: Layout) returns (r: Option<nat>)
    requires LayoutOf(t, lay)
    ensures r.None? ==> NoOrientation(t, lay)
    ensures r.Some? ==> IsLastOrientation(t, lay, r.value)
  {
    r := None;
    for i := 0 to lay.count
      invariant r.None? ==> forall j :: 0 <= j < i ==> !HasTag(t, lay, j)
      invariant r.Some? ==> r.value < i && HasTag(t, lay, r.value) && forall j :: r.value < j < i ==> !HasTag(t, lay, j)
    {
      if U16(lay.en, t, lay.ifd0 + 2 + i * 12) == ORIENTATION_TAG {
        r := Some(i);
      }
    }
  }

  // ----- what an insertion is -----

  /** Where the byte at `p` of the old block ends up. */
  function Moved(lay: Layout, p: nat): nat {
    if p < lay.end then p else p + 12
  }

  /** No marked field touches the bytes from `lo` to `hi`. */
  ghost predicate Clear(fields: set<nat>, lo: nat, hi: nat) {
    forall m :: m in fields ==> hi <= m || m + 4 <= lo
  }

  /** No marked field touches the byte at `p`. */
  ghost predicate ClearAt(fields: set<nat>, p: nat) {
    forall m :: m in fields ==> p < m || m + 4 <= p
  }

  ghost predicate Isolated(fields: set<nat>, m: nat) {
    forall k :: k in fields && k != m ==> k + 4 <= m || m + 4 <= k
  }

  /** Whether the marked field at `m` is actually rewritten: fields behind IFD0 only if the offset stays in the old
      length. */
  predicate Shifts(t: bytes, lay: Layout, m: nat)
    requires m + 4 <= |t|
  {
    m < E4(lay) || U32(lay.en, t, m) + 12 <= |t|
  }

  function OrientationEntry(en: Endian, orientation: nat): (s: bytes)
    requires orientation < 0x1_0000
    ensures |s| == 12 && RawAt(s, en, 0).tag == ORIENTATION_TAG
  {
    PutU16(en, ORIENTATION_TAG) + PutU16(en, 3) + PutU32(en, 1) + PutU16(en, orientation) + PutU16(en, 0)
  }

  /** Marked fields lie in the block, hold offsets that move, and inside IFD0 sit on its own pointer fields. */
  ghost predicate MarksPlaced(t: bytes, lay: Layout, fields: set<nat>) {
    forall m :: m in fields ==>
      && m + 4 <= |t| && Moves(t, E4(lay), U32(lay.en, t, m))
      && (m < E4(lay) ==> m == lay.end || IsEntryValue(lay, m))
  }

  predicate IsEntryValue(lay: Layout, m: nat) {
    exists i :: 0 <= i < lay.count && m == EntryAt(lay.ifd0, i) + 8
  }

  /** `u` is `t` with an Orientation entry inserted behind the entries of IFD0 and its marked offsets moved along. */
  ghost predicate Inserted(t: bytes, lay: Layout, fields: set<nat>, orientation: nat, u: bytes)
    requires LayoutOf(t, lay) && MarksPlaced(t, lay, fields) && orientation < 0x1_0000
  {
    && |u| == |t| + 12
    && U16(lay.en, u, lay.ifd0) == lay.count + 1
    && u[lay.end..lay.end + 12] == OrientationEntry(lay.en, orientation)
    && (forall p {:trigger ClearAt(fields, p)} ::
          0 <= p < |t| && (p < lay.ifd0 || lay.ifd0 + 2 <= p) && ClearAt(fields, p)
          ==> u[Moved(lay, p)] == t[p])
    && (forall m {:trigger Isolated(fields, m)} :: m in fields && Isolated(fields, m)
          ==> U32(lay.en, u, Moved(lay, m)) == U32(lay.en, t, m) + if Shifts(t, lay, m) then 12 else 0)
  }

  // ----- the insertion -----

  /** A table entry or link field, copied with its offset moved along when marked. */
  function ShiftWord(t: bytes, lay: Layout, fields: set<nat>, m: nat): (s: bytes)
    requires m + 4 <= |t| && MarksPlaced(t, lay, fields) && |t| <= 0xFFFF
    ensures |s| == 4
    ensures m in fields ==> U32(lay.en, s, 0) == U32(lay.en, t, m) + 12
    ensures m !in fields ==> s == t[m..m + 4]
  {
    if m in fields then PutU32(lay.en, U32(lay.en, t, m) + 12) else t[m..m + 4]
  }

  /** The first `i` entries of IFD0, copied with their marked offsets moved along. */
  ghost predicate EntriesCopied(t: bytes, lay: Layout, fields: set<nat>, i: nat, s: bytes)
    requires LayoutOf(t, lay) && MarksPlaced(t, lay, fields) && |t| <= 0xFFFF && i <= lay.count
  {
    && |s| == 12 * i
    && forall k :: 0 <= k < i ==>
         s[12 * k..12 * k + 12]
             == t[EntryAt(lay.ifd0, k)..EntryAt(lay.ifd0, k) + 8] + ShiftWord(t, lay, fields, EntryAt(lay.ifd0, k) + 8)
  }

  method CopyEntries(t: bytes, lay: Layout, fields: set<nat>) returns (s: bytes)
    requires LayoutOf(t, lay) && MarksPlaced(t, lay, fields) && |t| <= 0xFFFF
    ensures EntriesCopied(t, lay, fields, lay.count, s)
  {
    s := [];
    for i := 0 to lay.count
      invariant EntriesCopied(t, lay, fields, i, s)
    {
      var e := lay.ifd0 + 2 + i * 12;
      ghost var before := s;
      s := s + t[e..e + 8] + ShiftWord(t, lay, fields, e + 8);
      forall k | 0 <= k < i + 1
        ensures s[12 * k..12 * k + 12]
            == t[EntryAt(lay.ifd0, k)..EntryAt(lay.ifd0, k) + 8] + ShiftWord(t, lay, fields, EntryAt(lay.ifd0, k) + 8)
      {
        if k < i {
          assert s[12 * k..12 * k + 12] == before[12 * k..12 * k + 12];
        }
      }
    }
  }

  /** The bytes behind IFD0 with marked fields moved along, whatever order the marks are taken in. */
  ghost predicate RestPatched(t: bytes, lay: Layout, fields: set<nat>, done: set<nat>, rest: bytes)
    requires MarksPlaced(t, lay, fields) && done <= fields && E4(lay) <= |t| <= 0xFFFF
  {
    && |rest| == |t| - E4(lay)
    && (forall p {:trigger ClearAt(fields, p)} :: E4(lay) <= p < |t| && ClearAt(fields, p) ==>
        rest[p - E4(lay)] == t[p])
    && (forall m {:trigger Isolated(fields, m)} :: m in fields && m >= E4(lay) && Isolated(fields, m)
          ==> U32(lay.en, rest, m - E4(lay)) == U32(lay.en, t, m) + if m in done && Shifts(t, lay, m) then 12 else 0)
  }

  /** One turn of the patch loop: the field at `m` is rewritten if it lies behind IFD0 and stays in the old length. */
  function PatchOne(t: bytes, lay: Layout, rest: bytes, m: nat): (r: bytes)
    requires E4(lay) <= |t| <= 0xFFFF && |rest| == |t| - E4(lay)
    ensures |r| == |rest|
  {
    if m >= E4(lay) && m + 4 <= |t| && U32(lay.en, t, m) >= E4(lay) && U32(lay.en, t, m) + 12 <= |t| then
      rest[..m - E4(lay)] + PutU32(lay.en, U32(lay.en, t, m) + 12) + rest[m - E4(lay) + 4..]
    else rest
  }

  method PatchRest(t: bytes, lay: Layout, fields: set<nat>) returns (rest: bytes)
    requires MarksPlaced(t, lay, fields) && E4(lay) <= |t| <= 0xFFFF
    ensures RestPatched(t, lay, fields, fields, rest)
  {
    rest := t[E4(lay)..];
    var todo := fields;
    NothingPatched(t, lay, fields);
    while todo != {}
      invariant todo <= fields
      invariant RestPatched(t, lay, fields, fields - todo, rest)
    {
      var m :| m in todo;
      PatchStep(t, lay, fields, fields - todo, rest, m);
      assert fields - (todo - {m}) == fields - todo + {m};
      rest := PatchOne(t, lay, rest, m);
      todo := todo - {m};
    }
    assert fields - todo == fields;
  }

  lemma NothingPatched(t: bytes, lay: Layout, fields: set<nat>)
    requires MarksPlaced(t, lay, fields) && E4(lay) <= |t| <= 0xFFFF
    ensures RestPatched(t, lay, fields, fields - fields, t[E4(lay)..])
  {
    forall m | m in fields && m >= E4(lay) ensures U32(lay.en, t[E4(lay)..], m - E4(lay)) == U32(lay.en, t, m) {
      MovedWord(lay.en, t, E4(lay), |t|, m - E4(lay), t[E4(lay)..]);
    }
  }

  lemma PatchStep(t: bytes, lay: Layout, fields: set<nat>, done: set<nat>, rest: bytes, m: nat)
    requires MarksPlaced(t, lay, fields) && done <= fields && E4(lay) <= |t| <= 0xFFFF
    requires RestPatched(t, lay, fields, done, rest) && m in fields
    ensures RestPatched(t, lay, fields, done + {m}, PatchOne(t, lay, rest, m))
  {
    forall p | E4(lay) <= p < |t| && ClearAt(fields, p) ensures PatchOne(t, lay, rest, m)[p - E4(lay)] == t[p] {
      assert p + 1 <= m || m + 4 <= p;
    }
    forall k | k in fields && k >= E4(lay) && Isolated(fields, k)
      ensures U32(lay.en, PatchOne(t, lay, rest, m), k - E4(lay))
           == U32(lay.en, t, k) + if k in done + {m} && Shifts(t, lay, k) then 12 else 0
    {
      PatchedWord(t, lay, rest, m, k);
    }
  }

  lemma PatchedWord(t: bytes, lay: Layout, rest: bytes, m: nat, k: nat)
    requires E4(lay) <= |t| <= 0xFFFF && |rest| == |t| - E4(lay)
    requires m + 4 <= |t| && Moves(t, E4(lay), U32(lay.en, t, m)) && E4(lay) <= k && k + 4 <= |t|
    requires k == m || m + 4 <= k || k + 4 <= m
    ensures U32(lay.en, PatchOne(t, lay, rest, m), k - E4(lay))
         == if k == m && Shifts(t, lay, m) then U32(lay.en, t, m) + 12 else U32(lay.en, rest, k - E4(lay))
  {
    var idx, r := k - E4(lay), PatchOne(t, lay, rest, m);
    if m < E4(lay) || !Shifts(t, lay, m) {
    } else if k == m {
      MovedWord(lay.en, r, idx, idx + 4, 0, PutU32(lay.en, U32(lay.en, t, m) + 12));
    } else {
      SameWord(lay.en, r, idx, rest, idx);
    }
  }

  lemma SameWord(en: Endian, a: bytes, p: nat, b: bytes, q: nat)
    requires p + 4 <= |a| && q + 4 <= |b|
    requires a[p] == b[q] && a[p + 1] == b[q + 1] && a[p + 2] == b[q + 2] && a[p + 3] == b[q + 3]
    ensures U32(en, a, p) == U32(en, b, q)
  {
  }

  method InsertEntry(t: bytes, lay: Layout, fields: set<nat>, orientation: nat) returns (u: bytes)
    requires LayoutOf(t, lay) && MarksPlaced(t, lay, fields) && |t| <= 0xFFFF && orientation < 0x1_0000
    ensures |u| == |t| + 12 && Inserted(t, lay, fields, orientation, u)
  {
    hide U16, U32, OrientationEntry, Assembled, PutU16, ShiftWord;
    var entries := CopyEntries(t, lay, fields);
    var rest := PatchRest(t, lay, fields);
    u := Assembled(t, lay, fields, orientation, entries, rest);
    AssembledCount(t, lay, fields, orientation, entries, rest);
    AssembledKeeps(t, lay, fields, orientation, entries, rest);
    AssembledMoves(t, lay, fields, orientation, entries, rest);
  }

  /** Header, grown entry count, entries, the new entry, the link, and everything behind. */
  function Assembled(t: bytes, lay: Layout, fields: set<nat>, orientation: nat, entries: bytes, rest: bytes): bytes
    requires LayoutOf(t, lay) && MarksPlaced(t, lay, fields) && |t| <= 0xFFFF && orientation < 0x1_0000
  {
    t[..lay.ifd0] + PutU16(lay.en, lay.count + 1) + entries + OrientationEntry(lay.en, orientation)
    + ShiftWord(t, lay, fields, lay.end) + rest
  }

  lemma AssembledParts(t: bytes, lay: Layout, fields: set<nat>, orientation: nat, entries: bytes, rest: bytes)
    requires LayoutOf(t, lay) && MarksPlaced(t, lay, fields) && |t| <= 0xFFFF && orientation < 0x1_0000
    requires |entries| == lay.end - lay.ifd0 - 2
    ensures var u := Assembled(t, lay, fields, orientation, entries, rest);
            && |u| == lay.end + 16 + |rest|
            && u[..lay.ifd0] == t[..lay.ifd0]
            && u[lay.ifd0..lay.ifd0 + 2] == PutU16(lay.en, lay.count + 1)
            && u[lay.ifd0 + 2..lay.end] == entries
            && u[lay.end..lay.end + 12] == OrientationEntry(lay.en, orientation)
            && u[lay.end + 12..lay.end + 16] == ShiftWord(t, lay, fields, lay.end)
            && u[lay.end + 16..] == rest
  {
    hide U16, U32, MarksPlaced, OrientationEntry, ShiftWord, PutU16;
  }

  /** Which entry of IFD0 a byte belongs to. */
  lemma EntryOf(lay: Layout, p: nat) returns (k: nat)
    requires lay.end == EntryAt(lay.ifd0, lay.count) && lay.ifd0 + 2 <= p < lay.end
    ensures k < lay.count && EntryAt(lay.ifd0, k) <= p < EntryAt(lay.ifd0, k) + 12
  {
    k := (p - lay.ifd0 - 2) / 12;
  }

  lemma EntryByte(t: bytes, lay: Layout, fields: set<nat>, entries: bytes, p: nat)
    requires LayoutOf(t, lay) && MarksPlaced(t, lay, fields) && |t| <= 0xFFFF
    requires EntriesCopied(t, lay, fields, lay.count, entries)
    requires lay.ifd0 + 2 <= p < lay.end && ClearAt(fields, p)
    ensures entries[p - lay.ifd0 - 2] == t[p]
  {
    var k := EntryOf(lay, p);
    var e := EntryAt(lay.ifd0, k);
    var slice := entries[12 * k..12 * k + 12];
    assert slice[p - e] == entries[p - lay.ifd0 - 2];
    if e + 8 <= p {
      assert e + 8 !in fields;
    }
  }

  lemma AssembledCount(t: bytes, lay: Layout, fields: set<nat>, orientation: nat, entries: bytes, rest: bytes)
    requires LayoutOf(t, lay) && MarksPlaced(t, lay, fields) && |t| <= 0xFFFF && orientation < 0x1_0000
    requires EntriesCopied(t, lay, fields, lay.count, entries) && RestPatched(t, lay, fields, fields, rest)
    ensures var u := Assembled(t, lay, fields, orientation, entries, rest);
            && |u| == |t| + 12 && U16(lay.en, u, lay.ifd0) == lay.count + 1
            && u[lay.end..lay.end + 12] == OrientationEntry(lay.en, orientation)
  {
    hide MarksPlaced, OrientationEntry, ShiftWord, U32, Assembled;
    AssembledParts(t, lay, fields, orientation, entries, rest);
    var u, c := Assembled(t, lay, fields, orientation, entries, rest), PutU16(lay.en, lay.count + 1);
    assert u[lay.ifd0..lay.ifd0 + 2][0] == c[0] && u[lay.ifd0..lay.ifd0 + 2][1] == c[1];
  }

  lemma AssembledKeeps(t: bytes, lay: Layout, fields: set<nat>, orientation: nat, entries: bytes, rest: bytes)
    requires LayoutOf(t, lay) && MarksPlaced(t, lay, fields) && |t| <= 0xFFFF && orientation < 0x1_0000
    requires EntriesCopied(t, lay, fields, lay.count, entries) && RestPatched(t, lay, fields, fields, rest)
    ensures var u := Assembled(t, lay, fields, orientation, entries, rest);
            forall p {:trigger ClearAt(fields, p)} ::
              0 <= p < |t| && (p < lay.ifd0 || lay.ifd0 + 2 <= p) && ClearAt(fields, p)
              ==> u[Moved(lay, p)] == t[p]
  {
    hide U16, U32, OrientationEntry, Assembled, PutU16;
    AssembledParts(t, lay, fields, orientation, entries, rest);
    var u := Assembled(t, lay, fields, orientation, entries, rest);
    forall p | 0 <= p < |t| && (p < lay.ifd0 || lay.ifd0 + 2 <= p) && ClearAt(fields, p)
      ensures u[Moved(lay, p)] == t[p]
    {
      if p < lay.ifd0 {
        assert u[p] == u[..lay.ifd0][p];
      } else if p < lay.end {
        EntryByte(t, lay, fields, entries, p);
        assert u[p] == u[lay.ifd0 + 2..lay.end][p - lay.ifd0 - 2];
      } else if p < lay.end + 4 {
        assert lay.end !in fields;
        assert u[p + 12] == u[lay.end + 12..lay.end + 16][p - lay.end];
      } else {
        assert u[p + 12] == u[lay.end + 16..][p - E4(lay)];
      }
    }
  }

  lemma AssembledMoves(t: bytes, lay: Layout, fields: set<nat>, orientation: nat, entries: bytes, rest: bytes)
    requires LayoutOf(t, lay) && MarksPlaced(t, lay, fields) && |t| <= 0xFFFF && orientation < 0x1_0000
    requires EntriesCopied(t, lay, fields, lay.count, entries) && RestPatched(t, lay, fields, fields, rest)
    ensures var u := Assembled(t, lay, fields, orientation, entries, rest);
            forall m {:trigger Isolated(fields, m)} :: m in fields && Isolated(fields, m)
              ==> U32(lay.en, u, Moved(lay, m)) == U32(lay.en, t, m) + if Shifts(t, lay, m) then 12 else 0
  {
    hide U16, U32, OrientationEntry, Assembled, PutU16, ShiftWord;
    AssembledParts(t, lay, fields, orientation, entries, rest);
    var u := Assembled(t, lay, fields, orientation, entries, rest);
    forall m | m in fields && Isolated(fields, m)
      ensures U32(lay.en, u, Moved(lay, m)) == U32(lay.en, t, m) + if Shifts(t, lay, m) then 12 else 0
    {
      if m >= E4(lay) {
        RestWord(t, lay, fields, rest, u, m);
      } else if m == lay.end {
        LinkWord(t, lay, fields, u);
      } else {
        EntryWord(t, lay, fields, entries, u, m);
      }
    }
  }

  lemma RestWord(t: bytes, lay: Layout, fields: set<nat>, rest: bytes, u: bytes, m: nat)
    requires MarksPlaced(t, lay, fields) && E4(lay) <= |t| <= 0xFFFF
    requires RestPatched(t, lay, fields, fields, rest)
    requires |u| == |t| + 12 && u[lay.end + 16..] == rest
    requires m in fields && Isolated(fields, m) && m >= E4(lay)
    ensures U32(lay.en, u, m + 12) == U32(lay.en, t, m) + if Shifts(t, lay, m) then 12 else 0
  {
    MovedWord(lay.en, u, lay.end + 16, |u|, m - E4(lay), rest);
  }

  lemma LinkWord(t: bytes, lay: Layout, fields: set<nat>, u: bytes)
    requires MarksPlaced(t, lay, fields) && E4(lay) <= |t| <= 0xFFFF
    requires |u| == |t| + 12 && u[lay.end + 12..lay.end + 16] == ShiftWord(t, lay, fields, lay.end)
    requires lay.end in fields
    ensures U32(lay.en, u, lay.end + 12) == U32(lay.en, t, lay.end) + 12
  {
    MovedWord(lay.en, u, lay.end + 12, lay.end + 16, 0, ShiftWord(t, lay, fields, lay.end));
  }

  lemma EntryWord(t: bytes, lay: Layout, fields: set<nat>, entries: bytes, u: bytes, m: nat)
    requires LayoutOf(t, lay) && MarksPlaced(t, lay, fields) && |t| <= 0xFFFF
    requires EntriesCopied(t, lay, fields, lay.count, entries)
    requires |u| == |t| + 12 && u[lay.ifd0 + 2..lay.end] == entries
    requires m in fields && m < lay.end
    ensures U32(lay.en, u, m) == U32(lay.en, t, m) + 12
  {
    hide U16, U32, EntriesCopied;
    var i :| 0 <= i < lay.count && m == EntryAt(lay.ifd0, i) + 8;
    hide MarksPlaced;
    CopiedWord(t, lay, fields, entries, i);
    CopiedLength(t, lay, fields, entries);
    WordAt(lay.en, u, lay.ifd0 + 2, lay.end, 12 * i + 8, entries, m, U32(lay.en, t, m) + 12);
  }

  lemma CopiedLength(t: bytes, lay: Layout, fields: set<nat>, entries: bytes)
    requires LayoutOf(t, lay) && MarksPlaced(t, lay, fields) && |t| <= 0xFFFF
    requires EntriesCopied(t, lay, fields, lay.count, entries)
    ensures |entries| == 12 * lay.count
  {
  }

  lemma CopiedWord(t: bytes, lay: Layout, fields: set<nat>, entries: bytes, i: nat)
    requires LayoutOf(t, lay) && MarksPlaced(t, lay, fields) && |t| <= 0xFFFF && i < lay.count
    requires EntriesCopied(t, lay, fields, lay.count, entries)
    requires EntryAt(lay.ifd0, i) + 8 in fields
    ensures U32(lay.en, entries, 12 * i + 8) == U32(lay.en, t, EntryAt(lay.ifd0, i) + 8) + 12
  {
    hide U32, MarksPlaced;
    var slice, word := entries[12 * i..12 * i + 12], ShiftWord(t, lay, fields, EntryAt(lay.ifd0, i) + 8);
    assert slice[8..12] == word;
    WordAt(lay.en, slice, 8, 12, 0, word, 8, U32(lay.en, word, 0));
    WordAt(lay.en, entries, 12 * i, 12 * i + 12, 8, slice, 12 * i + 8, U32(lay.en, word, 0));
  }

  /** A word of known value inside a slice has that value at its place `q` in the whole. */
  lemma WordAt(en: Endian, u: bytes, lo: nat, hi: nat, p: nat, slice: bytes, q: nat, value: nat)
    requires lo <= hi <= |u| && u[lo..hi] == slice && p + 4 <= |slice|
    requires q == lo + p && U32(en, slice, p) == value
    ensures q + 4 <= |u| && U32(en, u, q) == value
  {
    MovedWord(en, u, lo, hi, p, slice);
  }

  /** A word read inside a slice is the word read at its place in the whole. */
  lemma MovedWord(en: Endian, u: bytes, lo: nat, hi: nat, p: nat, slice: bytes)
    requires lo <= hi <= |u| && u[lo..hi] == slice && p + 4 <= |slice|
    ensures U32(en, u, lo + p) == U32(en, slice, p)
  {
    SameWord(en, u, lo + p, slice, p);
  }

  /** The walk from IFD0, as far as it goes. */
  function RootWalk(t: bytes, lay: Layout): Walked {
    FullWalk(t, lay.en, E4(lay), (lay.ifd0, 0))
  }

  /** What the walk from IFD0 marks is all well placed, and exactly the pointer fields of what it visits. */
  lemma MarksArePlaced(t: bytes, lay: Layout)
    requires LayoutOf(t, lay) && RootWalk(t, lay).Marked?
    ensures Exact(t, lay.en, E4(lay), (lay.ifd0, 0), RootWalk(t, lay))
    ensures MarksPlaced(t, lay, RootWalk(t, lay).fields)
  {
    hide U16, U32, Walk, ValueSize;
    var w := RootWalk(t, lay);
    WalkExact(t, lay.en, E4(lay), lay.ifd0, 0, Bound(t));
    forall m | m in w.fields
      ensures m + 4 <= |t| && Moves(t, E4(lay), U32(lay.en, t, m))
      ensures m < E4(lay) ==> m == lay.end || IsEntryValue(lay, m)
    {
      var v :| v in w.tables && TableFits(t, lay.en, v.0) && IsPointerField(t, lay.en, E4(lay), v, m);
      assert v == (lay.ifd0, 0) || E4(lay) <= v.0 <= m;
    }
  }

  // ----- the whole segment -----

  /** The TIFF block of the segment at `loc`. */
  function TiffOf(jpeg: bytes, loc: Location): bytes
    requires 10 <= loc.total && loc.pos + loc.total <= |jpeg|
  {
    jpeg[loc.pos + 10..loc.pos + loc.total]
  }

  /** The file with the TIFF block of the segment at `loc` exchanged for `u`, and the length field adjusted. */
  function Exchanged(jpeg: bytes, loc: Location, u: bytes): bytes
    requires 10 <= loc.total && loc.pos + loc.total <= |jpeg| && |u| + 8 <= 0xFFFF
  {
    jpeg[..loc.pos] + [0xFF, 0xE1] + PutU16(Big, |u| + 8) + jpeg[loc.pos + 4..loc.pos + 10] + u
    + jpeg[loc.pos + loc.total..]
  }

  function Overwritten(t: bytes, p: nat, s: bytes): (u: bytes)
    requires p + |s| <= |t|
    ensures |u| == |t|
  {
    t[..p] + s + t[p + |s|..]
  }

  predicate Complete(jpeg: bytes, loc: Location) {
    14 <= loc.total && loc.pos + loc.total <= |jpeg|
  }

  /** The segment is complete and its block has a readable IFD0. */
  predicate Editable(jpeg: bytes, loc: Location) {
    Complete(jpeg, loc) && ParseLayout(TiffOf(jpeg, loc)).Some?
  }

  function LayoutIn(jpeg: bytes, loc: Location): (lay: Layout)
    requires Editable(jpeg, loc)
    ensures LayoutOf(TiffOf(jpeg, loc), lay)
  {
    ParseLayout(TiffOf(jpeg, loc)).value
  }

  /** An entry has to be inserted, and the grown segment still fits its length field. */
  predicate NeedsInsertion(jpeg: bytes, loc: Location)
    requires Editable(jpeg, loc)
  {
    NoOrientation(TiffOf(jpeg, loc), LayoutIn(jpeg, loc)) && loc.total + 10 <= 0xFFFF
  }

  function WalkIn(jpeg: bytes, loc: Location): Walked
    requires Editable(jpeg, loc)
  {
    RootWalk(TiffOf(jpeg, loc), LayoutIn(jpeg, loc))
  }

  /** The pointer walk, if there is one, is finished at the greatest height it can have. */
  predicate WalkEnds(jpeg: bytes, loc: Location) {
    Editable(jpeg, loc) && NeedsInsertion(jpeg, loc) ==> !WalkIn(jpeg, loc).Unfinished?
  }

  /** `out` is `jpeg` with its last Orientation value rewritten in place. */
  ghost predicate Rewritten(jpeg: bytes, loc: Location, orientation: nat, out: bytes)
    requires Editable(jpeg, loc) && orientation < 0x1_0000
  {
    var t, lay := TiffOf(jpeg, loc), LayoutIn(jpeg, loc);
    exists i :: IsLastOrientation(t, lay, i) && loc.pos + 10 + EntryAt(lay.ifd0, i) + 10 <= |jpeg|
      && out == Overwritten(jpeg, loc.pos + 10 + EntryAt(lay.ifd0, i) + 8, PutU16(lay.en, orientation))
  }

  /** `out` is `jpeg` with an Orientation entry inserted into its block. */
  ghost predicate Grown(jpeg: bytes, loc: Location, orientation: nat, out: bytes)
    requires Editable(jpeg, loc) && orientation < 0x1_0000
  {
    var t, lay := TiffOf(jpeg, loc), LayoutIn(jpeg, loc);
    && NeedsInsertion(jpeg, loc) && WalkIn(jpeg, loc).Marked?
    && MarksPlaced(t, lay, WalkIn(jpeg, loc).fields)
    && exists u :: |u| == |t| + 12 && Inserted(t, lay, WalkIn(jpeg, loc).fields, orientation, u) &&
        out == Exchanged(jpeg, loc, u)
  }

  /** `splice_orientation_into_app1`. */
  method SpliceOrientation(jpeg: bytes, loc: Location, orientation: nat) returns (r: Option<bytes>)
    requires Inspect(jpeg, loc.pos) == Found(loc.total) && orientation < 0x1_0000
    requires WalkEnds(jpeg, loc)
    ensures r.Some? ==> Editable(jpeg, loc)
    ensures r.Some? ==> Rewritten(jpeg, loc, orientation, r.value) || Grown(jpeg, loc, orientation, r.value)
    ensures r.None? ==> !Editable(jpeg, loc) || (NoOrientation(TiffOf(jpeg, loc), LayoutIn(jpeg, loc))
                          && (NeedsInsertion(jpeg, loc) ==> WalkIn(jpeg, loc).Rejected?))
  {
    hide U16, U32, Inserted, MarksPlaced, PutU16, Bound, Walk;
    if loc.total < 14 || loc.pos + loc.total > |jpeg| {
      return None;
    }
    var t := TiffOf(jpeg, loc);
    var parsed := ParseLayout(t);
    if parsed.None? {
      return None;
    }
    var lay := parsed.value;
    var entry := FindOrientation(t, lay);
    if entry.Some? {
      var at := loc.pos + 10 + lay.ifd0 + 2 + entry.value * 12 + 8;
      return Some(Overwritten(jpeg, at, PutU16(lay.en, orientation)));
    }
    if loc.total + 12 - 2 > 0xFFFF {
      return None;
    }
    var ok, marks := WalkIfd(t, lay.en, lay.ifd0, 0, E4(lay), {}, Bound(t));
    if !ok {
      return None;
    }
    MarksArePlaced(t, lay);
    assert marks == WalkIn(jpeg, loc).fields;
    var u := InsertEntry(t, lay, marks, orientation);
    var out := jpeg[..loc.pos] + [0xFF, 0xE1] + PutU16(Big, loc.total + 12 - 2) + jpeg[loc.pos + 4..loc.pos + 10];
    out := out + u + jpeg[loc.pos + loc.total..];
    assert out == Exchanged(jpeg, loc, u);
    r := Some(out);
  }
}
