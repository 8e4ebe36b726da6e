/** TIFF image file directories: raw entries, and a reader that gives a block its meaning. */
module Tiff {
  import opened Wrappers
  import opened ByteOrder

  const ORIENTATION_TAG: nat := 0x0112
  const EXIF_SUB_IFD_TAG: nat := 0x8769
  const GPS_SUB_IFD_TAG: nat := 0x8825

  predicate IsSubIfdTag(tag: nat) {
    tag == EXIF_SUB_IFD_TAG || tag == GPS_SUB_IFD_TAG
  }

  /** Byte size of `count` values of type `typ`; `None` for unknown types and 32-bit overflow. */
  function ValueSize(typ: nat, count: nat): (r: Option<nat>)
    ensures r.Some? ==> count <= r.value <= 8 * count && r.value < 0x1_0000_0000
  {
    var unit :=
      match typ
      case 1 | 2 | 6 | 7 => 1
      case 3 | 8 => 2
      case 4 | 9 | 11 => 4
      case 5 | 10 | 12 => 8
      case _ => 0;
    if unit == 0 || unit * count >= 0x1_0000_0000 then None else Some(unit * count)
  }

  /** The value types of TIFF 6.0 section 2 by the size of one value. */
  predicate IsType(typ: nat, width: nat) {
    || (width == 1 && typ in {1, 2, 6, 7})       // BYTE, ASCII, SBYTE, UNDEFINED
    || (width == 2 && typ in {3, 8})             // SHORT, SSHORT
    || (width == 4 && typ in {4, 9, 11})         // LONG, SLONG, FLOAT
    || (width == 8 && typ in {5, 10, 12})        // RATIONAL, SRATIONAL, DOUBLE
  }

  /** A size is given exactly for the standard's types, and is the exact product unless that exceeds 32 bits. */
  lemma ValueSizeStandard(typ: nat, count: nat, width: nat)
    ensures IsType(typ, width) && width * count < 0x1_0000_0000 ==> ValueSize(typ, count) == Some(width * count)
    ensures ValueSize(typ, count).Some? ==> exists w: nat :: IsType(typ, w) && ValueSize(typ, count).value == w * count
  {
    if ValueSize(typ, count).Some? {
      var w := if typ in {1, 2, 6, 7} then 1 else if typ in {3, 8} then 2 else if typ in {4, 9, 11} then 4 else 8;
      assert IsType(typ, w) && ValueSize(typ, count).value == w * count;
    }
  }

  /** The four fields of a 12-byte directory entry. */
  datatype RawEntry = RawEntry(tag: nat, typ: nat, count: nat, word: nat)

  function EntryAt(off: nat, i: nat): nat {
    off + 2 + 12 * i
  }

  function EntryCount(t: bytes, en: Endian, off: nat): nat
    requires off + 2 <= |t|
  {
    U16(en, t, off)
  }

  /** Where the entries of the table at `off` end and its next-table field begins. */
  function EntriesEnd(t: bytes, en: Endian, off: nat): nat
    requires off + 2 <= |t|
  {
    EntryAt(off, EntryCount(t, en, off))
  }

  /** A non-empty table, next-table field included, lies inside the block. */
  predicate TableFits(t: bytes, en: Endian, off: nat) {
    off + 2 <= |t| && EntryCount(t, en, off) != 0 && EntriesEnd(t, en, off) + 4 <= |t|
  }

  function RawAt(t: bytes, en: Endian, e: nat): RawEntry
    requires e + 12 <= |t|
  {
    RawEntry(U16(en, t, e), U16(en, t, e + 2), U32(en, t, e + 4), U32(en, t, e + 8))
  }

  /** How the last four bytes of an entry are to be taken. */
  datatype Kind =
    | Unknown                    // value type not known
    | Literal                    // the value itself
    | Remote(size: nat)          // offset of an out-of-line value
    | RemoteTable(size: nat)     // offset of an out-of-line value that is also read as a table
    | Table                      // offset of a sub-directory

  function Classify(raw: RawEntry, depth: nat): Kind {
    var size := ValueSize(raw.typ, raw.count);
    if size.None? then Unknown
    else if size.value > 4 then
      if depth < 2 && IsSubIfdTag(raw.tag) then RemoteTable(size.value) else Remote(size.value)
    else if raw.count == 1 && raw.typ == 4 && IsSubIfdTag(raw.tag) then Table
    else Literal
  }

  /** The nesting level is a `u8`, so stepping down wraps around at 256. */
  function Deeper(depth: nat): nat {
    (depth + 1) % 256
  }

  // ----- meaning of a block -----

  datatype Directory = Directory(fields: seq<Field>, next: Link)

  datatype Field = Field(tag: nat, typ: nat, count: nat, payload: Payload)

  datatype Payload =
    | Inline(raw: bytes)
    | OutOfLine(at: nat, value: bytes)
    | OutOfLineDir(at: nat, value: bytes, dir: Directory)
    | SubDir(at: nat, dir: Directory)

  datatype Link = NoNext | NextDir(at: nat, dir: Directory) | NextUnread(at: nat)

  /** Reads the directory at `off` together with everything hanging off it, at most `h` tables deep. */
  ghost function ReadDirectory(t: bytes, en: Endian, off: nat, depth: nat, h: nat): Option<Directory>
    decreases h, 2, 0
  {
    if h == 0 || !TableFits(t, en, off) then None
    else
      var fields := ReadFields(t, en, off, depth, h, EntryCount(t, en, off));
      var next := ReadNext(t, en, EntriesEnd(t, en, off), depth, h);
      if fields.None? || next.None? then None else Some(Directory(fields.value, next.value))
  }

  /** The first `k` fields of the directory at `off`. */
  ghost function ReadFields(t: bytes, en: Endian, off: nat, depth: nat, h: nat, k: nat): (r: Option<seq<Field>>)
    requires h > 0 && EntryAt(off, k) <= |t|
    ensures r.Some? ==> |r.value| == k
    decreases h, 1, k
  {
    if k == 0 then Some([])
    else
      var before := ReadFields(t, en, off, depth, h, k - 1);
      var last := ReadField(t, en, EntryAt(off, k - 1), depth, h);
      if before.None? || last.None? then None else Some(before.value + [last.value])
  }

  ghost function ReadField(t: bytes, en: Endian, e: nat, depth: nat, h: nat): Option<Field>
    requires h > 0 && e + 12 <= |t|
    decreases h, 0, 0
  {
    var raw := RawAt(t, en, e);
    var payload :=
      match Classify(raw, depth)
      case Unknown => None
      case Literal => Some(Inline(t[e + 8..e + 12]))
      case Remote(size) =>
        if raw.word + size <= |t| then Some(OutOfLine(raw.word, t[raw.word..raw.word + size])) else None
      case RemoteTable(size) =>
        var dir := ReadDirectory(t, en, raw.word, Deeper(depth), h - 1);
        if raw.word + size <= |t| && dir.Some?
        then Some(OutOfLineDir(raw.word, t[raw.word..raw.word + size], dir.value)) else None
      case Table =>
        var dir := ReadDirectory(t, en, raw.word, Deeper(depth), h - 1);
        if dir.Some? then Some(SubDir(raw.word, dir.value)) else None;
    if payload.None? then None else Some(Field(raw.tag, raw.typ, raw.count, payload.value))
  }

  /** The link stored at `p`; only the top-level directory's chain is followed. */
  ghost function ReadNext(t: bytes, en: Endian, p: nat, depth: nat, h: nat): Option<Link>
    requires h > 0 && p + 4 <= |t|
    decreases h, 0, 0
  {
    var word := U32(en, t, p);
    if word == 0 then Some(NoNext)
    else if depth == 0 then
      var dir := ReadDirectory(t, en, word, Deeper(depth), h - 1);
      if dir.Some? then Some(NextDir(word, dir.value)) else None
    else if word <= |t| then Some(NextUnread(word))
    else None
  }
}
