/** What a reader should see after everything from `e4` on has moved by 12 bytes, and tables in front of `e4`. */
module Relocation {
  import opened Wrappers
  import opened ByteOrder
  import opened Tiff

  // ----- the expected meaning: the same tree at its new offsets -----

  function NewOffset(at: nat, e4: nat): nat {
    if at >= e4 then at + 12 else at
  }

  ghost function Relocated(d: Directory, e4: nat): Directory
    decreases d, 1
  {
    Directory(RelocatedFields(d.fields, e4), RelocatedLink(d.next, e4))
  }

  ghost function RelocatedFields(fs: seq<Field>, e4: nat): (r: seq<Field>)
    ensures |r| == |fs|
    decreases fs, 0
  {
    if fs == [] then []
    else RelocatedFields(fs[..|fs| - 1], e4) + [RelocatedField(fs[|fs| - 1], e4)]
  }

  ghost function RelocatedField(f: Field, e4: nat): Field
    decreases f, 0
  {
    Field(f.tag, f.typ, f.count,
          match f.payload
          case Inline(raw) => Inline(raw)
          case OutOfLine(at, value) => OutOfLine(NewOffset(at, e4), value)
          case OutOfLineDir(at, value, dir) => OutOfLineDir(NewOffset(at, e4), value, Relocated(dir, e4))
          case SubDir(at, dir) => SubDir(NewOffset(at, e4), Relocated(dir, e4)))
  }

  ghost function RelocatedLink(l: Link, e4: nat): Link
    decreases l, 0
  {
    match l
    case NoNext => NoNext
    case NextDir(at, dir) => NextDir(NewOffset(at, e4), Relocated(dir, e4))
    case NextUnread(at) => NextUnread(NewOffset(at, e4))
  }

  lemma RelocatedAppend(before: seq<Field>, last: Field, e4: nat)
    ensures RelocatedFields(before + [last], e4) == RelocatedFields(before, e4) + [RelocatedField(last, e4)]
  {
    var all := before + [last];
    assert all[..|all| - 1] == before;
  }

  /** A sequence read piecewise is as expected exactly when both pieces are. */
  lemma AppendIff(a: Option<seq<Field>>, x: Option<Field>, b: seq<Field>, y: Field)
    requires a.Some? ==> |a.value| == |b|
    ensures (a.Some? && x.Some? && a.value + [x.value] == b + [y]) <==> (a == Some(b) && x == Some(y))
  {
    if a.Some? && x.Some? && a.value + [x.value] == b + [y] {
      assert a.value == (a.value + [x.value])[..|b|] == (b + [y])[..|b|] == b;
      assert x.value == (a.value + [x.value])[|b|] == y;
    }
  }

  // ----- tables that the walk passes over -----

  /** Every offset in `d`, and in the directories it leads to, lies before `e4`. */
  ghost predicate Stays(d: Directory, e4: nat)
    decreases d, 1
  {
    (forall i :: 0 <= i < |d.fields| ==> FieldStays(d.fields[i], e4)) && LinkStays(d.next, e4)
  }

  ghost predicate FieldStays(f: Field, e4: nat)
    decreases f, 0
  {
    match f.payload
    case Inline(_) => true
    case OutOfLine(at, _) => at < e4
    case OutOfLineDir(at, _, dir) => at < e4 && Stays(dir, e4)
    case SubDir(at, dir) => at < e4 && Stays(dir, e4)
  }

  ghost predicate LinkStays(l: Link, e4: nat)
    decreases l, 0
  {
    match l
    case NoNext => true
    case NextDir(at, dir) => at < e4 && Stays(dir, e4)
    case NextUnread(at) => at < e4
  }

  /** The walk follows only offsets from `e4` on: no directory under `d` that it passes over holds an offset it would
      have to shift. */
  ghost predicate Covered(d: Directory, e4: nat)
    decreases d, 1
  {
    (forall i :: 0 <= i < |d.fields| ==> FieldCovered(d.fields[i], e4)) && LinkCovered(d.next, e4)
  }

  ghost predicate FieldCovered(f: Field, e4: nat)
    decreases f, 0
  {
    match f.payload
    case Inline(_) => true
    case OutOfLine(_, _) => true
    case OutOfLineDir(at, _, dir) => if at < e4 then Stays(dir, e4) else Covered(dir, e4)
    case SubDir(at, dir) => if at < e4 then Stays(dir, e4) else Covered(dir, e4)
  }

  ghost predicate LinkCovered(l: Link, e4: nat)
    decreases l, 0
  {
    match l
    case NoNext => true
    case NextDir(at, dir) => if at < e4 then Stays(dir, e4) else Covered(dir, e4)
    case NextUnread(_) => true
  }

  /** The directory `d` at `at`, and all before `e4` that it leads to, ends at or before `ifd0`. */
  ghost predicate Before(d: Directory, at: nat, ifd0: nat, e4: nat)
    decreases d, 1
  {
    && EntryAt(at, |d.fields|) + 4 <= ifd0
    && (forall i :: 0 <= i < |d.fields| ==> FieldBefore(d.fields[i], ifd0, e4))
    && LinkBefore(d.next, ifd0, e4)
  }

  ghost predicate FieldBefore(f: Field, ifd0: nat, e4: nat)
    decreases f, 0
  {
    match f.payload
    case Inline(_) => true
    case OutOfLine(at, value) => e4 <= at || at + |value| <= ifd0
    case OutOfLineDir(at, value, dir) => e4 <= at || (at + |value| <= ifd0 && Before(dir, at, ifd0, e4))
    case SubDir(at, dir) => e4 <= at || Before(dir, at, ifd0, e4)
  }

  ghost predicate LinkBefore(l: Link, ifd0: nat, e4: nat)
    decreases l, 0
  {
    match l
    case NoNext => true
    case NextDir(at, dir) => e4 <= at || Before(dir, at, ifd0, e4)
    case NextUnread(_) => true
  }

  /** The directories under `d` that the walk passes over lie in front of IFD0. */
  ghost predicate Parted(d: Directory, ifd0: nat, e4: nat)
    decreases d, 1
  {
    (forall i :: 0 <= i < |d.fields| ==> FieldParted(d.fields[i], ifd0, e4)) && LinkParted(d.next, ifd0, e4)
  }

  ghost predicate FieldParted(f: Field, ifd0: nat, e4: nat)
    decreases f, 0
  {
    match f.payload
    case Inline(_) => true
    case OutOfLine(_, _) => true
    case OutOfLineDir(at, _, dir) => if at < e4 then Before(dir, at, ifd0, e4) else Parted(dir, ifd0, e4)
    case SubDir(at, dir) => if at < e4 then Before(dir, at, ifd0, e4) else Parted(dir, ifd0, e4)
  }

  ghost predicate LinkParted(l: Link, ifd0: nat, e4: nat)
    decreases l, 0
  {
    match l
    case NoNext => true
    case NextDir(at, dir) => if at < e4 then Before(dir, at, ifd0, e4) else Parted(dir, ifd0, e4)
    case NextUnread(_) => true
  }

  // ----- such a table is read as before exactly when it holds no offset that moves -----

  /** `u` begins with the same `n` bytes and is at least as long. */
  predicate SameStart(t: bytes, u: bytes, n: nat) {
    n <= |t| <= |u| && u[..n] == t[..n]
  }

  lemma StartByte(t: bytes, u: bytes, n: nat, p: nat)
    requires SameStart(t, u, n) && p < n
    ensures u[p] == t[p]
  {
    assert u[..n][p] == t[..n][p];
  }

  lemma StartSlice(t: bytes, u: bytes, n: nat, lo: nat, hi: nat)
    requires SameStart(t, u, n) && lo <= hi <= n
    ensures u[lo..hi] == t[lo..hi]
  {
    assert u[lo..hi] == u[..n][lo..hi] && t[lo..hi] == t[..n][lo..hi];
  }

  lemma StartShort(t: bytes, u: bytes, n: nat, en: Endian, p: nat)
    requires SameStart(t, u, n) && p + 2 <= n
    ensures U16(en, u, p) == U16(en, t, p)
  {
    StartByte(t, u, n, p);
    StartByte(t, u, n, p + 1);
  }

  lemma StartWord(t: bytes, u: bytes, n: nat, en: Endian, p: nat)
    requires SameStart(t, u, n) && p + 4 <= n
    ensures U32(en, u, p) == U32(en, t, p)
  {
    StartByte(t, u, n, p);
    StartByte(t, u, n, p + 1);
    StartByte(t, u, n, p + 2);
    StartByte(t, u, n, p + 3);
  }

  lemma StartRaw(t: bytes, u: bytes, n: nat, en: Endian, e: nat)
    requires SameStart(t, u, n) && e + 12 <= n
    ensures RawAt(u, en, e) == RawAt(t, en, e) && u[e + 8..e + 12] == t[e + 8..e + 12]
  {
    hide SameStart, U16, U32;
    StartShort(t, u, n, en, e);
    StartShort(t, u, n, en, e + 2);
    StartWord(t, u, n, en, e + 4);
    StartWord(t, u, n, en, e + 8);
    StartSlice(t, u, n, e + 8, e + 12);
  }

  lemma {:induction false} LowKept(t: bytes, u: bytes, en: Endian, ifd0: nat, e4: nat, off: nat, depth: nat, h: nat)
    requires SameStart(t, u, ifd0) && ifd0 <= e4
    requires ReadDirectory(t, en, off, depth, h).Some?
    requires Before(ReadDirectory(t, en, off, depth, h).value, off, ifd0, e4)
    ensures ReadDirectory(u, en, off, depth, h) == Some(Relocated(ReadDirectory(t, en, off, depth, h).value, e4))
       <==> Stays(ReadDirectory(t, en, off, depth, h).value, e4)
    decreases h, 2, 0
  {
    hide SameStart, U16, U32, ReadField, ReadNext, FieldStays, LinkStays, FieldBefore, LinkBefore, RelocatedField,
      RelocatedLink;
    var d, n := ReadDirectory(t, en, off, depth, h).value, EntryCount(t, en, off);
    StartShort(t, u, ifd0, en, off);
    LowFieldsKept(t, u, en, ifd0, e4, off, depth, h, n);
    LowLinkKept(t, u, en, ifd0, e4, EntriesEnd(t, en, off), depth, h);
    assert |t| <= |u| by {
      StartLength(t, u, ifd0);
    }
  }

  lemma StartLength(t: bytes, u: bytes, n: nat)
    requires SameStart(t, u, n)
    ensures n <= |t| <= |u|
  {
  }

  lemma {:induction false} LowFieldsKept(
      t: bytes, u: bytes, en: Endian, ifd0: nat, e4: nat, off: nat, depth: nat, h: nat, k: nat)
    requires SameStart(t, u, ifd0) && ifd0 <= e4 && h > 0 && EntryAt(off, k) <= ifd0
    requires ReadFields(t, en, off, depth, h, k).Some?
    requires forall i :: 0 <= i < k ==> FieldBefore(ReadFields(t, en, off, depth, h, k).value[i], ifd0, e4)
    ensures var fs := ReadFields(t, en, off, depth, h, k).value;
            ReadFields(u, en, off, depth, h, k) == Some(RelocatedFields(fs, e4))
            <==> forall i :: 0 <= i < k ==> FieldStays(fs[i], e4)
    decreases h, 1, k
  {
    hide U16, U32, ReadField, FieldStays, FieldBefore, RelocatedField;
    if k > 0 {
      var e, all := EntryAt(off, k - 1), ReadFields(t, en, off, depth, h, k).value;
      var before, last := ReadFields(t, en, off, depth, h, k - 1).value, ReadField(t, en, e, depth, h).value;
      assert all == before + [last];
      assert forall i :: 0 <= i < k - 1 ==> before[i] == all[i];
      assert all[k - 1] == last;
      LowFieldsKept(t, u, en, ifd0, e4, off, depth, h, k - 1);
      LowFieldKept(t, u, en, ifd0, e4, e, depth, h);
      RelocatedAppend(before, last, e4);
      AppendIff(ReadFields(u, en, off, depth, h, k - 1), ReadField(u, en, e, depth, h),
        RelocatedFields(before, e4), RelocatedField(last, e4));
    }
  }

  lemma {:induction false} LowFieldKept(t: bytes, u: bytes, en: Endian, ifd0: nat, e4: nat, e: nat, depth: nat, h: nat)
    requires SameStart(t, u, ifd0) && ifd0 <= e4 && h > 0 && e + 12 <= ifd0
    requires ReadField(t, en, e, depth, h).Some? && FieldBefore(ReadField(t, en, e, depth, h).value, ifd0, e4)
    ensures e + 12 <= |u|
    ensures ReadField(u, en, e, depth, h) == Some(RelocatedField(ReadField(t, en, e, depth, h).value, e4))
       <==> FieldStays(ReadField(t, en, e, depth, h).value, e4)
    decreases h, 0, 0
  {
    hide SameStart, U16, U32, RawAt, ReadDirectory, Relocated, Stays, Before, ValueSize;
    StartLength(t, u, ifd0);
    StartRaw(t, u, ifd0, en, e);
    var raw := RawAt(t, en, e);
    match Classify(raw, depth)
    case Literal =>
    case Remote(size) =>
      if raw.word < e4 {
        StartSlice(t, u, ifd0, raw.word, raw.word + size);
      }
    case RemoteTable(size) =>
      if raw.word < e4 {
        StartSlice(t, u, ifd0, raw.word, raw.word + size);
        LowKept(t, u, en, ifd0, e4, raw.word, Deeper(depth), h - 1);
      }
    case Table =>
      if raw.word < e4 {
        LowKept(t, u, en, ifd0, e4, raw.word, Deeper(depth), h - 1);
      }
  }

  lemma {:induction false} LowLinkKept(t: bytes, u: bytes, en: Endian, ifd0: nat, e4: nat, p: nat, depth: nat, h: nat)
    requires SameStart(t, u, ifd0) && ifd0 <= e4 && h > 0 && p + 4 <= ifd0
    requires ReadNext(t, en, p, depth, h).Some? && LinkBefore(ReadNext(t, en, p, depth, h).value, ifd0, e4)
    ensures p + 4 <= |u|
    ensures ReadNext(u, en, p, depth, h) == Some(RelocatedLink(ReadNext(t, en, p, depth, h).value, e4))
       <==> LinkStays(ReadNext(t, en, p, depth, h).value, e4)
    decreases h, 0, 0
  {
    hide SameStart, U32, ReadDirectory, Relocated, Stays, Before;
    StartLength(t, u, ifd0);
    StartWord(t, u, ifd0, en, p);
    var word := U32(en, t, p);
    if word != 0 && depth == 0 && word < e4 {
      LowKept(t, u, en, ifd0, e4, word, Deeper(depth), h - 1);
    }
  }
}
