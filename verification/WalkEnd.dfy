/** When the pointer walk ends: within a computable height, or never, coming back to a table it is still inside of. */
module WalkEnd {
  import opened FiniteSets
  import opened ByteOrder
  import opened Tiff
  import opened IfdWalk

  /** The number of visits there are: a table position up to the end of the block and a nesting level. */
  function Bound(t: bytes): nat {
    256 * (|t| + 1)
  }

  predicate IsVisit(t: bytes, v: Visit) {
    v.0 <= |t| && v.1 < 256
  }

  predicate Ends(t: bytes, en: Endian, e4: nat, v: Visit, h: nat) {
    !Walk(t, en, e4, v.0, v.1, h).Unfinished?
  }

  /** The walk from `v` as far as it goes: the greatest height is enough. */
  function FullWalk(t: bytes, en: Endian, e4: nat, v: Visit): Walked {
    Walk(t, en, e4, v.0, v.1, Bound(t))
  }

  // ----- the height is enough -----

  lemma {:induction false} EndsLater(t: bytes, en: Endian, e4: nat, v: Visit, h: nat, k: nat)
    requires h <= k && Ends(t, en, e4, v, h)
    ensures Walk(t, en, e4, v.0, v.1, k) == Walk(t, en, e4, v.0, v.1, h)
    decreases k
  {
    hide Walk;
    if h < k {
      EndsLater(t, en, e4, v, h, k - 1);
      HeightIrrelevant(t, en, e4, v.0, v.1, k - 1);
    }
  }

  /** One more level finishes no further walk. */
  ghost predicate Stable(t: bytes, en: Endian, e4: nat, h: nat) {
    forall v: Visit :: IsVisit(t, v) && Ends(t, en, e4, v, h + 1) ==> Ends(t, en, e4, v, h)
  }

  lemma EntryTarget(t: bytes, en: Endian, e4: nat, e: nat, depth: nat)
    requires e + 12 <= |t| && EntryDescends(t, en, e4, e, depth)
    ensures IsVisit(t, (RawAt(t, en, e).word, Deeper(depth)))
  {
  }

  lemma {:induction false} EntriesStay(t: bytes, en: Endian, e4: nat, off: nat, depth: nat, h: nat, k: nat)
    requires h > 0 && EntryAt(off, k) <= |t| && Stable(t, en, e4, h - 1)
    requires WalkEntries(t, en, e4, off, depth, h, k).Unfinished?
    ensures WalkEntries(t, en, e4, off, depth, h + 1, k).Unfinished?
    decreases k
  {
    hide U16, U32, Walk;
    if k > 0 {
      var e := EntryAt(off, k - 1);
      if WalkEntries(t, en, e4, off, depth, h, k - 1).Unfinished? {
        EntriesStay(t, en, e4, off, depth, h, k - 1);
      } else {
        EntriesHeightIrrelevant(t, en, e4, off, depth, h, k - 1);
        EntryStays(t, en, e4, e, depth, h);
      }
    }
  }

  lemma EntryStays(t: bytes, en: Endian, e4: nat, e: nat, depth: nat, h: nat)
    requires h > 0 && e + 12 <= |t| && Stable(t, en, e4, h - 1)
    requires WalkEntry(t, en, e4, e, depth, h).Unfinished?
    ensures WalkEntry(t, en, e4, e, depth, h + 1).Unfinished?
  {
    hide U16, U32, Walk;
    var v := (RawAt(t, en, e).word, Deeper(depth));
    assert EntryDescends(t, en, e4, e, depth);
    EntryTarget(t, en, e4, e, depth);
    assert !Ends(t, en, e4, v, h - 1);
    assert !Ends(t, en, e4, v, h);
  }

  lemma NextStays(t: bytes, en: Endian, e4: nat, p: nat, depth: nat, h: nat)
    requires h > 0 && p + 4 <= |t| && Stable(t, en, e4, h - 1)
    requires WalkNext(t, en, e4, p, depth, h).Unfinished?
    ensures WalkNext(t, en, e4, p, depth, h + 1).Unfinished?
  {
    hide U32, Walk;
    var v := (U32(en, t, p), Deeper(depth));
    assert IsVisit(t, v) && !Ends(t, en, e4, v, h - 1);
    assert !Ends(t, en, e4, v, h);
  }

  lemma WalkStays(t: bytes, en: Endian, e4: nat, v: Visit, h: nat)
    requires h > 0 && Stable(t, en, e4, h - 1) && !Ends(t, en, e4, v, h)
    ensures !Ends(t, en, e4, v, h + 1)
  {
    hide U16, U32, WalkEntries, WalkNext;
    var n := EntryCount(t, en, v.0);
    if WalkEntries(t, en, e4, v.0, v.1, h, n).Unfinished? {
      EntriesStay(t, en, e4, v.0, v.1, h, n);
    } else {
      EntriesHeightIrrelevant(t, en, e4, v.0, v.1, h, n);
      NextStays(t, en, e4, EntriesEnd(t, en, v.0), v.1, h);
    }
  }

  lemma StableLater(t: bytes, en: Endian, e4: nat, h: nat)
    requires Stable(t, en, e4, h)
    ensures Stable(t, en, e4, h + 1)
  {
    hide Ends;
    forall v: Visit | IsVisit(t, v) && !Ends(t, en, e4, v, h + 1) ensures !Ends(t, en, e4, v, h + 2) {
      WalkStays(t, en, e4, v, h + 1);
    }
  }

  function Decode(c: nat): Visit {
    (c / 256, c % 256)
  }

  function Code(v: Visit): nat {
    v.0 * 256 + v.1
  }

  lemma CodeOf(t: bytes, v: Visit)
    requires IsVisit(t, v)
    ensures Code(v) < Bound(t) && Decode(Code(v)) == v
  {
  }

  /** The codes of the visits whose walk is not finished at height `h`. */
  ghost function Pending(t: bytes, en: Endian, e4: nat, h: nat): set<nat> {
    set c: nat | c < Bound(t) && !Ends(t, en, e4, Decode(c), h)
  }

  /** Every level finishes some walk until none is finished any more. */
  lemma {:induction false} Shrinks(t: bytes, en: Endian, e4: nat, n: nat)
    ensures Stable(t, en, e4, n) || |Pending(t, en, e4, n)| + n <= Bound(t)
  {
    hide Ends, Decode, Bound;
    if n == 0 {
      SizeBelow(Pending(t, en, e4, 0), Bound(t));
    } else {
      Shrinks(t, en, e4, n - 1);
      if Stable(t, en, e4, n - 1) {
        StableLater(t, en, e4, n - 1);
      } else {
        var v: Visit :| IsVisit(t, v) && Ends(t, en, e4, v, n) && !Ends(t, en, e4, v, n - 1);
        CodeOf(t, v);
        PendingFewer(t, en, e4, n - 1);
        assert Code(v) in Pending(t, en, e4, n - 1) && Code(v) !in Pending(t, en, e4, n);
        SubsetSize(Pending(t, en, e4, n), Pending(t, en, e4, n - 1));
      }
    }
  }

  lemma PendingFewer(t: bytes, en: Endian, e4: nat, h: nat)
    ensures Pending(t, en, e4, h + 1) <= Pending(t, en, e4, h)
  {
    hide Walk, Decode, Bound;
    forall c | c in Pending(t, en, e4, h + 1) ensures c in Pending(t, en, e4, h) {
      var v := Decode(c);
      if Ends(t, en, e4, v, h) {
        EndsLater(t, en, e4, v, h, h + 1);
      }
    }
  }

  lemma StableAtBound(t: bytes, en: Endian, e4: nat)
    ensures Stable(t, en, e4, Bound(t))
  {
    hide Ends, Bound, Decode;
    Shrinks(t, en, e4, Bound(t));
    if |Pending(t, en, e4, Bound(t))| == 0 {
      forall v: Visit | IsVisit(t, v) ensures Ends(t, en, e4, v, Bound(t)) {
        CodeOf(t, v);
        assert Code(v) !in Pending(t, en, e4, Bound(t));
      }
    }
  }

  lemma {:induction false} StableFrom(t: bytes, en: Endian, e4: nat, v: Visit, h: nat)
    requires IsVisit(t, v) && Ends(t, en, e4, v, h) && Bound(t) <= h
    ensures Ends(t, en, e4, v, Bound(t)) && Stable(t, en, e4, h)
    decreases h
  {
    hide Ends, Bound;
    StableAtBound(t, en, e4);
    if h > Bound(t) {
      StableAlways(t, en, e4, Bound(t), h - 1);
      StableLater(t, en, e4, h - 1);
      StableFrom(t, en, e4, v, h - 1);
    }
  }

  lemma {:induction false} StableAlways(t: bytes, en: Endian, e4: nat, h: nat, k: nat)
    requires h <= k && Stable(t, en, e4, h)
    ensures Stable(t, en, e4, k)
    decreases k
  {
    hide Stable;
    if h < k {
      StableAlways(t, en, e4, h, k - 1);
      StableLater(t, en, e4, k - 1);
    }
  }

  /** A walk that ends at all ends at height `256 * (|t| + 1)`. */
  lemma WalkEndsInBound(t: bytes, en: Endian, e4: nat, v: Visit)
    requires IsVisit(t, v)
    ensures (exists h: nat :: Ends(t, en, e4, v, h)) <==> !FullWalk(t, en, e4, v).Unfinished?
  {
    hide Walk, Bound;
    if h: nat :| Ends(t, en, e4, v, h) {
      if h <= Bound(t) {
        EndsLater(t, en, e4, v, h, Bound(t));
      } else {
        StableFrom(t, en, e4, v, h);
      }
    }
    if !FullWalk(t, en, e4, v).Unfinished? {
      assert Ends(t, en, e4, v, Bound(t));
    }
  }

  /** Any height at which the walk ends gives the same result. */
  lemma FullWalkAt(t: bytes, en: Endian, e4: nat, v: Visit, h: nat)
    requires IsVisit(t, v) && Ends(t, en, e4, v, h)
    ensures Walk(t, en, e4, v.0, v.1, h) == FullWalk(t, en, e4, v)
  {
    hide Walk, Bound;
    WalkEndsInBound(t, en, e4, v);
    if h <= Bound(t) {
      EndsLater(t, en, e4, v, h, Bound(t));
    } else {
      EndsLater(t, en, e4, v, Bound(t), h);
    }
  }

  // ----- ending and going round -----

  /** Entry `k` of `v` is followed to `w`: everything before it is walked and accepted. */
  ghost predicate EntersAt(t: bytes, en: Endian, e4: nat, v: Visit, k: nat, w: Visit)
    requires TableFits(t, en, v.0) && k < EntryCount(t, en, v.0)
  {
    && WalkEntries(t, en, e4, v.0, v.1, Bound(t) + 1, k).Marked?
    && EntryDescends(t, en, e4, EntryAt(v.0, k), v.1)
    && w == (RawAt(t, en, EntryAt(v.0, k)).word, Deeper(v.1))
  }

  ghost predicate EntersNext(t: bytes, en: Endian, e4: nat, v: Visit, w: Visit)
    requires TableFits(t, en, v.0)
  {
    var p := EntriesEnd(t, en, v.0);
    && WalkEntries(t, en, e4, v.0, v.1, Bound(t) + 1, EntryCount(t, en, v.0)).Marked?
    && v.1 == 0 && NextPoints(t, en, e4, p) && w == (U32(en, t, p), Deeper(v.1))
  }

  /** The walk of `v` starts a walk of `w`: no table before that is rejected. */
  ghost predicate Enters(t: bytes, en: Endian, e4: nat, v: Visit, w: Visit) {
    && TableFits(t, en, v.0) && EntryCount(t, en, v.0) <= 0x2000
    && ((exists k: nat :: k < EntryCount(t, en, v.0) && EntersAt(t, en, e4, v, k, w)) || EntersNext(t, en, e4, v, w))
  }

  lemma EntersVisit(t: bytes, en: Endian, e4: nat, v: Visit, w: Visit)
    requires Enters(t, en, e4, v, w)
    ensures IsVisit(t, w)
  {
    hide U16, U32, WalkEntries;
    if k: nat :| k < EntryCount(t, en, v.0) && EntersAt(t, en, e4, v, k, w) {
      EntryInTable(t, en, v.0, k);
      EntryTarget(t, en, e4, EntryAt(v.0, k), v.1);
    }
  }

  lemma EntryInTable(t: bytes, en: Endian, off: nat, k: nat)
    requires TableFits(t, en, off) && k < EntryCount(t, en, off)
    ensures EntryAt(off, k) + 12 <= |t| && EntryAt(off, k + 1) <= |t|
  {
  }

  /** The walk of `w` at height `h` decides that of the entry that leads to it. */
  lemma EntryWalks(t: bytes, en: Endian, e4: nat, v: Visit, k: nat, w: Visit, h: nat)
    requires h > 0 && TableFits(t, en, v.0) && k < EntryCount(t, en, v.0) && EntersAt(t, en, e4, v, k, w)
    ensures EntryAt(v.0, k) + 12 <= |t|
    ensures WalkEntry(t, en, e4, EntryAt(v.0, k), v.1, h).Unfinished? <==> !Ends(t, en, e4, w, h - 1)
  {
    hide U16, U32, Walk, WalkEntries;
    EntryInTable(t, en, v.0, k);
  }

  /** Entries whose walk does not end contain one that leads to a table whose walk does not end. */
  lemma {:induction false} StuckEntry(t: bytes, en: Endian, e4: nat, v: Visit, n: nat) returns (w: Visit)
    requires TableFits(t, en, v.0) && n <= EntryCount(t, en, v.0) && EntryCount(t, en, v.0) <= 0x2000
    requires WalkEntries(t, en, e4, v.0, v.1, Bound(t) + 1, n).Unfinished?
    ensures Enters(t, en, e4, v, w) && FullWalk(t, en, e4, w).Unfinished?
    decreases n
  {
    hide U16, U32, Walk, Bound;
    if WalkEntries(t, en, e4, v.0, v.1, Bound(t) + 1, n - 1).Unfinished? {
      w := StuckEntry(t, en, e4, v, n - 1);
    } else {
      w := (RawAt(t, en, EntryAt(v.0, n - 1)).word, Deeper(v.1));
      assert EntersAt(t, en, e4, v, n - 1, w);
    }
  }

  /** A walk that does not end enters one that does not end. */
  lemma NeverEndsBelow(t: bytes, en: Endian, e4: nat, v: Visit) returns (w: Visit)
    requires IsVisit(t, v) && FullWalk(t, en, e4, v).Unfinished?
    ensures Enters(t, en, e4, v, w) && FullWalk(t, en, e4, w).Unfinished? && IsVisit(t, w)
  {
    hide U16, U32, WalkEntries, Bound;
    var h: nat := Bound(t) + 1;
    WalkEndsInBound(t, en, e4, v);
    assert !Ends(t, en, e4, v, h);
    assert TableFits(t, en, v.0) && EntryCount(t, en, v.0) <= 0x2000;
    var n := EntryCount(t, en, v.0);
    if WalkEntries(t, en, e4, v.0, v.1, h, n).Unfinished? {
      w := StuckEntry(t, en, e4, v, n);
    } else {
      w := (U32(en, t, EntriesEnd(t, en, v.0)), Deeper(v.1));
      assert WalkEntries(t, en, e4, v.0, v.1, h, n).Marked?;
      assert WalkNext(t, en, e4, EntriesEnd(t, en, v.0), v.1, h).Unfinished?;
      assert EntersNext(t, en, e4, v, w);
    }
    EntersVisit(t, en, e4, v, w);
  }

  /** Each visit enters the next. */
  ghost predicate IsPath(t: bytes, en: Endian, e4: nat, p: seq<Visit>) {
    p != [] && forall i :: 0 <= i < |p| - 1 ==> Enters(t, en, e4, p[i], p[i + 1])
  }

  /** Some table is reached again, at the same nesting level, below itself. */
  ghost predicate Repeats(p: seq<Visit>) {
    exists i, j :: 0 <= i < j < |p| && p[i] == p[j]
  }

  lemma {:induction false} EndlessPath(t: bytes, en: Endian, e4: nat, v: Visit, n: nat) returns (p: seq<Visit>)
    requires IsVisit(t, v) && FullWalk(t, en, e4, v).Unfinished?
    ensures IsPath(t, en, e4, p) && |p| == n + 1 && p[0] == v && forall i :: 0 <= i < |p| ==> IsVisit(t, p[i])
    decreases n
  {
    hide Enters, FullWalk, IsVisit;
    if n == 0 {
      p := [v];
    } else {
      var w := NeverEndsBelow(t, en, e4, v);
      p := EndlessPath(t, en, e4, w, n - 1);
      p := [v] + p;
    }
  }

  ghost function Codes(p: seq<Visit>): set<nat> {
    set i | 0 <= i < |p| :: Code(p[i])
  }

  lemma {:induction false} DistinctCodes(t: bytes, p: seq<Visit>)
    requires !Repeats(p) && forall i :: 0 <= i < |p| ==> IsVisit(t, p[i])
    ensures |Codes(p)| == |p| && forall c :: c in Codes(p) ==> c < Bound(t)
  {
    hide Code, Bound, Decode, IsVisit;
    forall i | 0 <= i < |p| ensures Code(p[i]) < Bound(t) && Decode(Code(p[i])) == p[i] {
      CodeOf(t, p[i]);
    }
    if p != [] {
      var n := |p| - 1;
      var q := p[..n];
      PrefixRepeats(p, n);
      DistinctCodes(t, q);
      assert Codes(p) == Codes(q) + {Code(p[n])} by {
        CodesStep(p);
      }
      assert Code(p[n]) !in Codes(q) by {
        forall i | 0 <= i < |q| ensures Code(q[i]) != Code(p[n]) {
          assert p[i] == q[i] && p[i] != p[n];
        }
      }
    }
  }

  lemma PrefixRepeats(p: seq<Visit>, n: nat)
    requires n <= |p|
    ensures Repeats(p[..n]) ==> Repeats(p)
  {
    if i, j :| 0 <= i < j < n && p[..n][i] == p[..n][j] {
      assert p[i] == p[j];
    }
  }

  lemma CodesStep(p: seq<Visit>)
    requires p != []
    ensures Codes(p) == Codes(p[..|p| - 1]) + {Code(p[|p| - 1])}
  {
    hide Code;
    var q := p[..|p| - 1];
    forall i | 0 <= i < |q| ensures Code(p[i]) in Codes(q) {
      assert q[i] == p[i];
    }
  }

  /** If the walk of `v` ends at height `h`, the walks it enters end one level lower. */
  lemma EndsBelow(t: bytes, en: Endian, e4: nat, v: Visit, w: Visit, h: nat)
    requires IsVisit(t, v) && Enters(t, en, e4, v, w) && Ends(t, en, e4, v, h)
    ensures h > 0 && Ends(t, en, e4, w, h - 1)
  {
    hide U16, U32, WalkEntry, Bound;
    var n, b := EntryCount(t, en, v.0), Bound(t) + 1;
    if k: nat :| k < n && EntersAt(t, en, e4, v, k, w) {
      EntryWalks(t, en, e4, v, k, w, h);
      EntryInTable(t, en, v.0, k);
      PrefixDecides(t, en, e4, v.0, v.1, h, k, n);
      PrefixDecides(t, en, e4, v.0, v.1, h, k + 1, n);
      EntriesAgree(t, en, e4, v.0, v.1, h, b, k);
    } else {
      EntriesAgree(t, en, e4, v.0, v.1, h, b, n);
      assert !WalkNext(t, en, e4, EntriesEnd(t, en, v.0), v.1, h).Unfinished?;
    }
  }

  /** Entries whose walk is finished at two heights are walked alike. */
  lemma EntriesAgree(t: bytes, en: Endian, e4: nat, off: nat, depth: nat, h: nat, g: nat, k: nat)
    requires h > 0 && g > 0 && EntryAt(off, k) <= |t|
    requires !WalkEntries(t, en, e4, off, depth, h, k).Unfinished? &&
        !WalkEntries(t, en, e4, off, depth, g, k).Unfinished?
    ensures WalkEntries(t, en, e4, off, depth, h, k) == WalkEntries(t, en, e4, off, depth, g, k)
  {
    hide WalkEntries;
    if h <= g {
      EntriesLater(t, en, e4, off, depth, h, g, k);
    } else {
      EntriesLater(t, en, e4, off, depth, g, h, k);
    }
  }

  lemma {:induction false} EntriesLater(t: bytes, en: Endian, e4: nat, off: nat, depth: nat, h: nat, g: nat, k: nat)
    requires 0 < h <= g && EntryAt(off, k) <= |t| && !WalkEntries(t, en, e4, off, depth, h, k).Unfinished?
    ensures WalkEntries(t, en, e4, off, depth, g, k) == WalkEntries(t, en, e4, off, depth, h, k)
    decreases g
  {
    hide WalkEntries;
    if h < g {
      EntriesLater(t, en, e4, off, depth, h, g - 1, k);
      EntriesHeightIrrelevant(t, en, e4, off, depth, g - 1, k);
    }
  }

  lemma {:induction false} EndsAlong(t: bytes, en: Endian, e4: nat, p: seq<Visit>, i: nat, j: nat, h: nat)
    requires IsPath(t, en, e4, p) && i <= j < |p| && IsVisit(t, p[i]) && Ends(t, en, e4, p[i], h)
    ensures j - i <= h && Ends(t, en, e4, p[j], h - (j - i))
    decreases j - i
  {
    hide Enters, Ends;
    if i < j {
      EndsBelow(t, en, e4, p[i], p[i + 1], h);
      EntersVisit(t, en, e4, p[i], p[i + 1]);
      EndsAlong(t, en, e4, p, i + 1, j, h - 1);
    }
  }

  /** A table reached again below itself is never finished. */
  lemma {:induction false} LoopNeverEnds(t: bytes, en: Endian, e4: nat, p: seq<Visit>, i: nat, j: nat, h: nat)
    requires IsPath(t, en, e4, p) && i < j < |p| && p[i] == p[j] && IsVisit(t, p[i])
    ensures !Ends(t, en, e4, p[i], h)
    decreases h
  {
    hide Enters, Ends;
    if Ends(t, en, e4, p[i], h) {
      EndsAlong(t, en, e4, p, i, j, h);
      LoopNeverEnds(t, en, e4, p, i, j, h - (j - i));
    }
  }

  lemma {:induction false} PathVisits(t: bytes, en: Endian, e4: nat, p: seq<Visit>, i: nat)
    requires IsPath(t, en, e4, p) && i < |p| && IsVisit(t, p[0])
    ensures IsVisit(t, p[i])
  {
    hide Enters, IsVisit;
    if i > 0 {
      EntersVisit(t, en, e4, p[i - 1], p[i]);
    }
  }

  /** The walk ends exactly when no table that it enters is entered again, at the same nesting level, below itself. */
  lemma EndsUnlessItLoops(t: bytes, en: Endian, e4: nat, v: Visit)
    requires IsVisit(t, v)
    ensures (exists h: nat :: Ends(t, en, e4, v, h))
       <==> forall p: seq<Visit> :: IsPath(t, en, e4, p) && p[0] == v ==> !Repeats(p)
  {
    hide Enters, Ends, Bound, FullWalk, IsVisit;
    WalkEndsInBound(t, en, e4, v);
    if FullWalk(t, en, e4, v).Unfinished? {
      var p := EndlessPath(t, en, e4, v, Bound(t));
      if !Repeats(p) {
        DistinctCodes(t, p);
        SizeBelow(Codes(p), Bound(t));
      }
      assert IsPath(t, en, e4, p) && p[0] == v && Repeats(p);
    } else {
      var h: nat :| Ends(t, en, e4, v, h);
      forall p: seq<Visit> | IsPath(t, en, e4, p) && p[0] == v ensures !Repeats(p) {
        if i, j :| 0 <= i < j < |p| && p[i] == p[j] {
          EndsAlong(t, en, e4, p, 0, i, h);
          PathVisits(t, en, e4, p, i);
          LoopNeverEnds(t, en, e4, p, i, j, h - i);
        }
      }
    }
  }

  /** Every step of the walk leads to a table behind the one it comes from. */
  ghost predicate PointsForward(t: bytes, en: Endian, e4: nat, v: Visit) {
    forall p: seq<Visit>, i: int :: IsPath(t, en, e4, p) && p[0] == v && 0 <= i < |p| - 1 ==> p[i].0 < p[i + 1].0
  }

  /** If every table the walk enters lies behind the one it is entered from, the walk ends. */
  lemma ForwardWalkEnds(t: bytes, en: Endian, e4: nat, v: Visit)
    requires IsVisit(t, v) && PointsForward(t, en, e4, v)
    ensures !FullWalk(t, en, e4, v).Unfinished?
  {
    hide Enters, Ends, Bound, FullWalk, IsVisit;
    forall p: seq<Visit> | IsPath(t, en, e4, p) && p[0] == v ensures !Repeats(p) {
      if i, j :| 0 <= i < j < |p| && p[i] == p[j] {
        Increasing(t, en, e4, v, p, i, j);
      }
    }
    EndsUnlessItLoops(t, en, e4, v);
    WalkEndsInBound(t, en, e4, v);
  }

  lemma {:induction false} Increasing(t: bytes, en: Endian, e4: nat, v: Visit, p: seq<Visit>, i: nat, j: nat)
    requires PointsForward(t, en, e4, v) && IsPath(t, en, e4, p) && p[0] == v && i < j < |p|
    ensures p[i].0 < p[j].0
    decreases j
  {
    hide IsPath;
    if i < j - 1 {
      Increasing(t, en, e4, v, p, i, j - 1);
    }
    assert p[j - 1].0 < p[j].0;
  }

  /** A table whose first entry is an inline pointer to the table itself is walked forever. */
  lemma {:induction false} SelfLoopNeverEnds(t: bytes, en: Endian, e4: nat, off: nat, depth: nat, h: nat)
    requires TableFits(t, en, off) && EntryCount(t, en, off) <= 0x2000 && e4 <= off
    requires var raw := RawAt(t, en, EntryAt(off, 0));
             raw.typ == 4 && raw.count == 1 && IsSubIfdTag(raw.tag) && raw.word == off
    ensures Walk(t, en, e4, off, depth, h).Unfinished?
    decreases h
  {
    if h > 0 {
      SelfLoopNeverEnds(t, en, e4, off, Deeper(depth), h - 1);
      assert EntryAt(off, 1) <= |t|;
      assert WalkEntries(t, en, e4, off, depth, h, 0) == Marked({}, {});
      assert WalkEntry(t, en, e4, EntryAt(off, 0), depth, h).Unfinished?;
      assert WalkEntries(t, en, e4, off, depth, h, 1).Unfinished?;
      PrefixDecides(t, en, e4, off, depth, h, 1, EntryCount(t, en, off));
    }
  }
}
