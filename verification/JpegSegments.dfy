/** Scanning JPEG marker segments for the Exif APP1 segment. */
module JpegSegments {
  import opened Wrappers
  import opened ByteOrder
  import opened JpegLayout

  /** Position of a segment's marker and its length including the two marker bytes. */
  datatype Location = Location(pos: nat, total: nat)

  const EXIF_HEADER: bytes := [0x45, 0x78, 0x69, 0x66, 0, 0]

  predicate StartsJpeg(jpeg: bytes) {
    |jpeg| >= 4 && jpeg[0] == 0xFF && jpeg[1] == 0xD8
  }

  /** What the scan does on arriving at `pos`. */
  datatype Verdict = Stop | Found(total: nat) | Skip(to: nat)

  function Inspect(jpeg: bytes, pos: nat): (v: Verdict)
    ensures v.Skip? ==> pos < v.to && pos + 4 <= |jpeg|
    ensures v.Found? ==>
        pos + 10 <= |jpeg| && jpeg[pos..pos + 2] == [0xFF, 0xE1] && jpeg[pos + 4..pos + 10] == EXIF_HEADER
    ensures v.Found? ==> v.total == U16(Big, jpeg, pos + 2) + 2 && 4 <= v.total
  {
    if pos + 4 > |jpeg| || jpeg[pos] != 0xFF then Stop
    else if jpeg[pos + 1] == 0xFF then Skip(pos + 1)
    else if jpeg[pos + 1] == 0xDA then Stop
    else
      var len := U16(Big, jpeg, pos + 2);
      if len < 2 then Stop
      else if jpeg[pos + 1] == 0xE1 && pos + 10 <= |jpeg| && jpeg[pos + 4..pos + 10] == EXIF_HEADER then Found(len + 2)
      else Skip(pos + 2 + len)
  }

  /** `pos` is reached from `from` by skipping fill bytes and foreign segments. */
  ghost predicate Reaches(jpeg: bytes, from: nat, pos: nat)
    decreases pos - from
  {
    from == pos || (from < pos && Inspect(jpeg, from).Skip? && Reaches(jpeg, Inspect(jpeg, from).to, pos))
  }

  /** `loc` is the Exif segment a marker-by-marker reading arrives at. */
  ghost predicate IsExifAt(jpeg: bytes, loc: Location) {
    StartsJpeg(jpeg) && Reaches(jpeg, 2, loc.pos) && Inspect(jpeg, loc.pos) == Found(loc.total)
  }

  /** Reading marker by marker is deterministic, so the Exif segment is unique. */
  lemma {:induction false} ExifUnique(jpeg: bytes, from: nat, p: nat, q: nat)
    requires Reaches(jpeg, from, p) && Reaches(jpeg, from, q)
    requires Inspect(jpeg, p).Found? && Inspect(jpeg, q).Found?
    ensures p == q
    decreases p + q - from
  {
    if from != p && from != q {
      ExifUnique(jpeg, Inspect(jpeg, from).to, p, q);
    }
  }

  lemma {:induction false} ReachesExtend(jpeg: bytes, from: nat, pos: nat)
    requires Reaches(jpeg, from, pos) && Inspect(jpeg, pos).Skip?
    ensures Reaches(jpeg, from, Inspect(jpeg, pos).to)
    decreases pos - from
  {
    if from != pos {
      ReachesExtend(jpeg, Inspect(jpeg, from).to, pos);
    }
  }

  /** Following the chain one way only: a later stop rules out every earlier candidate. */
  lemma {:induction false} StopsAfter(jpeg: bytes, from: nat, stop: nat, p: nat)
    requires Reaches(jpeg, from, stop) && Inspect(jpeg, stop).Stop?
    requires Reaches(jpeg, from, p)
    ensures !Inspect(jpeg, p).Found?
    decreases stop + p - from
  {
    if from != stop && from != p {
      StopsAfter(jpeg, Inspect(jpeg, from).to, stop, p);
    }
  }

  // ----- what is found in a file as it is written -----

  /** Reading a part leads behind it, if what follows is not cut off and goes on with a marker. */
  lemma ReadsPart(jpeg: bytes, pos: nat, p: Part, next: nat)
    requires Foreign(p) && next == pos + |PartBytes(p)| <= |jpeg| && jpeg[pos..next] == PartBytes(p)
    requires next == |jpeg| || jpeg[next] == 0xFF
    ensures Inspect(jpeg, pos) == if pos + 4 <= |jpeg| then Skip(next) else Stop
  {
    var s := PartBytes(p);
    assert forall i :: 0 <= i < |s| ==> jpeg[pos + i] == s[i];
    if p.Segment? {
      assert s[4..] == p.payload;
      assert pos + 4 <= next;
      if pos + 10 <= next {
        assert jpeg[pos + 4..pos + 10] == p.payload[..6];
      } else if pos + 10 <= |jpeg| {
        assert jpeg[pos + 4..pos + 10][next - pos - 4] == 0xFF;
      }
    }
  }

  /** What follows the first part. */
  lemma PartsStep(jpeg: bytes, pos: nat, ps: seq<Part>, rest: bytes)
    requires ps != [] && AllForeign(ps) && pos <= |jpeg| && jpeg[pos..] == PartsBytes(ps) + rest
    requires rest == [] || rest[0] == 0xFF
    ensures var next := pos + |PartBytes(ps[0])|;
            && AllForeign(ps[1..]) && next <= |jpeg| && jpeg[pos..next] == PartBytes(ps[0])
            && jpeg[next..] == PartsBytes(ps[1..]) + rest && (next == |jpeg| || jpeg[next] == 0xFF)
            && PartsSize(ps) == |PartBytes(ps[0])| + PartsSize(ps[1..])
  {
    hide PartBytes, PartsSize;
    var more := PartsBytes(ps[1..]) + rest;
    FirstPart(ps, rest);
    hide PartsBytes;
    Cut(jpeg, pos, PartBytes(ps[0]), more);
    PartLength(ps);
    StartsWithMarker(ps[1..], rest);
  }

  lemma FirstPart(ps: seq<Part>, rest: bytes)
    requires ps != [] && AllForeign(ps)
    ensures PartsBytes(ps) + rest == PartBytes(ps[0]) + (PartsBytes(ps[1..]) + rest)
  {
    hide PartBytes, Foreign;
  }

  lemma PartLength(ps: seq<Part>)
    requires ps != [] && AllForeign(ps)
    ensures PartsSize(ps) == |PartBytes(ps[0])| + PartsSize(ps[1..])
  {
  }

  lemma Cut(jpeg: bytes, pos: nat, s: bytes, more: bytes)
    requires pos <= |jpeg| && jpeg[pos..] == s + more
    ensures var next := pos + |s|;
            && next <= |jpeg| && jpeg[pos..next] == s && jpeg[next..] == more
            && (next < |jpeg| ==> more != [] && jpeg[next] == more[0])
  {
    var next := pos + |s|;
    assert jpeg[pos..][..|s|] == s && jpeg[pos..][|s|..] == more;
  }

  lemma StartsWithMarker(ps: seq<Part>, rest: bytes)
    requires AllForeign(ps) && (rest == [] || rest[0] == 0xFF)
    ensures var more := PartsBytes(ps) + rest; more == [] || more[0] == 0xFF
  {
  }

  /** The parts are skipped one by one up to four bytes that begin with a marker. */
  lemma {:induction false} PartsSkipped(jpeg: bytes, pos: nat, ps: seq<Part>, rest: bytes)
    requires AllForeign(ps) && pos <= |jpeg| && jpeg[pos..] == PartsBytes(ps) + rest
    requires |rest| >= 4 && rest[0] == 0xFF
    ensures Reaches(jpeg, pos, pos + PartsSize(ps)) && pos + PartsSize(ps) <= |jpeg|
    ensures jpeg[pos + PartsSize(ps)..] == rest
    decreases |ps|
  {
    hide Inspect, PartBytes;
    if ps != [] {
      PartsStep(jpeg, pos, ps, rest);
      var next := pos + |PartBytes(ps[0])|;
      ReadsPart(jpeg, pos, ps[0], next);
      PartsSkipped(jpeg, next, ps[1..], rest);
    }
  }

  lemma BehindStart(jpeg: bytes, ps: seq<Part>, rest: bytes)
    requires AllForeign(ps) && jpeg == JpegWith(ps, rest)
    ensures |jpeg| >= 2 && jpeg[0] == 0xFF && jpeg[1] == 0xD8 && jpeg[2..] == PartsBytes(ps) + rest
  {
    assert jpeg == [0xFF, 0xD8] + (PartsBytes(ps) + rest);
  }

  lemma ExifFound(jpeg: bytes, ps: seq<Part>, payload: bytes, tail: bytes)
    requires HasExif(jpeg, ps, payload, tail)
    ensures IsExifAt(jpeg, Location(2 + PartsSize(ps), |payload| + 4))
  {
    hide Reaches, PartsSize, PartsBytes, Inspect, PartBytes, JpegWith, IsExif, AllForeign;
    var s, pos := PartBytes(Segment(0xE1, payload)), 2 + PartsSize(ps);
    BehindStart(jpeg, ps, s + tail);
    ExifBytes(payload);
    PartsSkipped(jpeg, 2, ps, s + tail);
    Cut(jpeg, pos, s, tail);
    ExifInspected(jpeg, pos, payload);
  }

  lemma ExifBytes(payload: bytes)
    requires IsExif(payload) && |payload| + 2 <= 0xFFFF
    ensures var s := PartBytes(Segment(0xE1, payload));
            && |s| == |payload| + 4 && s[..2] == [0xFF, 0xE1] && U16(Big, s, 2) == |payload| + 2
            && s[4..10] == EXIF_HEADER && s[0] == 0xFF
  {
    var s := PartBytes(Segment(0xE1, payload));
    assert s[4..] == payload;
    assert s[4..10] == payload[..6];
  }

  lemma ExifInspected(jpeg: bytes, pos: nat, payload: bytes)
    requires IsExif(payload) && |payload| + 2 <= 0xFFFF && pos + 4 + |payload| <= |jpeg|
    requires jpeg[pos..pos + 4 + |payload|] == PartBytes(Segment(0xE1, payload))
    ensures Inspect(jpeg, pos) == Found(|payload| + 4)
  {
    hide PartBytes;
    var s := PartBytes(Segment(0xE1, payload));
    ExifBytes(payload);
    assert jpeg[pos] == s[0] == s[..2][0] && jpeg[pos + 1] == s[1] == s[..2][1];
    assert jpeg[pos + 2] == s[2] && jpeg[pos + 3] == s[3];
    SliceOfSlice(jpeg, pos, pos + 4 + |payload|, 4, 10);
  }

  lemma SliceOfSlice(a: bytes, lo: nat, hi: nat, p: nat, q: nat)
    requires lo <= hi <= |a| && p <= q <= hi - lo
    ensures a[lo..hi][p..q] == a[lo + p..lo + q]
  {
    var x, y := a[lo..hi][p..q], a[lo + p..lo + q];
    assert |x| == |y| && forall i :: 0 <= i < |x| ==> x[i] == y[i];
  }

  /** Among parts that hold no Exif segment, with none behind, the scan finds nothing. */
  lemma {:induction false} NothingAmong(jpeg: bytes, pos: nat, ps: seq<Part>, rest: bytes, q: nat)
    requires AllForeign(ps) && pos <= |jpeg| && jpeg[pos..] == PartsBytes(ps) + rest
    requires rest == [] || (|rest| >= 2 && rest[..2] == [0xFF, 0xDA])
    requires Reaches(jpeg, pos, q)
    ensures !Inspect(jpeg, q).Found?
    decreases |ps|
  {
    hide PartBytes;
    if ps == [] {
      assert jpeg[pos..] == rest;
      if rest != [] {
        assert jpeg[pos] == jpeg[pos..][0] && jpeg[pos + 1] == jpeg[pos..][1];
        assert rest[..2][0] == 0xFF && rest[..2][1] == 0xDA;
      }
      assert Inspect(jpeg, pos).Stop?;
    } else {
      assert rest == [] || rest[0] == 0xFF by {
        if rest != [] {
          assert rest[..2][0] == 0xFF;
        }
      }
      PartsStep(jpeg, pos, ps, rest);
      var next := pos + |PartBytes(ps[0])|;
      ReadsPart(jpeg, pos, ps[0], next);
      if q != pos {
        NothingAmong(jpeg, next, ps[1..], rest, q);
      }
    }
  }

  /** What the scan answers is right for every file as it is written. */
  ghost predicate AnswersLayout(jpeg: bytes, r: Option<Location>) {
    && (forall ps, payload, tail :: HasExif(jpeg, ps, payload, tail) ==>
          r == Some(Location(2 + PartsSize(ps), |payload| + 4)))
    && (forall ps, rest :: HasNoExif(jpeg, ps, rest) ==> r == None)
  }

  lemma LayoutAnswered(jpeg: bytes, r: Option<Location>)
    requires r.Some? ==> IsExifAt(jpeg, r.value)
    requires r.None? ==> forall loc :: !IsExifAt(jpeg, loc)
    ensures AnswersLayout(jpeg, r)
  {
    hide Inspect, Reaches, PartsSize, PartsBytes, HasExif;
    forall ps, payload, tail | HasExif(jpeg, ps, payload, tail)
      ensures r == Some(Location(2 + PartsSize(ps), |payload| + 4))
    {
      ExifFound(jpeg, ps, payload, tail);
      ExifUnique(jpeg, 2, 2 + PartsSize(ps), r.value.pos);
    }
    forall ps, rest | HasNoExif(jpeg, ps, rest) ensures r == None {
      if r.Some? {
        BehindStart(jpeg, ps, rest);
        NothingAmong(jpeg, 2, ps, rest, r.value.pos);
      }
    }
  }

  /** `find_exif_app1`: sound and complete for the segment a marker-by-marker reading arrives at, which in a file as it
      is written is the first Exif segment before the start of a scan. */
  method FindExifApp1(jpeg: bytes) returns (r: Option<Location>)
    ensures r.Some? ==> IsExifAt(jpeg, r.value)
    ensures r.None? ==> forall loc :: !IsExifAt(jpeg, loc)
    ensures AnswersLayout(jpeg, r)
  {
    hide AnswersLayout;
    if |jpeg| < 4 || jpeg[0] != 0xFF || jpeg[1] != 0xD8 {
      LayoutAnswered(jpeg, None);
      return None;
    }
    var pos := 2;
    while pos + 4 <= |jpeg|
      invariant Reaches(jpeg, 2, pos)
      decreases |jpeg| - pos
    {
      ReachesHere(jpeg, pos);
      if jpeg[pos] != 0xFF {
        break;
      }
      var marker := jpeg[pos + 1];
      if marker == 0xFF {
        pos := pos + 1;
        continue;
      }
      if marker == 0xDA {
        break;
      }
      var segLen := U16(Big, jpeg, pos + 2);
      if segLen < 2 {
        break;
      }
      if marker == 0xE1 && pos + 10 <= |jpeg| && jpeg[pos + 4..pos + 10] == EXIF_HEADER {
        LayoutAnswered(jpeg, Some(Location(pos, segLen + 2)));
        return Some(Location(pos, segLen + 2));
      }
      pos := pos + 2 + segLen;
    }
    forall loc ensures !IsExifAt(jpeg, loc) {
      if Reaches(jpeg, 2, loc.pos) {
        StopsAfter(jpeg, 2, pos, loc.pos);
      }
    }
    LayoutAnswered(jpeg, None);
    r := None;
  }

  /** The scan's current position extends the chain by one step whenever it may skip. */
  lemma ReachesHere(jpeg: bytes, pos: nat)
    requires Reaches(jpeg, 2, pos)
    ensures Inspect(jpeg, pos).Skip? ==> Reaches(jpeg, 2, Inspect(jpeg, pos).to)
  {
    if Inspect(jpeg, pos).Skip? {
      ReachesExtend(jpeg, 2, pos);
    }
  }

  /** Two files that agree up to a marker byte agree on how that marker is reached. */
  lemma {:induction false} ReachesAgree(a: bytes, b: bytes, from: nat, pos: nat)
    requires Reaches(a, from, pos)
    requires pos + 4 <= |a| && pos + 4 <= |b| && a[..pos] == b[..pos] && a[pos] == b[pos] == 0xFF
    ensures Reaches(b, from, pos)
    decreases pos - from
  {
    if from != pos {
      forall i | 0 <= i <= pos ensures a[i] == b[i] {
        assert i < pos ==> a[..pos][i] == b[..pos][i];
      }
      if from + 10 <= |b| && from + 4 <= pos < from + 10 {
        assert b[from + 4..from + 10][pos - from - 4] == 0xFF;
      }
      assert Inspect(a, from) == Inspect(b, from) by {
        if from + 10 <= pos {
          assert a[from + 4..from + 10] == b[from + 4..from + 10];
        }
      }
      ReachesAgree(a, b, Inspect(a, from).to, pos);
    }
  }
}
