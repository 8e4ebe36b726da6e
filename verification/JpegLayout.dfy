/** JPEG files as they are written: a start marker, then segments with length fields and fill bytes between them. */
module JpegLayout {
  import opened ByteOrder

  /** A fill byte, or a segment: a marker, a length field that counts itself, and a payload. */
  datatype Part = Fill | Segment(marker: byte, payload: bytes)

  predicate IsExif(payload: bytes) {
    |payload| >= 6 && payload[..6] == [0x45, 0x78, 0x69, 0x66, 0x00, 0x00]     // "Exif", 0, 0
  }

  predicate WellFormed(p: Part) {
    p.Segment? ==> p.marker != 0xFF && p.marker != 0xDA && |p.payload| + 2 <= 0xFFFF
  }

  /** Not an Exif APP1 segment. */
  predicate Foreign(p: Part) {
    WellFormed(p) && (p.Segment? ==> !(p.marker == 0xE1 && IsExif(p.payload)))
  }

  function PartBytes(p: Part): bytes
    requires WellFormed(p)
  {
    match p
    case Fill => [0xFF]
    case Segment(marker, payload) => [0xFF, marker, (|payload| + 2) / 256, (|payload| + 2) % 256] + payload
  }

  ghost predicate AllForeign(ps: seq<Part>) {
    forall i :: 0 <= i < |ps| ==> Foreign(ps[i])
  }

  ghost function PartsBytes(ps: seq<Part>): bytes
    requires AllForeign(ps)
  {
    if ps == [] then [] else PartBytes(ps[0]) + PartsBytes(ps[1..])
  }

  /** One byte for a fill byte, and four more than the payload for a segment. */
  function PartsSize(ps: seq<Part>): nat {
    if ps == [] then 0
    else (match ps[0] case Fill => 1 case Segment(_, payload) => 4 + |payload|) + PartsSize(ps[1..])
  }

  /** A file of these parts, continued by `rest`. */
  ghost function JpegWith(ps: seq<Part>, rest: bytes): bytes
    requires AllForeign(ps)
  {
    [0xFF, 0xD8] + PartsBytes(ps) + rest
  }

  /** A file of these parts, an Exif segment with this payload, and more. */
  ghost predicate HasExif(jpeg: bytes, ps: seq<Part>, payload: bytes, tail: bytes) {
    && AllForeign(ps) && IsExif(payload) && |payload| + 2 <= 0xFFFF
    && jpeg == JpegWith(ps, PartBytes(Segment(0xE1, payload)) + tail)
  }

  /** A file of these parts in which no Exif segment follows: it ends, or the start of a scan comes first. */
  ghost predicate HasNoExif(jpeg: bytes, ps: seq<Part>, rest: bytes) {
    && AllForeign(ps) && (rest == [] || (|rest| >= 2 && rest[..2] == [0xFF, 0xDA]))
    && jpeg == JpegWith(ps, rest)
  }
}
