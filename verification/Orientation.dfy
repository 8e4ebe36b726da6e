/** Orientation values as transformations of images of any size. */
module Orientation {
  import opened Wrappers

  /** An image as rows of pixels. */
  datatype RawImage<P> = RawImage(w: nat, h: nat, rows: seq<seq<P>>) {
    ghost predicate Valid() {
      |rows| == h && forall y :: 0 <= y < h ==> |rows[y]| == w
    }

    function At(x: nat, y: nat): P
      requires Valid() && x < w && y < h
    {
      rows[y][x]
    }
  }

  /** The image of size `w` by `h` with the given pixels. */
  function Make<P>(w: nat, h: nat, pixel: (nat, nat) --> P): (r: RawImage<P>)
    requires forall x: nat, y: nat :: x < w && y < h ==> pixel.requires(x, y)
    ensures r.Valid() && r.w == w && r.h == h
    ensures forall x: nat, y: nat :: x < w && y < h ==> r.At(x, y) == pixel(x, y)
  {
    RawImage(w, h, seq(h, y requires 0 <= y < h => seq(w, x requires 0 <= x < w => pixel(x, y))))
  }

  /** Images of the same size with the same pixels are equal. */
  lemma SamePixels<P>(a: RawImage<P>, b: RawImage<P>)
    requires a.Valid() && b.Valid() && a.w == b.w && a.h == b.h
    requires forall x: nat, y: nat :: x < a.w && y < a.h ==> a.At(x, y) == b.At(x, y)
    ensures a == b
  {
    forall y | 0 <= y < a.h ensures a.rows[y] == b.rows[y] {
      forall x | 0 <= x < a.w ensures a.rows[y][x] == b.rows[y][x] {
        assert a.At(x, y) == b.At(x, y);
      }
    }
  }

  function FlipH<P>(i: RawImage<P>): (r: RawImage<P>)
    requires i.Valid()
    ensures r.Valid() && r.w == i.w && r.h == i.h
    ensures forall x: nat, y: nat :: x < r.w && y < r.h ==> r.At(x, y) == i.At(i.w - 1 - x, y)
  {
    Make(i.w, i.h, (x: nat, y: nat) requires x < i.w && y < i.h => i.At(i.w - 1 - x, y))
  }

  function FlipV<P>(i: RawImage<P>): (r: RawImage<P>)
    requires i.Valid()
    ensures r.Valid() && r.w == i.w && r.h == i.h
    ensures forall x: nat, y: nat :: x < r.w && y < r.h ==> r.At(x, y) == i.At(x, i.h - 1 - y)
  {
    Make(i.w, i.h, (x: nat, y: nat) requires x < i.w && y < i.h => i.At(x, i.h - 1 - y))
  }

  /** Clockwise by 90 degrees: the left column becomes the top row. */
  function Rotate90<P>(i: RawImage<P>): (r: RawImage<P>)
    requires i.Valid()
    ensures r.Valid() && r.w == i.h && r.h == i.w
    ensures forall x: nat, y: nat :: x < r.w && y < r.h ==> r.At(x, y) == i.At(y, i.h - 1 - x)
  {
    Make(i.h, i.w, (x: nat, y: nat) requires x < i.h && y < i.w => i.At(y, i.h - 1 - x))
  }

  function Rotate180<P>(i: RawImage<P>): (r: RawImage<P>)
    requires i.Valid()
    ensures r.Valid() && r.w == i.w && r.h == i.h
    ensures forall x: nat, y: nat :: x < r.w && y < r.h ==> r.At(x, y) == i.At(i.w - 1 - x, i.h - 1 - y)
  {
    Make(i.w, i.h, (x: nat, y: nat) requires x < i.w && y < i.h => i.At(i.w - 1 - x, i.h - 1 - y))
  }

  function Rotate270<P>(i: RawImage<P>): (r: RawImage<P>)
    requires i.Valid()
    ensures r.Valid() && r.w == i.h && r.h == i.w
    ensures forall x: nat, y: nat :: x < r.w && y < r.h ==> r.At(x, y) == i.At(i.w - 1 - y, x)
  {
    Make(i.h, i.w, (x: nat, y: nat) requires x < i.h && y < i.w => i.At(i.w - 1 - y, x))
  }

  /** `apply_orientation_to_image`. */
  function Apply<P>(i: RawImage<P>, orientation: int): (r: RawImage<P>)
    requires i.Valid()
    ensures r.Valid()
  {
    match orientation
    case 2 => FlipH(i)
    case 3 => Rotate180(i)
    case 4 => FlipV(i)
    case 5 => FlipH(Rotate90(i))
    case 6 => Rotate90(i)
    case 7 => FlipH(Rotate270(i))
    case 8 => Rotate270(i)
    case _ => i
  }

  function OrOne(current: Option<int>): int {
    if current.Some? then current.value else 1
  }

  function RotateCw(current: Option<int>): int {
    match OrOne(current)
    case 1 => 6
    case 6 => 3
    case 3 => 8
    case 8 => 1
    case 2 => 7
    case 7 => 4
    case 4 => 5
    case 5 => 2
    case _ => 6
  }

  function RotateCcw(current: Option<int>): int {
    match OrOne(current)
    case 1 => 8
    case 8 => 3
    case 3 => 6
    case 6 => 1
    case 2 => 5
    case 5 => 4
    case 4 => 7
    case 7 => 2
    case _ => 8
  }

  function RotateHalf(current: Option<int>): int {
    match OrOne(current)
    case 1 => 3
    case 3 => 1
    case 6 => 8
    case 8 => 6
    case 2 => 4
    case 4 => 2
    case 5 => 7
    case 7 => 5
    case _ => 3
  }

  // ----- where the standard puts each pixel -----

  /** Which visual side the stored row 0, and which the stored column 0, is on (TIFF 6.0, section 8, Orientation). */
  datatype Side = Top | Bottom | Left | Right

  function RowSide(orientation: int): Side {
    match orientation
    case 3 => Bottom
    case 4 => Bottom
    case 5 => Left
    case 8 => Left
    case 6 => Right
    case 7 => Right
    case _ => Top
  }

  function ColumnSide(orientation: int): Side {
    match orientation
    case 2 => Right
    case 3 => Right
    case 5 => Top
    case 6 => Top
    case 7 => Bottom
    case 8 => Bottom
    case _ => Left
  }

  predicate Turned(orientation: int) {
    5 <= orientation <= 8
  }

  /** Where the stored pixel of column `c` and row `r` is seen. */
  function Seen(w: nat, h: nat, orientation: int, c: nat, r: nat): (p: (nat, nat))
    requires c < w && r < h
  {
    var x := match (RowSide(orientation), ColumnSide(orientation))
      case (Left, _) => r
      case (Right, _) => h - 1 - r
      case (_, Right) => w - 1 - c
      case _ => c;
    var y := match (RowSide(orientation), ColumnSide(orientation))
      case (Bottom, _) => h - 1 - r
      case (Left, Bottom) => w - 1 - c
      case (Right, Bottom) => w - 1 - c
      case (Left, _) => c
      case (Right, _) => c
      case _ => r;
    (x, y)
  }

  /** Which stored pixel is seen at `x`, `y`. */
  function StoredPixel(w: nat, h: nat, orientation: int, x: nat, y: nat): (p: (int, int)) {
    match orientation
    case 2 => (w - 1 - x, y)
    case 3 => (w - 1 - x, h - 1 - y)
    case 4 => (x, h - 1 - y)
    case 5 => (y, x)
    case 6 => (y, h - 1 - x)
    case 7 => (w - 1 - y, h - 1 - x)
    case 8 => (w - 1 - y, x)
    case _ => (x, y)
  }

  /** What `a` shows is `i` under the given orientation. */
  ghost predicate Oriented<P>(i: RawImage<P>, orientation: int, a: RawImage<P>) {
    && i.Valid() && a.Valid()
    && a.w == (if Turned(orientation) then i.h else i.w) && a.h == (if Turned(orientation) then i.w else i.h)
    && forall x: nat, y: nat :: x < a.w && y < a.h ==>
         var p := StoredPixel(i.w, i.h, orientation, x, y); a.At(x, y) == i.At(p.0, p.1)
  }

  lemma ApplyOriented<P>(i: RawImage<P>, orientation: int)
    requires i.Valid()
    ensures Oriented(i, orientation, Apply(i, orientation))
  {
    hide FlipH, FlipV, Rotate90, Rotate180, Rotate270;
  }

  lemma OrientedUnique<P>(i: RawImage<P>, orientation: int, a: RawImage<P>, b: RawImage<P>)
    requires Oriented(i, orientation, a) && Oriented(i, orientation, b)
    ensures a == b
  {
    SamePixels(a, b);
  }

  /** Every orientation shows each stored pixel where the standard says. */
  lemma ApplyFollowsStandard<P>(i: RawImage<P>, orientation: int, c: nat, r: nat)
    requires i.Valid() && c < i.w && r < i.h
    ensures var a, p := Apply(i, orientation), Seen(i.w, i.h, orientation, c, r);
            && a.w == (if Turned(orientation) then i.h else i.w) && a.h == (if Turned(orientation) then i.w else i.h)
            && p.0 < a.w && p.1 < a.h && a.At(p.0, p.1) == i.At(c, r)
  {
    hide Apply;
    ApplyOriented(i, orientation);
  }

  lemma CwOriented<P>(i: RawImage<P>, o: int, a: RawImage<P>)
    requires Oriented(i, o, a)
    ensures Oriented(i, RotateCw(Some(o)), Rotate90(a))
  {
    hide Rotate90;
  }

  lemma CcwOriented<P>(i: RawImage<P>, o: int, a: RawImage<P>)
    requires Oriented(i, o, a)
    ensures Oriented(i, RotateCcw(Some(o)), Rotate270(a))
  {
    hide Rotate270;
  }

  lemma HalfOriented<P>(i: RawImage<P>, o: int, a: RawImage<P>)
    requires Oriented(i, o, a)
    ensures Oriented(i, RotateHalf(Some(o)), Rotate180(a))
  {
    hide Rotate180;
  }

  /** For images of every size and every recorded value, known or not, applying the rotated value is rotating the
      image already oriented. */
  lemma TablesRotate<P>(i: RawImage<P>, current: Option<int>)
    requires i.Valid()
    ensures Apply(i, RotateCw(current)) == Rotate90(Apply(i, OrOne(current)))
    ensures Apply(i, RotateCcw(current)) == Rotate270(Apply(i, OrOne(current)))
    ensures Apply(i, RotateHalf(current)) == Rotate180(Apply(i, OrOne(current)))
  {
    hide Apply, Oriented, Rotate90, Rotate180, Rotate270;
    var o := OrOne(current);
    assert RotateCw(current) == RotateCw(Some(o)) && RotateCcw(current) == RotateCcw(Some(o)) &&
        RotateHalf(current) == RotateHalf(Some(o));
    var a := Apply(i, o);
    ApplyOriented(i, o);
    CwOriented(i, o, a);
    CcwOriented(i, o, a);
    HalfOriented(i, o, a);
    ApplyOriented(i, RotateCw(current));
    ApplyOriented(i, RotateCcw(current));
    ApplyOriented(i, RotateHalf(current));
    OrientedUnique(i, RotateCw(current), Apply(i, RotateCw(current)), Rotate90(a));
    OrientedUnique(i, RotateCcw(current), Apply(i, RotateCcw(current)), Rotate270(a));
    OrientedUnique(i, RotateHalf(current), Apply(i, RotateHalf(current)), Rotate180(a));
  }

  /** The tables yield values of the standard, take a missing value as upright, and undo each other. */
  lemma TablesClosed<P>(i: RawImage<P>, current: Option<int>, o: int)
    requires i.Valid() && 1 <= o <= 8
    ensures 1 <= RotateCw(current) <= 8 && 1 <= RotateCcw(current) <= 8 && 1 <= RotateHalf(current) <= 8
    ensures Apply(i, RotateCw(None)) == Rotate90(i) && Apply(i, RotateCcw(None)) == Rotate270(i)
    ensures Apply(i, RotateHalf(None)) == Rotate180(i)
    ensures RotateCcw(Some(RotateCw(Some(o)))) == o && RotateCw(Some(RotateCcw(Some(o)))) == o
    ensures RotateHalf(Some(RotateHalf(Some(o)))) == o && RotateCw(Some(RotateCw(Some(o)))) == RotateHalf(Some(o))
  {
    hide Rotate90, Rotate180, Rotate270;
  }
}
