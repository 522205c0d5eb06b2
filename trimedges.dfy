/**
  Trimming the transparent margin of a signature image. The image is an
  RGBA buffer of w x h pixels, four bytes per pixel, row after row
  (bytesPerRow = 4 w); a pixel shows when its alpha byte is above the
  threshold. Four scans find the first and last rows that show a pixel,
  then the first and last columns that show one between those rows, and
  the image is cropped to that box.
 */
module TrimEdges {

  newtype Byte = b: int | 0 <= b < 256

  /** The threshold used when the caller gives none. */
  const DefaultThreshold: Byte := 5

  /** Index of the alpha byte of pixel (x, y). */
  function AlphaIndex(w: nat, x: nat, y: nat): nat {
    y * (w * 4) + x * 4 + 3
  }

  /** Every pixel's alpha byte lies inside a buffer of w * h * 4 bytes. */
  lemma AlphaIndexInRange(w: nat, h: nat, x: nat, y: nat)
    requires x < w && y < h
    ensures AlphaIndex(w, x, y) < w * h * 4
  {
    assert x * 4 + 3 < w * 4;
    assert y * (w * 4) + w * 4 == (y + 1) * (w * 4);
    assert (y + 1) * (w * 4) <= h * (w * 4);
    assert h * (w * 4) == w * h * 4;
  }

  /** Pixel (x, y) shows: its alpha is above the threshold. */
  predicate Shows(p: seq<Byte>, w: nat, h: nat, t: Byte, x: nat, y: nat)
    requires |p| == w * h * 4 && x < w && y < h
  {
    AlphaIndexInRange(w, h, x, y);
    p[AlphaIndex(w, x, y)] > t
  }

  /** Row y holds a pixel that shows. */
  predicate RowShows(p: seq<Byte>, w: nat, h: nat, t: Byte, y: nat)
    requires |p| == w * h * 4 && y < h
  {
    exists x: nat :: x < w && Shows(p, w, h, t, x, y)
  }

  /** Column x holds a pixel that shows in rows top..bottom. */
  predicate ColumnShows(p: seq<Byte>, w: nat, h: nat, t: Byte, x: nat, top: nat, bottom: nat)
    requires |p| == w * h * 4 && x < w && bottom < h
  {
    exists y: nat :: top <= y <= bottom && Shows(p, w, h, t, x, y)
  }

  /** Some pixel of the image shows. */
  predicate AnyShows(p: seq<Byte>, w: nat, h: nat, t: Byte)
    requires |p| == w * h * 4
  {
    exists x: nat, y: nat :: x < w && y < h && Shows(p, w, h, t, x, y)
  }

  /** The inner row scan: is some pixel of row y above the threshold? */
  method ScanRow(p: array<Byte>, w: nat, h: nat, t: Byte, y: nat) returns (hit: bool)
    requires p.Length == w * h * 4 && y < h
    ensures hit <==> RowShows(p[..], w, h, t, y)
  {
    hit := false;
    for x := 0 to w
      invariant forall xx: nat :: xx < x ==> !Shows(p[..], w, h, t, xx, y)
    {
      AlphaIndexInRange(w, h, x, y);
      if p[AlphaIndex(w, x, y)] > t {
        assert Shows(p[..], w, h, t, x, y);
        hit := true;
        break;
      }
    }
  }

  /** The inner column scan: is some pixel of column x in rows top..bottom above the threshold? */
  method ScanColumn(p: array<Byte>, w: nat, h: nat, t: Byte, x: nat, top: nat, bottom: nat) returns (hit: bool)
    requires p.Length == w * h * 4 && x < w && top <= bottom < h
    ensures hit <==> ColumnShows(p[..], w, h, t, x, top, bottom)
  {
    hit := false;
    for y := top to bottom + 1
      invariant forall yy: nat :: top <= yy < y ==> !Shows(p[..], w, h, t, x, yy)
    {
      AlphaIndexInRange(w, h, x, y);
      if p[AlphaIndex(w, x, y)] > t {
        assert Shows(p[..], w, h, t, x, y);
        hit := true;
        break;
      }
    }
  }

  /** The first scan: the first row, from the top, that shows a pixel. */
  method FirstRow(p: array<Byte>, w: nat, h: nat, t: Byte) returns (found: bool, top: nat)
    requires h >= 1 && p.Length == w * h * 4
    ensures top < h
    ensures found ==> RowShows(p[..], w, h, t, top)
    ensures forall yy: nat :: yy < top ==> !RowShows(p[..], w, h, t, yy)
    ensures !found ==> top == 0 && forall yy: nat :: yy < h ==> !RowShows(p[..], w, h, t, yy)
  {
    found, top := false, 0;
    for y := 0 to h
      invariant !found && top == 0
      invariant forall yy: nat :: yy < y ==> !RowShows(p[..], w, h, t, yy)
    {
      var hit := ScanRow(p, w, h, t, y);
      if hit {
        top := y;
        found := true;
        break;
      }
    }
  }

  /** The second scan: the first row, from the bottom, that shows a pixel. */
  method LastRow(p: array<Byte>, w: nat, h: nat, t: Byte) returns (found: bool, bottom: nat)
    requires h >= 1 && p.Length == w * h * 4
    ensures bottom < h
    ensures found ==> RowShows(p[..], w, h, t, bottom)
    ensures forall yy: nat :: bottom < yy < h ==> !RowShows(p[..], w, h, t, yy)
    ensures !found ==> bottom == h - 1 && forall yy: nat :: yy < h ==> !RowShows(p[..], w, h, t, yy)
  {
    found, bottom := false, h - 1;
    for y := h downto 0
      invariant !found && bottom == h - 1
      invariant forall yy: nat :: y <= yy < h ==> !RowShows(p[..], w, h, t, yy)
    {
      var hit := ScanRow(p, w, h, t, y);
      if hit {
        bottom := y;
        found := true;
        break;
      }
    }
  }

  /** The third scan: the first column, from the left, showing a pixel in rows top..bottom. */
  method FirstColumn(p: array<Byte>, w: nat, h: nat, t: Byte, top: nat, bottom: nat) returns (found: bool, left: nat)
    requires w >= 1 && p.Length == w * h * 4 && top <= bottom < h
    ensures left < w
    ensures found ==> ColumnShows(p[..], w, h, t, left, top, bottom)
    ensures forall xx: nat :: xx < left ==> !ColumnShows(p[..], w, h, t, xx, top, bottom)
    ensures !found ==> left == 0 && forall xx: nat :: xx < w ==> !ColumnShows(p[..], w, h, t, xx, top, bottom)
  {
    found, left := false, 0;
    for x := 0 to w
      invariant !found && left == 0
      invariant forall xx: nat :: xx < x ==> !ColumnShows(p[..], w, h, t, xx, top, bottom)
    {
      var hit := ScanColumn(p, w, h, t, x, top, bottom);
      if hit {
        left := x;
        found := true;
        break;
      }
    }
  }

  /** The fourth scan: the first column, from the right, showing a pixel in rows top..bottom. */
  method LastColumn(p: array<Byte>, w: nat, h: nat, t: Byte, top: nat, bottom: nat) returns (found: bool, right: nat)
    requires w >= 1 && p.Length == w * h * 4 && top <= bottom < h
    ensures right < w
    ensures found ==> ColumnShows(p[..], w, h, t, right, top, bottom)
    ensures forall xx: nat :: right < xx < w ==> !ColumnShows(p[..], w, h, t, xx, top, bottom)
    ensures !found ==> right == w - 1 && forall xx: nat :: xx < w ==> !ColumnShows(p[..], w, h, t, xx, top, bottom)
  {
    found, right := false, w - 1;
    for x := w downto 0
      invariant !found && right == w - 1
      invariant forall xx: nat :: x <= xx < w ==> !ColumnShows(p[..], w, h, t, xx, top, bottom)
    {
      var hit := ScanColumn(p, w, h, t, x, top, bottom);
      if hit {
        right := x;
        found := true;
        break;
      }
    }
  }

  /**
    The four scans in order. Each bound starts at the image edge and
    moves to the first row or column, from its side, that shows a pixel;
    the column scans look only at rows top..bottom. The image must be at
    least one pixel each way: with no rows the range top...bottom is
    empty and traps.
   */
  method TrimBounds(p: array<Byte>, w: nat, h: nat, t: Byte) returns (top: nat, bottom: nat, left: nat, right: nat)
    requires w >= 1 && h >= 1 && p.Length == w * h * 4
    ensures top <= bottom < h && left <= right < w
    ensures forall x: nat, y: nat :: x < w && y < h && Shows(p[..], w, h, t, x, y) ==>
              top <= y <= bottom && left <= x <= right
    ensures AnyShows(p[..], w, h, t) ==>
              && RowShows(p[..], w, h, t, top) && RowShows(p[..], w, h, t, bottom)
              && ColumnShows(p[..], w, h, t, left, top, bottom)
              && ColumnShows(p[..], w, h, t, right, top, bottom)
    ensures !AnyShows(p[..], w, h, t) ==> top == 0 && bottom == h - 1 && left == 0 && right == w - 1
  {
    var foundTop, foundBottom, foundLeft, foundRight;
    foundTop, top := FirstRow(p, w, h, t);
    foundBottom, bottom := LastRow(p, w, h, t);
    RowsBetween(p[..], w, h, t, top, bottom, foundTop, foundBottom);
    foundLeft, left := FirstColumn(p, w, h, t, top, bottom);
    foundRight, right := LastColumn(p, w, h, t, top, bottom);
    ColumnsBetween(p[..], w, h, t, top, bottom, left, right, foundLeft, foundRight);
  }

  /**
    What the two row scans leave behind: rows before `top` and after
    `bottom` show nothing, so every pixel that shows is in rows
    top..bottom; both scans succeed exactly when some pixel shows, and
    then top <= bottom.
   */
  lemma RowsBetween(p: seq<Byte>, w: nat, h: nat, t: Byte, top: nat, bottom: nat, foundTop: bool, foundBottom: bool)
    requires |p| == w * h * 4 && top < h && bottom < h
    requires forall yy: nat :: yy < top ==> !RowShows(p, w, h, t, yy)
    requires forall yy: nat :: bottom < yy < h ==> !RowShows(p, w, h, t, yy)
    requires foundTop ==> RowShows(p, w, h, t, top)
    requires foundBottom ==> RowShows(p, w, h, t, bottom)
    requires !foundTop ==> top == 0 && forall yy: nat :: yy < h ==> !RowShows(p, w, h, t, yy)
    requires !foundBottom ==> bottom == h - 1 && forall yy: nat :: yy < h ==> !RowShows(p, w, h, t, yy)
    ensures foundTop == foundBottom == AnyShows(p, w, h, t)
    ensures forall x: nat, y: nat :: x < w && y < h && Shows(p, w, h, t, x, y) ==> top <= y <= bottom
    ensures top <= bottom
  {
    forall x: nat, y: nat | x < w && y < h && Shows(p, w, h, t, x, y)
      ensures top <= y <= bottom
    {
      assert RowShows(p, w, h, t, y);
    }
    if foundTop {
      var x: nat :| x < w && Shows(p, w, h, t, x, top);
      assert AnyShows(p, w, h, t);
    } else if AnyShows(p, w, h, t) {
      var x: nat, y: nat :| x < w && y < h && Shows(p, w, h, t, x, y);
      assert RowShows(p, w, h, t, y);
    }
  }

  /**
    What the two column scans leave behind, once every pixel that shows
    is known to lie in rows top..bottom: it lies in columns left..right
    too, both scans succeed exactly when some pixel shows, and then
    left <= right.
   */
  lemma ColumnsBetween(p: seq<Byte>, w: nat, h: nat, t: Byte, top: nat, bottom: nat, left: nat, right: nat,
                       foundLeft: bool, foundRight: bool)
    requires |p| == w * h * 4 && top <= bottom < h && left < w && right < w
    requires forall x: nat, y: nat :: x < w && y < h && Shows(p, w, h, t, x, y) ==> top <= y <= bottom
    requires forall xx: nat :: xx < left ==> !ColumnShows(p, w, h, t, xx, top, bottom)
    requires forall xx: nat :: right < xx < w ==> !ColumnShows(p, w, h, t, xx, top, bottom)
    requires foundLeft ==> ColumnShows(p, w, h, t, left, top, bottom)
    requires foundRight ==> ColumnShows(p, w, h, t, right, top, bottom)
    requires !foundLeft ==> left == 0 && forall xx: nat :: xx < w ==> !ColumnShows(p, w, h, t, xx, top, bottom)
    requires !foundRight ==> right == w - 1 && forall xx: nat :: xx < w ==> !ColumnShows(p, w, h, t, xx, top, bottom)
    ensures foundLeft == foundRight == AnyShows(p, w, h, t)
    ensures forall x: nat, y: nat :: x < w && y < h && Shows(p, w, h, t, x, y) ==> left <= x <= right
    ensures left <= right
  {
    forall x: nat, y: nat | x < w && y < h && Shows(p, w, h, t, x, y)
      ensures left <= x <= right
    {
      assert ColumnShows(p, w, h, t, x, top, bottom);
    }
    if foundLeft {
      var y: nat :| top <= y <= bottom && Shows(p, w, h, t, left, y);
      assert AnyShows(p, w, h, t);
    } else if AnyShows(p, w, h, t) {
      var x: nat, y: nat :| x < w && y < h && Shows(p, w, h, t, x, y);
      assert ColumnShows(p, w, h, t, x, top, bottom);
    }
  }

  /** A crop rectangle in whole pixels. */
  datatype PixelRect = PixelRect(x: int, y: int, width: int, height: int)

  /**
    The crop for the scanned bounds: the whole image when the bounds are
    crossed, otherwise columns left..right by rows top..bottom.
   */
  function CropOf(top: int, bottom: int, left: int, right: int, w: nat, h: nat): (r: PixelRect)
    ensures right < left || bottom < top ==> r == PixelRect(0, 0, w, h)
    ensures left <= right && top <= bottom ==>
              r.x == left && r.y == top && r.x + r.width - 1 == right && r.y + r.height - 1 == bottom
  {
    if right < left || bottom < top then PixelRect(0, 0, w, h)
    else PixelRect(left, top, right - left + 1, bottom - top + 1)
  }

  /**
    The trim. With nothing above the threshold the crop is the whole
    image; otherwise it is the smallest box holding every pixel that
    shows: each of its four edge lines holds such a pixel.
   */
  method TrimTransparentEdges(p: array<Byte>, w: nat, h: nat, t: Byte) returns (r: PixelRect)
    requires w >= 1 && h >= 1 && p.Length == w * h * 4
    ensures 0 <= r.x && 1 <= r.width && r.x + r.width <= w
    ensures 0 <= r.y && 1 <= r.height && r.y + r.height <= h
    ensures forall x: nat, y: nat :: x < w && y < h && Shows(p[..], w, h, t, x, y) ==>
              r.x <= x < r.x + r.width && r.y <= y < r.y + r.height
    ensures AnyShows(p[..], w, h, t) ==>
              && RowShows(p[..], w, h, t, r.y) && RowShows(p[..], w, h, t, r.y + r.height - 1)
              && ColumnShows(p[..], w, h, t, r.x, r.y, r.y + r.height - 1)
              && ColumnShows(p[..], w, h, t, r.x + r.width - 1, r.y, r.y + r.height - 1)
    ensures !AnyShows(p[..], w, h, t) ==> r == PixelRect(0, 0, w, h)
  {
    var top, bottom, left, right := TrimBounds(p, w, h, t);
    r := CropOf(top, bottom, left, right, w, h);
  }
}
