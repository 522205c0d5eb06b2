/**
  The crop editor's rectangle arithmetic: keeping the crop rectangle
  inside the picture, giving it a minimum size, scaling it about a
  centre for a pinch, resizing it from one of its eight handles, and
  mapping it from view coordinates to whole image pixels.
 */
module CropEditor {
  import opened Geometry
  import opened Wrappers

  /** The smallest side a pinch or a handle drag leaves the crop rectangle with. */
  const MinCropSize := 80.0

  function Abs(v: real): real { if v < 0.0 then -v else v }

  /** One axis of a rectangle as stored: an origin and a signed extent. */
  datatype Span = Span(origin: real, extent: real) {
    function Lo(): real { if extent < 0.0 then origin + extent else origin }
    function Hi(): real { if extent < 0.0 then origin else origin + extent }
  }

  function XSpan(r: Rect): Span { Span(r.origin.x, r.size.width) }
  function YSpan(r: Rect): Span { Span(r.origin.y, r.size.height) }
  function FromSpans(x: Span, y: Span): Rect { Rect(Point(x.origin, y.origin), Size(x.extent, y.extent)) }

  /**
    One axis of `clamp(rect:inside:)`: an extent longer than the bounds is
    cut to the bounds' length and put at their start; then a near edge
    before the bounds moves to their start, and a far edge past them
    moves back so that it ends at their end.
   */
  function ClampSpan(s: Span, lo: real, len: real, hi: real): Span {
    var s1 := if Abs(s.extent) > len then Span(lo, len) else s;
    var s2 := if s1.Lo() < lo then s1.(origin := lo) else s1;
    if s2.Hi() > hi then s2.(origin := hi - Abs(s2.extent)) else s2
  }

  /**
    For a non-negative extent and bounds [lo, lo + len]: the result is
    inside the bounds, its extent is the shorter of the two, and a span
    already inside is kept as it is.
   */
  lemma ClampSpanInside(s: Span, lo: real, len: real, hi: real)
    requires s.extent >= 0.0 && len >= 0.0 && hi == lo + len
    ensures var c := ClampSpan(s, lo, len, hi);
            && c.extent == Min(s.extent, len)
            && lo <= c.origin && c.origin + c.extent <= hi
            && (lo <= s.origin && s.origin + s.extent <= hi ==> c == s)
  {}

  /**
    `clamp(rect:inside:)`. The source clamps the width, then the height,
    then minX, minY, maxX and maxY; the two axes never interact, so this
    is the same as clamping each axis on its own.
   */
  function ClampRect(rect: Rect, bounds: Rect): Rect {
    FromSpans(ClampSpan(XSpan(rect), bounds.MinX(), bounds.Width(), bounds.MaxX()),
              ClampSpan(YSpan(rect), bounds.MinY(), bounds.Height(), bounds.MaxY()))
  }

  /**
    A standard rectangle clamped into any bounds lies inside them, is no
    wider or taller than they are, keeps its size when it fits, and is
    returned unchanged when it is already inside.
   */
  lemma ClampRectInside(rect: Rect, bounds: Rect)
    requires rect.IsStandard()
    ensures var c := ClampRect(rect, bounds);
            && c.IsStandard() && c.InsideOf(bounds)
            && c.Width() == Min(rect.Width(), bounds.Width())
            && c.Height() == Min(rect.Height(), bounds.Height())
            && (rect.InsideOf(bounds) ==> c == rect)
  {
    Extents(bounds);
    ClampSpanInside(XSpan(rect), bounds.MinX(), bounds.Width(), bounds.MaxX());
    ClampSpanInside(YSpan(rect), bounds.MinY(), bounds.Height(), bounds.MaxY());
  }

  /** Clamping twice is clamping once. */
  lemma ClampRectIdempotent(rect: Rect, bounds: Rect)
    requires rect.IsStandard()
    ensures ClampRect(ClampRect(rect, bounds), bounds) == ClampRect(rect, bounds)
  {
    ClampRectInside(rect, bounds);
    ClampRectInside(ClampRect(rect, bounds), bounds);
  }

  /**
    A rectangle with a negative stored width is not pulled inside: the
    left-edge step moves its origin, not its left edge, to the bounds.
   */
  lemma ClampRectKeepsFlippedOutside()
    ensures var c := ClampRect(Rect(Point(5.0, 0.0), Size(-10.0, 10.0)), Rect(Point(0.0, 0.0), Size(100.0, 100.0)));
            c.MinX() == -10.0 && !c.InsideOf(Rect(Point(0.0, 0.0), Size(100.0, 100.0)))
  {}

  /** `clampSize`: each side at least `least`, then standardized. */
  function ClampSize(rect: Rect, least: real): (r: Rect)
    ensures r.IsStandard()
  {
    var w := if rect.Width() < least then least else rect.size.width;
    var h := if rect.Height() < least then least else rect.size.height;
    Rect(rect.origin, Size(w, h)).Standardized()
  }

  /** The sides come out as the larger of the old side and the minimum. */
  lemma ClampSizeSides(rect: Rect, least: real)
    ensures ClampSize(rect, least).Width() == Max(rect.Width(), least)
    ensures ClampSize(rect, least).Height() == Max(rect.Height(), least)
    ensures rect.IsStandard() && rect.Width() >= least && rect.Height() >= least ==> ClampSize(rect, least) == rect
  {}

  /** `scaledRect`: both sides scaled, each at least MinCropSize, about the centre c. */
  function ScaledRect(rect: Rect, scale: real, c: Point): Rect {
    var w := Max(MinCropSize, rect.Width() * scale);
    var h := Max(MinCropSize, rect.Height() * scale);
    Rect(Point(c.x - w / 2.0, c.y - h / 2.0), Size(w, h)).Standardized()
  }

  /** The scaled rectangle is centred on c with the scaled (floored) sides. */
  lemma ScaledRectAbout(rect: Rect, scale: real, c: Point)
    ensures var r := ScaledRect(rect, scale, c);
            && r.IsStandard() && r.Center() == c
            && r.Width() == Max(MinCropSize, rect.Width() * scale)
            && r.Height() == Max(MinCropSize, rect.Height() * scale)
  {}

  /** The eight handles on the crop rectangle. */
  datatype Handle = TopLeft | TopRight | BottomLeft | BottomRight | Top | Bottom | Left | Right

  /** Does dragging this handle move the left edge? The right edge? ... */
  predicate MovesLeftEdge(h: Handle) { h.TopLeft? || h.BottomLeft? || h.Left? }
  predicate MovesRightEdge(h: Handle) { h.TopRight? || h.BottomRight? || h.Right? }
  predicate MovesTopEdge(h: Handle) { h.TopLeft? || h.TopRight? || h.Top? }
  predicate MovesBottomEdge(h: Handle) { h.BottomLeft? || h.BottomRight? || h.Bottom? }

  /** The rectangle as `resize` leaves it before standardizing. */
  function ResizeRaw(rect: Rect, t: Size, h: Handle): Rect {
    var o := rect.origin;
    var s := rect.size;
    match h
    case TopLeft => Rect(Point(o.x + t.width, o.y + t.height), Size(s.width - t.width, s.height - t.height))
    case TopRight => Rect(Point(o.x, o.y + t.height), Size(s.width + t.width, s.height - t.height))
    case BottomLeft => Rect(Point(o.x + t.width, o.y), Size(s.width - t.width, s.height + t.height))
    case BottomRight => Rect(o, Size(s.width + t.width, s.height + t.height))
    case Top => Rect(Point(o.x, o.y + t.height), Size(s.width, s.height - t.height))
    case Bottom => Rect(o, Size(s.width, s.height + t.height))
    case Left => Rect(Point(o.x + t.width, o.y), Size(s.width - t.width, s.height))
    case Right => Rect(o, Size(s.width + t.width, s.height))
  }

  /** `resize(rect:by:from:)`. */
  function Resize(rect: Rect, t: Size, h: Handle): Rect {
    ResizeRaw(rect, t, h).Standardized()
  }

  /**
    Before standardizing, the stored edges the handle does not touch stay
    where they were, and the ones it touches move by the drag: the
    stored left edge is origin.x, the stored right edge origin.x + width.
   */
  lemma ResizeMovesOnlyDraggedEdges(rect: Rect, t: Size, h: Handle)
    ensures var r := ResizeRaw(rect, t, h);
            && r.origin.x == rect.origin.x + (if MovesLeftEdge(h) then t.width else 0.0)
            && r.origin.x + r.size.width == rect.origin.x + rect.size.width + (if MovesRightEdge(h) then t.width else 0.0)
            && r.origin.y == rect.origin.y + (if MovesTopEdge(h) then t.height else 0.0)
            && r.origin.y + r.size.height == rect.origin.y + rect.size.height + (if MovesBottomEdge(h) then t.height else 0.0)
  {}

  /**
    For a standard rectangle the result spans from the fixed edges to
    the dragged ones, whichever way round they end up: a handle dragged
    past the opposite edge flips the rectangle instead of inverting it.
   */
  lemma ResizeSpansEdges(rect: Rect, t: Size, h: Handle)
    requires rect.IsStandard()
    ensures var r := Resize(rect, t, h);
            var x0 := rect.MinX() + (if MovesLeftEdge(h) then t.width else 0.0);
            var x1 := rect.MaxX() + (if MovesRightEdge(h) then t.width else 0.0);
            var y0 := rect.MinY() + (if MovesTopEdge(h) then t.height else 0.0);
            var y1 := rect.MaxY() + (if MovesBottomEdge(h) then t.height else 0.0);
            && r.IsStandard()
            && r.MinX() == Min(x0, x1) && r.MaxX() == Max(x0, x1)
            && r.MinY() == Min(y0, y1) && r.MaxY() == Max(y0, y1)
  {
    ResizeMovesOnlyDraggedEdges(rect, t, h);
  }

  /** Where a handle is drawn: corners at the corners, side handles at the side midpoints. */
  function HandlePoint(h: Handle, r: Rect): Point {
    match h
    case TopLeft => Point(r.MinX(), r.MinY())
    case TopRight => Point(r.MaxX(), r.MinY())
    case BottomLeft => Point(r.MinX(), r.MaxY())
    case BottomRight => Point(r.MaxX(), r.MaxY())
    case Top => Point(r.MidX(), r.MinY())
    case Bottom => Point(r.MidX(), r.MaxY())
    case Left => Point(r.MinX(), r.MidY())
    case Right => Point(r.MaxX(), r.MidY())
  }

  /** The part of a drag that moves a handle: a side handle moves across its side only. */
  function HandleDelta(h: Handle, t: Size): Point {
    Point(if MovesLeftEdge(h) || MovesRightEdge(h) then t.width else 0.0,
          if MovesTopEdge(h) || MovesBottomEdge(h) then t.height else 0.0)
  }

  /**
    A handle follows the finger: unless the drag flips the rectangle,
    the dragged handle of the resized rectangle is where it was plus the
    drag along the axes it controls.
   */
  lemma HandleFollowsDrag(rect: Rect, t: Size, h: Handle)
    requires rect.IsStandard() && ResizeRaw(rect, t, h).IsStandard()
    ensures HandlePoint(h, Resize(rect, t, h)).x == HandlePoint(h, rect).x + HandleDelta(h, t).x
    ensures HandlePoint(h, Resize(rect, t, h)).y == HandlePoint(h, rect).y + HandleDelta(h, t).y
  {
    ResizeMovesOnlyDraggedEdges(rect, t, h);
  }

  /** The rectangle a page starts with: 80% of the picture each way, centred on it. */
  function CenteredCrop(fit: Rect): Rect {
    var w := fit.Width() * 0.8;
    var h := fit.Height() * 0.8;
    Rect(Point(fit.MidX() - w / 2.0, fit.MidY() - h / 2.0), Size(w, h))
  }

  lemma CenteredCropInside(fit: Rect)
    ensures var c := CenteredCrop(fit);
            && c.IsStandard() && c.InsideOf(fit) && c.Center() == fit.Center()
            && c.Width() == 0.8 * fit.Width() && c.Height() == 0.8 * fit.Height()
  {
    Extents(fit);
  }

  function Floor(v: real): int { v.Floor }

  function Ceil(v: real): int { -((-v).Floor) }

  lemma CeilBounds(v: real)
    ensures v <= Ceil(v) as real < v + 1.0
  {}

  /** A crop in whole image pixels. */
  datatype PixelBox = PixelBox(x: int, y: int, width: int, height: int)

  /** A rectangle in image coordinates, by its edges. */
  datatype ImageRect = ImageRect(x0: real, y0: real, x1: real, y1: real)

  /**
    The crop rectangle in image coordinates, cut to the image: each edge
    mapped back through the picture's fit (ToImageAxis), then the near
    edges raised to 0 and the far edges lowered to the image's sides.
   */
  function CropToImage(image: Size, fit: Rect, crop: Rect): (q: ImageRect)
    requires image.width > 0.0 && image.height > 0.0
    requires fit.Width() > 0.0 && fit.Height() > 0.0
    ensures 0.0 <= q.x0 && q.x1 <= image.width && 0.0 <= q.y0 && q.y1 <= image.height
    ensures crop.IsStandard() && crop.InsideOf(fit) ==>
              q == ImageRect(ToImageAxis(crop.MinX(), fit.MinX(), fit.Width(), image.width),
                             ToImageAxis(crop.MinY(), fit.MinY(), fit.Height(), image.height),
                             ToImageAxis(crop.MaxX(), fit.MinX(), fit.Width(), image.width),
                             ToImageAxis(crop.MaxY(), fit.MinY(), fit.Height(), image.height))
  {
    var q := ImageRect(Max(ToImageAxis(crop.MinX(), fit.MinX(), fit.Width(), image.width), 0.0),
                       Max(ToImageAxis(crop.MinY(), fit.MinY(), fit.Height(), image.height), 0.0),
                       Min(ToImageAxis(crop.MaxX(), fit.MinX(), fit.Width(), image.width), image.width),
                       Min(ToImageAxis(crop.MaxY(), fit.MinY(), fit.Height(), image.height), image.height));
    if crop.IsStandard() && crop.InsideOf(fit) then
      CropInsideFitStaysInImage(image, fit, crop);
      q
    else q
  }

  /**
    The view-to-image crop mapping: undo the picture's fit (a scale by
    fit / image size and a shift to the fit's corner), keep the part
    inside the image (CropToImage), round outward to whole pixels, and
    refuse a result that is not more than one pixel each way. When the
    fit has no width or height the transform cannot be inverted,
    CoreGraphics hands it back unchanged, and the mapped rectangle
    collapses to no width or height, so nothing is cropped then either.
   */
  function CropInImage(image: Size, fit: Rect, crop: Rect): (r: Option<PixelBox>)
    requires image.width > 0.0 && image.height > 0.0
    ensures fit.Width() == 0.0 || fit.Height() == 0.0 ==> r.None?
    ensures fit.Width() > 0.0 && fit.Height() > 0.0 ==>
              var q := CropToImage(image, fit, crop);
              && (r.Some? <==> q.x0 < q.x1 && q.y0 < q.y1 && Ceil(q.x1) - Floor(q.x0) > 1 && Ceil(q.y1) - Floor(q.y0) > 1)
              && (r.Some? ==> r.value == PixelBox(Floor(q.x0), Floor(q.y0), Ceil(q.x1) - Floor(q.x0), Ceil(q.y1) - Floor(q.y0)))
    ensures r.Some? ==> r.value.width > 1 && r.value.height > 1
    ensures r.Some? ==> 0 <= r.value.x && r.value.x + r.value.width <= Ceil(image.width)
    ensures r.Some? ==> 0 <= r.value.y && r.value.y + r.value.height <= Ceil(image.height)
  {
    if fit.Width() == 0.0 || fit.Height() == 0.0 then None
    else
      var q := CropToImage(image, fit, crop);
      if q.x1 <= q.x0 || q.y1 <= q.y0 then None
      else
        var box := PixelBox(Floor(q.x0), Floor(q.y0), Ceil(q.x1) - Floor(q.x0), Ceil(q.y1) - Floor(q.y0));
        CeilMonotone(q.x1, image.width);
        CeilMonotone(q.y1, image.height);
        if box.width > 1 && box.height > 1 then Some(box) else None
  }

  /**
    The pixel box is the cut crop rounded outward: the smallest box of
    whole pixels that contains it, each edge less than a pixel away.
   */
  lemma CropBoxRoundsOutward(image: Size, fit: Rect, crop: Rect)
    requires image.width > 0.0 && image.height > 0.0
    requires CropInImage(image, fit, crop).Some?
    ensures fit.Width() > 0.0 && fit.Height() > 0.0
    ensures var b := CropInImage(image, fit, crop).value;
            var q := CropToImage(image, fit, crop);
            && b.x as real <= q.x0 < b.x as real + 1.0
            && b.y as real <= q.y0 < b.y as real + 1.0
            && q.x1 <= (b.x + b.width) as real < q.x1 + 1.0
            && q.y1 <= (b.y + b.height) as real < q.y1 + 1.0
  {
    var q := CropToImage(image, fit, crop);
    CeilBounds(q.x1);
    CeilBounds(q.y1);
  }

  lemma CeilMonotone(a: real, b: real)
    requires a <= b
    ensures Ceil(a) <= Ceil(b)
  {}

  /** Image coordinate of a view coordinate along one axis. */
  function ToImageAxis(v: real, fitLo: real, fitLen: real, imageLen: real): real
    requires fitLen > 0.0 && imageLen > 0.0
  {
    (v - fitLo) / (fitLen / imageLen)
  }

  /**
    A crop rectangle inside the picture needs no cutting at the image
    border: its mapped edges already lie within [0, image side], and the
    picture's own edges map to 0 and to the image side.
   */
  lemma CropInsideFitStaysInImage(image: Size, fit: Rect, crop: Rect)
    requires image.width > 0.0 && image.height > 0.0
    requires fit.Width() > 0.0 && fit.Height() > 0.0
    requires crop.IsStandard() && crop.InsideOf(fit)
    ensures 0.0 <= ToImageAxis(crop.MinX(), fit.MinX(), fit.Width(), image.width)
    ensures ToImageAxis(crop.MaxX(), fit.MinX(), fit.Width(), image.width) <= image.width
    ensures 0.0 <= ToImageAxis(crop.MinY(), fit.MinY(), fit.Height(), image.height)
    ensures ToImageAxis(crop.MaxY(), fit.MinY(), fit.Height(), image.height) <= image.height
    ensures ToImageAxis(fit.MaxX(), fit.MinX(), fit.Width(), image.width) == image.width
    ensures ToImageAxis(fit.MaxY(), fit.MinY(), fit.Height(), image.height) == image.height
  {
    Extents(fit);
    AxisInImage(crop.MinX(), crop.MaxX(), fit.MinX(), fit.Width(), image.width);
    AxisInImage(crop.MinY(), crop.MaxY(), fit.MinY(), fit.Height(), image.height);
  }

  lemma AxisInImage(a: real, b: real, lo: real, len: real, imageLen: real)
    requires len > 0.0 && imageLen > 0.0 && lo <= a && b <= lo + len
    ensures 0.0 <= ToImageAxis(a, lo, len, imageLen)
    ensures ToImageAxis(b, lo, len, imageLen) <= imageLen
    ensures ToImageAxis(lo + len, lo, len, imageLen) == imageLen
  {
    var k := len / imageLen;
    assert k > 0.0;
    assert (lo + len - lo) / k == imageLen;
    assert (b - lo) / k <= len / k;
  }

  /**
    The whole picture selected gives the whole image: a crop equal to
    the fit of an image with whole-number sides maps to every pixel.
   */
  lemma WholePictureCropsWholeImage(w: nat, h: nat, fit: Rect)
    requires w >= 2 && h >= 2
    requires fit.IsStandard() && fit.Width() > 0.0 && fit.Height() > 0.0
    ensures CropInImage(Size(w as real, h as real), fit, fit) == Some(PixelBox(0, 0, w, h))
  {
    Extents(fit);
    FullAxis(fit.MinX(), fit.Width(), fit.MaxX(), w);
    FullAxis(fit.MinY(), fit.Height(), fit.MaxY(), h);
  }

  /** Along one axis the fit's own edges map to 0 and to the whole-number side n. */
  lemma FullAxis(lo: real, len: real, hi: real, n: nat)
    requires len > 0.0 && n > 0 && hi == lo + len
    ensures len / (n as real) != 0.0
    ensures Max((lo - lo) / (len / (n as real)), 0.0) == 0.0
    ensures Min((hi - lo) / (len / (n as real)), n as real) == n as real
    ensures Floor(0.0) == 0 && Ceil(n as real) == n
  {
    var k := len / (n as real);
    assert k * (n as real) == len && k > 0.0;
    assert hi - lo == (n as real) * k;
  }
}
