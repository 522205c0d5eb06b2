/**
  What a signature sticker's drag, pinch and corner-handle gestures commit
  to its placement when they end. All lengths are in view points; the
  placement itself is stored as fractions of the page's fit rectangle.
 */
module StickerGestures {
  import opened Geometry
  import opened Placement

  /** The bounds pinch and resize put on `widthFrac`. */
  const MinFrac := 0.12
  const MaxFrac := 0.90

  /**
    Height over width as the sticker view computes it: it tests the height
    for zero but divides by the width.
   */
  function StickerAspect(image: Size): (a: real)
    requires image.height == 0.0 || image.width != 0.0
    ensures image.height == 0.0 ==> a == 1.0
    ensures image.height != 0.0 ==> a * image.width == image.height
  {
    if image.height == 0.0 then 1.0 else image.height / image.width
  }

  /** Height over width as the pinch commit and the PDF export compute it. */
  function ExportAspect(image: Size): (a: real)
    ensures image.width > 0.0 ==> a * image.width == image.height
    ensures image.width <= 0.0 ==> a == 1.0
  {
    if image.width > 0.0 then image.height / image.width else 1.0
  }

  /** The two aspects agree on every image with a positive size ... */
  lemma AspectsAgreeOnProperImages(image: Size)
    requires image.width > 0.0 && image.height > 0.0
    ensures StickerAspect(image) == ExportAspect(image)
  {}

  /** ... but not on a zero-height image: the screen shows 1, the export 0. */
  lemma AspectsDisagreeOnFlatImage()
    ensures StickerAspect(Size(10.0, 0.0)) == 1.0
    ensures ExportAspect(Size(10.0, 0.0)) == 0.0
  {}

  /** A box of half-extents `hw`, `hh` centred at `c` lies in `fit`, edges included. */
  predicate BoxInside(c: Point, hw: real, hh: real, fit: Rect) {
    fit.MinX() <= c.x - hw && c.x + hw <= fit.MaxX() &&
    fit.MinY() <= c.y - hh && c.y + hh <= fit.MaxY()
  }

  /**
    On one axis of extent `k` starting at `lo`: a segment of half-length
    `half` centred at fraction `frac` of the axis lies within it.
   */
  predicate AxisInside(lo: real, k: real, frac: real, half: real) {
    lo <= lo + frac * k - half && lo + frac * k + half <= lo + k
  }

  /**
    The box a stored placement describes (centre as fractions, width as a
    fraction of the fit width, height from the aspect) lies in `fit`.
   */
  predicate PlacementInside(cx: real, cy: real, widthFrac: real, aspect: real, fit: Rect) {
    var w := widthFrac * fit.Width();
    AxisInside(fit.MinX(), fit.Width(), cx, w / 2.0) && AxisInside(fit.MinY(), fit.Height(), cy, w * aspect / 2.0)
  }

  /** The sticker's on-screen frame before any live gesture: width, height, centre, aspect. */
  datatype Frame = Frame(baseW: real, baseH: real, center: Point, aspect: real)

  function StickerFrame(sig: PlacedSignature, fit: Rect): (f: Frame)
    requires sig.image.height == 0.0 || sig.image.width != 0.0
    ensures f.baseW == sig.widthFrac * fit.Width()
    ensures f.baseH == f.baseW * f.aspect && f.aspect == StickerAspect(sig.image)
    ensures f.center == ToAbsolute(Point(sig.cx, sig.cy), fit)
  {
    var baseW := sig.widthFrac * fit.Width();
    var aspect := StickerAspect(sig.image);
    Frame(baseW, baseW * aspect,
          Point(fit.MinX() + sig.cx * fit.Width(), fit.MinY() + sig.cy * fit.Height()),
          aspect)
  }

  // ---------------------------------------------------------------------
  // Drag

  /**
    One axis of a drag's end: the dragged centre `c0 + d` clamped so that
    `half` fits on both sides within [lo, hi], then stored as a fraction
    of the extent `k`, clamped to [0, 1].
   */
  function DragAxis(lo: real, k: real, c0: real, d: real, half: real): (f: real)
    requires k > 0.0
    ensures 0.0 <= f <= 1.0
  {
    Clamp((Clamp(c0 + d, lo + half, lo + k - half) - lo) / k, 0.0, 1.0)
  }

  /** A half-extent of at most half the axis ends the drag inside [lo, hi]. */
  lemma DragAxisInside(lo: real, k: real, c0: real, d: real, half: real)
    requires k > 0.0 && 0.0 <= half <= k / 2.0
    ensures AxisInside(lo, k, DragAxis(lo, k, c0, d, half), half)
  {
    var n := Clamp(c0 + d, lo + half, lo + k - half);
    DragAxisFraction(lo, lo + k, k, n, (n - lo) / k, half);
  }

  /** Where the box fits at the dragged position, the drag lands exactly there. */
  lemma DragAxisFollows(lo: real, k: real, c0: real, d: real, half: real)
    requires k > 0.0
    ensures 0.0 <= half && lo <= c0 + d - half && c0 + d + half <= lo + k ==>
              lo + DragAxis(lo, k, c0, d, half) * k == c0 + d
  {
    if 0.0 <= half && lo <= c0 + d - half && c0 + d + half <= lo + k {
      var n := Clamp(c0 + d, lo + half, lo + k - half);
      assert n == c0 + d;
      DragAxisFraction(lo, lo + k, k, n, (n - lo) / k, half);
    }
  }

  lemma DragAxisFraction(lo: real, hi: real, k: real, n: real, q: real, half: real)
    requires k > 0.0 && hi == lo + k && q == (n - lo) / k
    requires n >= lo + half && (lo + half <= hi - half ==> n <= hi - half)
    ensures lo + q * k == n
    ensures 0.0 <= half && lo + half <= hi - half ==> 0.0 <= q <= 1.0
  {
    assert q * k == n - lo;
    if 0.0 <= half && lo + half <= hi - half {
      OffsetInside(lo, hi, k, q);
    }
  }

  /**
    The end of a drag by `t`: the new centre is clamped so that a box of the
    live size stays in the fit rectangle, then stored as fractions clamped
    to [0, 1]. Only `cx` and `cy` change.
   */
  function DragCommit(sig: PlacedSignature, fit: Rect, liveWidth: real, liveHeight: real, t: Point)
    : (r: PlacedSignature)
    requires fit.Width() > 0.0 && fit.Height() > 0.0
    ensures r == sig.(cx := r.cx, cy := r.cy)
    ensures 0.0 <= r.cx <= 1.0 && 0.0 <= r.cy <= 1.0
  {
    sig.(cx := DragAxis(fit.MinX(), fit.Width(), fit.MinX() + sig.cx * fit.Width(), t.x, liveWidth / 2.0),
         cy := DragAxis(fit.MinY(), fit.Height(), fit.MinY() + sig.cy * fit.Height(), t.y, liveHeight / 2.0))
  }

  /** Unfolding step: the stored horizontal fraction is that axis's drag result. */
  lemma DragCommitCx(sig: PlacedSignature, fit: Rect, liveWidth: real, liveHeight: real, t: Point)
    requires fit.Width() > 0.0 && fit.Height() > 0.0
    ensures DragCommit(sig, fit, liveWidth, liveHeight, t).cx ==
              DragAxis(fit.MinX(), fit.Width(), fit.MinX() + sig.cx * fit.Width(), t.x, liveWidth / 2.0)
  {}

  /** Unfolding step: the stored vertical fraction is that axis's drag result. */
  lemma DragCommitCy(sig: PlacedSignature, fit: Rect, liveWidth: real, liveHeight: real, t: Point)
    requires fit.Width() > 0.0 && fit.Height() > 0.0
    ensures DragCommit(sig, fit, liveWidth, liveHeight, t).cy ==
              DragAxis(fit.MinY(), fit.Height(), fit.MinY() + sig.cy * fit.Height(), t.y, liveHeight / 2.0)
  {}

  /** A box no larger than the fit rectangle ends the drag inside it. */
  lemma DragCommitInside(sig: PlacedSignature, fit: Rect, liveWidth: real, liveHeight: real, t: Point)
    requires fit.Width() > 0.0 && fit.Height() > 0.0
    requires 0.0 <= liveWidth <= fit.Width() && 0.0 <= liveHeight <= fit.Height()
    ensures var r := DragCommit(sig, fit, liveWidth, liveHeight, t);
            AxisInside(fit.MinX(), fit.Width(), r.cx, liveWidth / 2.0) &&
            AxisInside(fit.MinY(), fit.Height(), r.cy, liveHeight / 2.0)
  {
    DragCommitCx(sig, fit, liveWidth, liveHeight, t);
    DragCommitCy(sig, fit, liveWidth, liveHeight, t);
    DragAxisInside(fit.MinX(), fit.Width(), fit.MinX() + sig.cx * fit.Width(), t.x, liveWidth / 2.0);
    DragAxisInside(fit.MinY(), fit.Height(), fit.MinY() + sig.cy * fit.Height(), t.y, liveHeight / 2.0);
  }

  /**
    An unobstructed drag moves the sticker by exactly the translation, on
    each axis where the box at the dragged position still fits; this is
    the horizontal axis.
   */
  lemma DragFollowsFingerX(sig: PlacedSignature, fit: Rect, liveWidth: real, liveHeight: real, t: Point)
    requires fit.Width() > 0.0 && fit.Height() > 0.0
    ensures var r := DragCommit(sig, fit, liveWidth, liveHeight, t);
            var x := fit.MinX() + sig.cx * fit.Width() + t.x;
            0.0 <= liveWidth && fit.MinX() <= x - liveWidth / 2.0 && x + liveWidth / 2.0 <= fit.MaxX() ==>
              fit.MinX() + r.cx * fit.Width() == x
  {
    Extents(fit);
    DragCommitCx(sig, fit, liveWidth, liveHeight, t);
    DragAxisFollows(fit.MinX(), fit.Width(), fit.MinX() + sig.cx * fit.Width(), t.x, liveWidth / 2.0);
  }

  /** The same on the vertical axis. */
  lemma DragFollowsFingerY(sig: PlacedSignature, fit: Rect, liveWidth: real, liveHeight: real, t: Point)
    requires fit.Width() > 0.0 && fit.Height() > 0.0
    ensures var r := DragCommit(sig, fit, liveWidth, liveHeight, t);
            var y := fit.MinY() + sig.cy * fit.Height() + t.y;
            0.0 <= liveHeight && fit.MinY() <= y - liveHeight / 2.0 && y + liveHeight / 2.0 <= fit.MaxY() ==>
              fit.MinY() + r.cy * fit.Height() == y
  {
    Extents(fit);
    DragCommitCy(sig, fit, liveWidth, liveHeight, t);
    DragAxisFollows(fit.MinY(), fit.Height(), fit.MinY() + sig.cy * fit.Height(), t.y, liveHeight / 2.0);
  }

  /**
    A drag that carries the stored box (width `widthFrac * fit.Width()`,
    height that times the aspect) keeps a placement whose box is inside the
    fit rectangle inside it. The width fraction and image are unchanged
    (DragCommit). The sticker view carries the shown box instead, which is
    the stored one only under the conditions of ShownScaleIsOne; see
    DragKeepsPlacementInside and DragAtRestCanLeaveFit.
   */
  lemma StoredSizeDragKeepsInside(sig: PlacedSignature, fit: Rect, aspect: real, t: Point)
    requires fit.Width() > 0.0 && fit.Height() > 0.0
    requires sig.widthFrac >= 0.0 && aspect >= 0.0
    requires PlacementInside(sig.cx, sig.cy, sig.widthFrac, aspect, fit)
    ensures var w := sig.widthFrac * fit.Width();
            var r := DragCommit(sig, fit, w, w * aspect, t);
            PlacementInside(r.cx, r.cy, sig.widthFrac, aspect, fit)
  {
    PlacedBoxFits(sig.cx, sig.cy, sig.widthFrac, aspect, fit);
    DragCommitInside(sig, fit, sig.widthFrac * fit.Width(), sig.widthFrac * fit.Width() * aspect, t);
  }

  /** A placement whose box is inside is no larger than the fit rectangle. */
  lemma PlacedBoxFits(cx: real, cy: real, widthFrac: real, aspect: real, fit: Rect)
    requires widthFrac >= 0.0 && aspect >= 0.0
    requires PlacementInside(cx, cy, widthFrac, aspect, fit)
    ensures 0.0 <= widthFrac * fit.Width() <= fit.Width()
    ensures 0.0 <= widthFrac * fit.Width() * aspect <= fit.Height()
  {
    AxisFits(fit.MinX(), fit.Width(), cx, widthFrac * fit.Width() / 2.0);
    AxisFits(fit.MinY(), fit.Height(), cy, widthFrac * fit.Width() * aspect / 2.0);
    NonNegProduct(widthFrac, fit.Width());
    NonNegProduct(widthFrac * fit.Width(), aspect);
  }

  /** A segment that fits on an axis is no longer than the axis. */
  lemma AxisFits(lo: real, k: real, frac: real, half: real)
    requires AxisInside(lo, k, frac, half)
    ensures 2.0 * half <= k
  {}

  lemma HalveProduct(a: real, b: real)
    ensures a * b / 2.0 == (a / 2.0) * b
  {}

  lemma NonNegProduct(a: real, b: real)
    requires a >= 0.0 && b >= 0.0
    ensures a * b >= 0.0
  {}

  // ---------------------------------------------------------------------
  // The bound shared by pinch and resize

  /** How far `c` is from the nearer of `lo` and `hi`. */
  function Room(c: real, lo: real, hi: real): real {
    Min(c - lo, hi - c)
  }

  /**
    The largest width fraction whose box, centred at (`cx`, `cy`) with the
    given aspect, still fits in the fit rectangle; clamped to [0, 1].
   */
  function MaxWidthFracThatFits(fit: Rect, cx: real, cy: real, aspect: real): (r: real)
    requires fit.Width() > 0.0 && aspect > 0.0
    ensures 0.0 <= r <= 1.0
  {
    var c := ToAbsolute(Point(cx, cy), fit);
    var dx := Room(c.x, fit.MinX(), fit.MaxX());
    var dy := Room(c.y, fit.MinY(), fit.MaxY());
    var maxHalfW := Min(dx, dy / aspect);
    Clamp(maxHalfW * 2.0 / fit.Width(), 0.0, 1.0)
  }

  /** A box of width `w` and the given aspect fits the room `dx`, `dy` on either side of its centre. */
  predicate WidthFits(w: real, dx: real, dy: real, aspect: real) {
    w / 2.0 <= dx && w * aspect / 2.0 <= dy
  }

  /**
    For a centre inside the fit rectangle, a width fraction in [0, 1] fits
    exactly when it is at most MaxWidthFracThatFits: the bound is both safe
    and the largest safe one.
   */
  lemma MaxWidthFracIsLargestFit(fit: Rect, cx: real, cy: real, aspect: real, f: real)
    requires fit.Width() > 0.0 && fit.Height() > 0.0 && aspect > 0.0
    requires 0.0 <= cx <= 1.0 && 0.0 <= cy <= 1.0 && 0.0 <= f <= 1.0
    ensures PlacementInside(cx, cy, f, aspect, fit) <==> f <= MaxWidthFracThatFits(fit, cx, cy, aspect)
  {
    RoomNonNegative(fit, cx, cy);
    PlacementInsideIff(fit, cx, cy, f, aspect);
    LargestFit(f * fit.Width(),
               Room(ToAbsolute(Point(cx, cy), fit).x, fit.MinX(), fit.MaxX()),
               Room(ToAbsolute(Point(cx, cy), fit).y, fit.MinY(), fit.MaxY()),
               aspect, f, fit.Width());
  }

  lemma RoomNonNegative(fit: Rect, cx: real, cy: real)
    requires fit.Width() > 0.0 && fit.Height() > 0.0
    requires 0.0 <= cx <= 1.0 && 0.0 <= cy <= 1.0
    ensures Room(ToAbsolute(Point(cx, cy), fit).x, fit.MinX(), fit.MaxX()) >= 0.0
    ensures Room(ToAbsolute(Point(cx, cy), fit).y, fit.MinY(), fit.MaxY()) >= 0.0
  {
    NormalizedInside(Point(cx, cy), fit);
  }

  lemma PlacementInsideIff(fit: Rect, cx: real, cy: real, f: real, aspect: real)
    ensures PlacementInside(cx, cy, f, aspect, fit) <==>
              WidthFits(f * fit.Width(),
                       Room(ToAbsolute(Point(cx, cy), fit).x, fit.MinX(), fit.MaxX()),
                       Room(ToAbsolute(Point(cx, cy), fit).y, fit.MinY(), fit.MaxY()),
                       aspect)
  {
    Extents(fit);
    InsideIffFits(fit.MinX(), fit.Width(), fit.MinY(), fit.Height(), cx, cy, f, aspect,
                  ToAbsolute(Point(cx, cy), fit), fit.MaxX(), fit.MaxY());
    PlacementInsideUnfold(cx, cy, f, aspect, fit);
  }

  /** Unfolding step: PlacementInside as its two axes. */
  lemma PlacementInsideUnfold(cx: real, cy: real, f: real, aspect: real, fit: Rect)
    ensures PlacementInside(cx, cy, f, aspect, fit) <==>
            AxisInside(fit.MinX(), fit.Width(), cx, f * fit.Width() / 2.0) &&
            AxisInside(fit.MinY(), fit.Height(), cy, f * fit.Width() * aspect / 2.0)
  {}

  /** PlacementInsideIff on plain numbers: `a` is the centre, `mx`, `my` the far edges. */
  lemma InsideIffFits(x0: real, w: real, y0: real, h: real, cx: real, cy: real, f: real, aspect: real,
                      a: Point, mx: real, my: real)
    requires a.x == x0 + cx * w && a.y == y0 + cy * h && mx == x0 + w && my == y0 + h
    ensures AxisInside(x0, w, cx, f * w / 2.0) && AxisInside(y0, h, cy, f * w * aspect / 2.0)
            <==> WidthFits(f * w, Room(a.x, x0, mx), Room(a.y, y0, my), aspect)
  {
    AxisInsideIff(x0, w, cx, f * w / 2.0, a.x, mx);
    AxisInsideIff(y0, h, cy, f * w * aspect / 2.0, a.y, my);
    WidthFitsIff(f * w, Room(a.x, x0, mx), Room(a.y, y0, my), aspect);
  }

  lemma WidthFitsIff(w: real, dx: real, dy: real, aspect: real)
    ensures WidthFits(w, dx, dy, aspect) <==> w / 2.0 <= dx && w * aspect / 2.0 <= dy
  {}

  /** PlacementInsideIff on one axis: inside means the half-extent is at most the room. */
  lemma AxisInsideIff(lo: real, k: real, frac: real, half: real, c: real, hi: real)
    requires c == lo + frac * k && hi == lo + k
    ensures AxisInside(lo, k, frac, half) <==> half <= Room(c, lo, hi)
  {}

  /** The heart of MaxWidthFracIsLargestFit, on plain numbers. */
  lemma LargestFit(w: real, dx: real, dy: real, aspect: real, f: real, k: real)
    requires aspect > 0.0 && k > 0.0 && dx >= 0.0 && dy >= 0.0
    requires 0.0 <= f <= 1.0 && w == f * k
    ensures WidthFits(w, dx, dy, aspect) <==> f <= Clamp(Min(dx, dy / aspect) * 2.0 / k, 0.0, 1.0)
  {
    var m := Min(dx, dy / aspect);
    HalveProduct(w, aspect);
    DivIff(w / 2.0, dy, aspect);
    assert WidthFits(w, dx, dy, aspect) <==> w / 2.0 <= m;
    HalfWidthIff(f, k, m);
    assert m >= 0.0;
    assert m * 2.0 / k >= 0.0;
  }

  lemma DivIff(a: real, b: real, k: real)
    requires k > 0.0
    ensures a * k <= b <==> a <= b / k
  {
    var q := b / k;
    assert q * k == b;
    if a <= q { MulMonotone(k, a, q); }
    if q < a { MulStrict(k, q, a); }
  }

  lemma HalfWidthIff(f: real, w: real, m: real)
    requires w > 0.0
    ensures f * w / 2.0 <= m <==> f <= m * 2.0 / w
  {
    DivIff(f, m * 2.0, w);
  }

  /** A committed fraction at most the bound keeps the box inside. */
  lemma BoundedCommitInside(fit: Rect, cx: real, cy: real, aspect: real, f: real)
    requires fit.Width() > 0.0 && fit.Height() > 0.0 && aspect > 0.0
    requires 0.0 <= cx <= 1.0 && 0.0 <= cy <= 1.0
    requires 0.0 <= f <= MaxWidthFracThatFits(fit, cx, cy, aspect)
    ensures PlacementInside(cx, cy, f, aspect, fit)
  {
    MaxWidthFracIsLargestFit(fit, cx, cy, aspect, f);
  }

  // ---------------------------------------------------------------------
  // Pinch

  /**
    The end of a pinch with magnification `m`: the scaled fraction clamped
    to [MinFrac, MaxFrac], then capped by what fits around the centre (with
    the export's aspect). Only `widthFrac` changes.
   */
  function PinchCommit(sig: PlacedSignature, fit: Rect, m: real): (r: PlacedSignature)
    requires fit.Width() > 0.0 && ExportAspect(sig.image) > 0.0
    ensures r == sig.(widthFrac := r.widthFrac)
    ensures var bound := MaxWidthFracThatFits(fit, sig.cx, sig.cy, ExportAspect(sig.image));
            && 0.0 <= r.widthFrac <= MaxFrac
            && r.widthFrac <= bound
            && (bound >= MinFrac ==> r.widthFrac >= MinFrac)
            && (MinFrac <= sig.widthFrac * m <= MaxFrac && sig.widthFrac * m <= bound ==>
                  r.widthFrac == sig.widthFrac * m)
  {
    var newFrac := Clamp(sig.widthFrac * m, MinFrac, MaxFrac);
    var maxByBounds := MaxWidthFracThatFits(fit, sig.cx, sig.cy, ExportAspect(sig.image));
    sig.(widthFrac := Min(newFrac, maxByBounds))
  }

  /** A pinch leaves the box of a placement centred in the fit rectangle inside it. */
  lemma PinchKeepsPlacementInside(sig: PlacedSignature, fit: Rect, m: real)
    requires fit.Width() > 0.0 && fit.Height() > 0.0 && ExportAspect(sig.image) > 0.0
    requires 0.0 <= sig.cx <= 1.0 && 0.0 <= sig.cy <= 1.0
    ensures var r := PinchCommit(sig, fit, m);
            PlacementInside(r.cx, r.cy, r.widthFrac, ExportAspect(r.image), fit)
  {
    var r := PinchCommit(sig, fit, m);
    BoundedCommitInside(fit, sig.cx, sig.cy, ExportAspect(sig.image), r.widthFrac);
  }

  /**
    Near an edge the bounds cap wins over the minimum: a sticker centred
    1% from the left edge is committed at a width fraction of 0.02.
   */
  lemma PinchCanCommitBelowMinimum()
    ensures var sig := PlacedSignature(1, Size(100.0, 100.0), 0.01, 0.5, 0.32, true, 0.0);
            PinchCommit(sig, Rect(Point(0.0, 0.0), Size(100.0, 100.0)), 1.0).widthFrac == 0.02
  {
    var fit := Rect(Point(0.0, 0.0), Size(100.0, 100.0));
    assert MaxWidthFracThatFits(fit, 0.01, 0.5, 1.0) == 0.02;
  }

  // ---------------------------------------------------------------------
  // Corner handle

  /** The largest scale of the start box that still fits around `center`. */
  function MaxScaleByBounds(fit: Rect, center: Point, baseW: real, aspect: real): real
    requires baseW > 0.0 && aspect > 0.0
  {
    var dxMax := Min(center.x - fit.MinX(), fit.MaxX() - center.x);
    var dyMax := Min(center.y - fit.MinY(), fit.MaxY() - center.y);
    Min(dxMax, dyMax / aspect) / (baseW / 2.0)
  }

  /**
    The live scale while the corner handle is dragged by `t`: the box grows
    about its centre far enough to reach the dragged corner on both axes
    (half-extents at least 4 points), then the scale is clamped between the
    MinFrac width and the smaller of the MaxFrac width and the bounds.
   */
  function LiveScaleForResize(fit: Rect, t: Point, baseW: real, baseH: real, center: Point, aspect: real)
    : (s: real)
    requires baseW > 0.0 && baseH > 0.0 && aspect > 0.0
    ensures s >= fit.Width() * MinFrac / baseW
    ensures fit.Width() * MinFrac / baseW <= Min(fit.Width() * MaxFrac / baseW, MaxScaleByBounds(fit, center, baseW, aspect)) ==>
              s <= Min(fit.Width() * MaxFrac / baseW, MaxScaleByBounds(fit, center, baseW, aspect))
  {
    var upper := Min(fit.Width() * MaxFrac / baseW, MaxScaleByBounds(fit, center, baseW, aspect));
    Clamp(RawResizeScale(t, baseW, baseH, center), fit.Width() * MinFrac / baseW, upper)
  }

  /** The unclamped scale that moves the start box's bottom-right corner by `t`. */
  function RawResizeScale(t: Point, baseW: real, baseH: real, center: Point): real
    requires baseW > 0.0 && baseH > 0.0
  {
    var startHalfW := baseW / 2.0;
    var startHalfH := baseH / 2.0;
    var br0 := Point(center.x + startHalfW, center.y + startHalfH);
    var br1 := Point(br0.x + t.x, br0.y + t.y);
    var newHalfW := Max(br1.x - center.x, 4.0);
    var newHalfH := Max(br1.y - center.y, 4.0);
    Max(newHalfW / startHalfW, newHalfH / startHalfH)
  }

  /**
    Between its bounds (LiveScaleForResize clamps RawResizeScale between the
    MinFrac floor and its upper bound), the live scale grows the box about
    its centre just far enough to reach the dragged corner: both
    half-extents cover it (at least 4 points each) and one meets it exactly.
   */
  lemma ResizeReachesDraggedCorner(t: Point, baseW: real, baseH: real, center: Point, lo: real, hi: real, s: real)
    requires baseW > 0.0 && baseH > 0.0
    requires s == Clamp(RawResizeScale(t, baseW, baseH, center), lo, hi) && lo < s < hi
    ensures s * (baseW / 2.0) >= Max(baseW / 2.0 + t.x, 4.0)
    ensures s * (baseH / 2.0) >= Max(baseH / 2.0 + t.y, 4.0)
    ensures s * (baseW / 2.0) == Max(baseW / 2.0 + t.x, 4.0) || s * (baseH / 2.0) == Max(baseH / 2.0 + t.y, 4.0)
  {
    ClampInterior(RawResizeScale(t, baseW, baseH, center), lo, hi, s);
    RawScaleCentred(t, baseW, baseH, center);
    CoverBoth(Max(baseW / 2.0 + t.x, 4.0), baseW / 2.0, Max(baseH / 2.0 + t.y, 4.0), baseH / 2.0, s);
  }

  /** Strictly between the bounds, a clamp is the identity. */
  lemma ClampInterior(v: real, lo: real, hi: real, s: real)
    requires s == Clamp(v, lo, hi) && lo < s < hi
    ensures s == v
  {}

  /** The corner's offset from the centre does not depend on the centre. */
  lemma RawScaleCentred(t: Point, baseW: real, baseH: real, center: Point)
    requires baseW > 0.0 && baseH > 0.0
    ensures RawResizeScale(t, baseW, baseH, center) ==
            Max(Max(baseW / 2.0 + t.x, 4.0) / (baseW / 2.0), Max(baseH / 2.0 + t.y, 4.0) / (baseH / 2.0))
  {
    assert (center.x + baseW / 2.0 + t.x) - center.x == baseW / 2.0 + t.x;
    assert (center.y + baseH / 2.0 + t.y) - center.y == baseH / 2.0 + t.y;
  }

  lemma CoverBoth(a: real, ka: real, b: real, kb: real, s: real)
    requires ka > 0.0 && kb > 0.0 && s == Max(a / ka, b / kb)
    ensures s * ka >= a && s * kb >= b && (s * ka == a || s * kb == b)
  {
    assert (a / ka) * ka == a;
    assert (b / kb) * kb == b;
    if a / ka >= b / kb {
      MulMonotone(kb, b / kb, s);
    } else {
      MulMonotone(ka, a / ka, s);
    }
  }

  /**
    Resize's bounds term keeps the live box inside the fit rectangle,
    provided the MinFrac floor does not already exceed the bounds.
   */
  lemma LiveResizeInside(fit: Rect, t: Point, baseW: real, baseH: real, center: Point, aspect: real, s: real)
    requires baseW > 0.0 && baseH > 0.0 && aspect > 0.0 && baseH == baseW * aspect
    requires fit.Width() * MinFrac / baseW <= MaxScaleByBounds(fit, center, baseW, aspect)
    requires s == LiveScaleForResize(fit, t, baseW, baseH, center, aspect)
    ensures BoxInside(center, baseW * s / 2.0, baseH * s / 2.0, fit)
  {
    LiveScaleWithinBounds(fit, t, baseW, baseH, center, aspect);
    ScaledBoxFits(fit, s, baseW, baseH, center, aspect);
  }

  lemma LiveScaleWithinBounds(fit: Rect, t: Point, baseW: real, baseH: real, center: Point, aspect: real)
    requires baseW > 0.0 && baseH > 0.0 && aspect > 0.0
    requires fit.Width() * MinFrac / baseW <= MaxScaleByBounds(fit, center, baseW, aspect)
    ensures LiveScaleForResize(fit, t, baseW, baseH, center, aspect) <= MaxScaleByBounds(fit, center, baseW, aspect)
  {
    DivLe(fit.Width() * MinFrac, fit.Width() * MaxFrac, baseW);
  }

  lemma DivLe(a: real, b: real, k: real)
    requires k > 0.0 && a <= b
    ensures a / k <= b / k
  {
    DivIff(a / k, b, k);
  }

  /** A scale within the bounds keeps the scaled box around `center` inside `fit`. */
  lemma ScaledBoxFits(fit: Rect, s: real, baseW: real, baseH: real, center: Point, aspect: real)
    requires baseW > 0.0 && aspect > 0.0 && baseH == baseW * aspect
    requires s <= MaxScaleByBounds(fit, center, baseW, aspect)
    ensures BoxInside(center, baseW * s / 2.0, baseH * s / 2.0, fit)
  {
    ScaledHalvesFit(s, baseW, baseH, aspect,
                    Min(center.x - fit.MinX(), fit.MaxX() - center.x),
                    Min(center.y - fit.MinY(), fit.MaxY() - center.y));
  }

  /** The heart of ScaledBoxFits, on plain numbers. */
  lemma ScaledHalvesFit(s: real, baseW: real, baseH: real, aspect: real, dx: real, dy: real)
    requires baseW > 0.0 && aspect > 0.0 && baseH == baseW * aspect
    requires s <= Min(dx, dy / aspect) / (baseW / 2.0)
    ensures baseW * s / 2.0 <= dx && baseH * s / 2.0 <= dy
  {
    var m := Min(dx, dy / aspect);
    var hw := baseW * s / 2.0;
    assert hw == s * (baseW / 2.0);
    DivIff(s, m, baseW / 2.0);
    DivIff(hw, dy, aspect);
    assert baseH * s / 2.0 == hw * aspect;
  }

  /**
    The end of a corner-handle drag: the live scale turned into a width
    fraction, clamped to [MinFrac, MaxFrac], then capped by what fits (with
    the sticker's aspect). Only `widthFrac` changes. A sticker of zero
    width (one a pinch squeezed against an edge, see
    DragThenPinchCollapsesSticker) makes the live scale divide by a zero
    half-extent; whatever that scale is, the width `0 * s` is zero or not
    a number, and the clamp, `max(lo, min(v, hi))` with IEEE comparisons,
    turns either into MinFrac before the bounds cap.
   */
  function ResizeCommit(sig: PlacedSignature, fit: Rect, t: Point): (r: PlacedSignature)
    requires fit.Width() > 0.0 && sig.widthFrac >= 0.0
    requires sig.image.height == 0.0 || sig.image.width != 0.0
    requires StickerAspect(sig.image) > 0.0
    ensures r == sig.(widthFrac := r.widthFrac)
    ensures var bound := MaxWidthFracThatFits(fit, sig.cx, sig.cy, StickerAspect(sig.image));
            && 0.0 <= r.widthFrac <= MaxFrac
            && r.widthFrac <= bound
            && (bound >= MinFrac ==> r.widthFrac >= MinFrac)
            && (sig.widthFrac == 0.0 ==> r.widthFrac == Min(MinFrac, bound))
  {
    var f := StickerFrame(sig, fit);
    var maxByBounds := MaxWidthFracThatFits(fit, sig.cx, sig.cy, f.aspect);
    if sig.widthFrac == 0.0 then sig.(widthFrac := Min(MinFrac, maxByBounds))
    else
      PositiveProduct(sig.widthFrac, fit.Width());
      PositiveProduct(f.baseW, f.aspect);
      var s := LiveScaleForResize(fit, t, f.baseW, f.baseH, f.center, f.aspect);
      var newFrac := Clamp((f.baseW * s) / fit.Width(), MinFrac, MaxFrac);
      sig.(widthFrac := Min(newFrac, maxByBounds))
  }

  lemma PositiveProduct(a: real, b: real)
    requires a > 0.0 && b > 0.0
    ensures a * b > 0.0
  {}

  /** A resize leaves the box of a placement centred in the fit rectangle inside it. */
  lemma ResizeKeepsPlacementInside(sig: PlacedSignature, fit: Rect, t: Point)
    requires fit.Width() > 0.0 && fit.Height() > 0.0 && sig.widthFrac >= 0.0
    requires sig.image.height == 0.0 || sig.image.width != 0.0
    requires StickerAspect(sig.image) > 0.0
    requires 0.0 <= sig.cx <= 1.0 && 0.0 <= sig.cy <= 1.0
    ensures var r := ResizeCommit(sig, fit, t);
            PlacementInside(r.cx, r.cy, r.widthFrac, StickerAspect(r.image), fit)
  {
    var r := ResizeCommit(sig, fit, t);
    BoundedCommitInside(fit, sig.cx, sig.cy, StickerAspect(sig.image), r.widthFrac);
  }

  /**
    A placement does not start inside: a tall signature added at the
    default centre and width overflows the bottom of a square fit.
   */
  lemma AddedPlacementMayOverflow()
    ensures var p := NewPlacement(1, Size(10.0, 100.0));
            !PlacementInside(p.cx, p.cy, p.widthFrac, StickerAspect(p.image),
                             Rect(Point(0.0, 0.0), Size(100.0, 100.0)))
  {}

  // ---------------------------------------------------------------------
  // The sticker at rest

  /**
    The scale the sticker view shows the stored frame at when no gesture is
    under way: the pinch factor is 1 and the corner handle's live scale is
    taken at a zero translation, so its clamp to the MinFrac width and to
    the bounds still applies. A zero-width sticker has no such scale (the
    source divides by a zero half-extent).
   */
  function ShownScale(sig: PlacedSignature, fit: Rect): (s: real)
    requires fit.Width() > 0.0 && sig.widthFrac > 0.0
    requires sig.image.height == 0.0 || sig.image.width != 0.0
    requires StickerAspect(sig.image) > 0.0
  {
    var f := StickerFrame(sig, fit);
    PositiveProduct(sig.widthFrac, fit.Width());
    PositiveProduct(f.baseW, f.aspect);
    var s := LiveScaleForResize(fit, Point(0.0, 0.0), f.baseW, f.baseH, f.center, f.aspect);
    s
  }

  /**
    The shown box is the stored box when nothing clamps it: a width
    fraction within [MinFrac, MaxFrac], half-extents of at least 4 points,
    and a stored box inside the fit rectangle.
   */
  lemma ShownScaleIsOne(sig: PlacedSignature, fit: Rect)
    requires fit.Width() > 0.0 && MinFrac <= sig.widthFrac <= MaxFrac
    requires sig.image.height == 0.0 || sig.image.width != 0.0
    requires StickerAspect(sig.image) > 0.0
    requires var f := StickerFrame(sig, fit);
             f.baseW >= 8.0 && f.baseH >= 8.0 && BoxInside(f.center, f.baseW / 2.0, f.baseH / 2.0, fit)
    ensures ShownScale(sig, fit) == 1.0
  {
    var f := StickerFrame(sig, fit);
    assert f.aspect > 0.0;
    assert f.baseW >= 8.0 && f.baseH >= 8.0;
    assert BoxInside(f.center, f.baseW / 2.0, f.baseH / 2.0, fit);
    assert f.baseW == sig.widthFrac * fit.Width();
    assert f.baseH == f.baseW * f.aspect;
    FrameAtRest(fit, f, sig.widthFrac);
    assert ShownScale(sig, fit) == LiveScaleForResize(fit, Point(0.0, 0.0), f.baseW, f.baseH, f.center, f.aspect);
  }

  /** ShownScaleIsOne for any frame of a stored width fraction. */
  lemma FrameAtRest(fit: Rect, f: Frame, frac: real)
    requires fit.Width() > 0.0 && MinFrac <= frac <= MaxFrac && f.baseW == frac * fit.Width()
    requires f.aspect > 0.0 && f.baseH == f.baseW * f.aspect
    requires f.baseW >= 8.0 && f.baseH >= 8.0 && BoxInside(f.center, f.baseW / 2.0, f.baseH / 2.0, fit)
    ensures LiveScaleForResize(fit, Point(0.0, 0.0), f.baseW, f.baseH, f.center, f.aspect) == 1.0
  {
    FracWidthBounds(frac, fit.Width(), f.baseW);
    RestScaleClamp(fit, f.baseW, f.baseH, f.center, f.aspect);
  }

  /** The frame of a placement inside the fit rectangle is inside it too. */
  lemma StoredFrameInside(sig: PlacedSignature, fit: Rect)
    requires sig.image.height == 0.0 || sig.image.width != 0.0
    requires PlacementInside(sig.cx, sig.cy, sig.widthFrac, StickerAspect(sig.image), fit)
    ensures var f := StickerFrame(sig, fit);
            BoxInside(f.center, f.baseW / 2.0, f.baseH / 2.0, fit)
  {
    FrameInside(fit, StickerFrame(sig, fit), sig.cx, sig.cy, sig.widthFrac);
  }

  lemma FrameInside(fit: Rect, f: Frame, cx: real, cy: real, frac: real)
    requires f.baseW == frac * fit.Width() && f.baseH == f.baseW * f.aspect
    requires f.center == ToAbsolute(Point(cx, cy), fit)
    requires PlacementInside(cx, cy, frac, f.aspect, fit)
    ensures BoxInside(f.center, f.baseW / 2.0, f.baseH / 2.0, fit)
  {
    InsideRoom(cx, cy, frac, f.aspect, fit);
    FrameRoomX(fit, f, cx, cy, frac);
    FrameRoomY(fit, f, cx, cy, frac);
  }

  lemma FrameRoomX(fit: Rect, f: Frame, cx: real, cy: real, frac: real)
    requires f.baseW == frac * fit.Width() && f.center == ToAbsolute(Point(cx, cy), fit)
    requires var c := ToAbsolute(Point(cx, cy), fit);
             frac * fit.Width() / 2.0 <= c.x - fit.MinX() && frac * fit.Width() / 2.0 <= fit.MaxX() - c.x
    ensures f.baseW / 2.0 <= f.center.x - fit.MinX() && f.baseW / 2.0 <= fit.MaxX() - f.center.x
  {}

  lemma FrameRoomY(fit: Rect, f: Frame, cx: real, cy: real, frac: real)
    requires f.baseW == frac * fit.Width() && f.baseH == f.baseW * f.aspect
    requires f.center == ToAbsolute(Point(cx, cy), fit)
    requires var c := ToAbsolute(Point(cx, cy), fit);
             frac * fit.Width() * f.aspect / 2.0 <= c.y - fit.MinY() &&
             frac * fit.Width() * f.aspect / 2.0 <= fit.MaxY() - c.y
    ensures f.baseH / 2.0 <= f.center.y - fit.MinY() && f.baseH / 2.0 <= fit.MaxY() - f.center.y
  {
    assert f.baseH == frac * fit.Width() * f.aspect;
  }

  /** A width `b` of `frac` times `w`, for `frac` within [MinFrac, MaxFrac]. */
  lemma FracWidthBounds(frac: real, w: real, b: real)
    requires w > 0.0 && MinFrac <= frac <= MaxFrac && b == frac * w
    ensures w * MinFrac <= b <= w * MaxFrac
  {
    MulMonotone(w, MinFrac, frac);
    MulMonotone(w, frac, MaxFrac);
  }

  /** Nothing clamps the live scale at a zero translation of a box that fits everywhere. */
  lemma RestScaleClamp(fit: Rect, baseW: real, baseH: real, center: Point, aspect: real)
    requires baseW >= 8.0 && baseH >= 8.0 && aspect > 0.0 && baseH == baseW * aspect
    requires fit.Width() * MinFrac <= baseW <= fit.Width() * MaxFrac
    requires baseW / 2.0 <= center.x - fit.MinX() && baseW / 2.0 <= fit.MaxX() - center.x
    requires baseH / 2.0 <= center.y - fit.MinY() && baseH / 2.0 <= fit.MaxY() - center.y
    ensures LiveScaleForResize(fit, Point(0.0, 0.0), baseW, baseH, center, aspect) == 1.0
  {
    RawAtRest(baseW, baseH, center);
    FloorAtMostOne(fit.Width(), baseW);
    CapAtLeastOne(fit.Width(), baseW);
    BoundsScaleAtLeastOne(fit, center, baseW, baseH, aspect);
    ClampAtOne(fit, baseW, baseH, center, aspect);
  }

  /** With the raw scale 1 between the bounds, the live scale is 1. */
  lemma ClampAtOne(fit: Rect, baseW: real, baseH: real, center: Point, aspect: real)
    requires baseW > 0.0 && baseH > 0.0 && aspect > 0.0
    requires RawResizeScale(Point(0.0, 0.0), baseW, baseH, center) == 1.0
    requires fit.Width() * MinFrac / baseW <= 1.0 <= fit.Width() * MaxFrac / baseW
    requires 1.0 <= MaxScaleByBounds(fit, center, baseW, aspect)
    ensures LiveScaleForResize(fit, Point(0.0, 0.0), baseW, baseH, center, aspect) == 1.0
  {}

  lemma FloorAtMostOne(fitW: real, baseW: real)
    requires baseW > 0.0 && fitW * MinFrac <= baseW
    ensures fitW * MinFrac / baseW <= 1.0
  {
    DivLe(fitW * MinFrac, baseW, baseW);
  }

  lemma CapAtLeastOne(fitW: real, baseW: real)
    requires baseW > 0.0 && baseW <= fitW * MaxFrac
    ensures 1.0 <= fitW * MaxFrac / baseW
  {
    DivIff(1.0, fitW * MaxFrac, baseW);
  }

  lemma RawAtRest(baseW: real, baseH: real, center: Point)
    requires baseW >= 8.0 && baseH >= 8.0
    ensures RawResizeScale(Point(0.0, 0.0), baseW, baseH, center) == 1.0
  {
    RawScaleCentred(Point(0.0, 0.0), baseW, baseH, center);
    RawAtRestIsOne(baseW, baseH);
  }

  lemma RawAtRestIsOne(baseW: real, baseH: real)
    requires baseW >= 8.0 && baseH >= 8.0
    ensures Max(Max(baseW / 2.0 + 0.0, 4.0) / (baseW / 2.0), Max(baseH / 2.0 + 0.0, 4.0) / (baseH / 2.0)) == 1.0
  {
    assert Max(baseW / 2.0 + 0.0, 4.0) == baseW / 2.0;
    assert Max(baseH / 2.0 + 0.0, 4.0) == baseH / 2.0;
  }

  lemma BoundsScaleAtLeastOne(fit: Rect, center: Point, baseW: real, baseH: real, aspect: real)
    requires baseW > 0.0 && aspect > 0.0 && baseH == baseW * aspect
    requires baseW / 2.0 <= center.x - fit.MinX() && baseW / 2.0 <= fit.MaxX() - center.x
    requires baseH / 2.0 <= center.y - fit.MinY() && baseH / 2.0 <= fit.MaxY() - center.y
    ensures 1.0 <= MaxScaleByBounds(fit, center, baseW, aspect)
  {
    BoundsAtLeastOne(baseW, aspect,
                     Min(center.x - fit.MinX(), fit.MaxX() - center.x),
                     Min(center.y - fit.MinY(), fit.MaxY() - center.y));
  }

  /** A box whose half-extents fit the room allows the scale 1 by the bounds. */
  lemma BoundsAtLeastOne(baseW: real, aspect: real, dx: real, dy: real)
    requires baseW > 0.0 && aspect > 0.0
    requires baseW / 2.0 <= dx && baseW * aspect / 2.0 <= dy
    ensures 1.0 <= Min(dx, dy / aspect) / (baseW / 2.0)
  {
    assert baseW / 2.0 * aspect <= dy;
    DivIff(baseW / 2.0, dy, aspect);
    DivIff(1.0, Min(dx, dy / aspect), baseW / 2.0);
  }

  /** A stored box inside the fit rectangle has room for its half-extents around its centre. */
  lemma InsideRoom(cx: real, cy: real, frac: real, aspect: real, fit: Rect)
    requires PlacementInside(cx, cy, frac, aspect, fit)
    ensures var c := ToAbsolute(Point(cx, cy), fit);
            && frac * fit.Width() / 2.0 <= c.x - fit.MinX() && frac * fit.Width() / 2.0 <= fit.MaxX() - c.x
            && frac * fit.Width() * aspect / 2.0 <= c.y - fit.MinY()
            && frac * fit.Width() * aspect / 2.0 <= fit.MaxY() - c.y
  {
    var w := frac * fit.Width();
    Extents(fit);
    AxisRoom(fit.MinX(), fit.Width(), cx, w / 2.0);
    AxisRoom(fit.MinY(), fit.Height(), cy, w * aspect / 2.0);
  }

  /** On one axis: a segment inside has room for its half-length on either side of its centre. */
  lemma AxisRoom(lo: real, k: real, frac: real, half: real)
    requires AxisInside(lo, k, frac, half)
    ensures half <= (lo + frac * k) - lo && half <= (lo + k) - (lo + frac * k)
  {}

  /** The shown box's width and height: the stored frame at the shown scale. */
  function ShownWidth(sig: PlacedSignature, fit: Rect): real
    requires fit.Width() > 0.0 && sig.widthFrac > 0.0
    requires sig.image.height == 0.0 || sig.image.width != 0.0
    requires StickerAspect(sig.image) > 0.0
  {
    StickerFrame(sig, fit).baseW * ShownScale(sig, fit)
  }

  function ShownHeight(sig: PlacedSignature, fit: Rect): real
    requires fit.Width() > 0.0 && sig.widthFrac > 0.0
    requires sig.image.height == 0.0 || sig.image.width != 0.0
    requires StickerAspect(sig.image) > 0.0
  {
    StickerFrame(sig, fit).baseH * ShownScale(sig, fit)
  }

  /** A drag's end as the sticker view commits it at rest: it carries the shown box. */
  function DragAtRest(sig: PlacedSignature, fit: Rect, t: Point): (r: PlacedSignature)
    requires fit.Width() > 0.0 && fit.Height() > 0.0 && sig.widthFrac > 0.0
    requires sig.image.height == 0.0 || sig.image.width != 0.0
    requires StickerAspect(sig.image) > 0.0
    ensures r == sig.(cx := r.cx, cy := r.cy)
    ensures 0.0 <= r.cx <= 1.0 && 0.0 <= r.cy <= 1.0
  {
    DragCommit(sig, fit, ShownWidth(sig, fit), ShownHeight(sig, fit), t)
  }

  /**
    A drag keeps a placement whose box is inside the fit rectangle inside
    it whenever the shown box is the stored one (ShownScaleIsOne). `aspect`
    names the sticker's aspect.
   */
  lemma DragKeepsPlacementInside(sig: PlacedSignature, fit: Rect, t: Point, aspect: real)
    requires fit.Width() > 0.0 && fit.Height() > 0.0 && MinFrac <= sig.widthFrac <= MaxFrac
    requires sig.image.height == 0.0 || sig.image.width != 0.0
    requires aspect == StickerAspect(sig.image) && aspect > 0.0
    requires StickerFrame(sig, fit).baseW >= 8.0 && StickerFrame(sig, fit).baseH >= 8.0
    requires PlacementInside(sig.cx, sig.cy, sig.widthFrac, aspect, fit)
    ensures var r := DragAtRest(sig, fit, t);
            PlacementInside(r.cx, r.cy, sig.widthFrac, aspect, fit)
  {
    AtRestShowsStored(sig, fit, aspect);
    DragAtRestStored(sig, fit, t, aspect);
    StoredSizeDragKeepsInside(sig, fit, aspect, t);
  }

  /** A placement inside the fit rectangle that nothing clamps is shown at its stored size. */
  lemma AtRestShowsStored(sig: PlacedSignature, fit: Rect, aspect: real)
    requires fit.Width() > 0.0 && fit.Height() > 0.0 && MinFrac <= sig.widthFrac <= MaxFrac
    requires sig.image.height == 0.0 || sig.image.width != 0.0
    requires aspect == StickerAspect(sig.image) && aspect > 0.0
    requires StickerFrame(sig, fit).baseW >= 8.0 && StickerFrame(sig, fit).baseH >= 8.0
    requires PlacementInside(sig.cx, sig.cy, sig.widthFrac, aspect, fit)
    ensures ShownScale(sig, fit) == 1.0
    ensures ShownWidth(sig, fit) == StickerFrame(sig, fit).baseW == sig.widthFrac * fit.Width()
    ensures ShownHeight(sig, fit) == StickerFrame(sig, fit).baseH == sig.widthFrac * fit.Width() * aspect
  {
    StoredFrameInside(sig, fit);
    ShownScaleIsOne(sig, fit);
    ShownSizeIsStored(sig, fit);
    StoredBox(sig, fit, aspect);
  }

  /** With the shown scale 1, a drag at rest carries the stored box. */
  lemma DragAtRestStored(sig: PlacedSignature, fit: Rect, t: Point, aspect: real)
    requires fit.Width() > 0.0 && fit.Height() > 0.0 && sig.widthFrac > 0.0
    requires sig.image.height == 0.0 || sig.image.width != 0.0
    requires aspect == StickerAspect(sig.image) && aspect > 0.0
    requires ShownScale(sig, fit) == 1.0
    ensures DragAtRest(sig, fit, t) == DragCommit(sig, fit, sig.widthFrac * fit.Width(), sig.widthFrac * fit.Width() * aspect, t)
  {
    ShownSizeIsStored(sig, fit);
    StoredBox(sig, fit, aspect);
    assert DragAtRest(sig, fit, t) == DragCommit(sig, fit, ShownWidth(sig, fit), ShownHeight(sig, fit), t);
  }

  /** The stored box in the terms of the placement: its width and its height. */
  lemma StoredBox(sig: PlacedSignature, fit: Rect, aspect: real)
    requires sig.image.height == 0.0 || sig.image.width != 0.0
    requires aspect == StickerAspect(sig.image)
    ensures StickerFrame(sig, fit).baseW == sig.widthFrac * fit.Width()
    ensures StickerFrame(sig, fit).baseH == sig.widthFrac * fit.Width() * aspect
  {}

  /** With the shown scale 1, the shown box is the stored one. */
  lemma ShownSizeIsStored(sig: PlacedSignature, fit: Rect)
    requires fit.Width() > 0.0 && sig.widthFrac > 0.0
    requires sig.image.height == 0.0 || sig.image.width != 0.0
    requires StickerAspect(sig.image) > 0.0
    requires ShownScale(sig, fit) == 1.0
    ensures ShownWidth(sig, fit) == StickerFrame(sig, fit).baseW
    ensures ShownHeight(sig, fit) == StickerFrame(sig, fit).baseH
  {
    ScaledByOne(StickerFrame(sig, fit).baseW, ShownScale(sig, fit));
    ScaledByOne(StickerFrame(sig, fit).baseH, ShownScale(sig, fit));
  }

  lemma ScaledByOne(a: real, s: real)
    requires s == 1.0
    ensures a * s == a
  {}

  /**
    Otherwise a drag at rest can move an inside sticker out of the fit
    rectangle: the 5 by 100 signature that a pinch at (0.5, 0.2) commits at
    a width fraction of 0.02 has a stored box of 2 by 40 points, inside a
    100-point square; the view shows it 6 times larger (the MinFrac floor
    wins over the bounds), and a drag by (0, 0) of that 12 by 240 box
    commits cy = 1, where the stored box hangs over the bottom edge.
   */
  lemma DragAtRestCanLeaveFit()
    ensures var fit := Rect(Point(0.0, 0.0), Size(100.0, 100.0));
            var sig := PlacedSignature(1, Size(5.0, 100.0), 0.5, 0.2, 0.32, true, 0.0);
            var pinched := sig.(widthFrac := 0.02);
            && PinchCommit(sig, fit, 1.0) == pinched
            && PlacementInside(0.5, 0.2, 0.02, 20.0, fit)
            && ShownScale(pinched, fit) == 6.0
            && DragAtRest(pinched, fit, Point(0.0, 0.0)).cy == 1.0
            && !PlacementInside(0.5, 1.0, 0.02, 20.0, fit)
  {
    PinchedThin();
    ThinIsShownAtFloor();
    ThinShownBox();
    ThinBoxDrag();
  }

  /** A pinch by 1 of the 5 by 100 signature at (0.5, 0.2) commits a width fraction of 0.02. */
  lemma PinchedThin()
    ensures var sig := PlacedSignature(1, Size(5.0, 100.0), 0.5, 0.2, 0.32, true, 0.0);
            PinchCommit(sig, Rect(Point(0.0, 0.0), Size(100.0, 100.0)), 1.0) == sig.(widthFrac := 0.02)
  {
    assert MaxWidthFracThatFits(Rect(Point(0.0, 0.0), Size(100.0, 100.0)), 0.5, 0.2, 20.0) == 0.02;
  }

  /** That 2 by 40 point box is shown 6 times larger. */
  lemma ThinIsShownAtFloor()
    ensures ShownScale(PlacedSignature(1, Size(5.0, 100.0), 0.5, 0.2, 0.02, true, 0.0),
                       Rect(Point(0.0, 0.0), Size(100.0, 100.0))) == 6.0
  {
    var fit := Rect(Point(0.0, 0.0), Size(100.0, 100.0));
    RawScaleCentred(Point(0.0, 0.0), 2.0, 40.0, Point(50.0, 20.0));
    assert MaxScaleByBounds(fit, Point(50.0, 20.0), 2.0, 20.0) == 1.0;
  }

  /** So its shown box is 12 by 240 points. */
  lemma ThinShownBox()
    ensures var p := PlacedSignature(1, Size(5.0, 100.0), 0.5, 0.2, 0.02, true, 0.0);
            var fit := Rect(Point(0.0, 0.0), Size(100.0, 100.0));
            ShownWidth(p, fit) == 12.0 && ShownHeight(p, fit) == 240.0
  {
    var p := PlacedSignature(1, Size(5.0, 100.0), 0.5, 0.2, 0.02, true, 0.0);
    var fit := Rect(Point(0.0, 0.0), Size(100.0, 100.0));
    ThinIsShownAtFloor();
    ThinStoredBox();
    ScaledTo(StickerFrame(p, fit).baseW, ShownScale(p, fit), 2.0, 6.0);
    ScaledTo(StickerFrame(p, fit).baseH, ShownScale(p, fit), 40.0, 6.0);
  }

  lemma ThinStoredBox()
    ensures var f := StickerFrame(PlacedSignature(1, Size(5.0, 100.0), 0.5, 0.2, 0.02, true, 0.0),
                                  Rect(Point(0.0, 0.0), Size(100.0, 100.0)));
            f.baseW == 2.0 && f.baseH == 40.0
  {
    assert StickerAspect(Size(5.0, 100.0)) == 20.0;
  }

  /** A drag by (0, 0) of a 12 by 240 box centred at (0.5, 0.2) commits cy = 1. */
  lemma ThinBoxDrag()
    ensures DragCommit(PlacedSignature(1, Size(5.0, 100.0), 0.5, 0.2, 0.02, true, 0.0),
                       Rect(Point(0.0, 0.0), Size(100.0, 100.0)), 12.0, 240.0, Point(0.0, 0.0)).cy == 1.0
  {
    DragCommitCy(PlacedSignature(1, Size(5.0, 100.0), 0.5, 0.2, 0.02, true, 0.0),
                 Rect(Point(0.0, 0.0), Size(100.0, 100.0)), 12.0, 240.0, Point(0.0, 0.0));
  }

  /**
    A sticker can be squeezed to zero width: a tall signature added at the
    default place is shown at the MinFrac floor (12 by 240 points in a
    100-point square), so a drag at rest puts its centre on the bottom
    edge; a pinch there finds no room below the centre and the bounds cap
    commits a width fraction of 0; a corner-handle drag then commits 0
    again, whatever its translation.
   */
  lemma DragThenPinchCollapsesSticker(t: Point)
    ensures var fit := Rect(Point(0.0, 0.0), Size(100.0, 100.0));
            var added := NewPlacement(1, Size(5.0, 100.0));
            var dragged := added.(cx := 0.5, cy := 1.0);
            var pinched := PinchCommit(dragged, fit, 1.0);
            && DragAtRest(added, fit, Point(0.0, 0.0)) == dragged
            && pinched.widthFrac == 0.0
            && ResizeCommit(pinched, fit, t).widthFrac == 0.0
  {
    DraggedToBottom();
    CollapsedOnBottomEdge(NewPlacement(1, Size(5.0, 100.0)).(cx := 0.5, cy := 1.0), t);
  }

  /** The added signature with its centre on the bottom edge: a pinch and then a resize commit 0. */
  lemma CollapsedOnBottomEdge(d: PlacedSignature, t: Point)
    requires d == NewPlacement(1, Size(5.0, 100.0)).(cx := 0.5, cy := 1.0)
    ensures var fit := Rect(Point(0.0, 0.0), Size(100.0, 100.0));
            var pinched := PinchCommit(d, fit, 1.0);
            pinched.widthFrac == 0.0 && ResizeCommit(pinched, fit, t).widthFrac == 0.0
  {
    var fit := Rect(Point(0.0, 0.0), Size(100.0, 100.0));
    assert MaxWidthFracThatFits(fit, 0.5, 1.0, 20.0) == 0.0;
  }

  /** The added 5 by 100 signature is shown at 12 by 240 points. */
  lemma AddedIsShownAtFloor()
    ensures ShownScale(NewPlacement(1, Size(5.0, 100.0)), Rect(Point(0.0, 0.0), Size(100.0, 100.0))) == 0.375
  {
    var fit := Rect(Point(0.0, 0.0), Size(100.0, 100.0));
    assert StickerFrame(NewPlacement(1, Size(5.0, 100.0)), fit).center == Point(50.0, 85.0);
    assert MaxScaleByBounds(fit, Point(50.0, 85.0), 32.0, 20.0) == 0.046875;
  }

  /** Dragging that box by (0, 0) puts its centre on the bottom edge. */
  lemma DraggedToBottom()
    ensures var r := DragAtRest(NewPlacement(1, Size(5.0, 100.0)), Rect(Point(0.0, 0.0), Size(100.0, 100.0)), Point(0.0, 0.0));
            r.cx == 0.5 && r.cy == 1.0
  {
    AddedShownBox();
    TallBoxDrag();
  }

  /** The added 5 by 100 signature's shown box: 12 by 240 points. */
  lemma AddedShownBox()
    ensures var p := NewPlacement(1, Size(5.0, 100.0));
            var fit := Rect(Point(0.0, 0.0), Size(100.0, 100.0));
            ShownWidth(p, fit) == 12.0 && ShownHeight(p, fit) == 240.0
  {
    var p := NewPlacement(1, Size(5.0, 100.0));
    var fit := Rect(Point(0.0, 0.0), Size(100.0, 100.0));
    AddedIsShownAtFloor();
    AddedStoredBox();
    ScaledTo(StickerFrame(p, fit).baseW, ShownScale(p, fit), 32.0, 0.375);
    ScaledTo(StickerFrame(p, fit).baseH, ShownScale(p, fit), 640.0, 0.375);
  }

  /** The added 5 by 100 signature's stored box: 32 by 640 points. */
  lemma AddedStoredBox()
    ensures var f := StickerFrame(NewPlacement(1, Size(5.0, 100.0)), Rect(Point(0.0, 0.0), Size(100.0, 100.0)));
            f.baseW == 32.0 && f.baseH == 640.0
  {
    assert StickerAspect(Size(5.0, 100.0)) == 20.0;
  }

  lemma ScaledTo(a: real, s: real, a0: real, s0: real)
    requires a == a0 && s == s0
    ensures a * s == a0 * s0
  {}

  /** A drag by (0, 0) of a 12 by 240 box centred at (0.5, 0.85) of a 100-point square. */
  lemma TallBoxDrag()
    ensures var r := DragCommit(NewPlacement(1, Size(5.0, 100.0)), Rect(Point(0.0, 0.0), Size(100.0, 100.0)), 12.0, 240.0, Point(0.0, 0.0));
            r.cx == 0.5 && r.cy == 1.0
  {
    var fit := Rect(Point(0.0, 0.0), Size(100.0, 100.0));
    var p := NewPlacement(1, Size(5.0, 100.0));
    DragCommitCx(p, fit, 12.0, 240.0, Point(0.0, 0.0));
    DragCommitCy(p, fit, 12.0, 240.0, Point(0.0, 0.0));
  }
}
