/**
  Plane geometry shared by the signing, touch-up, crop and export screens.
  CoreGraphics' CGFloat is modelled as `real` (no rounding).
 */
module Geometry {

  datatype Point = Point(x: real, y: real)

  datatype Size = Size(width: real, height: real)

  /**
    A CGRect: an origin and a size whose components may be negative.
    The accessors read it as CGRect's `minX`, `maxX`, `width`, ... do,
    that is, after standardization.
   */
  datatype Rect = Rect(origin: Point, size: Size) {

    function MinX(): real {
      if size.width < 0.0 then origin.x + size.width else origin.x
    }

    function MaxX(): real {
      if size.width < 0.0 then origin.x else origin.x + size.width
    }

    function MinY(): real {
      if size.height < 0.0 then origin.y + size.height else origin.y
    }

    function MaxY(): real {
      if size.height < 0.0 then origin.y else origin.y + size.height
    }

    function Width(): real {
      if size.width < 0.0 then -size.width else size.width
    }

    function Height(): real {
      if size.height < 0.0 then -size.height else size.height
    }

    function MidX(): real { (MinX() + MaxX()) / 2.0 }

    function MidY(): real { (MinY() + MaxY()) / 2.0 }

    function Center(): Point { Point(MidX(), MidY()) }

    /** A rectangle whose stored size is already non-negative. */
    predicate IsStandard() {
      size.width >= 0.0 && size.height >= 0.0
    }

    /** CGRect.standardized: same region, non-negative size. */
    function Standardized(): (r: Rect)
      ensures r.IsStandard()
      ensures r.MinX() == MinX() && r.MaxX() == MaxX()
      ensures r.MinY() == MinY() && r.MaxY() == MaxY()
    {
      Rect(Point(MinX(), MinY()), Size(Width(), Height()))
    }

    /** CGRect.contains(_:) for a point: the half-open region. */
    predicate Contains(p: Point) {
      MinX() <= p.x < MaxX() && MinY() <= p.y < MaxY()
    }

    /** Every point of this rectangle lies in `b` (edges included). */
    predicate InsideOf(b: Rect) {
      b.MinX() <= MinX() && MaxX() <= b.MaxX() &&
      b.MinY() <= MinY() && MaxY() <= b.MaxY()
    }
  }

  /** The far edges are the near edges plus the extents. */
  lemma Extents(r: Rect)
    ensures r.Width() >= 0.0 && r.MaxX() == r.MinX() + r.Width()
    ensures r.Height() >= 0.0 && r.MaxY() == r.MinY() + r.Height()
  {}

  const Zero := Rect(Point(0.0, 0.0), Size(0.0, 0.0))

  function Min(a: real, b: real): real { if a <= b then a else b }

  function Max(a: real, b: real): real { if a >= b then a else b }

  /**
    The three-way clamp of SignView: `max(a, min(v, b))`. The lower bound
    wins when the bounds are crossed.
   */
  function Clamp(v: real, lo: real, hi: real): (r: real)
    ensures lo <= r
    ensures lo <= hi ==> r <= hi
    ensures lo <= v <= hi ==> r == v
    ensures hi < lo ==> r == lo
    ensures lo <= hi && hi < v ==> r == hi
  {
    Max(lo, Min(v, hi))
  }

  /** The distance between two numbers. */
  function Dist(a: real, b: real): real { if a >= b then a - b else b - a }

  /**
    What the clamp means: below the range it gives the lower bound, and
    for uncrossed bounds it is the point of [lo, hi] nearest to `v`.
   */
  lemma ClampIsNearest(v: real, lo: real, hi: real, x: real)
    ensures v < lo ==> Clamp(v, lo, hi) == lo
    ensures lo <= x <= hi ==> Dist(Clamp(v, lo, hi), v) <= Dist(x, v)
  {}

  /** A rectangle at the origin of the given size. */
  function RectOfSize(s: Size): Rect { Rect(Point(0.0, 0.0), s) }

  /**
    The largest rectangle with the aspect ratio of `image` that fits in
    `container`, centred in it. This is the unguarded form of SignView and
    EditDocView: it divides by the image's width and height, so those must
    be positive. Nothing checks the container.
   */
  function AspectFit(image: Size, container: Size): (r: Rect)
    requires image.width > 0.0 && image.height > 0.0
    ensures r.size.width * image.height == r.size.height * image.width
    ensures r.MidX() == container.width / 2.0 && r.MidY() == container.height / 2.0
    ensures r.size.width == container.width || r.size.height == container.height
    ensures container.width >= 0.0 && container.height >= 0.0 ==>
              r.IsStandard() && r.InsideOf(RectOfSize(container))
  {
    var scale := Min(container.width / image.width, container.height / image.height);
    var w := image.width * scale;
    var h := image.height * scale;
    ScaleBoundsLemma(image, container, scale);
    Rect(Point((container.width - w) / 2.0, (container.height - h) / 2.0), Size(w, h))
  }

  lemma ScaleBoundsLemma(image: Size, container: Size, scale: real)
    requires image.width > 0.0 && image.height > 0.0
    requires scale == Min(container.width / image.width, container.height / image.height)
    ensures image.width * scale <= container.width
    ensures image.height * scale <= container.height
    ensures image.width * scale == container.width || image.height * scale == container.height
    ensures container.width >= 0.0 && container.height >= 0.0 ==> scale >= 0.0
  {
    var sx := container.width / image.width;
    var sy := container.height / image.height;
    assert image.width * sx == container.width;
    assert image.height * sy == container.height;
    MulMonotone(image.width, scale, sx);
    MulMonotone(image.height, scale, sy);
  }

  lemma MulMonotone(k: real, a: real, b: real)
    requires k > 0.0 && a <= b
    ensures k * a <= k * b
  {}

  /**
    The guarded form of RemoveBgView and CropView: the zero rectangle
    when any dimension is not positive, otherwise the same fit.
   */
  function AspectFitGuarded(image: Size, container: Size): (r: Rect)
    ensures (|| image.width <= 0.0 || image.height <= 0.0
             || container.width <= 0.0 || container.height <= 0.0) ==> r == Zero
    ensures image.width > 0.0 && image.height > 0.0 &&
            container.width > 0.0 && container.height > 0.0 ==>
              && r.IsStandard()
              && r.InsideOf(RectOfSize(container))
              && r.MidX() == container.width / 2.0 && r.MidY() == container.height / 2.0
              && r.size.width * image.height == r.size.height * image.width
              && (r.size.width == container.width || r.size.height == container.height)
              && r.size.width > 0.0 && r.size.height > 0.0
  {
    if image.width <= 0.0 || image.height <= 0.0 ||
       container.width <= 0.0 || container.height <= 0.0
    then Zero
    else
      var r := AspectFit(image, container);
      PositiveFit(image, container);
      r
  }

  lemma PositiveFit(image: Size, container: Size)
    requires image.width > 0.0 && image.height > 0.0
    requires container.width > 0.0 && container.height > 0.0
    ensures AspectFit(image, container).size.width > 0.0
    ensures AspectFit(image, container).size.height > 0.0
  {
    var scale := Min(container.width / image.width, container.height / image.height);
    assert scale > 0.0;
    assert image.width * scale > 0.0;
    assert image.height * scale > 0.0;
  }

  /** A point given as fractions of `r` mapped to absolute coordinates. */
  function ToAbsolute(frac: Point, r: Rect): Point {
    Point(r.MinX() + frac.x * r.Width(), r.MinY() + frac.y * r.Height())
  }

  /** An absolute point expressed as fractions of `r`. */
  function ToNormalized(p: Point, r: Rect): Point
    requires r.Width() > 0.0 && r.Height() > 0.0
  {
    Point((p.x - r.MinX()) / r.Width(), (p.y - r.MinY()) / r.Height())
  }

  /** Normalizing an absolute point recovers its fractions, exactly. */
  lemma NormalizedRoundTrip(frac: Point, r: Rect)
    requires r.Width() > 0.0 && r.Height() > 0.0
    ensures ToNormalized(ToAbsolute(frac, r), r) == frac
  {
    var a := ToAbsolute(frac, r);
    assert a.x - r.MinX() == frac.x * r.Width();
    assert a.y - r.MinY() == frac.y * r.Height();
    OffsetOverExtent(a.x, r.MinX(), frac.x, r.Width());
    OffsetOverExtent(a.y, r.MinY(), frac.y, r.Height());
  }

  /** An offset of `f` extents `k` from `lo`, divided back by `k`, is `f`. */
  lemma OffsetOverExtent(c: real, lo: real, f: real, k: real)
    requires k > 0.0 && c - lo == f * k
    ensures (c - lo) / k == f
  {}

  /** And the other way round. */
  lemma AbsoluteRoundTrip(p: Point, r: Rect)
    requires r.Width() > 0.0 && r.Height() > 0.0
    ensures ToAbsolute(ToNormalized(p, r), r) == p
  {}

  /** Fractions in [0,1] land in the closed rectangle, and only they do. */
  lemma NormalizedInside(frac: Point, r: Rect)
    requires r.Width() > 0.0 && r.Height() > 0.0
    ensures (0.0 <= frac.x <= 1.0 && 0.0 <= frac.y <= 1.0) <==>
            (var p := ToAbsolute(frac, r);
             r.MinX() <= p.x <= r.MaxX() && r.MinY() <= p.y <= r.MaxY())
  {
    OffsetInside(r.MinX(), r.MaxX(), r.Width(), frac.x);
    OffsetInside(r.MinY(), r.MaxY(), r.Height(), frac.y);
  }

  lemma OffsetInside(lo: real, hi: real, k: real, t: real)
    requires k > 0.0 && hi == lo + k
    ensures (0.0 <= t <= 1.0) <==> (lo <= lo + t * k <= hi)
  {
    FractionInside(t, k);
  }

  lemma FractionInside(t: real, k: real)
    requires k > 0.0
    ensures (0.0 <= t <= 1.0) <==> (0.0 <= t * k <= k)
  {
    if t < 0.0 { MulStrict(k, t, 0.0); }
    if t > 1.0 { MulStrict(k, 1.0, t); }
    if 0.0 <= t <= 1.0 { MulMonotone(k, t, 1.0); MulMonotone(k, 0.0, t); }
  }

  lemma MulStrict(k: real, a: real, b: real)
    requires k > 0.0 && a < b
    ensures k * a < k * b
  {}
}
