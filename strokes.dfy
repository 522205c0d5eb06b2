/**
  The drawing arithmetic of the touch-up screen: the mapping from a touch
  in the view to a point of the image, the brush width set by the
  slider, and the row of round dabs that draws one stroke segment.
  Filling the dabs into pixels is not modelled; a stroke is its dabs.
 */
module Strokes {
  import opened Geometry
  import opened Wrappers

  /**
    The image point under a touch: none when the touch is outside the
    half-open fit rectangle or the image has no area; otherwise the
    touch's fractions of the fit rectangle applied to the image size.
   */
  function ViewToImage(p: Point, fit: Rect, image: Size): (r: Option<Point>)
    ensures r.None? <==> !fit.Contains(p) || image.width <= 0.0 || image.height <= 0.0
    ensures r.Some? ==> 0.0 <= r.value.x < image.width && 0.0 <= r.value.y < image.height
  {
    if !fit.Contains(p) || image.width <= 0.0 || image.height <= 0.0 then None
    else
      var nx := (p.x - fit.MinX()) / fit.Width();
      var ny := (p.y - fit.MinY()) / fit.Height();
      Extents(fit);
      UnitScaled(p.x, fit.MinX(), fit.Width(), fit.MaxX(), image.width, nx);
      UnitScaled(p.y, fit.MinY(), fit.Height(), fit.MaxY(), image.height, ny);
      Some(Point(nx * image.width, ny * image.height))
  }

  /** A coordinate in [lo, hi), as a fraction of the span `k`, scales `w` into [0, w). */
  lemma UnitScaled(v: real, lo: real, k: real, hi: real, w: real, n: real)
    requires lo <= v < hi && hi == lo + k && w > 0.0 && n == (v - lo) / k
    ensures 0.0 <= n * w < w
  {
    assert k > 0.0;
    assert 0.0 <= n < 1.0;
    MulBelow(n, w);
  }

  lemma MulBelow(n: real, w: real)
    requires 0.0 <= n < 1.0 && w > 0.0
    ensures 0.0 <= n * w < w
  {}

  /** Where an image point is shown in the view: the inverse mapping. */
  function ImageToView(q: Point, fit: Rect, image: Size): Point
    requires image.width > 0.0 && image.height > 0.0
  {
    ToAbsolute(Point(q.x / image.width, q.y / image.height), fit)
  }

  /** Mapping a touch into the image and back lands on the touch. */
  lemma ViewToImageRoundTrip(p: Point, fit: Rect, image: Size)
    requires ViewToImage(p, fit, image).Some?
    ensures ImageToView(ViewToImage(p, fit, image).value, fit, image) == p
  {
    Extents(fit);
    var nx := (p.x - fit.MinX()) / fit.Width();
    var ny := (p.y - fit.MinY()) / fit.Height();
    ScaleCancel(nx, image.width);
    ScaleCancel(ny, image.height);
    AbsoluteRoundTrip(p, fit);
  }

  lemma ScaleCancel(a: real, w: real)
    requires w > 0.0
    ensures (a * w) / w == a
  {}

  /** The fit rectangle's top-left corner is the image's origin. */
  lemma ViewToImageCorner(fit: Rect, image: Size)
    requires fit.Width() > 0.0 && fit.Height() > 0.0
    requires image.width > 0.0 && image.height > 0.0
    ensures ViewToImage(Point(fit.MinX(), fit.MinY()), fit, image) == Some(Point(0.0, 0.0))
  {
    Extents(fit);
  }

  /** The stroke width for a slider value: thirty points per unit, at least one. */
  function BrushWidth(slider: real): (lw: real)
    ensures lw >= 1.0
    ensures slider * 30.0 >= 1.0 ==> lw == slider * 30.0
    ensures slider * 30.0 < 1.0 ==> lw == 1.0
  {
    Max(1.0, slider * 30.0)
  }

  /** The dab radius: half the line width, at least half a point. */
  function Radius(lineWidth: real): real {
    Max(0.5, lineWidth / 2.0)
  }

  /** The spacing the dabs aim at: 0.6 of the radius, at least half a point. */
  function Spacing(radius: real): real {
    Max(0.5, radius * 0.6)
  }

  /**
    The number of gaps between dabs: the segment length (at least one
    point) over the spacing, truncated, and at least one. `len` is the
    segment's Euclidean length, `hypot(dx, dy)`.
   */
  function GapCount(lineWidth: real, len: real): (n: nat)
    ensures n >= 1
  {
    var k := (Max(1.0, len) / Spacing(Radius(lineWidth))).Floor;
    if k < 1 then 1 else k
  }

  /** Dab `i` of `n + 1`: the square around the point a fraction i / n from a to b. */
  function Dab(a: Point, b: Point, radius: real, i: nat, n: nat): Rect
    requires n >= 1
  {
    var t := (i as real) / (n as real);
    var x := a.x + (b.x - a.x) * t;
    var y := a.y + (b.y - a.y) * t;
    Rect(Point(x - radius, y - radius), Size(radius * 2.0, radius * 2.0))
  }

  /** A dab is a square of side twice the radius centred on its point. */
  lemma DabShape(a: Point, b: Point, radius: real, i: nat, n: nat)
    requires n >= 1 && radius > 0.0
    ensures var d := Dab(a, b, radius, i, n);
            var t := (i as real) / (n as real);
            && d.IsStandard() && d.Width() == d.Height() == 2.0 * radius
            && d.Center() == Point(a.x + (b.x - a.x) * t, a.y + (b.y - a.y) * t)
  {}

  /**
    The dabs of one stroke segment from a to b, in drawing order: n + 1
    of them for n = GapCount, the first on a and the last on b.
   */
  method StampLine(a: Point, b: Point, lineWidth: real, len: real) returns (dabs: seq<Rect>)
    requires len >= 0.0 && len * len == (b.x - a.x) * (b.x - a.x) + (b.y - a.y) * (b.y - a.y)
    ensures |dabs| == GapCount(lineWidth, len) + 1
    ensures forall i :: 0 <= i < |dabs| ==> dabs[i] == Dab(a, b, Radius(lineWidth), i, |dabs| - 1)
    ensures dabs[0].Center() == a && dabs[|dabs| - 1].Center() == b
  {
    var radius := Radius(lineWidth);
    var steps := GapCount(lineWidth, len);
    dabs := [];
    for i := 0 to steps + 1
      invariant |dabs| == i
      invariant forall k :: 0 <= k < i ==> dabs[k] == Dab(a, b, radius, k, steps)
    {
      dabs := dabs + [Dab(a, b, radius, i, steps)];
    }
    DabShape(a, b, radius, 0, steps);
    DabShape(a, b, radius, steps, steps);
  }

  /** Consecutive dabs are one n-th of the segment apart. */
  lemma DabsEvenlySpaced(a: Point, b: Point, radius: real, i: nat, n: nat)
    requires n >= 1 && radius > 0.0
    ensures Dab(a, b, radius, i + 1, n).Center().x - Dab(a, b, radius, i, n).Center().x == (b.x - a.x) / (n as real)
    ensures Dab(a, b, radius, i + 1, n).Center().y - Dab(a, b, radius, i, n).Center().y == (b.y - a.y) / (n as real)
  {
    DabShape(a, b, radius, i, n);
    DabShape(a, b, radius, i + 1, n);
    StepDifference(b.x - a.x, i as real, n as real);
    StepDifference(b.y - a.y, i as real, n as real);
  }

  lemma StepDifference(d: real, i: real, n: real)
    requires n > 0.0
    ensures d * ((i + 1.0) / n) - d * (i / n) == d / n
  {
    assert (i + 1.0) / n == i / n + 1.0 / n;
    assert d * (i / n + 1.0 / n) == d * (i / n) + d * (1.0 / n);
  }

  /**
    The stroke has no holes: consecutive dab centres are (dx / n, dy / n)
    apart (DabsEvenlySpaced), a step of length len / n, and that is less
    than a diameter, so neighbouring discs overlap.
   */
  lemma DabsOverlap(lineWidth: real, len: real)
    requires len >= 0.0
    ensures len / (GapCount(lineWidth, len) as real) < 2.0 * Radius(lineWidth)
  {
    var r := Radius(lineWidth);
    var s := Spacing(r);
    var dist := Max(1.0, len);
    var n := GapCount(lineWidth, len);
    var k := (dist / s).Floor;
    assert s <= r;
    assert dist / s < (k + 1) as real;
    SpacingBound(dist, s, k, n);
    assert len / (n as real) <= dist / (n as real);
  }

  /** With n = max(1, floor(dist / s)) gaps, each gap dist / n is below 2 s. */
  lemma SpacingBound(dist: real, s: real, k: int, n: nat)
    requires dist > 0.0 && s > 0.0 && n >= 1
    requires dist / s < (k + 1) as real
    requires n == if k < 1 then 1 else k
    ensures dist / (n as real) < 2.0 * s
  {
    var nr := n as real;
    BelowTimes(dist, s, (k + 1) as real);
    assert ((k + 1) as real) <= 2.0 * nr;
    assert dist < 2.0 * nr * s;
  }

  lemma BelowTimes(a: real, s: real, q: real)
    requires s > 0.0 && a / s < q
    ensures a < q * s
  {
    assert a == (a / s) * s;
    MulStrict(s, a / s, q);
  }

  /** The slider track: 24-point padding and a 16-point knob radius on either side. */
  const SliderPad := 24.0
  const KnobRadius := 16.0

  /**
    The knob's centre for a slider value in a track of width `trackW`:
    within the knob's range, or at its right end when the track is too
    narrow to hold a range.
   */
  function KnobX(value: real, trackW: real): (x: real)
    ensures x <= trackW - SliderPad - KnobRadius
    ensures trackW >= 2.0 * (SliderPad + KnobRadius) ==> SliderPad + KnobRadius <= x
    ensures trackW < 2.0 * (SliderPad + KnobRadius) ==> x == trackW - SliderPad - KnobRadius
  {
    var minX := SliderPad + KnobRadius;
    var maxX := trackW - SliderPad - KnobRadius;
    Min(Max(minX + (maxX - minX) * value, minX), maxX)
  }

  /**
    The slider value for a drag at `touchX`: the touch clamped to the
    knob's range, as a fraction of that range. On a track too narrow to
    hold a range the clamp gives its right end, and the value is 1.
   */
  function ValueAt(touchX: real, trackW: real): (v: real)
    requires trackW != 2.0 * (SliderPad + KnobRadius)
    ensures 0.0 <= v <= 1.0
    ensures trackW < 2.0 * (SliderPad + KnobRadius) ==> v == 1.0
  {
    var minX := SliderPad + KnobRadius;
    var maxX := trackW - SliderPad - KnobRadius;
    var clamped := Min(Max(touchX, minX), maxX);
    ClampedFraction(clamped, minX, maxX);
    (clamped - minX) / (maxX - minX)
  }

  /** A point clamped to [lo, hi] as a fraction of the span; with hi below lo the clamp gives hi. */
  lemma ClampedFraction(c: real, lo: real, hi: real)
    requires lo != hi && (c == hi || lo <= c <= hi)
    ensures 0.0 <= (c - lo) / (hi - lo) <= 1.0
    ensures hi < lo ==> (c - lo) / (hi - lo) == 1.0
  {
    if lo < hi {
      FractionOfSpan(c - lo, hi - lo);
    }
  }

  /** Dragging to where the knob of a value in [0, 1] is drawn gives back that value. */
  lemma ValueAtKnob(value: real, trackW: real)
    requires trackW > 2.0 * (SliderPad + KnobRadius) && 0.0 <= value <= 1.0
    ensures ValueAt(KnobX(value, trackW), trackW) == value
  {
    var minX := SliderPad + KnobRadius;
    var k := trackW - SliderPad - KnobRadius - minX;
    FractionInside(value, k);
    ScaleCancel(value, k);
  }

  /** After a drag the knob is drawn under the touch, clamped to the track. */
  lemma KnobFollowsTouch(touchX: real, trackW: real)
    requires trackW != 2.0 * (SliderPad + KnobRadius)
    ensures KnobX(ValueAt(touchX, trackW), trackW)
              == Min(Max(touchX, SliderPad + KnobRadius), trackW - SliderPad - KnobRadius)
  {
    var minX := SliderPad + KnobRadius;
    var maxX := trackW - SliderPad - KnobRadius;
    var c := Min(Max(touchX, minX), maxX);
    if minX < maxX {
      DivCancel(c - minX, maxX - minX);
    }
  }

  lemma FractionOfSpan(a: real, k: real)
    requires 0.0 <= a <= k && k > 0.0
    ensures 0.0 <= a / k <= 1.0
  {}

  lemma DivCancel(a: real, k: real)
    requires k > 0.0
    ensures k * (a / k) == a
  {}
}
