/**
  The signed-document export: every page image becomes one PDF page with
  the signatures placed on that page drawn over it, at the same relative
  position and relative width they have on screen. Two page modes: A4 with
  a margin, and pages of the image's own size. Pixels, the rotation
  transform and the file write are not modelled; a sticker is its box.
 */
module SignedExport {
  import opened Geometry
  import opened Wrappers
  import opened Placement
  import opened StickerGestures
  import opened PageLayout

  /** A sticker as drawn: its centre, its unrotated size and its rotation. */
  datatype StickerBox = StickerBox(center: Point, width: real, height: real, angleDeg: real)

  /** One output page: bounds, where the page image goes, and the stickers in order. */
  datatype SignedPage = SignedPage(bounds: Rect, drawRect: Rect, stickers: seq<StickerBox>)

  /**
    A placement drawn over a target region with origin (x0, y0) and size
    w x h: width `widthFrac * w`, height that times the export aspect,
    centre at the fractions `cx`, `cy` of the region.
   */
  function StickerIn(sig: PlacedSignature, x0: real, y0: real, w: real, h: real): (b: StickerBox)
    ensures b.angleDeg == sig.angleDeg
    ensures b.height == b.width * ExportAspect(sig.image)
  {
    var stickerW := sig.widthFrac * w;
    StickerBox(Point(x0 + sig.cx * w, y0 + sig.cy * h), stickerW, stickerW * ExportAspect(sig.image), sig.angleDeg)
  }

  /**
    Over a region of positive size, the drawn centre is at the fractions
    `cx`, `cy` of the region and the width is the fraction `widthFrac` of
    its width.
   */
  lemma StickerInFractions(sig: PlacedSignature, x0: real, y0: real, w: real, h: real)
    requires w > 0.0 && h > 0.0
    ensures var b := StickerIn(sig, x0, y0, w, h);
            && (b.center.x - x0) / w == sig.cx
            && (b.center.y - y0) / h == sig.cy
            && b.width / w == sig.widthFrac
  {
    MulDivCancel(sig.cx, w);
    MulDivCancel(sig.cy, h);
    MulDivCancel(sig.widthFrac, w);
  }

  lemma MulDivCancel(a: real, w: real)
    requires w > 0.0
    ensures (a * w) / w == a
  {}

  /** The stickers of one page, in list order (later ones drawn on top). */
  function StickersIn(items: seq<PlacedSignature>, x0: real, y0: real, w: real, h: real): (r: seq<StickerBox>)
    ensures |r| == |items|
    ensures forall k :: 0 <= k < |items| ==> r[k] == StickerIn(items[k], x0, y0, w, h)
  {
    seq(|items|, k requires 0 <= k < |items| => StickerIn(items[k], x0, y0, w, h))
  }

  /** An A4 page: the image in its DrawRect, the stickers over the DrawRect. */
  function A4Page(image: Size, items: seq<PlacedSignature>): SignedPage
    requires image.width > 0.0 && image.height > 0.0
  {
    var d := DrawRect(image);
    SignedPage(PageBounds, d, StickersIn(items, d.MinX(), d.MinY(), d.Width(), d.Height()))
  }

  /** A native-size page: bounds and image are the image's size; stickers over it. */
  function NativePage(image: Size, items: seq<PlacedSignature>): SignedPage {
    SignedPage(RectOfSize(image), RectOfSize(image),
               StickersIn(items, 0.0, 0.0, image.width, image.height))
  }

  /**
    The A4 export: nothing for no images, otherwise page `i` draws image
    `i` in its DrawRect and carries the stickers of `placed[i] ?? []`
    placed over that rectangle.
   */
  function SignedPagesA4(images: seq<Size>, placed: Pages): (r: Option<seq<SignedPage>>)
    requires AllPositive(images)
    ensures r.None? <==> images == []
    ensures r.Some? ==> |r.value| == |images|
    ensures r.Some? ==> forall i :: 0 <= i < |images| ==>
              && r.value[i].bounds == PageBounds
              && r.value[i].drawRect == DrawRect(images[i])
              && r.value[i].drawRect.InsideOf(ContentRect())
              && var d := r.value[i].drawRect;
                 r.value[i].stickers == StickersIn(PageList(placed, i), d.MinX(), d.MinY(), d.Width(), d.Height())
  {
    if images == [] then None
    else Some(seq(|images|, i requires 0 <= i < |images| && images[i].width > 0.0 && images[i].height > 0.0 =>
                  DrawRectInsideContent(images[i]);
                  A4Page(images[i], PageList(placed, i))))
  }

  /**
    The native-size export: nothing for no images, otherwise one page per
    image, of the image's size, with the stickers of `placed[i] ?? []`
    placed over the whole page.
   */
  function SignedPagesNative(images: seq<Size>, placed: Pages): (r: Option<seq<SignedPage>>)
    ensures r.None? <==> images == []
    ensures r.Some? ==> |r.value| == |images|
    ensures r.Some? ==> forall i :: 0 <= i < |images| ==>
              && r.value[i].bounds == RectOfSize(images[i])
              && r.value[i].drawRect == r.value[i].bounds
              && r.value[i].stickers == StickersIn(PageList(placed, i), 0.0, 0.0, images[i].width, images[i].height)
  {
    if images == [] then None
    else Some(seq(|images|, i requires 0 <= i < |images| => NativePage(images[i], PageList(placed, i))))
  }

  /**
    The export agrees with the stored frame: for the on-screen fit
    rectangle `fit` and the page's draw rectangle `d`, the sticker's
    centre sits at the same fractions of each and its width is the same
    fraction of each rectangle's width. The box the view shows is the
    stored frame at the shown scale, which is 1 only under the conditions
    of AtRestShowsStored; ShownDiffersFromExport is a case where it is not.
   */
  lemma ExportMatchesScreen(sig: PlacedSignature, fit: Rect, d: Rect)
    requires fit.Width() > 0.0 && fit.Height() > 0.0 && d.Width() > 0.0 && d.Height() > 0.0
    requires sig.image.height == 0.0 || sig.image.width != 0.0
    ensures var b := StickerIn(sig, d.MinX(), d.MinY(), d.Width(), d.Height());
            var f := StickerFrame(sig, fit);
            && ToNormalized(b.center, d) == ToNormalized(f.center, fit) == Point(sig.cx, sig.cy)
            && b.width / d.Width() == f.baseW / fit.Width() == sig.widthFrac
  {
    StickerInFractions(sig, d.MinX(), d.MinY(), d.Width(), d.Height());
    NormalizedRoundTrip(Point(sig.cx, sig.cy), fit);
    MulDivCancel(sig.widthFrac, fit.Width());
  }

  /**
    The view and the export can disagree: a 10 by 100 signature added to a
    100-point square fit is stored at a width fraction of 0.32 (32 by 320
    points, hanging over the bottom edge), which the export draws, but the
    view shows it at the MinFrac floor, 12 points wide.
   */
  lemma ShownDiffersFromExport(d: Rect)
    requires d.Width() > 0.0 && d.Height() > 0.0
    ensures var fit := Rect(Point(0.0, 0.0), Size(100.0, 100.0));
            var p := NewPlacement(1, Size(10.0, 100.0));
            && ShownWidth(p, fit) / fit.Width() == 0.12
            && StickerIn(p, d.MinX(), d.MinY(), d.Width(), d.Height()).width / d.Width() == 0.32
  {
    var fit := Rect(Point(0.0, 0.0), Size(100.0, 100.0));
    var p := NewPlacement(1, Size(10.0, 100.0));
    WideIsShownAtFloor();
    WideStoredWidth();
    ScaledTo(StickerFrame(p, fit).baseW, ShownScale(p, fit), 32.0, 0.375);
    StickerInFractions(p, d.MinX(), d.MinY(), d.Width(), d.Height());
  }

  /** The added 10 by 100 signature is shown at 0.375 of its stored frame. */
  lemma WideIsShownAtFloor()
    ensures ShownScale(NewPlacement(1, Size(10.0, 100.0)), Rect(Point(0.0, 0.0), Size(100.0, 100.0))) == 0.375
  {
    var fit := Rect(Point(0.0, 0.0), Size(100.0, 100.0));
    assert StickerAspect(Size(10.0, 100.0)) == 10.0;
    assert StickerFrame(NewPlacement(1, Size(10.0, 100.0)), fit).center == Point(50.0, 85.0);
    assert MaxScaleByBounds(fit, Point(50.0, 85.0), 32.0, 10.0) == 0.09375;
  }

  lemma WideStoredWidth()
    ensures StickerFrame(NewPlacement(1, Size(10.0, 100.0)), Rect(Point(0.0, 0.0), Size(100.0, 100.0))).baseW == 32.0
  {}

  /**
    A placement whose box is inside the draw rectangle (with the export
    aspect) is drawn entirely inside it.
   */
  lemma ExportedStickerInside(sig: PlacedSignature, d: Rect)
    requires PlacementInside(sig.cx, sig.cy, sig.widthFrac, ExportAspect(sig.image), d)
    ensures var b := StickerIn(sig, d.MinX(), d.MinY(), d.Width(), d.Height());
            BoxInside(b.center, b.width / 2.0, b.height / 2.0, d)
  {
    Extents(d);
    AxisBox(d.MinX(), d.Width(), d.MaxX(), sig.cx, sig.widthFrac * d.Width() / 2.0);
    AxisBox(d.MinY(), d.Height(), d.MaxY(), sig.cy, sig.widthFrac * d.Width() * ExportAspect(sig.image) / 2.0);
  }

  lemma AxisBox(lo: real, k: real, hi: real, frac: real, half: real)
    requires hi == lo + k && AxisInside(lo, k, frac, half)
    ensures lo <= (lo + frac * k) - half && (lo + frac * k) + half <= hi
  {}

  /**
    A worked page: a 1000 x 1400 scan on A4 is drawn at (24, 38.1) with
    size 547 x 765.8, and a newly added signature is centred at
    (297.5, 689.03) there.
   */
  lemma DefaultPlacementOnA4()
    ensures DrawRect(Size(1000.0, 1400.0)) == Rect(Point(24.0, 38.1), Size(547.0, 765.8))
    ensures StickerIn(NewPlacement(0, Size(200.0, 100.0)), 24.0, 38.1, 547.0, 765.8)
              == StickerBox(Point(297.5, 689.03), 175.04, 87.52, 0.0)
  {
    var fit := AspectFit(Size(1000.0, 1400.0), ContentRect().size);
    ContentRectIs();
    assert Min(547.0 / 1000.0, 794.0 / 1400.0) == 0.547;
  }

  /** ISO-8601 text with every ':' turned into '-'. */
  function DashColons(s: string): (r: string)
    ensures |r| == |s|
    ensures ':' !in r
    ensures forall i :: 0 <= i < |s| && s[i] != ':' ==> r[i] == s[i]
    ensures forall i :: 0 <= i < |s| && s[i] == ':' ==> r[i] == '-'
  {
    seq(|s|, i requires 0 <= i < |s| => if s[i] == ':' then '-' else s[i])
  }

  /** "Signed-" + the timestamp with dashes for colons + ".pdf". */
  function SignedFileName(timestamp: string): (r: string)
    ensures |r| == |timestamp| + 11
    ensures r[..7] == "Signed-" && r[|r| - 4..] == ".pdf"
    ensures r[7..|r| - 4] == DashColons(timestamp)
    ensures ':' !in r
  {
    "Signed-" + DashColons(timestamp) + ".pdf"
  }
}
