/**
  The A4 page used by both PDF exports: a 595 x 842 point page, a 24 point
  margin on every side, and each page image aspect-fitted into what is
  left and drawn at the content rectangle's origin plus the fit offset.
 */
module PageLayout {
  import opened Geometry

  const PageA4 := Size(595.0, 842.0)
  const Margin := 24.0

  /** Every page image has positive sides (the A4 fit divides by them). */
  predicate AllPositive(images: seq<Size>) {
    forall i :: 0 <= i < |images| ==> images[i].width > 0.0 && images[i].height > 0.0
  }

  /** The page's bounds, at the origin. */
  const PageBounds := RectOfSize(PageA4)

  /** `pageBounds.insetBy(dx: margin, dy: margin)` for the standard A4 bounds. */
  function ContentRect(): (r: Rect)
    ensures r.IsStandard() && r.InsideOf(PageBounds)
    ensures r.MinX() - PageBounds.MinX() == Margin && PageBounds.MaxX() - r.MaxX() == Margin
    ensures r.MinY() - PageBounds.MinY() == Margin && PageBounds.MaxY() - r.MaxY() == Margin
  {
    Rect(Point(PageBounds.origin.x + Margin, PageBounds.origin.y + Margin),
         Size(PageBounds.size.width - 2.0 * Margin, PageBounds.size.height - 2.0 * Margin))
  }

  /** The content rectangle is 547 x 794 at (24, 24). */
  lemma ContentRectIs()
    ensures ContentRect() == Rect(Point(24.0, 24.0), Size(547.0, 794.0))
  {}

  /**
    Where a page image is drawn: the aspect-fit rectangle of the image in
    the content size, moved to the content rectangle's origin. The fit is
    the unguarded one, so the image's sides must be positive.
   */
  function DrawRect(image: Size): Rect
    requires image.width > 0.0 && image.height > 0.0
  {
    var content := ContentRect();
    var fit := AspectFit(image, content.size);
    Rect(Point(content.MinX() + fit.origin.x, content.MinY() + fit.origin.y),
         Size(fit.size.width, fit.size.height))
  }

  /**
    The drawn image lies inside the content rectangle, centred in it, keeps
    the image's aspect ratio and spans the content's full width or height.
   */
  lemma DrawRectInsideContent(image: Size)
    requires image.width > 0.0 && image.height > 0.0
    ensures var d := DrawRect(image);
            && d.IsStandard()
            && d.InsideOf(ContentRect())
            && d.Center() == ContentRect().Center()
            && d.size.width * image.height == d.size.height * image.width
            && (d.Width() == ContentRect().Width() || d.Height() == ContentRect().Height())
  {
    var fit := AspectFit(image, ContentRect().size);
    assert fit.IsStandard() && fit.InsideOf(RectOfSize(ContentRect().size));
  }

  /** The drawn image, hence the page content, never reaches the margin. */
  lemma DrawRectInsidePage(image: Size)
    requires image.width > 0.0 && image.height > 0.0
    ensures DrawRect(image).InsideOf(PageBounds)
    ensures PageBounds.MinX() + Margin <= DrawRect(image).MinX()
    ensures DrawRect(image).MaxX() <= PageBounds.MaxX() - Margin
  {
    DrawRectInsideContent(image);
  }
}
