/**
  The scanned-document export: every scanned page image becomes one PDF
  page, either on an A4 page with a margin or on a page of the image's own
  size. Only the page geometry is modelled; the images are their sizes.
 */
module ScanExport {
  import opened Geometry
  import opened Wrappers
  import opened PageLayout

  /** One output page: its bounds and where the image is drawn on it. */
  datatype ScanPage = ScanPage(bounds: Rect, drawRect: Rect)

  /**
    The A4 layout: no document for no images, otherwise one A4 page per
    image with the image drawn in its DrawRect.
   */
  function ScanPagesA4(images: seq<Size>): (r: Option<seq<ScanPage>>)
    requires AllPositive(images)
    ensures r.None? <==> images == []
    ensures r.Some? ==> |r.value| == |images|
    ensures r.Some? ==> forall i :: 0 <= i < |images| ==>
              r.value[i].bounds == PageBounds && r.value[i].drawRect.InsideOf(ContentRect())
  {
    if images == [] then None
    else Some(A4Pages(images))
  }

  function A4Pages(images: seq<Size>): (r: seq<ScanPage>)
    requires AllPositive(images)
    ensures |r| == |images|
    ensures forall i :: 0 <= i < |images| ==> r[i] == ScanPage(PageBounds, DrawRect(images[i]))
    ensures forall i :: 0 <= i < |images| ==> r[i].drawRect.InsideOf(ContentRect())
  {
    if images == [] then []
    else
      DrawRectInsideContent(images[0]);
      [ScanPage(PageBounds, DrawRect(images[0]))] + A4Pages(images[1..])
  }

  /**
    The native-size layout: no document for no images, otherwise one page
    per image whose bounds are the image's size, the image filling it.
   */
  function ScanPagesNative(images: seq<Size>): (r: Option<seq<ScanPage>>)
    ensures r.None? <==> images == []
    ensures r.Some? ==> |r.value| == |images|
    ensures r.Some? ==> forall i :: 0 <= i < |images| ==>
              r.value[i].bounds.size == images[i] && r.value[i].drawRect == r.value[i].bounds
  {
    if images == [] then None
    else Some(seq(|images|, i requires 0 <= i < |images| => ScanPage(RectOfSize(images[i]), RectOfSize(images[i]))))
  }

  /** Swift's `prefix(n)`: at most the first `n` characters. */
  function Prefix(s: string, n: nat): (r: string)
    ensures |r| == if |s| < n then |s| else n
    ensures r <= s
  {
    if |s| < n then s else s[..n]
  }

  /** "Scan-" + the first six characters of a fresh UUID string + ".pdf". */
  function ScanFileName(uuid: string): (r: string)
    ensures |r| == 9 + (if |uuid| < 6 then |uuid| else 6)
    ensures r[..5] == "Scan-" && r[|r| - 4..] == ".pdf"
    ensures r[5..|r| - 4] <= uuid
  {
    "Scan-" + Prefix(uuid, 6) + ".pdf"
  }
}
