/**
  The crop screen's state and its gestures: dragging the crop rectangle,
  pinching it, dragging one of its handles, swiping between pages, and
  the Continue button that crops the page last shown. `fit` is where the
  current page is drawn in the view, recomputed on every layout pass;
  it is passed to each gesture.
 */
module CropSession {
  import opened Geometry
  import opened Wrappers
  import opened CropEditor

  /** A horizontal swipe must travel further than this to change page. */
  const SwipeDistance := 60.0

  datatype CropState = CropState(
    cropRect: Rect,
    dragStartRect: Rect,
    pinchStartRect: Rect,
    pinchStartCenter: Point,
    currentIndex: int,
    lastFit: Rect,
    lastIndex: Option<int>)

  const Initial := CropState(Zero, Zero, Zero, Point(0.0, 0.0), 0, Zero, None)

  /** The page drawn: the index clamped to the pages. */
  function ShownIndex(index: int, count: nat): int {
    var lo := if index < 0 then 0 else index;
    if lo < count - 1 then lo else count - 1
  }

  /** Each gesture's end: the next drag, pinch and handle drag start from here. */
  function Settled(s: CropState): CropState {
    s.(dragStartRect := s.cropRect, pinchStartRect := s.cropRect, pinchStartCenter := s.cropRect.Center())
  }

  /** A fresh crop rectangle for the page, and every gesture starts from it. */
  function Reset(s: CropState, fit: Rect): CropState {
    Settled(s.(cropRect := CenteredCrop(fit)))
  }

  /** The first appearance puts up the 80% rectangle; every appearance notes the page shown. */
  function Appeared(s: CropState, fit: Rect, count: nat): CropState {
    var s1 := if s.cropRect == Zero then Reset(s, fit) else s;
    s1.(lastFit := fit, lastIndex := Some(ShownIndex(s.currentIndex, count)))
  }

  /** `offsetBy(dx:dy:)`. */
  function Offset(r: Rect, t: Size): Rect {
    Rect(Point(r.origin.x + t.width, r.origin.y + t.height), r.size)
  }

  /** Moving the whole rectangle: the start rectangle shifted, then clamped into the picture. */
  function DragMoved(s: CropState, t: Size, fit: Rect): CropState {
    s.(cropRect := ClampRect(Offset(s.dragStartRect, t), fit))
  }

  /** Pinching: scaled about the start centre, at least MinCropSize, then clamped. */
  function Pinched(s: CropState, scale: real, fit: Rect): CropState {
    s.(cropRect := ClampRect(ClampSize(ScaledRect(s.pinchStartRect, scale, s.pinchStartCenter), MinCropSize), fit))
  }

  /** The end of a pinch only resets the pinch's start. */
  function PinchDone(s: CropState): CropState {
    s.(pinchStartRect := s.cropRect, pinchStartCenter := s.cropRect.Center())
  }

  /** Dragging a handle: the start rectangle resized, at least MinCropSize, then clamped. */
  function HandleMoved(s: CropState, h: Handle, t: Size, fit: Rect): CropState {
    s.(cropRect := ClampRect(ClampSize(Resize(s.dragStartRect, t, h), MinCropSize), fit))
  }

  /**
    A finished horizontal swipe: with more than one page and a swipe
    longer than SwipeDistance, a left swipe goes to the next page and a
    right swipe to the previous one, stopping at the ends; the crop
    rectangle is reset, and the page noted is the one shown before.
   */
  function Swiped(s: CropState, dx: real, fit: Rect, count: nat): CropState {
    if count <= 1 then s
    else if Abs(dx) <= SwipeDistance then s
    else
      var shown := ShownIndex(s.currentIndex, count);
      var next := if dx < 0.0 then (if s.currentIndex + 1 < count - 1 then s.currentIndex + 1 else count - 1)
                  else (if s.currentIndex - 1 > 0 then s.currentIndex - 1 else 0);
      Reset(s.(currentIndex := next), fit).(lastFit := fit, lastIndex := Some(shown))
  }

  /** After the page index changes the new page is noted. */
  function IndexNoted(s: CropState, fit: Rect, count: nat): CropState {
    s.(lastFit := fit, lastIndex := Some(ShownIndex(s.currentIndex, count)))
  }

  /** After the crop rectangle changes the picture's place is noted. */
  function CropNoted(s: CropState, fit: Rect): CropState {
    s.(lastFit := fit)
  }

  /** Continue: the noted page cropped to the rectangle, if a page was noted and the crop is big enough. */
  function ContinueCrop(s: CropState, pages: seq<Size>): Option<PixelBox>
    requires forall i :: 0 <= i < |pages| ==> pages[i].width > 0.0 && pages[i].height > 0.0
    requires s.lastIndex.Some? ==> 0 <= s.lastIndex.value < |pages|
  {
    match s.lastIndex
    case None => None
    case Some(i) => CropInImage(pages[i], s.lastFit, s.cropRect)
  }

  /** The three rectangles are stored with non-negative sizes. */
  predicate Standard(s: CropState) {
    s.cropRect.IsStandard() && s.dragStartRect.IsStandard() && s.pinchStartRect.IsStandard()
  }

  /**
    After every move of a gesture the crop rectangle lies inside the
    picture, provided the start rectangles are standard (which every
    action keeps, see ActionsKeepStandard).
   */
  lemma GesturesStayInsideFit(s: CropState, fit: Rect, t: Size, scale: real, h: Handle)
    requires Standard(s)
    ensures DragMoved(s, t, fit).cropRect.InsideOf(fit)
    ensures Pinched(s, scale, fit).cropRect.InsideOf(fit)
    ensures HandleMoved(s, h, t, fit).cropRect.InsideOf(fit)
  {
    ClampRectInside(Offset(s.dragStartRect, t), fit);
    ClampRectInside(ClampSize(ScaledRect(s.pinchStartRect, scale, s.pinchStartCenter), MinCropSize), fit);
    ClampRectInside(ClampSize(Resize(s.dragStartRect, t, h), MinCropSize), fit);
  }

  /**
    The picture's size wins over the minimum crop size: a pinch leaves
    each side at the scaled side floored at MinCropSize, but never more
    than the picture's side.
   */
  lemma PinchSides(s: CropState, scale: real, fit: Rect)
    ensures var c := Pinched(s, scale, fit).cropRect;
            && c.Width() == Min(Max(s.pinchStartRect.Width() * scale, MinCropSize), fit.Width())
            && c.Height() == Min(Max(s.pinchStartRect.Height() * scale, MinCropSize), fit.Height())
  {
    var sc := ScaledRect(s.pinchStartRect, scale, s.pinchStartCenter);
    ScaledRectAbout(s.pinchStartRect, scale, s.pinchStartCenter);
    ClampSizeSides(sc, MinCropSize);
    ClampRectInside(ClampSize(sc, MinCropSize), fit);
  }

  /** A handle drag leaves each side at least MinCropSize, unless the picture is smaller. */
  lemma HandleSides(s: CropState, h: Handle, t: Size, fit: Rect)
    ensures var c := HandleMoved(s, h, t, fit).cropRect;
            && c.Width() == Min(Max(Resize(s.dragStartRect, t, h).Width(), MinCropSize), fit.Width())
            && c.Height() == Min(Max(Resize(s.dragStartRect, t, h).Height(), MinCropSize), fit.Height())
  {
    ClampSizeSides(Resize(s.dragStartRect, t, h), MinCropSize);
    ClampRectInside(ClampSize(Resize(s.dragStartRect, t, h), MinCropSize), fit);
  }

  /** Every action keeps the stored rectangles standard. */
  lemma ActionsKeepStandard(s: CropState, fit: Rect, count: nat, t: Size, scale: real, h: Handle, dx: real)
    requires Standard(s)
    ensures Standard(Initial)
    ensures Standard(Appeared(s, fit, count)) && Standard(Swiped(s, dx, fit, count))
    ensures Standard(DragMoved(s, t, fit)) && Standard(Pinched(s, scale, fit)) && Standard(HandleMoved(s, h, t, fit))
    ensures Standard(Settled(s)) && Standard(PinchDone(s))
    ensures Standard(IndexNoted(s, fit, count)) && Standard(CropNoted(s, fit))
  {
    CenteredCropInside(fit);
    GesturesStayInsideFit(s, fit, t, scale, h);
    ClampRectInside(Offset(s.dragStartRect, t), fit);
    ClampRectInside(ClampSize(ScaledRect(s.pinchStartRect, scale, s.pinchStartCenter), MinCropSize), fit);
    ClampRectInside(ClampSize(Resize(s.dragStartRect, t, h), MinCropSize), fit);
  }

  /**
    Swiping moves at most one page, stays on the pages, happens only with
    several pages and a long enough swipe, and then starts the new page
    with the centred 80% rectangle.
   */
  lemma SwipeMovesOnePage(s: CropState, dx: real, fit: Rect, count: nat)
    requires 0 <= s.currentIndex < count
    ensures var r := Swiped(s, dx, fit, count);
            && 0 <= r.currentIndex < count
            && -1 <= r.currentIndex - s.currentIndex <= 1
            && (count <= 1 || Abs(dx) <= SwipeDistance ==> r == s)
            && (count > 1 && Abs(dx) > SwipeDistance ==>
                  && r.cropRect == CenteredCrop(fit)
                  && (dx < 0.0 <==> r.currentIndex == s.currentIndex + 1 || r.currentIndex == count - 1 == s.currentIndex)
                  && r.lastIndex == Some(s.currentIndex))
  {}

  /** The crop screen as an object whose fields the gestures update. */
  class CropScreen {
    const pages: seq<Size>
    var cropRect: Rect
    var dragStartRect: Rect
    var pinchStartRect: Rect
    var pinchStartCenter: Point
    var currentIndex: int
    var lastFit: Rect
    var lastIndex: Option<int>

    function State(): CropState
      reads this
    {
      CropState(cropRect, dragStartRect, pinchStartRect, pinchStartCenter, currentIndex, lastFit, lastIndex)
    }

    /** The pages have positive sizes, the index is on them, the rectangles are standard. */
    predicate Valid()
      reads this
    {
      && |pages| >= 1
      && (forall i :: 0 <= i < |pages| ==> pages[i].width > 0.0 && pages[i].height > 0.0)
      && 0 <= currentIndex < |pages|
      && (lastIndex.Some? ==> 0 <= lastIndex.value < |pages|)
      && Standard(State())
    }

    constructor (sizes: seq<Size>)
      requires |sizes| >= 1 && forall i :: 0 <= i < |sizes| ==> sizes[i].width > 0.0 && sizes[i].height > 0.0
      ensures pages == sizes && State() == Initial && Valid()
    {
      pages := sizes;
      cropRect, dragStartRect, pinchStartRect := Zero, Zero, Zero;
      pinchStartCenter := Point(0.0, 0.0);
      currentIndex := 0;
      lastFit, lastIndex := Zero, None;
    }

    method Appear(fit: Rect)
      requires Valid()
      modifies this
      ensures State() == Appeared(old(State()), fit, |pages|) && Valid()
    {
      if cropRect == Zero {
        cropRect := CenteredCrop(fit);
        CenteredCropInside(fit);
        dragStartRect := cropRect;
        pinchStartRect := cropRect;
        pinchStartCenter := cropRect.Center();
      }
      lastFit := fit;
      lastIndex := Some(ShownIndex(currentIndex, |pages|));
    }

    method DragChanged(t: Size, fit: Rect)
      requires Valid()
      modifies this
      ensures State() == DragMoved(old(State()), t, fit) && Valid()
      ensures cropRect.InsideOf(fit)
    {
      var r := Offset(dragStartRect, t);
      ClampRectInside(r, fit);
      r := ClampRect(r, fit);
      cropRect := r;
    }

    /** The end of a drag or of a handle drag. */
    method GestureEnded()
      requires Valid()
      modifies this
      ensures State() == Settled(old(State())) && Valid()
    {
      dragStartRect := cropRect;
      pinchStartRect := cropRect;
      pinchStartCenter := cropRect.Center();
    }

    method PinchChanged(scale: real, fit: Rect)
      requires Valid()
      modifies this
      ensures State() == Pinched(old(State()), scale, fit) && Valid()
      ensures cropRect.InsideOf(fit)
    {
      var r := ScaledRect(pinchStartRect, scale, pinchStartCenter);
      r := ClampSize(r, MinCropSize);
      ClampRectInside(r, fit);
      r := ClampRect(r, fit);
      cropRect := r;
    }

    method PinchEnded()
      requires Valid()
      modifies this
      ensures State() == PinchDone(old(State())) && Valid()
    {
      pinchStartRect := cropRect;
      pinchStartCenter := cropRect.Center();
    }

    method HandleChanged(h: Handle, t: Size, fit: Rect)
      requires Valid()
      modifies this
      ensures State() == HandleMoved(old(State()), h, t, fit) && Valid()
      ensures cropRect.InsideOf(fit)
    {
      var r := Resize(dragStartRect, t, h);
      r := ClampSize(r, MinCropSize);
      ClampRectInside(r, fit);
      r := ClampRect(r, fit);
      cropRect := r;
    }

    method SwipeEnded(dx: real, fit: Rect)
      requires Valid()
      modifies this
      ensures State() == Swiped(old(State()), dx, fit, |pages|) && Valid()
    {
      if |pages| <= 1 { return; }
      if Abs(dx) > SwipeDistance {
        var shown := ShownIndex(currentIndex, |pages|);
        if dx < 0.0 {
          currentIndex := if currentIndex + 1 < |pages| - 1 then currentIndex + 1 else |pages| - 1;
        } else {
          currentIndex := if currentIndex - 1 > 0 then currentIndex - 1 else 0;
        }
        cropRect := CenteredCrop(fit);
        CenteredCropInside(fit);
        dragStartRect := cropRect;
        pinchStartRect := cropRect;
        pinchStartCenter := cropRect.Center();
        lastFit := fit;
        lastIndex := Some(shown);
      }
    }

    method CurrentIndexChanged(fit: Rect)
      requires Valid()
      modifies this
      ensures State() == IndexNoted(old(State()), fit, |pages|) && Valid()
    {
      lastFit := fit;
      lastIndex := Some(ShownIndex(currentIndex, |pages|));
    }

    method CropRectChanged(fit: Rect)
      requires Valid()
      modifies this
      ensures State() == CropNoted(old(State()), fit) && Valid()
    {
      lastFit := fit;
    }

    /** The Continue button: the crop handed on, if any. */
    method Continue() returns (r: Option<PixelBox>)
      requires Valid()
      ensures r == ContinueCrop(State(), pages)
      ensures r.Some? ==> r.value.width > 1 && r.value.height > 1
    {
      if lastIndex.None? { return None; }
      r := CropInImage(pages[lastIndex.value], lastFit, cropRect);
    }
  }
}
