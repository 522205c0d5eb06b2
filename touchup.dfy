/**
  The touch-up screen after background removal: the cut-out result, the
  working image the user draws or erases on, the pen and eraser tools,
  and the restore and rotate buttons. Pictures are abstract: a size and
  the list of edits that produced them from the original photo.
 */
module TouchUp {
  import opened Geometry
  import opened Wrappers
  import opened Strokes

  /** What was done to a picture, in order. */
  datatype Edit =
    | Cutout
    | TurnLeft
    | Line(from: Point, to: Point, lineWidth: real, erase: bool)

  datatype Picture = Picture(size: Size, edits: seq<Edit>)

  /** The background-removed version of a photo: same size. */
  function CutoutOf(image: Picture): Picture {
    Picture(image.size, image.edits + [Cutout])
  }

  /** Rotation by a quarter turn counter-clockwise: width and height swap. */
  function RotatedCCW(pic: Picture): (r: Picture)
    ensures r.size == Size(pic.size.height, pic.size.width)
  {
    Picture(Size(pic.size.height, pic.size.width), pic.edits + [TurnLeft])
  }

  /** A drawn or erased line segment: drawn into a canvas of the same size. */
  function WithLine(pic: Picture, from: Point, to: Point, lineWidth: real, erase: bool): (r: Picture)
    ensures r.size == pic.size
  {
    Picture(pic.size, pic.edits + [Line(from, to, lineWidth, erase)])
  }

  /** Two quarter turns give back the original width and height. */
  lemma RotateTwiceRestoresSize(pic: Picture)
    ensures RotatedCCW(RotatedCCW(pic)).size == pic.size
  {}

  /** The screen's state besides the original photo. */
  datatype TouchState = TouchState(
    processed: Option<Picture>,
    working: Option<Picture>,
    initialProcessed: Option<Picture>,
    isProcessing: bool,
    isDrawing: bool,
    isErasing: bool,
    lastImgPoint: Option<Point>,
    currentViewPoint: Option<Point>,
    slider: real)

  /** On appearance: still processing, nothing drawn, the slider at 0.6. */
  const Initial := TouchState(None, None, None, true, false, false, None, None, 0.6)

  /** The picture on screen and under the brush: working ?? processed ?? original. */
  function Shown(s: TouchState, image: Picture): Picture {
    s.working.GetOr(s.processed.GetOr(image))
  }

  /**
    The background removal finishing. On success the cut-out becomes the
    processed image and, the first time only, the image Restore returns
    to; either way processing ends.
   */
  function CutoutDone(s: TouchState, image: Picture, ok: bool): TouchState {
    if !ok then s.(isProcessing := false)
    else
      var result := CutoutOf(image);
      s.(processed := Some(result),
         initialProcessed := if s.initialProcessed.None? then Some(result) else s.initialProcessed,
         isProcessing := false)
  }

  /** The working image is created lazily from processed ?? original. */
  function WithWorking(s: TouchState, image: Picture): TouchState {
    if s.working.None? then s.(working := Some(s.processed.GetOr(image))) else s
  }

  /** On appearance and on a change of `processed`: create it once there is something to show. */
  function WithWorkingIfReady(s: TouchState, image: Picture): TouchState {
    if s.working.None? && (s.processed.Some? || !s.isProcessing)
    then s.(working := Some(s.processed.GetOr(image)))
    else s
  }

  function PenChosen(s: TouchState): TouchState {
    s.(isDrawing := true, isErasing := false)
  }

  function EraserChosen(s: TouchState): TouchState {
    s.(isErasing := true, isDrawing := false)
  }

  /** Restore: back to the first cut-out (or the photo), tools off. */
  function Restored(s: TouchState, image: Picture): TouchState {
    s.(processed := s.initialProcessed,
       working := Some(s.initialProcessed.GetOr(image)),
       isDrawing := false, isErasing := false,
       lastImgPoint := None, currentViewPoint := None)
  }

  /** Rotate: the shown picture turned left becomes both processed and working, tools off. */
  function Rotated(s: TouchState, image: Picture): TouchState {
    var turned := RotatedCCW(Shown(s, image));
    s.(processed := Some(turned), working := Some(turned),
       lastImgPoint := None, currentViewPoint := None,
       isDrawing := false, isErasing := false)
  }

  /**
    A finger moving at `location` over the picture shown in `fit`. With
    a tool on and the touch over the picture, a segment from the last
    image point (or this one, on the first touch) to this one is drawn
    or erased on the working image at the slider's brush width.
   */
  function Dragged(s: TouchState, image: Picture, location: Point, fit: Rect): TouchState {
    var s1 := s.(currentViewPoint := Some(location));
    if !(s1.isDrawing || s1.isErasing) then s1
    else
      var s2 := WithWorking(s1, image);
      var base := Shown(s2, image);
      match ViewToImage(location, fit, base.size)
      case None => s2
      case Some(p) =>
        var from := s2.lastImgPoint.GetOr(p);
        var canvas := s2.working.GetOr(base);
        s2.(working := Some(WithLine(canvas, from, p, BrushWidth(s2.slider), s2.isErasing)),
            lastImgPoint := Some(p))
  }

  /** Lifting the finger ends the segment chain. */
  function DragEnded(s: TouchState): TouchState {
    s.(lastImgPoint := None, currentViewPoint := None)
  }

  /** The slider dragged at `touchX` on a track of width `trackW`. */
  function SliderMoved(s: TouchState, touchX: real, trackW: real): TouchState
    requires trackW != 2.0 * (SliderPad + KnobRadius)
  {
    s.(slider := ValueAt(touchX, trackW))
  }

  /** The picture the save button trims and hands on: none while processing. */
  function ToSave(s: TouchState, image: Picture): (r: Option<Picture>)
    ensures r.None? <==> s.isProcessing
    ensures r.Some? ==> r.value == Shown(s, image)
  {
    if s.isProcessing then None else Some(Shown(s, image))
  }

  /** Restoring twice is restoring once. */
  lemma RestoreIdempotent(s: TouchState, image: Picture)
    ensures Restored(Restored(s, image), image) == Restored(s, image)
  {}

  /** After Restore the first cut-out (or the photo) is shown, with no tool on. */
  lemma RestoreShowsFirstCutout(s: TouchState, image: Picture)
    ensures Shown(Restored(s, image), image) == s.initialProcessed.GetOr(image)
    ensures !Restored(s, image).isDrawing && !Restored(s, image).isErasing
    ensures Restored(s, image).initialProcessed == s.initialProcessed
  {}

  /** Rotating twice shows a picture of the original dimensions, in both slots. */
  lemma RotateTwiceRestoresDimensions(s: TouchState, image: Picture)
    ensures var r := Rotated(Rotated(s, image), image);
            && r.processed == r.working
            && Shown(r, image).size == Shown(s, image).size
  {
    RotateTwiceRestoresSize(Shown(s, image));
  }

  /** The first successful cut-out is kept for Restore; later ones do not replace it. */
  lemma InitialCutoutWrittenOnce(s: TouchState, image: Picture, ok: bool)
    ensures s.initialProcessed.Some? ==> CutoutDone(s, image, ok).initialProcessed == s.initialProcessed
    ensures s.initialProcessed.None? && ok ==> CutoutDone(s, image, ok).initialProcessed == Some(CutoutOf(image))
    ensures !ok ==> CutoutDone(s, image, ok).initialProcessed == s.initialProcessed
  {}

  /** Drawing never changes the size of the shown picture. */
  lemma DragKeepsShownSize(s: TouchState, image: Picture, location: Point, fit: Rect)
    ensures Shown(Dragged(s, image, location, fit), image).size == Shown(s, image).size
  {}

  /** With neither tool on, a drag only records the touch. */
  lemma DragWithoutToolDrawsNothing(s: TouchState, image: Picture, location: Point, fit: Rect)
    requires !s.isDrawing && !s.isErasing
    ensures Dragged(s, image, location, fit) == s.(currentViewPoint := Some(location))
  {}

  /** A touch off the picture draws nothing and leaves the segment chain alone. */
  lemma DragOffPictureDrawsNothing(s: TouchState, image: Picture, location: Point, fit: Rect)
    requires ViewToImage(location, fit, Shown(s, image).size).None?
    ensures Dragged(s, image, location, fit).lastImgPoint == s.lastImgPoint
    ensures Shown(Dragged(s, image, location, fit), image) == Shown(s, image)
  {}

  /** Pen and eraser are never on together. */
  predicate OneTool(s: TouchState) {
    !(s.isDrawing && s.isErasing)
  }

  /** Every action keeps at most one tool on. */
  lemma ActionsKeepOneTool(s: TouchState, image: Picture, ok: bool, location: Point, fit: Rect)
    requires OneTool(s)
    ensures OneTool(Initial)
    ensures OneTool(PenChosen(s)) && OneTool(EraserChosen(s))
    ensures OneTool(Restored(s, image)) && OneTool(Rotated(s, image))
    ensures OneTool(CutoutDone(s, image, ok)) && OneTool(Dragged(s, image, location, fit))
    ensures OneTool(WithWorkingIfReady(s, image)) && OneTool(DragEnded(s))
  {}

  /** The screen as an object whose fields the buttons and gestures update. */
  class TouchUpSession {
    const image: Picture
    var processed: Option<Picture>
    var working: Option<Picture>
    var initialProcessed: Option<Picture>
    var isProcessing: bool
    var isDrawing: bool
    var isErasing: bool
    var lastImgPoint: Option<Point>
    var currentViewPoint: Option<Point>
    var slider: real

    function State(): TouchState
      reads this
    {
      TouchState(processed, working, initialProcessed, isProcessing, isDrawing, isErasing,
                 lastImgPoint, currentViewPoint, slider)
    }

    constructor (photo: Picture)
      ensures image == photo && State() == Initial
    {
      image := photo;
      processed, working, initialProcessed := None, None, None;
      isProcessing, isDrawing, isErasing := true, false, false;
      lastImgPoint, currentViewPoint := None, None;
      slider := 0.6;
    }

    method FinishCutout(ok: bool)
      modifies this
      ensures State() == CutoutDone(old(State()), image, ok)
    {
      if !ok {
        isProcessing := false;
        return;
      }
      var result := CutoutOf(image);
      processed := Some(result);
      if initialProcessed == None { initialProcessed := Some(result); }
      isProcessing := false;
    }

    method EnsureWorkingImageIfReady()
      modifies this
      ensures State() == WithWorkingIfReady(old(State()), image)
    {
      if working == None && (processed != None || !isProcessing) {
        working := Some(processed.GetOr(image));
      }
    }

    method EnsureWorkingImage()
      modifies this
      ensures State() == WithWorking(old(State()), image)
    {
      if working == None { working := Some(processed.GetOr(image)); }
    }

    method ChoosePen()
      modifies this
      ensures State() == PenChosen(old(State()))
    {
      isDrawing := true;
      isErasing := false;
    }

    method ChooseEraser()
      modifies this
      ensures State() == EraserChosen(old(State()))
    {
      isErasing := true;
      isDrawing := false;
    }

    method Restore()
      modifies this
      ensures State() == Restored(old(State()), image)
    {
      var base := initialProcessed.GetOr(image);
      processed := initialProcessed;
      working := Some(base);
      isDrawing := false;
      isErasing := false;
      lastImgPoint := None;
      currentViewPoint := None;
    }

    method Rotate()
      modifies this
      ensures State() == Rotated(old(State()), image)
    {
      var base := working.GetOr(processed.GetOr(image));
      var turned := RotatedCCW(base);
      processed := Some(turned);
      working := Some(turned);
      lastImgPoint := None;
      currentViewPoint := None;
      isDrawing := false;
      isErasing := false;
    }

    method DragChanged(location: Point, fit: Rect)
      modifies this
      ensures State() == Dragged(old(State()), image, location, fit)
    {
      currentViewPoint := Some(location);
      if !(isDrawing || isErasing) { return; }
      EnsureWorkingImage();
      var base := working.GetOr(processed.GetOr(image));
      var p := ViewToImage(location, fit, base.size);
      if p.None? { return; }
      var lw := BrushWidth(slider);
      if lastImgPoint == None { lastImgPoint := p; }
      var canvas := working.GetOr(base);
      working := Some(WithLine(canvas, lastImgPoint.value, p.value, lw, isErasing));
      lastImgPoint := p;
    }

    method DragFinished()
      modifies this
      ensures State() == DragEnded(old(State()))
    {
      lastImgPoint := None;
      currentViewPoint := None;
    }

    method MoveSlider(touchX: real, trackW: real)
      requires trackW != 2.0 * (SliderPad + KnobRadius)
      modifies this
      ensures State() == SliderMoved(old(State()), touchX, trackW)
    {
      slider := ValueAt(touchX, trackW);
    }
  }
}
