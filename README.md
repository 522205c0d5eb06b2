# signdoc core, modelled in Dafny

signdoc is an iOS app for scanning documents and signing them. The user:
- scans pages, or signs pages of a document;
- draws or photographs a signature;
- crops the signature, removes its background and touches it up;
- keeps it in a gallery;
- places copies of it on the pages as stickers that can be dragged, pinched and resized;
- exports the result as a PDF.

This project models the logic beneath those screens:

| module | what it models |
|---|---|
| `Placement` | the signing screen's placement state: per-page lists of placed signatures and one selected id, with the add, update, select and delete edits |
| `StickerGestures` | what a sticker's drag, pinch and corner-handle gestures commit to its placement, including the width bound that keeps a sticker inside the page |
| `PageLayout`, `ScanExport`, `SignedExport` | the PDF page geometry of the scanned-document and signed-document exports (A4 with a 24-point margin, or native size) and the output file names |
| `SignatureFiles` | listing the saved signature files (PNG filter, date fallback, newest first) and the thumbnail scale factor |
| `Gallery` | the gallery's selection set and deletion |
| `TrimEdges` | the scan of an RGBA buffer for the bounding box of the visible pixels |
| `Strokes` | the touch-to-image mapping, the brush width, the row of dabs that draws one stroke segment, and the slider mapping |
| `TouchUp` | the touch-up screen's state: cut-out, working image, pen and eraser, restore, rotate |
| `CropEditor` | the crop rectangle helpers (clamp, minimum size, scaling, handle resizing) and the mapping of a crop in the view onto image pixels |
| `CropSession` | the crop screen's gesture pipelines, page swiping and the Continue button |
| `Geometry`, `Wrappers` | shared CoreGraphics-like values and `Option` |

Modelling conventions:
- `CGFloat` is `real`, and Core Graphics rectangles keep their raw origin and size.
- `minX`, `maxX`, `width` and the other accessors are standardized, as Core Graphics standardizes them.
- Images are their sizes, or for the touch-up screen their sizes plus the list of edits applied to them.
- File listings are given as values, one entry per file.
- Where the source has state that its closures or buttons update, the model is a class. Each method's `ensures` ties the new state to a function of the old one, and the lemmas state what those functions promise.

## Model

| member | source | states |
|---|---|---|
| Geometry.Clamp | SignApp/Ui/Doc/SignView.swift:691-693 | `max(lo, min(v, hi))`: the result is at least lo and, when lo ≤ hi, at most hi. A value inside [lo, hi] is kept, a value above hi gives hi, and crossed bounds give lo. The below-range case is stated by `ClampIsNearest`. |
| Geometry.ClampIsNearest | SignApp/Ui/Doc/SignView.swift:691-693 | A value below lo gives lo, whatever hi is. For lo ≤ hi the clamp is the point of [lo, hi] nearest to v. |
| Geometry.AspectFit | SignApp/Ui/Doc/SignView.swift:695-705 | The unguarded fit (also at SignApp/Ui/Doc/EditDocView.swift:223-235). It keeps the image's aspect ratio, is centred in the container and spans its width or height. For a non-negative container it is standard and inside the container. |
| Geometry.AspectFitGuarded | SignApp/Ui/Sign/RemoveBgView.swift:600-616 | The zero rectangle when any side is ≤ 0. Otherwise the fit is centred, inside, keeps the aspect, spans one side and has a positive area (also SignApp/Ui/Sign/CropView.swift:259-277). |
| Geometry.NormalizedRoundTrip | SignApp/Ui/Doc/SignView.swift:780-781 | Turning stored fractions into view coordinates and back gives the fractions exactly. |
| Geometry.AbsoluteRoundTrip | SignApp/Ui/Doc/SignView.swift:877-878 | Turning a view point into fractions and back gives the point. |
| Geometry.NormalizedInside | SignApp/Ui/Doc/SignView.swift:877-878 | Fractions lie in [0,1] exactly when their absolute point lies in the closed fit rectangle. |
| Placement.FirstIndexOf | SignApp/Ui/Doc/SignView.swift:205-209 | `firstIndex(where:)`: the index holds the id and no earlier entry does. None exactly when the id is absent. |
| Placement.RemoveId | SignApp/Ui/Doc/SignView.swift:236-238 | `removeAll`: the survivors are exactly the entries without the id, and the list never grows. |
| Placement.SignSession.constructor | SignApp/Ui/Doc/SignView.swift:93-94 | Starts with no placements and no selection. |
| Placement.SignSession.Add | SignApp/Ui/Doc/SignView.swift:294-305 | The new state is `Added` of the old one. |
| Placement.SignSession.Update | SignApp/Ui/Doc/SignView.swift:204-212 | The new state is `Updated` of the old one. |
| Placement.SignSession.Select | SignApp/Ui/Doc/SignView.swift:214-231 | The new state is `Toggled` of the old one. The flag-rewriting loop is proved against `Flagged`. |
| Placement.SignSession.Delete | SignApp/Ui/Doc/SignView.swift:233-243 | The new state is `Deleted` of the old one. |
| Placement.EditsArePageLocal | SignApp/Ui/Doc/SignView.swift:204-243 | Add, update, select and delete leave every other page's list unchanged. |
| Placement.AddAppendsOne | SignApp/Ui/Doc/SignView.swift:294-305 | Add appends exactly one entry and keeps the earlier ones. The new entry has cx 0.5, cy 0.85, widthFrac 0.32 and its flag set, and its id becomes the selection. |
| Placement.AddKeepsEarlierFlags | SignApp/Ui/Doc/SignView.swift:294-305 | After two adds, both entries carry `isSelected`. Only `selectedID` is exclusive. |
| Placement.UpdateReplacesFirstMatch | SignApp/Ui/Doc/SignView.swift:204-212 | Update keeps the length and the selection. With an absent id it is a no-op. Otherwise it replaces exactly the first entry with that id. |
| Placement.SelectToggles | SignApp/Ui/Doc/SignView.swift:214-231 | Tapping the selected id clears the selection and every flag on the page. Tapping another id selects it and flags only its first entry. Other fields are kept, and a page without the id is unchanged. |
| Placement.SelectLeavesAtMostOneFlag | SignApp/Ui/Doc/SignView.swift:226-230 | After a tap, at most one entry on the page is flagged. |
| Placement.DeleteRemovesId | SignApp/Ui/Doc/SignView.swift:233-243 | No entry with the id remains, the others all remain, and the selection is cleared only if it pointed at the id. |
| Placement.RemoveIdAppend | SignApp/Ui/Doc/SignView.swift:236-238 | `removeAll` distributes over concatenation, so survivors keep their order. |
| Placement.RemoveIdAbsent | SignApp/Ui/Doc/SignView.swift:236-238 | With no entry to remove, `removeAll` is the identity. |
| Placement.RemoveIdKeepsUnique | SignApp/Ui/Doc/SignView.swift:236-238 | `removeAll` keeps distinct ids distinct. |
| Placement.AddThenDelete | SignApp/Ui/Doc/SignView.swift:233-305 | Deleting a just-added placement restores the page and leaves nothing selected. |
| Placement.AddKeepsIdsUnique | SignApp/Ui/Doc/SignView.swift:294-305 | With a fresh id, a page's ids stay distinct. |
| Placement.UpdateKeepsIdsUnique | SignApp/Ui/Doc/SignView.swift:204-212 | A replacement with the same id keeps a page's ids distinct. |
| Placement.SelectKeepsIdsUnique | SignApp/Ui/Doc/SignView.swift:214-231 | Rewriting flags keeps a page's ids distinct. |
| Placement.DeleteKeepsIdsUnique | SignApp/Ui/Doc/SignView.swift:233-243 | Deleting keeps a page's ids distinct. |
| Placement.AtMostOneShownSelected | SignApp/Ui/Doc/SignView.swift:201 | With distinct ids, at most one sticker on a page is drawn as selected. |
| StickerGestures.StickerAspect | SignApp/Ui/Doc/SignView.swift:775-777 | 1 for a zero height, otherwise height over width. It tests the height but divides by the width. |
| StickerGestures.ExportAspect | SignApp/Ui/Doc/SignView.swift:899-901 | Height over width for a positive width, otherwise 1. |
| StickerGestures.AspectsAgreeOnProperImages | SignApp/Ui/Doc/SignView.swift:775-777 | The two aspects agree on every image of positive size. |
| StickerGestures.AspectsDisagreeOnFlatImage | SignApp/Ui/Doc/SignView.swift:437-440 | On a zero-height image the screen uses 1 and the export uses 0. |
| StickerGestures.StickerFrame | SignApp/Ui/Doc/SignView.swift:774-781 | The base width is widthFrac × fit width and the base height is that × aspect. The centre is the stored fractions of the fit rectangle. |
| StickerGestures.DragAxis | SignApp/Ui/Doc/SignView.swift:871-878 | One axis of the drag commit always lies in [0, 1]. |
| StickerGestures.DragAxisInside | SignApp/Ui/Doc/SignView.swift:871-878 | A half-extent of at most half the axis ends the drag with the segment inside the axis. |
| StickerGestures.DragAxisFollows | SignApp/Ui/Doc/SignView.swift:873-878 | Where the box fits at the dragged position, the commit is exactly that position. |
| StickerGestures.DragCommit | SignApp/Ui/Doc/SignView.swift:863-880 | Only cx and cy change, and both lie in [0, 1]. |
| StickerGestures.DragCommitInside | SignApp/Ui/Doc/SignView.swift:863-880 | A live box no larger than the fit rectangle ends the drag inside it. |
| StickerGestures.DragFollowsFingerX | SignApp/Ui/Doc/SignView.swift:864-877 | An unobstructed drag moves the centre by exactly the horizontal translation. |
| StickerGestures.DragFollowsFingerY | SignApp/Ui/Doc/SignView.swift:867-878 | An unobstructed drag moves the centre by exactly the vertical translation. |
| StickerGestures.StoredSizeDragKeepsInside | SignApp/Ui/Doc/SignView.swift:863-880 | A drag that carries the stored box (widthFrac × fit width, by that × aspect) keeps a placement whose box is inside the fit rectangle inside it. |
| StickerGestures.DragAtRest | SignApp/Ui/Doc/SignView.swift:782-811 | The drag as the view commits it when no other gesture is under way: it carries the shown box, the stored frame at the shown scale. Only cx and cy change, and both lie in [0, 1]. |
| StickerGestures.ShownScale | SignApp/Ui/Doc/SignView.swift:783-790 | The scale the view shows a sticker at when no gesture is under way: the handle scale for a zero translation, with pinch 1. ShownScaleIsOne states when it is 1, and AddedIsShownAtFloor shows a case where it is not. |
| StickerGestures.ShownWidth | SignApp/Ui/Doc/SignView.swift:792 | The shown width, the stored width times ShownScale. AtRestShowsStored states when it is the stored width. |
| StickerGestures.ShownHeight | SignApp/Ui/Doc/SignView.swift:793 | The shown height, the stored height times ShownScale. AtRestShowsStored states when it is the stored height. |
| StickerGestures.ShownScaleIsOne | SignApp/Ui/Doc/SignView.swift:782-793 | With the width fraction in [0.12, 0.90], half-extents of at least 4 points and the stored box inside the fit rectangle, the scale the view shows at rest is exactly 1. |
| StickerGestures.AtRestShowsStored | SignApp/Ui/Doc/SignView.swift:789-802 | Under those conditions the shown width and height are the stored ones: widthFrac × fit width, and that × aspect. |
| StickerGestures.DragAtRestStored | SignApp/Ui/Doc/SignView.swift:863-880 | With the shown scale 1, the view's drag is the drag that carries the stored box. |
| StickerGestures.DragKeepsPlacementInside | SignApp/Ui/Doc/SignView.swift:863-880 | Under the conditions of ShownScaleIsOne, a placement whose box is inside the fit rectangle stays inside after the view's drag. |
| StickerGestures.DragAtRestCanLeaveFit | SignApp/Ui/Doc/SignView.swift:782-880 | Without them it can leave: a pinch commits a 2 × 40 point box inside a 100-point square, the view shows it 6 times larger, and a drag by (0, 0) commits cy = 1, where the stored box hangs over the bottom edge. |
| StickerGestures.AddedIsShownAtFloor | SignApp/Ui/Doc/SignView.swift:782-793 | A 5 × 100 signature added to a 100-point square is shown at scale 0.375: the 0.12 width floor wins over the bounds scale. |
| StickerGestures.PlacedBoxFits | SignApp/Ui/Doc/SignView.swift:774-778 | A box that lies inside is no wider and no taller than the fit rectangle. |
| StickerGestures.MaxWidthFracThatFits | SignApp/Ui/Doc/SignView.swift:971-985 | The bound always lies in [0, 1]. |
| StickerGestures.MaxWidthFracIsLargestFit | SignApp/Ui/Doc/SignView.swift:971-985 | For a centre in the fit rectangle, a fraction in [0,1] fits exactly when it is ≤ the bound, in both directions. |
| StickerGestures.BoundedCommitInside | SignApp/Ui/Doc/SignView.swift:971-985 | Any fraction up to the bound keeps the box inside. |
| StickerGestures.PinchCommit | SignApp/Ui/Doc/SignView.swift:888-906 | Only widthFrac changes. It is ≥ 0, ≤ 0.90 and ≤ the bound, and ≥ 0.12 when the bound allows. It equals widthFrac × m when that is within all of these. |
| StickerGestures.PinchKeepsPlacementInside | SignApp/Ui/Doc/SignView.swift:888-906 | For a centre in the fit rectangle, the pinched box lies inside. |
| StickerGestures.PinchCanCommitBelowMinimum | SignApp/Ui/Doc/SignView.swift:903 | Near an edge the bound wins: a concrete pinch commits 0.02 < 0.12. |
| StickerGestures.LiveScaleForResize | SignApp/Ui/Doc/SignView.swift:941-969 | Defined for a sticker of positive width; `ResizeCommit` handles the zero-width sticker. The scale is at least the 0.12 width. When the bounds are not crossed, it is at most the smaller of the 0.90 width and the bounds scale. |
| StickerGestures.ResizeReachesDraggedCorner | SignApp/Ui/Doc/SignView.swift:948-957 | Strictly between its bounds, the scaled half-extents cover the dragged corner (at least 4 points each) and meet it on one axis. |
| StickerGestures.LiveResizeInside | SignApp/Ui/Doc/SignView.swift:959-967 | When the 0.12 floor does not exceed the bounds scale, the live resized box stays inside the fit rectangle. |
| StickerGestures.LiveScaleWithinBounds | SignApp/Ui/Doc/SignView.swift:959-967 | In that case the live scale is at most the bounds scale. |
| StickerGestures.ScaledBoxFits | SignApp/Ui/Doc/SignView.swift:959-962 | Any scale up to the bounds scale keeps the box around its centre inside. |
| StickerGestures.ResizeCommit | SignApp/Ui/Doc/SignView.swift:919-938 | Only widthFrac changes. It is ≥ 0, ≤ 0.90 and ≤ the bound, and ≥ 0.12 when the bound allows. A zero-width sticker commits min(0.12, bound), which is what the source's clamp makes of its division by zero. |
| StickerGestures.DragThenPinchCollapsesSticker | SignApp/Ui/Doc/SignView.swift:863-938 | A 5 × 100 signature added to a 100-point square is shown 12 × 240 points, so the view's drag by (0, 0) moves its centre to (0.5, 1). A pinch there commits width 0, and a resize then commits 0 again. |
| StickerGestures.ResizeKeepsPlacementInside | SignApp/Ui/Doc/SignView.swift:919-938 | For a centre in the fit rectangle, the resized box lies inside. |
| StickerGestures.AddedPlacementMayOverflow | SignApp/Ui/Doc/SignView.swift:294-305 | A newly added tall signature already overflows the fit rectangle, so the inside property does not hold from the start. |
| PageLayout.ContentRect | SignApp/Ui/Doc/EditDocView.swift:147-158 | The content rectangle is standard, inside the A4 page, and 24 points from every edge. |
| PageLayout.ContentRectIs | SignApp/Ui/Doc/EditDocView.swift:147-158 | The content rectangle is 547 × 794 at (24, 24). |
| PageLayout.DrawRect | SignApp/Ui/Doc/EditDocView.swift:158-168 | The rectangle a scanned page is drawn into. Its promise is stated by DrawRectInsideContent and DrawRectInsidePage. |
| PageLayout.DrawRectInsideContent | SignApp/Ui/Doc/EditDocView.swift:159-168 | The drawn image is standard, inside the content, centred, keeps the aspect and spans the content's width or height. |
| PageLayout.DrawRectInsidePage | SignApp/Ui/Doc/SignView.swift:416-426 | The drawn page image lies inside the page and never reaches the margin. |
| ScanExport.ScanPagesA4 | SignApp/Ui/Doc/EditDocView.swift:144-171 | None exactly for no images. Otherwise one A4 page per image, with the image drawn inside the content rectangle. |
| ScanExport.A4Pages | SignApp/Ui/Doc/EditDocView.swift:155-170 | Page i has the A4 bounds and the DrawRect of image i. |
| ScanExport.ScanPagesNative | SignApp/Ui/Doc/EditDocView.swift:189-205 | None exactly for no images. Otherwise page i has image i's size and the image fills it. |
| ScanExport.Prefix | SignApp/Ui/Doc/EditDocView.swift:178 | `prefix(n)`: a prefix of the string, of length min(n, length). |
| ScanExport.ScanFileName | SignApp/Ui/Doc/EditDocView.swift:177-179 | "Scan-", then at most the first six characters of the UUID string, then ".pdf". |
| SignedExport.StickerIn | SignApp/Ui/Doc/SignView.swift:433-444 | The sticker's height is its width × the export aspect, and its angle is kept. |
| SignedExport.StickerInFractions | SignApp/Ui/Doc/SignView.swift:433-444 | The drawn centre is at fractions (cx, cy) of the target, and the width is fraction widthFrac of its width. |
| SignedExport.StickersIn | SignApp/Ui/Doc/SignView.swift:430-431 | One box per placement, in list order. |
| SignedExport.SignedPagesA4 | SignApp/Ui/Doc/SignView.swift:402-458 | None exactly for no images. Otherwise page i has the A4 bounds and draws image i in its aspect-fit rectangle inside the content. Its stickers are the page's placements in order, each placed by `StickerIn` over that rectangle. |
| SignedExport.SignedPagesNative | SignApp/Ui/Doc/SignView.swift:497-546 | None exactly for no images. Otherwise page i is a rectangle of image i's size at the origin, filled by the image. Its stickers are the page's placements in order, each placed by `StickerIn` over the whole page. |
| SignedExport.ExportMatchesScreen | SignApp/Ui/Doc/SignView.swift:436-444 | The exported sticker has the same relative centre and relative width in the draw rectangle as the stored frame has in the fit rectangle. The view shows the stored frame when the shown scale is 1 (AtRestShowsStored). |
| SignedExport.ShownDiffersFromExport | SignApp/Ui/Doc/SignView.swift:436-444 | A 10 × 100 signature added to a 100-point square is shown 0.12 of the fit width wide, while the export draws it 0.32 of the draw width wide. |
| SignedExport.ExportedStickerInside | SignApp/Ui/Doc/SignView.swift:436-444 | A placement that is inside the draw rectangle is drawn entirely inside it. |
| SignedExport.DefaultPlacementOnA4 | SignApp/Ui/Doc/SignView.swift:416-444 | A worked page: a 1000 × 1400 scan with a new signature gives these exact draw and sticker rectangles. |
| SignedExport.DashColons | SignApp/Ui/Doc/SignView.swift:482 | Same length, no ':' left, every ':' becomes '-', and every other character is kept. |
| SignedExport.SignedFileName | SignApp/Ui/Doc/SignView.swift:476-482 | The name is "Signed-", then exactly `DashColons(timestamp)`, then ".pdf". It is 11 characters longer than the timestamp and contains no ':'. |
| SignatureFiles.ResolvedDate | SignApp/Ui/Doc/GallerySignView.swift:176-177 | The modification date, else the creation date, else the distant past. |
| SignatureFiles.LowerChar | SignApp/Ui/Doc/GallerySignView.swift:168 | ASCII upper case maps to lower case, and everything else is kept. |
| SignatureFiles.Lowercased | SignApp/Ui/Doc/GallerySignView.swift:168 | Characterwise lower-casing, same length. |
| SignatureFiles.PngIgnoresCase | SignApp/Ui/Doc/GallerySignView.swift:168 | "PNG" and "Png" pass the filter; "jpg" and "png " do not. |
| SignatureFiles.PngOnly | SignApp/Ui/Doc/SignView.swift:52 | Keeps exactly the PNG entries, each as often as in the listing. |
| SignatureFiles.InsertDesc | SignApp/Ui/Doc/GallerySignView.swift:183 | Insertion keeps the order newest first and adds exactly the one element to the multiset. |
| SignatureFiles.SortDesc | SignApp/Ui/Doc/GallerySignView.swift:183 | The result is ordered newest first (non-increasing date) and is a permutation of the input. |
| SignatureFiles.Decodable | SignApp/Ui/Doc/SignView.swift:69-74 | The files that decode, each as often as in the input. A newest-first input stays newest first. |
| SignatureFiles.Decoded | SignApp/Ui/Doc/SignView.swift:69-74 | `compactMap`: item k is the url and decoded size of the k-th decodable file, in order. |
| SignatureFiles.LoadAll | SignApp/Ui/Doc/SignView.swift:24-74 | The picker's list. It has no more items than the listing has entries; LoadAllOffersDecodablePngs and LoadAllMembers state which items and in what order. |
| SignatureFiles.LoadAllOffersDecodablePngs | SignApp/Ui/Doc/SignView.swift:50-74 | Item k of the picker is the k-th of a list that holds each decodable PNG of the listing as often as the listing does. That list is sorted by resolved date, newest first. |
| SignatureFiles.LoadAllMembers | SignApp/Ui/Doc/SignView.swift:50-74 | Every decodable PNG of the listing is offered, and every item comes from one. |
| SignatureFiles.LoadGallery | SignApp/Ui/Doc/GallerySignView.swift:155-184 | The loop builds one cell per PNG in listing order. The result is those cells sorted newest first. |
| SignatureFiles.Cells | SignApp/Ui/Doc/GallerySignView.swift:172-181 | Cell i is the cell of PNG i. |
| SignatureFiles.GalleryListsEveryPng | SignApp/Ui/Doc/GallerySignView.swift:168-181 | Every PNG file gets its cell, even an undecodable one (no thumbnail). |
| SignatureFiles.GalleryListsOnlyPngs | SignApp/Ui/Doc/GallerySignView.swift:168-183 | Every cell is the cell of a PNG file of the listing. |
| SignatureFiles.ScaleFactor | SignApp/Ui/Doc/GallerySignView.swift:188-192 | The factor lies in (0, 1], so a thumbnail is never enlarged. |
| SignatureFiles.ScaleFactorMeaning | SignApp/Ui/Doc/GallerySignView.swift:188-193 | Below 1, the factor brings the longest side to exactly max(maxSide, 1). It is 1 exactly when the longest side is already within that. |
| SignatureFiles.Scaled | SignApp/Ui/Doc/GallerySignView.swift:187-200 | The thumbnail size. Its promise is stated by ScaledFits and SmallImageUnchanged. |
| SignatureFiles.ScaledFits | SignApp/Ui/Doc/GallerySignView.swift:187-200 | The thumbnail keeps the aspect, is no larger than the image, and its longest side is ≤ max(maxSide, 1). |
| SignatureFiles.SmallImageUnchanged | SignApp/Ui/Doc/GallerySignView.swift:192-193 | An image already within the limit is returned unchanged. |
| Gallery.ToggleFlipsOnlyUrl | SignApp/Ui/Doc/GallerySignView.swift:103-109 | A tap flips membership of the tapped url and of no other. |
| Gallery.ToggleTwiceIsIdentity | SignApp/Ui/Doc/GallerySignView.swift:103-109 | Tapping twice restores the selection. |
| Gallery.WithoutUrls | SignApp/Ui/Doc/GallerySignView.swift:117 | Keeps exactly the cells whose url is not given, each as often as before, and never grows. |
| Gallery.WithoutUrlsAppend | SignApp/Ui/Doc/GallerySignView.swift:117 | Pruning keeps the order: pruning two lists joined is pruning each and joining them. |
| Gallery.WithoutUrlsStep | SignApp/Ui/Doc/GallerySignView.swift:115-118 | Pruning by one more url after a set is pruning by the larger set. This is the loop's step. |
| Gallery.WithoutNoUrls | SignApp/Ui/Doc/GallerySignView.swift:112 | Pruning by no url keeps every cell. |
| Gallery.GallerySession.constructor | SignApp/Ui/Doc/GallerySignView.swift:126-128 | Starts with the listed cells and no selection. |
| Gallery.GallerySession.ToggleSelect | SignApp/Ui/Doc/GallerySignView.swift:103-109 | The selection becomes `Toggled` of the old one, and the cells are unchanged. |
| Gallery.GallerySession.DeleteSelected | SignApp/Ui/Doc/GallerySignView.swift:111-121 | With an empty selection nothing changes. Otherwise the cells become the old cells without the selected urls, in order, and the selection ends empty. The loop is proved by an invariant. |
| Gallery.GallerySession.ContextDelete | SignApp/Ui/Doc/GallerySignView.swift:85-88 | The cells of that one url are removed, even when others were selected, and the selection ends empty. |
| Gallery.ContextDeleteDropsOnlyUrl | SignApp/Ui/Doc/GallerySignView.swift:85-88 | What survives is exactly the cells with another url. |
| TrimEdges.AlphaIndexInRange | SignApp/Ui/Sign/RemoveBgView.swift:653-654 | Every pixel's alpha byte lies inside the w·h·4 buffer. |
| TrimEdges.ScanRow | SignApp/Ui/Sign/RemoveBgView.swift:654-658 | True exactly when the row has a pixel with alpha above the threshold. |
| TrimEdges.ScanColumn | SignApp/Ui/Sign/RemoveBgView.swift:675-679 | True exactly when the column has such a pixel between rows top and bottom. |
| TrimEdges.FirstRow | SignApp/Ui/Sign/RemoveBgView.swift:646-660 | top is the first showing row, or 0 with no showing row at all. |
| TrimEdges.LastRow | SignApp/Ui/Sign/RemoveBgView.swift:662-671 | bottom is the last showing row, or h−1 with no showing row at all. |
| TrimEdges.FirstColumn | SignApp/Ui/Sign/RemoveBgView.swift:673-681 | left is the first column showing within top..bottom, or 0. |
| TrimEdges.LastColumn | SignApp/Ui/Sign/RemoveBgView.swift:683-691 | right is the last such column, or w−1. |
| TrimEdges.TrimBounds | SignApp/Ui/Sign/RemoveBgView.swift:646-691 | The bounds are ordered and inside the image, and every showing pixel lies within them. When a pixel shows, each bound's row or column has a showing pixel. When none shows, the bounds are the whole image. |
| TrimEdges.RowsBetween | SignApp/Ui/Sign/RemoveBgView.swift:652-671 | Both row scans find a row exactly when some pixel shows. Every showing pixel lies between top and bottom, and top ≤ bottom. |
| TrimEdges.ColumnsBetween | SignApp/Ui/Sign/RemoveBgView.swift:673-691 | The same for the column scans, left and right. |
| TrimEdges.CropOf | SignApp/Ui/Sign/RemoveBgView.swift:692-699 | With crossed bounds, the whole image. Otherwise the rectangle from (left, top) to (right, bottom) inclusive. |
| TrimEdges.TrimTransparentEdges | SignApp/Ui/Sign/RemoveBgView.swift:618-702 | The crop lies inside the image with sides ≥ 1 and contains every showing pixel. It is tight (each edge line has a showing pixel) when any pixel shows, and is the whole image when none does. |
| Strokes.ViewToImage | SignApp/Ui/Sign/RemoveBgView.swift:311-322 | None exactly when the touch is outside the half-open fit rectangle or the image has no area. Otherwise the point lies in [0,w)×[0,h). |
| Strokes.ViewToImageRoundTrip | SignApp/Ui/Sign/RemoveBgView.swift:319-321 | Mapping a touch into the image and back gives the touch. |
| Strokes.ViewToImageCorner | SignApp/Ui/Sign/RemoveBgView.swift:311-322 | The fit rectangle's top-left corner maps to (0, 0). |
| Strokes.BrushWidth | SignApp/Ui/Sign/RemoveBgView.swift:127 | At least 1, and exactly slider·30 from 1 up. |
| Strokes.GapCount | SignApp/Ui/Sign/RemoveBgView.swift:345-350 | At least one gap. |
| Strokes.DabShape | SignApp/Ui/Sign/RemoveBgView.swift:360-370 | Dab i is a square of side 2·radius centred at a + (b−a)·i/n. |
| Strokes.StampLine | SignApp/Ui/Sign/RemoveBgView.swift:345-371 | steps+1 dabs, each equal to its `Dab`, the first centred on a and the last on b. |
| Strokes.DabsEvenlySpaced | SignApp/Ui/Sign/RemoveBgView.swift:360-363 | Consecutive dab centres are (dx/n, dy/n) apart. |
| Strokes.DabsOverlap | SignApp/Ui/Sign/RemoveBgView.swift:345-350 | The segment length over the gap count is less than a diameter, so neighbouring dabs overlap and the stroke has no holes. |
| Strokes.KnobX | SignApp/Ui/Sign/RemoveBgView.swift:527-529 | The knob lies in [24+16, W−24−16]. On a track narrower than 80 points it sits at W−24−16. |
| Strokes.ValueAt | SignApp/Ui/Sign/RemoveBgView.swift:553-554 | The value lies in [0, 1]. On a track narrower than 80 points it is 1. |
| Strokes.ValueAtKnob | SignApp/Ui/Sign/RemoveBgView.swift:527-556 | Touching the knob of a value in [0,1] gives that value back. |
| Strokes.KnobFollowsTouch | SignApp/Ui/Sign/RemoveBgView.swift:527-556 | After a drag, the knob is under the touch clamped to the track. |
| TouchUp.RotatedCCW | SignApp/Ui/Sign/RemoveBgView.swift:379-397 | Width and height swap. |
| TouchUp.WithLine | SignApp/Ui/Sign/RemoveBgView.swift:324-377 | Drawing a segment keeps the picture's size. |
| TouchUp.RotateTwiceRestoresSize | SignApp/Ui/Sign/RemoveBgView.swift:380 | Two quarter turns give back the size. |
| TouchUp.ToSave | SignApp/Ui/Sign/RemoveBgView.swift:65-70 | Nothing while processing. Otherwise the picture shown (working ?? processed ?? original). |
| TouchUp.RestoreIdempotent | SignApp/Ui/Sign/RemoveBgView.swift:196-205 | Restoring twice equals restoring once. |
| TouchUp.RestoreShowsFirstCutout | SignApp/Ui/Sign/RemoveBgView.swift:196-205 | After Restore, the first cut-out (or the photo) is shown, both tools are off, and the saved cut-out is kept. |
| TouchUp.RotateTwiceRestoresDimensions | SignApp/Ui/Sign/RemoveBgView.swift:222-233 | After two rotations, processed and working are the same picture, with the dimensions shown before. |
| TouchUp.InitialCutoutWrittenOnce | SignApp/Ui/Sign/RemoveBgView.swift:296-298 | The first successful cut-out is kept for Restore. Later results and failures never replace it. |
| TouchUp.DragKeepsShownSize | SignApp/Ui/Sign/RemoveBgView.swift:112-144 | Drawing never changes the size of the shown picture. |
| TouchUp.DragWithoutToolDrawsNothing | SignApp/Ui/Sign/RemoveBgView.swift:113-115 | With no tool on, a drag only records the touch. |
| TouchUp.DragOffPictureDrawsNothing | SignApp/Ui/Sign/RemoveBgView.swift:119-125 | A touch off the picture draws nothing and keeps the last image point. |
| TouchUp.ActionsKeepOneTool | SignApp/Ui/Sign/RemoveBgView.swift:165-180 | Pen and eraser are never both on, initially or after any action. |
| TouchUp.TouchUpSession.constructor | SignApp/Ui/Sign/RemoveBgView.swift:13-22 | Starts processing, with no images, no tool and the slider at 0.6. |
| TouchUp.TouchUpSession.FinishCutout | SignApp/Ui/Sign/RemoveBgView.swift:256-299 | The new state is `CutoutDone` of the old one. |
| TouchUp.TouchUpSession.EnsureWorkingImageIfReady | SignApp/Ui/Sign/RemoveBgView.swift:301-305 | The new state is `WithWorkingIfReady` of the old one. |
| TouchUp.TouchUpSession.EnsureWorkingImage | SignApp/Ui/Sign/RemoveBgView.swift:307-309 | The new state is `WithWorking` of the old one. |
| TouchUp.TouchUpSession.ChoosePen | SignApp/Ui/Sign/RemoveBgView.swift:165-167 | The pen is on and the eraser off. |
| TouchUp.TouchUpSession.ChooseEraser | SignApp/Ui/Sign/RemoveBgView.swift:178-180 | The eraser is on and the pen off. |
| TouchUp.TouchUpSession.Restore | SignApp/Ui/Sign/RemoveBgView.swift:196-205 | The new state is `Restored` of the old one. |
| TouchUp.TouchUpSession.Rotate | SignApp/Ui/Sign/RemoveBgView.swift:222-233 | The new state is `Rotated` of the old one. |
| TouchUp.TouchUpSession.DragChanged | SignApp/Ui/Sign/RemoveBgView.swift:112-144 | The new state is `Dragged` of the old one. |
| TouchUp.TouchUpSession.DragFinished | SignApp/Ui/Sign/RemoveBgView.swift:145-148 | The segment chain and the touch are cleared. |
| TouchUp.SliderMoved | SignApp/Ui/Sign/RemoveBgView.swift:553-554 | The state after a slider drag: only the slider value changes, to ValueAt of the touch, which lies in [0, 1]. |
| TouchUp.TouchUpSession.MoveSlider | SignApp/Ui/Sign/RemoveBgView.swift:554-557 | The slider takes `ValueAt` of the touch. |
| CropEditor.ClampSpanInside | SignApp/Ui/Sign/CropView.swift:314-331 | On one axis, the extent is cut to the bounds' length and the span lies inside the bounds. A span already inside is kept. |
| CropEditor.ClampRect | SignApp/Ui/Sign/CropView.swift:314-331 | The crop rectangle moved into the bounds. Its promise is stated by ClampRectInside, ClampRectIdempotent and ClampRectKeepsFlippedOutside. |
| CropEditor.ClampRectInside | SignApp/Ui/Sign/CropView.swift:314-331 | A standard rectangle is clamped to a standard rectangle inside the bounds, min(own side, bounds' side) wide and tall, and is unchanged if already inside. |
| CropEditor.ClampRectIdempotent | SignApp/Ui/Sign/CropView.swift:314-331 | Clamping twice equals clamping once. |
| CropEditor.ClampRectKeepsFlippedOutside | SignApp/Ui/Sign/CropView.swift:314-331 | With a negative width the clamp does not bring the rectangle inside (a concrete case). |
| CropEditor.ClampSize | SignApp/Ui/Sign/CropView.swift:333-338 | The result is standard. |
| CropEditor.ClampSizeSides | SignApp/Ui/Sign/CropView.swift:333-338 | Each side becomes max(side, min). A standard rectangle already big enough is kept. |
| CropEditor.ScaledRect | SignApp/Ui/Sign/CropView.swift:340-351 | The crop rectangle scaled about a point. Its promise is stated by ScaledRectAbout. |
| CropEditor.ScaledRectAbout | SignApp/Ui/Sign/CropView.swift:340-351 | The scaled rectangle is standard, centred on the given point, with each side max(80, side·scale). |
| CropEditor.ResizeRaw | SignApp/Ui/Sign/CropView.swift:353-386 | The crop rectangle with the handle's edges moved, before standardizing. Its promise is stated by ResizeMovesOnlyDraggedEdges. |
| CropEditor.Resize | SignApp/Ui/Sign/CropView.swift:353-386 | The resized crop rectangle, standardized. Its promise is stated by ResizeSpansEdges. |
| CropEditor.ResizeMovesOnlyDraggedEdges | SignApp/Ui/Sign/CropView.swift:353-386 | Before standardizing, only the edges the handle owns move, and they move by the translation. |
| CropEditor.ResizeSpansEdges | SignApp/Ui/Sign/CropView.swift:353-386 | After standardizing, each axis spans from the smaller to the larger of its two edges. |
| CropEditor.HandlePoint | SignApp/Ui/Sign/CropView.swift:388-399 | Where each handle sits on the crop rectangle. HandleFollowsDrag states how it moves. |
| CropEditor.HandleFollowsDrag | SignApp/Ui/Sign/CropView.swift:388-399 | Without a flip, a handle moves with the finger on the axes it owns. |
| CropEditor.CenteredCrop | SignApp/Ui/Sign/CropView.swift:136-147 | The crop rectangle set when the screen appears. Its promise is stated by CenteredCropInside. |
| CropEditor.CenteredCropInside | SignApp/Ui/Sign/CropView.swift:136-147 | The initial crop is standard, inside the fit rectangle, centred on it, and 80% of each side. |
| CropEditor.CeilBounds | SignApp/Ui/Sign/CropView.swift:296 | The ceiling is the least integer at or above v. |
| CropEditor.CropToImage | SignApp/Ui/Sign/CropView.swift:279-296 | The crop's edges are mapped back through the fit and cut to the image, so they lie within [0, w]×[0, h]. A standard crop inside the fit needs no cutting. |
| CropEditor.CropInImage | SignApp/Ui/Sign/CropView.swift:279-304 | Nothing when the fit has no width or height. Otherwise there is a result exactly when the cut rectangle is not empty and rounds outward to more than 1 pixel each way; the result is floor of the near edges and ceil of the far edges. It lies within the image's pixel bounds. |
| CropEditor.CropBoxRoundsOutward | SignApp/Ui/Sign/CropView.swift:296 | Each edge of the pixel box lies less than one pixel outside the cut rectangle's edge. |
| CropEditor.CropInsideFitStaysInImage | SignApp/Ui/Sign/CropView.swift:282-292 | A crop inside the fit rectangle maps into [0, w]×[0, h], and the fit rectangle's far edges map to w and h. |
| CropEditor.WholePictureCropsWholeImage | SignApp/Ui/Sign/CropView.swift:279-304 | Cropping to the whole fit rectangle gives the whole image. |
| CropSession.GesturesStayInsideFit | SignApp/Ui/Sign/CropView.swift:78-101 | After every drag, pinch or handle move, the crop lies inside the picture. |
| CropSession.PinchSides | SignApp/Ui/Sign/CropView.swift:92-101 | Each side is min(max(scaled side, 80), fit side): the picture's size wins over the 80-point minimum. |
| CropSession.HandleSides | SignApp/Ui/Sign/CropView.swift:162-172 | Each side is min(max(resized side, 80), fit side). |
| CropSession.ActionsKeepStandard | SignApp/Ui/Sign/CropView.swift:78-222 | Every action keeps the crop and the gesture start rectangles standard. |
| CropSession.SwipeMovesOnePage | SignApp/Ui/Sign/CropView.swift:183-213 | The index moves by at most one and stays on the pages. It changes only with several pages and a swipe longer than 60, and then the crop resets to the centred 80% rectangle. The page noted is the one shown before. |
| CropSession.CropScreen.constructor | SignApp/Ui/Sign/CropView.swift:10-19 | Starts with zero rectangles, page 0 and no page noted. |
| CropSession.CropScreen.Appear | SignApp/Ui/Sign/CropView.swift:134-152 | The new state is `Appeared` of the old one, and the screen invariant holds. |
| CropSession.CropScreen.DragChanged | SignApp/Ui/Sign/CropView.swift:79-85 | The new state is `DragMoved` of the old one, and the crop is inside the fit rectangle. |
| CropSession.CropScreen.GestureEnded | SignApp/Ui/Sign/CropView.swift:86-90 | All three gesture starts become the crop. |
| CropSession.CropScreen.PinchChanged | SignApp/Ui/Sign/CropView.swift:93-102 | The new state is `Pinched` of the old one, and the crop is inside the fit rectangle. |
| CropSession.CropScreen.PinchEnded | SignApp/Ui/Sign/CropView.swift:103-106 | Only the pinch start is reset. |
| CropSession.CropScreen.HandleChanged | SignApp/Ui/Sign/CropView.swift:163-172 | The new state is `HandleMoved` of the old one, and the crop is inside the fit rectangle. |
| CropSession.CropScreen.SwipeEnded | SignApp/Ui/Sign/CropView.swift:185-212 | The new state is `Swiped` of the old one, and the screen invariant holds. |
| CropSession.CropScreen.CurrentIndexChanged | SignApp/Ui/Sign/CropView.swift:215-218 | The page shown and the fit rectangle are noted. |
| CropSession.CropScreen.CropRectChanged | SignApp/Ui/Sign/CropView.swift:219-222 | The fit rectangle is noted. |
| CropSession.CropScreen.Continue | SignApp/Ui/Sign/CropView.swift:226-234 | Nothing before a page is noted. Otherwise it returns the noted page cropped through `CropInImage`: the box rounded outward from the crop mapped into the image, more than one pixel each way. |

## Left out

- Drawing, rendering and image processing are not modelled. This covers:
  - the pixels themselves and ellipse fills;
  - `UIImage.draw` and the PDF renderer's bytes;
  - the Core Image background-removal filter chain (its outcome is the `ok` input of `FinishCutout`);
  - the rotation transform of stickers in the export (the angle is carried as data).
- Pictures are their size plus the list of edits applied to them, not their pixels.
- File-system effects are not modelled: directory listing, writes, deletions, security-scoped access, notifications and dispatch queues. Listings are given as values. File removal in the gallery is ignored, as the source ignores its failures.
- Values the source obtains at run time are inputs:
  - the UUIDs (placement ids, scan name);
  - the ISO 8601 timestamp;
  - the modification and creation dates;
  - whether a file decodes.
- Floating point is modelled as exact real arithmetic. IEEE rounding, infinities and NaN are not modelled.
- `hypot` is not modelled. `Strokes.StampLine` takes the segment length `len` with `len*len == dx*dx + dy*dy` as a parameter.
- Lower-casing covers ASCII letters only. Swift's Unicode case mapping is not modelled.
- `Array.sorted` is not stable. `SignatureFiles.SortDesc` is one stable sort, and its contract (newest first, a permutation) holds for any order the library sort may choose.
- `Geometry.AspectFit` requires a positive image size. The source divides by it without a guard, and its division by zero is not modelled.
- `StickerGestures.StickerAspect` requires a zero height or a non-zero width, because the source divides by the width after testing only the height.
- `Strokes.ValueAt`, `TouchUp.SliderMoved` and `TouchUp.TouchUpSession.MoveSlider` require a track width other than 80 points. At exactly 80 the drag handler divides 0 by 0. The slider is laid out at the full width of the screen (SignApp/Ui/Sign/RemoveBgView.swift:157), so no call site has that width.
- `Strokes.ValueAtKnob` requires a track wider than 80 points. On a narrower track every touch gives 1, so no value other than 1 comes back.
- `TrimEdges.TrimTransparentEdges` requires w, h ≥ 1: the source traps on an empty range for a zero-height image. The failures of `cgImage`, the bitmap context and `cropping(to:)`, which return the input image unchanged, are not modelled.
- `drawLine` does nothing when no graphics context is available. The model always draws.
- `UIImage.scale` is not modelled: the crop mapping works in points, as the source's arithmetic does.
- `CropEditor.ClampRectInside` proves containment only for standard rectangles. For a negative size the source's clamp does not contain the rectangle, as `ClampRectKeepsFlippedOutside` shows.
- Clamp (`Geometry.Clamp`): the function's own contract leaves out the below-range case. Stating it there makes every drag proof that unfolds the clamp too costly. `Geometry.ClampIsNearest` states it for all inputs.
- LiveScaleForResize (`StickerGestures.LiveScaleForResize`) and `MaxScaleByBounds` require a positive start width. A drag to an edge followed by a pinch can leave a sticker of width 0 (`DragThenPinchCollapsesSticker`). For it the source's scale divides by zero and is infinite, which a real cannot hold. `ResizeCommit` models what that sticker commits.
- MaxWidthFracThatFits (`StickerGestures.MaxWidthFracThatFits`) and `PinchCommit` require a positive aspect. A signature picture of positive width and zero height would make it 0. The source then divides by it, and that picture is left out. A decoded PNG is at least one pixel high.
- `StickerGestures.ResizeCommit` requires a non-negative width fraction and a positive sticker aspect. Every commit keeps the width fraction non-negative. The aspect is excluded only for pictures with a negative side.
- ShownScale (`StickerGestures.ShownScale`), `ShownWidth`, `ShownHeight` and `DragAtRest` require a positive width fraction. For a zero-width sticker the source's handle scale divides by zero.
- The drag is modelled with the view at rest: pinch factor 1 and no handle translation. A drag made while a pinch is under way carries the pinched box and is not modelled.
- `CropSession.CropScreen.constructor` requires at least one page of positive size. The source indexes `images[count - 1]` and traps on an empty list.
- SwiftUI view bodies, navigation, the paywall, StoreKit, the PDF viewer and the document scanner are not part of this model.
- The touch-up screen's save action is modelled only as far as choosing the picture to trim (`TouchUp.ToSave`). Writing it to disk is left out.

## Findings

| source | as written | input that shows it | evidently intended | confidence | as-written member | corrected member |
|---|---|---|---|---|---|---|
| SignApp/Ui/Doc/SignView.swift:782-811 | At rest the view scales the stored frame by the resize handle's clamped scale, and the drag carries that shown box, not the stored one. | A 5 × 100 signature pinched to width fraction 0.02 at (0.5, 0.2) on a 100-point square: its 2 × 40 box is inside, it is shown 12 × 240, and a drag by (0, 0) commits cy = 1, where the stored box hangs over the bottom edge. | Scale 1 at rest, so a drag keeps a box that is inside the fit rectangle inside it. | medium, not executed | StickerGestures.DragAtRestCanLeaveFit | StickerGestures.StoredSizeDragKeepsInside |
| SignApp/Ui/Doc/SignView.swift:436-444 | The export draws the stored frame, while the view shows the stored frame at the handle's clamped scale. | A 10 × 100 signature added to a 100-point square: the view shows it 0.12 of the fit width wide, the export draws it 0.32 of the draw width wide. | The export matches what the view shows. | medium, not executed | SignedExport.ShownDiffersFromExport | SignedExport.ExportMatchesScreen |
