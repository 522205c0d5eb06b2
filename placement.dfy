/**
  The signing screen's placement state: for every page index, the ordered
  list of signatures placed on it (later entries are drawn on top), and
  the id of the one the user has selected, if any.
 */
module Placement {
  import opened Geometry
  import opened Wrappers

  /** Stands for the UUID each placement gets when it is created. */
  type Id = nat

  /**
    One signature placed on a page. `image` is the pixel size of the
    signature asset (the only thing about it the layout reads); `cx`, `cy`
    are the centre as fractions of the page's fit rectangle and
    `widthFrac` the width as a fraction of the fit rectangle's width.
   */
  datatype PlacedSignature = PlacedSignature(
    id: Id,
    image: Size,
    cx: real,
    cy: real,
    widthFrac: real,
    isSelected: bool,
    angleDeg: real)

  /** Where a newly added signature goes. */
  const DefaultCx := 0.5
  const DefaultCy := 0.85
  const DefaultWidthFrac := 0.32

  function NewPlacement(id: Id, image: Size): PlacedSignature {
    PlacedSignature(id, image, DefaultCx, DefaultCy, DefaultWidthFrac, true, 0.0)
  }

  type Pages = map<int, seq<PlacedSignature>>

  /** `placed[page] ?? []` */
  function PageList(placed: Pages, page: int): seq<PlacedSignature> {
    if page in placed then placed[page] else []
  }

  /** The whole placement state of the screen. */
  datatype Board = Board(placed: Pages, selectedID: Option<Id>)

  /** `firstIndex(where: { $0.id == id })` */
  function FirstIndexOf(s: seq<PlacedSignature>, id: Id): (r: Option<nat>)
    ensures r.Some? ==> r.value < |s| && s[r.value].id == id
    ensures r.Some? ==> forall j :: 0 <= j < r.value ==> s[j].id != id
    ensures r.None? <==> forall j :: 0 <= j < |s| ==> s[j].id != id
  {
    if s == [] then None
    else if s[0].id == id then Some(0)
    else match FirstIndexOf(s[1..], id)
      case None => None
      case Some(k) => Some(k + 1)
  }

  /** `removeAll { $0.id == id }` */
  function RemoveId(s: seq<PlacedSignature>, id: Id): (r: seq<PlacedSignature>)
    ensures |r| <= |s|
    ensures forall x :: x in r <==> x in s && x.id != id
  {
    if s == [] then []
    else (if s[0].id == id then [] else [s[0]]) + RemoveId(s[1..], id)
  }

  /** Every entry's selection flag rewritten: only index `idx` may be on. */
  function Flagged(s: seq<PlacedSignature>, idx: nat, on: bool): seq<PlacedSignature> {
    seq(|s|, k requires 0 <= k < |s| => s[k].(isSelected := k == idx && on))
  }

  /** Tapping a thumbnail: append a new placement to `page` and select it. */
  function Added(b: Board, page: int, image: Size, id: Id): Board {
    Board(b.placed[page := PageList(b.placed, page) + [NewPlacement(id, image)]], Some(id))
  }

  /** A sticker's gesture commit: replace the first entry with `id`. */
  function Updated(b: Board, page: int, id: Id, updated: PlacedSignature): Board {
    if page !in b.placed then b
    else match FirstIndexOf(b.placed[page], id)
      case None => b
      case Some(i) => Board(b.placed[page := b.placed[page][i := updated]], b.selectedID)
  }

  /** Tapping a sticker: toggle the selection, then rewrite the page's flags. */
  function Toggled(b: Board, page: int, id: Id): Board {
    var sel := if b.selectedID == Some(id) then None else Some(id);
    if page !in b.placed then Board(b.placed, sel)
    else match FirstIndexOf(b.placed[page], id)
      case None => Board(b.placed, sel)
      case Some(i) => Board(b.placed[page := Flagged(b.placed[page], i, sel == Some(id))], sel)
  }

  /** The sticker's delete button. Nothing happens when the page has no list. */
  function Deleted(b: Board, page: int, id: Id): Board {
    if page !in b.placed then b
    else Board(b.placed[page := RemoveId(b.placed[page], id)],
               if b.selectedID == Some(id) then None else b.selectedID)
  }

  /** The screen's state as the SwiftUI view holds it. */
  class SignSession {
    var placed: Pages
    var selectedID: Option<Id>

    function State(): Board
      reads this
    {
      Board(placed, selectedID)
    }

    constructor ()
      ensures State() == Board(map[], None)
    {
      placed := map[];
      selectedID := None;
    }

    method Add(page: int, image: Size, id: Id)
      modifies this
      ensures State() == Added(old(State()), page, image, id)
    {
      var arr := PageList(placed, page);
      arr := arr + [NewPlacement(id, image)];
      placed := placed[page := arr];
      selectedID := Some(arr[|arr| - 1].id);
    }

    method Update(page: int, id: Id, updated: PlacedSignature)
      modifies this
      ensures State() == Updated(old(State()), page, id, updated)
    {
      if page !in placed { return; }
      var pageArr := placed[page];
      var idx := FirstIndexOf(pageArr, id);
      if idx.None? { return; }
      pageArr := pageArr[idx.value := updated];
      placed := placed[page := pageArr];
    }

    method Select(page: int, id: Id)
      modifies this
      ensures State() == Toggled(old(State()), page, id)
    {
      selectedID := if selectedID == Some(id) then None else Some(id);
      if page !in placed { return; }
      var pageArr := placed[page];
      var idx := FirstIndexOf(pageArr, id);
      if idx.None? { return; }
      var k := 0;
      while k < |pageArr|
        invariant 0 <= k <= |pageArr| == |placed[page]|
        invariant forall j :: 0 <= j < k ==>
                    pageArr[j] == placed[page][j].(isSelected := j == idx.value && selectedID == Some(id))
        invariant forall j :: k <= j < |pageArr| ==> pageArr[j] == placed[page][j]
      {
        pageArr := pageArr[k := pageArr[k].(isSelected := k == idx.value && selectedID == Some(id))];
        k := k + 1;
      }
      assert pageArr == Flagged(placed[page], idx.value, selectedID == Some(id));
      placed := placed[page := pageArr];
    }

    method Delete(page: int, id: Id)
      modifies this
      ensures State() == Deleted(old(State()), page, id)
    {
      if page !in placed { return; }
      var pageArr := placed[page];
      pageArr := RemoveId(pageArr, id);
      placed := placed[page := pageArr];
      if selectedID == Some(id) {
        selectedID := None;
      }
    }
  }

  // ---------------------------------------------------------------------
  // Properties of the four edit operations

  /** Ids on one page are pairwise distinct. */
  ghost predicate UniqueIds(s: seq<PlacedSignature>) {
    forall i, j :: 0 <= i < j < |s| ==> s[i].id != s[j].id
  }

  ghost predicate Fresh(s: seq<PlacedSignature>, id: Id) {
    forall i :: 0 <= i < |s| ==> s[i].id != id
  }

  /** Only the target page changes; every other page keeps its list. */
  lemma EditsArePageLocal(b: Board, page: int, other: int, image: Size, id: Id, u: PlacedSignature)
    requires other != page
    ensures PageList(Added(b, page, image, id).placed, other) == PageList(b.placed, other)
    ensures PageList(Updated(b, page, id, u).placed, other) == PageList(b.placed, other)
    ensures PageList(Toggled(b, page, id).placed, other) == PageList(b.placed, other)
    ensures PageList(Deleted(b, page, id).placed, other) == PageList(b.placed, other)
  {}

  /** Adding appends exactly one default placement, selected, and selects its id. */
  lemma AddAppendsOne(b: Board, page: int, image: Size, id: Id)
    ensures var after := PageList(Added(b, page, image, id).placed, page);
            var before := PageList(b.placed, page);
            && |after| == |before| + 1
            && after[..|before|] == before
            && after[|before|].id == id
            && after[|before|].cx == 0.5 && after[|before|].cy == 0.85
            && after[|before|].widthFrac == 0.32 && after[|before|].isSelected
    ensures Added(b, page, image, id).selectedID == Some(id)
  {}

  /**
    Adding does not clear the flags of earlier entries: after selecting one
    placement and adding another, two entries on the page carry the flag.
    Only `selectedID` is exclusive.
   */
  lemma AddKeepsEarlierFlags()
    ensures var b0 := Added(Board(map[], None), 0, Size(10.0, 5.0), 1);
            var b1 := Added(b0, 0, Size(10.0, 5.0), 2);
            var s := b1.placed[0];
            |s| == 2 && s[0].isSelected && s[1].isSelected && b1.selectedID == Some(2)
  {}

  /** Update replaces the first entry with the id, keeps the length, and nothing else. */
  lemma UpdateReplacesFirstMatch(b: Board, page: int, id: Id, u: PlacedSignature)
    ensures |PageList(Updated(b, page, id, u).placed, page)| == |PageList(b.placed, page)|
    ensures Updated(b, page, id, u).selectedID == b.selectedID
    ensures Fresh(PageList(b.placed, page), id) ==> Updated(b, page, id, u) == b
    ensures !Fresh(PageList(b.placed, page), id) ==>
              exists i :: 0 <= i < |PageList(b.placed, page)|
                && PageList(b.placed, page)[i].id == id
                && Fresh(PageList(b.placed, page)[..i], id)
                && PageList(Updated(b, page, id, u).placed, page) == PageList(b.placed, page)[i := u]
  {
    var s := PageList(b.placed, page);
    if !Fresh(s, id) {
      assert page in b.placed;
      var i := FirstIndexOf(s, id).value;
      assert Fresh(s[..i], id);
    }
  }

  /**
    Tapping the selected placement deselects it and clears every flag on the
    page; tapping any other makes it the selection and the only flagged entry.
   */
  lemma SelectToggles(b: Board, page: int, id: Id)
    ensures b.selectedID == Some(id) ==> Toggled(b, page, id).selectedID == None
    ensures b.selectedID != Some(id) ==> Toggled(b, page, id).selectedID == Some(id)
    ensures var s := PageList(b.placed, page);
            var t := PageList(Toggled(b, page, id).placed, page);
            && |t| == |s|
            && (!Fresh(s, id) ==>
                  forall k :: 0 <= k < |t| ==>
                    && t[k] == s[k].(isSelected := t[k].isSelected)
                    && (t[k].isSelected <==>
                          b.selectedID != Some(id) && k == FirstIndexOf(s, id).value))
            && (Fresh(s, id) ==> t == s)
  {}

  /** After a tap, at most one entry on that page carries the flag. */
  lemma SelectLeavesAtMostOneFlag(b: Board, page: int, id: Id)
    requires !Fresh(PageList(b.placed, page), id)
    ensures var t := PageList(Toggled(b, page, id).placed, page);
            forall i, j :: 0 <= i < |t| && 0 <= j < |t| && t[i].isSelected && t[j].isSelected ==> i == j
  {
    SelectToggles(b, page, id);
  }

  /** Delete drops every entry with the id and clears a selection that pointed at it. */
  lemma DeleteRemovesId(b: Board, page: int, id: Id)
    requires page in b.placed
    ensures Fresh(PageList(Deleted(b, page, id).placed, page), id)
    ensures forall x :: x in PageList(Deleted(b, page, id).placed, page) <==>
                        x in b.placed[page] && x.id != id
    ensures Deleted(b, page, id).selectedID ==
              (if b.selectedID == Some(id) then None else b.selectedID)
  {
    var r := RemoveId(b.placed[page], id);
    forall i | 0 <= i < |r| ensures r[i].id != id {
      assert r[i] in r;
    }
  }

  /** removeAll keeps the survivors in their original order. */
  lemma {:induction false} RemoveIdAppend(a: seq<PlacedSignature>, c: seq<PlacedSignature>, id: Id)
    ensures RemoveId(a + c, id) == RemoveId(a, id) + RemoveId(c, id)
  {
    if a == [] {
      assert a + c == c;
    } else {
      assert (a + c)[1..] == a[1..] + c;
      RemoveIdAppend(a[1..], c, id);
    }
  }

  /** With nothing to remove, removeAll is the identity. */
  lemma {:induction false} RemoveIdAbsent(s: seq<PlacedSignature>, id: Id)
    requires Fresh(s, id)
    ensures RemoveId(s, id) == s
  {
    if s != [] {
      RemoveIdAbsent(s[1..], id);
    }
  }

  /** removeAll keeps distinct ids distinct. */
  lemma {:induction false} RemoveIdKeepsUnique(s: seq<PlacedSignature>, id: Id)
    requires UniqueIds(s)
    ensures UniqueIds(RemoveId(s, id))
  {
    if s != [] {
      RemoveIdKeepsUnique(s[1..], id);
      var rest := RemoveId(s[1..], id);
      forall x | x in rest ensures x.id != s[0].id {
        var k :| 0 <= k < |s[1..]| && s[1..][k] == x;
        assert s[k + 1] == x;
      }
    }
  }

  /** Deleting what was just added restores the page and clears the selection. */
  lemma AddThenDelete(b: Board, page: int, image: Size, id: Id)
    requires Fresh(PageList(b.placed, page), id)
    ensures var d := Deleted(Added(b, page, image, id), page, id);
            PageList(d.placed, page) == PageList(b.placed, page) && d.selectedID == None
  {
    var s := PageList(b.placed, page);
    RemoveIdAppend(s, [NewPlacement(id, image)], id);
    RemoveIdAbsent(s, id);
    assert RemoveId([NewPlacement(id, image)], id) == [];
  }

  /** Adding with a fresh id keeps a page's ids distinct. */
  lemma AddKeepsIdsUnique(b: Board, page: int, image: Size, id: Id)
    requires UniqueIds(PageList(b.placed, page)) && Fresh(PageList(b.placed, page), id)
    ensures UniqueIds(PageList(Added(b, page, image, id).placed, page))
  {
    var s := PageList(b.placed, page) + [NewPlacement(id, image)];
    assert PageList(Added(b, page, image, id).placed, page) == s;
    forall i, j | 0 <= i < j < |s| ensures s[i].id != s[j].id {
      if j == |s| - 1 { assert s[i] == PageList(b.placed, page)[i]; }
    }
  }

  /** Replacing an entry by one with the same id keeps a page's ids distinct. */
  lemma UpdateKeepsIdsUnique(b: Board, page: int, id: Id, u: PlacedSignature)
    requires UniqueIds(PageList(b.placed, page)) && u.id == id
    ensures UniqueIds(PageList(Updated(b, page, id, u).placed, page))
  {}

  /** Rewriting selection flags keeps a page's ids distinct. */
  lemma SelectKeepsIdsUnique(b: Board, page: int, id: Id)
    requires UniqueIds(PageList(b.placed, page))
    ensures UniqueIds(PageList(Toggled(b, page, id).placed, page))
  {}

  /** Removing entries keeps a page's ids distinct. */
  lemma DeleteKeepsIdsUnique(b: Board, page: int, id: Id)
    requires UniqueIds(PageList(b.placed, page))
    ensures UniqueIds(PageList(Deleted(b, page, id).placed, page))
  {
    if page in b.placed {
      RemoveIdKeepsUnique(b.placed[page], id);
    }
  }

  /**
    On a page with distinct ids, at most one sticker is shown as selected
    (the view marks the one whose id equals `selectedID`).
   */
  lemma AtMostOneShownSelected(s: seq<PlacedSignature>, sel: Option<Id>)
    requires UniqueIds(s)
    ensures forall i, j ::
              (0 <= i < |s| && 0 <= j < |s| && Some(s[i].id) == sel && Some(s[j].id) == sel) ==> i == j
  {}
}
