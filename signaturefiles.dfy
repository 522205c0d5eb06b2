/**
  The saved-signature files: listing the signatures folder for the signing
  screen's picker (SignaturesStore) and for the gallery, and the gallery's
  thumbnail scaling. The directory listing, resource values and image
  decoding are inputs: each file is an entry with its extension, its
  optional modification and creation dates, and its decoded pixel size if
  it decodes.
 */
module SignatureFiles {
  import opened Geometry
  import opened Wrappers

  type Url = string

  /** A date, in seconds since 1970. */
  type Date = int

  /** Foundation's `Date.distantPast` (1 January of year 1). */
  const DistantPast: Date := -62135769600

  /** What the listing knows about one file of the folder. */
  datatype FileEntry = FileEntry(
    url: Url,
    pathExtension: string,
    modified: Option<Date>,
    created: Option<Date>,
    decoded: Option<Size>)

  /** A file's date: modification date, else creation date, else the distant past. */
  function ResolvedDate(e: FileEntry): (d: Date)
    ensures e.modified.Some? ==> d == e.modified.value
    ensures e.modified.None? && e.created.Some? ==> d == e.created.value
    ensures e.modified.None? && e.created.None? ==> d == DistantPast
  {
    e.modified.GetOr(e.created.GetOr(DistantPast))
  }

  // ---------------------------------------------------------------------
  // Extension filter

  /** ASCII lower-casing of one character. */
  function LowerChar(c: char): (r: char)
    ensures 'A' <= c <= 'Z' ==> 'a' <= r <= 'z'
    ensures !('A' <= c <= 'Z') ==> r == c
  {
    if 'A' <= c <= 'Z' then (c as int - 'A' as int + 'a' as int) as char else c
  }

  function Lowercased(s: string): (r: string)
    ensures |r| == |s|
    ensures forall i :: 0 <= i < |s| ==> r[i] == LowerChar(s[i])
  {
    seq(|s|, i requires 0 <= i < |s| => LowerChar(s[i]))
  }

  predicate IsPng(e: FileEntry) {
    Lowercased(e.pathExtension) == "png"
  }

  /** "png", "PNG" and "Png" all pass; "jpg" and "png " do not. */
  lemma PngIgnoresCase()
    ensures IsPng(FileEntry("a.PNG", "PNG", None, None, None))
    ensures IsPng(FileEntry("b.Png", "Png", None, None, None))
    ensures !IsPng(FileEntry("c.jpg", "jpg", None, None, None))
    ensures !IsPng(FileEntry("d", "png ", None, None, None))
  {
    assert Lowercased("PNG") == "png";
    assert Lowercased("Png") == "png";
    assert Lowercased("jpg")[0] == 'j';
  }

  /** `filter { $0.pathExtension.lowercased() == "png" }`, order kept. */
  function PngOnly(s: seq<FileEntry>): (r: seq<FileEntry>)
    ensures |r| <= |s|
    ensures forall e :: e in r <==> e in s && IsPng(e)
    ensures forall e :: multiset(r)[e] == if IsPng(e) then multiset(s)[e] else 0
  {
    if s == [] then []
    else
      assert s == [s[0]] + s[1..];
      (if IsPng(s[0]) then [s[0]] else []) + PngOnly(s[1..])
  }

  // ---------------------------------------------------------------------
  // Newest-first ordering

  /** Non-increasing in `key`. */
  ghost predicate SortedDesc<T>(s: seq<T>, key: T -> Date) {
    forall i, j :: 0 <= i < j < |s| ==> key(s[i]) >= key(s[j])
  }

  /** Insert `x` before the first element whose key is not larger. */
  function InsertDesc<T>(x: T, s: seq<T>, key: T -> Date): (r: seq<T>)
    requires SortedDesc(s, key)
    ensures |r| == |s| + 1
    ensures forall y :: y in r ==> y == x || y in s
    ensures multiset(r) == multiset(s) + multiset{x}
    ensures SortedDesc(r, key)
  {
    if s == [] || key(s[0]) <= key(x) then
      HeadIsLargest(s, key);
      PrependSorted(x, s, key);
      [x] + s
    else
      var rest := InsertDesc(x, s[1..], key);
      assert s == [s[0]] + s[1..];
      HeadIsLargest(s, key);
      PrependSorted(s[0], rest, key);
      [s[0]] + rest
  }

  /** The first element of a newest-first sequence has the largest key. */
  lemma HeadIsLargest<T>(s: seq<T>, key: T -> Date)
    requires SortedDesc(s, key)
    ensures forall z :: z in s ==> key(z) <= key(s[0])
  {}

  /** An element no smaller than all of a sorted sequence can go in front. */
  lemma PrependSorted<T>(y: T, t: seq<T>, key: T -> Date)
    requires SortedDesc(t, key)
    requires forall z :: z in t ==> key(z) <= key(y)
    ensures SortedDesc([y] + t, key)
  {
    var r := [y] + t;
    forall i, j | 0 <= i < j < |r| ensures key(r[i]) >= key(r[j]) {
      assert r[j] == t[j - 1];
      if i > 0 { assert r[i] == t[i - 1]; } else { assert t[j - 1] in t; }
    }
  }

  /**
    `sorted { a, b in key(a) > key(b) }`: newest first. The library sort
    leaves the order of equal keys open; this one keeps their order.
   */
  function SortDesc<T>(s: seq<T>, key: T -> Date): (r: seq<T>)
    ensures SortedDesc(r, key)
    ensures multiset(r) == multiset(s)
    ensures |r| == |s|
  {
    if s == [] then []
    else
      assert s == [s[0]] + s[1..];
      InsertDesc(s[0], SortDesc(s[1..], key), key)
  }

  // ---------------------------------------------------------------------
  // The signing screen's picker (SignaturesStore.loadAll)

  /** A decoded signature offered by the picker. */
  datatype StoreItem = StoreItem(url: Url, image: Size)

  /** The files that decode, in their order: the `nil` results `compactMap` drops. */
  function Decodable(s: seq<FileEntry>): (r: seq<FileEntry>)
    ensures |r| <= |s|
    ensures forall e :: multiset(r)[e] == if e.decoded.Some? then multiset(s)[e] else 0
    ensures SortedDesc(s, ResolvedDate) ==> SortedDesc(r, ResolvedDate)
  {
    if s == [] then []
    else
      assert s == [s[0]] + s[1..];
      var rest := Decodable(s[1..]);
      if s[0].decoded.Some? then
        DecodableKeepsOrder(s, rest);
        [s[0]] + rest
      else rest
  }

  /**
    Dropping files keeps a newest-first listing newest first: the first
    file is at least as new as every later file that is kept.
   */
  lemma DecodableKeepsOrder(s: seq<FileEntry>, rest: seq<FileEntry>)
    requires s != []
    requires forall e :: multiset(rest)[e] == if e.decoded.Some? then multiset(s[1..])[e] else 0
    requires SortedDesc(s, ResolvedDate) ==> SortedDesc(rest, ResolvedDate)
    ensures SortedDesc(s, ResolvedDate) ==> SortedDesc([s[0]] + rest, ResolvedDate)
  {
    if SortedDesc(s, ResolvedDate) {
      forall z | z in rest ensures ResolvedDate(z) <= ResolvedDate(s[0]) {
        assert multiset(rest)[z] > 0;
        assert z in multiset(s[1..]);
        var j :| 0 <= j < |s[1..]| && s[1..][j] == z;
        assert s[j + 1] == z;
      }
      PrependSorted(s[0], rest, ResolvedDate);
    }
  }

  /** `compactMap`: one item per decodable file, in order. */
  function Decoded(s: seq<FileEntry>): (r: seq<StoreItem>)
    ensures var d := Decodable(s);
            && |r| == |d|
            && forall k :: 0 <= k < |d| ==> d[k].decoded.Some? && r[k] == StoreItem(d[k].url, d[k].decoded.value)
  {
    var d := Decodable(s);
    DecodableDecodes(d, s);
    seq(|d|, k requires 0 <= k < |d| => StoreItem(d[k].url, d[k].decoded.GetOr(Size(0.0, 0.0))))
  }

  lemma DecodableDecodes(d: seq<FileEntry>, s: seq<FileEntry>)
    requires d == Decodable(s)
    ensures forall k :: 0 <= k < |d| ==> d[k].decoded.Some?
  {
    forall k | 0 <= k < |d| ensures d[k].decoded.Some? {
      assert multiset(d)[d[k]] > 0;
    }
  }

  /** PNG files, newest first, undecodable ones dropped. */
  function LoadAll(listing: seq<FileEntry>): (r: seq<StoreItem>)
    ensures |r| <= |listing|
  {
    Decoded(SortDesc(PngOnly(listing), ResolvedDate))
  }

  /**
    The picker offers exactly the decodable PNG files, newest first: item
    `k` is the file `d[k]`, where `d` holds each decodable PNG of the
    listing as often as the listing does, ordered by resolved date with
    the newest first.
   */
  lemma LoadAllOffersDecodablePngs(listing: seq<FileEntry>)
    ensures var d := Decodable(SortDesc(PngOnly(listing), ResolvedDate));
            && SortedDesc(d, ResolvedDate)
            && (forall e :: multiset(d)[e] == if IsPng(e) && e.decoded.Some? then multiset(listing)[e] else 0)
            && |LoadAll(listing)| == |d|
            && forall k :: 0 <= k < |d| ==>
                 d[k].decoded.Some? && LoadAll(listing)[k] == StoreItem(d[k].url, d[k].decoded.value)
  {
    var sorted := SortDesc(PngOnly(listing), ResolvedDate);
    var d := Decodable(sorted);
    forall e ensures multiset(d)[e] == if IsPng(e) && e.decoded.Some? then multiset(listing)[e] else 0 {
      assert multiset(sorted)[e] == multiset(PngOnly(listing))[e];
    }
  }

  /** Every decodable PNG of the listing is offered, and only those. */
  lemma LoadAllMembers(listing: seq<FileEntry>)
    ensures forall e :: e in listing && IsPng(e) && e.decoded.Some? ==>
              StoreItem(e.url, e.decoded.value) in LoadAll(listing)
    ensures forall x :: x in LoadAll(listing) ==>
              exists e :: e in listing && IsPng(e) && e.decoded == Some(x.image) && e.url == x.url
  {
    LoadAllOffersDecodablePngs(listing);
    ItemsOfFiles(listing, Decodable(SortDesc(PngOnly(listing), ResolvedDate)), LoadAll(listing));
  }

  lemma ItemsOfFiles(listing: seq<FileEntry>, d: seq<FileEntry>, items: seq<StoreItem>)
    requires forall e :: multiset(d)[e] == if IsPng(e) && e.decoded.Some? then multiset(listing)[e] else 0
    requires |items| == |d|
    requires forall k :: 0 <= k < |d| ==> d[k].decoded.Some? && items[k] == StoreItem(d[k].url, d[k].decoded.value)
    ensures forall e :: e in listing && IsPng(e) && e.decoded.Some? ==> StoreItem(e.url, e.decoded.value) in items
    ensures forall x :: x in items ==>
              exists e :: e in listing && IsPng(e) && e.decoded == Some(x.image) && e.url == x.url
  {
    forall e | e in listing && IsPng(e) && e.decoded.Some?
      ensures StoreItem(e.url, e.decoded.value) in items
    {
      assert multiset(d)[e] > 0;
      var k :| 0 <= k < |d| && d[k] == e;
      assert items[k] == StoreItem(e.url, e.decoded.value);
    }
    forall x | x in items
      ensures exists e :: e in listing && IsPng(e) && e.decoded == Some(x.image) && e.url == x.url
    {
      var k :| 0 <= k < |items| && items[k] == x;
      assert multiset(d)[d[k]] > 0;
      assert d[k] in listing && IsPng(d[k]);
    }
  }

  // ---------------------------------------------------------------------
  // Gallery listing (loadSignaturesFromDisk)

  /** One gallery cell: the file, its date and its thumbnail if it decoded. */
  datatype SignItem = SignItem(url: Url, date: Date, thumb: Option<Size>)

  function ItemDate(it: SignItem): Date { it.date }

  /** The cell built for one PNG file. */
  function ItemOf(e: FileEntry, maxThumbSide: real): SignItem {
    SignItem(e.url, ResolvedDate(e),
             match e.decoded
             case None => None
             case Some(sz) => Some(Scaled(sz, maxThumbSide)))
  }

  /** The cells of the PNG files of a listing, in listing order. */
  function Cells(pngs: seq<FileEntry>, maxThumbSide: real): (r: seq<SignItem>)
    ensures |r| == |pngs|
    ensures forall i :: 0 <= i < |pngs| ==> r[i] == ItemOf(pngs[i], maxThumbSide)
  {
    seq(|pngs|, i requires 0 <= i < |pngs| => ItemOf(pngs[i], maxThumbSide))
  }

  /**
    Reads the folder listing: one cell per PNG file, built in a loop, then
    sorted newest first. Undecodable files keep a cell without thumbnail.
   */
  method LoadGallery(listing: seq<FileEntry>, maxThumbSide: real) returns (items: seq<SignItem>)
    ensures items == SortDesc(Cells(PngOnly(listing), maxThumbSide), ItemDate)
  {
    var pngs := PngOnly(listing);
    var result: seq<SignItem> := [];
    for k := 0 to |pngs|
      invariant |result| == k
      invariant forall i :: 0 <= i < k ==> result[i] == ItemOf(pngs[i], maxThumbSide)
    {
      result := result + [ItemOf(pngs[k], maxThumbSide)];
    }
    assert result == Cells(pngs, maxThumbSide);
    items := SortDesc(result, ItemDate);
  }

  /** Every PNG file of the listing, decodable or not, gets its cell in the gallery. */
  lemma GalleryListsEveryPng(listing: seq<FileEntry>, maxThumbSide: real, e: FileEntry)
    requires e in listing && IsPng(e)
    ensures ItemOf(e, maxThumbSide) in SortDesc(Cells(PngOnly(listing), maxThumbSide), ItemDate)
  {
    var pngs := PngOnly(listing);
    var cells := Cells(pngs, maxThumbSide);
    var i :| 0 <= i < |pngs| && pngs[i] == e;
    assert cells[i] in multiset(cells);
  }

  /** Every gallery cell is the cell of a PNG file of the listing. */
  lemma GalleryListsOnlyPngs(listing: seq<FileEntry>, maxThumbSide: real, it: SignItem)
    requires it in SortDesc(Cells(PngOnly(listing), maxThumbSide), ItemDate)
    ensures exists e :: e in listing && IsPng(e) && it == ItemOf(e, maxThumbSide)
  {
    var pngs := PngOnly(listing);
    var cells := Cells(pngs, maxThumbSide);
    SortedMember(cells, ItemDate, it);
    var i :| 0 <= i < |cells| && cells[i] == it;
    assert pngs[i] in pngs;
  }

  /** Sorting adds no element. */
  lemma SortedMember<T>(s: seq<T>, key: T -> Date, x: T)
    requires x in SortDesc(s, key)
    ensures x in s
  {
    assert x in multiset(SortDesc(s, key));
  }

  // ---------------------------------------------------------------------
  // Thumbnail scaling (UIImage.scaled(maxSide:))

  /** The factor for an image of positive size: at most 1, so never enlarging. */
  function ScaleFactor(w: real, h: real, maxSide: real): (f: real)
    requires w > 0.0 && h > 0.0
    ensures 0.0 < f <= 1.0
  {
    DivFacts(Max(maxSide, 1.0), Max(w, h));
    Min(Max(maxSide, 1.0) / Max(w, h), 1.0)
  }

  /**
    Below 1 the factor brings the longest side to exactly max(maxSide, 1);
    it is 1 exactly when the longest side is already within that.
   */
  lemma ScaleFactorMeaning(w: real, h: real, maxSide: real)
    requires w > 0.0 && h > 0.0
    ensures ScaleFactor(w, h, maxSide) < 1.0 ==> ScaleFactor(w, h, maxSide) * Max(w, h) == Max(maxSide, 1.0)
    ensures ScaleFactor(w, h, maxSide) == 1.0 <==> Max(w, h) <= Max(maxSide, 1.0)
  {
    DivFacts(Max(maxSide, 1.0), Max(w, h));
  }

  lemma DivFacts(m: real, k: real)
    requires m > 0.0 && k > 0.0
    ensures (m / k) * k == m && m / k > 0.0
    ensures m / k >= 1.0 <==> k <= m
  {
    if m / k >= 1.0 {
      MulMonotone(k, 1.0, m / k);
    } else {
      MulStrict(k, m / k, 1.0);
    }
  }

  /** The thumbnail's size; unchanged for an empty side or a factor of 1. */
  function Scaled(image: Size, maxSide: real): Size {
    if image.width <= 0.0 || image.height <= 0.0 then image
    else
      var f := ScaleFactor(image.width, image.height, maxSide);
      if f == 1.0 then image else Size(image.width * f, image.height * f)
  }

  /**
    A thumbnail of a positive-size image keeps the aspect ratio, is no
    larger than the image, and its longest side is at most max(maxSide, 1).
   */
  lemma ScaledFits(image: Size, maxSide: real, r: Size)
    requires image.width > 0.0 && image.height > 0.0
    requires r == Scaled(image, maxSide)
    ensures r.width * image.height == r.height * image.width
    ensures 0.0 < r.width <= image.width && 0.0 < r.height <= image.height
    ensures Max(r.width, r.height) <= Max(maxSide, 1.0)
  {
    var f := ScaleFactor(image.width, image.height, maxSide);
    ScaleFactorMeaning(image.width, image.height, maxSide);
    if f < 1.0 {
      ShrunkFits(image.width, image.height, f, Max(maxSide, 1.0), r);
    }
  }

  lemma ShrunkFits(w: real, h: real, f: real, m: real, r: Size)
    requires w > 0.0 && h > 0.0 && 0.0 < f < 1.0 && f * Max(w, h) == m
    requires r == Size(w * f, h * f)
    ensures r.width * h == r.height * w
    ensures 0.0 < r.width <= w && 0.0 < r.height <= h
    ensures Max(r.width, r.height) <= m
  {
    ShrunkSide(w, f, r.width);
    ShrunkSide(h, f, r.height);
    MaxScales(w, h, f);
    ShrunkAspect(w, h, f, r);
  }

  lemma ShrunkSide(k: real, f: real, side: real)
    requires k > 0.0 && 0.0 < f < 1.0 && side == k * f
    ensures 0.0 < side <= k
  {
    ShrinkLe(k, f);
    PositiveProduct(k, f);
  }

  lemma ShrunkAspect(w: real, h: real, f: real, r: Size)
    requires r == Size(w * f, h * f)
    ensures r.width * h == r.height * w
  {
    assert (w * f) * h == (h * f) * w;
  }

  lemma ShrinkLe(k: real, f: real)
    requires k > 0.0 && f <= 1.0
    ensures k * f <= k
  {
    MulMonotone(k, f, 1.0);
  }

  lemma PositiveProduct(a: real, b: real)
    requires a > 0.0 && b > 0.0
    ensures a * b > 0.0
  {}

  lemma MaxScales(w: real, h: real, f: real)
    requires w > 0.0 && h > 0.0 && f > 0.0
    ensures Max(w * f, h * f) == f * Max(w, h)
  {
    if w >= h { MulMonotone(f, h, w); } else { MulMonotone(f, w, h); }
  }

  /** An image already within the limit is returned as it is. */
  lemma SmallImageUnchanged(image: Size, maxSide: real)
    requires image.width > 0.0 && image.height > 0.0
    requires Max(image.width, image.height) <= Max(maxSide, 1.0)
    ensures Scaled(image, maxSide) == image
  {
    ScaleFactorMeaning(image.width, image.height, maxSide);
  }
}
