/**
  The signature gallery screen: the listed cells and the set of selected
  file urls, edited by tapping cells, by the trash button and by a cell's
  context-menu delete. Removing the files themselves is not modelled:
  the source ignores its failures, and the list is pruned either way.
 */
module Gallery {
  import opened SignatureFiles

  /** Tapping a cell: its url leaves the selection if present, else joins it. */
  function Toggled(selection: set<Url>, url: Url): set<Url> {
    if url in selection then selection - {url} else selection + {url}
  }

  /** Toggling changes membership of exactly the tapped url. */
  lemma ToggleFlipsOnlyUrl(selection: set<Url>, url: Url, other: Url)
    ensures (url in Toggled(selection, url)) <==> (url !in selection)
    ensures other != url ==> ((other in Toggled(selection, url)) <==> (other in selection))
  {}

  /** Tapping the same cell twice restores the selection. */
  lemma ToggleTwiceIsIdentity(selection: set<Url>, url: Url)
    ensures Toggled(Toggled(selection, url), url) == selection
  {}

  /** The cells whose url is not in `urls`, in their order. */
  function WithoutUrls(items: seq<SignItem>, urls: set<Url>): (r: seq<SignItem>)
    ensures |r| <= |items|
    ensures forall it :: it in r <==> it in items && it.url !in urls
    ensures forall it :: multiset(r)[it] == if it.url in urls then 0 else multiset(items)[it]
  {
    if items == [] then []
    else
      assert items == [items[0]] + items[1..];
      (if items[0].url in urls then [] else [items[0]]) + WithoutUrls(items[1..], urls)
  }

  /**
    Pruning keeps the order of the cells: pruning a list made of two
    parts prunes each part and keeps them in that order. With the one-cell
    case (the body) this pins WithoutUrls down as the order-keeping filter.
   */
  lemma {:induction false} WithoutUrlsAppend(a: seq<SignItem>, b: seq<SignItem>, urls: set<Url>)
    ensures WithoutUrls(a + b, urls) == WithoutUrls(a, urls) + WithoutUrls(b, urls)
    decreases |a|
  {
    if a == [] {
      assert a + b == b;
    } else {
      var h := if a[0].url in urls then [] else [a[0]];
      WithoutUrlsAppend(a[1..], b, urls);
      SplitFirst(a, b);
      WithoutUrlsCons(a[0], a[1..] + b, urls);
      WithoutUrlsCons(a[0], a[1..], urls);
      Regroup(h, WithoutUrls(a[1..], urls), WithoutUrls(b, urls));
    }
  }

  lemma SplitFirst(a: seq<SignItem>, b: seq<SignItem>)
    requires a != []
    ensures a + b == [a[0]] + (a[1..] + b) && a == [a[0]] + a[1..]
  {}

  lemma FirstAndRest(s: seq<SignItem>)
    requires s != []
    ensures s == [s[0]] + s[1..]
  {}

  lemma Regroup(h: seq<SignItem>, x: seq<SignItem>, y: seq<SignItem>)
    ensures h + (x + y) == (h + x) + y
  {}

  /** Pruning a list with a first cell: that cell, kept or dropped, then the rest pruned. */
  lemma WithoutUrlsCons(x: SignItem, s: seq<SignItem>, urls: set<Url>)
    ensures WithoutUrls([x] + s, urls) == (if x.url in urls then [] else [x]) + WithoutUrls(s, urls)
  {
    assert ([x] + s)[1..] == s;
  }

  /** Pruning by one more url after a set is pruning by the larger set. */
  lemma {:induction false} WithoutUrlsStep(items: seq<SignItem>, urls: set<Url>, url: Url)
    ensures WithoutUrls(WithoutUrls(items, urls), {url}) == WithoutUrls(items, urls + {url})
    decreases |items|
  {
    if items != [] {
      WithoutUrlsStep(items[1..], urls, url);
      var rest := WithoutUrls(items[1..], urls);
      if items[0].url in urls {
        assert WithoutUrls(items, urls) == rest;
      } else {
        assert WithoutUrls(items, urls) == [items[0]] + rest;
        assert ([items[0]] + rest)[1..] == rest;
      }
    }
  }

  /** Pruning by no url keeps every cell. */
  lemma {:induction false} WithoutNoUrls(items: seq<SignItem>)
    ensures WithoutUrls(items, {}) == items
    decreases |items|
  {
    if items != [] {
      WithoutNoUrls(items[1..]);
      FirstAndRest(items);
      WithoutUrlsCons(items[0], items[1..], {});
    }
  }

  /** One round of the trash button's loop: pruning one more of the remaining urls. */
  lemma PruneStep(orig: seq<SignItem>, sel: set<Url>, rest: set<Url>, url: Url, kept: seq<SignItem>)
    requires kept == WithoutUrls(orig, sel - rest) && url in rest && rest <= sel
    ensures WithoutUrls(kept, {url}) == WithoutUrls(orig, sel - (rest - {url}))
  {
    WithoutUrlsStep(orig, sel - rest, url);
    OneMoreUrl(sel, rest, url);
    SameUrls(orig, (sel - rest) + {url}, sel - (rest - {url}));
  }

  lemma OneMoreUrl(sel: set<Url>, rest: set<Url>, url: Url)
    requires url in rest && rest <= sel
    ensures (sel - rest) + {url} == sel - (rest - {url})
  {}

  lemma SameUrls(items: seq<SignItem>, a: set<Url>, b: set<Url>)
    requires a == b
    ensures WithoutUrls(items, a) == WithoutUrls(items, b)
  {}

  lemma PruneDone(orig: seq<SignItem>, sel: set<Url>, rest: set<Url>, kept: seq<SignItem>)
    requires kept == WithoutUrls(orig, sel - rest) && rest == {}
    ensures kept == WithoutUrls(orig, sel)
  {
    assert sel - rest == sel;
  }

  /** The screen's state. */
  class GallerySession {
    var items: seq<SignItem>
    var selection: set<Url>

    constructor (listed: seq<SignItem>)
      ensures items == listed && selection == {}
    {
      items := listed;
      selection := {};
    }

    method ToggleSelect(url: Url)
      modifies this
      ensures selection == Toggled(old(selection), url)
      ensures items == old(items)
    {
      if url in selection {
        selection := selection - {url};
      } else {
        selection := selection + {url};
      }
    }

    /**
      The trash button: with nothing selected nothing happens; otherwise
      every cell with a selected url is dropped, one url at a time in no
      particular order, and the selection is emptied.
     */
    method DeleteSelected()
      modifies this
      ensures old(selection) == {} ==> items == old(items) && selection == {}
      ensures items == WithoutUrls(old(items), old(selection))
      ensures selection == {}
    {
      var orig, sel := items, selection;
      WithoutNoUrls(orig);
      if sel == {} {
        return;
      }
      var kept := orig;
      var rest := sel;
      assert sel - rest == {};
      while rest != {}
        invariant rest <= sel
        invariant kept == WithoutUrls(orig, sel - rest)
        decreases rest
      {
        var url :| url in rest;
        PruneStep(orig, sel, rest, url, kept);
        kept := WithoutUrls(kept, {url});
        rest := rest - {url};
      }
      PruneDone(orig, sel, rest, kept);
      selection := {};
      items := kept;
    }

    /** A cell's context-menu delete: select just that cell, then delete. */
    method ContextDelete(url: Url)
      modifies this
      ensures items == WithoutUrls(old(items), {url})
      ensures selection == {}
    {
      selection := {url};
      DeleteSelected();
    }
  }

  /**
    The context-menu delete drops exactly the cells of that url, even when
    others were selected, and forgets the earlier selection.
   */
  lemma ContextDeleteDropsOnlyUrl(items: seq<SignItem>, url: Url)
    ensures forall it :: it in WithoutUrls(items, {url}) <==> it in items && it.url != url
  {}
}
